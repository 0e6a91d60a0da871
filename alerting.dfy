/** The alert emails a script may send through `send_alert_email`, and the
    operator's confirmation at the `input()` prompt that precedes each one. */
module Alerting {

  import opened PyStr

  /** One call of `send_alert_email(to_email, subject, body)`. */
  datatype Alert = Alert(to: string, subject: string, body: string)

  /** `input(...).strip().lower() == "yes"`. */
  predicate Confirmed(reply: string)
  {
    Lower(Strip(reply)) == "yes"
  }

  /** `reply` is "yes" in any mix of cases, starting at position `i`, with
      nothing but whitespace around it. */
  ghost predicate YesAt(reply: string, i: int)
  {
    0 <= i <= |reply| - 3 && AllSpace(reply[..i]) && Lower(reply[i..i + 3]) == "yes" && AllSpace(reply[i + 3..])
  }

  /** The operator confirms exactly by typing "yes", in any case, with any
      whitespace around it; every other answer declines. */
  lemma ConfirmedIff(reply: string)
    ensures Confirmed(reply) <==> exists i :: YesAt(reply, i)
  {
    if Confirmed(reply) {
      ConfirmedIsPaddedYes(reply);
    }
    if exists i :: YesAt(reply, i) {
      var i :| YesAt(reply, i);
      PaddedYesConfirms(reply, i);
    }
  }

  lemma ConfirmedIsPaddedYes(reply: string)
    requires Confirmed(reply)
    ensures exists i :: YesAt(reply, i)
  {
    var r := Strip(reply);
    StripIsTrimmedSlice(reply);
    var i :| StrippedAt(reply, r, i);
    assert |r| == 3;
    assert reply[i..i + 3] == r;
    assert YesAt(reply, i);
  }

  lemma PaddedYesConfirms(reply: string, i: int)
    requires YesAt(reply, i)
    ensures Confirmed(reply)
  {
    var w, m, w' := reply[..i], reply[i..i + 3], reply[i + 3..];
    assert Lower(m)[0] == 'y' && Lower(m)[2] == 's';
    assert !IsSpace(m[0]) && !IsSpace(m[2]);
    assert reply == w + m + w';
    StripPadded(w, m, w');
  }
}
