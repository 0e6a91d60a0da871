/** The inbox as the scripts see it after `imap.search(None, 'FROM "…"')`:
    the sender's messages in the order the search lists them (oldest first),
    each with the outcome of `imap.fetch`, its parsed `Date` header and its
    content. Timestamps are integers (microseconds since the Unix epoch, UTC). */
module Inbox {

  import opened Wrappers

  /** A part visited by `msg.walk()`: the value of `get_content_type()` and
      the decoded payload. */
  datatype Part = Part(contentType: string, payload: string)

  /** A message body: one payload, or the parts `msg.walk()` yields, in walk
      order (the multipart container itself and nested containers included). */
  datatype Content = SinglePart(payload: string) | Multipart(walk: seq<Part>)

  /** A fetched message: whether `imap.fetch` reported "OK", the `Date` header
      converted to UTC (`None` when `parsedate_to_datetime` raises), and the
      content. */
  datatype Message = Message(fetchOk: bool, date: Option<int>, content: Content)

  /** How a script decides that a message is new enough: whether it skips
      messages whose fetch failed, and whether a message dated exactly at the
      cutoff is accepted. */
  datatype Rule = Rule(checkStatus: bool, inclusive: bool)

  /** The tests of the scan loop that do not `continue`. */
  predicate Accepts(rule: Rule, m: Message, cutoff: int)
  {
    && (rule.checkStatus ==> m.fetchOk)
    && m.date.Some?
    && (if rule.inclusive then m.date.value >= cutoff else m.date.value > cutoff)
  }

  /** The message the scan of a script that tests the fetch status returns:
      the last accepted one in search order. */
  function Newest(rule: Rule, mailbox: seq<Message>, cutoff: int): (r: Option<Message>)
    ensures r.Some? ==> Accepts(rule, r.value, cutoff)
  {
    if mailbox == [] then None
    else if Accepts(rule, mailbox[|mailbox| - 1], cutoff) then Some(mailbox[|mailbox| - 1])
    else Newest(rule, mailbox[..|mailbox| - 1], cutoff)
  }

  /** Message `i` is accepted and no message after it in search order is. */
  ghost predicate LatestAccepted(rule: Rule, mailbox: seq<Message>, cutoff: int, i: int)
  {
    && 0 <= i < |mailbox|
    && Accepts(rule, mailbox[i], cutoff)
    && forall j :: i < j < |mailbox| ==> !Accepts(rule, mailbox[j], cutoff)
  }

  /** The selection, stated outright: nothing is found exactly when no
      message is accepted; otherwise the one found is the newest accepted one. */
  lemma {:induction false} NewestIsLatestAccepted(rule: Rule, mailbox: seq<Message>, cutoff: int)
    ensures Newest(rule, mailbox, cutoff).None? <==>
            forall i :: 0 <= i < |mailbox| ==> !Accepts(rule, mailbox[i], cutoff)
    ensures Newest(rule, mailbox, cutoff).Some? ==>
            exists i :: LatestAccepted(rule, mailbox, cutoff, i) && mailbox[i] == Newest(rule, mailbox, cutoff).value
  {
    if mailbox != [] {
      var n := |mailbox| - 1;
      if Accepts(rule, mailbox[n], cutoff) {
        assert LatestAccepted(rule, mailbox, cutoff, n);
      } else {
        var init := mailbox[..n];
        NewestIsLatestAccepted(rule, init, cutoff);
        forall i | 0 <= i < n ensures mailbox[i] == init[i] { }
        if Newest(rule, init, cutoff).Some? {
          var i :| LatestAccepted(rule, init, cutoff, i) && init[i] == Newest(rule, init, cutoff).value;
          assert LatestAccepted(rule, mailbox, cutoff, i);
        }
      }
    }
  }

  /** How the scan over `reversed(email_ids)` ends: with the message it
      returns, with nothing, or with the exception a failed fetch raises in a
      script that reads `msg_data[0][1]` without testing the status. */
  datatype Outcome = Found(m: Message) | NotFound | Raised

  /** The scan ends at `m`: it returns it, or it raises on it. */
  predicate Stops(rule: Rule, m: Message, cutoff: int)
  {
    (!rule.checkStatus && !m.fetchOk) || Accepts(rule, m, cutoff)
  }

  /** How the scan ends, for any rule. Only a script that does not test the
      fetch status can raise, and what it returns was fetched. */
  function Select(rule: Rule, mailbox: seq<Message>, cutoff: int): (r: Outcome)
    ensures r.Found? ==> Accepts(rule, r.m, cutoff) && r.m.fetchOk
    ensures r.Raised? ==> !rule.checkStatus
  {
    if mailbox == [] then NotFound
    else
      var last := mailbox[|mailbox| - 1];
      if !rule.checkStatus && !last.fetchOk then Raised
      else if Accepts(rule, last, cutoff) then Found(last)
      else Select(rule, mailbox[..|mailbox| - 1], cutoff)
  }

  /** Message `i` ends the scan and no message after it in search order does. */
  ghost predicate StopsLastAt(rule: Rule, mailbox: seq<Message>, cutoff: int, i: int)
  {
    && 0 <= i < |mailbox|
    && Stops(rule, mailbox[i], cutoff)
    && forall j :: i < j < |mailbox| ==> !Stops(rule, mailbox[j], cutoff)
  }

  /** The scan ends at the newest message it stops at: it finds nothing
      exactly when it stops at none; otherwise it raises exactly when that
      message's fetch failed, and returns that message when it does not raise. */
  lemma {:induction false} SelectIsLastStop(rule: Rule, mailbox: seq<Message>, cutoff: int)
    ensures Select(rule, mailbox, cutoff).NotFound? <==>
            forall i :: 0 <= i < |mailbox| ==> !Stops(rule, mailbox[i], cutoff)
    ensures !Select(rule, mailbox, cutoff).NotFound? ==>
            exists i :: && StopsLastAt(rule, mailbox, cutoff, i)
                        && (Select(rule, mailbox, cutoff).Raised? <==> !rule.checkStatus && !mailbox[i].fetchOk)
                        && (Select(rule, mailbox, cutoff).Found? ==> Select(rule, mailbox, cutoff).m == mailbox[i])
  {
    if mailbox != [] {
      var n := |mailbox| - 1;
      if Stops(rule, mailbox[n], cutoff) {
        assert StopsLastAt(rule, mailbox, cutoff, n);
      } else {
        var init := mailbox[..n];
        SelectIsLastStop(rule, init, cutoff);
        forall i | 0 <= i < n ensures mailbox[i] == init[i] { }
        if !Select(rule, init, cutoff).NotFound? {
          var i :| && StopsLastAt(rule, init, cutoff, i)
                   && (Select(rule, init, cutoff).Raised? <==> !rule.checkStatus && !init[i].fetchOk)
                   && (Select(rule, init, cutoff).Found? ==> Select(rule, init, cutoff).m == init[i]);
          assert StopsLastAt(rule, mailbox, cutoff, i);
        }
      }
    }
  }

  /** For a script that tests the fetch status the scan never raises, and it
      returns what `Newest` selects. */
  lemma {:induction false} SelectOfCheckedRule(rule: Rule, mailbox: seq<Message>, cutoff: int)
    requires rule.checkStatus
    ensures Select(rule, mailbox, cutoff) ==
            if Newest(rule, mailbox, cutoff).Some? then Found(Newest(rule, mailbox, cutoff).value) else NotFound
  {
    if mailbox != [] {
      SelectOfCheckedRule(rule, mailbox[..|mailbox| - 1], cutoff);
    }
  }

  /** The scan loop of `fetch_email_after_date`: newest first, skipping what
      the rule rejects, stopping at the first message it accepts, or raising
      at a failed fetch when the status is not tested. */
  method Scan(rule: Rule, mailbox: seq<Message>, cutoff: int) returns (r: Outcome)
    ensures r == Select(rule, mailbox, cutoff)
  {
    var i := |mailbox|;
    assert mailbox[..i] == mailbox;
    while i > 0
      invariant 0 <= i <= |mailbox|
      invariant Select(rule, mailbox, cutoff) == Select(rule, mailbox[..i], cutoff)
    {
      var m := mailbox[i - 1];
      assert mailbox[..i][..i - 1] == mailbox[..i - 1];
      if !m.fetchOk {
        if !rule.checkStatus {
          return Raised;
        }
      } else if m.date.Some? {
        if rule.inclusive && m.date.value >= cutoff {
          return Found(m);
        }
        if !rule.inclusive && m.date.value > cutoff {
          return Found(m);
        }
      }
      i := i - 1;
    }
    return NotFound;
  }

  /** The concatenation, in walk order, of the `text/plain` payloads. */
  function PlainText(walk: seq<Part>): string
  {
    if walk == [] then []
    else
      var last := walk[|walk| - 1];
      PlainText(walk[..|walk| - 1]) + (if last.contentType == "text/plain" then last.payload else [])
  }

  /** The body handed to the language model. */
  function BodyText(c: Content): string
  {
    match c
    case SinglePart(payload) => payload
    case Multipart(walk) => PlainText(walk)
  }

  /** Bodies of consecutive runs of parts are concatenated in order. */
  lemma {:induction false} PlainTextConcat(a: seq<Part>, b: seq<Part>)
    ensures PlainText(a + b) == PlainText(a) + PlainText(b)
    decreases |b|
  {
    if b == [] {
      assert a + b == a;
    } else {
      var b' := b[..|b| - 1];
      assert (a + b)[..|a + b| - 1] == a + b';
      PlainTextConcat(a, b');
    }
  }

  /** Only `text/plain` parts contribute: a walk without one (an HTML-only
      message, say) yields the empty body. */
  lemma {:induction false} PlainTextOfOtherParts(walk: seq<Part>)
    requires forall k :: 0 <= k < |walk| ==> walk[k].contentType != "text/plain"
    ensures PlainText(walk) == []
  {
    if walk != [] {
      PlainTextOfOtherParts(walk[..|walk| - 1]);
    }
  }

  /** The body-building code: `body += …` for every `text/plain` part of a
      multipart message, the single payload otherwise. */
  method ExtractBody(c: Content) returns (body: string)
    ensures body == BodyText(c)
  {
    match c
    case SinglePart(payload) =>
      body := payload;
    case Multipart(walk) =>
      body := "";
      for i := 0 to |walk|
        invariant body == PlainText(walk[..i])
      {
        assert walk[..i + 1][..i] == walk[..i];
        if walk[i].contentType == "text/plain" {
          body := body + walk[i].payload;
        }
      }
      assert walk[..|walk|] == walk;
  }
}
