/** Where the three scripts part ways, shown on concrete inputs. */
module Contrasts {

  import opened Wrappers
  import opened PyStr
  import opened Table
  import opened Workbook
  import opened Inbox
  import MailAnalyser
  import MailAnalyserSmart
  import EmailLlmMonitorOld

  /** An email dated exactly at the cutoff is chosen by `mail_analyser.py`
      (it skips only `email_date < after_utc`) and by neither of the others
      (they skip `email_date <= after_utc`). */
  lemma CutoffInclusiveOnlyInAnalyser(cutoff: int, content: Content)
    ensures var m := Message(true, Some(cutoff), content);
            && Newest(MailAnalyser.Selection, [m], cutoff) == Some(m)
            && Newest(MailAnalyserSmart.Selection, [m], cutoff) == None
            && Select(EmailLlmMonitorOld.Selection, [m], cutoff) == NotFound
  {
  }

  /** A message whose fetch did not report "OK" is skipped by the two
      scripts that test the status, whatever its date; the old script does
      not skip it and raises there. */
  lemma FailedFetchRaisesOnlyInOld(cutoff: int, date: Option<int>, content: Content)
    ensures var m := Message(false, date, content);
            && Newest(MailAnalyser.Selection, [m], cutoff) == None
            && Newest(MailAnalyserSmart.Selection, [m], cutoff) == None
            && Select(EmailLlmMonitorOld.Selection, [m], cutoff) == Raised
  {
  }

  /** A newer failed fetch hides an older new email from the old script
      alone: `mail_analyser_smart.py` passes over the failure and returns the
      email, while the old script raises before reaching it. */
  lemma FailedFetchHidesOlderEmailInOld(cutoff: int, email: Message, failed: Message)
    requires email.fetchOk && email.date.Some? && cutoff < email.date.value
    requires !failed.fetchOk
    ensures Newest(MailAnalyserSmart.Selection, [email, failed], cutoff) == Some(email)
    ensures Select(EmailLlmMonitorOld.Selection, [email, failed], cutoff) == Raised
  {
  }

  /** Only the newest qualifying email is chosen: an older one that also
      qualifies is passed over, and once the watermark has moved to the
      newer one's date it never qualifies again. */
  lemma OlderNewEmailIsPassedOver(cutoff: int, older: Message, newer: Message)
    requires older.fetchOk && older.date.Some? && cutoff < older.date.value
    requires newer.fetchOk && newer.date.Some? && older.date.value <= newer.date.value
    ensures Newest(MailAnalyserSmart.Selection, [older, newer], cutoff) == Some(newer)
    ensures !Accepts(MailAnalyserSmart.Selection, older, newer.date.value)
  {
  }

  /** The lines the script filters disagree on: the table's own header and
      its dashed separator become rows in `mail_analyser.py` and not in
      `mail_analyser_smart.py`. */
  lemma HeaderAndSeparatorRowsOnlyInAnalyser()
    ensures MailAnalyser.HasPipe("User | Consumed") && !MailAnalyserSmart.IsDataLine("User | Consumed")
    ensures MailAnalyser.HasPipe("-----|---") && !MailAnalyserSmart.IsDataLine("-----|---")
  {
    HeaderRowShape();
    SeparatorRowShape();
  }

  lemma HeaderRowShape()
    ensures Contains("User | Consumed", "|") && Contains("User | Consumed", "User")
  {
    assert "User | Consumed"[5..6] == "|";
    assert OccursAt("User | Consumed", "|", 5);
    assert OccursAt("User | Consumed", "User", 0);
    ContainsAt("User | Consumed", "|");
    ContainsAt("User | Consumed", "User");
  }

  lemma SeparatorRowShape()
    ensures Contains("-----|---", "|") && Contains("-----|---", "-----")
  {
    assert "-----|---"[5..6] == "|";
    assert OccursAt("-----|---", "|", 5);
    assert OccursAt("-----|---", "-----", 0);
    ContainsAt("-----|---", "|");
    ContainsAt("-----|---", "-----");
  }

  /** With no table in the model's answer, `mail_analyser.py` still
      overwrites `output.xlsx` with an empty sheet, while the appending
      scripts leave the file as it was. */
  lemma EmptyAnswerOverwritesOnlyInAnalyser(existing: Option<seq<Row>>, stamp: string)
    ensures MailAnalyser.Rows("") == []
    ensures AppendRows(existing, MailAnalyserSmart.Header, MailAnalyserSmart.Rows("")) == existing
    ensures AppendRows(existing, EmailLlmMonitorOld.Header, EmailLlmMonitorOld.Rows("", stamp)) == existing
  {
    assert Lines("") == [];
  }
}
