/** `mail_analyser_smart.py`: polls for the newest email from one sender
    dated after a watermark, appends the table rows the language model
    extracts from it to `output.xlsx`, offers a usage alert, and persists
    the watermark in `last_time.txt`. */
module MailAnalyserSmart {

  import opened Wrappers
  import opened PyStr
  import opened Table
  import opened Workbook
  import opened Inbox
  import opened Alerting

  /** The header written on a new sheet. */
  const Header: Row := ["User", "Consumed Data", "Remaining Data"]

  /** Fetch status checked; only dates strictly after the cutoff qualify. */
  const Selection: Rule := Rule(checkStatus := true, inclusive := false)

  const AlertSubject: string := "Data Usage Alert"
  const AlertBody: string := "Hi,\n\nYour data consumption has exceeded 85%.\nPlease take necessary action.\n\nThanks"

  // ------------------------------------------------------ append_to_excel

  /** A data line of the table: it has a `"|"`, and is neither the header
      (it would mention "User") nor a separator (it would hold "-----"). */
  predicate IsDataLine(line: string)
  {
    Contains(line, "|") && !Contains(line, "User") && !Contains(line, "-----")
  }

  /** The rows extracted from some lines. */
  function RowsOf(lines: seq<string>): seq<Row>
  {
    CellRows(Filter(IsDataLine, lines))
  }

  /** The rows extracted from the model's output. */
  function Rows(llmOutput: string): seq<Row>
  {
    RowsOf(Lines(llmOutput))
  }

  /** The selection is exactly the data lines, and each row has the cells of
      its line, hence at least two. */
  lemma RowsAreDataLines(llmOutput: string)
    ensures forall line :: line in Filter(IsDataLine, Lines(llmOutput)) <==>
              line in Lines(llmOutput) && Contains(line, "|") && !Contains(line, "User") && !Contains(line, "-----")
    ensures forall k :: 0 <= k < |Rows(llmOutput)| ==>
              Rows(llmOutput)[k] == Cells(Filter(IsDataLine, Lines(llmOutput))[k]) && |Rows(llmOutput)[k]| >= 2
  {
    var lines := Lines(llmOutput);
    var kept := Filter(IsDataLine, lines);
    forall line ensures line in kept <==> line in lines && IsDataLine(line) {
      FilterMembers(IsDataLine, lines, line);
    }
    forall k | 0 <= k < |kept| ensures |Cells(kept[k])| >= 2 {
      FilterMembers(IsDataLine, lines, kept[k]);
      PipeLineHasTwoCells(kept[k]);
    }
  }

  /** Rows come out in the order of their lines. */
  lemma RowsInLineOrder(a: seq<string>, b: seq<string>)
    ensures RowsOf(a + b) == RowsOf(a) + RowsOf(b)
  {
    FilterConcat(IsDataLine, a, b);
  }

  /** The row-building loop of `append_to_excel`. */
  method CollectRows(llmOutput: string) returns (rows: seq<Row>)
    ensures rows == Rows(llmOutput)
  {
    var lines := Lines(llmOutput);
    rows := [];
    for i := 0 to |lines|
      invariant rows == RowsOf(lines[..i])
    {
      var line := lines[i];
      assert lines[..i + 1] == lines[..i] + [line];
      KeptRowsSnoc(IsDataLine, lines[..i], line);
      if Contains(line, "|") && !Contains(line, "User") && !Contains(line, "-----") {
        rows := rows + [Cells(line)];
      }
    }
    assert lines[..|lines|] == lines;
  }

  /** `append_to_excel`: nothing is written when no row is extracted;
      otherwise the rows are appended to the existing sheet, or to a new
      sheet that starts with the header. */
  method AppendToExcel(llmOutput: string, disk: Disk)
    modifies disk
    ensures disk.workbook == AppendRows(old(disk.workbook), Header, Rows(llmOutput))
    ensures disk.lastTime == old(disk.lastTime)
  {
    var rows := CollectRows(llmOutput);
    AppendSheet(disk, Header, rows);
  }

  // ----------------------------------------------- fetch_email_after_date

  /** `fetch_email_after_date`: the body and date of the newest message
      dated strictly after `afterUtc`, or `(None, afterUtc)`. */
  method FetchEmailAfterDate(mailbox: seq<Message>, afterUtc: int) returns (body: Option<string>, emailTime: int)
    ensures Newest(Selection, mailbox, afterUtc).None? ==> body.None? && emailTime == afterUtc
    ensures Newest(Selection, mailbox, afterUtc).Some? ==>
              var m := Newest(Selection, mailbox, afterUtc).value;
              body == Some(BodyText(m.content)) && emailTime == m.date.value && emailTime > afterUtc
  {
    var found := Scan(Selection, mailbox, afterUtc);
    SelectOfCheckedRule(Selection, mailbox, afterUtc);
    if !found.Found? {
      return None, afterUtc;
    }
    var text := ExtractBody(found.m.content);
    return Some(text), found.m.date.value;
  }

  /** The selection rule stated outright: the chosen message was fetched,
      is dated strictly after the cutoff, and no later message in the search
      result qualifies; nothing is chosen when no message qualifies. */
  lemma SelectionIsNewestStrictlyAfter(mailbox: seq<Message>, afterUtc: int)
    ensures Newest(Selection, mailbox, afterUtc).None? <==>
            forall i :: 0 <= i < |mailbox| ==>
              !mailbox[i].fetchOk || mailbox[i].date.None? || mailbox[i].date.value <= afterUtc
    ensures Newest(Selection, mailbox, afterUtc).Some? ==>
            exists i :: LatestAccepted(Selection, mailbox, afterUtc, i)
                        && mailbox[i] == Newest(Selection, mailbox, afterUtc).value
                        && mailbox[i].fetchOk && mailbox[i].date.value > afterUtc
  {
    NewestIsLatestAccepted(Selection, mailbox, afterUtc);
  }

  // ------------------------------------------------- handle_warning_if_any

  /** "notify the user" occurs in the lowercased output. */
  predicate NotifySuggested(llmOutput: string)
  {
    Contains(Lower(llmOutput), "notify the user")
  }

  /** `handle_warning_if_any`: the alert sent, if any; `reply` is what the
      operator types at the prompt (asked only when the output suggests it). */
  function HandleWarningIfAny(llmOutput: string, sender: string, reply: string): Option<Alert>
  {
    if NotifySuggested(llmOutput) && Confirmed(reply) then Some(Alert(sender, AlertSubject, AlertBody)) else None
  }

  /** The suggestion is recognised in any mix of cases: two outputs that
      differ only in the case of their letters get the same answer. */
  lemma NotifyIgnoresCase(o1: string, o2: string)
    requires |o1| == |o2| && forall k :: 0 <= k < |o1| ==> SameIgnoringCase(o1[k], o2[k])
    ensures NotifySuggested(o1) == NotifySuggested(o2)
  {
    LowerEqualIff(o1, o2);
  }

  /** The decision stated outright: an alert is sent exactly when "notify
      the user" occurs somewhere in the lowercased output and the operator's
      reply is "yes" in any case with only whitespace around it. */
  lemma HandleWarningDecision(llmOutput: string, sender: string, reply: string)
    ensures HandleWarningIfAny(llmOutput, sender, reply).Some? <==>
            (exists i :: OccursAt(Lower(llmOutput), "notify the user", i)) && (exists j :: YesAt(reply, j))
    ensures HandleWarningIfAny(llmOutput, sender, reply).Some? ==>
            HandleWarningIfAny(llmOutput, sender, reply).value == Alert(sender, "Data Usage Alert", AlertBody)
  {
    ContainsAt(Lower(llmOutput), "notify the user");
    ConfirmedIff(reply);
  }

  // ------------------------------------------------------------ main loop

  /** What one iteration of the polling loop sees: the sender's messages,
      what the language model answers for the email found (if one is), and
      what the operator types if asked. */
  datatype Poll = Poll(mailbox: seq<Message>, llmOutput: string, reply: string)

  /** The loop's state: the watermark `last_ts`, the two files, and the
      alerts sent so far. */
  datatype State = State(lastTs: int, workbook: Option<seq<Row>>, lastTime: Option<int>, alerts: seq<Alert>)

  /** The starting watermark: the saved timestamp, else `FILTER_START_DATE`. */
  function InitialWatermark(saved: Option<int>, filterStart: int): int
  {
    if saved.None? then filterStart else saved.value
  }

  /** `if email_body:` — an email was found and its body is not empty. */
  predicate Processes(lastTs: int, p: Poll)
  {
    var m := Newest(Selection, p.mailbox, lastTs);
    m.Some? && BodyText(m.value.content) != ""
  }

  /** One iteration of the polling loop. */
  function PollOnce(s: State, p: Poll, sender: string): State
  {
    var m := Newest(Selection, p.mailbox, s.lastTs);
    if m.Some? && BodyText(m.value.content) != "" then
      var alert := HandleWarningIfAny(p.llmOutput, sender, p.reply);
      State(m.value.date.value,
            AppendRows(s.workbook, Header, Rows(p.llmOutput)),
            Some(m.value.date.value),
            s.alerts + (if alert.Some? then [alert.value] else []))
    else s
  }

  /** The state after a sequence of polls. */
  function RunPolls(s: State, polls: seq<Poll>, sender: string): State
  {
    if polls == [] then s
    else PollOnce(RunPolls(s, polls[..|polls| - 1], sender), polls[|polls| - 1], sender)
  }

  /** The watermark changes only when an email is processed, and then it
      becomes that email's date, which is strictly later; otherwise nothing
      changes at all. */
  lemma PollOnceWatermark(s: State, p: Poll, sender: string)
    ensures PollOnce(s, p, sender).lastTs != s.lastTs <==> Processes(s.lastTs, p)
    ensures Processes(s.lastTs, p) ==>
              PollOnce(s, p, sender).lastTs == Newest(Selection, p.mailbox, s.lastTs).value.date.value
              && PollOnce(s, p, sender).lastTs > s.lastTs
              && PollOnce(s, p, sender).lastTime == Some(PollOnce(s, p, sender).lastTs)
    ensures !Processes(s.lastTs, p) ==> PollOnce(s, p, sender) == s
  {
  }

  /** Over any run the watermark never goes back. */
  lemma {:induction false} WatermarkNeverDecreases(s: State, polls: seq<Poll>, sender: string)
    ensures RunPolls(s, polls, sender).lastTs >= s.lastTs
  {
    if polls != [] {
      WatermarkNeverDecreases(s, polls[..|polls| - 1], sender);
      PollOnceWatermark(RunPolls(s, polls[..|polls| - 1], sender), polls[|polls| - 1], sender);
    }
  }

  /** `last_time.txt` is either untouched or holds the current watermark. */
  lemma {:induction false} TimestampFileFollowsWatermark(s: State, polls: seq<Poll>, sender: string)
    ensures var r := RunPolls(s, polls, sender);
            (r.lastTime == s.lastTime && r.lastTs == s.lastTs) || r.lastTime == Some(r.lastTs)
  {
    if polls != [] {
      TimestampFileFollowsWatermark(s, polls[..|polls| - 1], sender);
    }
  }

  /** The spreadsheet only grows: what it held before a run is a prefix of
      what it holds after. */
  lemma {:induction false} WorkbookOnlyGrows(s: State, polls: seq<Poll>, sender: string)
    requires s.workbook.Some?
    ensures var r := RunPolls(s, polls, sender);
            r.workbook.Some? && |s.workbook.value| <= |r.workbook.value|
            && r.workbook.value[..|s.workbook.value|] == s.workbook.value
  {
    if polls != [] {
      var mid := RunPolls(s, polls[..|polls| - 1], sender);
      WorkbookOnlyGrows(s, polls[..|polls| - 1], sender);
      AppendRowsKeepsPrior(mid.workbook.value, Header, Rows(polls[|polls| - 1].llmOutput));
    }
  }

  /** The program: `FILTER_START_DATE` is parsed first (`None` when it is
      invalid, and the script exits); then the watermark is read from
      `last_time.txt` and the loop runs once per poll. */
  method Monitor(filterStart: Option<int>, sender: string, polls: seq<Poll>, disk: Disk)
    returns (lastTs: int, alerts: seq<Alert>)
    modifies disk
    ensures filterStart.None? ==>
              alerts == [] && disk.workbook == old(disk.workbook) && disk.lastTime == old(disk.lastTime)
    ensures filterStart.Some? ==>
              var init := State(InitialWatermark(old(disk.lastTime), filterStart.value), old(disk.workbook), old(disk.lastTime), []);
              State(lastTs, disk.workbook, disk.lastTime, alerts) == RunPolls(init, polls, sender)
  {
    alerts := [];
    if filterStart.None? {
      return 0, alerts;
    }
    lastTs := InitialWatermark(disk.lastTime, filterStart.value);
    ghost var init := State(lastTs, disk.workbook, disk.lastTime, []);
    for i := 0 to |polls|
      invariant State(lastTs, disk.workbook, disk.lastTime, alerts) == RunPolls(init, polls[..i], sender)
    {
      var p := polls[i];
      assert polls[..i + 1][..i] == polls[..i];
      var emailBody, emailTime := FetchEmailAfterDate(p.mailbox, lastTs);
      if emailBody.Some? && emailBody.value != "" {
        AppendToExcel(p.llmOutput, disk);
        var alert := HandleWarningIfAny(p.llmOutput, sender, p.reply);
        if alert.Some? {
          alerts := alerts + [alert.value];
        }
        lastTs := emailTime;
        disk.SaveLastTimestamp(lastTs);
      }
    }
    assert polls[..|polls|] == polls;
  }
}
