/** `email_llm_monitor_old.py`: polls for the newest email from one sender
    dated after a watermark, appends the extracted rows, each prefixed with
    the email's date, to `output.xlsx`, asks the operator about every row
    flagged "Yes" in its Notify column, and persists the watermark. */
module EmailLlmMonitorOld {

  import opened Wrappers
  import opened PyStr
  import opened Table
  import opened Workbook
  import opened Inbox
  import opened Alerting

  /** The header written on a new sheet. */
  const Header: Row := ["Date", "User", "Consumed Data", "Remaining Data", "Notify"]

  /** No fetch-status test; only dates strictly after the cutoff qualify. */
  const Selection: Rule := Rule(checkStatus := false, inclusive := false)

  const AlertSubject: string := "Consumption Report from Admin"

  // ------------------------------------------------------ append_to_excel

  /** A line both `append_to_excel` and `handle_notification` look at: it has
      a `"|"` and does not mention "User". */
  predicate IsCandidate(line: string)
  {
    Contains(line, "|") && !Contains(line, "User")
  }

  /** A candidate with at least three cells: the lines that become rows. */
  predicate IsRecordLine(line: string)
  {
    IsCandidate(line) && |Cells(line)| >= 3
  }

  /** Each row preceded by the formatted email date. */
  function Stamped(stamp: string, rows: seq<Row>): seq<Row>
  {
    seq(|rows|, k requires 0 <= k < |rows| => [stamp] + rows[k])
  }

  function RowsOf(lines: seq<string>, stamp: string): seq<Row>
  {
    Stamped(stamp, CellRows(Filter(IsRecordLine, lines)))
  }

  /** The rows extracted from the model's output for an email whose date
      formats as `stamp`. */
  function Rows(llmOutput: string, stamp: string): seq<Row>
  {
    RowsOf(Lines(llmOutput), stamp)
  }

  /** A line becomes a row exactly when it has a `"|"`, does not mention
      "User" and splits into at least three cells; the row is the date
      followed by those cells, so it has one column more than the line has
      cells, and at least four. */
  lemma RowsAreStampedRecordLines(llmOutput: string, stamp: string)
    ensures forall line :: line in Filter(IsRecordLine, Lines(llmOutput)) <==>
              line in Lines(llmOutput) && Contains(line, "|") && !Contains(line, "User") && |Cells(line)| >= 3
    ensures forall k :: 0 <= k < |Rows(llmOutput, stamp)| ==>
              var cells := Cells(Filter(IsRecordLine, Lines(llmOutput))[k]);
              Rows(llmOutput, stamp)[k] == [stamp] + cells
              && |Rows(llmOutput, stamp)[k]| == |cells| + 1 >= 4
  {
    var lines := Lines(llmOutput);
    var kept := Filter(IsRecordLine, lines);
    forall line ensures line in kept <==> line in lines && IsRecordLine(line) {
      FilterMembers(IsRecordLine, lines, line);
    }
    forall k | 0 <= k < |kept| ensures |Cells(kept[k])| >= 3 {
      FilterMembers(IsRecordLine, lines, kept[k]);
    }
  }

  /** Rows come out in the order of their lines. */
  lemma RowsInLineOrder(a: seq<string>, b: seq<string>, stamp: string)
    ensures RowsOf(a + b, stamp) == RowsOf(a, stamp) + RowsOf(b, stamp)
  {
    FilterConcat(IsRecordLine, a, b);
  }

  /** The row-building loop of `append_to_excel`. */
  method CollectRows(llmOutput: string, stamp: string) returns (rows: seq<Row>)
    ensures rows == Rows(llmOutput, stamp)
  {
    var lines := Lines(llmOutput);
    rows := [];
    for i := 0 to |lines|
      invariant rows == RowsOf(lines[..i], stamp)
    {
      var line := lines[i];
      assert lines[..i + 1] == lines[..i] + [line];
      KeptRowsSnoc(IsRecordLine, lines[..i], line);
      if Contains(line, "|") && !Contains(line, "User") {
        var cells := Cells(line);
        if |cells| >= 3 {
          rows := rows + [[stamp] + cells];
        }
      }
    }
    assert lines[..|lines|] == lines;
  }

  /** `append_to_excel`: `format` is `strftime("%Y-%m-%d %H:%M:%S")`; nothing
      is written when no row is kept; otherwise the rows are appended to the
      existing sheet, or to a new sheet that starts with the five-column header. */
  method AppendToExcel(llmOutput: string, emailTime: int, format: int -> string, disk: Disk)
    modifies disk
    ensures disk.workbook == AppendRows(old(disk.workbook), Header, Rows(llmOutput, format(emailTime)))
    ensures disk.lastTime == old(disk.lastTime)
  {
    var rows := CollectRows(llmOutput, format(emailTime));
    AppendSheet(disk, Header, rows);
  }

  // -------------------------------------------------- handle_notification

  /** The per-row test of `handle_notification`: a candidate line with at
      least four parts whose fourth part, lowercased, is "yes". */
  predicate IsNotifyLine(line: string)
  {
    IsCandidate(line) && |Cells(line)| >= 4 && Lower(Cells(line)[3]) == "yes"
  }

  /** Every line that prompts the operator was also written to the sheet,
      and there its flag stands in the column headed "Notify". */
  lemma PromptedLinesAreRecorded(lines: seq<string>, line: string, stamp: string)
    requires line in Filter(IsNotifyLine, lines)
    ensures line in Filter(IsRecordLine, lines)
    ensures var row := [stamp] + Cells(line);
            |row| >= |Header| && Header[4] == "Notify" && Lower(row[4]) == "yes"
  {
    FilterMembers(IsNotifyLine, lines, line);
    FilterMembers(IsRecordLine, lines, line);
  }

  /** The alert for a flagged row names the user (`parts[0]`) and the usage
      (`parts[1]`). */
  function NotifyAlert(parts: Row, sender: string): Alert
    requires |parts| >= 2
  {
    Alert(sender, AlertSubject,
          "Hi " + parts[0] + ",\n\nYour data usage is " + parts[1] + ".\nPlease take necessary action.\n\nThanks,\nAdmin")
  }

  /** Every row of `prompted` has the four parts of a flagged line. */
  predicate AllFlagged(prompted: seq<Row>)
  {
    forall k :: 0 <= k < |prompted| ==> |prompted[k]| >= 4
  }

  /** The parts of the flagged lines, in line order: one prompt each. */
  function Prompts(lines: seq<string>): (r: seq<Row>)
    ensures AllFlagged(r)
  {
    var kept := Filter(IsNotifyLine, lines);
    assert forall k :: 0 <= k < |kept| ==> IsNotifyLine(kept[k]) by {
      forall k | 0 <= k < |kept| ensures IsNotifyLine(kept[k]) {
        FilterMembers(IsNotifyLine, lines, kept[k]);
      }
    }
    CellRows(kept)
  }

  /** The alerts sent for the prompts `prompted`, when the operator's
      answer to the `k`-th prompt is `replies(k)`. */
  function AlertsFor(prompted: seq<Row>, replies: nat -> string, sender: string): seq<Alert>
    requires AllFlagged(prompted)
  {
    if prompted == [] then []
    else
      var n := |prompted| - 1;
      AlertsFor(prompted[..n], replies, sender)
        + (if Confirmed(replies(n)) then [NotifyAlert(prompted[n], sender)] else [])
  }

  lemma AlertsForSnoc(prompted: seq<Row>, parts: Row, replies: nat -> string, sender: string)
    requires AllFlagged(prompted) && |parts| >= 4
    ensures AllFlagged(prompted + [parts])
    ensures AlertsFor(prompted + [parts], replies, sender) ==
            AlertsFor(prompted, replies, sender)
              + (if Confirmed(replies(|prompted|)) then [NotifyAlert(parts, sender)] else [])
  {
    assert (prompted + [parts])[..|prompted|] == prompted;
  }

  /** `a` is the alert for some prompt of `prompted` that the operator
      confirmed. */
  ghost predicate AnswersConfirmedPrompt(prompted: seq<Row>, replies: nat -> string, sender: string, a: Alert)
    requires AllFlagged(prompted)
  {
    exists k :: 0 <= k < |prompted| && Confirmed(replies(k)) && a == NotifyAlert(prompted[k], sender)
  }

  lemma AnswersWithinPrefix(init: seq<Row>, prompted: seq<Row>, replies: nat -> string, sender: string, a: Alert)
    requires AllFlagged(init) && AllFlagged(prompted)
    requires |init| <= |prompted| && init == prompted[..|init|]
    requires AnswersConfirmedPrompt(init, replies, sender, a)
    ensures AnswersConfirmedPrompt(prompted, replies, sender, a)
  {
    var k :| 0 <= k < |init| && Confirmed(replies(k)) && a == NotifyAlert(init[k], sender);
    assert init[k] == prompted[k];
  }

  /** Every alert sent answers a confirmed prompt. */
  lemma {:induction false} AlertsAnswerConfirmedPrompts(prompted: seq<Row>, replies: nat -> string, sender: string)
    requires AllFlagged(prompted)
    ensures |AlertsFor(prompted, replies, sender)| <= |prompted|
    ensures forall a :: a in AlertsFor(prompted, replies, sender) ==> AnswersConfirmedPrompt(prompted, replies, sender, a)
  {
    if prompted != [] {
      var n := |prompted| - 1;
      var init := prompted[..n];
      var last := if Confirmed(replies(n)) then [NotifyAlert(prompted[n], sender)] else [];
      assert AllFlagged(init);
      assert AlertsFor(prompted, replies, sender) == AlertsFor(init, replies, sender) + last;
      AlertsAnswerConfirmedPrompts(init, replies, sender);
      forall a | a in AlertsFor(prompted, replies, sender)
        ensures AnswersConfirmedPrompt(prompted, replies, sender, a)
      {
        if a in AlertsFor(init, replies, sender) {
          AnswersWithinPrefix(init, prompted, replies, sender, a);
        } else {
          assert a in last;
        }
      }
    }
  }

  /** Every confirmed prompt leads to its alert. */
  lemma {:induction false} ConfirmedPromptsAreAlerted(prompted: seq<Row>, replies: nat -> string, sender: string, k: nat)
    requires AllFlagged(prompted)
    requires k < |prompted| && Confirmed(replies(k))
    ensures NotifyAlert(prompted[k], sender) in AlertsFor(prompted, replies, sender)
  {
    var n := |prompted| - 1;
    var init := prompted[..n];
    assert AllFlagged(init);
    if k < n {
      ConfirmedPromptsAreAlerted(init, replies, sender, k);
      assert init[k] == prompted[k];
    }
  }

  /** `handle_notification`: one prompt per flagged line, in line order; an
      alert for each one the operator confirms. */
  method HandleNotification(llmOutput: string, sender: string, replies: nat -> string) returns (alerts: seq<Alert>)
    ensures alerts == AlertsFor(Prompts(Lines(llmOutput)), replies, sender)
  {
    var lines := Lines(llmOutput);
    alerts := [];
    var prompts := 0;
    for i := 0 to |lines|
      invariant prompts == |Prompts(lines[..i])|
      invariant alerts == AlertsFor(Prompts(lines[..i]), replies, sender)
    {
      var line := lines[i];
      NotificationStep(lines, i, replies, sender);
      if Contains(line, "|") && !Contains(line, "User") {
        var parts := Cells(line);
        if |parts| >= 4 && Lower(parts[3]) == "yes" {
          assert IsNotifyLine(line);
          if Confirmed(replies(prompts)) {
            alerts := alerts + [NotifyAlert(parts, sender)];
          }
          prompts := prompts + 1;
        } else {
          assert !IsNotifyLine(line);
        }
      } else {
        assert !IsNotifyLine(line);
      }
    }
    assert lines[..|lines|] == lines;
  }

  /** What one line adds to the prompts and to the alerts. */
  lemma NotificationStep(lines: seq<string>, i: nat, replies: nat -> string, sender: string)
    requires i < |lines|
    ensures |Prompts(lines[..i + 1])| == |Prompts(lines[..i])| + (if IsNotifyLine(lines[i]) then 1 else 0)
    ensures AlertsFor(Prompts(lines[..i + 1]), replies, sender) ==
            AlertsFor(Prompts(lines[..i]), replies, sender)
              + (if IsNotifyLine(lines[i]) && Confirmed(replies(|Prompts(lines[..i])|))
                 then [NotifyAlert(Cells(lines[i]), sender)] else [])
  {
    var line := lines[i];
    var before := Prompts(lines[..i]);
    assert lines[..i + 1] == lines[..i] + [line];
    PromptsSnoc(lines[..i], line);
    if IsNotifyLine(line) {
      assert Prompts(lines[..i + 1]) == before + [Cells(line)];
      AlertsForSnoc(before, Cells(line), replies, sender);
    } else {
      assert Prompts(lines[..i + 1]) == before;
    }
  }

  lemma PromptsSnoc(lines: seq<string>, line: string)
    ensures Prompts(lines + [line]) == Prompts(lines) + (if IsNotifyLine(line) then [Cells(line)] else [])
  {
    KeptRowsSnoc(IsNotifyLine, lines, line);
  }

  // ----------------------------------------------- fetch_email_after_date

  /** `fetch_email_after_date`: the scan raises at the first failed fetch it
      reaches (`msg_data[0][1]` is read without testing the status);
      otherwise it gives the body and date of the newest message dated
      strictly after `afterUtc`, or `(None, afterUtc)`. */
  method FetchEmailAfterDate(mailbox: seq<Message>, afterUtc: int)
    returns (raised: bool, body: Option<string>, emailTime: int)
    ensures raised <==> Select(Selection, mailbox, afterUtc).Raised?
    ensures Select(Selection, mailbox, afterUtc).NotFound? ==> body.None? && emailTime == afterUtc
    ensures Select(Selection, mailbox, afterUtc).Found? ==>
              var m := Select(Selection, mailbox, afterUtc).m;
              body == Some(BodyText(m.content)) && emailTime == m.date.value && emailTime > afterUtc
  {
    var found := Scan(Selection, mailbox, afterUtc);
    if found.Raised? {
      return true, None, afterUtc;
    }
    if found.NotFound? {
      return false, None, afterUtc;
    }
    var text := ExtractBody(found.m.content);
    return false, Some(text), found.m.date.value;
  }

  /** Every message after `i` in search order, which the scan reaches before
      `i`, was fetched and is not dated after the cutoff. */
  ghost predicate PassedBefore(mailbox: seq<Message>, afterUtc: int, i: nat)
  {
    forall j :: i < j < |mailbox| ==>
      mailbox[j].fetchOk && (mailbox[j].date.None? || mailbox[j].date.value <= afterUtc)
  }

  /** The selection rule stated outright: there is no fetch-status test, so
      the scan raises exactly when it reaches a failed fetch before any
      message dated strictly after the cutoff; otherwise it returns the
      newest such message, or nothing when there is none. */
  lemma SelectionRaisesAtFailedFetch(mailbox: seq<Message>, afterUtc: int)
    ensures Select(Selection, mailbox, afterUtc).NotFound? <==>
            forall i :: 0 <= i < |mailbox| ==>
              mailbox[i].fetchOk && (mailbox[i].date.None? || mailbox[i].date.value <= afterUtc)
    ensures Select(Selection, mailbox, afterUtc).Raised? <==>
            exists i :: 0 <= i < |mailbox| && !mailbox[i].fetchOk && PassedBefore(mailbox, afterUtc, i)
    ensures Select(Selection, mailbox, afterUtc).Found? ==>
            exists i :: && 0 <= i < |mailbox| && PassedBefore(mailbox, afterUtc, i)
                        && mailbox[i] == Select(Selection, mailbox, afterUtc).m
                        && mailbox[i].fetchOk && mailbox[i].date.value > afterUtc
  {
    var r := Select(Selection, mailbox, afterUtc);
    SelectIsLastStop(Selection, mailbox, afterUtc);
    if !r.NotFound? {
      var i :| && StopsLastAt(Selection, mailbox, afterUtc, i)
               && (r.Raised? <==> !mailbox[i].fetchOk)
               && (r.Found? ==> r.m == mailbox[i]);
      LastStopIsPassedBefore(mailbox, afterUtc, i);
      forall k | 0 <= k < |mailbox| && !mailbox[k].fetchOk && PassedBefore(mailbox, afterUtc, k)
        ensures r.Raised?
      {
        assert Stops(Selection, mailbox[k], afterUtc);
        OnlyLastStopIsPassed(mailbox, afterUtc, i, k);
      }
      if r.Raised? {
        assert !mailbox[i].fetchOk && PassedBefore(mailbox, afterUtc, i);
      } else {
        assert mailbox[i].fetchOk && mailbox[i].date.value > afterUtc;
      }
    } else {
      assert forall k :: 0 <= k < |mailbox| ==> !Stops(Selection, mailbox[k], afterUtc);
    }
  }

  /** For this script, the last message that stops the scan is one that stops
      it with every later message passed over. */
  /** Only the last stop has nothing but passed-over messages after it. */
  lemma OnlyLastStopIsPassed(mailbox: seq<Message>, afterUtc: int, i: nat, k: nat)
    requires StopsLastAt(Selection, mailbox, afterUtc, i)
    requires k < |mailbox| && Stops(Selection, mailbox[k], afterUtc) && PassedBefore(mailbox, afterUtc, k)
    ensures k == i
  {
    LastStopIsPassedBefore(mailbox, afterUtc, i);
    LastStopIsPassedBefore(mailbox, afterUtc, k);
  }

  lemma LastStopIsPassedBefore(mailbox: seq<Message>, afterUtc: int, i: nat)
    requires i < |mailbox|
    ensures StopsLastAt(Selection, mailbox, afterUtc, i) <==>
            Stops(Selection, mailbox[i], afterUtc) && PassedBefore(mailbox, afterUtc, i)
  {
  }

  // ------------------------------------------------------------ main loop

  /** One iteration: the sender's messages, the model's answer for the email
      found, and the operator's answer to each prompt, by prompt number. */
  datatype Poll = Poll(mailbox: seq<Message>, llmOutput: string, replies: nat -> string)

  /** The loop's state: the watermark, the two files, the alerts sent so far,
      and whether the program has ended with the exception of a failed fetch. */
  datatype State = State(lastTs: int, workbook: Option<seq<Row>>, lastTime: Option<int>, alerts: seq<Alert>, raised: bool)

  /** `read_last_timestamp() or FILTER_START_DATE`: a parsed `datetime` is
      always truthy, so only a missing one falls back. */
  function InitialWatermark(saved: Option<int>, filterStart: int): int
  {
    if saved.Some? then saved.value else filterStart
  }

  predicate Processes(lastTs: int, p: Poll)
  {
    var r := Select(Selection, p.mailbox, lastTs);
    r.Found? && BodyText(r.m.content) != ""
  }

  /** One iteration of the polling loop; after the exception nothing runs. */
  function PollOnce(s: State, p: Poll, sender: string, format: int -> string): State
  {
    if s.raised then s
    else
      var r := Select(Selection, p.mailbox, s.lastTs);
      if r.Raised? then s.(raised := true)
      else if r.Found? && BodyText(r.m.content) != "" then
        State(r.m.date.value,
              AppendRows(s.workbook, Header, Rows(p.llmOutput, format(r.m.date.value))),
              Some(r.m.date.value),
              s.alerts + AlertsFor(Prompts(Lines(p.llmOutput)), p.replies, sender),
              false)
      else s
  }

  function RunPolls(s: State, polls: seq<Poll>, sender: string, format: int -> string): State
  {
    if polls == [] then s
    else PollOnce(RunPolls(s, polls[..|polls| - 1], sender, format), polls[|polls| - 1], sender, format)
  }

  /** A failed fetch reached by the scan ends the program and changes
      nothing else; otherwise the watermark moves only when an email is
      processed, to that email's date, which is strictly later, and nothing
      changes when none is. */
  lemma PollOnceWatermark(s: State, p: Poll, sender: string, format: int -> string)
    ensures PollOnce(s, p, sender, format).raised <==> s.raised || Select(Selection, p.mailbox, s.lastTs).Raised?
    ensures PollOnce(s, p, sender, format).lastTs != s.lastTs <==> !s.raised && Processes(s.lastTs, p)
    ensures !s.raised && Processes(s.lastTs, p) ==>
              PollOnce(s, p, sender, format).lastTs == Select(Selection, p.mailbox, s.lastTs).m.date.value
              && PollOnce(s, p, sender, format).lastTs > s.lastTs
              && PollOnce(s, p, sender, format).lastTime == Some(PollOnce(s, p, sender, format).lastTs)
    ensures s.raised || !Processes(s.lastTs, p) ==>
              PollOnce(s, p, sender, format) == s.(raised := PollOnce(s, p, sender, format).raised)
  {
  }

  /** Once the exception is raised the program has ended: later polls change
      nothing. */
  lemma {:induction false} RunAfterRaise(s: State, polls: seq<Poll>, n: nat, sender: string, format: int -> string)
    requires n <= |polls|
    requires RunPolls(s, polls[..n], sender, format).raised
    ensures RunPolls(s, polls, sender, format) == RunPolls(s, polls[..n], sender, format)
    decreases |polls| - n
  {
    if n == |polls| {
      assert polls[..n] == polls;
    } else {
      var init := polls[..|polls| - 1];
      assert init[..n] == polls[..n];
      RunAfterRaise(s, init, n, sender, format);
    }
  }

  /** Over any run the watermark never goes back. */
  lemma {:induction false} WatermarkNeverDecreases(s: State, polls: seq<Poll>, sender: string, format: int -> string)
    ensures RunPolls(s, polls, sender, format).lastTs >= s.lastTs
  {
    if polls != [] {
      WatermarkNeverDecreases(s, polls[..|polls| - 1], sender, format);
      PollOnceWatermark(RunPolls(s, polls[..|polls| - 1], sender, format), polls[|polls| - 1], sender, format);
    }
  }

  /** The spreadsheet only grows: what it held before a run is a prefix of
      what it holds after. */
  lemma {:induction false} WorkbookOnlyGrows(s: State, polls: seq<Poll>, sender: string, format: int -> string)
    requires s.workbook.Some?
    ensures var r := RunPolls(s, polls, sender, format);
            r.workbook.Some? && |s.workbook.value| <= |r.workbook.value|
            && r.workbook.value[..|s.workbook.value|] == s.workbook.value
  {
    if polls != [] {
      var mid := RunPolls(s, polls[..|polls| - 1], sender, format);
      WorkbookOnlyGrows(s, polls[..|polls| - 1], sender, format);
      var p := polls[|polls| - 1];
      if !mid.raised && Processes(mid.lastTs, p) {
        var m := Select(Selection, p.mailbox, mid.lastTs).m;
        AppendRowsKeepsPrior(mid.workbook.value, Header, Rows(p.llmOutput, format(m.date.value)));
      }
    }
  }

  /** The program: `FILTER_START_DATE` is parsed first (`None` when it is
      invalid, and the script exits); then the watermark is read from
      `last_time.txt` and the loop runs once per poll, until a failed fetch
      raises. */
  method Monitor(filterStart: Option<int>, sender: string, format: int -> string, polls: seq<Poll>, disk: Disk)
    returns (lastTs: int, alerts: seq<Alert>, raised: bool)
    modifies disk
    ensures filterStart.None? ==>
              alerts == [] && !raised && disk.workbook == old(disk.workbook) && disk.lastTime == old(disk.lastTime)
    ensures filterStart.Some? ==>
              var init := State(InitialWatermark(old(disk.lastTime), filterStart.value), old(disk.workbook), old(disk.lastTime), [], false);
              State(lastTs, disk.workbook, disk.lastTime, alerts, raised) == RunPolls(init, polls, sender, format)
  {
    alerts := [];
    raised := false;
    if filterStart.None? {
      return 0, alerts, raised;
    }
    lastTs := InitialWatermark(disk.lastTime, filterStart.value);
    ghost var init := State(lastTs, disk.workbook, disk.lastTime, [], false);
    var i := 0;
    while i < |polls|
      invariant 0 <= i <= |polls| && !raised
      invariant State(lastTs, disk.workbook, disk.lastTime, alerts, raised) == RunPolls(init, polls[..i], sender, format)
    {
      var p := polls[i];
      assert polls[..i + 1][..i] == polls[..i];
      var failed, emailBody, emailTime := FetchEmailAfterDate(p.mailbox, lastTs);
      if failed {
        raised := true;
        RunAfterRaise(init, polls, i + 1, sender, format);
        return;
      }
      if emailBody.Some? && emailBody.value != "" {
        AppendToExcel(p.llmOutput, emailTime, format, disk);
        var sent := HandleNotification(p.llmOutput, sender, p.replies);
        alerts := alerts + sent;
        lastTs := emailTime;
        disk.SaveLastTimestamp(lastTs);
      }
      i := i + 1;
    }
    assert polls[..|polls|] == polls;
  }
}
