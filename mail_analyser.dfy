/** `mail_analyser.py`: polls for the newest email from one sender dated at
    or after a cutoff, overwrites `output.xlsx` with every pipe-separated
    line the language model returns for it, and moves the cutoff to the
    current time. */
module MailAnalyser {

  import opened Wrappers
  import opened PyStr
  import opened Table
  import opened Workbook
  import opened Inbox

  /** Fetch status checked; a message dated exactly at the cutoff qualifies. */
  const Selection: Rule := Rule(checkStatus := true, inclusive := true)

  /** `datetime(2025, 7, 26, 0, 0, 0, tzinfo=timezone.utc)`, in microseconds
      since the Unix epoch: 20295 days. */
  const StartTimeUtc: int := 20295 * 86400 * 1000000

  /** Days from 1970-01-01 to the given date of the proleptic Gregorian
      calendar, counted in 400-year eras from 0000-03-01. */
  function DaysFromCivil(year: int, month: int, day: int): int
    requires 1 <= month <= 12 && 1 <= day <= 31
  {
    var y := if month <= 2 then year - 1 else year;
    var era := y / 400;
    var yoe := y - era * 400;
    var doy := (153 * (if month > 2 then month - 3 else month + 9) + 2) / 5 + day - 1;
    var doe := yoe * 365 + yoe / 4 - yoe / 100 + doy;
    era * 146097 + doe - 719468
  }

  /** The fixed start is midnight UTC on 26 July 2025. */
  lemma StartTimeIsJuly26()
    ensures StartTimeUtc == DaysFromCivil(2025, 7, 26) * 86400 * 1000000
    ensures DaysFromCivil(1970, 1, 1) == 0
  {
  }

  // ---------------------------------------------------------- save_to_excel

  /** The only test `save_to_excel` applies: the line has a `"|"`. Header and
      separator lines count too. */
  predicate HasPipe(line: string)
  {
    Contains(line, "|")
  }

  function RowsOf(lines: seq<string>): seq<Row>
  {
    CellRows(Filter(HasPipe, lines))
  }

  function Rows(llmOutput: string): seq<Row>
  {
    RowsOf(Lines(llmOutput))
  }

  /** Every line with a `"|"` becomes a row, including a header or a dashed
      separator line, with at least two cells. */
  lemma RowsAreAllPipeLines(llmOutput: string)
    ensures forall line :: line in Filter(HasPipe, Lines(llmOutput)) <==>
              line in Lines(llmOutput) && Contains(line, "|")
    ensures forall k :: 0 <= k < |Rows(llmOutput)| ==>
              Rows(llmOutput)[k] == Cells(Filter(HasPipe, Lines(llmOutput))[k]) && |Rows(llmOutput)[k]| >= 2
  {
    var lines := Lines(llmOutput);
    var kept := Filter(HasPipe, lines);
    forall line ensures line in kept <==> line in lines && HasPipe(line) {
      FilterMembers(HasPipe, lines, line);
    }
    forall k | 0 <= k < |kept| ensures |Cells(kept[k])| >= 2 {
      FilterMembers(HasPipe, lines, kept[k]);
      PipeLineHasTwoCells(kept[k]);
    }
  }

  /** Rows come out in the order of their lines. */
  lemma RowsInLineOrder(a: seq<string>, b: seq<string>)
    ensures RowsOf(a + b) == RowsOf(a) + RowsOf(b)
  {
    FilterConcat(HasPipe, a, b);
  }

  /** `save_to_excel`: a new workbook every call, one `ws.append` per line
      with a `"|"`, then saved over `output.xlsx`; the file then holds
      exactly this output's rows and none of its earlier contents, even when
      there are no rows at all. */
  method SaveToExcel(llmOutput: string, disk: Disk)
    modifies disk
    ensures disk.workbook == Some(Rows(llmOutput))
    ensures disk.lastTime == old(disk.lastTime)
  {
    var ws := new Worksheet.Empty();
    var lines := Lines(llmOutput);
    for i := 0 to |lines|
      invariant ws.rows == RowsOf(lines[..i])
      modifies ws
    {
      var line := lines[i];
      assert lines[..i + 1] == lines[..i] + [line];
      KeptRowsSnoc(HasPipe, lines[..i], line);
      if Contains(line, "|") {
        ws.Append(Cells(line));
      }
    }
    assert lines[..|lines|] == lines;
    disk.SaveWorkbook(ws);
  }

  // ----------------------------------------------- fetch_email_after_date

  /** `fetch_email_after_date`: the body of the newest message dated at or
      after `afterUtc`, or `None`. */
  method FetchEmailAfterDate(mailbox: seq<Message>, afterUtc: int) returns (body: Option<string>)
    ensures Newest(Selection, mailbox, afterUtc).None? ==> body.None?
    ensures Newest(Selection, mailbox, afterUtc).Some? ==>
              body == Some(BodyText(Newest(Selection, mailbox, afterUtc).value.content))
  {
    var found := Scan(Selection, mailbox, afterUtc);
    SelectOfCheckedRule(Selection, mailbox, afterUtc);
    if !found.Found? {
      return None;
    }
    var text := ExtractBody(found.m.content);
    return Some(text);
  }

  /** The selection rule stated outright: only dates strictly before the
      cutoff are skipped, so a message dated exactly at the cutoff can be
      chosen; the chosen one is the newest such message. */
  lemma SelectionIsNewestFromCutoff(mailbox: seq<Message>, afterUtc: int)
    ensures Newest(Selection, mailbox, afterUtc).None? <==>
            forall i :: 0 <= i < |mailbox| ==>
              !mailbox[i].fetchOk || mailbox[i].date.None? || mailbox[i].date.value < afterUtc
    ensures Newest(Selection, mailbox, afterUtc).Some? ==>
            exists i :: LatestAccepted(Selection, mailbox, afterUtc, i)
                        && mailbox[i] == Newest(Selection, mailbox, afterUtc).value
                        && mailbox[i].fetchOk && mailbox[i].date.value >= afterUtc
  {
    NewestIsLatestAccepted(Selection, mailbox, afterUtc);
  }

  // ------------------------------------------------------------ main loop

  /** `not GMAIL_USER`, `not GMAIL_PASS`, `not TARGET_SENDER`: an unset and
      an empty variable are both missing. */
  predicate IsSet(v: Option<string>)
  {
    v.Some? && v.value != ""
  }

  /** One iteration: the sender's messages, the model's answer for the email
      found, and the clock reading `datetime.now(timezone.utc)` taken after it. */
  datatype Poll = Poll(mailbox: seq<Message>, llmOutput: string, now: int)

  /** The loop's state: the cutoff `start_time_utc` and `output.xlsx`. */
  datatype State = State(cutoff: int, workbook: Option<seq<Row>>)

  predicate Processes(cutoff: int, p: Poll)
  {
    var m := Newest(Selection, p.mailbox, cutoff);
    m.Some? && BodyText(m.value.content) != ""
  }

  function PollOnce(s: State, p: Poll): State
  {
    var m := Newest(Selection, p.mailbox, s.cutoff);
    if m.Some? && BodyText(m.value.content) != "" then State(p.now, Some(Rows(p.llmOutput)))
    else s
  }

  function RunPolls(s: State, polls: seq<Poll>): State
  {
    if polls == [] then s
    else PollOnce(RunPolls(s, polls[..|polls| - 1]), polls[|polls| - 1])
  }

  /** After an email is processed the cutoff is the clock reading and the
      sheet is this email's rows alone; otherwise nothing changes. */
  lemma PollOnceResetsCutoff(s: State, p: Poll)
    ensures Processes(s.cutoff, p) ==> PollOnce(s, p) == State(p.now, Some(Rows(p.llmOutput)))
    ensures !Processes(s.cutoff, p) ==> PollOnce(s, p) == s
  {
  }

  /** Whatever happened, `output.xlsx` holds either what it held before the
      run or the rows of one single model answer: nothing accumulates. */
  lemma {:induction false} SheetHoldsOneAnswer(s: State, polls: seq<Poll>)
    ensures RunPolls(s, polls).workbook == s.workbook
            || exists k :: 0 <= k < |polls| && RunPolls(s, polls).workbook == Some(Rows(polls[k].llmOutput))
  {
    if polls != [] {
      var init := polls[..|polls| - 1];
      SheetHoldsOneAnswer(s, init);
      if RunPolls(s, polls).workbook != RunPolls(s, init).workbook {
        assert RunPolls(s, polls).workbook == Some(Rows(polls[|polls| - 1].llmOutput));
      } else if RunPolls(s, init).workbook != s.workbook {
        var k :| 0 <= k < |init| && RunPolls(s, init).workbook == Some(Rows(init[k].llmOutput));
        assert polls[k] == init[k];
      }
    }
  }

  /** The program: it exits before polling when a variable is missing;
      otherwise the cutoff starts at `StartTimeUtc` and the loop runs once
      per poll. */
  method Monitor(user: Option<string>, pass: Option<string>, sender: Option<string>, polls: seq<Poll>, disk: Disk)
    returns (started: bool, cutoff: int)
    modifies disk
    ensures started <==> IsSet(user) && IsSet(pass) && IsSet(sender)
    ensures !started ==> disk.workbook == old(disk.workbook)
    ensures started ==> State(cutoff, disk.workbook) == RunPolls(State(StartTimeUtc, old(disk.workbook)), polls)
    ensures disk.lastTime == old(disk.lastTime)
  {
    if !IsSet(user) || !IsSet(pass) || !IsSet(sender) {
      return false, 0;
    }
    started := true;
    cutoff := StartTimeUtc;
    ghost var init := State(cutoff, disk.workbook);
    for i := 0 to |polls|
      invariant State(cutoff, disk.workbook) == RunPolls(init, polls[..i])
      invariant disk.lastTime == old(disk.lastTime)
    {
      var p := polls[i];
      assert polls[..i + 1][..i] == polls[..i];
      var emailBody := FetchEmailAfterDate(p.mailbox, cutoff);
      if emailBody.Some? && emailBody.value != "" {
        SaveToExcel(p.llmOutput, disk);
        cutoff := p.now;
      }
    }
    assert polls[..|polls|] == polls;
  }
}
