# Email monitor scripts: row extraction, email selection and notify decisions

Three Python scripts in `llma/ws/one/` poll a Gmail inbox for mail from one
sender. Each one hands the newest qualifying email to a local language model
and records the pipe-separated table in the model's answer in `output.xlsx`:

- `mail_analyser_smart.py` appends the rows and offers a usage alert.
- `mail_analyser.py` overwrites the sheet each time.
- `email_llm_monitor_old.py` appends date-stamped rows and asks about every
  row flagged "Yes".

This project models the logic between the I/O calls and proves properties
of it:

- how the model's text becomes spreadsheet rows;
- which email a scan selects, and how the watermark (the cutoff time) moves;
- when an alert email is sent.

Modules:

- `Wrappers`: `Option`.
- `PyStr`: the Python `str` operations the scripts use, on `seq<char>`:
  - `strip()` with the `isspace()` character set;
  - `lower()`;
  - `sub in s`;
  - `split` on one character;
  - `splitlines()` with its line-break set and `"\r\n"`.
- `Table`: the stripped-cell split of a line, and the keep-or-drop filter over lines.
- `Workbook`:
  - class `Worksheet`: rows that `append` extends;
  - class `Disk`: the two files, `output.xlsx` as `Option<seq<Row>>` and
    `last_time.txt` as `Option<int>`;
  - the load-or-create-then-append tail that two scripts share.
- `Inbox`:
  - messages as `(fetch ok, Option<date>, content)`;
  - the selection rule as the pair (checks fetch status, cutoff inclusive);
  - the newest-first scan, as the method `Scan` checked against the
    function `Select`, whose outcome is a message, nothing, or a crash at a
    failed fetch; `Newest` is the scan of a rule that tests the fetch status;
  - the body: the text/plain parts of a multipart message joined in walk order.
- `Alerting`: the alert record and the operator's "yes" confirmation.
- `MailAnalyserSmart`, `MailAnalyser`, `EmailLlmMonitorOld`: one per script,
  each with:
  - its filter, header and selection rule;
  - its imperative operations, each proved against a specification function;
  - its main loop, as a method over a sequence of polls, proved equal to a
    recursive `RunPolls`;
  - lemmas about the watermark and the sheet.
- `Contrasts`: concrete inputs on which the scripts behave differently.

Timestamps are integers, in microseconds since the Unix epoch, UTC.
A date header that does not parse is `None`.

Each poll of a main loop is a record of the values the outside world
supplies on that pass:

- the inbox contents;
- the model's answer;
- the operator's replies;
- the clock reading, in `mail_analyser.py`.

## Model

| member | source | states |
|---|---|---|
| PyStr.StripIsTrimmedSlice | llma/ws/one/mail_analyser_smart.py:122 | `strip()` returns the slice of its input left after removing whitespace at both ends; the result neither starts nor ends with whitespace |
| PyStr.StripPadded | llma/ws/one/mail_analyser_smart.py:122 | any whitespace padding around a text without edge whitespace is removed exactly by `strip()` |
| PyStr.ContainsAt | llma/ws/one/mail_analyser_smart.py:121 | `sub in s` holds iff `sub` occurs at some position of `s` |
| PyStr.ContainsChar | llma/ws/one/mail_analyser.py:142 | the substring test for the one-character pipe string is membership of that character |
| PyStr.Split | llma/ws/one/mail_analyser_smart.py:122 | splitting a line on the pipe character has one more piece than the line has separators, and no piece holds one |
| PyStr.JoinSplit | llma/ws/one/mail_analyser_smart.py:122 | joining the split pieces with the separator gives back the line |
| PyStr.SplitJoin | llma/ws/one/mail_analyser_smart.py:122 | splitting a join of separator-free pieces gives back the pieces |
| PyStr.SplitLines | llma/ws/one/mail_analyser_smart.py:120 | no line produced by `splitlines()` contains a line break |
| PyStr.SplitLinesKeepsText | llma/ws/one/mail_analyser_smart.py:120 | the lines, concatenated, are the text without its line breaks: `splitlines()` drops only breaks |
| PyStr.SplitLinesAreWholeLines | llma/ws/one/mail_analyser_smart.py:120 | every line `splitlines()` gives occurs in the text at a position that is the start of the text or just after a break, and ends at the end of the text or just before a break |
| PyStr.LinesFromIsSplitLines | llma/ws/one/mail_analyser_smart.py:120 | cutting the lines out of the text by index, from each break to the next, gives exactly what `splitlines()` gives |
| PyStr.LinePosition | llma/ws/one/mail_analyser_smart.py:120 | the `k`-th line from the start of a line lies in the text between line boundaries |
| PyStr.LowerChar | llma/ws/one/mail_analyser_smart.py:163 | one character lowered is no capital letter, and is the character itself or its lowercase form |
| PyStr.Lower | llma/ws/one/mail_analyser_smart.py:163 | `lower()` keeps the length and leaves no capital letter |
| PyStr.LowerEqualIff | llma/ws/one/mail_analyser_smart.py:163 | two strings lower to the same string iff they have the same length and agree character by character up to case |
| PyStr.Strip | llma/ws/one/mail_analyser_smart.py:120-122 | `strip()`: `lstrip()` then `rstrip()`, each removing the run of `isspace()` characters at its end |
| PyStr.Contains | llma/ws/one/mail_analyser_smart.py:121 | `sub in s`: `s` starts with `sub` or its tail contains it |
| PyStr.SplitLinesCount | llma/ws/one/mail_analyser_smart.py:120 | `splitlines()` gives one line per break (a CR LF pair counted once), plus a last line when the text is not empty and does not end with a break |
| PyStr.Lines | llma/ws/one/mail_analyser_smart.py:120 | the lines a script walks: `output.strip().splitlines()` |
| Table.Cells | llma/ws/one/mail_analyser_smart.py:122 | a line yields (number of pipe characters) + 1 cells; no cell holds a pipe, starts or ends with whitespace |
| Table.PipeLineHasTwoCells | llma/ws/one/mail_analyser.py:142-143 | a line that contains a pipe character yields at least two cells |
| Table.Filter | llma/ws/one/mail_analyser_smart.py:120-123 | the lines that pass the keep-or-drop test, never more than there were lines |
| Table.CellRows | llma/ws/one/mail_analyser_smart.py:122-123 | one row per kept line: that line's cells |
| Table.FilterMembers | llma/ws/one/mail_analyser_smart.py:120-121 | a line is kept iff it is one of the lines and passes the test |
| Table.FilterConcat | llma/ws/one/mail_analyser_smart.py:120-123 | filtering distributes over concatenation, so kept lines keep their order |
| Table.KeptRowsSnoc | llma/ws/one/mail_analyser_smart.py:120-123 | one more line adds its cells as the last row exactly when it is kept |
| Workbook.Worksheet.Append | llma/ws/one/mail_analyser_smart.py:138-139 | `ws.append(row)` puts the row below the existing ones |
| Workbook.Disk.SaveWorkbook | llma/ws/one/mail_analyser_smart.py:141 | after `wb.save` the file holds exactly the sheet's rows; the timestamp file is untouched |
| Workbook.Disk.SaveLastTimestamp | llma/ws/one/mail_analyser_smart.py:46-48 | after `save_last_timestamp(dt)` the timestamp file reads back as `dt`; the workbook is untouched |
| Workbook.AppendRows | llma/ws/one/mail_analyser_smart.py:125-139 | with no rows the file is left as it was; otherwise the rows follow the existing sheet, or the header on a new sheet |
| Workbook.AppendRowsKeepsPrior | llma/ws/one/mail_analyser_smart.py:130-139 | appending keeps the prior rows as a prefix, and the rest is exactly the new rows |
| Workbook.AppendSheet | llma/ws/one/mail_analyser_smart.py:125-141 | the load-or-create-with-header, append-each-row, save sequence leaves `output.xlsx` equal to `AppendRows` of its old contents |
| Inbox.Accepts | llma/ws/one/mail_analyser_smart.py:59-68 | the tests of the scan that do not `continue`: fetch status when the rule checks it, a parsed date, and the date after the cutoff (at or after it when the rule is inclusive) |
| Inbox.Newest | llma/ws/one/mail_analyser_smart.py:58-68 | a message it selects passes every test of the scan loop |
| Inbox.NewestIsLatestAccepted | llma/ws/one/mail_analyser_smart.py:58-82 | nothing is selected iff no message passes; otherwise the selection passes and no message later in search order does |
| Inbox.Select | llma/ws/one/mail_analyser_smart.py:58-68 | the outcome of the newest-first scan: a message it returns passes every test and was fetched; it raises only under a rule with no status test |
| Inbox.SelectIsLastStop | llma/ws/one/email_llm_monitor_old.py:56-78 | nothing is found iff no message stops the scan; otherwise the outcome comes from the latest message that stops it: a crash iff that message failed to fetch under a rule without a status test, else that message |
| Inbox.SelectOfCheckedRule | llma/ws/one/mail_analyser_smart.py:58-82 | under a rule that tests the fetch status the scan never raises and finds exactly the message `Newest` selects |
| Inbox.Scan | llma/ws/one/mail_analyser_smart.py:58-68 | the newest-first loop with `continue`, early return and (for a rule without a status test) the crash at a failed fetch computes `Select` |
| Inbox.PlainText | llma/ws/one/mail_analyser_smart.py:71-74 | the `text/plain` payloads of the walk, concatenated in walk order |
| Inbox.BodyText | llma/ws/one/mail_analyser_smart.py:70-76 | the body: those payloads for a multipart message, the single payload otherwise |
| Inbox.PlainTextConcat | llma/ws/one/mail_analyser_smart.py:71-74 | the body of consecutive runs of parts is the concatenation of their bodies, in walk order |
| Inbox.PlainTextOfOtherParts | llma/ws/one/mail_analyser_smart.py:71-74 | a walk with no text/plain part yields the empty body |
| Inbox.ExtractBody | llma/ws/one/mail_analyser_smart.py:70-76 | the `body +=` loop over `msg.walk()` (or the single payload) computes `BodyText` |
| Alerting.Confirmed | llma/ws/one/mail_analyser_smart.py:165-166 | the operator's reply, stripped and lowercased, equals "yes" |
| Alerting.ConfirmedIff | llma/ws/one/mail_analyser_smart.py:165-166 | `input().strip().lower() == "yes"` holds iff the reply is "yes" in any case, surrounded only by whitespace |
| MailAnalyserSmart.IsDataLine | llma/ws/one/mail_analyser_smart.py:121 | the line contains a pipe character, does not contain "User" and does not contain "-----" |
| MailAnalyserSmart.Rows | llma/ws/one/mail_analyser_smart.py:120-123 | the cells of the data lines of the stripped output, in line order |
| MailAnalyserSmart.RowsAreDataLines | llma/ws/one/mail_analyser_smart.py:120-123 | a line of the stripped output is kept iff it contains a pipe character and neither `"User"` nor `"-----"`; each row is that line's cells, at least two |
| MailAnalyserSmart.RowsInLineOrder | llma/ws/one/mail_analyser_smart.py:120-123 | rows come out in the order of their lines |
| MailAnalyserSmart.CollectRows | llma/ws/one/mail_analyser_smart.py:119-123 | the loop that builds `rows` computes `Rows` of the output |
| MailAnalyserSmart.AppendToExcel | llma/ws/one/mail_analyser_smart.py:118-141 | `output.xlsx` becomes `AppendRows` of its old contents, the three-column header and the output's rows |
| MailAnalyserSmart.FetchEmailAfterDate | llma/ws/one/mail_analyser_smart.py:50-82 | returns the newest selected message's body and date, which is strictly after the cutoff, or `(None, after_utc)` |
| MailAnalyserSmart.SelectionIsNewestStrictlyAfter | llma/ws/one/mail_analyser_smart.py:58-82 | nothing is chosen iff every message failed to fetch, has no date or is dated at or before the cutoff; the chosen one is the latest fetched one strictly after it |
| MailAnalyserSmart.HandleWarningDecision | llma/ws/one/mail_analyser_smart.py:162-172 | an alert is sent iff "notify the user" occurs in the lowercased output and the reply is "yes" in any case surrounded only by whitespace; it is the fixed "Data Usage Alert" to the sender |
| MailAnalyserSmart.HandleWarningIfAny | llma/ws/one/mail_analyser_smart.py:162-172 | the alert, when the suggestion test and the confirmation both hold |
| MailAnalyserSmart.NotifyIgnoresCase | llma/ws/one/mail_analyser_smart.py:163 | two outputs that differ only in the case of their letters get the same answer from the suggestion test |
| MailAnalyserSmart.NotifySuggested | llma/ws/one/mail_analyser_smart.py:163 | the lowercased output contains "notify the user" |
| MailAnalyserSmart.InitialWatermark | llma/ws/one/mail_analyser_smart.py:178-180 | the saved timestamp, or `FILTER_START_DATE` when `read_last_timestamp` gives `None` |
| MailAnalyserSmart.Processes | llma/ws/one/mail_analyser_smart.py:187-189 | `if email_body:` holds: a message was selected and its body is not empty |
| MailAnalyserSmart.PollOnce | llma/ws/one/mail_analyser_smart.py:187-198 | one pass: on a processed email the rows are appended, the alert decided, and the watermark set to the email's date and saved; otherwise nothing changes |
| MailAnalyserSmart.RunPolls | llma/ws/one/mail_analyser_smart.py:185-200 | the passes of the loop, one after the other |
| MailAnalyserSmart.PollOnceWatermark | llma/ws/one/mail_analyser_smart.py:187-198 | the watermark changes iff a non-empty body was found; it then becomes that email's date, strictly later, and is saved; otherwise nothing changes |
| MailAnalyserSmart.WatermarkNeverDecreases | llma/ws/one/mail_analyser_smart.py:185-200 | over any run the watermark never goes back |
| MailAnalyserSmart.TimestampFileFollowsWatermark | llma/ws/one/mail_analyser_smart.py:185-200 | after any run `last_time.txt` is either untouched (and the watermark unmoved) or holds the current watermark |
| MailAnalyserSmart.WorkbookOnlyGrows | llma/ws/one/mail_analyser_smart.py:185-200 | over any run the sheet's earlier rows stay a prefix of its rows |
| MailAnalyserSmart.Monitor | llma/ws/one/mail_analyser_smart.py:178-198 | an invalid `FILTER_START_DATE` exits with nothing changed; otherwise the watermark starts at the saved timestamp, or at the start date when there is none, and the loop's state equals `RunPolls` |
| MailAnalyser.StartTimeIsJuly26 | llma/ws/one/mail_analyser.py:158 | the fixed start is midnight UTC on 26 July 2025, by an independent day count from 1970-01-01 |
| MailAnalyser.HasPipe | llma/ws/one/mail_analyser.py:142 | the line contains a pipe character |
| MailAnalyser.Rows | llma/ws/one/mail_analyser.py:140-144 | the cells of every line of the stripped output that contains a pipe character, in line order |
| MailAnalyser.RowsAreAllPipeLines | llma/ws/one/mail_analyser.py:140-144 | a line of the stripped output is kept iff it contains a pipe character, header and separator lines included; each row is that line's cells |
| MailAnalyser.RowsInLineOrder | llma/ws/one/mail_analyser.py:141-144 | rows come out in the order of their lines |
| MailAnalyser.SaveToExcel | llma/ws/one/mail_analyser.py:136-146 | the saved sheet holds exactly this output's rows and nothing from before, even when there are none |
| MailAnalyser.FetchEmailAfterDate | llma/ws/one/mail_analyser.py:21-69 | returns the body of the newest selected message, or `None` |
| MailAnalyser.SelectionIsNewestFromCutoff | llma/ws/one/mail_analyser.py:32-69 | nothing is chosen iff every message failed, is undated or is strictly before the cutoff; the chosen one is the latest fetched one at or after it |
| MailAnalyser.IsSet | llma/ws/one/mail_analyser.py:153 | an environment variable passes `not v` only when it is set and not empty |
| MailAnalyser.Processes | llma/ws/one/mail_analyser.py:163-165 | `if email_body:` holds: a message was selected and its body is not empty |
| MailAnalyser.PollOnce | llma/ws/one/mail_analyser.py:163-172 | one pass: on a processed email the sheet is overwritten with this answer's rows and the cutoff becomes the clock reading; otherwise nothing changes |
| MailAnalyser.RunPolls | llma/ws/one/mail_analyser.py:161-175 | the passes of the loop, one after the other |
| MailAnalyser.PollOnceResetsCutoff | llma/ws/one/mail_analyser.py:163-172 | after a non-empty body the cutoff is the clock reading and the sheet this answer's rows; otherwise nothing changes |
| MailAnalyser.SheetHoldsOneAnswer | llma/ws/one/mail_analyser.py:161-172 | after any run the sheet is as before or holds the rows of exactly one answer |
| MailAnalyser.Monitor | llma/ws/one/mail_analyser.py:153-172 | polling starts iff all three variables are set and non-empty; then the cutoff starts at 2025-07-26 00:00 UTC and the loop's state equals `RunPolls` |
| EmailLlmMonitorOld.IsCandidate | llma/ws/one/email_llm_monitor_old.py:106 | the line contains a pipe character and does not contain "User" |
| EmailLlmMonitorOld.IsRecordLine | llma/ws/one/email_llm_monitor_old.py:106-108 | a candidate line whose stripped cells number at least three |
| EmailLlmMonitorOld.Rows | llma/ws/one/email_llm_monitor_old.py:105-109 | the formatted date followed by the cells, for each record line of the stripped output, in line order |
| EmailLlmMonitorOld.RowsAreStampedRecordLines | llma/ws/one/email_llm_monitor_old.py:105-109 | a line is kept iff it contains a pipe character, lacks `"User"` and has at least three cells; its row is the date followed by the cells, one column more, at least four |
| EmailLlmMonitorOld.RowsInLineOrder | llma/ws/one/email_llm_monitor_old.py:105-109 | rows come out in the order of their lines |
| EmailLlmMonitorOld.CollectRows | llma/ws/one/email_llm_monitor_old.py:104-109 | the loop that builds `rows` computes `Rows` of the output and the formatted date |
| EmailLlmMonitorOld.AppendToExcel | llma/ws/one/email_llm_monitor_old.py:103-125 | `output.xlsx` becomes `AppendRows` of its old contents, the five-column header and the stamped rows |
| EmailLlmMonitorOld.IsNotifyLine | llma/ws/one/email_llm_monitor_old.py:147-149 | a candidate line with at least four parts whose fourth part, lowercased, is "yes" |
| EmailLlmMonitorOld.NotifyAlert | llma/ws/one/email_llm_monitor_old.py:153-155 | the alert to the sender with subject "Consumption Report from Admin" and a body naming `parts[0]` and `parts[1]` |
| EmailLlmMonitorOld.AlertsFor | llma/ws/one/email_llm_monitor_old.py:149-157 | for the prompts in order, the alert of each one whose reply is confirmed |
| EmailLlmMonitorOld.PromptedLinesAreRecorded | llma/ws/one/email_llm_monitor_old.py:146-149 | every line that prompts the operator was also written to the sheet, with its flag under "Notify" |
| EmailLlmMonitorOld.Prompts | llma/ws/one/email_llm_monitor_old.py:146-149 | every prompted row has at least four parts |
| EmailLlmMonitorOld.AlertsAnswerConfirmedPrompts | llma/ws/one/email_llm_monitor_old.py:149-155 | there are no more alerts than prompts, and every alert names `parts[0]` and `parts[1]` of a prompt the operator confirmed |
| EmailLlmMonitorOld.ConfirmedPromptsAreAlerted | llma/ws/one/email_llm_monitor_old.py:149-155 | every confirmed prompt leads to its alert |
| EmailLlmMonitorOld.HandleNotification | llma/ws/one/email_llm_monitor_old.py:145-157 | the loop prompts once per flagged line, in line order, and sends exactly `AlertsFor` the prompts and the replies |
| EmailLlmMonitorOld.NotificationStep | llma/ws/one/email_llm_monitor_old.py:147-155 | one more line adds a prompt iff it is flagged, and an alert iff the operator also confirms |
| EmailLlmMonitorOld.FetchEmailAfterDate | llma/ws/one/email_llm_monitor_old.py:49-78 | raises exactly when `Select` does; otherwise returns the newest selected message's body and date, strictly after the cutoff, or `(None, after_utc)` |
| EmailLlmMonitorOld.SelectionRaisesAtFailedFetch | llma/ws/one/email_llm_monitor_old.py:56-78 | with no fetch-status test the scan, newest first, raises exactly when it reaches a failed fetch before any message dated strictly after the cutoff; nothing is found iff every message was fetched and is undated or at or before the cutoff; a found message is the latest in search order dated after it, and every message newer than it was fetched |
| EmailLlmMonitorOld.PassedBefore | llma/ws/one/email_llm_monitor_old.py:56-65 | every message after position `i` in search order was fetched and is passed over by `continue` |
| EmailLlmMonitorOld.InitialWatermark | llma/ws/one/email_llm_monitor_old.py:162 | `read_last_timestamp() or FILTER_START_DATE`: the saved timestamp when there is one, since a `datetime` is always truthy |
| EmailLlmMonitorOld.Processes | llma/ws/one/email_llm_monitor_old.py:167-168 | `if email_body:` holds: a message was selected and its body is not empty |
| EmailLlmMonitorOld.PollOnce | llma/ws/one/email_llm_monitor_old.py:165-177 | one pass: a raising fetch ends the program, after which nothing changes; on a processed email the stamped rows are appended, the flagged rows prompted, and the watermark set to the email's date and saved; otherwise nothing changes |
| EmailLlmMonitorOld.RunPolls | llma/ws/one/email_llm_monitor_old.py:165-179 | the passes of the loop, one after the other |
| EmailLlmMonitorOld.PollOnceWatermark | llma/ws/one/email_llm_monitor_old.py:165-177 | once the program has ended nothing changes; a raising fetch ends it with the watermark unmoved; the watermark changes iff a non-empty body was found, and then becomes that email's date, strictly later, and is saved |
| EmailLlmMonitorOld.RunAfterRaise | llma/ws/one/email_llm_monitor_old.py:165-179 | once a fetch has raised, the remaining polls change nothing: the run is the run up to the crash |
| EmailLlmMonitorOld.WatermarkNeverDecreases | llma/ws/one/email_llm_monitor_old.py:165-179 | over any run the watermark never goes back |
| EmailLlmMonitorOld.WorkbookOnlyGrows | llma/ws/one/email_llm_monitor_old.py:165-179 | over any run the sheet's earlier rows stay a prefix of its rows |
| EmailLlmMonitorOld.Monitor | llma/ws/one/email_llm_monitor_old.py:162-179 | an invalid start date exits with nothing changed; otherwise the watermark starts at the saved timestamp, or at the start date when there is none, the loop stops at a raising fetch, and the final state, `raised` included, equals `RunPolls` over all the polls |
| Contrasts.CutoffInclusiveOnlyInAnalyser | llma/ws/one/mail_analyser.py:50 | an email dated exactly at the cutoff is chosen by `mail_analyser.py` alone |
| Contrasts.FailedFetchRaisesOnlyInOld | llma/ws/one/email_llm_monitor_old.py:57-58 | a message whose fetch failed is skipped by the two newer scripts and makes the old one raise |
| Contrasts.FailedFetchHidesOlderEmailInOld | llma/ws/one/email_llm_monitor_old.py:56-58 | with a failed fetch newer than a qualifying email, the smart script selects the email and the old script raises before it reaches it |
| Contrasts.OlderNewEmailIsPassedOver | llma/ws/one/mail_analyser_smart.py:58-79 | of two qualifying emails only the newer one is chosen, and once the watermark reaches its date the older one never qualifies again |
| Contrasts.HeaderAndSeparatorRowsOnlyInAnalyser | llma/ws/one/mail_analyser.py:142 | a header line and a dashed separator become rows in `mail_analyser.py` and not in `mail_analyser_smart.py` |
| Contrasts.EmptyAnswerOverwritesOnlyInAnalyser | llma/ws/one/mail_analyser.py:137-146 | with no table in the answer, `mail_analyser.py` still saves an empty sheet, while the appending scripts leave the file as it was |

## Left out

- IMAP login, search and fetch, SMTP sending and the HTTP call to the
  language model (`parse_with_llm`) are network I/O. The search result is the
  input `mailbox`, the model's answer is an arbitrary input string, and
  `send_alert_email` is an `Alert` record added to a list.
- An alert that SMTP fails to deliver is still recorded, because
  `send_alert_email` catches the error and the loop goes on unchanged.
- openpyxl's file format. `load_workbook` and `wb.save` are reduced to the
  list of rows of the active sheet.
- Reading `last_time.txt`. A missing or unparsable file is `None`.
- Date parsing, timezone conversion and `isoformat`/`fromisoformat`.
  Timestamps are integers, and a date that fails to parse is `None`.
- `strftime` is the parameter `format` of the old script's
  `AppendToExcel`, whose result is not modelled.
- `datetime.now` is the `now` field of a `mail_analyser.py` poll.
- `email.message_from_bytes` and `get_payload(decode=True).decode(...)`.
  A message arrives already split into walk parts with decoded text.
- The content of a failed fetch in the old script. On a failed
  `imap.fetch`, `msg_data[0][1]` at `email_llm_monitor_old.py:58` fails
  before a date is read, and no handler covers it. The model writes that as
  the outcome `Raised`, the flag `raised` of the loop's state, and the end of
  `Monitor`'s loop, without naming the exception.
- `FILTER_START_DATE` without a UTC offset. `fromisoformat` at
  `mail_analyser_smart.py:30` and `email_llm_monitor_old.py:30` accepts it
  as a naive `datetime`. When no saved timestamp replaces it, the first
  comparison with an aware email date (`mail_analyser_smart.py:67`,
  `email_llm_monitor_old.py:63`) raises an uncaught `TypeError` and the
  program ends. `Monitor` instead runs normally from `Some(t)`. The value
  saved in `last_time.txt` always comes from an aware email date, so it is
  not the cause.
- openpyxl's `ws.append` raises an uncaught `IllegalCharacterError` for a
  cell holding a control character that `strip()` leaves inside it, such as
  `a\x01b` (`mail_analyser_smart.py:139`, `mail_analyser.py:144`,
  `email_llm_monitor_old.py:123`), and the program ends. The model writes
  the row.
- `input()` is a parameter:
  - one reply per poll in `mail_analyser_smart.py`;
  - a reply per prompt number in the old script.
- `EOFError` on `input()`, `KeyboardInterrupt`, `time.sleep`, printing,
  colorama and logging are not modelled. `exit(1)` is modelled only as the
  loop not starting.
- PyStr.Lower: maps only the ASCII letters. Python's `lower()` also maps
  other cased characters, some to two characters. Every string compared
  after lowering ("yes", "notify the user") is ASCII.
- The commented-out string-literal code in `mail_analyser.py:71-100` and
  `mail_analyser.py:181-206` is not live code and is not modelled.
- The LangChain, FAISS and RAG scripts elsewhere in the repository, and
  `simple_llm.py`/`simple_llm_gema.py`, are not part of this model.
