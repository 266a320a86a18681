# Smart Attendance Logger — a Dafny model of the serial ingestion core

The attendance logger reads newline-terminated lines from a serial device.
A line `LOG,<uid>,<fingerprint id>,<distance>,<access>` becomes an attendance
row. That row is appended to an in-memory list (`log_data`) and to a CSV log
file whose five-column header is written only when the file is empty. A line
that does not start with `LOG,` but mentions `Ultrasonic` is shown as
information. Every other line is dropped, including a `LOG,` line with the
wrong number of fields. A Start button and a Stop button control a `running` flag, and
`read_serial` checks that flag before every read.

The model has five modules:

| file | module | what it holds |
|---|---|---|
| `text.dfy` | `Text` | Python's `str.strip()`, `str.split(',')`, `str.startswith` and `in`, with the lemmas that pin them down |
| `line_parser.dfy` | `LineParser` | the classification of one stripped line (`Classify`) and the row shape of an event |
| `log_file.dfy` | `LogFile` | the CSV file as a sequence of rows, and the header that is written once |
| `ingestion.dfy` | `Ingestion` | the read loop as a pure function of what the port delivered (`Run`, `Ingest`), a fault-free reference description (`EventRows`, `InfoLines`) and the lemmas relating the two |
| `serial_session.dfy` | `SerialSession` | the program's globals as the fields of a `Session` object, and `read_serial`, Start and Stop as its methods |

`Session.ReadSerial` connects, opens the file and runs `Session.ReadLoop`,
the imperative loop. Each pass calls the pure `Interpret` (readline, strip,
classify) and then `Handle` (the appends). The loop's postcondition ties the final list, file, surfaced lines and status to `Ingest`
of the reads it saw. The lemmas in `Ingestion` state what `Ingest` means:
- it stops at the first exception;
- dropped and informational lines never reach the data;
- without faults, the list and the file both hold exactly the rows of the
  well-formed record lines, in arrival order.

Outside inputs are parameters:
- whether the connection attempt succeeds (`connectOk`);
- what each `readline()` returned, as a `Read` value that carries its own
  clock reading: a decoded line, a read or decode that raised
  (`ReadFault`), or a line whose CSV write raises (`WriteFault`);
- the file's rows at start-up (the `Session` constructor's argument).

### Behaviour of the code worth noting

- `log_data.append` runs before `writer.writerow` (app.py:55-56). If the
  write raises, the list holds one row more than the file: the list is
  updated before the file, not after. `Ingestion.MirrorAgrees` states exactly this bound: the
  file's rows are a prefix of the list, the list is at most one row longer,
  and only after a failure.
- A failed CSV write is caught by the same `except` as a read error
  (app.py:62-64). The loop ends with an error status; nothing crashes.
- A line that starts with `LOG,` but has the wrong field count is dropped
  even when it mentions `Ultrasonic`, because the `elif` is never reached
  (app.py:47-59). A well-formed record line that mentions `Ultrasonic` is
  logged as a record. So only unmarked lines can be informational.
- `read_serial` never clears `running`. After a failed connection or a
  read error, the flag stays up, and Start is refused until Stop is pressed.
  `Session.Start` ensures `running` on every path.

## Model

| member | source | states |
|---|---|---|
| Text.Strip | app.py:43 | the stripped line has no `str.isspace()` character at either end |
| Text.StripEmpty | app.py:43-45 | strip() gives the empty string exactly when the line is all whitespace, as a timed-out read is |
| Text.StripPadded | app.py:43 | whitespace around a trimmed string is exactly what strip() removes (`"x\r\n"` becomes `"x"`) |
| Text.StripTrimmed | app.py:43 | strip() leaves a string with no surrounding whitespace unchanged |
| Text.StripIdempotent | app.py:43 | stripping twice is stripping once |
| Text.TrimStartDropsSpace | app.py:43 | everything cut from the front is whitespace |
| Text.TrimEndDropsSpace | app.py:43 | everything cut from the back is whitespace |
| Text.Split | app.py:48 | split(',') gives one more piece than there are commas, and no piece contains a comma |
| Text.JoinSplit | app.py:48 | joining the pieces of a split with the separator gives the line back |
| Text.SplitJoin | app.py:48 | splitting a join of comma-free pieces gives exactly those pieces |
| Text.ContainsAt | app.py:59 | `p in s` holds exactly when p starts at some position of s |
| Text.ContainsTooLong | app.py:59 | a pattern longer than the line never occurs in it |
| LineParser.ToRow | app.py:55-56 | an event's row has the five columns of the header |
| LineParser.Classify | app.py:44-60 | the empty line is ignored; a record carries the caller's clock reading and comes from a line starting with `LOG,`; an informational result is the line itself, which contains `Ultrasonic` and does not start with `LOG,` |
| LineParser.ClassifyEventLine | app.py:47-56 | `LOG,a,b,c,d` with comma-free fields becomes exactly the event (clock, a, b, c, d), in that order |
| LineParser.ClassifyRecordShape | app.py:47-56 | conversely, every accepted record comes from a line `LOG,a,b,c,d` with comma-free fields equal to the event's fields |
| LineParser.ClassifyRecordIff | app.py:47-49 | a line is accepted as a record exactly when it starts with `LOG,` and has four commas |
| LineParser.ClassifyRecordRow | app.py:48-55 | the row of an accepted record is the clock reading followed by parts[1..4] |
| LineParser.ClassifyMalformed | app.py:47-59 | a `LOG,` line with the wrong field count is ignored, even if it mentions `Ultrasonic` |
| LineParser.ClassifyUnmarked | app.py:59-60 | a line without `LOG,` is informational exactly when it contains `Ultrasonic`, and is ignored otherwise |
| LogFile.Opened | app.py:36-39 | an empty file gains exactly the header, and a file that already has rows is left exactly as it is, so no second header is ever added |
| LogFile.OpenedIdempotent | app.py:36-39 | opening an opened file again adds no second header |
| LogFile.SessionsAppend | app.py:36-39 | over one or more sessions the file keeps its rows and gains each session's rows in order, after at most one header |
| LogFile.FreshFileSingleHeader | app.py:36-39 | a file that starts empty ends as one header followed by the rows of every session |
| Ingestion.Step | app.py:47-64 | one pass only appends, at most one row to each of the list, the file and the surfaced lines, and raises exactly on a failed read or a failed record write |
| Ingestion.Run | app.py:41-64 | the file's rows are a prefix of the list, the list is at most one row longer and only after a failure, and neither outgrows the number of reads |
| Ingestion.RunFaultFree | app.py:41-60 | without faults the list and the file both hold exactly the rows of the accepted records, and the surfaced lines are exactly the informational lines, in arrival order |
| Ingestion.FailedIsFinal | app.py:62-64 | once the loop has failed, later reads change nothing |
| Ingestion.StopHere | app.py:62-64 | a failure at read k fixes the outcome as it stands right after read k |
| Ingestion.StopsAtReadFault | app.py:42-64 | a read error keeps every row accepted before it, in both the list and the file, and ends the loop |
| Ingestion.StopsAtWriteFault | app.py:55-64 | a failed write leaves its record in the list but not in the file, and ends the loop |
| Ingestion.RunMonotone | app.py:41-57 | as reading goes on, the list, the file and the surfaced lines only grow by extension |
| Ingestion.DroppedLineRemovable | app.py:44-49 | an ignored line can be removed from anywhere in the input without changing the outcome |
| Ingestion.InformationalNotLogged | app.py:59-60 | removing an informational line leaves the list, the file and the failure unchanged |
| Ingestion.RecordAppended | app.py:55-57 | an accepted record appends its row, last, to both the list and the file |
| Ingestion.EventRowsCount | app.py:47-56 | the number of rows equals the number of reads whose stripped text is a well-formed record line |
| Ingestion.HeadRowCount | app.py:47-56 | a single read yields one row exactly when it delivered a well-formed record line, and none otherwise |
| Ingestion.BlankReadRemovable | app.py:43-45 | a read that is blank after strip() has no effect wherever it occurs |
| Ingestion.RecordReadAppended | app.py:43-57 | a read holding a well-formed record line appends exactly `[clock, parts[1], .., parts[4]]` to both the list and the file |
| Ingestion.InterpretTrimmed | app.py:43 | a line without surrounding whitespace is classified as it stands |
| Ingestion.SampleSession | app.py:41-60 | a blank read, a padded record, an unknown line, an `Ultrasonic` line and a truncated record give one row in both the list and the file, plus one informational line |
| SerialSession.Session.constructor | app.py:12-24 | the logger starts not running, with an empty list, nothing shown and the file as found |
| SerialSession.Session.ReadSerial | app.py:26-67 | a failed connection touches neither the list, the file nor the port; otherwise the file gains a header if it was empty, the list, the file and the surfaced lines gain what `Ingest` gives for the reads the loop saw (none if the flag was down), the port is closed, and `running` is never changed |
| SerialSession.Session.ReadLoop | app.py:41-64 | while the flag is up the loop takes the reads in order; the list, the file and the surfaced lines gain exactly what `Ingest` gives for the reads it saw (none if the flag was down), and the status is Errored exactly when an exception ended it |
| SerialSession.Session.Handle | app.py:47-64 | one pass of the loop body appends what `Step` appends and reports the exception `Step` raises |
| SerialSession.Session.Start | app.py:69-72 | Start launches exactly when not running; it then raises the flag, empties the list and leaves the state `ReadSerial` describes; a refused Start changes nothing; after a launch without error, the list is exactly the last rows of the file |
| SerialSession.Session.Stop | app.py:74-76 | Stop has an effect exactly when running: it lowers the flag and shows the stopped status; the list, the file, the surfaced lines and the port never change |
| SerialSession.StopBeforeStart | app.py:74-76 | stopping a logger that was never started does nothing |
| SerialSession.StartTwice | app.py:69-72 | a second Start while the flag is up is refused and leaves the first session's rows in place |

## Left out

- The Streamlit page (app.py:14-20, 31, 33, 60, 63, 76, 78-84): title, port input, buttons, placeholders, table and download button are presentation only. Status messages are a `Status` value without their text. Each `log_display.info` call (app.py:60) replaces what the placeholder shows, so the page shows only the latest informational line. The model's `shown` is the history of all surfaced lines, of which the page shows the last.
- The port name and the baud rate (app.py:10, 16, 29) only configure pyserial, which is not modelled. Whether the connection succeeds is the `connectOk` parameter.
- pyserial's open, readline and close, and the two-second settle delay (app.py:29-30, 43, 66-67): these are foreign I/O. The reads are a sequence of `Read` values, a read that timed out is a blank line, and the open connection is the `portOpen` flag.
- The background thread and a Stop that arrives while the loop runs (app.py:72): concurrency is not modelled. `Start` runs `read_serial` to completion. Its reads are those the port delivers before the loop next finds the flag lowered, and the first Stop after that is a separate later call.
- An `open` of the CSV file that raises (app.py:36), and a header `writerow` that raises (app.py:39), are outside every handler and end the thread with the port still open. The model assumes both succeed, so `Session.ReadSerial` has no such path.
- `datetime.now().strftime` (app.py:50): the clock is outside the program, so each read carries the clock reading as an opaque string.
- UTF-8 decoding (app.py:43): the text of a `Read` is already decoded, and a decoding error is a `ReadFault`.
- csv quoting and escaping, and `file.flush` (app.py:37, 56-57): rows are sequences of strings, not serialised text. A `writerow` or `flush` that raises is a `WriteFault`, whose row does not reach the modelled file. Leaving the `with` block after the `break` closes the file, which flushes the buffered row once more. If that flush succeeds, the row does reach the real file. If it raises, the exception escapes `read_serial`, `ser.close()` (app.py:66-67) is skipped and the port stays open. The model assumes the close adds nothing and succeeds, so after a `WriteFault` it has the row missing from the file and the port closed.
- The pandas export and CSV download (app.py:78-84) are a thin library wrapper outside the core.
- Streamlit resetting the module's globals on every rerun is framework behaviour, not repository logic. The `Session` object keeps its fields from one call to the next.
