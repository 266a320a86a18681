/** The logger's session state and the code that changes it: read_serial,
    which connects, opens the log file and runs the read loop, and the
    start and stop guards around it. The globals of the program become the
    fields of a Session object. */
module SerialSession {
  import opened LineParser
  import opened LogFile
  import opened Ingestion

  /** The last status message the logger showed. */
  datatype Status = Idle | Connected | ConnectFailed | Errored | Stopped

  /** The reads the loop gets to see: none when the session is not running at
      the moment read_serial checks the flag for the first time. */
  function Consumed(running: bool, input: seq<Read>): (seen: seq<Read>)
    ensures seen == [] || seen == input
    ensures running ==> seen == input
  {
    if running then input else []
  }

  class Session {
    /** The flag the loop checks before every read. */
    var running: bool
    /** The in-memory list of attendance rows (log_data). */
    var logData: seq<Row>
    /** The rows of the CSV log file, header included. */
    var fileRows: seq<Row>
    /** Whether the serial connection is open. */
    var portOpen: bool
    /** Every line surfaced as informational, in order; the page itself keeps
        only the latest one on screen. */
    var shown: seq<string>
    var status: Status

    /** A logger that has not started yet, next to a log file holding
        `existing`. */
    constructor(existing: seq<Row>)
      ensures !running && logData == [] && fileRows == existing
      ensures !portOpen && shown == [] && status == Idle
    {
      running := false;
      logData := [];
      fileRows := existing;
      portOpen := false;
      shown := [];
      status := Idle;
    }

    /** The logged rows are the last rows of the file. */
    ghost predicate InSync()
      reads this
    {
      |logData| <= |fileRows| && fileRows[|fileRows| - |logData|..] == logData
    }

    /** The state read_serial leaves behind, given whether the connection
        attempt succeeded, the reads the loop saw and the state before. A
        failed connection returns at once and touches neither the list nor
        the file nor the port. Otherwise the file gains a header if it was
        empty, the loop runs over the reads as Ingest describes, stopping at
        the first exception, and the connection is closed. */
    ghost predicate ReadDone(connectOk: bool, seen: seq<Read>, log0: seq<Row>, file0: seq<Row>,
                             shown0: seq<string>, port0: bool)
      reads this
    {
      if !connectOk then
        && logData == log0 && fileRows == file0 && shown == shown0
        && portOpen == port0 && status == ConnectFailed
      else
        var o := Ingest(seen);
        && logData == log0 + o.mirror
        && fileRows == Opened(file0) + o.written
        && shown == shown0 + o.shown
        && !portOpen
        && status == (if o.failed then Errored else Connected)
    }

    /** read_serial given whether the connection attempt succeeds and the
        reads the port delivers until the loop next finds the flag cleared;
        the loop sees none of them if the flag is already down. */
    method ReadSerial(connectOk: bool, input: seq<Read>)
      modifies this
      ensures running == old(running)
      ensures ReadDone(connectOk, Consumed(old(running), input), old(logData), old(fileRows), old(shown), old(portOpen))
    {
      if !connectOk {
        status := ConnectFailed;
        return;
      }
      portOpen := true;
      status := Connected;
      if fileRows == [] {
        fileRows := [Header];
      }
      ReadLoop(input);
      portOpen := false;
    }

    /** The read loop of read_serial, run while the flag is up over the reads
        the port delivers: it leaves the list, the file and the surfaced lines
        extended by what Ingest gives for the reads it saw, and the status at
        Errored exactly when an exception ended it. */
    method ReadLoop(input: seq<Read>)
      requires portOpen && status == Connected
      modifies this
      ensures running == old(running) && portOpen
      ensures var o := Ingest(Consumed(old(running), input));
        && logData == old(logData) + o.mirror && fileRows == old(fileRows) + o.written
        && shown == old(shown) + o.shown && status == (if o.failed then Errored else Connected)
    {
      ghost var items := Items(input);
      ghost var broke := false;
      var i := 0;
      while running && i < |input|
        invariant 0 <= i <= |input|
        invariant running == old(running) && (!old(running) ==> i == 0)
        invariant portOpen && status == Connected
        invariant !Run(items[..i]).failed
        invariant logData == old(logData) + Run(items[..i]).mirror
        invariant fileRows == old(fileRows) + Run(items[..i]).written
        invariant shown == old(shown) + Run(items[..i]).shown
      {
        ghost var o := Run(items[..i]);
        var item := Interpret(input[i]);
        assert item == items[i];
        var failed := Handle(item);
        StepShift(old(logData), old(fileRows), old(shown), o, item);
        if failed {
          StopHere(items, i);
          broke := true;
          break;
        }
        RunSnoc(items, i);
        i := i + 1;
      }
      if !old(running) {
        assert items[..i] == [] == Items(Consumed(old(running), input));
      } else if !broke {
        assert items[..i] == items;
      }
    }

    /** The rest of one pass of the loop body, once the line has been read,
        stripped and classified: an accepted record is appended to the list
        and then written to the file, an informational line is shown;
        `failed` reports an exception, after which the loop breaks. */
    method Handle(it: Item) returns (failed: bool)
      modifies this
      ensures var o := Step(Outcome(old(logData), old(fileRows), old(shown), false), it);
        && logData == o.mirror && fileRows == o.written && shown == o.shown && failed == o.failed
      ensures running == old(running) && portOpen == old(portOpen)
      ensures status == if failed then Errored else old(status)
    {
      failed := false;
      match it {
        case Broken =>
          failed := true;
        case Got(p, writeOk) =>
          if p.Record? {
            logData := logData + [ToRow(p.event)];
            if writeOk {
              fileRows := fileRows + [ToRow(p.event)];
            } else {
              failed := true;
            }
          } else if p.Informational? {
            shown := shown + [p.text];
          }
      }
      if failed {
        status := Errored;
      }
    }

    /** Start Logging: has an effect only when not running; it raises the
        flag, empties the in-memory list and runs read_serial. */
    method Start(connectOk: bool, input: seq<Read>) returns (launched: bool)
      modifies this
      ensures launched == !old(running)
      ensures running
      ensures !launched ==>
        && logData == old(logData) && fileRows == old(fileRows) && shown == old(shown)
        && portOpen == old(portOpen) && status == old(status)
      ensures launched ==> ReadDone(connectOk, input, [], old(fileRows), old(shown), old(portOpen))
      ensures launched && status != Errored ==> InSync()
    {
      launched := !running;
      if launched {
        running := true;
        logData := [];
        ReadSerial(connectOk, input);
        assert Consumed(true, input) == input;
      }
    }

    /** Stop Logging: has an effect only when running; it clears the flag.
        Nothing else changes, so stopping before starting does nothing. */
    method Stop() returns (stopped: bool)
      modifies this
      ensures stopped == old(running)
      ensures !running
      ensures status == if stopped then Stopped else old(status)
      ensures logData == old(logData) && fileRows == old(fileRows) && shown == old(shown)
      ensures portOpen == old(portOpen)
    {
      stopped := running;
      if stopped {
        running := false;
        status := Stopped;
      }
    }
  }

  /** Stopping a logger that was never started does nothing. */
  method StopBeforeStart(existing: seq<Row>) returns (stopped: bool, s: Session)
    ensures !stopped
    ensures !s.running && s.logData == [] && s.fileRows == existing && s.shown == [] && s.status == Idle
  {
    s := new Session(existing);
    stopped := s.Stop();
  }

  /** A second Start while the first session is still marked running is
      refused: the list, the file and the status stay as the first start
      left them. */
  method StartTwice(existing: seq<Row>, first: seq<Read>, second: seq<Read>)
      returns (launched1: bool, launched2: bool, s: Session)
    ensures launched1 && !launched2 && s.running
    ensures s.logData == Ingest(first).mirror
    ensures s.fileRows == Opened(existing) + Ingest(first).written
  {
    s := new Session(existing);
    launched1 := s.Start(true, first);
    launched2 := s.Start(true, second);
  }
}
