/** The CSV attendance log as a sequence of rows. read_serial opens it for
    appending, writes the column header only if the file is empty at that
    moment, and then appends one row per accepted record. */
module LogFile {

  type Row = seq<string>

  /** The column header of the attendance log. */
  const Header: Row := ["Timestamp", "UID", "Fingerprint ID", "Distance (cm)", "Access"]

  /** The rows of the file once it is open for appending: the header alone if
      the file was empty, the file as it was otherwise. */
  function Opened(file: seq<Row>): (r: seq<Row>)
    ensures r != [] && file <= r && |r| <= |file| + 1
    ensures r[0] == if file == [] then Header else file[0]
    ensures file != [] ==> r == file
  {
    if file == [] then [Header] else file
  }

  /** Opening an opened file again adds nothing: the header is never written
      twice. */
  lemma OpenedIdempotent(file: seq<Row>)
    ensures Opened(Opened(file)) == Opened(file)
  {
  }

  /** All rows of a sequence of sessions, in session order. */
  function Concat(sessions: seq<seq<Row>>): seq<Row> {
    if sessions == [] then [] else sessions[0] + Concat(sessions[1..])
  }

  /** The file after a run of sessions, each of which opens the file and then
      appends the rows it wrote. A session whose connection attempt failed
      never opens the file, so it is not one of `sessions`. */
  function AfterSessions(file: seq<Row>, sessions: seq<seq<Row>>): seq<Row>
    decreases |sessions|
  {
    if sessions == [] then file
    else AfterSessions(Opened(file) + sessions[0], sessions[1..])
  }

  /** Across any number of sessions the file gains at most one header, at the
      front and only if it was empty, followed by every session's rows in
      order; rows already in the file are kept. */
  lemma {:induction false} SessionsAppend(file: seq<Row>, sessions: seq<seq<Row>>)
    requires sessions != []
    ensures AfterSessions(file, sessions) == Opened(file) + Concat(sessions)
    decreases |sessions|
  {
    var next := Opened(file) + sessions[0];
    if |sessions| == 1 {
      assert Concat(sessions) == sessions[0] + Concat([]);
    } else {
      SessionsAppend(next, sessions[1..]);
      assert Opened(next) == next;
      assert Opened(file) + sessions[0] + Concat(sessions[1..]) == Opened(file) + Concat(sessions);
    }
  }

  /** A log file that starts empty holds exactly one header, first, followed
      by the records of all sessions. */
  lemma FreshFileSingleHeader(sessions: seq<seq<Row>>)
    requires sessions != []
    ensures AfterSessions([], sessions) == [Header] + Concat(sessions)
  {
    SessionsAppend([], sessions);
  }
}
