/** The classification of one stripped serial line, as read_serial does it:
    a well-formed "LOG," record becomes an attendance event, an unmarked
    "Ultrasonic" line is surfaced for display, everything else is dropped. */
module LineParser {
  import opened Text

  /** The marker a record line starts with. */
  const Marker: string := "LOG,"
  /** The substring that makes an unmarked line informational. */
  const Beacon: string := "Ultrasonic"
  /** Fields of a record line, the marker included. */
  const RecordFields: nat := 5

  /** One attendance record: the capture time assigned by the logger and the
      four fields the device sent, kept verbatim. */
  datatype Event = Event(timestamp: string, uid: string, fingerprintId: string,
                         distance: string, access: string)

  /** The row an event becomes, both in the in-memory list and in the CSV file:
      Timestamp, UID, Fingerprint ID, Distance (cm), Access. */
  function ToRow(e: Event): (row: seq<string>)
    ensures |row| == RecordFields
  {
    [e.timestamp, e.uid, e.fingerprintId, e.distance, e.access]
  }

  datatype Parsed = Ignored | Record(event: Event) | Informational(text: string)

  /** Classifies a line that has already been stripped; `clock` is the time
      the logger reads when it accepts a record. */
  function Classify(line: string, clock: string): (p: Parsed)
    ensures line == [] ==> p == Ignored
    ensures p.Record? ==> p.event.timestamp == clock && StartsWith(line, Marker)
    ensures p.Informational? ==> p.text == line && Contains(line, Beacon) && !StartsWith(line, Marker)
  {
    if line == [] then Ignored
    else if StartsWith(line, Marker) then
      var parts := Split(line, ',');
      if |parts| == RecordFields then Record(Event(clock, parts[1], parts[2], parts[3], parts[4]))
      else Ignored
    else if Contains(line, Beacon) then Informational(line)
    else Ignored
  }

  /** The record line a device sends for the four given fields. */
  function EventLine(uid: string, fingerprintId: string, distance: string, access: string): string {
    Marker + uid + "," + fingerprintId + "," + distance + "," + access
  }

  predicate CommaFree(s: string) {
    ',' !in s
  }

  lemma EventLineIsJoin(uid: string, fingerprintId: string, distance: string, access: string)
    ensures EventLine(uid, fingerprintId, distance, access)
         == Join(["LOG", uid, fingerprintId, distance, access], ',')
  {
    var parts := ["LOG", uid, fingerprintId, distance, access];
    assert parts[1..][1..][1..][1..] == [access];
    assert Join(parts[1..][1..][1..], ',') == distance + [','] + access;
    assert parts[1..][1..][1..] == [distance, access];
    assert Join(parts[1..][1..], ',') == fingerprintId + [','] + distance + [','] + access;
    assert parts[1..][1..] == [fingerprintId, distance, access];
    assert Join(parts[1..], ',') == uid + [','] + fingerprintId + [','] + distance + [','] + access;
    assert parts[1..] == [uid, fingerprintId, distance, access];
  }

  /** A record line with comma-free fields is accepted as exactly the event
      carrying those fields, in order, stamped with the logger's clock. */
  lemma ClassifyEventLine(uid: string, fingerprintId: string, distance: string, access: string, clock: string)
    requires CommaFree(uid) && CommaFree(fingerprintId) && CommaFree(distance) && CommaFree(access)
    ensures Classify(EventLine(uid, fingerprintId, distance, access), clock)
         == Record(Event(clock, uid, fingerprintId, distance, access))
  {
    var line := EventLine(uid, fingerprintId, distance, access);
    var parts := ["LOG", uid, fingerprintId, distance, access];
    EventLineIsJoin(uid, fingerprintId, distance, access);
    SplitJoin(parts, ',');
    assert line[..|Marker|] == Marker;
  }

  /** Conversely, every accepted record comes from a record line: the line is
      the marker followed by the event's four comma-free fields. */
  lemma ClassifyRecordShape(line: string, clock: string)
    requires Classify(line, clock).Record?
    ensures var e := Classify(line, clock).event;
      && e.timestamp == clock
      && CommaFree(e.uid) && CommaFree(e.fingerprintId) && CommaFree(e.distance) && CommaFree(e.access)
      && line == EventLine(e.uid, e.fingerprintId, e.distance, e.access)
  {
    var parts := Split(line, ',');
    assert |parts| == 5;
    JoinSplit(line, ',');
    var head := parts[0];
    var tail := Join(parts[1..], ',');
    MarkerIsFirstPiece(line, head, tail);
    EventLineIsJoin(parts[1], parts[2], parts[3], parts[4]);
    assert parts == ["LOG", parts[1], parts[2], parts[3], parts[4]];
  }

  /** The first comma-free piece of a marked line is the marker's word. */
  lemma MarkerIsFirstPiece(line: string, head: string, tail: string)
    requires line == head + [','] + tail && CommaFree(head) && StartsWith(line, Marker)
    ensures head == "LOG"
  {
    assert line[|head|] == ',';
    assert forall k :: 0 <= k < |head| ==> line[k] == head[k];
    assert line[..4] == "LOG,";
    assert line[0] == 'L' && line[1] == 'O' && line[2] == 'G' && line[3] == ',';
    assert |head| == 3;
  }

  /** A stripped line is accepted as a record exactly when it carries the
      marker and has four commas, that is, five fields. */
  lemma ClassifyRecordIff(line: string, clock: string)
    ensures Classify(line, clock).Record? <==> StartsWith(line, Marker) && Count(line, ',') == RecordFields - 1
  {
  }

  /** The row of an accepted record is the clock reading followed by the
      line's second to fifth comma-separated fields, in that order. */
  lemma ClassifyRecordRow(line: string, clock: string)
    requires StartsWith(line, Marker) && Count(line, ',') == RecordFields - 1
    ensures Classify(line, clock).Record?
    ensures |Split(line, ',')| == RecordFields
    ensures ToRow(Classify(line, clock).event) == [clock] + Split(line, ',')[1..]
  {
    ClassifyRecordIff(line, clock);
    var parts := Split(line, ',');
    assert parts[1..] == [parts[1], parts[2], parts[3], parts[4]];
  }

  /** A marked line with the wrong number of fields is dropped, even when it
      also mentions the beacon: the informational test is never reached. */
  lemma ClassifyMalformed(line: string, clock: string)
    requires StartsWith(line, Marker) && Count(line, ',') != RecordFields - 1
    ensures Classify(line, clock) == Ignored
  {
  }

  /** An unmarked line that mentions the beacon is passed through unchanged;
      any other unmarked line is dropped. */
  lemma ClassifyUnmarked(line: string, clock: string)
    requires !StartsWith(line, Marker)
    ensures Classify(line, clock) == if Contains(line, Beacon) then Informational(line) else Ignored
  {
  }
}
