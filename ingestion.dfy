/** The read loop of read_serial seen as a function of what the serial port
    delivered. Each read either yields a line (with the clock reading the
    logger would take for it), or raises while reading or decoding, or
    yields a line whose CSV write raises. The loop appends every accepted
    record to the in-memory list and then to the file, shows informational
    lines, drops the rest, and stops at the first exception. */
module Ingestion {
  import opened Text
  import opened LineParser
  import opened LogFile

  datatype Read =
    | Line(text: string, clock: string)        // readline() gave this decoded text
    | ReadFault                                 // readline() or the decoding raised
    // The line was read and writing a CSV row for it raises. Only a
    // well-formed record line is ever written, so on any other line this
    // behaves exactly like Line.
    | WriteFault(text: string, clock: string)

  /** What one read amounts to for the loop body: the classification of the
      stripped line and whether writing its row would succeed, or a read that
      raised. */
  datatype Item = Got(parsed: Parsed, writeOk: bool) | Broken

  function Interpret(r: Read): Item {
    match r
    case Line(text, clock) => Got(Classify(Strip(text), clock), true)
    case ReadFault => Broken
    case WriteFault(text, clock) => Got(Classify(Strip(text), clock), false)
  }

  /** The items of a sequence of reads, read for read. */
  function Items(input: seq<Read>): (items: seq<Item>)
    ensures |items| == |input|
    ensures forall k :: 0 <= k < |input| ==> items[k] == Interpret(input[k])
  {
    if input == [] then [] else [Interpret(input[0])] + Items(input[1..])
  }

  /** What a (partial) run of the loop has produced: rows appended to the
      in-memory list, rows written to the file, lines shown as information,
      and whether an exception ended the loop. */
  datatype Outcome = Outcome(mirror: seq<Row>, written: seq<Row>, shown: seq<string>, failed: bool)

  const Fresh: Outcome := Outcome([], [], [], false)

  /** The items that raise inside the loop body: a read that failed, or an
      accepted record whose row cannot be written. */
  predicate Fails(it: Item) {
    it.Broken? || (it.parsed.Record? && !it.writeOk)
  }

  /** One iteration of the loop body. */
  function Step(o: Outcome, it: Item): (o': Outcome)
    requires !o.failed
    ensures o.mirror <= o'.mirror && o.written <= o'.written && o.shown <= o'.shown
    ensures |o'.mirror| <= |o.mirror| + 1 && |o'.written| <= |o.written| + 1 && |o'.shown| <= |o.shown| + 1
    ensures o'.failed <==> Fails(it)
  {
    match it
    case Broken => o.(failed := true)
    case Got(Ignored, _) => o
    case Got(Informational(text), _) => o.(shown := o.shown + [text])
    case Got(Record(e), writeOk) =>
      if writeOk then o.(mirror := o.mirror + [ToRow(e)], written := o.written + [ToRow(e)])
      else o.(mirror := o.mirror + [ToRow(e)], failed := true)
  }

  /** The in-memory list and the file agree row for row, except that the list
      may hold one extra, last row, and only once the loop has failed (the
      row is appended to the list before the write to the file is tried). */
  ghost predicate MirrorAgrees(o: Outcome) {
    && o.written <= o.mirror
    && |o.mirror| <= |o.written| + 1
    && (|o.mirror| != |o.written| ==> o.failed)
  }

  /** The loop run over the items in order, stopping at the first failure. */
  function Run(items: seq<Item>): (o: Outcome)
    ensures MirrorAgrees(o)
    ensures |o.mirror| <= |items| && |o.shown| <= |items|
  {
    if items == [] then Fresh
    else
      var prior := Run(items[..|items| - 1]);
      if prior.failed then prior else Step(prior, items[|items| - 1])
  }

  /** The loop run over what the serial port delivered. */
  function Ingest(input: seq<Read>): Outcome {
    Run(Items(input))
  }

  // ---------------------------------------------------------------------
  // A reference description, item by item, of what a run without failures
  // produces.

  predicate FaultFree(items: seq<Item>) {
    forall k :: 0 <= k < |items| ==> !Fails(items[k])
  }

  function RowsOf(it: Item): seq<Row> {
    if it.Got? && it.parsed.Record? then [ToRow(it.parsed.event)] else []
  }

  function InfoOf(it: Item): seq<string> {
    if it.Got? && it.parsed.Informational? then [it.parsed.text] else []
  }

  /** The rows of all accepted records, in arrival order. */
  function EventRows(items: seq<Item>): seq<Row> {
    if items == [] then [] else RowsOf(items[0]) + EventRows(items[1..])
  }

  /** All informational lines, in arrival order. */
  function InfoLines(items: seq<Item>): seq<string> {
    if items == [] then [] else InfoOf(items[0]) + InfoLines(items[1..])
  }

  /** On an item that does not raise, one step adds exactly that item's row
      and informational line. */
  lemma StepClean(o: Outcome, it: Item)
    requires !o.failed && !Fails(it)
    ensures Step(o, it) == Outcome(o.mirror + RowsOf(it), o.written + RowsOf(it), o.shown + InfoOf(it), false)
  {
  }

  lemma {:induction false} EventRowsSnoc(items: seq<Item>, it: Item)
    ensures EventRows(items + [it]) == EventRows(items) + RowsOf(it)
  {
    if items == [] {
      assert [] + [it] == [it];
    } else {
      assert (items + [it])[1..] == items[1..] + [it];
      EventRowsSnoc(items[1..], it);
    }
  }

  lemma {:induction false} InfoLinesSnoc(items: seq<Item>, it: Item)
    ensures InfoLines(items + [it]) == InfoLines(items) + InfoOf(it)
  {
    if items == [] {
      assert [] + [it] == [it];
    } else {
      assert (items + [it])[1..] == items[1..] + [it];
      InfoLinesSnoc(items[1..], it);
    }
  }

  /** Without failures the loop appends every accepted record to both the
      list and the file, and shows every informational line, in arrival
      order. */
  lemma {:induction false} RunFaultFree(items: seq<Item>)
    requires FaultFree(items)
    ensures Run(items) == Outcome(EventRows(items), EventRows(items), InfoLines(items), false)
  {
    if items != [] {
      var init := items[..|items| - 1];
      var last := items[|items| - 1];
      assert FaultFree(init);
      RunFaultFree(init);
      StepClean(Run(init), last);
      EventRowsSnoc(init, last);
      InfoLinesSnoc(init, last);
      assert init + [last] == items;
    }
  }

  /** Once the loop has failed, later items change nothing. */
  lemma {:induction false} FailedIsFinal(s: seq<Item>, t: seq<Item>)
    requires Run(s).failed
    ensures Run(s + t) == Run(s)
    decreases |t|
  {
    if t != [] {
      var t' := t[..|t| - 1];
      assert (s + t)[..|s + t| - 1] == s + t';
      FailedIsFinal(s, t');
    } else {
      assert s + t == s;
    }
  }

  /** One more item extends a run that has not failed by one step. */
  lemma RunSnoc(items: seq<Item>, i: nat)
    requires i < |items| && !Run(items[..i]).failed
    ensures Run(items[..i + 1]) == Step(Run(items[..i]), items[i])
  {
    assert items[..i + 1][..i] == items[..i];
  }

  /** A step only appends, so it can be taken after any earlier content. */
  lemma StepShift(m: seq<Row>, w: seq<Row>, v: seq<string>, o: Outcome, it: Item)
    requires !o.failed
    ensures var shifted := Step(Outcome(m + o.mirror, w + o.written, v + o.shown, false), it);
      var plain := Step(o, it);
      && shifted.mirror == m + plain.mirror && shifted.written == w + plain.written
      && shifted.shown == v + plain.shown && shifted.failed == plain.failed
  {
    match it
    case Broken =>
    case Got(Ignored, _) =>
    case Got(Informational(text), _) =>
      assert v + o.shown + [text] == v + (o.shown + [text]);
    case Got(Record(e), writeOk) =>
      assert m + o.mirror + [ToRow(e)] == m + (o.mirror + [ToRow(e)]);
      assert w + o.written + [ToRow(e)] == w + (o.written + [ToRow(e)]);
  }

  /** An exception at read k ends the run there: what the loop produced up
      to and including k is all it ever produces. */
  lemma StopHere(items: seq<Item>, k: nat)
    requires k < |items| && !Run(items[..k]).failed && Fails(items[k])
    ensures Run(items) == Step(Run(items[..k]), items[k])
  {
    var upTo := items[..k + 1];
    RunSnoc(items, k);
    FailedIsFinal(upTo, items[k + 1..]);
    TakeDrop(items, k + 1);
  }

  lemma TakeDrop<T>(s: seq<T>, n: nat)
    requires n <= |s|
    ensures s[..n] + s[n..] == s
  {
  }

  /** A read error stops the loop at that read: all records accepted before it
      are in the list and in the file, and nothing after it is looked at. */
  lemma StopsAtReadFault(items: seq<Item>, k: nat)
    requires k < |items| && FaultFree(items[..k]) && items[k].Broken?
    ensures Run(items) == Outcome(EventRows(items[..k]), EventRows(items[..k]), InfoLines(items[..k]), true)
  {
    RunFaultFree(items[..k]);
    StopHere(items, k);
  }

  /** A failed write of a record stops the loop with that record in the list
      but not in the file. */
  lemma StopsAtWriteFault(items: seq<Item>, k: nat)
    requires k < |items| && FaultFree(items[..k])
    requires items[k].Got? && items[k].parsed.Record? && !items[k].writeOk
    ensures var before := EventRows(items[..k]);
      Run(items) == Outcome(before + [ToRow(items[k].parsed.event)], before, InfoLines(items[..k]), true)
  {
    RunFaultFree(items[..k]);
    StopHere(items, k);
  }

  /** Reading on only ever extends what was produced: the list, the file and
      the surfaced lines never lose or reorder anything as reading goes on. */
  lemma {:induction false} RunMonotone(items: seq<Item>, i: nat, j: nat)
    requires i <= j <= |items|
    ensures var a, b := Run(items[..i]), Run(items[..j]);
      a.mirror <= b.mirror && a.written <= b.written && a.shown <= b.shown
    decreases j
  {
    if i < j {
      RunMonotone(items, i, j - 1);
      var prior := Run(items[..j - 1]);
      assert items[..j][..j - 1] == items[..j - 1];
      assert Run(items[..j]) == if prior.failed then prior else Step(prior, items[..j][j - 1]);
    }
  }

  /** A dropped line (empty after stripping, malformed, or unrecognised) can
      be deleted from anywhere in the input without changing anything. */
  lemma {:induction false} DroppedLineRemovable(s: seq<Item>, it: Item, u: seq<Item>)
    requires it.Got? && it.parsed == Ignored
    ensures Run(s + [it] + u) == Run(s + u)
    decreases |u|
  {
    if u == [] {
      assert (s + [it] + u)[..|s|] == s;
      assert s + u == s;
    } else {
      var u' := u[..|u| - 1];
      assert (s + [it] + u)[..|s + [it] + u| - 1] == s + [it] + u';
      assert (s + u)[..|s + u| - 1] == s + u';
      DroppedLineRemovable(s, it, u');
    }
  }

  /** The parts of an outcome that concern the attendance data. */
  ghost predicate SameLog(a: Outcome, b: Outcome) {
    a.mirror == b.mirror && a.written == b.written && a.failed == b.failed
  }

  /** An informational line never reaches the list or the file: deleting it
      from the input leaves the logged data and the failure unchanged. */
  lemma {:induction false} InformationalNotLogged(s: seq<Item>, it: Item, u: seq<Item>)
    requires it.Got? && it.parsed.Informational?
    ensures SameLog(Run(s + [it] + u), Run(s + u))
    decreases |u|
  {
    if u == [] {
      assert (s + [it] + u)[..|s|] == s;
      assert s + u == s;
    } else {
      var u' := u[..|u| - 1];
      assert (s + [it] + u)[..|s + [it] + u| - 1] == s + [it] + u';
      assert (s + u)[..|s + u| - 1] == s + u';
      InformationalNotLogged(s, it, u');
    }
  }

  /** An accepted record read after a prefix that has not failed adds exactly
      its row, last, to both the list and the file. */
  lemma RecordAppended(s: seq<Item>, e: Event)
    requires !Run(s).failed
    ensures var before, after := Run(s), Run(s + [Got(Record(e), true)]);
      after == before.(mirror := before.mirror + [ToRow(e)], written := before.written + [ToRow(e)])
  {
    assert (s + [Got(Record(e), true)])[..|s|] == s;
  }

  // ---------------------------------------------------------------------
  // Back to the text the port delivered.

  /** A stripped line that is a well-formed record line. */
  predicate IsRecordLine(line: string) {
    StartsWith(line, Marker) && Count(line, ',') == RecordFields - 1
  }

  /** The number of reads that delivered a well-formed record line. */
  function RecordCount(input: seq<Read>): nat {
    if input == [] then 0
    else (if !input[0].ReadFault? && IsRecordLine(Strip(input[0].text)) then 1 else 0)
         + RecordCount(input[1..])
  }

  /** The rows the reads yield are as many as there are well-formed record
      lines among them. */
  lemma {:induction false} EventRowsCount(input: seq<Read>)
    ensures |EventRows(Items(input))| == RecordCount(input)
  {
    if input != [] {
      var items := Items(input);
      EventRowsCount(input[1..]);
      assert items[1..] == Items(input[1..]);
      assert EventRows(items) == RowsOf(items[0]) + EventRows(items[1..]);
      HeadRowCount(input[0]);
    }
  }

  /** One read yields a row exactly when it delivered a well-formed record
      line. */
  lemma HeadRowCount(r: Read)
    ensures |RowsOf(Interpret(r))| == if !r.ReadFault? && IsRecordLine(Strip(r.text)) then 1 else 0
  {
    if !r.ReadFault? {
      ClassifyRecordIff(Strip(r.text), r.clock);
    }
  }

  /** A read that is blank after strip(), a readline() that timed out
      included, has no effect at all, wherever it occurs. */
  lemma BlankReadRemovable(s: seq<Item>, text: string, clock: string, u: seq<Item>)
    requires AllSpace(text)
    ensures Run(s + [Interpret(Line(text, clock))] + u) == Run(s + u)
  {
    StripEmpty(text);
    DroppedLineRemovable(s, Interpret(Line(text, clock)), u);
  }

  /** A read whose stripped text is a well-formed record line appends
      exactly one row, the clock reading followed by the second to fifth
      comma-separated fields in order, to both the list and the file. */
  lemma RecordReadAppended(s: seq<Item>, text: string, clock: string)
    requires !Run(s).failed && IsRecordLine(Strip(text))
    ensures var parts := Split(Strip(text), ',');
      var before, after := Run(s), Run(s + [Interpret(Line(text, clock))]);
      && |parts| == RecordFields
      && after == before.(mirror := before.mirror + [[clock] + parts[1..]],
                          written := before.written + [[clock] + parts[1..]])
  {
    var line := Strip(text);
    ClassifyRecordRow(line, clock);
    var e := Classify(line, clock).event;
    InterpretAs(text, clock, line, Record(e));
    RecordAppended(s, e);
  }

  /** A read whose text carries no surrounding whitespace is classified as
      it stands. */
  lemma InterpretTrimmed(text: string, clock: string)
    requires Trimmed(text)
    ensures Interpret(Line(text, clock)) == Got(Classify(text, clock), true)
  {
    StripTrimmed(text);
  }

  /** A read is interpreted through what strip() leaves of it. */
  lemma InterpretAs(text: string, clock: string, line: string, p: Parsed)
    requires Strip(text) == line && Classify(line, clock) == p
    ensures Interpret(Line(text, clock)) == Got(p, true)
  {
  }

  // How the logger strips and classifies each line of the sample session
  // below.

  lemma StripRecordSample(text: string, line: string)
    requires text == "LOG,A1,F1,9,Y\r\n" && line == EventLine("A1", "F1", "9", "Y")
    ensures Strip(text) == line
  {
    assert line == "LOG,A1,F1,9,Y";
    StripPadded([], line, "\r\n");
    assert [] + line + "\r\n" == text;
  }

  lemma ClassifyGarbageSample(line: string)
    requires line == "garbage"
    ensures Classify(line, "t2") == Ignored
  {
    assert !StartsWith(line, Marker) by { assert line[0] != Marker[0]; }
    ContainsTooLong(line, Beacon);
    ClassifyUnmarked(line, "t2");
  }

  lemma ClassifyBeaconSample(line: string)
    requires line == "Ultrasonic: 5cm"
    ensures Classify(line, "t3") == Informational(line)
  {
    assert !StartsWith(line, Marker) by { assert line[0] != Marker[0]; }
    assert StartsWith(line, Beacon) by { assert line[..|Beacon|] == Beacon; }
    ClassifyUnmarked(line, "t3");
  }

  lemma ClassifyTruncatedSample(line: string)
    requires line == "LOG,A2"
    ensures Classify(line, "t4") == Ignored
  {
    var parts := ["LOG", "A2"];
    assert parts[1..] == ["A2"];
    assert Join(parts, ',') == "LOG" + [','] + "A2" == line;
    assert forall k :: 0 <= k < |parts| ==> ',' !in parts[k];
    SplitJoin(parts, ',');
    assert line[..|Marker|] == Marker;
    ClassifyMalformed(line, "t4");
  }

  /** The sample session: an empty line, one good record, an unrecognised
      line, an informational line and a truncated record give exactly one
      row, in both the list and the file, and one informational line. */
  lemma SampleSession()
    ensures Ingest(SampleInput) == Outcome([SampleRow], [SampleRow], ["Ultrasonic: 5cm"], false)
  {
    SampleItems(SampleInput);
    SampleRun(Items(SampleInput));
  }

  const SampleInput: seq<Read> :=
    [Line("", "t0"), Line("LOG,A1,F1,9,Y\r\n", "t1"), Line("garbage", "t2"),
     Line("Ultrasonic: 5cm", "t3"), Line("LOG,A2", "t4")]

  const SampleRow: Row := ["t1", "A1", "F1", "9", "Y"]

  /** The items of the sample session, read for read. */
  predicate SampleItemsAre(items: seq<Item>) {
    && |items| == 5
    && items[0] == Got(Ignored, true)
    && items[1] == Got(Record(Event("t1", "A1", "F1", "9", "Y")), true)
    && items[2] == Got(Ignored, true)
    && items[3] == Got(Informational("Ultrasonic: 5cm"), true)
    && items[4] == Got(Ignored, true)
  }

  lemma SampleItems(input: seq<Read>)
    requires |input| == 5
    requires input[0] == Line("", "t0") && input[1] == Line("LOG,A1,F1,9,Y\r\n", "t1")
    requires input[2] == Line("garbage", "t2") && input[3] == Line("Ultrasonic: 5cm", "t3")
    requires input[4] == Line("LOG,A2", "t4")
    ensures SampleItemsAre(Items(input))
  {
    SampleRead0(input[0]);
    SampleRead1(input[1]);
    SampleRead2(input[2]);
    SampleRead3(input[3]);
    SampleRead4(input[4]);
  }

  lemma SampleRead0(r: Read)
    requires r == Line("", "t0")
    ensures Interpret(r) == Got(Ignored, true)
  {
    StripTrimmed(r.text);
    InterpretAs(r.text, r.clock, "", Ignored);
  }

  lemma SampleRead1(r: Read)
    requires r == Line("LOG,A1,F1,9,Y\r\n", "t1")
    ensures Interpret(r) == Got(Record(Event("t1", "A1", "F1", "9", "Y")), true)
  {
    var record := EventLine("A1", "F1", "9", "Y");
    StripRecordSample(r.text, record);
    ClassifyEventLine("A1", "F1", "9", "Y", "t1");
    InterpretAs(r.text, r.clock, record, Record(Event("t1", "A1", "F1", "9", "Y")));
  }

  lemma SampleRead2(r: Read)
    requires r == Line("garbage", "t2")
    ensures Interpret(r) == Got(Ignored, true)
  {
    StripTrimmed(r.text);
    ClassifyGarbageSample(r.text);
    InterpretAs(r.text, r.clock, r.text, Ignored);
  }

  lemma SampleRead3(r: Read)
    requires r == Line("Ultrasonic: 5cm", "t3")
    ensures Interpret(r) == Got(Informational("Ultrasonic: 5cm"), true)
  {
    StripTrimmed(r.text);
    ClassifyBeaconSample(r.text);
    InterpretAs(r.text, r.clock, r.text, Informational("Ultrasonic: 5cm"));
  }

  lemma SampleRead4(r: Read)
    requires r == Line("LOG,A2", "t4")
    ensures Interpret(r) == Got(Ignored, true)
  {
    StripTrimmed(r.text);
    ClassifyTruncatedSample(r.text);
    InterpretAs(r.text, r.clock, r.text, Ignored);
  }

  lemma SampleRun(items: seq<Item>)
    requires SampleItemsAre(items)
    ensures Run(items) == Outcome([SampleRow], [SampleRow], ["Ultrasonic: 5cm"], false)
  {
    assert FaultFree(items);
    RunFaultFree(items);
    var t1, t2, t3, t4 := items[1..], items[2..], items[3..], items[4..];
    assert t1[1..] == t2 && t2[1..] == t3 && t3[1..] == t4 && t4[1..] == [];
    assert t2[0] == items[2] && t3[0] == items[3] && t4[0] == items[4];
    assert EventRows(t4) == [] && InfoLines(t4) == [];
    assert EventRows(t3) == [] && InfoLines(t3) == ["Ultrasonic: 5cm"];
    assert EventRows(t2) == [] && InfoLines(t2) == ["Ultrasonic: 5cm"];
    assert EventRows(items) == [SampleRow];
    assert InfoLines(items) == ["Ultrasonic: 5cm"];
  }
}
