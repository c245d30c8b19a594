/**
  The fallback line table of `rebuild_code_object`: pairs of an unsigned byte increment and
  a signed line increment, with long increments cut into several pairs.  The loop writes them
  as an lnotab, where a pair leads up to the line it announces; Python 3.10, the only version
  that takes the table, reads each pair as the length of a range and the line of that range.
 */
module LineTable {
  import opened Wrappers

  /** One row of `co_lines()`: start offset, end offset, line. */
  datatype Entry = Entry(start: int, end: int, line: Option<int>)

  const MAX_BYTE_DELTA := 255
  const MAX_LINE_DELTA := 127
  const MIN_LINE_DELTA := -128

  predicate FitsLine(lineDelta: int) {
    MIN_LINE_DELTA <= lineDelta <= MAX_LINE_DELTA
  }

  function Clamp(lineDelta: int): (r: int)
    ensures FitsLine(r)
  {
    if lineDelta > MAX_LINE_DELTA then MAX_LINE_DELTA
    else if lineDelta < MIN_LINE_DELTA then MIN_LINE_DELTA
    else lineDelta
  }

  // ----- reading a table as an lnotab -----------------------------------------------

  function Offset(table: seq<Byte>): int {
    if |table| < 2 then 0 else table[0] + Offset(table[2..])
  }

  function Signed(b: Byte): int {
    if b < 128 then b else b - 256
  }

  function Lines(table: seq<Byte>): int {
    if |table| < 2 then 0 else Signed(table[1]) + Lines(table[2..])
  }

  lemma {:induction false} ReadConcat(a: seq<Byte>, b: seq<Byte>)
    requires |a| % 2 == 0
    ensures Offset(a + b) == Offset(a) + Offset(b)
    ensures Lines(a + b) == Lines(a) + Lines(b)
  {
    if a == [] {
      assert a + b == b;
    } else {
      ReadConcat(a[2..], b);
      assert (a + b)[2..] == a[2..] + b;
    }
  }

  // ----- what one entry emits -------------------------------------------------------

  /** The pairs for one entry.  Bytes shrink first, then the line delta is cut to range. */
  function Emit(byteDelta: nat, lineDelta: int): (r: seq<Byte>)
    ensures |r| % 2 == 0 && |r| >= 2
    decreases byteDelta, if FitsLine(lineDelta) then 0 else 1
  {
    if byteDelta > MAX_BYTE_DELTA || !FitsLine(lineDelta) then
      [Min(MAX_BYTE_DELTA, byteDelta), 0]
      + Emit(byteDelta - Min(MAX_BYTE_DELTA, byteDelta), Clamp(lineDelta))
    else [byteDelta, lineDelta % 256]
  }

  /** However it is cut, an entry advances the offset by its whole byte delta, and the line
      by the line delta cut to one signed byte. */
  lemma {:induction false} EmitReads(byteDelta: nat, lineDelta: int)
    ensures Offset(Emit(byteDelta, lineDelta)) == byteDelta
    ensures Lines(Emit(byteDelta, lineDelta)) ==
            if lineDelta > 127 then 127 else if lineDelta < -128 then -128 else lineDelta
    decreases byteDelta, if FitsLine(lineDelta) then 0 else 1
  {
    if byteDelta > MAX_BYTE_DELTA || !FitsLine(lineDelta) {
      var chunk := Min(MAX_BYTE_DELTA, byteDelta);
      EmitReads(byteDelta - chunk, Clamp(lineDelta));
      ReadConcat([chunk, 0], Emit(byteDelta - chunk, Clamp(lineDelta)));
      assert Offset([chunk, 0]) == chunk + Offset([]) && Lines([chunk, 0]) == 0 + Lines([]);
    } else {
      assert Offset([byteDelta, lineDelta % 256]) == byteDelta + Offset([]);
      assert Lines([byteDelta, lineDelta % 256]) == Signed(lineDelta % 256) + Lines([]);
    }
  }

  /** A step that fits one pair is one pair, a negative line step in two's complement. */
  lemma OnePair(byteDelta: nat, lineDelta: int)
    requires byteDelta <= 255 && -128 <= lineDelta <= 127
    ensures Emit(byteDelta, lineDelta) == [byteDelta, if lineDelta < 0 then lineDelta + 256 else lineDelta]
  {
  }

  // ----- the whole table ------------------------------------------------------------

  predicate Used(e: Entry, lastByte: int) {
    e.start > lastByte && e.line.Some?
  }

  function Table(entries: seq<Entry>, lastByte: nat, lastLine: int): seq<Byte> {
    if entries == [] then []
    else if Used(entries[0], lastByte) then
      Emit(entries[0].start - lastByte, entries[0].line.value - lastLine)
      + Table(entries[1..], entries[0].start, entries[0].line.value)
    else Table(entries[1..], lastByte, lastLine)
  }

  /** The entries that reach the table, in order. */
  function UsedEntries(entries: seq<Entry>, lastByte: nat): (r: seq<Entry>)
    ensures forall k :: 0 <= k < |r| ==> r[k].line.Some?
  {
    if entries == [] then []
    else if Used(entries[0], lastByte) then [entries[0]] + UsedEntries(entries[1..], entries[0].start)
    else UsedEntries(entries[1..], lastByte)
  }

  /** Of rows in order, those that reach the table start after `lastByte` and have a line, and no
      others do; they stay in order. */
  lemma {:induction false} UsedExactly(entries: seq<Entry>, lastByte: nat)
    requires forall i, j :: 0 <= i < j < |entries| ==> entries[i].start < entries[j].start
    ensures var r := UsedEntries(entries, lastByte);
      && (forall e :: e in r <==> e in entries && e.start > lastByte && e.line != None)
      && (forall i, j :: 0 <= i < j < |r| ==> r[i].start < r[j].start)
  {
    if entries != [] {
      var rest := entries[1..];
      assert forall i :: 0 <= i < |rest| ==> rest[i] == entries[i + 1];
      assert forall e :: e in entries <==> e == entries[0] || e in rest;
      assert forall e :: e in rest ==> entries[0].start < e.start;
      if Used(entries[0], lastByte) {
        UsedExactly(rest, entries[0].start);
      } else {
        UsedExactly(rest, lastByte);
      }
    }
  }

  /** Length of the table once each used entry has been written. */
  function Marks(entries: seq<Entry>, lastByte: nat, lastLine: int, written: nat): (r: seq<nat>)
    ensures |r| == |UsedEntries(entries, lastByte)|
  {
    if entries == [] then []
    else if Used(entries[0], lastByte) then
      var next := written + |Emit(entries[0].start - lastByte, entries[0].line.value - lastLine)|;
      [next] + Marks(entries[1..], entries[0].start, entries[0].line.value, next)
    else Marks(entries[1..], lastByte, lastLine, written)
  }

  /** What a reader of the lnotab holds after each used entry, starting from `at`. */
  function Readings(entries: seq<Entry>, lastByte: nat, lastLine: int, at: (int, int)): (r: seq<(int, int)>)
    ensures |r| == |UsedEntries(entries, lastByte)|
  {
    if entries == [] then []
    else if Used(entries[0], lastByte) then
      var emitted := Emit(entries[0].start - lastByte, entries[0].line.value - lastLine);
      var next := (at.0 + Offset(emitted), at.1 + Lines(emitted));
      [next] + Readings(entries[1..], entries[0].start, entries[0].line.value, next)
    else Readings(entries[1..], lastByte, lastLine, at)
  }

  /** The readings are those of the table itself, cut at the marks.  `before` is what an
      earlier part of the table has written. */
  lemma {:induction false} TableReads(
      entries: seq<Entry>, lastByte: nat, lastLine: int, before: seq<Byte>, firstLine: int, k: nat)
    requires |before| % 2 == 0 && k < |UsedEntries(entries, lastByte)|
    ensures var mark := Marks(entries, lastByte, lastLine, |before|)[k];
      var table := before + Table(entries, lastByte, lastLine);
      && mark <= |table| && mark % 2 == 0
      && Readings(entries, lastByte, lastLine, (Offset(before), firstLine + Lines(before)))[k]
         == (Offset(table[..mark]), firstLine + Lines(table[..mark]))
  {
    hide Emit, Offset, Lines;
    var e := entries[0];
    if Used(e, lastByte) {
      var emitted := Emit(e.start - lastByte, e.line.value - lastLine);
      var rest := Table(entries[1..], e.start, e.line.value);
      ReadConcat(before, emitted);
      Regroup(before, emitted, rest);
      if k > 0 {
        hide Table, Marks, Readings, UsedEntries;
        UsedFirst(entries, lastByte, lastLine, |before|, (Offset(before), firstLine + Lines(before)));
        TableReads(entries[1..], e.start, e.line.value, before + emitted, firstLine, k - 1);
      }
    } else {
      TableReads(entries[1..], lastByte, lastLine, before, firstLine, k);
    }
  }

  /** The table and its readings when the first entry is used. */
  lemma UsedFirst(entries: seq<Entry>, lastByte: nat, lastLine: int, written: nat, at: (int, int))
    requires entries != [] && Used(entries[0], lastByte)
    ensures var e := entries[0];
      var emitted := Emit(e.start - lastByte, e.line.value - lastLine);
      var next := (at.0 + Offset(emitted), at.1 + Lines(emitted));
      && Table(entries, lastByte, lastLine) == emitted + Table(entries[1..], e.start, e.line.value)
      && UsedEntries(entries, lastByte) == [e] + UsedEntries(entries[1..], e.start)
      && Marks(entries, lastByte, lastLine, written) ==
         [written + |emitted|] + Marks(entries[1..], e.start, e.line.value, written + |emitted|)
      && Readings(entries, lastByte, lastLine, at) ==
         [next] + Readings(entries[1..], e.start, e.line.value, next)
  {
    hide Emit, Offset, Lines;
  }

  lemma Regroup(a: seq<Byte>, b: seq<Byte>, c: seq<Byte>)
    ensures a + (b + c) == (a + b) + c && (a + (b + c))[..|a + b|] == a + b
  {
  }

  /** After each used entry the byte increments add up to its start offset, for any entries
      and any lines. */
  lemma {:induction false} OffsetsConserved(entries: seq<Entry>, lastByte: nat, lastLine: int, line: int)
    ensures var readings := Readings(entries, lastByte, lastLine, (lastByte, line));
      forall k :: 0 <= k < |readings| ==> readings[k].0 == UsedEntries(entries, lastByte)[k].start
  {
    hide Emit, Offset, Lines;
    if entries != [] {
      var e := entries[0];
      if Used(e, lastByte) {
        EmitReads(e.start - lastByte, e.line.value - lastLine);
        OffsetsConserved(entries[1..], e.start, e.line.value, line + Clamp(e.line.value - lastLine));
      } else {
        OffsetsConserved(entries[1..], lastByte, lastLine, line);
      }
    }
  }

  /** Every step between consecutive used entries is a line delta in range. */
  predicate StepsFit(used: seq<Entry>, lastLine: int) {
    used == []
    || (used[0].line.Some? && FitsLine(used[0].line.value - lastLine) && StepsFit(used[1..], used[0].line.value))
  }

  predicate LnotabLines(readings: seq<(int, int)>, used: seq<Entry>)
    requires |readings| == |used|
  {
    used == []
    || (Some(readings[0].1) == used[0].line && LnotabLines(readings[1..], used[1..]))
  }

  /** Read as an lnotab, the table gives the lines of the used entries exactly when every step
      between consecutive ones fits a signed byte: a larger step is cut, not carried over. */
  lemma {:induction false} LnotabLinesIffStepsFit(entries: seq<Entry>, lastByte: nat, lastLine: int, offset: int)
    ensures LnotabLines(Readings(entries, lastByte, lastLine, (offset, lastLine)), UsedEntries(entries, lastByte))
            <==> StepsFit(UsedEntries(entries, lastByte), lastLine)
  {
    hide Emit, Offset, Lines;
    if entries != [] {
      var e := entries[0];
      if Used(e, lastByte) {
        var line := e.line.value;
        EmitReads(e.start - lastByte, line - lastLine);
        var next := (offset + e.start - lastByte, lastLine + Clamp(line - lastLine));
        var rest := UsedEntries(entries[1..], e.start);
        assert UsedEntries(entries, lastByte) == [e] + rest;
        assert Readings(entries, lastByte, lastLine, (offset, lastLine)) ==
               [next] + Readings(entries[1..], e.start, line, next);
        if FitsLine(line - lastLine) {
          LnotabLinesIffStepsFit(entries[1..], e.start, line, offset + e.start - lastByte);
        }
      } else {
        LnotabLinesIffStepsFit(entries[1..], lastByte, lastLine, offset);
      }
    }
  }

  // ----- reading a table as Python 3.10 does ----------------------------------------

  /** Each pair is a range: its length, and how its line differs from that of the range before;
      -128 means that the range has no line.  Empty ranges only move the line. */
  function Ranges(table: seq<Byte>, at: int, line: int): seq<Entry> {
    if |table| < 2 then []
    else
      var end := at + table[0];
      var lineless := Signed(table[1]) == MIN_LINE_DELTA;
      var next := if lineless then line else line + Signed(table[1]);
      (if end > at then [Entry(at, end, if lineless then None else Some(next))] else [])
      + Ranges(table[2..], end, next)
  }

  /** The ranges that end where the used entries start, with the lines that start there. */
  function Shifted(used: seq<Entry>, lastByte: int): (r: seq<Entry>)
    ensures |r| == |used|
  {
    if used == [] then []
    else [Entry(lastByte, used[0].start, used[0].line)] + Shifted(used[1..], used[0].start)
  }

  /** Every step between consecutive used entries is one pair, and its line change is not the
      one that means no line. */
  predicate PairsFit(used: seq<Entry>, lastByte: int, lastLine: int) {
    used == []
    || (used[0].line.Some? && used[0].start - lastByte <= MAX_BYTE_DELTA
        && MIN_LINE_DELTA < used[0].line.value - lastLine <= MAX_LINE_DELTA
        && PairsFit(used[1..], used[0].start, used[0].line.value))
  }

  /** The first range of an entry is its whole step with its line exactly when it fits. */
  lemma FirstRange(byteDelta: nat, lineDelta: int, rest: seq<Byte>, at: int, line: int)
    requires byteDelta > 0
    ensures var ranges := Ranges(Emit(byteDelta, lineDelta) + rest, at, line);
      var whole := Entry(at, at + byteDelta, Some(line + lineDelta));
      if byteDelta <= MAX_BYTE_DELTA && MIN_LINE_DELTA < lineDelta <= MAX_LINE_DELTA
      then ranges == [whole] + Ranges(rest, at + byteDelta, line + lineDelta)
      else ranges != [] && ranges[0] != whole
  {
    var table := Emit(byteDelta, lineDelta) + rest;
    if byteDelta > MAX_BYTE_DELTA || !FitsLine(lineDelta) {
      assert table[0] == Min(MAX_BYTE_DELTA, byteDelta) && table[1] == 0;
    } else {
      assert table[0] == byteDelta && table[1] == lineDelta % 256 && table[2..] == rest;
      assert Signed(lineDelta % 256) == lineDelta;
    }
  }

  /** The ranges read back are the used entries, each with its line moved to the range before
      it, exactly when every step fits one pair. */
  lemma {:induction false} RangesAreShiftedIff(entries: seq<Entry>, lastByte: nat, lastLine: int)
    ensures Ranges(Table(entries, lastByte, lastLine), lastByte, lastLine)
            == Shifted(UsedEntries(entries, lastByte), lastByte) <==>
            PairsFit(UsedEntries(entries, lastByte), lastByte, lastLine)
  {
    hide Emit;
    if entries != [] {
      var e := entries[0];
      if Used(e, lastByte) {
        var rest := Table(entries[1..], e.start, e.line.value);
        FirstRange(e.start - lastByte, e.line.value - lastLine, rest, lastByte, lastLine);
        RangesAreShiftedIff(entries[1..], e.start, e.line.value);
        hide Ranges, Shifted;
        var used := UsedEntries(entries[1..], e.start);
        var shifted := Shifted(used, e.start);
        ShiftedCons(e, used, lastByte);
        var whole := Entry(lastByte, e.start, e.line);
        assert ([whole] + shifted)[0] == whole && ([whole] + shifted)[1..] == shifted;
        assert ([whole] + Ranges(rest, e.start, e.line.value))[1..] == Ranges(rest, e.start, e.line.value);
        assert ([e] + used)[1..] == used;
      } else {
        RangesAreShiftedIff(entries[1..], lastByte, lastLine);
      }
    }
  }

  lemma ShiftedCons(e: Entry, used: seq<Entry>, lastByte: int)
    ensures Shifted([e] + used, lastByte) == [Entry(lastByte, e.start, e.line)] + Shifted(used, e.start)
  {
    assert ([e] + used)[1..] == used;
  }

  /** The rows that `co_lines()` gives: non-empty ranges that cover the code from `at` on. */
  predicate Covers(rows: seq<Entry>, at: int) {
    rows == [] || (at == rows[0].start < rows[0].end && Covers(rows[1..], rows[0].end))
  }

  lemma {:induction false} RangesEndBy(table: seq<Byte>, at: int, line: int)
    ensures Offset(table) >= 0
    ensures forall r :: r in Ranges(table, at, line) ==> r.end <= at + Offset(table)
  {
    if |table| >= 2 {
      var next := if Signed(table[1]) == MIN_LINE_DELTA then line else line + Signed(table[1]);
      RangesEndBy(table[2..], at + table[0], next);
    }
  }

  lemma {:induction false} TableEndsBy(rows: seq<Entry>, at: int, lastByte: nat, lastLine: int)
    requires Covers(rows, at) && lastByte <= at
    ensures rows != [] ==> lastByte + Offset(Table(rows, lastByte, lastLine)) < rows[|rows| - 1].end
    ensures rows == [] ==> Offset(Table(rows, lastByte, lastLine)) == 0
  {
    if rows != [] {
      hide Emit, Offset;
      var e := rows[0];
      if Used(e, lastByte) {
        var emitted := Emit(e.start - lastByte, e.line.value - lastLine);
        EmitReads(e.start - lastByte, e.line.value - lastLine);
        ReadConcat(emitted, Table(rows[1..], e.start, e.line.value));
        TableEndsBy(rows[1..], e.end, e.start, e.line.value);
      } else {
        TableEndsBy(rows[1..], e.end, lastByte, lastLine);
      }
    }
  }

  /** The ranges of a code object never come back: the table stops where the last range
      starts, so they do exactly when there are none. */
  lemma RangesNeverComeBack(rows: seq<Entry>, firstLine: int)
    requires Covers(rows, 0)
    ensures Ranges(Table(rows, 0, firstLine), 0, firstLine) == rows <==> rows == []
  {
    var ranges := Ranges(Table(rows, 0, firstLine), 0, firstLine);
    RangesEndBy(Table(rows, 0, firstLine), 0, firstLine);
    TableEndsBy(rows, 0, 0, firstLine);
    if rows != [] {
      var last := rows[|rows| - 1];
      assert last in rows && last !in ranges;
    }
  }

  lemma {:induction false} AllUsed(rows: seq<Entry>, at: int, lastByte: nat)
    requires Covers(rows, at) && lastByte < at && forall i :: 0 <= i < |rows| ==> rows[i].line.Some?
    ensures UsedEntries(rows, lastByte) == rows
  {
    if rows != [] {
      assert forall i :: 0 <= i < |rows[1..]| ==> rows[1..][i] == rows[i + 1];
      AllUsed(rows[1..], rows[0].end, rows[0].start);
    }
  }

  lemma {:induction false} ShiftedRow(rows: seq<Entry>, first: Entry, i: nat)
    requires Covers(rows, first.end) && i < |rows|
    ensures var before := if i == 0 then first else rows[i - 1];
      Shifted(rows, first.start)[i] == Entry(before.start, before.end, rows[i].line)
  {
    if |rows| > 1 {
      ShiftedRow(rows[1..], rows[0], if i == 0 then 0 else i - 1);
    }
  }

  /** When every range has a line and every step fits one pair, each range but the last is shown
      with the line of the next one. */
  lemma OneRangeEarly(rows: seq<Entry>, firstLine: int)
    requires Covers(rows, 0) && rows != [] && PairsFit(rows[1..], 0, firstLine)
    requires forall i :: 0 <= i < |rows| ==> rows[i].line.Some?
    ensures var ranges := Ranges(Table(rows, 0, firstLine), 0, firstLine);
      && |ranges| == |rows| - 1
      && forall i :: 0 <= i < |ranges| ==> ranges[i] == Entry(rows[i].start, rows[i].end, rows[i + 1].line)
  {
    var tail := rows[1..];
    assert rows == [rows[0]] + tail;
    assert forall i :: 0 <= i < |tail| ==> tail[i] == rows[i + 1];
    AllUsed(tail, rows[0].end, 0);
    assert UsedEntries(rows, 0) == tail;
    RangesAreShiftedIff(rows, 0, firstLine);
    var ranges := Shifted(tail, 0);
    forall i | 0 <= i < |ranges| ensures ranges[i] == Entry(rows[i].start, rows[i].end, rows[i + 1].line) {
      ShiftedRow(tail, rows[0], i);
    }
  }

  /** Three ranges on lines 10, 11 and 12 come back as two, on lines 11 and 12. */
  lemma ThreeLinesComeBackEarly()
    ensures var rows := [Entry(0, 2, Some(10)), Entry(2, 4, Some(11)), Entry(4, 6, Some(12))];
      && StepsFit(UsedEntries(rows, 0), 10)
      && Table(rows, 0, 10) == [2, 1, 2, 1]
      && Ranges(Table(rows, 0, 10), 0, 10) == [Entry(0, 2, Some(11)), Entry(2, 4, Some(12))]
  {
    var r0, r1, r2 := Entry(0, 2, Some(10)), Entry(2, 4, Some(11)), Entry(4, 6, Some(12));
    var rows := [r0, r1, r2];
    assert rows[1..] == [r1, r2] && [r1, r2][1..] == [r2] && [r2][1..] == [];
    assert Table([r2], 2, 11) == [2, 1] + Table([], 4, 12);
    assert Table([r1, r2], 0, 10) == [2, 1] + Table([r2], 2, 11);
    assert UsedEntries([r2], 2) == [r2] && UsedEntries([r1, r2], 0) == [r1, r2];
    assert Covers([r2], 4) && Covers([r1, r2], 2);
    assert PairsFit([r2], 2, 11);
    OneRangeEarly(rows, 10);
  }

  // ----- the loop -------------------------------------------------------------------

  lemma {:induction false} TableSnoc(entries: seq<Entry>, e: Entry, lastByte: nat, lastLine: int)
    ensures var (b, l) := LastUsed(entries, lastByte, lastLine);
      Table(entries + [e], lastByte, lastLine) ==
      Table(entries, lastByte, lastLine) + (if Used(e, b) then Emit(e.start - b, e.line.value - l) else [])
  {
    hide Emit;
    if entries == [] {
      assert (entries + [e])[1..] == [];
    } else {
      assert (entries + [e])[0] == entries[0] && (entries + [e])[1..] == entries[1..] + [e];
      var f := entries[0];
      if Used(f, lastByte) {
        TableSnoc(entries[1..], e, f.start, f.line.value);
      } else {
        TableSnoc(entries[1..], e, lastByte, lastLine);
      }
    }
  }

  /** Where the loop's `last_byte` and `last_line` stand after `entries`. */
  function LastUsed(entries: seq<Entry>, lastByte: nat, lastLine: int): (nat, int) {
    if entries == [] then (lastByte, lastLine)
    else if Used(entries[0], lastByte) then LastUsed(entries[1..], entries[0].start, entries[0].line.value)
    else LastUsed(entries[1..], lastByte, lastLine)
  }

  lemma {:induction false} LastUsedSnoc(entries: seq<Entry>, e: Entry, lastByte: nat, lastLine: int)
    ensures var (b, l) := LastUsed(entries, lastByte, lastLine);
      LastUsed(entries + [e], lastByte, lastLine) == if Used(e, b) then (e.start, e.line.value) else (b, l)
  {
    if entries == [] {
      assert (entries + [e])[1..] == [];
    } else {
      assert (entries + [e])[1..] == entries[1..] + [e];
      var f := entries[0];
      if Used(f, lastByte) {
        LastUsedSnoc(entries[1..], e, f.start, f.line.value);
      } else {
        LastUsedSnoc(entries[1..], e, lastByte, lastLine);
      }
    }
  }

  lemma EmitChunk(table: seq<Byte>, byteDelta: nat, lineDelta: int)
    requires byteDelta > MAX_BYTE_DELTA || !FitsLine(lineDelta)
    ensures table + Emit(byteDelta, lineDelta) ==
            (table + [Min(MAX_BYTE_DELTA, byteDelta), 0])
            + Emit(byteDelta - Min(MAX_BYTE_DELTA, byteDelta), Clamp(lineDelta))
  {
  }

  lemma EmitLast(byteDelta: nat, lineDelta: int)
    requires byteDelta <= MAX_BYTE_DELTA && FitsLine(lineDelta)
    ensures Emit(byteDelta, lineDelta) == [byteDelta, lineDelta % 256]
  {
  }

  method BuildLineTable(firstLine: int, entries: seq<Entry>) returns (table: seq<Byte>)
    ensures table == Table(entries, 0, firstLine)
  {
    table := [];
    var lastLine := firstLine;
    var lastByte := 0;
    var i := 0;
    assert Table([], 0, firstLine) == [] && LastUsed([], 0, firstLine) == (0, firstLine);
    hide Table, LastUsed, Emit;
    while i < |entries|
      invariant 0 <= i <= |entries| && 0 <= lastByte
      invariant table == Table(entries[..i], 0, firstLine)
      invariant (lastByte, lastLine) == LastUsed(entries[..i], 0, firstLine)
    {
      var e := entries[i];
      TableSnoc(entries[..i], e, 0, firstLine);
      LastUsedSnoc(entries[..i], e, 0, firstLine);
      assert entries[..i + 1] == entries[..i] + [e];
      if e.start > lastByte && e.line.Some? {
        var byteDelta := e.start - lastByte;
        var lineDelta := e.line.value - lastLine;
        ghost var target := table + Emit(byteDelta, lineDelta);
        while byteDelta > MAX_BYTE_DELTA || lineDelta > MAX_LINE_DELTA || lineDelta < MIN_LINE_DELTA
          invariant byteDelta >= 0
          invariant table + Emit(byteDelta, lineDelta) == target
          decreases byteDelta, if FitsLine(lineDelta) then 0 else 1
        {
          EmitChunk(table, byteDelta, lineDelta);
          table := table + [Min(MAX_BYTE_DELTA, byteDelta), 0];
          byteDelta := byteDelta - Min(MAX_BYTE_DELTA, byteDelta);
          lineDelta := Clamp(lineDelta);
        }
        EmitLast(byteDelta, lineDelta);
        table := table + [byteDelta, lineDelta % 256];
        lastByte := e.start;
        lastLine := e.line.value;
      }
      i := i + 1;
    }
    assert entries[..i] == entries;
  }
}
