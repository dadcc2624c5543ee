/**
 DumpCaptures: writes captureMap in the folded-stack format, one line per key,
 `root;...;leaf count`, into a file named after the current calendar time, and
 clears the map afterwards. fopen's outcome, the calendar time, the symbol
 lookup and the map's iteration order are parameters.
 */
module Exporter {
  import opened Words
  import opened Text
  import opened Aggregator

  /** OSGetSymbolName: the name text it leaves in the buffer for an address. */
  type SymbolNames = bv32 -> string

  /** size_t arithmetic wraps at 2^32; npos is SizeLimit - 1. */
  const SizeLimit: nat := 0x1_0000_0000

  /** std::string::substr(0, count): a count past the end takes the whole string. */
  function Head(s: string, count: nat): string
  {
    if count < |s| then s[..count] else s
  }

  /** The string `sample` after the inner loop: walking the slots from the last
      one back to the first, each non-zero address adds its name and a ';'. A zero
      slot is skipped (`continue`), wherever it sits. */
  function Sample(s: seq<bv32>, name: SymbolNames): string
    decreases |s|
  {
    if |s| == 0 then ""
    else
      var address := s[|s| - 1];
      (if address == 0 then "" else name(address) + ";") + Sample(s[..|s| - 1], name)
  }

  /** The text `fprintf(f, "%s %u\n", sample.substr(0, sample.size() - 1).c_str(), count)`
      writes. `sample.size() - 1` is computed in size_t: for an empty sample it is
      npos, and substr then keeps the whole, empty, string. */
  function RenderLine(k: Key, count: nat, name: SymbolNames): string
  {
    var sample := Sample(k, name);
    Head(sample, (|sample| - 1) % SizeLimit) + " " + Decimal(count) + "\n"
  }

  // ---------------------------------------------------------------------------
  // Reference definition of a line: the frame names, root first, joined by ';'.
  // ---------------------------------------------------------------------------

  function NonZero(s: seq<bv32>): (r: seq<bv32>)
    ensures forall i :: 0 <= i < |r| ==> r[i] != 0
    ensures |r| <= |s|
  {
    if |s| == 0 then [] else (if s[0] == 0 then [] else [s[0]]) + NonZero(s[1..])
  }

  function Reverse<T>(s: seq<T>): (r: seq<T>)
    ensures |r| == |s|
    ensures forall i :: 0 <= i < |s| ==> r[i] == s[|s| - 1 - i]
  {
    if |s| == 0 then [] else Reverse(s[1..]) + [s[0]]
  }

  /** The addresses a line names, root first: the non-zero slots of the key in
      reverse slot order. */
  function RootFirst(s: seq<bv32>): seq<bv32>
  {
    Reverse(NonZero(s))
  }

  /** The symbol names of a line, root first. */
  function FrameNames(s: seq<bv32>, name: SymbolNames): (r: seq<string>)
    ensures |r| == |RootFirst(s)|
    ensures forall i :: 0 <= i < |r| ==> r[i] == name(RootFirst(s)[i])
  {
    var a := RootFirst(s);
    seq(|a|, i requires 0 <= i < |a| => name(a[i]))
  }

  /** The names can be read back from a line: none is empty or holds a ';'. */
  predicate Readable(names: seq<string>)
  {
    forall i :: 0 <= i < |names| ==> |names[i]| > 0 && Free(names[i], ';')
  }

  /** Each name followed by a ';'. */
  function Terminated(xs: seq<string>): string
  {
    if |xs| == 0 then "" else xs[0] + ";" + Terminated(xs[1..])
  }

  lemma {:induction false} NonZeroAppend(a: seq<bv32>, b: seq<bv32>)
    ensures NonZero(a + b) == NonZero(a) + NonZero(b)
    decreases |a|
  {
    if |a| == 0 {
      assert a + b == b;
    } else {
      NonZeroAppend(a[1..], b);
      assert (a + b)[1..] == a[1..] + b;
    }
  }

  lemma ReverseAppend<T>(a: seq<T>, b: seq<T>)
    ensures Reverse(a + b) == Reverse(b) + Reverse(a)
  {
  }

  lemma RootFirstSnoc(init: seq<bv32>, last: bv32)
    ensures RootFirst(init + [last]) == (if last == 0 then [] else [last]) + RootFirst(init)
  {
    NonZeroAppend(init, [last]);
    assert [last][1..] == [];
    assert NonZero([last]) == if last == 0 then [] else [last];
    ReverseAppend(NonZero(init), NonZero([last]));
  }

  lemma FrameNamesSnoc(init: seq<bv32>, last: bv32, name: SymbolNames)
    ensures FrameNames(init + [last], name) ==
            (if last == 0 then [] else [name(last)]) + FrameNames(init, name)
  {
    RootFirstSnoc(init, last);
  }

  lemma TerminatedCons(x: string, ys: seq<string>)
    ensures Terminated([x] + ys) == x + ";" + Terminated(ys)
  {
    assert ([x] + ys)[1..] == ys;
  }

  lemma {:induction false} SampleIsTerminated(s: seq<bv32>, name: SymbolNames)
    ensures Sample(s, name) == Terminated(FrameNames(s, name))
    decreases |s|
  {
    if |s| > 0 {
      var init := s[..|s| - 1];
      var last := s[|s| - 1];
      SampleIsTerminated(init, name);
      assert s == init + [last];
      FrameNamesSnoc(init, last, name);
      if last == 0 {
        assert Sample(s, name) == Sample(init, name);
        assert FrameNames(s, name) == [] + FrameNames(init, name) == FrameNames(init, name);
      } else {
        assert Sample(s, name) == name(last) + ";" + Sample(init, name);
        TerminatedCons(name(last), FrameNames(init, name));
      }
    }
  }

  lemma {:induction false} TerminatedDropLast(xs: seq<string>)
    requires |xs| >= 1
    ensures var t := Terminated(xs);
            |t| >= 1 && t[..|t| - 1] == Join(xs, ';')
    decreases |xs|
  {
    var t := Terminated(xs);
    if |xs| == 1 {
      assert xs[1..] == [];
      assert t == xs[0] + ";";
    } else {
      var rest := Terminated(xs[1..]);
      TerminatedDropLast(xs[1..]);
      assert t == xs[0] + ";" + rest;
      assert t[..|t| - 1] == xs[0] + ";" + rest[..|rest| - 1];
    }
  }

  lemma {:induction false} TerminatedLength(xs: seq<string>)
    requires forall i :: 0 <= i < |xs| ==> |xs[i]| < SymbolBufferSize
    ensures |Terminated(xs)| <= |xs| * SymbolBufferSize
    decreases |xs|
  {
    if |xs| > 0 {
      TerminatedLength(xs[1..]);
    }
  }

  /** sizeof(symbolNameBuffer): a name OSGetSymbolName leaves is shorter than this. */
  const SymbolBufferSize: nat := 0x100

  ghost predicate FitsBuffer(name: SymbolNames)
  {
    forall a :: |name(a)| < SymbolBufferSize
  }

  /** A line is the frame names, root first, joined by ';' with none at the end,
      then one space, the decimal count and a newline. A key with no non-zero slot
      gives an empty frame list. */
  lemma RenderLineFormat(k: Key, count: nat, name: SymbolNames)
    requires FitsBuffer(name)
    ensures RenderLine(k, count, name) == Join(FrameNames(k, name), ';') + " " + Decimal(count) + "\n"
  {
    var names := FrameNames(k, name);
    var sample := Sample(k, name);
    SampleIsTerminated(k, name);
    assert sample == Terminated(names);
    if |names| == 0 {
      assert sample == "";
    } else {
      TerminatedDropLast(names);
      TerminatedLength(names);
      assert |names| <= Depth;
      assert (|sample| - 1) % SizeLimit == |sample| - 1;
    }
  }

  /** One line of the folded-stack format, read back. */
  datatype Line = Line(frames: seq<string>, count: nat)

  /** Reads a line: the frames before the last space, split at ';', and the
      decimal count after it, up to the final newline. */
  function ParseLine(line: string): Option<Line>
  {
    if |line| == 0 || line[|line| - 1] != '\n' then None
    else
      var body := line[..|line| - 1];
      match LastIndexOf(body, ' ')
      case None => None
      case Some(i) =>
        var digits := body[i + 1..];
        if |digits| == 0 || !AllDigits(digits) then None
        else Some(Line(Split(body[..i], ';'), ParseDecimal(digits)))
  }

  /** Every exported line reads back as its frame names, root first, and its
      count, provided no name is empty or holds a ';'. */
  lemma LineRoundTrip(k: Key, count: nat, name: SymbolNames)
    requires FitsBuffer(name)
    requires Readable(FrameNames(k, name))
    ensures ParseLine(RenderLine(k, count, name)) == Some(Line(FrameNames(k, name), count))
  {
    RenderLineFormat(k, count, name);
    var j := Join(FrameNames(k, name), ';');
    var d := Decimal(count);
    var line := j + " " + d + "\n";
    var body := line[..|line| - 1];
    assert body == j + [' '] + d;
    assert Free(d, ' ');
    LastIndexOfBefore(j, ' ', d);
    assert body[|j| + 1..] == d;
    assert body[..|j|] == j;
    DecimalRoundTrip(count);
    SplitOfJoin(FrameNames(k, name), ';');
  }

  lemma {:induction false} NonZeroOfNonZero(p: seq<bv32>)
    requires forall i :: 0 <= i < |p| ==> p[i] != 0
    ensures NonZero(p) == p
    decreases |p|
  {
    if |p| > 0 {
      NonZeroOfNonZero(p[1..]);
    }
  }

  lemma {:induction false} NonZeroOfZeros(z: seq<bv32>)
    requires forall i :: 0 <= i < |z| ==> z[i] == 0
    ensures NonZero(z) == []
    decreases |z|
  {
    if |z| > 0 {
      NonZeroOfZeros(z[1..]);
    }
  }

  /** A key holding the frames `p` followed by zero padding names exactly the
      frames of `p`, last one first. */
  lemma RootFirstOfPadded(k: Key, p: seq<bv32>)
    requires |p| <= Depth && k[..|p|] == p
    requires forall i :: 0 <= i < |p| ==> p[i] != 0
    requires forall i :: |p| <= i < Depth ==> k[i] == 0
    ensures RootFirst(k) == Reverse(p)
  {
    assert k == p + k[|p|..];
    NonZeroAppend(p, k[|p|..]);
    NonZeroOfNonZero(p);
    NonZeroOfZeros(k[|p|..]);
    assert NonZero(k) == p;
  }

  /** For a zero-padded key, as the walker produces, a line names the non-zero
      prefix in reverse: the frame reached last comes first. */
  lemma PaddedKeyNamesPrefixReversed(k: Key)
    requires NoHoles(k)
    ensures RootFirst(k) == Reverse(Prefix(k))
  {
    var n := FirstZero(k);
    forall i | n <= i < Depth
      ensures k[i] == 0
    {
      assert k[n] == 0;
    }
    RootFirstOfPadded(k, Prefix(k));
  }

  /** The symbol table of the worked example: A -> "foo", B -> "bar". */
  function ExampleNames(a: bv32): string
  {
    if a == 0x0200_0000 then "foo" else if a == 0x0200_0100 then "bar" else "?"
  }

  /** Counts {[A, B] -> 3, [A] -> 1} with A the deepest call: the lines read
      "bar;foo 3" and "foo 1". */
  lemma FoldedLinesExample()
    ensures RenderLine(Zeros()[0 := 0x0200_0000][1 := 0x0200_0100], 3, ExampleNames) == "bar;foo 3\n"
    ensures RenderLine(Zeros()[0 := 0x0200_0000], 1, ExampleNames) == "foo 1\n"
  {
    TwoFrameLine();
    OneFrameLine();
  }

  lemma TwoFrameLine()
    ensures RenderLine(Zeros()[0 := 0x0200_0000][1 := 0x0200_0100], 3, ExampleNames) == "bar;foo 3\n"
  {
    var a: bv32 := 0x0200_0000;
    var b: bv32 := 0x0200_0100;
    var k := Zeros()[0 := a][1 := b];
    RenderLineFormat(k, 3, ExampleNames);
    RootFirstOfPadded(k, [a, b]);
    assert FrameNames(k, ExampleNames) == ["bar", "foo"];
  }

  lemma OneFrameLine()
    ensures RenderLine(Zeros()[0 := 0x0200_0000], 1, ExampleNames) == "foo 1\n"
  {
    var a: bv32 := 0x0200_0000;
    var k := Zeros()[0 := a];
    RenderLineFormat(k, 1, ExampleNames);
    RootFirstOfPadded(k, [a]);
    assert FrameNames(k, ExampleNames) == ["foo"];
  }

  /** A zero slot between A and B is skipped, not taken as the end of the stack. */
  lemma ZeroSlotIsSkipped()
    ensures RenderLine(Zeros()[0 := 0x0200_0000][2 := 0x0200_0100], 2, ExampleNames) == "bar;foo 2\n"
  {
    var a: bv32 := 0x0200_0000;
    var b: bv32 := 0x0200_0100;
    var k := Zeros()[0 := a][2 := b];
    RenderLineFormat(k, 2, ExampleNames);
    assert k == [a, 0, b] + k[3..];
    NonZeroAppend([a, 0, b], k[3..]);
    NonZeroOfZeros(k[3..]);
    NonZeroSkipsHole(a, b);
    assert RootFirst(k) == [b, a];
    assert FrameNames(k, ExampleNames) == ["bar", "foo"];
  }

  lemma NonZeroSkipsHole(a: bv32, b: bv32)
    requires a != 0 && b != 0
    ensures NonZero([a, 0, b]) == [a, b]
  {
    assert [a, 0, b][1..] == [0, b] && [0, b][1..] == [b] && [b][1..] == [];
    assert NonZero([b]) == [b];
    assert NonZero([0, b]) == [b];
  }

  /** An all-zero key gives an empty frame list: substr(0, npos) of the empty
      sample is empty. */
  lemma EmptyKeyLine(count: nat, name: SymbolNames)
    ensures RenderLine(Zeros(), count, name) == " " + Decimal(count) + "\n"
  {
    var z := Zeros();
    NonZeroOfZeros(z);
    assert RootFirst(z) == [];
    assert FrameNames(z, name) == [];
    SampleIsTerminated(z, name);
    EmptySampleLine(z, count, name);
  }

  lemma EmptySampleLine(k: Key, count: nat, name: SymbolNames)
    requires Sample(k, name) == ""
    ensures RenderLine(k, count, name) == " " + Decimal(count) + "\n"
  {
    assert Head("", (0 - 1) % SizeLimit) == "";
  }

  // ---------------------------------------------------------------------------
  // The file: its name, and what DumpCaptures leaves behind.
  // ---------------------------------------------------------------------------

  /** The OSCalendarTime fields the file name uses; `month` is tm_mon, from 0. */
  datatype CalendarTime = CalendarTime(year: nat, month: nat, day: nat, hour: nat, minute: nat, second: nat)

  /** TRACE_PATH */
  const TracePath: string := "/vol/external01/wiiu/FlameCafe"

  /** The "%04d-%02d-%02d_%02d-%02d-%02d.txt" part of the path, month printed from 1. */
  function FileName(t: CalendarTime): string
  {
    PadDecimal(t.year, 4) + "-" + PadDecimal(t.month + 1, 2) + "-" + PadDecimal(t.day, 2) + "_" +
    PadDecimal(t.hour, 2) + "-" + PadDecimal(t.minute, 2) + "-" + PadDecimal(t.second, 2) + ".txt"
  }

  function FilePath(t: CalendarTime): string
  {
    TracePath + "/" + FileName(t)
  }

  /** Reads a file name back into the calendar fields it was made from. */
  function ParseFileName(n: string): Option<CalendarTime>
  {
    if |n| != 23 || n[4] != '-' || n[7] != '-' || n[10] != '_' || n[13] != '-' || n[16] != '-' || n[19..] != ".txt"
    then None
    else if !(AllDigits(n[..4]) && AllDigits(n[5..7]) && AllDigits(n[8..10]) &&
              AllDigits(n[11..13]) && AllDigits(n[14..16]) && AllDigits(n[17..19]))
    then None
    else if ParseDecimal(n[5..7]) == 0 then None
    else Some(CalendarTime(ParseDecimal(n[..4]), ParseDecimal(n[5..7]) - 1, ParseDecimal(n[8..10]),
                           ParseDecimal(n[11..13]), ParseDecimal(n[14..16]), ParseDecimal(n[17..19])))
  }

  /** Fields within printf's widths. */
  predicate FieldsFit(t: CalendarTime)
  {
    t.year < 10000 && t.month + 1 < 100 && t.day < 100 && t.hour < 100 && t.minute < 100 && t.second < 100
  }

  lemma PadFits(n: nat, width: nat)
    requires width >= 1 && n < Pow10(width)
    ensures |PadDecimal(n, width)| == width && AllDigits(PadDecimal(n, width))
    ensures ParseDecimal(PadDecimal(n, width)) == n
  {
    DecimalLength(n, width);
    PadDecimalRoundTrip(n, width);
  }

  /** Where the six fields sit in a name built from texts of widths 4 and 2. */
  lemma FileNameSlices(y: string, mo: string, d: string, h: string, mi: string, se: string)
    requires |y| == 4 && |mo| == 2 && |d| == 2 && |h| == 2 && |mi| == 2 && |se| == 2
    ensures var n := y + "-" + mo + "-" + d + "_" + h + "-" + mi + "-" + se + ".txt";
            && |n| == 23 && n[4] == '-' && n[7] == '-' && n[10] == '_' && n[13] == '-' && n[16] == '-'
            && n[..4] == y && n[5..7] == mo && n[8..10] == d && n[11..13] == h
            && n[14..16] == mi && n[17..19] == se && n[19..] == ".txt"
  {
    var n := y + "-" + mo + "-" + d + "_" + h + "-" + mi + "-" + se + ".txt";
    assert n[..4] == y by {
      forall i | 0 <= i < 4 ensures n[i] == y[i] { }
    }
    assert n[5..7] == mo by {
      forall i | 0 <= i < 2 ensures n[5 + i] == mo[i] { }
    }
    assert n[8..10] == d by {
      forall i | 0 <= i < 2 ensures n[8 + i] == d[i] { }
    }
    assert n[11..13] == h by {
      forall i | 0 <= i < 2 ensures n[11 + i] == h[i] { }
    }
    assert n[14..16] == mi by {
      forall i | 0 <= i < 2 ensures n[14 + i] == mi[i] { }
    }
    assert n[17..19] == se by {
      forall i | 0 <= i < 2 ensures n[17 + i] == se[i] { }
    }
    assert n[19..] == ".txt" by {
      forall i | 0 <= i < 4 ensures n[19 + i] == ".txt"[i] { }
    }
  }

  /** Within printf's widths the name has a fixed shape, 23 characters, and reads
      back as the time it was made from; files of the same second share a name. */
  lemma FileNameRoundTrip(t: CalendarTime)
    requires FieldsFit(t)
    ensures |FileName(t)| == 23
    ensures ParseFileName(FileName(t)) == Some(t)
  {
    assert Pow10(2) == 100 && Pow10(4) == 10000;
    PadFits(t.year, 4);
    PadFits(t.month + 1, 2);
    PadFits(t.day, 2);
    PadFits(t.hour, 2);
    PadFits(t.minute, 2);
    PadFits(t.second, 2);
    FileNameSlices(PadDecimal(t.year, 4), PadDecimal(t.month + 1, 2), PadDecimal(t.day, 2),
                   PadDecimal(t.hour, 2), PadDecimal(t.minute, 2), PadDecimal(t.second, 2));
  }

  /** What fopen and the writes leave: the path and the lines in write order. */
  datatype File = File(path: string, lines: seq<string>)

  /** The file written (None when fopen failed) and captureMap afterwards. */
  datatype DumpOutcome = DumpOutcome(file: Option<File>, captures: Counts)

  /** `order` is one iteration order of the map: each key exactly once. */
  predicate IsEnumeration(order: seq<Key>, c: Counts)
  {
    && (forall i :: 0 <= i < |order| ==> order[i] in c)
    && (forall k: Key :: k in c ==> k in order)
    && (forall i, j :: 0 <= i < j < |order| ==> order[i] != order[j])
  }

  lemma {:induction false} EnumerationSize(order: seq<Key>, c: Counts)
    requires IsEnumeration(order, c)
    ensures |order| == |c|
    decreases |order|
  {
    if |order| == 0 {
      assert c.Keys == {};
    } else {
      var k := order[0];
      var c' := c - {k};
      assert IsEnumeration(order[1..], c') by {
        forall k' | k' in c'
          ensures k' in order[1..]
        {
          var i :| 0 <= i < |order| && order[i] == k';
          assert i != 0;
          assert order[1..][i - 1] == k';
        }
      }
      EnumerationSize(order[1..], c');
    }
  }

  /** The loop over captureMap in the given order, one rendered line per entry. */
  function Lines(order: seq<Key>, c: Counts, name: SymbolNames): (r: seq<string>)
    requires forall i :: 0 <= i < |order| ==> order[i] in c
    ensures |r| == |order|
    ensures forall i :: 0 <= i < |order| ==> r[i] == RenderLine(order[i], c[order[i]], name)
  {
    if |order| == 0 then [] else [RenderLine(order[0], c[order[0]], name)] + Lines(order[1..], c, name)
  }

  /** The map left once DumpCaptures returns: cleared only on the path that
      opened the file; the early return after a failed fopen keeps it. */
  function ClearedAfterDump(c: Counts, fileOpened: bool): Counts
  {
    if fileOpened then map[] else c
  }

  /** DumpCaptures: `fileOpened` is whether fopen succeeded, `t` the calendar time,
      `order` the map's iteration order, `name` the symbol lookup. */
  function DumpCaptures(c: Counts, t: CalendarTime, fileOpened: bool, order: seq<Key>, name: SymbolNames): (d: DumpOutcome)
    requires IsEnumeration(order, c)
    ensures d.file.Some? <==> fileOpened
    ensures fileOpened ==> d.captures == map[]
    ensures !fileOpened ==> d.file.None? && d.captures == c
    ensures d.captures == ClearedAfterDump(c, fileOpened)
    ensures d.file.Some? ==> d.file.value.path == FilePath(t) && |d.file.value.lines| == |c|
  {
    EnumerationSize(order, c);
    if fileOpened then DumpOutcome(Some(File(FilePath(t), Lines(order, c, name))), map[])
    else DumpOutcome(None, c)
  }

  /** Each line of a dump reads back as one entry of the map, and each entry of
      the map has a line: the frame names of its key and its count. */
  lemma DumpedLinesMatchEntries(c: Counts, t: CalendarTime, order: seq<Key>, name: SymbolNames)
    requires IsEnumeration(order, c)
    requires FitsBuffer(name)
    requires forall k: Key :: k in c ==> Readable(FrameNames(k, name))
    ensures var lines := DumpCaptures(c, t, true, order, name).file.value.lines;
            && |lines| == |c|
            && (forall i :: 0 <= i < |lines| ==> order[i] in c && ReadsBackAs(lines[i], order[i], c, name))
            && (forall k: Key :: k in c ==>
                  Position(order, k) < |lines| && ReadsBackAs(lines[Position(order, k)], k, c, name))
  {
    LinesAreEntries(order, c, name);
    EnumerationSize(order, c);
  }

  /** `line` reads back as the entry of `k` in `c`. */
  predicate ReadsBackAs(line: string, k: Key, c: Counts, name: SymbolNames)
    requires k in c
  {
    ParseLine(line) == Some(Line(FrameNames(k, name), c[k]))
  }

  /** Where `k` sits in `order`. */
  function Position(order: seq<Key>, k: Key): (i: nat)
    requires k in order
    ensures i < |order| && order[i] == k
  {
    if order[0] == k then 0 else 1 + Position(order[1..], k)
  }

  lemma LinesAreEntries(order: seq<Key>, c: Counts, name: SymbolNames)
    requires forall i :: 0 <= i < |order| ==> order[i] in c
    requires FitsBuffer(name)
    requires forall k: Key :: k in c ==> Readable(FrameNames(k, name))
    ensures forall i :: 0 <= i < |order| ==> ReadsBackAs(Lines(order, c, name)[i], order[i], c, name)
  {
    forall i | 0 <= i < |order|
      ensures ReadsBackAs(Lines(order, c, name)[i], order[i], c, name)
    {
      LineRoundTrip(order[i], c[order[i]], name);
    }
  }

  lemma LinesAppend(a: seq<Key>, b: seq<Key>, c: Counts, name: SymbolNames)
    requires forall i :: 0 <= i < |a| ==> a[i] in c
    requires forall i :: 0 <= i < |b| ==> b[i] in c
    ensures Lines(a + b, c, name) == Lines(a, c, name) + Lines(b, c, name)
  {
    var l := Lines(a + b, c, name);
    var r := Lines(a, c, name) + Lines(b, c, name);
    forall i | 0 <= i < |l|
      ensures l[i] == r[i]
    {
      if i < |a| {
        assert (a + b)[i] == a[i];
      } else {
        assert (a + b)[i] == b[i - |a|];
      }
    }
  }

  lemma RemoveAt(s: seq<Key>, j: nat)
    requires j < |s|
    ensures multiset(s[..j] + s[j + 1..]) == multiset(s) - multiset{s[j]}
  {
    assert s == s[..j] + [s[j]] + s[j + 1..];
  }

  lemma LinesRemoveAt(s: seq<Key>, j: nat, c: Counts, name: SymbolNames)
    requires j < |s|
    requires forall i :: 0 <= i < |s| ==> s[i] in c
    ensures multiset(Lines(s, c, name)) ==
            multiset(Lines(s[..j] + s[j + 1..], c, name)) + multiset{RenderLine(s[j], c[s[j]], name)}
  {
    assert s == s[..j] + [s[j]] + s[j + 1..];
    LinesAppend(s[..j] + [s[j]], s[j + 1..], c, name);
    LinesAppend(s[..j], [s[j]], c, name);
    LinesAppend(s[..j], s[j + 1..], c, name);
  }

  lemma {:induction false} LinesPermutation(o1: seq<Key>, o2: seq<Key>, c: Counts, name: SymbolNames)
    requires forall i :: 0 <= i < |o1| ==> o1[i] in c
    requires multiset(o1) == multiset(o2)
    ensures forall i :: 0 <= i < |o2| ==> o2[i] in c
    ensures multiset(Lines(o1, c, name)) == multiset(Lines(o2, c, name))
    decreases |o1|
  {
    forall i | 0 <= i < |o2|
      ensures o2[i] in c
    {
      assert o2[i] in multiset(o1);
    }
    if |o1| > 0 {
      var k := o1[0];
      assert k in multiset(o2);
      var j :| 0 <= j < |o2| && o2[j] == k;
      RemoveAt(o2, j);
      RemoveAt(o1, 0);
      assert o1[..0] + o1[1..] == o1[1..];
      LinesPermutation(o1[1..], o2[..j] + o2[j + 1..], c, name);
      LinesRemoveAt(o2, j, c, name);
      LinesRemoveAt(o1, 0, c, name);
    }
  }

  lemma {:induction false} EnumerationMultiset(order: seq<Key>, c: Counts)
    requires IsEnumeration(order, c)
    ensures multiset(order) == multiset(c.Keys)
  {
    forall k
      ensures multiset(order)[k] == multiset(c.Keys)[k]
    {
      if k in c {
        var i :| 0 <= i < |order| && order[i] == k;
        DistinctCount(order, i);
      } else {
        assert k !in multiset(order);
      }
    }
  }

  lemma {:induction false} DistinctCount(s: seq<Key>, i: nat)
    requires i < |s|
    requires forall a, b :: 0 <= a < b < |s| ==> s[a] != s[b]
    ensures multiset(s)[s[i]] == 1
    decreases |s|
  {
    if i == 0 {
      assert s == [s[0]] + s[1..];
      assert s[0] !in s[1..];
    } else {
      DistinctCount(s[1..], i - 1);
      assert s == [s[0]] + s[1..];
    }
  }

  /** The map's iteration order is unspecified, but the file's lines, as a
      multiset, do not depend on it. */
  lemma DumpOrderIrrelevant(c: Counts, t: CalendarTime, o1: seq<Key>, o2: seq<Key>, name: SymbolNames)
    requires IsEnumeration(o1, c) && IsEnumeration(o2, c)
    ensures multiset(DumpCaptures(c, t, true, o1, name).file.value.lines) ==
            multiset(DumpCaptures(c, t, true, o2, name).file.value.lines)
  {
    EnumerationMultiset(o1, c);
    EnumerationMultiset(o2, c);
    LinesPermutation(o1, o2, c, name);
  }
}
