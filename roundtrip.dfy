// What write() puts where in the file, and that read() gets the dataset back from it.

module HisRoundTrip {
  import opened Results
  import opened Bytes
  import opened Arith
  import opened TimeInfo
  import opened His

  // ---- Where each block sits in its run of blocks ----

  lemma Prefix(c: seq<byte>, x: seq<byte>, i: nat, j: nat)
    requires i <= j <= |c|
    ensures (c + x)[i..j] == c[i..j]
  {
  }

  lemma Within(f: seq<byte>, o: nat, x: seq<byte>, a: nat, b: nat)
    requires o + |x| <= |f| && f[o..o + |x|] == x && a <= b <= |x|
    ensures f[o + a..o + b] == x[a..b]
  {
    forall k | 0 <= k < b - a
      ensures f[o + a..o + b][k] == x[a..b][k]
    {
      assert f[o..o + |x|][a + k] == f[o + a + k];
    }
  }

  /** Name field i of params.tofile(f) sits at 20 * i. */
  lemma {:induction false} NameFieldsAt(names: seq<string>, n: nat, i: nat)
    requires i < n <= |names|
    ensures NameFields(names, n)[20 * i..20 * i + 20] == Field20(ToBytes(names[i]))
  {
    var c := NameFields(names, n - 1);
    assert NameFields(names, n) == c + Field20(ToBytes(names[n - 1]));
    if i < n - 1 {
      NameFieldsAt(names, n - 1, i);
      Prefix(c, Field20(ToBytes(names[n - 1])), 20 * i, 20 * i + 20);
    }
  }

  /** Station record j sits at 24 * j: its number, then its name field. */
  lemma {:induction false} StationRecordsAt(locs: seq<string>, n: nat, j: nat)
    requires j < n <= |locs|
    ensures StationRecords(locs, n)[24 * j..24 * j + 4] == EncodeI32(j)
    ensures StationRecords(locs, n)[24 * j + 4..24 * j + 24] == Field20(ToBytes(locs[j]))
  {
    var c := StationRecords(locs, n - 1);
    var x := EncodeI32(n - 1) + Field20(ToBytes(locs[n - 1]));
    assert StationRecords(locs, n) == c + x;
    if j < n - 1 {
      StationRecordsAt(locs, n - 1, j);
      Prefix(c, x, 24 * j, 24 * j + 4);
      Prefix(c, x, 24 * j + 4, 24 * j + 24);
    } else {
      assert (c + x)[|c|..|c| + 4] == x[..4];
      assert (c + x)[|c| + 4..|c| + 24] == x[4..];
    }
  }

  /** The cell of parameter p sits at 4 * p in a column. */
  lemma {:induction false} CellsAt(h: HisData, t: int, s: int, n: nat, p: nat)
    requires p < n
    ensures Cells(h, t, s, n)[4 * p..4 * p + 4] == WordBytes(CellOf(h, p, t, s))
  {
    var c := Cells(h, t, s, n - 1);
    if p < n - 1 {
      CellsAt(h, t, s, n - 1, p);
      Prefix(c, WordBytes(CellOf(h, n - 1, t, s)), 4 * p, 4 * p + 4);
    }
  }

  /** A block that follows a prefix of a file sits right after that prefix. */
  lemma After(b: seq<byte>, c: seq<byte>, x: seq<byte>)
    requires c + x <= b
    ensures |c| + |x| <= |b| && b[|c|..|c| + |x|] == x
  {
    assert b[..|c| + |x|] == c + x;
    assert (c + x)[|c|..] == x;
  }

  /** The first m columns of a step are a prefix of its first n columns. */
  lemma {:induction false} ColumnsPrefix(h: HisData, t: int, m: nat, n: nat)
    requires m <= n
    ensures Columns(h, t, m) <= Columns(h, t, n)
  {
    if m < n {
      ColumnsPrefix(h, t, m, n - 1);
    }
  }

  /** The first m steps are a prefix of the first n steps. */
  lemma {:induction false} StepsPrefix(h: HisData, m: nat, n: nat)
    requires m <= n
    ensures Steps(h, m) <= Steps(h, n)
  {
    if m < n {
      StepsPrefix(h, m, n - 1);
    }
  }

  // ---- The regions of the file ----

  function Geo(h: HisData): Geometry { Geometry(|h.params|, |h.locs|, |h.times|) }

  /** The file from byte 160 on, as write() lays it out: the counts, the name fields, the
      station records and the steps. */
  predicate BodyLaid(f: seq<byte>, h: HisData)
  {
    |f| == Geo(h).Size() &&
    f[160..164] == EncodeI32(|h.params|) && f[164..168] == EncodeI32(|h.locs|) &&
    f[168..StationBase(|h.params|)] == NameFields(h.params, |h.params|) &&
    f[StationBase(|h.params|)..Geo(h).DataStart()] == StationRecords(h.locs, |h.locs|) &&
    f[Geo(h).DataStart()..] == Steps(h, |h.times|)
  }

  /** Where each of seven consecutive pieces of a file starts and ends. */
  lemma Regions(f: seq<byte>, a: seq<byte>, b: seq<byte>, c: seq<byte>, d: seq<byte>,
                n: seq<byte>, s: seq<byte>, st: seq<byte>)
    requires f == a + b + c + d + n + s + st
    requires |a| == 120 && |b| == 40 && |c| == 4 && |d| == 4
    ensures |f| == 168 + |n| + |s| + |st|
    ensures f[..120] == a && f[120..160] == b && f[160..164] == c && f[164..168] == d
    ensures f[168..168 + |n|] == n
    ensures f[168 + |n|..168 + |n| + |s|] == s
    ensures f[168 + |n| + |s|..] == st
  {
    var h := a + b + c + d;
    assert f == h + n + s + st;
    assert h[..120] == a && h[120..160] == b && h[160..164] == c && h[164..168] == d;
    assert f[..168] == h;
    assert f[168..168 + |n|] == n;
    assert f[168 + |n|..168 + |n| + |s|] == s;
  }

  /** The regions of the file write() produces. */
  lemma LayoutRegions(h: HisData)
    requires IsValid(h.t0) && |Format(h.t0, h.scu)| == 40
    ensures |Layout(h)| == Geo(h).Size()
    ensures Layout(h)[..120] == ToBytes(HeaderText(h))
    ensures Layout(h)[120..160] == ToBytes(Format(h.t0, h.scu))
    ensures BodyLaid(Layout(h), h)
  {
    assert |HeaderText(h)| == 120;
    Regions(Layout(h), ToBytes(HeaderText(h)), ToBytes(Format(h.t0, h.scu)), EncodeI32(|h.params|),
            EncodeI32(|h.locs|), NameFields(h.params, |h.params|), StationRecords(h.locs, |h.locs|),
            Steps(h, |h.times|));
  }

  lemma SizeIsExpected(g: Geometry)
    ensures ExpectedSize(g.noout, g.noseg, g.notim) == g.Size()
  {
    assert g.noout * g.noseg * 4 == 4 * (g.noout * g.noseg);
  }

  /** write() completes exactly when the dataset passes the writer's checks and the
      time-info block has its nominal 40 characters; then the file is the layout. */
  lemma EncodeSucceeds(h: HisData)
    requires WellShaped(h) && IsValid(h.t0)
    ensures Encode(h).Ok? <==> Writable(h) && |Format(h.t0, h.scu)| == 40
    ensures Encode(h).Ok? ==> Encode(h).value == Layout(h)
  {
    assert |HeaderText(h)| == 120;
    SizeIsExpected(Geo(h));
    assert |Layout(h)| == |Format(h.t0, h.scu)| + 128 + 20 * |h.params| + 24 * |h.locs| +
                          |h.times| * Geo(h).StepSize();
  }

  // ---- Where the reader finds each field ----

  /** Parameter i's name field sits at 168 + 20 * i. */
  lemma ParamField(f: seq<byte>, h: HisData, i: int)
    requires BodyLaid(f, h) && 0 <= i < |h.params|
    ensures 188 + 20 * i <= |f|
    ensures f[168 + 20 * i..188 + 20 * i] == Field20(ToBytes(h.params[i]))
  {
    NameFieldsAt(h.params, |h.params|, i);
    Within(f, 168, NameFields(h.params, |h.params|), 20 * i, 20 * i + 20);
  }

  /** Station j's record, its number then its name field, sits at 168 + 20 * noout + 24 * j. */
  lemma StationField(f: seq<byte>, h: HisData, j: int)
    requires BodyLaid(f, h) && 0 <= j < |h.locs|
    ensures StationStart(StationBase(|h.params|), j) + 24 <= |f|
    ensures f[StationStart(StationBase(|h.params|), j)..StationStart(StationBase(|h.params|), j) + 4] == EncodeI32(j)
    ensures f[StationStart(StationBase(|h.params|), j) + 4..StationStart(StationBase(|h.params|), j) + 24]
            == Field20(ToBytes(h.locs[j]))
  {
    var sb := StationBase(|h.params|);
    var recs := StationRecords(h.locs, |h.locs|);
    StationRecordsAt(h.locs, |h.locs|, j);
    Within(f, sb, recs, 24 * j, 24 * j + 4);
    Within(f, sb, recs, 24 * j + 4, 24 * j + 24);
  }

  /** A block that follows a prefix of a region sits right after that prefix in the file. */
  lemma Nested(f: seq<byte>, o: nat, x: seq<byte>, c: seq<byte>, y: seq<byte>)
    requires o + |x| <= |f| && f[o..o + |x|] == x && c + y <= x
    ensures o + |c| + |y| <= |f| && f[o + |c|..o + |c| + |y|] == y
  {
    After(x, c, y);
    Within(f, o, x, |c|, |c| + |y|);
  }

  /** Step t sits at the step start the reader computes, in any file whose tail is the steps. */
  lemma StepField(f: seq<byte>, h: HisData, t: int)
    requires Geo(h).DataStart() <= |f| && f[Geo(h).DataStart()..] == Steps(h, |h.times|)
    requires 0 <= t < |h.times|
    ensures 0 <= Geo(h).StepStart(t)
    ensures Geo(h).StepStart(t) + Geo(h).StepSize() <= |f|
    ensures f[Geo(h).StepStart(t)..Geo(h).StepStart(t) + Geo(h).StepSize()] == StepBytes(h, t)
  {
    StepsPrefix(h, t + 1, |h.times|);
    Nested(f, Geo(h).DataStart(), Steps(h, |h.times|), Steps(h, t), StepBytes(h, t));
  }

  /** The tick of step t opens the step. */
  lemma TickField(f: seq<byte>, h: HisData, t: int)
    requires Geo(h).DataStart() <= |f| && f[Geo(h).DataStart()..] == Steps(h, |h.times|)
    requires 0 <= t < |h.times|
    ensures 0 <= Geo(h).StepStart(t)
    ensures Geo(h).StepStart(t) + 4 <= |f|
    ensures f[Geo(h).StepStart(t)..Geo(h).StepStart(t) + 4] == EncodeI32(Tick(h, t))
  {
    StepField(f, h, t);
    Within(f, Geo(h).StepStart(t), StepBytes(h, t), 0, 4);
  }

  lemma CellOffsetSum(s: int, n: int, p: int)
    ensures s * (4 * n) + 4 * p == 4 * (s * n + p)
  {
  }

  /** Column s sits at 4 + s * (4 * noout) in step t, and its cell p at 4 * p in it. */
  lemma CellInStep(h: HisData, t: int, s: int, p: int)
    requires 0 <= s < |h.locs| && 0 <= p < |h.params|
    ensures 4 + 4 * (s * |h.params| + p) + 4 <= |StepBytes(h, t)|
    ensures StepBytes(h, t)[4 + 4 * (s * |h.params| + p)..4 + 4 * (s * |h.params| + p) + 4]
            == WordBytes(CellOf(h, p, t, s))
  {
    var step := StepBytes(h, t);
    var cols := Columns(h, t, |h.locs|);
    assert step[4..] == cols;
    ColumnsPrefix(h, t, s + 1, |h.locs|);
    CellsAt(h, t, s, |h.params|, p);
    CellInBlock(step, cols, Columns(h, t, s), Column(h, t, s), |h.params|, s, p);
  }

  /** A cell at 4 * p of the column that follows s columns of 4 * np bytes, in a block after a
      4-byte tick, sits at 4 + 4 * (s * np + p) of that block. */
  lemma CellInBlock(step: seq<byte>, cols: seq<byte>, pre: seq<byte>, col: seq<byte>, np: nat, s: nat, p: nat)
    requires 4 <= |step| && step[4..] == cols && pre + col <= cols
    requires |pre| == s * (4 * np) && |col| == 4 * np && p < np
    ensures 4 + 4 * (s * np + p) + 4 <= |step|
    ensures step[4 + 4 * (s * np + p)..4 + 4 * (s * np + p) + 4] == col[4 * p..4 * p + 4]
  {
    After(cols, pre, col);
    Within(cols, |pre|, col, 4 * p, 4 * p + 4);
    CellOffsetSum(s, np, p);
    Within(step, 4, cols, |pre| + 4 * p, |pre| + 4 * p + 4);
  }

  /** The cell of parameter p at station s and step t sits where the reader looks for it. */
  lemma CellField(f: seq<byte>, h: HisData, t: int, s: int, p: int)
    requires Geo(h).DataStart() <= |f| && f[Geo(h).DataStart()..] == Steps(h, |h.times|)
    requires 0 <= t < |h.times| && 0 <= s < |h.locs| && 0 <= p < |h.params|
    ensures 0 <= Geo(h).CellOffset(t, s, p)
    ensures Geo(h).CellOffset(t, s, p) + 4 <= |f|
    ensures f[Geo(h).CellOffset(t, s, p)..Geo(h).CellOffset(t, s, p) + 4] == WordBytes(CellOf(h, p, t, s))
  {
    StepField(f, h, t);
    CellInStep(h, t, s, p);
    var o := 4 + 4 * (s * |h.params| + p);
    Within(f, Geo(h).StepStart(t), StepBytes(h, t), o, o + 4);
  }

  // ---- What the reader gets back ----

  /** A name as it comes back from the file: stored in a 20-byte field, then right-stripped. */
  function StoredName(s: string): string { ToText(RStrip(Field20(ToBytes(s)))) }

  function StoredNames(names: seq<string>): (r: seq<string>)
    ensures |r| == |names|
    ensures forall i :: 0 <= i < |names| ==> r[i] == StoredName(names[i])
  {
    seq(|names|, i requires 0 <= i < |names| => StoredName(names[i]))
  }

  /** The dataset read() returns for a file write() produced: the header as padded, the
      names as stored, the stations numbered by position, each time rounded toward zero to a
      whole number of scu, and the data unchanged. */
  function Canonical(h: HisData): HisData
  {
    HisData(HeaderText(h), h.t0, h.scu, StoredNames(h.params), seq(|h.locs|, j => j),
            StoredNames(h.locs), seq(|h.times|, t => Tick(h, t) * h.scu), h.data)
  }

  lemma FieldAscii(b: seq<byte>)
    requires IsAscii(b)
    ensures IsAscii(RStrip(Field20(b)))
  {
    RStripFacts(Field20(b));
  }

  /** The counts read back. */
  lemma CountsBack(f: seq<byte>, h: HisData)
    requires BodyLaid(f, h) && IsI32(|h.params|) && IsI32(|h.locs|)
    ensures 168 <= |f|
    ensures I32At(f, 160) == |h.params| && I32At(f, 164) == |h.locs|
  {
    I32RoundTrip(|h.params|, f, 160);
    I32RoundTrip(|h.locs|, f, 164);
  }

  /** n blocks of b bytes divide back into n. */
  lemma ExactDiv(n: nat, b: int)
    requires 0 < b
    ensures TruncDiv(n * b, b) == n
  {
    MulLeft(0, n, b);
    TruncDivFacts(n * b, b);
    var q := TruncDiv(n * b, b);
    if q < n {
      MulLeft(q + 1, n, b);
    }
  }

  /** The step count the reader derives from the file size is the number of steps written. */
  lemma NotimBack(f: seq<byte>, h: HisData)
    requires BodyLaid(f, h)
    ensures (|f| - 168 - 20 * |h.params| - 24 * |h.locs|) % (4 * (|h.params| * |h.locs| + 1)) == 0
    ensures StepCount(|f|, |h.params|, |h.locs|) == |h.times|
  {
    var g := Geo(h);
    assert g.StepSize() == 4 * (|h.params| * |h.locs| + 1);
    var body := |f| - 168 - 20 * |h.params| - 24 * |h.locs|;
    assert body == |h.times| * g.StepSize();
    MulMod(|h.times|, g.StepSize());
    ExactDiv(|h.times|, g.StepSize());
  }

  lemma ParamBack(f: seq<byte>, h: HisData, i: int)
    requires BodyLaid(f, h) && AllAscii(h.params) && 0 <= i < |h.params|
    ensures ParamName(f, i) == RStrip(Field20(ToBytes(h.params[i])))
    ensures ParamOk(f, i)
  {
    ParamField(f, h, i);
    FieldAscii(ToBytes(h.params[i]));
  }

  /** Every parameter name is text, and the names come back as stored. */
  lemma ParamsBack(f: seq<byte>, h: HisData)
    requires BodyLaid(f, h) && AllAscii(h.params)
    ensures ParamsAscii(f, |h.params|)
    ensures ParamNames(f, |h.params|) == StoredNames(h.params)
  {
    forall i | 0 <= i < |h.params|
      ensures ParamOk(f, i) && ParamNames(f, |h.params|)[i] == StoredName(h.params[i])
    {
      ParamBack(f, h, i);
      ParamNamesAt(f, |h.params|, i);
    }
  }

  lemma StationBack(f: seq<byte>, h: HisData, j: int)
    requires BodyLaid(f, h) && IsI32(|h.locs|) && AllAscii(h.locs) && 0 <= j < |h.locs|
    ensures HasStationNumber(f, StationBase(|h.params|), j)
    ensures I32At(f, StationStart(StationBase(|h.params|), j)) == j
    ensures StationName(f, StationBase(|h.params|), j) == RStrip(Field20(ToBytes(h.locs[j])))
    ensures IsAscii(StationName(f, StationBase(|h.params|), j))
  {
    StationField(f, h, j);
    I32RoundTrip(j, f, StationStart(StationBase(|h.params|), j));
    FieldAscii(ToBytes(h.locs[j]));
  }

  /** The station loop meets no failure, numbers the stations by position and gives the
      names back as stored. */
  lemma StationsBack(f: seq<byte>, h: HisData)
    requires BodyLaid(f, h) && IsI32(|h.locs|) && AllAscii(h.locs)
    ensures StationError(f, StationBase(|h.params|), |h.locs|).None?
    ensures StationNumbers(f, StationBase(|h.params|), |h.locs|) == seq(|h.locs|, j => j)
    ensures StationNames(f, StationBase(|h.params|), |h.locs|) == StoredNames(h.locs)
  {
    var sb, n := StationBase(|h.params|), |h.locs|;
    forall j | 0 <= j < n
      ensures HasStationNumber(f, sb, j) && IsAscii(StationName(f, sb, j))
      ensures StationNames(f, sb, n)[j] == StoredName(h.locs[j])
    {
      StationBack(f, h, j);
      StationNamesAt(f, sb, n, j);
    }
    if n > 0 {
      forall j | 0 <= j < n
        ensures StationNumbers(f, sb, n)[j] == j
      {
        StationBack(f, h, j);
        StationNumbersAt(f, sb, n, j);
      }
    }
  }

  lemma TickBack(f: seq<byte>, h: HisData, t: int)
    requires Geo(h).DataStart() <= |f| && f[Geo(h).DataStart()..] == Steps(h, |h.times|)
    requires TicksFit(h, |h.times|) && 0 <= t < |h.times|
    ensures 0 <= Geo(h).StepStart(t) && Geo(h).StepStart(t) + 4 <= |f|
    ensures I32At(f, Geo(h).StepStart(t)) == Tick(h, t)
  {
    TickField(f, h, t);
    I32RoundTrip(Tick(h, t), f, Geo(h).StepStart(t));
  }

  /** The ticks come back, scaled by scu. */
  lemma TimesBack(f: seq<byte>, h: HisData)
    requires BodyLaid(f, h) && Writable(h)
    ensures StepsInside(f, Geo(h))
    ensures Times(f, Geo(h), h.scu) == seq(|h.times|, t => Tick(h, t) * h.scu)
  {
    var g := Geo(h);
    var r := Times(f, g, h.scu);
    forall t | 0 <= t < |h.times|
      ensures r[t] == Tick(h, t) * h.scu
    {
      TickBack(f, h, t);
    }
  }

  lemma CellBack(f: seq<byte>, h: HisData, t: int, s: int, p: int)
    requires BodyLaid(f, h) && WellShaped(h)
    requires 0 <= t < |h.times| && 0 <= s < |h.locs| && 0 <= p < |h.params|
    ensures StepsInside(f, Geo(h))
    ensures Cell(f, Geo(h), t, s, p) == h.data[p][t][s]
  {
    CellField(f, h, t, s, p);
  }

  /** The cube of cells comes back unchanged. */
  lemma CubeBack(f: seq<byte>, h: HisData)
    requires BodyLaid(f, h) && WellShaped(h)
    ensures StepsInside(f, Geo(h))
    ensures Cube(f, Geo(h)) == h.data
  {
    var g := Geo(h);
    forall p, t, s | 0 <= p < |h.params| && 0 <= t < |h.times| && 0 <= s < |h.locs|
      ensures Cube(f, g)[p][t][s] == h.data[p][t][s]
    {
      CellBack(f, h, t, s, p);
    }
    forall p | 0 <= p < |h.params|
      ensures Cube(f, g)[p] == h.data[p]
    {
      forall t | 0 <= t < |h.times|
        ensures Cube(f, g)[p][t] == h.data[p][t]
      {
      }
    }
  }

  /** read() after the time-info block, on the bytes write() laid out. */
  lemma BodyBack(f: seq<byte>, h: HisData)
    requires BodyLaid(f, h) && WellShaped(h) && Writable(h)
    ensures DecodeBody(f, HeaderText(h), h.t0, h.scu) == Ok(Canonical(h))
  {
    CountsBack(f, h);
    NotimBack(f, h);
    MulLeft(0, |h.params|, |h.locs|);
    ParamsBack(f, h);
    StationsBack(f, h);
    TimesBack(f, h);
    CubeBack(f, h);
  }

  /** The file write() produces for a dataset it accepts is read back as Canonical(h): the
      write-then-read round trip. The year must have four digits and scu fit eight columns,
      or the time-info block is not the 40 characters the reader slices. */
  lemma WriteThenRead(h: HisData)
    requires WellShaped(h) && IsValid(h.t0) && 1000 <= h.t0.year && FitsWidth8(h.scu)
    requires Writable(h)
    ensures Encode(h) == Ok(Layout(h))
    ensures Decode(Layout(h)) == Ok(Canonical(h))
  {
    FormatLength(h.t0, h.scu);
    EncodeSucceeds(h);
    LayoutRegions(h);
    var f := Layout(h);
    FormatIsAscii(h.t0, h.scu);
    TextRoundTrip(HeaderText(h));
    TextRoundTrip(Format(h.t0, h.scu));
    ReadBackFormat(h.t0, h.scu);
    assert Slice(f, 0, 120) == ToBytes(HeaderText(h));
    assert Slice(f, 120, 160) == ToBytes(Format(h.t0, h.scu));
    BodyBack(f, h);
  }

  /** A write() that succeeds but that read() cannot read back: a three-digit year makes the
      date one character short, a nine-digit scu makes the unit one character long, the
      block is still 40 characters and passes the length assertion, but the date is no
      longer where the reader slices it. */
  lemma UnreadableWrite(h: HisData)
    requires WellShaped(h) && IsValid(h.t0) && Writable(h)
    requires 100 <= h.t0.year < 1000 && 100_000_000 <= h.scu < 1_000_000_000
    ensures Encode(h) == Ok(Layout(h))
    ensures Decode(Layout(h)) == Err(BadTimeInfo)
  {
    YearText(h.t0.year);
    NatToStringShort(h.t0.year, 2);
    NatToStringShort(h.scu, 8);
    NatToStringShort(h.scu, 9);
    assert Pow10(2) == 100 && Pow10(8) == 100_000_000 && Pow10(9) == 1_000_000_000;
    FormatLength(h.t0, h.scu);
    EncodeSucceeds(h);
    LayoutRegions(h);
    var f := Layout(h);
    FormatIsAscii(h.t0, h.scu);
    TextRoundTrip(Format(h.t0, h.scu));
    assert Slice(f, 0, 120) == ToBytes(HeaderText(h));
    assert Slice(f, 120, 160) == ToBytes(Format(h.t0, h.scu));
    ShortYearNoDate(h.t0, h.scu);
  }

  /** write() with the check its length assertion evidently stands for: the time-info block
      must have the date and the unit where read() slices them. */
  function CheckedEncode(h: HisData): Result<seq<byte>, Error>
    requires WellShaped(h) && IsValid(h.t0)
  {
    if 1000 <= h.t0.year && FitsWidth8(h.scu) then Encode(h) else Err(LayoutMismatch)
  }

  /** Every file the checked writer produces is read back as the canonical dataset, and it
      refuses only what write() refuses or what read() could not read. */
  lemma CheckedEncodeReads(h: HisData)
    requires WellShaped(h) && IsValid(h.t0)
    ensures CheckedEncode(h).Ok? ==> Decode(CheckedEncode(h).value) == Ok(Canonical(h))
    ensures CheckedEncode(h).Ok? <==> Encode(h).Ok? && 1000 <= h.t0.year && FitsWidth8(h.scu)
  {
    if CheckedEncode(h).Ok? {
      EncodeSucceeds(h);
      WriteThenRead(h);
    }
  }

  // ---- When the round trip is exact ----

  /** RStrip(x) is t when t is a prefix of x that does not end in whitespace and only
      whitespace follows it. */
  lemma RStripIs(x: seq<byte>, t: seq<byte>)
    requires t <= x && (t == [] || !IsByteSpace(t[|t| - 1]))
    requires forall i | |t| <= i < |x| :: IsByteSpace(x[i])
    ensures RStrip(x) == t
  {
    RStripFacts(x);
    assert |RStrip(x)| == |t|;
  }

  /** A name that write() stores and read() gives back unchanged: ASCII, at most 20
      characters, and not ending in a NUL or in whitespace. */
  predicate CleanName(s: string)
  {
    IsAsciiText(s) && |s| <= 20 &&
    (s == [] || (s[|s| - 1] as int != 0 && s[|s| - 1] as int != 32 && !(9 <= s[|s| - 1] as int <= 13)))
  }

  /** A stored ASCII name is a prefix of the name, at most 20 characters long, and it is the
      name itself exactly when the name is clean. */
  lemma StoredNameFacts(s: string)
    requires IsAsciiText(s)
    ensures StoredName(s) <= s && |StoredName(s)| <= 20
    ensures StoredName(s) == s <==> CleanName(s)
  {
    var b := ToBytes(s);
    var c := if |b| <= 20 then b else b[..20];
    var t := DropNuls(c);
    var x := Field20(b);
    assert x == t + seq(20 - |t|, _ => 32 as byte);
    RStripFacts(x);
    var r := RStrip(x);
    assert |r| <= |t|;
    assert r == t[..|r|];
    assert r == b[..|r|];
    forall i | 0 <= i < |r|
      ensures ToText(r)[i] == s[i]
    {
      assert ToText(r)[i] as int == b[i] as int == s[i] as int;
    }
    assert ToText(r) == s[..|r|];
    if CleanName(s) {
      assert NulKept(b, |b|) == |b|;
      RStripIs(x, b);
      TextRoundTrip(s);
    }
    if StoredName(s) == s && s != [] {
      assert |r| == |s| == |t| == |c| == |b|;
      assert s[|s| - 1] as int == r[|r| - 1] as int;
    }
  }

  /** A dataset that survives the round trip unchanged: a 120-character header, clean
      names, stations numbered by position, a positive scu and times that are whole,
      non-negative multiples of it. */
  predicate CleanData(h: HisData)
  {
    |h.header| == 120 &&
    (forall i | 0 <= i < |h.params| :: CleanName(h.params[i])) &&
    (forall j | 0 <= j < |h.locs| :: CleanName(h.locs[j])) &&
    h.locnrs == seq(|h.locs|, j => j) &&
    h.scu > 0 && (forall t | 0 <= t < |h.times| :: 0 <= h.times[t] && h.times[t] % h.scu == 0)
  }

  lemma CleanIsCanonical(h: HisData)
    requires CleanData(h)
    ensures Canonical(h) == h
  {
    assert HeaderText(h) == h.header;
    forall i | 0 <= i < |h.params|
      ensures StoredName(h.params[i]) == h.params[i]
    {
      StoredNameFacts(h.params[i]);
    }
    forall j | 0 <= j < |h.locs|
      ensures StoredName(h.locs[j]) == h.locs[j]
    {
      StoredNameFacts(h.locs[j]);
    }
    forall t | 0 <= t < |h.times|
      ensures Tick(h, t) * h.scu == h.times[t]
    {
      assert TruncDiv(h.times[t], h.scu) == h.times[t] / h.scu;
    }
  }
}
