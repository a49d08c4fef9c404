/** The DM MPX time-series file: a 240-byte preamble with 40 bytes per series id, padding up
    to a record boundary, the 16-bit location ids, padding to the next record boundary, and
    then one record per step: a 2-byte index and one float32 cell per location. Records are
    2 + 4 * nlocs bytes; the header counts are signed 16-bit values at bytes 24, 26 and 28. */
module Mpx {
  import opened Results
  import opened Bytes
  import opened Arith
  import PyText

  /** read()'s DataFrame: row labels, column labels (the location ids) and the rows. */
  datatype Frame = Frame(index: seq<int>, columns: seq<string>, data: seq<seq<Word>>)

  /** The counts the header gives, and the offsets the reader derives from them. */
  datatype Shape = Shape(nlocs: int, steps: int, series: int)
  {
    /** nrecsize: the 2-byte index and the cells of one step. */
    function RecSize(): (r: int)
      ensures r != 0
    {
      2 + 4 * nlocs
    }

    /** ndone after the preamble: where the reader expects its cursor to stand. */
    function Done(): int { 240 + 40 * series }

    /** nbytes of the first padding: where the location ids start. */
    function IdStart(): int { (2 + FloorDiv(40 * (7 + series), RecSize()) - 1) * RecSize() }

    /** nbytes of the second padding: where the step records start. */
    function DataStart(): int { (2 + FloorDiv(40 * (7 + series), RecSize())) * RecSize() }
  }

  function HeaderShape(f: seq<byte>): Shape
    requires 30 <= |f|
  {
    Shape(I16At(f, 24), I16At(f, 26), I16At(f, 28))
  }

  /** f.read(k) for its effect on a cursor at `pos` in a file of n bytes: a length of 0 or
      more reads as far as the file reaches, -1 reads to the end, and anything smaller is
      refused. With `whole`, a read cut short by the end of the file fails. */
  function Skip(pos: nat, k: int, n: nat, whole: bool): Result<nat, Error>
  {
    if k >= 0 then (if whole && pos + k > n then Err(ShortRead) else Ok(Clamp(pos + k, n)))
    else if k == -1 then Ok(n)
    else Err(BadReadLength)
  }

  /** A location id: the signed 16-bit reading, with 65536 added when it is negative. */
  function LocId(f: seq<byte>, off: int): int
    requires 0 <= off && off + 2 <= |f|
  {
    var k := I16At(f, off);
    if k < 0 then k + 65536 else k
  }

  /** index=range(1, steps + 1). */
  function Labels(n: nat): (r: seq<int>)
    ensures |r| == n && forall i :: 0 <= i < n ==> r[i] == i + 1
  {
    seq(n, i => i + 1)
  }

  /** The first n location ids, as str(k), from byte `start` on. */
  function Ids(f: seq<byte>, start: nat, n: nat): (r: seq<string>)
    requires start + 2 * n <= |f|
    ensures |r| == n
  {
    if n == 0 then [] else Ids(f, start, n - 1) + [PyText.IntToString(LocId(f, start + 2 * (n - 1)))]
  }

  /** m consecutive cells from byte `p` on. */
  function Words(f: seq<byte>, p: nat, m: nat): (r: seq<Word>)
    requires p + 4 * m <= |f|
    ensures |r| == m
  {
    seq(m, l requires 0 <= l < m => WordAt(f, p + 4 * l))
  }

  function Min(a: int, b: int): int { if a <= b then a else b }

  /** One step record at `p`: the 2-byte index, skipped, then np.fromfile(f, np.float32, nlocs)
      stored into the row. fromfile returns the whole cells that are left, at most nlocs; when
      it comes up short it has taken the rest of the file. A result with nlocs cells fills the
      row, a single cell is broadcast across it, and any other length is refused. With
      `whole`, a record cut short by the end of the file fails instead. */
  function Record(f: seq<byte>, nlocs: nat, p: nat, whole: bool): (r: Result<(seq<Word>, nat), Error>)
    requires p <= |f|
    ensures r.Ok? ==> |r.value.0| == nlocs && r.value.1 <= |f|
  {
    if whole && p + 2 + 4 * nlocs > |f| then Err(ShortRead)
    else
      var q := Clamp(p + 2, |f|);
      var m := Min(nlocs, (|f| - q) / 4);
      if m == nlocs then Ok((Words(f, q, m), q + 4 * nlocs))
      else if m == 1 then Ok((seq(nlocs, _ => WordAt(f, q)), |f|))
      else Err(ShapeMismatch)
  }

  /** The first n step records from byte `start` on, and the cursor after them. */
  function Records(f: seq<byte>, nlocs: nat, start: nat, n: nat, whole: bool): (r: Result<(seq<seq<Word>>, nat), Error>)
    requires start <= |f|
    ensures r.Ok? ==> |r.value.0| == n && r.value.1 <= |f|
    ensures r.Ok? ==> forall i :: 0 <= i < n ==> |r.value.0[i]| == nlocs
  {
    if n == 0 then Ok(([], start))
    else
      match Records(f, nlocs, start, n - 1, whole)
      case Err(e) => Err(e)
      case Ok((rows, p)) =>
        match Record(f, nlocs, p, whole)
        case Err(e) => Err(e)
        case Ok((row, p')) => Ok((rows + [row], p'))
  }

  /** read(): the frame, or the first failure in the order the reader meets it. */
  function Decode(f: seq<byte>): Result<Frame, Error> { DecodeWith(f, false) }

  /** The reader with every record and padding read required to be whole. */
  function DecodeStrict(f: seq<byte>): Result<Frame, Error> { DecodeWith(f, true) }

  function DecodeWith(f: seq<byte>, whole: bool): Result<Frame, Error>
  {
    if |f| < 30 then Err(ShortRead)
    else
      var sh := HeaderShape(f);
      var tell := Clamp(240 + 40 * Max0(sh.series), |f|);
      if sh.Done() != tell then Err(LayoutMismatch)
      else
        match Skip(tell, sh.IdStart() - sh.Done(), |f|, whole)
        case Err(e) => Err(e)
        case Ok(p) => DecodeIds(f, sh, p, whole)
  }

  /** The reader from the location ids on, with the cursor at `p`. */
  function DecodeIds(f: seq<byte>, sh: Shape, p: nat, whole: bool): Result<Frame, Error>
    requires p <= |f|
  {
    if sh.nlocs > 0 && p + 2 * sh.nlocs > |f| then Err(ShortRead)
    else
      var tell := p + 2 * Max0(sh.nlocs);
      var ndone := sh.IdStart() + 2 * sh.nlocs;
      if ndone != tell then Err(LayoutMismatch)
      else
        match Skip(tell, sh.DataStart() - ndone, |f|, whole)
        case Err(e) => Err(e)
        case Ok(q) => DecodeSteps(f, sh, Ids(f, p, Max0(sh.nlocs)), q, whole)
  }

  /** The reader from the step records on, with the cursor at `q`. */
  function DecodeSteps(f: seq<byte>, sh: Shape, ids: seq<string>, q: nat, whole: bool): Result<Frame, Error>
    requires q <= |f|
  {
    if sh.steps < 0 || sh.nlocs < 0 then Err(NegativeDimension)
    else
      match Records(f, sh.nlocs, q, sh.steps, whole)
      case Err(e) => Err(e)
      case Ok((rows, end)) =>
        if |f| - end != 0 then Err(LayoutMismatch)
        else Ok(Frame(Labels(sh.steps), ids, rows))
  }

  // ---- The reader, advancing a cursor through the file ----

  /** The location-id loop: nlocs 2-byte ids from the cursor, each corrected to unsigned;
      `ok` is false when the file ends before the last id. */
  method ReadIds(f: seq<byte>, start: nat, nlocs: int) returns (ids: seq<string>, ok: bool, pos: nat)
    requires start <= |f|
    ensures ok <==> nlocs <= 0 || start + 2 * nlocs <= |f|
    ensures ok ==> start + 2 * Max0(nlocs) <= |f| && ids == Ids(f, start, Max0(nlocs))
    ensures ok ==> pos == start + 2 * Max0(nlocs)
  {
    ids := [];
    pos := start;
    var j := 0;
    while j < nlocs
      invariant 0 <= j <= Max0(nlocs)
      invariant pos == start + 2 * j <= |f|
      invariant ids == Ids(f, start, j)
    {
      if pos + 2 > |f| {
        return ids, false, pos;
      }
      var k := I16At(f, pos);
      if k < 0 {
        k := k + 65536;
      }
      ids := ids + [PyText.IntToString(k)];
      pos := pos + 2;
      j := j + 1;
    }
    return ids, true, pos;
  }

  /** np.fromfile(f, np.float32, nlocs) at the cursor: the whole cells left, at most nlocs;
      a short result leaves the cursor at the end of the file. */
  method FromFile(f: seq<byte>, q: nat, nlocs: nat) returns (got: seq<Word>, pos: nat)
    requires q <= |f|
    ensures q + 4 * Min(nlocs, (|f| - q) / 4) <= |f|
    ensures got == Words(f, q, Min(nlocs, (|f| - q) / 4))
    ensures pos == if |got| == nlocs then q + 4 * nlocs else |f|
  {
    got := [];
    pos := q;
    while |got| < nlocs && pos + 4 <= |f|
      invariant pos == q + 4 * |got| <= |f|
      invariant |got| <= nlocs
      invariant got == Words(f, q, |got|)
    {
      got := got + [WordAt(f, pos)];
      pos := pos + 4;
    }
    assert |got| == Min(nlocs, (|f| - q) / 4);
    if |got| < nlocs {
      pos := |f|;
    }
  }

  /** One step record read into row ts of the frame: its index skipped, then its cells, or
      the single cell that was left broadcast across the row. */
  method ReadRecord(data: array2<Word>, f: seq<byte>, ts: nat, p: nat) returns (err: Option<Error>, pos: nat)
    requires ts < data.Length0 && p <= |f|
    modifies data
    ensures err.None? <==> Record(f, data.Length1, p, false).Ok?
    ensures err.Some? ==> Record(f, data.Length1, p, false) == Err(err.value)
    ensures err.None? ==> pos == Record(f, data.Length1, p, false).value.1
    ensures err.None? ==> forall l :: 0 <= l < data.Length1 ==> data[ts, l] == Record(f, data.Length1, p, false).value.0[l]
    ensures forall i, l :: 0 <= i < data.Length0 && i != ts && 0 <= l < data.Length1 ==> data[i, l] == old(data[i, l])
  {
    var q := Clamp(p + 2, |f|);
    var got;
    got, pos := FromFile(f, q, data.Length1);
    if |got| != data.Length1 && |got| != 1 {
      return Some(ShapeMismatch), pos;
    }
    var l := 0;
    while l < data.Length1
      invariant 0 <= l <= data.Length1
      invariant forall l' :: 0 <= l' < l ==> data[ts, l'] == if |got| == data.Length1 then got[l'] else got[0]
      invariant forall i, l' :: 0 <= i < data.Length0 && i != ts && 0 <= l' < data.Length1 ==> data[i, l'] == old(data[i, l'])
    {
      data[ts, l] := if |got| == data.Length1 then got[l] else got[0];
      l := l + 1;
    }
    return None, pos;
  }

  /** Once a record fails, the later ones are not read. */
  lemma {:induction false} RecordsFailed(f: seq<byte>, nlocs: nat, start: nat, m: nat, n: nat, whole: bool)
    requires start <= |f| && m <= n && Records(f, nlocs, start, m, whole).Err?
    ensures Records(f, nlocs, start, n, whole) == Records(f, nlocs, start, m, whole)
  {
    if m < n {
      RecordsFailed(f, nlocs, start, m, n - 1, whole);
    }
  }

  /** The step loop: `steps` records from the cursor, row by row. */
  method ReadSteps(f: seq<byte>, start: nat, steps: nat, nlocs: nat) returns (r: Result<(seq<seq<Word>>, nat), Error>)
    requires start <= |f|
    ensures r == Records(f, nlocs, start, steps, false)
  {
    var data := new Word[steps, nlocs];
    var pos := start;
    var ts := 0;
    while ts < steps
      invariant 0 <= ts <= steps && data.Length0 == steps && data.Length1 == nlocs
      invariant Records(f, nlocs, start, ts, false).Ok?
      invariant pos == Records(f, nlocs, start, ts, false).value.1
      invariant forall i, l :: 0 <= i < ts && 0 <= l < nlocs ==>
        data[i, l] == Records(f, nlocs, start, ts, false).value.0[i][l]
    {
      var err, next := ReadRecord(data, f, ts, pos);
      if err.Some? {
        RecordsFailed(f, nlocs, start, ts + 1, steps, false);
        return Err(err.value);
      }
      pos := next;
      ts := ts + 1;
    }
    var rows := seq(steps, i requires 0 <= i < steps reads data =>
      seq(nlocs, l requires 0 <= l < nlocs reads data => data[i, l]));
    var spec := Records(f, nlocs, start, steps, false).value.0;
    forall i | 0 <= i < steps
      ensures rows[i] == spec[i]
    {
      assert forall l | 0 <= l < nlocs :: rows[i][l] == spec[i][l];
    }
    assert rows == spec;
    r := Ok((rows, pos));
    assert r == Ok(Records(f, nlocs, start, steps, false).value);
  }

  /** The preamble: three 8-byte fields, the counts, 90 bytes of names and units, the
      series ids and 120 bytes of scale definitions; `ok` is false when the counts are cut off. */
  method ReadPreamble(f: seq<byte>) returns (sh: Shape, ok: bool, pos: nat)
    ensures ok <==> 30 <= |f|
    ensures ok ==> sh == HeaderShape(f) && pos == Clamp(240 + 40 * Max0(sh.series), |f|)
  {
    pos := 0;
    pos := Clamp(pos + 8, |f|);
    ReadAtCursor(f, 8, 8);
    pos := Clamp(pos + 8, |f|);
    ReadAtCursor(f, 16, 8);
    pos := Clamp(pos + 8, |f|);
    if pos + 6 > |f| {
      return Shape(0, 0, 0), false, pos;
    }
    sh := Shape(I16At(f, pos), I16At(f, pos + 2), I16At(f, pos + 4));
    pos := Clamp(pos + 6 + 10 + 40 + 8 + 32, |f|);
    var i := 0;
    while i < sh.series
      invariant 0 <= i <= Max0(sh.series)
      invariant pos == Clamp(120 + 40 * i, |f|)
    {
      ReadAtCursor(f, 120 + 40 * i, 40);
      pos := Clamp(pos + 40, |f|);
      i := i + 1;
    }
    ReadAtCursor(f, 120 + 40 * Max0(sh.series), 120);
    pos := Clamp(pos + 26 + 14 + 40 + 8 + 32, |f|);
    return sh, true, pos;
  }

  /** read(mpxfile): the preamble, the first padding, the location ids, the second padding
      and the step records, with the cursor checks of the source. */
  method Read(f: seq<byte>) returns (r: Result<Frame, Error>)
    ensures r == Decode(f)
  {
    var sh, ok, pos := ReadPreamble(f);
    if !ok {
      return Err(ShortRead);
    }
    var ndone := sh.Done();
    var nbytes := sh.IdStart();
    if ndone != pos {
      return Err(LayoutMismatch);
    }
    var skip := Skip(pos, nbytes - ndone, |f|, false);
    if skip.Err? {
      return Err(skip.error);
    }
    r := ReadIdsAndSteps(f, sh, skip.value);
  }

  /** The reader from the location ids on. */
  method ReadIdsAndSteps(f: seq<byte>, sh: Shape, start: nat) returns (r: Result<Frame, Error>)
    requires start <= |f|
    ensures r == DecodeIds(f, sh, start, false)
  {
    var ids, ok, pos := ReadIds(f, start, sh.nlocs);
    if !ok {
      return Err(ShortRead);
    }
    var ndone := sh.IdStart();
    ndone := ndone + sh.nlocs * 2;
    if ndone != pos {
      return Err(LayoutMismatch);
    }
    var nbytes := sh.DataStart();
    var skip := Skip(pos, nbytes - ndone, |f|, false);
    if skip.Err? {
      return Err(skip.error);
    }
    pos := skip.value;
    if sh.steps < 0 || sh.nlocs < 0 {
      return Err(NegativeDimension);
    }
    var rows := ReadSteps(f, pos, sh.steps, sh.nlocs);
    if rows.Err? {
      return Err(rows.error);
    }
    if |f| - rows.value.1 != 0 {
      return Err(LayoutMismatch);
    }
    return Ok(Frame(Labels(sh.steps), ids, rows.value.0));
  }

  // ---- The layout arithmetic ----

  /** With a record size above zero, the first padding ends on a record boundary more than
      40 bytes past the preamble, so the skip is positive; the second padding ends one record
      later, so after the ids it skips 2 + 2 * nlocs bytes to the next boundary. */
  lemma Padding(sh: Shape)
    requires 0 <= sh.nlocs
    ensures 0 < sh.RecSize()
    ensures sh.Done() + 40 < sh.IdStart()
    ensures sh.DataStart() == sh.IdStart() + sh.RecSize()
    ensures sh.DataStart() - (sh.IdStart() + 2 * sh.nlocs) == 2 + 2 * sh.nlocs
    ensures sh.IdStart() % sh.RecSize() == 0 && sh.DataStart() % sh.RecSize() == 0
  {
    var r := sh.RecSize();
    var q := FloorDiv(40 * (7 + sh.series), r);
    FloorDivBounds(40 * (7 + sh.series), r);
    assert sh.IdStart() == (q + 1) * r == q * r + r;
    assert sh.DataStart() == (q + 2) * r == q * r + r + r;
    MulMod(q + 1, r);
    MulMod(q + 2, r);
  }

  /** A location id is the unsigned reading of its two bytes, so it lies in [0, 65535]. */
  lemma LocIdIsUnsigned(f: seq<byte>, off: int)
    requires 0 <= off && off + 2 <= |f|
    ensures LocId(f, off) == U16At(f, off)
    ensures 0 <= LocId(f, off) < 65536
  {
  }

  // ---- Files of the nominal size ----

  /** A file exactly as long as its header says: the counts are not negative and the step
      records fill the file from the second padding to its end. */
  predicate Exact(f: seq<byte>)
  {
    30 <= |f| &&
    var sh := HeaderShape(f);
    0 <= sh.nlocs && 0 <= sh.steps && 0 <= sh.series &&
    |f| == sh.DataStart() + sh.steps * sh.RecSize()
  }

  /** The reference reading of a step area: the cells of row t sit right after the 2-byte
      index of record t. */
  function RowsAt(f: seq<byte>, nlocs: nat, d: nat, n: nat): (r: seq<seq<Word>>)
    requires d + n * (2 + 4 * nlocs) <= |f|
    ensures |r| == n
  {
    seq(n, t requires 0 <= t < n => (RowStep(nlocs, d, t, n); Words(f, d + t * (2 + 4 * nlocs) + 2, nlocs)))
  }

  lemma RowStep(nlocs: nat, d: nat, t: int, n: nat)
    requires 0 <= t < n
    ensures d + t * (2 + 4 * nlocs) + 2 + 4 * nlocs <= d + n * (2 + 4 * nlocs)
  {
    MulLeft(t + 1, n, 2 + 4 * nlocs);
  }

  /** Records that all fit in the file are read whole, with or without the check. */
  lemma {:induction false} RecordsExact(f: seq<byte>, nlocs: nat, d: nat, n: nat, whole: bool)
    requires d + n * (2 + 4 * nlocs) <= |f|
    ensures Records(f, nlocs, d, n, whole) == Ok((RowsAt(f, nlocs, d, n), d + n * (2 + 4 * nlocs)))
  {
    var w := 2 + 4 * nlocs;
    if n > 0 {
      MulLeft(n - 1, n, w);
      assert (n - 1) * w + w == n * w;
      RecordsExact(f, nlocs, d, n - 1, whole);
      var p := d + (n - 1) * w;
      assert p + w <= |f|;
      assert Record(f, nlocs, p, whole) == Ok((Words(f, p + 2, nlocs), p + w));
      assert RowsAt(f, nlocs, d, n) == RowsAt(f, nlocs, d, n - 1) + [Words(f, p + 2, nlocs)];
    }
  }

  /** Records read with the check advance the cursor by one record size each. */
  lemma {:induction false} RecordsWhole(f: seq<byte>, nlocs: nat, d: nat, n: nat)
    requires d <= |f| && Records(f, nlocs, d, n, true).Ok?
    ensures Records(f, nlocs, d, n, true).value.1 == d + n * (2 + 4 * nlocs)
  {
    if n > 0 {
      RecordsWhole(f, nlocs, d, n - 1);
      assert (n - 1) * (2 + 4 * nlocs) + (2 + 4 * nlocs) == n * (2 + 4 * nlocs);
    }
  }

  /** The frame a file of the nominal size holds: rows 1..steps, the unsigned location ids
      and the cells at their record offsets. */
  function ExactFrame(f: seq<byte>): Frame
    requires Exact(f)
  {
    var sh := HeaderShape(f);
    Padding(sh);
    MulLeft(0, sh.steps, sh.RecSize());
    Frame(Labels(sh.steps),
          UnsignedIds(f, sh.IdStart(), sh.nlocs),
          RowsAt(f, sh.nlocs, sh.DataStart(), sh.steps))
  }

  /** The reference reading of the ids: str() of the unsigned 16-bit value of each. */
  function UnsignedIds(f: seq<byte>, start: nat, n: nat): (r: seq<string>)
    requires start + 2 * n <= |f|
    ensures |r| == n
  {
    seq(n, j requires 0 <= j < n => PyText.IntToString(U16At(f, start + 2 * j)))
  }

  lemma {:induction false} IdsAre(f: seq<byte>, start: nat, n: nat)
    requires start + 2 * n <= |f|
    ensures Ids(f, start, n) == UnsignedIds(f, start, n)
  {
    if n > 0 {
      IdsAre(f, start, n - 1);
    }
  }

  lemma StepsExact(f: seq<byte>, sh: Shape, q: nat, whole: bool)
    requires Exact(f) && sh == HeaderShape(f) && q == sh.DataStart() && q <= |f|
    ensures DecodeSteps(f, sh, ExactFrame(f).columns, q, whole) == Ok(ExactFrame(f))
  {
    Padding(sh);
    MulLeft(0, sh.steps, sh.RecSize());
    RecordsExact(f, sh.nlocs, q, sh.steps, whole);
  }

  lemma IdsExact(f: seq<byte>, sh: Shape, p: nat, whole: bool)
    requires Exact(f) && sh == HeaderShape(f) && p == sh.IdStart() && p <= |f|
    ensures DecodeIds(f, sh, p, whole) == Ok(ExactFrame(f))
  {
    Padding(sh);
    MulLeft(0, sh.steps, sh.RecSize());
    IdsAre(f, p, sh.nlocs);
    StepsExact(f, sh, sh.DataStart(), whole);
  }

  /** A file of the nominal size is read, with or without the whole-read checks, as the
      frame of its layout. */
  lemma DecodeExact(f: seq<byte>, whole: bool)
    requires Exact(f)
    ensures DecodeWith(f, whole) == Ok(ExactFrame(f))
  {
    var sh := HeaderShape(f);
    Padding(sh);
    MulLeft(0, sh.steps, sh.RecSize());
    var p := sh.IdStart();
    assert sh.Done() == Clamp(240 + 40 * Max0(sh.series), |f|);
    assert Skip(sh.Done(), p - sh.Done(), |f|, whole) == Ok(p);
    IdsExact(f, sh, p, whole);
  }

  /** With the whole-read checks, a file that is read is exactly of the nominal size: the
      end-of-file check then catches every truncation. */
  lemma StrictIsExact(f: seq<byte>)
    requires DecodeStrict(f).Ok?
    ensures Exact(f)
  {
    var sh := HeaderShape(f);
    assert 0 <= sh.nlocs && 0 <= sh.steps;
    Padding(sh);
    var p := Skip(Clamp(240 + 40 * Max0(sh.series), |f|), sh.IdStart() - sh.Done(), |f|, true).value;
    assert p == sh.IdStart();
    var q := Skip(p + 2 * sh.nlocs, sh.DataStart() - (sh.IdStart() + 2 * sh.nlocs), |f|, true).value;
    assert q == sh.DataStart();
    assert DecodeSteps(f, sh, Ids(f, p, sh.nlocs), q, true).Ok?;
    assert Records(f, sh.nlocs, q, sh.steps, true).Ok?;
    RecordsWhole(f, sh.nlocs, q, sh.steps);
    assert |f| == Records(f, sh.nlocs, q, sh.steps, true).value.1;
  }

  // ---- A truncated file that the end-of-file check lets through ----

  /** An MPX file with two locations, one step and no series, cut off 4 bytes into the cells
      of its only record: the record holds one cell (bytes 1, 2, 3, 4) where it should hold two. */
  function CutFile(): (f: seq<byte>)
    ensures |f| == 306
  {
    seq(306, i requires 0 <= i < 306 => if i == 24 then 2 else if i == 26 then 1 else if 302 <= i then (i - 301) as byte else 0)
  }

  lemma CutFileHeader()
    ensures HeaderShape(CutFile()) == Shape(2, 1, 0)
    ensures HeaderShape(CutFile()).IdStart() == 290 && HeaderShape(CutFile()).DataStart() == 300
    ensures Ids(CutFile(), 290, 2) == ["0", "0"]
  {
    var f := CutFile();
    assert f[24] == 2 && f[25] == 0 && f[26] == 1 && f[27] == 0 && f[28] == 0 && f[29] == 0;
    assert f[290] == 0 && f[291] == 0 && f[292] == 0 && f[293] == 0;
    assert PyText.IntToString(0) == "0";
    assert LocId(f, 290) == 0 && LocId(f, 292) == 0;
  }

  lemma CutFileRecords()
    ensures Records(CutFile(), 2, 300, 1, false) == Ok(([[Word(1, 2, 3, 4), Word(1, 2, 3, 4)]], 306))
    ensures Records(CutFile(), 2, 300, 1, true) == Err(ShortRead)
  {
    var f := CutFile();
    var w := Word(1, 2, 3, 4);
    assert f[302] == 1 && f[303] == 2 && f[304] == 3 && f[305] == 4;
    assert WordAt(f, 302) == w;
    var rec := Record(f, 2, 300, false);
    assert rec.Ok? && rec.value.1 == 306;
    assert rec.value.0[0] == w && rec.value.0[1] == w;
    assert rec.value.0 == [w, w];
    assert Records(f, 2, 300, 0, false) == Ok(([], 300));
    assert [] + [[w, w]] == [[w, w]];
    assert Records(f, 2, 300, 0, true) == Ok(([], 300));
    assert Record(f, 2, 300, true) == Err(ShortRead);
  }

  /** read() accepts CutFile and fills the whole row with copies of the one cell that is
      there; the reader with whole-read checks refuses it. */
  lemma CutFileAccepted()
    ensures !Exact(CutFile())
    ensures Decode(CutFile()) == Ok(Frame([1], ["0", "0"], [[Word(1, 2, 3, 4), Word(1, 2, 3, 4)]]))
    ensures DecodeStrict(CutFile()) == Err(ShortRead)
  {
    CutFileHeader();
    CutFileRecords();
    assert Labels(1) == [1];
  }
}
