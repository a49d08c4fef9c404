/** The SOBEK HIS binary format: a 120-byte header, the 40-byte time-info block, the counts
    noout (parameters) and noseg (stations) as little-endian i32, noout 20-byte parameter
    names, noseg station records (an i32 number and a 20-byte name), and then one record per
    time step: an i32 tick followed, station by station, by the noout float32 cells of that
    station. The number of steps is not stored; the reader derives it from the file size. */
module His {
  import opened Results
  import opened Bytes
  import opened Arith
  import PyText
  import opened TimeInfo
  import Sidecar

  /** What a HIS file holds: times are seconds after t0, and data[p][t][s] is the cell of
      parameter p at step t and station s. */
  datatype HisData = HisData(header: string, t0: DateTime, scu: int,
                             params: seq<string>, locnrs: seq<int>, locs: seq<string>,
                             times: seq<int>, data: seq<seq<seq<Word>>>)

  /** The counts of a file whose step records can be read, and the offsets they imply. */
  datatype Geometry = Geometry(noout: nat, noseg: nat, notim: nat)
  {
    function DataStart(): nat { 168 + 20 * noout + 24 * noseg }
    function StepSize(): nat { 4 + 4 * (noout * noseg) }
    function StepStart(t: int): int { DataStart() + t * StepSize() }
    function CellOffset(t: int, s: int, p: int): int { StepStart(t) + 4 + 4 * (s * noout + p) }
    function Size(): (r: nat)
      ensures DataStart() <= r
    {
      DataStart() + notim * StepSize()
    }
  }

  function StepCount(size: int, noout: int, noseg: int): int
    requires noout * noseg + 1 != 0
  {
    TruncDiv(size - 168 - 20 * noout - 24 * noseg, 4 * (noout * noseg + 1))
  }

  /** The right-stripped 20-byte name field at `off`, as far as the file reaches. */
  function NameAt(f: seq<byte>, off: int): seq<byte>
  {
    RStrip(Slice(f, off, off + 20))
  }

  function ParamName(f: seq<byte>, i: int): seq<byte> { NameAt(f, 168 + 20 * i) }

  /** Where the station records start, after the parameter names. */
  function StationBase(noout: int): nat { 168 + 20 * Max0(noout) }

  /** Where the record of station j starts. */
  function StationStart(sb: nat, j: int): int { sb + 24 * j }

  predicate HasStationNumber(f: seq<byte>, sb: nat, j: int)
  {
    0 <= j && StationStart(sb, j) + 4 <= |f|
  }

  function StationName(f: seq<byte>, sb: nat, j: int): seq<byte>
  {
    NameAt(f, StationStart(sb, j) + 4)
  }

  predicate ParamOk(f: seq<byte>, i: int) { IsAscii(ParamName(f, i)) }

  predicate ParamsAscii(f: seq<byte>, noout: int)
  {
    forall i | 0 <= i < noout :: ParamOk(f, i)
  }

  /** The first failure of the station loop: a station whose number is read and whose name is
      not text, or else a station number cut off by the end of the file. */
  function StationError(f: seq<byte>, sb: nat, noseg: int): Option<Error>
  {
    if exists j | 0 <= j < noseg :: HasStationNumber(f, sb, j) && !IsAscii(StationName(f, sb, j))
    then Some(BadText)
    else if noseg > 0 && !HasStationNumber(f, sb, noseg - 1) then Some(ShortRead)
    else None
  }

  /** The decoded parameter names, in file order. */
  function ParamNames(f: seq<byte>, n: nat): (r: seq<string>)
    ensures |r| == n
  {
    if n == 0 then [] else ParamNames(f, n - 1) + [ToText(ParamName(f, n - 1))]
  }

  /** The decoded station names, in file order. */
  function StationNames(f: seq<byte>, sb: nat, n: nat): (r: seq<string>)
    ensures |r| == n
  {
    if n == 0 then [] else StationNames(f, sb, n - 1) + [ToText(StationName(f, sb, n - 1))]
  }

  /** The station numbers, in file order. */
  function StationNumbers(f: seq<byte>, sb: nat, n: nat): (r: seq<int>)
    requires n == 0 || HasStationNumber(f, sb, n - 1)
    ensures |r| == n
  {
    if n == 0 then [] else
      assert n - 1 == 0 || HasStationNumber(f, sb, n - 2);
      StationNumbers(f, sb, n - 1) + [I32At(f, StationStart(sb, n - 1))]
  }

  lemma {:induction false} ParamNamesAt(f: seq<byte>, n: nat, i: nat)
    requires i < n
    ensures ParamNames(f, n)[i] == ToText(ParamName(f, i))
  {
    if i < n - 1 { ParamNamesAt(f, n - 1, i); }
  }

  lemma {:induction false} StationNamesAt(f: seq<byte>, sb: nat, n: nat, j: nat)
    requires j < n
    ensures StationNames(f, sb, n)[j] == ToText(StationName(f, sb, j))
  {
    if j < n - 1 { StationNamesAt(f, sb, n - 1, j); }
  }

  lemma {:induction false} StationNumbersAt(f: seq<byte>, sb: nat, n: nat, j: nat)
    requires j < n && HasStationNumber(f, sb, n - 1)
    ensures HasStationNumber(f, sb, j)
    ensures StationNumbers(f, sb, n)[j] == I32At(f, StationStart(sb, j))
  {
    if j < n - 1 { StationNumbersAt(f, sb, n - 1, j); }
  }

  /** The step records lie inside the file (there may be none). */
  predicate StepsInside(f: seq<byte>, g: Geometry) { g.notim == 0 || g.Size() <= |f| }

  lemma {:induction false} StepInside(g: Geometry, t: int)
    requires 0 <= t < g.notim
    ensures g.DataStart() <= g.StepStart(t)
    ensures g.StepStart(t) + g.StepSize() <= g.Size()
  {
    assert (t + 1) * g.StepSize() <= g.notim * g.StepSize() by {
      MulLeft(t + 1, g.notim, g.StepSize());
    }
    assert t * g.StepSize() >= 0 by { MulLeft(0, t, g.StepSize()); }
  }

  lemma {:induction false} CellInside(g: Geometry, t: int, s: int, p: int)
    requires 0 <= t < g.notim && 0 <= s < g.noseg && 0 <= p < g.noout
    ensures g.StepStart(t) + 4 <= g.CellOffset(t, s, p)
    ensures g.CellOffset(t, s, p) + 4 <= g.StepStart(t) + g.StepSize()
    ensures g.CellOffset(t, s, p) + 4 <= g.Size()
  {
    StepInside(g, t);
    assert s * g.noout >= 0 by { MulLeft(0, s, g.noout); }
    assert s * g.noout + p + 1 <= g.noout * g.noseg by {
      MulLeft(s + 1, g.noseg, g.noout);
    }
  }

  /** The tick of step t, scaled to seconds after t0. */
  function Times(f: seq<byte>, g: Geometry, scu: int): (r: seq<int>)
    requires StepsInside(f, g)
    ensures |r| == g.notim
  {
    seq(g.notim, t requires 0 <= t < g.notim =>
      (StepInside(g, t); I32At(f, g.StepStart(t)) * scu))
  }

  /** The cell of parameter p at step t and station s. */
  function Cell(f: seq<byte>, g: Geometry, t: int, s: int, p: int): Word
    requires StepsInside(f, g)
    requires 0 <= t < g.notim && 0 <= s < g.noseg && 0 <= p < g.noout
  {
    CellInside(g, t, s, p);
    WordAt(f, g.CellOffset(t, s, p))
  }

  function Cube(f: seq<byte>, g: Geometry): seq<seq<seq<Word>>>
    requires StepsInside(f, g)
  {
    seq(g.noout, p requires 0 <= p < g.noout =>
      seq(g.notim, t requires 0 <= t < g.notim =>
        seq(g.noseg, s requires 0 <= s < g.noseg => Cell(f, g, t, s, p))))
  }

  /** Whatever the size, a step count that is not negative never reaches past the end of the
      file: the division rounds toward zero. */
  lemma StepsFit(f: seq<byte>, noout: nat, noseg: nat)
    requires StepCount(|f|, noout, noseg) >= 0
    ensures StepsInside(f, Geometry(noout, noseg, StepCount(|f|, noout, noseg)))
  {
    var g := Geometry(noout, noseg, StepCount(|f|, noout, noseg));
    TruncDivFacts(|f| - 168 - 20 * noout - 24 * noseg, 4 * (noout * noseg + 1));
    assert g.StepSize() == 4 * (noout * noseg + 1);
  }

  /** read(): the HIS file decoded, or the first failure in the order the reader meets it. */
  function Decode(f: seq<byte>): Result<HisData, Error>
  {
    if |f| == 0 then Err(EmptyFile)
    else if !IsAscii(Slice(f, 0, 120)) || !IsAscii(Slice(f, 120, 160))
    then Err(BadText)
    else
      var ti := ToText(Slice(f, 120, 160));
      var t0 := ParseDateTime(DateField(ti));
      var scu := ParseUnit(ti);
      if t0.None? || scu.None? then Err(BadTimeInfo)
      else DecodeBody(f, ToText(Slice(f, 0, 120)), t0.value, scu.value)
  }

  /** The part of the reader after the time-info block. */
  function DecodeBody(f: seq<byte>, header: string, t0: DateTime, scu: int): Result<HisData, Error>
  {
    if |f| < 168 then Err(ShortRead)
    else
      var noout := I32At(f, 160);
      var noseg := I32At(f, 164);
      if noout * noseg + 1 == 0 then Err(ZeroDivision)
      else
        var notim := StepCount(|f|, noout, noseg);
        if !ParamsAscii(f, noout) then Err(BadText)
        else if StationError(f, StationBase(noout), noseg).Some? then Err(StationError(f, StationBase(noout), noseg).value)
        else if noout < 0 || noseg < 0 || notim < 0 then Err(NegativeDimension)
        else
          StepsFit(f, noout, noseg);
          Ok(Contents(f, Geometry(noout, noseg, notim), header, t0, scu))
  }

  /** The records of a file whose reads all succeed. */
  function Contents(f: seq<byte>, g: Geometry, header: string, t0: DateTime, scu: int): HisData
    requires StepsInside(f, g)
    requires StationError(f, StationBase(g.noout), g.noseg).None?
  {
    HisData(header, t0, scu,
            ParamNames(f, g.noout), StationNumbers(f, StationBase(g.noout), g.noseg),
            StationNames(f, StationBase(g.noout), g.noseg),
            Times(f, g, scu), Cube(f, g))
  }

  /** f.read(20).rstrip() at a cursor that stands at `off` or, past the end, at end of file. */
  method ReadName(f: seq<byte>, off: nat, pos: nat) returns (name: seq<byte>, next: nat)
    requires pos == Clamp(off, |f|)
    ensures name == NameAt(f, off)
    ensures next == Clamp(off + 20, |f|)
  {
    ReadAtCursor(f, off, 20);
    name := RStrip(Slice(f, pos, pos + 20));
    next := Clamp(pos + 20, |f|);
  }

  /** One parameter name, decoded; `good` is false when the field is not text. */
  method ReadParam(f: seq<byte>, i: nat, off: nat, pos: nat) returns (name: string, good: bool, next: nat)
    requires off == 168 + 20 * i && pos == Clamp(off, |f|)
    ensures good <==> ParamOk(f, i)
    ensures good ==> name == ToText(ParamName(f, i))
    ensures next == Clamp(off + 20, |f|)
  {
    var raw;
    raw, next := ReadName(f, off, pos);
    good := IsAscii(raw);
    name := if good then ToText(raw) else [];
  }

  /** The parameter-name loop: `noout` 20-byte fields read from the cursor at byte 168, each
      right-stripped and decoded; `ok` is false at the first field that is not text. */
  method ReadParams(f: seq<byte>, noout: int) returns (names: seq<string>, ok: bool, pos: nat)
    requires 168 <= |f|
    ensures ok <==> ParamsAscii(f, noout)
    ensures ok ==> names == ParamNames(f, Max0(noout))
    ensures ok ==> pos == Clamp(StationBase(noout), |f|)
  {
    names := [];
    pos := 168;
    var i, off := 0, 168;
    while i < noout
      invariant 0 <= i <= Max0(noout) && off == 168 + 20 * i
      invariant pos == Clamp(off, |f|)
      invariant ParamsAscii(f, i)
      invariant names == ParamNames(f, i)
    {
      var name, good;
      name, good, pos := ReadParam(f, i, off, pos);
      if !good {
        return names, false, pos;
      }
      ParamsAsciiNext(f, i);
      assert names + [name] == ParamNames(f, i + 1);
      names := names + [name];
      i, off := i + 1, off + 20;
    }
    assert off == StationBase(noout);
    ok := true;
  }

  lemma ParamsAsciiNext(f: seq<byte>, i: nat)
    requires ParamsAscii(f, i) && ParamOk(f, i)
    ensures ParamsAscii(f, i + 1)
  {
  }

  lemma StationNumbersBefore(f: seq<byte>, sb: nat, j: int, k: int)
    requires 0 <= k <= j && HasStationNumber(f, sb, j)
    ensures HasStationNumber(f, sb, k)
  {
  }

  /** Station k is read without error: its number is complete and its name is text. */
  predicate StationOk(f: seq<byte>, sb: nat, k: int)
  {
    HasStationNumber(f, sb, k) && IsAscii(StationName(f, sb, k))
  }

  /** Stations 0 .. n-1 are read without error. */
  predicate StationsOk(f: seq<byte>, sb: nat, n: nat)
  {
    n == 0 || (StationsOk(f, sb, n - 1) && StationOk(f, sb, n - 1))
  }

  lemma {:induction false} StationsOkAt(f: seq<byte>, sb: nat, n: nat, k: int)
    requires StationsOk(f, sb, n) && 0 <= k < n
    ensures StationOk(f, sb, k)
  {
    if k < n - 1 { StationsOkAt(f, sb, n - 1, k); }
  }

  /** The station loop stops with a short read at station j when the stations before it were
      read and the cursor has fewer than four bytes left. */
  lemma ShortStation(f: seq<byte>, sb: nat, noseg: int, j: int, pos: int)
    requires 0 <= j < noseg
    requires StationsOk(f, sb, j)
    requires pos == Clamp(StationStart(sb, j), |f|) && pos + 4 > |f|
    ensures StationError(f, sb, noseg) == Some(ShortRead)
  {
    assert !HasStationNumber(f, sb, j);
    if HasStationNumber(f, sb, noseg - 1) {
      StationNumbersBefore(f, sb, noseg - 1, j);
    }
    forall k | 0 <= k < noseg && HasStationNumber(f, sb, k)
      ensures IsAscii(StationName(f, sb, k))
    {
      if k >= j {
        StationNumbersBefore(f, sb, k, j);
      } else {
        StationsOkAt(f, sb, j, k);
      }
    }
  }

  lemma BadStation(f: seq<byte>, sb: nat, noseg: int, j: int)
    requires 0 <= j < noseg && HasStationNumber(f, sb, j) && !IsAscii(StationName(f, sb, j))
    ensures StationError(f, sb, noseg) == Some(BadText)
  {
  }

  lemma StationsRead(f: seq<byte>, sb: nat, noseg: nat)
    requires StationsOk(f, sb, noseg)
    ensures StationError(f, sb, noseg) == None
  {
    forall j | 0 <= j < noseg
      ensures HasStationNumber(f, sb, j) && IsAscii(StationName(f, sb, j))
    {
      StationsOkAt(f, sb, noseg, j);
    }
    if noseg > 0 {
      StationsOkAt(f, sb, noseg, noseg - 1);
    }
  }

  /** One station record read at the cursor: the i32 number, then the 20-byte name. */
  method ReadStation(f: seq<byte>, sb: nat, j: nat, pos: nat)
      returns (nr: int, name: seq<byte>, next: nat, err: Option<Error>)
    requires pos == Clamp(StationStart(sb, j), |f|)
    ensures err == Some(ShortRead) <==> !HasStationNumber(f, sb, j)
    ensures err == Some(BadText) <==> HasStationNumber(f, sb, j) && !IsAscii(StationName(f, sb, j))
    ensures err == None || err == Some(ShortRead) || err == Some(BadText)
    ensures err.None? ==> StationOk(f, sb, j)
    ensures err.None? ==> nr == I32At(f, StationStart(sb, j)) && name == StationName(f, sb, j)
    ensures err.None? ==> next == Clamp(StationStart(sb, j + 1), |f|)
  {
    if pos + 4 > |f| {
      return 0, [], pos, Some(ShortRead);
    }
    assert pos == StationStart(sb, j);
    nr := I32At(f, pos);
    name, next := ReadName(f, StationStart(sb, j) + 4, pos + 4);
    assert StationStart(sb, j) + 4 + 20 == StationStart(sb, j + 1);
    err := if IsAscii(name) then None else Some(BadText);
  }

  /** The station loop: for each of `noseg` stations an i32 number, which must be complete,
      then a 20-byte name, which must be text. */
  method ReadStations(f: seq<byte>, sb: nat, noseg: int, start: nat)
      returns (locnrs: seq<int>, locs: seq<string>, err: Option<Error>, pos: nat)
    requires start == Clamp(sb, |f|)
    ensures err == StationError(f, sb, noseg)
    ensures err.None? ==> Max0(noseg) == 0 || HasStationNumber(f, sb, Max0(noseg) - 1)
    ensures err.None? ==> locnrs == StationNumbers(f, sb, Max0(noseg))
    ensures err.None? ==> locs == StationNames(f, sb, Max0(noseg))
    ensures err.None? ==> pos == Clamp(StationStart(sb, Max0(noseg)), |f|)
  {
    locnrs, locs, pos := [], [], start;
    var j := 0;
    while j < noseg
      invariant 0 <= j <= Max0(noseg)
      invariant pos == Clamp(StationStart(sb, j), |f|)
      invariant StationsOk(f, sb, j)
      invariant j == 0 || HasStationNumber(f, sb, j - 1)
      invariant locnrs == StationNumbers(f, sb, j)
      invariant locs == StationNames(f, sb, j)
    {
      var nr, name, next, e := ReadStation(f, sb, j, pos);
      if e == Some(ShortRead) {
        ShortStation(f, sb, noseg, j, pos);
        return locnrs, locs, e, pos;
      } else if e == Some(BadText) {
        BadStation(f, sb, noseg, j);
        return locnrs, locs, e, next;
      }
      locnrs := locnrs + [nr];
      locs := locs + [ToText(name)];
      pos := next;
      j := j + 1;
    }
    StationsRead(f, sb, Max0(noseg));
    err := None;
  }

  /** The cells written so far: every cell before (t, s, p) in reading order holds the bytes
      at its offset. */
  ghost predicate Filled(cube: array3<Word>, f: seq<byte>, g: Geometry, t: int, s: int, p: int)
    reads cube
    requires StepsInside(f, g)
    requires cube.Length0 == g.noout && cube.Length1 == g.notim && cube.Length2 == g.noseg
  {
    forall t', s', p' | 0 <= t' < g.notim && 0 <= s' < g.noseg && 0 <= p' < g.noout &&
      (t' < t || (t' == t && (s' < s || (s' == s && p' < p)))) ::
      cube[p', t', s'] == Cell(f, g, t', s', p')
  }

  lemma FilledNextStation(cube: array3<Word>, f: seq<byte>, g: Geometry, t: int, s: int)
    requires StepsInside(f, g)
    requires cube.Length0 == g.noout && cube.Length1 == g.notim && cube.Length2 == g.noseg
    requires Filled(cube, f, g, t, s, g.noout)
    ensures Filled(cube, f, g, t, s + 1, 0)
  {
  }

  lemma FilledNextStep(cube: array3<Word>, f: seq<byte>, g: Geometry, t: int)
    requires StepsInside(f, g)
    requires cube.Length0 == g.noout && cube.Length1 == g.notim && cube.Length2 == g.noseg
    requires Filled(cube, f, g, t, g.noseg, 0)
    ensures Filled(cube, f, g, t + 1, 0, 0)
  {
  }

  /** np.fromfile(f, np.float32, noout) stored in data[:, t, s]: the noout cells of station s
      in step t, read from the cursor. */
  method ReadColumn(cube: array3<Word>, f: seq<byte>, g: Geometry, t: int, s: int, start: int) returns (pos: int)
    requires StepsInside(f, g)
    requires cube.Length0 == g.noout && cube.Length1 == g.notim && cube.Length2 == g.noseg
    requires 0 <= t < g.notim && 0 <= s < g.noseg
    requires start == g.CellOffset(t, s, 0)
    requires Filled(cube, f, g, t, s, 0)
    modifies cube
    ensures pos == start + 4 * g.noout
    ensures Filled(cube, f, g, t, s + 1, 0)
    ensures forall p', t', s' | 0 <= p' < g.noout && 0 <= t' < g.notim && 0 <= s' < g.noseg && (t', s') != (t, s) ::
      cube[p', t', s'] == old(cube[p', t', s'])
  {
    pos := start;
    var p := 0;
    while p < g.noout
      invariant 0 <= p <= g.noout
      invariant pos == g.CellOffset(t, s, p)
      invariant Filled(cube, f, g, t, s, p)
      invariant forall p', t', s' | 0 <= p' < g.noout && 0 <= t' < g.notim && 0 <= s' < g.noseg && (t', s') != (t, s) ::
        cube[p', t', s'] == old(cube[p', t', s'])
    {
      CellInside(g, t, s, p);
      cube[p, t, s] := WordAt(f, pos);
      pos := pos + 4;
      p := p + 1;
    }
    FilledNextStation(cube, f, g, t, s);
  }

  /** One step record: the tick, then the column of every station. */
  method ReadStep(cube: array3<Word>, f: seq<byte>, g: Geometry, t: int, start: int) returns (tick: int, pos: int)
    requires StepsInside(f, g)
    requires cube.Length0 == g.noout && cube.Length1 == g.notim && cube.Length2 == g.noseg
    requires 0 <= t < g.notim && start == g.StepStart(t)
    requires Filled(cube, f, g, t, 0, 0)
    modifies cube
    ensures Filled(cube, f, g, t + 1, 0, 0)
    ensures g.StepStart(t) + 4 <= |f| && tick == I32At(f, g.StepStart(t))
    ensures pos == g.StepStart(t + 1)
  {
    StepInside(g, t);
    pos := start;
    tick := I32At(f, pos);
    pos := pos + 4;
    var s := 0;
    while s < g.noseg
      invariant 0 <= s <= g.noseg
      invariant pos == g.CellOffset(t, s, 0)
      invariant Filled(cube, f, g, t, s, 0)
    {
      pos := ReadColumn(cube, f, g, t, s, pos);
      assert (s + 1) * g.noout == s * g.noout + g.noout;
      s := s + 1;
    }
    FilledNextStep(cube, f, g, t);
    assert g.noseg * g.noout == g.noout * g.noseg;
    assert (t + 1) * g.StepSize() == t * g.StepSize() + g.StepSize();
  }

  /** The step loop: for each step the tick, then for each station the noout cells of that
      station, stored in data[:, t, s]. */
  method ReadSteps(f: seq<byte>, g: Geometry, scu: int, start: nat) returns (times: seq<int>, data: seq<seq<seq<Word>>>)
    requires StepsInside(f, g)
    requires g.notim == 0 || start == g.DataStart()
    ensures times == Times(f, g, scu)
    ensures data == Cube(f, g)
  {
    var cube := new Word[g.noout, g.notim, g.noseg];
    times := [];
    var pos: int := start;
    var t := 0;
    while t < g.notim
      invariant 0 <= t <= g.notim
      invariant t < g.notim ==> pos == g.StepStart(t)
      invariant times == Times(f, g, scu)[..t]
      invariant Filled(cube, f, g, t, 0, 0)
    {
      var tick;
      tick, pos := ReadStep(cube, f, g, t, pos);
      times := times + [tick * scu];
      t := t + 1;
    }
    data := seq(g.noout, p requires 0 <= p < g.noout reads cube =>
      seq(g.notim, t requires 0 <= t < g.notim reads cube =>
        seq(g.noseg, s requires 0 <= s < g.noseg reads cube => cube[p, t, s])));
    forall p | 0 <= p < g.noout
      ensures data[p] == Cube(f, g)[p]
    {
      forall t | 0 <= t < g.notim
        ensures data[p][t] == Cube(f, g)[p][t]
      {
        assert forall s | 0 <= s < g.noseg :: data[p][t][s] == Cube(f, g)[p][t][s];
      }
    }
  }

  /** read(): the reader proper, advancing a cursor through the file. */
  method ReadBinary(f: seq<byte>) returns (r: Result<HisData, Error>)
    ensures r == Decode(f)
  {
    if |f| == 0 {
      return Err(EmptyFile);
    }
    var pos: nat := 0;
    var header := Slice(f, pos, pos + 120);
    pos := Clamp(pos + 120, |f|);
    ReadAtCursor(f, 120, 40);
    var timeinfo := Slice(f, pos, pos + 40);
    pos := Clamp(pos + 40, |f|);
    if !IsAscii(header) || !IsAscii(timeinfo) {
      return Err(BadText);
    }
    var ti := ToText(timeinfo);
    var t0 := ParseDateTime(DateField(ti));
    var scu := ParseUnit(ti);
    if t0.None? || scu.None? {
      return Err(BadTimeInfo);
    }
    r := ReadBody(f, pos, ToText(header), t0.value, scu.value);
  }

  /** The reader after the time-info block: the counts, the names, the stations, the steps. */
  method ReadBody(f: seq<byte>, start: nat, header: string, t0: DateTime, scu: int) returns (r: Result<HisData, Error>)
    requires start == Clamp(160, |f|)
    ensures r == DecodeBody(f, header, t0, scu)
  {
    ReadAtCursor(f, 160, 8);
    var counts := Slice(f, start, start + 8);
    if |counts| < 8 {
      return Err(ShortRead);
    }
    var noout, noseg := I32At(counts, 0), I32At(counts, 4);
    assert noout == I32At(f, 160) && noseg == I32At(f, 164);
    if noout * noseg + 1 == 0 {
      return Err(ZeroDivision);
    }
    var notim := StepCount(|f|, noout, noseg);
    var params, ok, pos := ReadParams(f, noout);
    if !ok {
      return Err(BadText);
    }
    var locnrs, locs, err;
    locnrs, locs, err, pos := ReadStations(f, StationBase(noout), noseg, pos);
    if err.Some? {
      return Err(err.value);
    }
    if noout < 0 || noseg < 0 || notim < 0 {
      return Err(NegativeDimension);
    }
    var g := Geometry(noout, noseg, notim);
    StepsFit(f, noout, noseg);
    var times, data := ReadSteps(f, g, scu, pos);
    return Ok(HisData(header, t0, scu, params, locnrs, locs, times, data));
  }

  // ---- The writer ----

  /** The dataset shape the writer relies on: one (time, station) grid per parameter. */
  predicate WellShaped(h: HisData)
  {
    |h.data| == |h.params| &&
    (forall p | 0 <= p < |h.data| :: |h.data[p]| == |h.times|) &&
    (forall p, t | 0 <= p < |h.data| && 0 <= t < |h.data[p]| :: |h.data[p][t]| == |h.locs|)
  }

  /** A name as numpy stores it in a dtype "S20" array and np.char.ljust pads it: at most
      20 bytes, trailing NUL bytes dropped, then spaces up to 20. */
  function Field20(b: seq<byte>): (r: seq<byte>)
    ensures |r| == 20
  {
    var t := DropNuls(if |b| <= 20 then b else b[..20]);
    t + seq(20 - |t|, _ => 32 as byte)
  }

  function DropNuls(b: seq<byte>): (r: seq<byte>)
    ensures |r| <= |b| && r == b[..|r|]
  {
    b[..NulKept(b, |b|)]
  }

  function NulKept(b: seq<byte>, n: nat): (k: nat)
    requires n <= |b|
    ensures k <= n
  {
    if n > 0 && b[n - 1] == 0 then NulKept(b, n - 1) else n
  }

  predicate AllAscii(names: seq<string>) { forall i | 0 <= i < |names| :: IsAsciiText(names[i]) }

  /** params.tofile(f) for the first n names: their fields one after another. */
  function NameFields(names: seq<string>, n: nat): (r: seq<byte>)
    requires n <= |names|
    ensures |r| == 20 * n
  {
    if n == 0 then [] else NameFields(names, n - 1) + Field20(ToBytes(names[n - 1]))
  }

  /** The records of the first n stations: for each its number, then its name field. */
  function StationRecords(locs: seq<string>, n: nat): (r: seq<byte>)
    requires n <= |locs|
    ensures |r| == 24 * n
  {
    if n == 0 then [] else StationRecords(locs, n - 1) + EncodeI32(n - 1) + Field20(ToBytes(locs[n - 1]))
  }

  /** ts = int((date - t0).total_seconds() / scu); 0 where the writer never gets to compute it. */
  function Tick(h: HisData, t: int): int
  {
    if 0 <= t < |h.times| && h.scu != 0 then TruncDiv(h.times[t], h.scu) else 0
  }

  /** The value of parameter p at step t and station s (a zero word outside the cube). */
  function CellOf(h: HisData, p: int, t: int, s: int): Word
  {
    if 0 <= p < |h.data| && 0 <= t < |h.data[p]| && 0 <= s < |h.data[p][t]| then h.data[p][t][s]
    else Word(0, 0, 0, 0)
  }

  /** The cells of the first n parameters at step t and station s. */
  function Cells(h: HisData, t: int, s: int, n: nat): (r: seq<byte>)
    ensures |r| == 4 * n
  {
    if n == 0 then [] else Cells(h, t, s, n - 1) + WordBytes(CellOf(h, n - 1, t, s))
  }

  /** data[:, t, s].tofile(f): the cells of station s at step t, parameter by parameter. */
  function Column(h: HisData, t: int, s: int): (r: seq<byte>)
    ensures |r| == 4 * |h.params|
  {
    Cells(h, t, s, |h.params|)
  }

  /** The columns of the first n stations at step t. */
  function Columns(h: HisData, t: int, n: nat): (r: seq<byte>)
    ensures |r| == n * (4 * |h.params|)
  {
    if n == 0 then [] else Columns(h, t, n - 1) + Column(h, t, n - 1)
  }

  /** Step t as written: its tick, then every station's column. */
  function StepBytes(h: HisData, t: int): (r: seq<byte>)
    ensures |r| == 4 + 4 * (|h.params| * |h.locs|)
  {
    assert |h.locs| * (4 * |h.params|) == 4 * (|h.params| * |h.locs|);
    EncodeI32(Tick(h, t)) + Columns(h, t, |h.locs|)
  }

  /** The first n steps. */
  function Steps(h: HisData, n: nat): (r: seq<byte>)
    ensures |r| == n * (4 + 4 * (|h.params| * |h.locs|))
  {
    if n == 0 then [] else Steps(h, n - 1) + StepBytes(h, n - 1)
  }

  /** The first n ticks pack into an i32. */
  predicate TicksFit(h: HisData, n: int)
  {
    forall t | 0 <= t < n :: IsI32(Tick(h, t))
  }

  /** The header as written: padded to 120 characters and cut there. */
  function HeaderText(h: HisData): string
  {
    PyText.PadRight(h.header, 120)[..120]
  }

  /** The length the writer asserts before closing the file. */
  function ExpectedSize(noout: int, noseg: int, notim: int): int
  {
    160 + 8 + 20 * noout + (4 + 20) * noseg + notim * (4 + noout * noseg * 4)
  }

  /** The checks every write() that completes has passed. */
  predicate Writable(h: HisData)
  {
    IsAsciiText(HeaderText(h)) && IsI32(|h.params|) && IsI32(|h.locs|) &&
    AllAscii(h.params) && AllAscii(h.locs) &&
    (|h.times| > 0 ==> h.scu != 0 && TicksFit(h, |h.times|))
  }

  /** The first failure write() meets, for a dataset that is not writable. */
  function WriteFailure(h: HisData): Error
  {
    if !IsAsciiText(HeaderText(h)) then BadText
    else if !IsI32(|h.params|) || !IsI32(|h.locs|) then OutOfRange
    else if !AllAscii(h.params) || !AllAscii(h.locs) then BadText
    else if |h.times| > 0 && h.scu == 0 then ZeroDivision
    else OutOfRange
  }

  /** Everything write() puts in the file, in order. */
  function Layout(h: HisData): seq<byte>
    requires IsValid(h.t0)
  {
    ToBytes(HeaderText(h)) + ToBytes(Format(h.t0, h.scu)) + EncodeI32(|h.params|) +
    EncodeI32(|h.locs|) + NameFields(h.params, |h.params|) + StationRecords(h.locs, |h.locs|) +
    Steps(h, |h.times|)
  }

  /** write(): the bytes of the file, or the failure that interrupts the writer. */
  function Encode(h: HisData): Result<seq<byte>, Error>
    requires WellShaped(h) && IsValid(h.t0)
  {
    if !Writable(h) then Err(WriteFailure(h))
    else if |Layout(h)| == ExpectedSize(|h.params|, |h.locs|, |h.times|) then Ok(Layout(h))
    else Err(LayoutMismatch)
  }

  lemma AsciiJoin(a: string, b: string)
    requires IsAsciiText(a) && IsAsciiText(b)
    ensures IsAsciiText(a + b)
  {
    assert forall i | |a| <= i < |a + b| :: (a + b)[i] == b[i - |a|];
  }

  lemma DigitsAscii(s: string)
    requires forall i | 0 <= i < |s| :: PyText.IsDigit(s[i])
    ensures IsAsciiText(s)
  {
  }

  lemma IntTextAscii(n: int, w: nat)
    ensures IsAsciiText(PyText.IntToString(n))
    ensures IsAsciiText(PyText.FormatInt(n, w))
  {
    var m := if n < 0 then -n else n;
    DigitsAscii(PyText.NatToString(m));
    if n < 0 { AsciiJoin("-", PyText.NatToString(m)); }
    var t := PyText.IntToString(n);
    if |t| < w { AsciiJoin(seq(w - |t|, _ => ' '), t); }
  }

  /** The time-info block the writer formats is plain ASCII, so encoding it cannot fail. */
  lemma FormatIsAscii(t0: DateTime, scu: int)
    requires IsValid(t0)
    ensures IsAsciiText(Format(t0, scu))
  {
    IntTextAscii(t0.year, 0);
    IntTextAscii(scu, 8);
    var y := PyText.IntToString(t0.year);
    var a, b, c, d, e := Two(t0.month), Two(t0.day), Two(t0.hour), Two(t0.minute), Two(t0.second);
    assert IsAsciiText(a) && IsAsciiText(b) && IsAsciiText(c) && IsAsciiText(d) && IsAsciiText(e);
    var ds := FormatDateTime(t0);
    assert ds == y + "." + a + "." + b + " " + c + ":" + d + ":" + e;
    AsciiJoin(y, ".");
    AsciiJoin(y + ".", a);
    AsciiJoin(y + "." + a, ".");
    AsciiJoin(y + "." + a + ".", b);
    AsciiJoin(y + "." + a + "." + b, " ");
    AsciiJoin(y + "." + a + "." + b + " ", c);
    AsciiJoin(y + "." + a + "." + b + " " + c, ":");
    AsciiJoin(y + "." + a + "." + b + " " + c + ":", d);
    AsciiJoin(y + "." + a + "." + b + " " + c + ":" + d, ":");
    AsciiJoin(y + "." + a + "." + b + " " + c + ":" + d + ":", e);
    AsciiJoin("T0: ", ds);
    AsciiJoin("T0: " + ds, "  (scu=");
    AsciiJoin("T0: " + ds + "  (scu=", PyText.FormatInt(scu, 8));
    AsciiJoin("T0: " + ds + "  (scu=" + PyText.FormatInt(scu, 8), "s)");
  }

  /** The station records: for locnr, loc in enumerate(locs), pack("i", locnr) then loc. */
  method WriteStations(out0: seq<byte>, locs: seq<string>) returns (out: seq<byte>)
    ensures out == out0 + StationRecords(locs, |locs|)
  {
    out := out0;
    var j := 0;
    while j < |locs|
      invariant 0 <= j <= |locs|
      invariant out == out0 + StationRecords(locs, j)
    {
      out := out + EncodeI32(j);
      out := out + Field20(ToBytes(locs[j]));
      j := j + 1;
    }
  }

  /** One step: pack("i", ts), then data[:, t, s].tofile(f) for every station s. */
  method WriteStep(out0: seq<byte>, h: HisData, t: int) returns (out: seq<byte>)
    ensures out == out0 + StepBytes(h, t)
  {
    out := out0 + EncodeI32(Tick(h, t));
    var s := 0;
    while s < |h.locs|
      invariant 0 <= s <= |h.locs|
      invariant out == out0 + EncodeI32(Tick(h, t)) + Columns(h, t, s)
    {
      out := out + Column(h, t, s);
      s := s + 1;
    }
  }

  /** The step loop; it stops at the first tick that does not pack into an i32. */
  method WriteSteps(out0: seq<byte>, h: HisData) returns (out: seq<byte>, ok: bool)
    ensures ok <==> TicksFit(h, |h.times|)
    ensures ok ==> out == out0 + Steps(h, |h.times|)
  {
    out := out0;
    var t := 0;
    while t < |h.times|
      invariant 0 <= t <= |h.times|
      invariant TicksFit(h, t)
      invariant out == out0 + Steps(h, t)
    {
      var ts := Tick(h, t);
      if !IsI32(ts) {
        return out, false;
      }
      out := WriteStep(out, h, t);
      t := t + 1;
    }
    ok := true;
  }

  /** write(): the bytes put in the file, or the error that interrupts the writer. */
  method Write(h: HisData) returns (r: Result<seq<byte>, Error>)
    requires WellShaped(h) && IsValid(h.t0)
    ensures r == Encode(h)
  {
    var header := HeaderText(h);
    if !IsAsciiText(header) {
      return Err(BadText);
    }
    var out := ToBytes(header);
    out := out + ToBytes(Format(h.t0, h.scu));
    var noout, noseg, notim := |h.params|, |h.locs|, |h.times|;
    if !IsI32(noout) || !IsI32(noseg) {
      return Err(OutOfRange);
    }
    out := out + EncodeI32(noout) + EncodeI32(noseg);
    if !AllAscii(h.params) {
      return Err(BadText);
    }
    out := out + NameFields(h.params, |h.params|);
    if !AllAscii(h.locs) {
      return Err(BadText);
    }
    out := WriteStations(out, h.locs);
    var err;
    out, err := WriteTail(out, h);
    if err.Some? {
      return Err(err.value);
    }
    assert out == Layout(h);
    if |out| == ExpectedSize(noout, noseg, notim) {
      r := Ok(out);
    } else {
      r := Err(LayoutMismatch);
    }
  }

  /** The time steps, once header, names and stations are written. */
  method WriteTail(out0: seq<byte>, h: HisData) returns (out: seq<byte>, err: Option<Error>)
    requires IsAsciiText(HeaderText(h)) && IsI32(|h.params|) && IsI32(|h.locs|)
    requires AllAscii(h.params) && AllAscii(h.locs)
    ensures err.None? <==> Writable(h)
    ensures err.Some? ==> err.value == WriteFailure(h)
    ensures err.None? ==> out == out0 + Steps(h, |h.times|)
  {
    out := out0;
    err := None;
    if |h.times| > 0 {
      if h.scu == 0 {
        return out, Some(ZeroDivision);
      }
      var ok;
      out, ok := WriteSteps(out, h);
      if !ok {
        err := Some(OutOfRange);
      }
    }
  }
}
