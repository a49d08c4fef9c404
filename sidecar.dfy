/** The .hia sidecar of a HIS file: sections of "key = value" lines whose 1-based integer
    keys give long names that replace entries of the station or parameter list. The file is
    taken as already parsed: a map from section name to its (key, value) items in order. */
module Sidecar {
  import opened Results
  import opened PyText

  type Section = seq<(string, string)>
  type Config = map<string, Section>

  const LongLocations := "Long Locations"
  const LongParameters := "Long Parameters"

  /** The items of a section as (int(k) - 1, value) pairs, or None when int() refuses a key. */
  function Pairs(sec: Section): Option<seq<(int, string)>>
  {
    if forall i | 0 <= i < |sec| :: ParseInt(sec[i].0).Some? then
      Some(seq(|sec|, i requires 0 <= i < |sec| && ParseInt(sec[i].0).Some? =>
        (ParseInt(sec[i].0).value - 1, sec[i].1)))
    else None
  }

  lemma PairsAre(sec: Section, ps: seq<(int, string)>)
    requires |ps| == |sec|
    requires forall i | 0 <= i < |sec| :: ParseInt(sec[i].0).Some?
    requires forall i | 0 <= i < |sec| :: ps[i] == (ParseInt(sec[i].0).value - 1, sec[i].1)
    ensures Pairs(sec) == Some(ps)
  {
    var q := Pairs(sec).value;
    assert |q| == |ps|;
    forall i | 0 <= i < |ps| ensures q[i] == ps[i] { }
    assert q == ps;
  }

  /** Where key `k` already stands among the entries of a dict. */
  function Find(d: seq<(int, string)>, k: int): (r: Option<nat>)
    ensures r.Some? ==> r.value < |d| && d[r.value].0 == k
    ensures r.None? ==> forall m :: 0 <= m < |d| ==> d[m].0 != k
  {
    if d == [] then None
    else if d[|d| - 1].0 == k then Some(|d| - 1)
    else Find(d[..|d| - 1], k)
  }

  /** The dict a comprehension over the pairs builds: keys in order of first appearance,
      each with the value of its last pair. */
  function Dict(ps: seq<(int, string)>): seq<(int, string)>
    decreases |ps|
  {
    if ps == [] then []
    else
      var d := Dict(ps[..|ps| - 1]);
      var k := ps[|ps| - 1].0;
      var at := Find(d, k);
      if at.Some? then d[at.value := ps[|ps| - 1]] else d + [ps[|ps| - 1]]
  }

  /** The value of the last pair with key `k`: the reference reading of "later keys win". */
  function LastValue(ps: seq<(int, string)>, k: int): Option<string>
  {
    if ps == [] then None
    else if ps[|ps| - 1].0 == k then Some(ps[|ps| - 1].1)
    else LastValue(ps[..|ps| - 1], k)
  }

  /** lst[i] for a Python list of length n: negative i counts from the end. */
  function ListIndex(i: int, n: nat): (r: Option<nat>)
    ensures r.Some? <==> -(n as int) <= i < n
    ensures r.Some? ==> r.value < n && (r.value == i || r.value == i + n)
  {
    if 0 <= i < n then Some(i) else if -(n as int) <= i < 0 then Some(i + n) else None
  }

  /** `lst[i] = v` for each dict entry in turn; the first index outside the list fails. */
  function Assign(lst: seq<string>, es: seq<(int, string)>): Result<seq<string>, Error>
    decreases |es|
  {
    if es == [] then Ok(lst)
    else
      match Assign(lst, es[..|es| - 1])
      case Err(e) => Err(e)
      case Ok(l) =>
        var j := ListIndex(es[|es| - 1].0, |l|);
        if j.None? then Err(BadIndex) else Ok(l[j.value := es[|es| - 1].1])
  }

  /** _update_long: the list after the named section's long names are applied. */
  function Updated(lst: seq<string>, cfg: Config, name: string): Result<seq<string>, Error>
  {
    if name !in cfg then Ok(lst)
    else
      match Pairs(cfg[name])
      case None => Err(BadKey)
      case Some(ps) => Assign(lst, Dict(ps))
  }

  /** _update_long as the source runs it: the dict is built first (a bad key fails before any
      change), then the list is assigned entry by entry, in place. */
  method UpdateLong(lst: array<string>, cfg: Config, name: string) returns (err: Option<Error>)
    modifies lst
    ensures err.None? ==> Updated(old(lst[..]), cfg, name) == Ok(lst[..])
    ensures err.Some? ==> Updated(old(lst[..]), cfg, name) == Err(err.value)
  {
    if name !in cfg {
      return None;
    }
    var d := BuildDict(cfg[name]);
    if d.None? {
      return Some(BadKey);
    }
    err := AssignAll(lst, d.value);
  }

  /** {int(k) - 1: v for (k, v) in items}: None when a key is refused. */
  method BuildDict(sec: Section) returns (r: Option<seq<(int, string)>>)
    ensures r.None? <==> Pairs(sec).None?
    ensures r.Some? ==> r.value == Dict(Pairs(sec).value)
  {
    ghost var ps: seq<(int, string)> := [];
    var d: seq<(int, string)> := [];
    var n := 0;
    while n < |sec|
      invariant 0 <= n <= |sec|
      invariant forall i | 0 <= i < n :: ParseInt(sec[i].0).Some?
      invariant |ps| == n
      invariant forall i | 0 <= i < n :: ps[i] == (ParseInt(sec[i].0).value - 1, sec[i].1)
      invariant d == Dict(ps)
    {
      var k := ParseInt(sec[n].0);
      if k.None? {
        assert !(forall i | 0 <= i < |sec| :: ParseInt(sec[i].0).Some?);
        return None;
      }
      var key := k.value - 1;
      var at := Find(d, key);
      var ps' := ps + [(key, sec[n].1)];
      assert ps'[..|ps'| - 1] == ps;
      forall i | 0 <= i < n + 1 ensures ParseInt(sec[i].0).Some? &&
        ps'[i] == (ParseInt(sec[i].0).value - 1, sec[i].1)
      {
        if i < n { assert ps'[i] == ps[i]; }
      }
      ps := ps';
      if at.Some? {
        d := d[at.value := (key, sec[n].1)];
      } else {
        d := d + [(key, sec[n].1)];
      }
      n := n + 1;
    }
    PairsAre(sec, ps);
    return Some(d);
  }

  /** for i, v in long_map.items(): lst[i] = v */
  method AssignAll(lst: array<string>, d: seq<(int, string)>) returns (err: Option<Error>)
    modifies lst
    ensures err.None? ==> Assign(old(lst[..]), d) == Ok(lst[..])
    ensures err.Some? ==> Assign(old(lst[..]), d) == Err(err.value)
  {
    var m := 0;
    while m < |d|
      invariant 0 <= m <= |d|
      invariant Assign(old(lst[..]), d[..m]) == Ok(lst[..])
    {
      var j := ListIndex(d[m].0, lst.Length);
      assert d[..m + 1][..m] == d[..m];
      if j.None? {
        assert Assign(old(lst[..]), d[..m + 1]) == Err(BadIndex);
        AssignFailed(old(lst[..]), d, m + 1);
        return Some(BadIndex);
      }
      lst[j.value] := d[m].1;
      m := m + 1;
    }
    assert d[..|d|] == d;
    return None;
  }

  /** Once an assignment fails, the later entries do not matter. */
  lemma {:induction false} AssignFailed(lst: seq<string>, es: seq<(int, string)>, m: nat)
    requires m <= |es| && Assign(lst, es[..m]).Err?
    ensures Assign(lst, es) == Assign(lst, es[..m])
    decreases |es| - m
  {
    if m < |es| {
      assert es[..m + 1][..m] == es[..m];
      AssignFailed(lst, es, m + 1);
    } else {
      assert es[..m] == es;
    }
  }

  /** The reference reading of a section: position j takes the value of the last pair whose
      index is j and keeps its old value when there is none. */
  function Overlay(lst: seq<string>, ps: seq<(int, string)>): (r: seq<string>)
    ensures |r| == |lst|
  {
    seq(|lst|, j requires 0 <= j < |lst| =>
      match LastValue(ps, j) case Some(v) => v case None => lst[j])
  }

  lemma {:induction false} LastValueFrom(ps: seq<(int, string)>, k: int)
    requires LastValue(ps, k).Some?
    ensures exists i :: 0 <= i < |ps| && ps[i].0 == k
    decreases |ps|
  {
    if ps[|ps| - 1].0 != k {
      LastValueFrom(ps[..|ps| - 1], k);
      var i :| 0 <= i < |ps| - 1 && ps[..|ps| - 1][i].0 == k;
      assert ps[i].0 == k;
    }
  }

  /** The dict has each key once, the entry of a key carries its last value, and every key
      of the pairs is in it. */
  lemma {:induction false} DictFacts(ps: seq<(int, string)>)
    ensures var d := Dict(ps);
      (forall m, m' :: 0 <= m < m' < |d| ==> d[m].0 != d[m'].0) &&
      (forall m :: 0 <= m < |d| ==> LastValue(ps, d[m].0) == Some(d[m].1)) &&
      (forall k :: LastValue(ps, k).Some? ==> Find(d, k).Some?)
    decreases |ps|
  {
    if ps != [] {
      var pre := ps[..|ps| - 1];
      DictFacts(pre);
      var d0 := Dict(pre);
      var k := ps[|ps| - 1].0;
      var d := Dict(ps);
      forall k' | LastValue(ps, k').Some? ensures Find(d, k').Some? {
        if k' == k {
          var at := Find(d0, k);
          if at.Some? { assert d[at.value].0 == k; } else { assert d[|d| - 1].0 == k; }
          FoundAt(d, k, if at.Some? then at.value else |d| - 1);
        } else {
          var at := Find(d0, k').value;
          assert d[at].0 == k';
          FoundAt(d, k', at);
        }
      }
    }
  }

  lemma FoundAt(d: seq<(int, string)>, k: int, m: nat)
    requires m < |d| && d[m].0 == k
    ensures Find(d, k).Some?
  {
  }

  /** Assigning entries with distinct indices inside the list sets exactly those positions. */
  lemma {:induction false} AssignDistinct(lst: seq<string>, es: seq<(int, string)>)
    requires forall m :: 0 <= m < |es| ==> 0 <= es[m].0 < |lst|
    requires forall m, m' :: 0 <= m < m' < |es| ==> es[m].0 != es[m'].0
    ensures Assign(lst, es).Ok? && |Assign(lst, es).value| == |lst|
    ensures forall j :: 0 <= j < |lst| ==>
      Assign(lst, es).value[j] == match Find(es, j) case Some(m) => es[m].1 case None => lst[j]
    decreases |es|
  {
    if es != [] {
      var pre := es[..|es| - 1];
      assert forall m :: 0 <= m < |pre| ==> pre[m] == es[m];
      AssignDistinct(lst, pre);
      var k := es[|es| - 1].0;
      assert ListIndex(k, |Assign(lst, pre).value|) == Some(k);
      forall j | 0 <= j < |lst| && j != k ensures Find(es, j) == Find(pre, j) { }
    }
  }

  /** With every key between 1 and the list length, the update succeeds and each position
      takes the value of the last key naming it; the others keep theirs. */
  lemma UpdatedPositional(lst: seq<string>, cfg: Config, name: string)
    requires name in cfg
    requires forall i | 0 <= i < |cfg[name]| ::
      ParseInt(cfg[name][i].0).Some? && 1 <= ParseInt(cfg[name][i].0).value <= |lst|
    ensures Pairs(cfg[name]).Some?
    ensures Updated(lst, cfg, name) == Ok(Overlay(lst, Pairs(cfg[name]).value))
  {
    PairsBounded(cfg[name], |lst|);
    AssignOverlay(lst, Pairs(cfg[name]).value);
  }

  /** Assigning the dict of in-range pairs gives the overlay of those pairs. */
  lemma AssignOverlay(lst: seq<string>, ps: seq<(int, string)>)
    requires forall i | 0 <= i < |ps| :: 0 <= ps[i].0 < |lst|
    ensures Assign(lst, Dict(ps)) == Ok(Overlay(lst, ps))
  {
    var d := Dict(ps);
    DictFacts(ps);
    DictInRange(ps, d, |lst|);
    AssignDistinct(lst, d);
    var r := Assign(lst, d).value;
    forall j | 0 <= j < |lst| ensures r[j] == Overlay(lst, ps)[j] {
      OverlayEntry(lst, ps, d, j);
    }
    assert r == Overlay(lst, ps);
  }

  /** Keys read between 1 and n give pair indices between 0 and n - 1. */
  lemma PairsBounded(sec: Section, n: int)
    requires forall i | 0 <= i < |sec| :: ParseInt(sec[i].0).Some? && 1 <= ParseInt(sec[i].0).value <= n
    ensures Pairs(sec).Some?
    ensures forall i | 0 <= i < |Pairs(sec).value| :: 0 <= Pairs(sec).value[i].0 < n
  {
  }

  /** Keys of the dict are keys of the pairs, so a bound on the latter bounds the former. */
  lemma DictInRange(ps: seq<(int, string)>, d: seq<(int, string)>, n: int)
    requires forall i | 0 <= i < |ps| :: 0 <= ps[i].0 < n
    requires forall m :: 0 <= m < |d| ==> LastValue(ps, d[m].0) == Some(d[m].1)
    ensures forall m :: 0 <= m < |d| ==> 0 <= d[m].0 < n
  {
    forall m | 0 <= m < |d| ensures 0 <= d[m].0 < n {
      LastValueFrom(ps, d[m].0);
    }
  }

  /** Position j of the overlay is what the dict entry for j carries, or the old value. */
  lemma OverlayEntry(lst: seq<string>, ps: seq<(int, string)>, d: seq<(int, string)>, j: nat)
    requires j < |lst|
    requires forall m :: 0 <= m < |d| ==> LastValue(ps, d[m].0) == Some(d[m].1)
    requires forall k :: LastValue(ps, k).Some? ==> Find(d, k).Some?
    ensures Overlay(lst, ps)[j] == match Find(d, j) case Some(m) => d[m].1 case None => lst[j]
  {
    var at := Find(d, j);
    if at.Some? {
      assert LastValue(ps, d[at.value].0) == Some(d[at.value].1);
    }
  }

  lemma {:induction false} AssignLength(lst: seq<string>, es: seq<(int, string)>)
    requires Assign(lst, es).Ok?
    ensures |Assign(lst, es).value| == |lst|
    decreases |es|
  {
    if es != [] {
      AssignLength(lst, es[..|es| - 1]);
    }
  }

  /** An update that succeeds keeps the length; an absent section changes nothing. */
  lemma UpdatedLength(lst: seq<string>, cfg: Config, name: string)
    requires Updated(lst, cfg, name).Ok?
    ensures |Updated(lst, cfg, name).value| == |lst|
    ensures name !in cfg ==> Updated(lst, cfg, name).value == lst
  {
    if name in cfg {
      AssignLength(lst, Dict(Pairs(cfg[name]).value));
    }
  }

  lemma {:induction false} AssignReachesBad(lst: seq<string>, es: seq<(int, string)>, m: nat)
    requires m < |es| && ListIndex(es[m].0, |lst|).None?
    ensures Assign(lst, es) == Err(BadIndex)
    decreases |es|
  {
    var pre := es[..|es| - 1];
    if m < |es| - 1 {
      assert pre[m] == es[m];
      AssignReachesBad(lst, pre, m);
    } else {
      match Assign(lst, pre)
      case Err(e) => AssignOnlyBadIndex(lst, pre);
      case Ok(l) => AssignLength(lst, pre);
    }
  }

  lemma {:induction false} AssignOnlyBadIndex(lst: seq<string>, es: seq<(int, string)>)
    requires Assign(lst, es).Err?
    ensures Assign(lst, es) == Err(BadIndex)
    decreases |es|
  {
    if Assign(lst, es[..|es| - 1]).Err? {
      AssignOnlyBadIndex(lst, es[..|es| - 1]);
    }
  }

  /** Keys are not bounds-checked before use: a key that reads as an index outside the list
      (above its length, or zero or below once negative indices run out) fails the whole
      update with IndexError. */
  lemma UpdatedOutOfRange(lst: seq<string>, cfg: Config, name: string, i: nat)
    requires name in cfg && Pairs(cfg[name]).Some?
    requires i < |cfg[name]| && ListIndex(ParseInt(cfg[name][i].0).value - 1, |lst|).None?
    ensures Updated(lst, cfg, name) == Err(BadIndex)
  {
    var ps := Pairs(cfg[name]).value;
    var k := ps[i].0;
    DictFacts(ps);
    assert LastValue(ps, k).Some? by { LastValueOf(ps, i); }
    var m := Find(Dict(ps), k).value;
    AssignReachesBad(lst, Dict(ps), m);
  }

  lemma {:induction false} LastValueOf(ps: seq<(int, string)>, i: nat)
    requires i < |ps|
    ensures LastValue(ps, ps[i].0).Some?
    decreases |ps|
  {
    if i < |ps| - 1 && ps[|ps| - 1].0 != ps[i].0 {
      LastValueOf(ps[..|ps| - 1], i);
    }
  }

  /** Key "0" becomes index -1, which Python reads as the last element. */
  lemma ZeroKeyReplacesLast(lst: seq<string>, cfg: Config, name: string, v: string)
    requires |lst| > 0 && name in cfg && cfg[name] == [("0", v)]
    ensures Updated(lst, cfg, name) == Ok(lst[|lst| - 1 := v])
  {
    assert ParseInt("0") == Some(0) by {
      FormatIntParses(0, 0);
      assert NatToString(0) == "0";
    }
    var sec := cfg[name];
    assert sec[0].0 == "0";
    assert forall i | 0 <= i < |sec| :: ParseInt(sec[i].0).Some?;
    var ps := Pairs(sec).value;
    assert |ps| == 1 && ps[0] == (-1, v);
    assert ps == [(-1, v)];
    assert [(-1, v)][..0] == [];
    assert Dict([(-1, v)]) == [(-1, v)];
    assert Assign(lst, [(-1, v)]) == Ok(lst[|lst| - 1 := v]);
  }
}
