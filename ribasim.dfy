/** The RIBASIM variant of the HIS reader: the same binary decode, then long names from the
    sidecar, names made legal for netCDF by a chain of substitutions, location ids prefixed
    with the feature type, and units taken from the bracketed part of parameter names. */
module Ribasim {
  import opened Results
  import opened Bytes
  import opened PyText
  import opened TimeInfo
  import opened His
  import Sidecar
  import HisRead

  // ---------------------------------------------------------------------------------------
  // _update_illegal_characters
  // ---------------------------------------------------------------------------------------

  type Pattern = s: string | |s| > 0 witness "_"

  /** One link of a replace chain: every occurrence of `pat` becomes `rep`. */
  datatype Rule = Rule(pat: Pattern, rep: string)

  /** The substitutions of _update_illegal_characters, in the order they are applied. */
  const Rules: seq<Rule> := [
    Rule(":", "_"), Rule(".", "_"), Rule("/", "_"), Rule("- ", "out_"), Rule("+ ", "in_"),
    Rule(",", "_"), Rule("(", "_"), Rule(")", "_"), Rule("[", "_"), Rule("]", "_"),
    Rule("<", "lt_"), Rule(">", "gt_"), Rule("%", "pct"), Rule("#", "Nr"), Rule(" ", "")]

  /** The characters the sanitiser removes from names. */
  predicate IsIllegal(c: char)
  {
    c == ':' || c == '.' || c == '/' || c == ',' || c == '(' || c == ')' || c == '[' || c == ']' ||
    c == '<' || c == '>' || c == '%' || c == '#' || c == ' '
  }

  predicate Legal(s: string) { forall i | 0 <= i < |s| :: !IsIllegal(s[i]) }

  /** s.replace(p1, r1).replace(p2, r2)... with the first k links of `rs`. */
  function Chain(s: string, rs: seq<Rule>, k: nat): string
    requires k <= |rs|
  {
    if k == 0 then s else Replace(Chain(s, rs, k - 1), rs[k - 1].pat, rs[k - 1].rep)
  }

  /** The chained replace applied to one name. */
  function Sanitize(s: string): string { Chain(s, Rules, |Rules|) }

  /** _update_illegal_characters: a new list, one sanitised name per input name. */
  function SanitizeAll(lst: seq<string>): (r: seq<string>)
    ensures |r| == |lst|
    ensures forall i | 0 <= i < |lst| :: r[i] == Sanitize(lst[i])
  {
    seq(|lst|, i requires 0 <= i < |lst| => Sanitize(lst[i]))
  }

  /** A character that neither the text nor any replacement holds never appears. */
  lemma {:induction false} RulesKeepOut(s: string, rs: seq<Rule>, k: nat, c: char)
    requires k <= |rs| && c !in s
    requires forall j | 0 <= j < k :: c !in rs[j].rep
    ensures c !in Chain(s, rs, k)
  {
    if k > 0 {
      var t := Chain(s, rs, k - 1);
      RulesKeepOut(s, rs, k - 1, c);
      if c in Replace(t, rs[k - 1].pat, rs[k - 1].rep) {
        ReplaceIntroducesOnly(t, rs[k - 1].pat, rs[k - 1].rep, c);
      }
    }
  }

  /** Once link `m` replaces `c` by text without it, and no later link brings it back, the
      chain's result is free of `c`. */
  lemma {:induction false} RulesRemove(s: string, rs: seq<Rule>, k: nat, m: nat, c: char)
    requires m < k <= |rs| && rs[m].pat == [c]
    requires forall j | m <= j < k :: c !in rs[j].rep
    ensures c !in Chain(s, rs, k)
  {
    var t := Chain(s, rs, k - 1);
    if k - 1 == m {
      ReplaceRemoves(t, c, rs[m].rep);
    } else {
      RulesRemove(s, rs, k - 1, m, c);
      if c in Replace(t, rs[k - 1].pat, rs[k - 1].rep) {
        ReplaceIntroducesOnly(t, rs[k - 1].pat, rs[k - 1].rep, c);
      }
    }
  }

  /** No replacement text of the chain holds an illegal character. */
  lemma RepsLegal()
    ensures forall j | 0 <= j < |Rules| :: Legal(Rules[j].rep)
  {
  }

  /** A chain whose replacements are all legal clears every illegal character it has a
      single-character link for. */
  lemma ChainClears(s: string, rs: seq<Rule>, c: char)
    requires IsIllegal(c)
    requires forall j | 0 <= j < |rs| :: Legal(rs[j].rep)
    requires exists k :: 0 <= k < |rs| && rs[k].pat == [c]
    ensures c !in Chain(s, rs, |rs|)
  {
    var m :| 0 <= m < |rs| && rs[m].pat == [c];
    RulesRemove(s, rs, |rs|, m, c);
  }

  /** Each illegal character has its own single-character link in the chain. */
  lemma SingleLinkFor(c: char)
    requires IsIllegal(c)
    ensures exists k :: 0 <= k < |Rules| && Rules[k].pat == [c]
  {
    var k := if c == ':' then 0 else if c == '.' then 1 else if c == '/' then 2
      else if c == ',' then 5 else if c == '(' then 6 else if c == ')' then 7
      else if c == '[' then 8 else if c == ']' then 9 else if c == '<' then 10
      else if c == '>' then 11 else if c == '%' then 12 else if c == '#' then 13 else 14;
    assert Rules[k].pat == [c];
  }

  /** Every name the sanitiser returns is free of : . / , ( ) [ ] < > % # and space. */
  lemma SanitizeLegal(s: string)
    ensures Legal(Sanitize(s))
  {
    RepsLegal();
    forall i | 0 <= i < |Sanitize(s)| ensures !IsIllegal(Sanitize(s)[i]) {
      var c := Sanitize(s)[i];
      if IsIllegal(c) {
        SingleLinkFor(c);
        ChainClears(s, Rules, c);
      }
    }
  }

  /** A chain each of whose patterns ends in an illegal character leaves a legal text alone. */
  lemma {:induction false} RulesFix(s: string, rs: seq<Rule>, k: nat)
    requires k <= |rs| && Legal(s)
    requires forall j | 0 <= j < k :: IsIllegal(rs[j].pat[|rs[j].pat| - 1])
    ensures Chain(s, rs, k) == s
  {
    if k > 0 {
      RulesFix(s, rs, k - 1);
      var p := rs[k - 1].pat;
      ReplaceAbsent(s, p, rs[k - 1].rep, |p| - 1);
    }
  }

  /** The sanitiser changes a name exactly when the name holds an illegal character. */
  lemma SanitizeFixed(s: string)
    ensures Sanitize(s) == s <==> Legal(s)
  {
    if Legal(s) {
      RulesFix(s, Rules, |Rules|);
    } else {
      SanitizeLegal(s);
    }
  }

  /** Sanitising twice is sanitising once. */
  lemma SanitizeIdempotent(s: string)
    ensures Sanitize(Sanitize(s)) == Sanitize(s)
  {
    SanitizeLegal(s);
    SanitizeFixed(Sanitize(s));
  }

  /** The sanitised list holds only legal names, sanitising it again changes nothing, and it
      is the input list itself exactly when every input name was already legal. */
  lemma SanitizeAllFacts(lst: seq<string>)
    ensures forall i | 0 <= i < |lst| :: Legal(SanitizeAll(lst)[i])
    ensures SanitizeAll(SanitizeAll(lst)) == SanitizeAll(lst)
    ensures SanitizeAll(lst) == lst <==> forall i | 0 <= i < |lst| :: Legal(lst[i])
  {
    var r := SanitizeAll(lst);
    forall i | 0 <= i < |lst|
      ensures Legal(r[i]) && Sanitize(r[i]) == r[i] && (r[i] == lst[i] <==> Legal(lst[i]))
    {
      SanitizeLegal(lst[i]);
      SanitizeIdempotent(lst[i]);
      SanitizeFixed(lst[i]);
    }
    assert SanitizeAll(r) == r;
    if r == lst {
      forall i | 0 <= i < |lst| ensures Legal(lst[i]) {
        assert r[i] == lst[i];
      }
    }
  }

  // ---------------------------------------------------------------------------------------
  // _get_units
  // ---------------------------------------------------------------------------------------

  /** Where the first `c` stands in `s`, or |s| when there is none. */
  function FirstIndex(s: string, c: char): (i: nat)
    ensures i <= |s|
    ensures i < |s| <==> c in s
    ensures i < |s| ==> s[i] == c
    ensures forall j | 0 <= j < i :: s[j] != c
  {
    if s == [] then 0 else if s[0] == c then 0 else 1 + FirstIndex(s[1..], c)
  }

  /** s.split(c): the pieces between the occurrences of `c`. */
  function Split(s: string, c: char): (r: seq<string>)
    ensures |r| >= 1
    ensures c in s ==> |r| >= 2
  {
    if s == [] then [[]]
    else
      var rest := Split(s[1..], c);
      if s[0] == c then [[]] + rest else [[s[0]] + rest[0]] + rest[1..]
  }

  /** The first piece of a split is the text before the first separator. */
  lemma {:induction false} SplitHead(s: string, c: char)
    ensures Split(s, c)[0] == s[..FirstIndex(s, c)]
  {
    if s != [] && s[0] != c {
      var t := s[1..];
      SplitHead(t, c);
      var n := FirstIndex(t, c);
      assert FirstIndex(s, c) == 1 + n;
      assert Split(s, c)[0] == [s[0]] + Split(t, c)[0];
      assert [s[0]] + t[..n] == s[..1 + n];
    }
  }

  /** The pieces after the first are those of the text after the first separator. */
  lemma {:induction false} SplitTail(s: string, c: char)
    requires c in s
    ensures Split(s, c)[1] == Split(s[FirstIndex(s, c) + 1..], c)[0]
  {
    if s[0] != c {
      assert c in s[1..] by {
        assert s[FirstIndex(s, c)] == s[1..][FirstIndex(s, c) - 1];
      }
      SplitTail(s[1..], c);
      assert s[1..][FirstIndex(s[1..], c) + 1..] == s[FirstIndex(s, c) + 1..];
    }
  }

  /** The text after the first `open` up to the next `close` (and no further than the next
      `open`, where the first split cuts), or None when there is no `open`. */
  function Between(name: string, open: char, close: char): Option<string>
  {
    if open in name then Some(Split(Split(name, open)[1], close)[0]) else None
  }

  /** The unit _get_units records for one name: from (...) when the name has a '(', else
      from [...], else none. */
  function UnitOf(name: string): Option<string>
  {
    if '(' in name then Between(name, '(', ')') else Between(name, '[', ']')
  }

  /** `u` is the text that starts right after position `i` of `name`, holds neither delimiter,
      and ends at a delimiter or at the end of the name. */
  predicate Delimited(name: string, i: nat, u: string, open: char, close: char)
  {
    i + 1 + |u| <= |name| && u == name[i + 1..i + 1 + |u|] &&
    open !in u && close !in u &&
    (i + 1 + |u| == |name| || name[i + 1 + |u|] == open || name[i + 1 + |u|] == close)
  }

  /** A prefix up to the first `c` ends at `c` or at the end, and holds no `c`. */
  lemma CutAt(s: string, c: char)
    ensures var p := s[..FirstIndex(s, c)];
      c !in p && (|p| == |s| || s[|p|] == c)
  {
  }

  /** split(open)[0].split(close)[0] of a text: its longest prefix free of both. */
  lemma FirstPiece(rest: string, open: char, close: char)
    ensures var u := Split(Split(rest, open)[0], close)[0];
      |u| <= |rest| && u == rest[..|u|] && open !in u && close !in u &&
      (|u| == |rest| || rest[|u|] == open || rest[|u|] == close)
  {
    SplitHead(rest, open);
    var t := rest[..FirstIndex(rest, open)];
    CutAt(rest, open);
    SplitHead(t, close);
    var u := t[..FirstIndex(t, close)];
    CutAt(t, close);
    assert open !in u by {
      forall k | 0 <= k < |u| ensures u[k] != open { assert u[k] == t[k]; }
    }
    if |u| < |t| {
      assert rest[|u|] == t[|u|];
    }
  }

  /** A delimited prefix of the text after position `i` is delimited within the name. */
  lemma ShiftDelimited(name: string, i: nat, u: string, open: char, close: char)
    requires i < |name|
    requires |u| <= |name[i + 1..]| && u == name[i + 1..][..|u|] && open !in u && close !in u
    requires |u| == |name[i + 1..]| || name[i + 1..][|u|] == open || name[i + 1..][|u|] == close
    ensures Delimited(name, i, u, open, close)
  {
    assert name[i + 1..][..|u|] == name[i + 1..i + 1 + |u|];
    if |u| < |name[i + 1..]| {
      assert name[i + 1..][|u|] == name[i + 1 + |u|];
    }
  }

  /** What the piece between the delimiters is. */
  lemma BetweenMeaning(name: string, open: char, close: char)
    requires open in name
    ensures Delimited(name, FirstIndex(name, open), Between(name, open, close).value, open, close)
  {
    var i := FirstIndex(name, open);
    SplitTail(name, open);
    FirstPiece(name[i + 1..], open, close);
    ShiftDelimited(name, i, Between(name, open, close).value, open, close);
  }

  /** The unit of a name: the '(' rule wins over the '[' rule, and a name with neither has
      no unit. */
  lemma UnitOfMeaning(name: string)
    ensures '(' in name ==> Delimited(name, FirstIndex(name, '('), UnitOf(name).value, '(', ')')
    ensures '(' !in name && '[' in name ==>
      Delimited(name, FirstIndex(name, '['), UnitOf(name).value, '[', ']')
    ensures UnitOf(name).None? <==> '(' !in name && '[' !in name
  {
    if '(' in name {
      BetweenMeaning(name, '(', ')');
    } else if '[' in name {
      BetweenMeaning(name, '[', ']');
    }
  }

  /** _get_units: for each (long name, legal name) pair of the zip, in order, the unit of the
      long name is stored under the legal name; names without a unit add nothing. */
  function Units(longs: seq<string>, legal: seq<string>): map<string, string>
    decreases |longs|
  {
    var n := if |longs| <= |legal| then |longs| else |legal|;
    if n == 0 then map[]
    else
      var d := Units(longs[..n - 1], legal[..n - 1]);
      var u := UnitOf(longs[n - 1]);
      if u.Some? then d[legal[n - 1] := u.value] else d
  }

  /** Whether pair `i` of the zip stores a unit under `key`. */
  predicate StoresUnder(longs: seq<string>, legal: seq<string>, i: int, key: string)
    requires |longs| == |legal|
  {
    0 <= i < |longs| && legal[i] == key && UnitOf(longs[i]).Some?
  }

  /** A key is in the units dict exactly when some pair of the zip stores a unit under it. */
  lemma {:induction false} UnitsKeys(longs: seq<string>, legal: seq<string>, key: string)
    requires |longs| == |legal|
    ensures key in Units(longs, legal) <==> exists i :: StoresUnder(longs, legal, i, key)
    decreases |longs|
  {
    var n := |longs|;
    if n > 0 {
      var ls, gs := longs[..n - 1], legal[..n - 1];
      UnitsKeys(ls, gs, key);
      var d := Units(ls, gs);
      assert Units(longs, legal) ==
        if UnitOf(longs[n - 1]).Some? then d[legal[n - 1] := UnitOf(longs[n - 1]).value] else d;
      if legal[n - 1] == key && UnitOf(longs[n - 1]).Some? {
        assert StoresUnder(longs, legal, n - 1, key);
      }
      if exists i :: StoresUnder(ls, gs, i, key) {
        var i :| StoresUnder(ls, gs, i, key);
        assert StoresUnder(longs, legal, i, key);
      }
      if exists i :: StoresUnder(longs, legal, i, key) {
        var i :| StoresUnder(longs, legal, i, key);
        if i < n - 1 {
          assert StoresUnder(ls, gs, i, key);
          assert key in d;
        } else {
          assert legal[n - 1] == key && UnitOf(longs[n - 1]).Some?;
        }
      }
    }
  }

  /** Later pairs win: the value under a key is the unit of the last pair storing under it. */
  lemma {:induction false} UnitsLast(longs: seq<string>, legal: seq<string>, key: string, i: nat)
    requires |longs| == |legal|
    requires StoresUnder(longs, legal, i, key)
    requires forall j | i < j < |longs| :: !StoresUnder(longs, legal, j, key)
    ensures key in Units(longs, legal) && Units(longs, legal)[key] == UnitOf(longs[i]).value
    decreases |longs|
  {
    var n := |longs|;
    if i < n - 1 {
      var ls, gs := longs[..n - 1], legal[..n - 1];
      assert !StoresUnder(longs, legal, n - 1, key);
      forall j | i < j < n - 1 ensures !StoresUnder(ls, gs, j, key) {
        assert !StoresUnder(longs, legal, j, key);
      }
      UnitsLast(ls, gs, key, i);
    }
  }

  // ---------------------------------------------------------------------------------------
  // Location ids
  // ---------------------------------------------------------------------------------------

  /** The chain that readhis applies to sanitised long location names. */
  const CollapseRules: seq<Rule> := [
    Rule("_____", "_"), Rule("____", "_"), Rule("___", "_"), Rule("__", "_"), Rule(" ", "")]

  function Collapse(s: string): string { Chain(s, CollapseRules, |CollapseRules|) }

  /** The collapse chain brings in no illegal character: a legal name stays legal. */
  lemma CollapseKeepsLegal(s: string)
    requires Legal(s)
    ensures Legal(Collapse(s))
  {
    forall i | 0 <= i < |Collapse(s)| ensures !IsIllegal(Collapse(s)[i]) {
      var c := Collapse(s)[i];
      if IsIllegal(c) {
        RulesKeepOut(s, CollapseRules, |CollapseRules|, c);
      }
    }
  }

  /** A run of n underscores. */
  function Run(n: nat): string { seq(n, _ => '_') }

  /** What replacing runs of k underscores by one does to the length of a run of n. */
  function Squeezed(n: nat, k: nat): nat
    requires k >= 1
    decreases n
  {
    if n < k then n else 1 + Squeezed(n - k, k)
  }

  /** replace('_' * k, '_') on a run of n underscores leaves a run of Squeezed(n, k). */
  lemma {:induction false} ReplaceRun(n: nat, k: nat)
    requires k >= 1
    ensures Replace(Run(n), Run(k), "_") == Run(Squeezed(n, k))
    decreases n
  {
    if n >= k {
      ReplaceRun(n - k, k);
      assert Run(n)[..k] == Run(k);
      assert Run(n)[k..] == Run(n - k);
      assert "_" + Run(Squeezed(n - k, k)) == Run(Squeezed(n, k));
    }
  }

  /** The collapse chain on a run of n underscores, step by step. */
  lemma CollapseRun(n: nat)
    ensures Collapse(Run(n)) == Run(Squeezed(Squeezed(Squeezed(Squeezed(n, 5), 4), 3), 2))
  {
    var a := Squeezed(n, 5);
    var b := Squeezed(a, 4);
    var c := Squeezed(b, 3);
    var d := Squeezed(c, 2);
    assert CollapseRules[0].pat == Run(5) && CollapseRules[1].pat == Run(4);
    assert CollapseRules[2].pat == Run(3) && CollapseRules[3].pat == Run(2);
    ReplaceRun(n, 5);
    assert Chain(Run(n), CollapseRules, 1) == Run(a);
    ReplaceRun(a, 4);
    assert Chain(Run(n), CollapseRules, 2) == Run(b);
    ReplaceRun(b, 3);
    assert Chain(Run(n), CollapseRules, 3) == Run(c);
    ReplaceRun(c, 2);
    assert Chain(Run(n), CollapseRules, 4) == Run(d);
    ReplaceAbsent(Run(d), " ", "", 0);
  }

  /** The collapse does not leave single underscores: a run of 39 comes out as two. */
  lemma CollapseLeavesDouble()
    ensures Collapse(Run(39)) == "__"
  {
    CollapseRun(39);
    assert Squeezed(39, 5) == 11 && Squeezed(11, 4) == 5 && Squeezed(5, 3) == 3 && Squeezed(3, 2) == 2;
  }

  /** The characters of `s` other than underscores and spaces, in order. */
  function Skeleton(s: string): string
    decreases |s|
  {
    if s == [] then []
    else (if s[0] == '_' || s[0] == ' ' then [] else [s[0]]) + Skeleton(s[1..])
  }

  /** What the collapse is meant to do: every run of underscores becomes one underscore,
      and spaces go (what it keeps is in SingleUnderscoresKeeps). */
  function SingleUnderscores(s: string): (r: string)
    ensures ' ' !in r
    ensures forall i | 0 <= i < |r| - 1 :: !(r[i] == '_' && r[i + 1] == '_')
    ensures forall i | 0 <= i < |r| :: r[i] in s
    decreases |s|
  {
    if s == [] then []
    else
      var t := SingleUnderscores(s[1..]);
      if s[0] == ' ' then t
      else if s[0] == '_' && t != [] && t[0] == '_' then t
      else [s[0]] + t
  }

  /** The intended collapse keeps every character other than underscores and spaces, in
      order, and a name with an underscore keeps one. */
  lemma {:induction false} SingleUnderscoresKeeps(s: string)
    ensures Skeleton(SingleUnderscores(s)) == Skeleton(s)
    ensures '_' in s ==> '_' in SingleUnderscores(s)
    decreases |s|
  {
    if s != [] {
      SingleUnderscoresKeeps(s[1..]);
      var t := SingleUnderscores(s[1..]);
      if s[0] != ' ' && !(s[0] == '_' && t != [] && t[0] == '_') {
        assert SingleUnderscores(s) == [s[0]] + t;
        assert ([s[0]] + t)[1..] == t;
      }
    }
  }

  /** The intended collapse turns a run of any length into a single underscore. */
  lemma {:induction false} SingleUnderscoresRun(n: nat)
    requires n >= 1
    ensures SingleUnderscores(Run(n)) == "_"
  {
    if n > 1 {
      SingleUnderscoresRun(n - 1);
      assert Run(n)[1..] == Run(n - 1);
    } else {
      assert Run(1)[1..] == [];
    }
  }

  /** The intended collapse keeps a legal name legal. */
  lemma SingleUnderscoresLegal(s: string)
    requires Legal(s)
    ensures Legal(SingleUnderscores(s))
  {
  }

  /** s.lstrip(c): drop the leading copies of `c`. */
  function LStripChar(s: string, c: char): (r: string)
    ensures |r| <= |s| && r == s[|s| - |r|..]
    ensures r == [] || r[0] != c
    ensures forall i | 0 <= i < |s| - |r| :: s[i] == c
  {
    if s != [] && s[0] == c then LStripChar(s[1..], c) else s
  }

  /** The feature type: the file stem without its leading underscores (lstrip('__') strips
      any number of them, not just two). */
  function FeatureType(stem: string): string { LStripChar(stem, '_') }

  /** Ids from station numbers: the feature type followed by str() of the number. */
  function NumberIds(ftype: string, nrs: seq<int>): (r: seq<string>)
    ensures |r| == |nrs|
    ensures forall j | 0 <= j < |nrs| :: r[j] == ftype + IntToString(nrs[j])
  {
    seq(|nrs|, j requires 0 <= j < |nrs| => ftype + IntToString(nrs[j]))
  }

  /** An id built from a station number reads back as that number after the feature type, so
      distinct station numbers give distinct ids. */
  lemma NumberIdsReadBack(ftype: string, nrs: seq<int>)
    ensures forall j | 0 <= j < |nrs| ::
      |ftype| <= |NumberIds(ftype, nrs)[j]| && NumberIds(ftype, nrs)[j][..|ftype|] == ftype &&
      ParseInt(NumberIds(ftype, nrs)[j][|ftype|..]) == Some(nrs[j])
    ensures forall j, k | 0 <= j < |nrs| && 0 <= k < |nrs| && nrs[j] != nrs[k] ::
      NumberIds(ftype, nrs)[j] != NumberIds(ftype, nrs)[k]
  {
    var r := NumberIds(ftype, nrs);
    forall j | 0 <= j < |nrs|
      ensures |ftype| <= |r[j]| && r[j][..|ftype|] == ftype && ParseInt(r[j][|ftype|..]) == Some(nrs[j])
    {
      assert r[j][|ftype|..] == IntToString(nrs[j]) == FormatInt(nrs[j], 0);
      FormatIntParses(nrs[j], 0);
    }
  }

  /** Ids from long names: each name sanitised, its underscore runs collapsed, prefixed with
      the feature type. */
  function NameIds(ftype: string, locs: seq<string>): (r: seq<string>)
    ensures |r| == |locs|
    ensures forall j | 0 <= j < |locs| :: r[j] == ftype + Collapse(SanitizeAll(locs)[j])
  {
    var legal := SanitizeAll(locs);
    seq(|legal|, j requires 0 <= j < |legal| => ftype + Collapse(legal[j]))
  }

  /** Every id built from a long name is the feature type followed by a legal name. */
  lemma NameIdsLegal(ftype: string, locs: seq<string>, j: nat)
    requires j < |locs|
    ensures var id := NameIds(ftype, locs)[j];
      |ftype| <= |id| && id[..|ftype|] == ftype && Legal(id[|ftype|..])
  {
    SanitizeLegal(locs[j]);
    CollapseKeepsLegal(Sanitize(locs[j]));
    var id := NameIds(ftype, locs)[j];
    assert id[|ftype|..] == Collapse(Sanitize(locs[j]));
  }

  // ---------------------------------------------------------------------------------------
  // readhis
  // ---------------------------------------------------------------------------------------

  /** The dataset readhis builds: the long parameter names, the legal variable names made from
      them, the station coordinate, the time axis as seconds after t0, the cube, and the
      units by variable name. */
  datatype Dataset = Dataset(title: string, t0: DateTime, scu: int,
                             longParams: seq<string>, variables: seq<string>,
                             stations: seq<string>, times: seq<int>,
                             data: seq<seq<seq<Word>>>, units: map<string, string>)

  /** The long parameter names: replaced from the sidecar whenever there is one. */
  function LongParams(h: HisData, sidecar: Option<Sidecar.Config>): Result<seq<string>, Error>
  {
    if sidecar.Some? then Sidecar.Updated(h.params, sidecar.value, Sidecar.LongParameters)
    else Ok(h.params)
  }

  /** The station coordinate: ids from long names when hia is asked for and the sidecar
      exists, ids from station numbers otherwise. */
  function Stations(h: HisData, hia: bool, sidecar: Option<Sidecar.Config>, ftype: string): Result<seq<string>, Error>
  {
    if hia && sidecar.Some? then
      match Sidecar.Updated(h.locs, sidecar.value, Sidecar.LongLocations)
      case Err(e) => Err(e)
      case Ok(locs) => Ok(NameIds(ftype, locs))
    else Ok(NumberIds(ftype, h.locnrs))
  }

  /** Everything readhis does after the binary reader, for decoded contents `h`. */
  function Build(h: HisData, hia: bool, sidecar: Option<Sidecar.Config>, stem: string): Result<Dataset, Error>
  {
    match LongParams(h, sidecar)
    case Err(e) => Err(e)
    case Ok(params) =>
      var legal := SanitizeAll(params);
      match Stations(h, hia, sidecar, FeatureType(stem))
      case Err(e) => Err(e)
      case Ok(ids) => Ok(Dataset(h.header, h.t0, h.scu, params, legal, ids, h.times, h.data,
                                 Units(params, legal)))
  }

  /** readhis(hisfile, hia) for a file with contents `f` and stem `stem`; `sidecar` is the
      parsed .hia file next to it, or None when there is no such file. */
  function ReadHisSpec(f: seq<byte>, hia: bool, sidecar: Option<Sidecar.Config>, stem: string): Result<Dataset, Error>
  {
    match Decode(f)
    case Err(e) => Err(e)
    case Ok(h) => Build(h, hia, sidecar, stem)
  }

  /** The parameter list, updated in place from the sidecar when there is one. */
  method ApplyLongParams(h: HisData, sidecar: Option<Sidecar.Config>) returns (r: Result<seq<string>, Error>)
    ensures r == LongParams(h, sidecar)
  {
    var params := HisRead.ToArray(h.params);
    if sidecar.Some? {
      var err := Sidecar.UpdateLong(params, sidecar.value, Sidecar.LongParameters);
      if err.Some? {
        return Err(err.value);
      }
    }
    return Ok(params[..]);
  }

  /** The station ids: the location list updated in place from the sidecar and turned into
      ids when hia is asked for and the sidecar exists, the station numbers otherwise. */
  method MakeStations(h: HisData, hia: bool, sidecar: Option<Sidecar.Config>, ftype: string)
    returns (r: Result<seq<string>, Error>)
    ensures r == Stations(h, hia, sidecar, ftype)
  {
    if hia && sidecar.Some? {
      var locs := HisRead.ToArray(h.locs);
      var err := Sidecar.UpdateLong(locs, sidecar.value, Sidecar.LongLocations);
      if err.Some? {
        return Err(err.value);
      }
      return Ok(NameIds(ftype, locs[..]));
    }
    return Ok(NumberIds(ftype, h.locnrs));
  }

  /** The steps after the binary reader, in the order readhis takes them. */
  method BuildDataset(h: HisData, hia: bool, sidecar: Option<Sidecar.Config>, stem: string)
    returns (r: Result<Dataset, Error>)
    ensures r == Build(h, hia, sidecar, stem)
  {
    var params := ApplyLongParams(h, sidecar);
    if params.Err? {
      return Err(params.error);
    }
    var legal := SanitizeAll(params.value);
    var ids := MakeStations(h, hia, sidecar, FeatureType(stem));
    if ids.Err? {
      return Err(ids.error);
    }
    r := Ok(Dataset(h.header, h.t0, h.scu, params.value, legal, ids.value, h.times, h.data,
                    Units(params.value, legal)));
  }

  /** readhis: the binary reader, then the dataset built from what it read. */
  method ReadHis(f: seq<byte>, hia: bool, sidecar: Option<Sidecar.Config>, stem: string)
    returns (r: Result<Dataset, Error>)
    ensures r == ReadHisSpec(f, hia, sidecar, stem)
  {
    var d := ReadBinary(f);
    if d.Err? {
      return Err(d.error);
    }
    r := BuildDataset(d.value, hia, sidecar, stem);
  }

  /** A decoded file has one station number per station name. */
  lemma DecodedStations(f: seq<byte>)
    requires Decode(f).Ok?
    ensures |Decode(f).value.locnrs| == |Decode(f).value.locs|
  {
    var ti := ToText(Slice(f, 120, 160));
    BodyStations(f, ToText(Slice(f, 0, 120)), ParseDateTime(DateField(ti)).value, ParseUnit(ti).value);
  }

  lemma BodyStations(f: seq<byte>, header: string, t0: TimeInfo.DateTime, scu: int)
    requires DecodeBody(f, header, t0, scu).Ok?
    ensures |DecodeBody(f, header, t0, scu).value.locnrs| == |DecodeBody(f, header, t0, scu).value.locs|
  {
  }

  /** Helper for BuildVariables and ReadersAgree: the fields of a built dataset, each taken
      from the step of Build that produces it. */
  lemma BuildFacts(h: HisData, hia: bool, sidecar: Option<Sidecar.Config>, stem: string)
    ensures Build(h, hia, sidecar, stem).Ok? ==>
      var ds := Build(h, hia, sidecar, stem).value;
      ds.title == h.header && ds.t0 == h.t0 && ds.scu == h.scu &&
      ds.times == h.times && ds.data == h.data &&
      LongParams(h, sidecar).Ok? && ds.longParams == LongParams(h, sidecar).value &&
      (sidecar.None? ==> ds.longParams == h.params) &&
      ds.variables == SanitizeAll(ds.longParams) &&
      ds.units == Units(ds.longParams, ds.variables)
  {
  }

  /** The variables of a built dataset: one legal name per parameter; a unit is stored under
      a variable exactly when some long name paired with it has a unit; the long names are
      the decoded names when there is no sidecar, and the sidecar's names at their positions
      whenever a sidecar with in-range keys exists, whatever hia says (the build then fails
      only where the station ids fail). */
  lemma BuildVariables(h: HisData, hia: bool, sidecar: Option<Sidecar.Config>, stem: string)
    ensures Build(h, hia, sidecar, stem).Ok? ==>
      var ds := Build(h, hia, sidecar, stem).value;
      |ds.variables| == |ds.longParams| == |h.params| &&
      (forall i | 0 <= i < |ds.variables| :: Legal(ds.variables[i])) &&
      (forall key :: key in ds.units <==> exists i :: StoresUnder(ds.longParams, ds.variables, i, key)) &&
      (sidecar.None? ==> ds.longParams == h.params)
    ensures sidecar.Some? && ParamsInRange(h, sidecar.value) ==>
      (Build(h, hia, sidecar, stem).Ok? <==> Stations(h, hia, sidecar, FeatureType(stem)).Ok?) &&
      (Build(h, hia, sidecar, stem).Ok? ==>
        Build(h, hia, sidecar, stem).value.longParams ==
        Sidecar.Overlay(h.params, Sidecar.Pairs(sidecar.value[Sidecar.LongParameters]).value))
  {
    if Build(h, hia, sidecar, stem).Ok? {
      var ds := Build(h, hia, sidecar, stem).value;
      BuildFacts(h, hia, sidecar, stem);
      LongParamsLength(h, sidecar);
      VariablesLegal(ds.longParams);
      forall key ensures key in ds.units <==> exists i :: StoresUnder(ds.longParams, ds.variables, i, key) {
        UnitsKeys(ds.longParams, ds.variables, key);
      }
    }
    if sidecar.Some? && ParamsInRange(h, sidecar.value) {
      Sidecar.UpdatedPositional(h.params, sidecar.value, Sidecar.LongParameters);
    }
  }

  /** The sidecar has a long-parameter section whose keys all name a parameter (1 to noout). */
  predicate ParamsInRange(h: HisData, cfg: Sidecar.Config)
  {
    Sidecar.LongParameters in cfg &&
    forall i | 0 <= i < |cfg[Sidecar.LongParameters]| ::
      ParseInt(cfg[Sidecar.LongParameters][i].0).Some? &&
      1 <= ParseInt(cfg[Sidecar.LongParameters][i].0).value <= |h.params|
  }

  /** The long parameter names keep the parameter count, whether or not a sidecar applies. */
  lemma LongParamsLength(h: HisData, sidecar: Option<Sidecar.Config>)
    ensures LongParams(h, sidecar).Ok? ==> |LongParams(h, sidecar).value| == |h.params|
  {
    if sidecar.Some? && LongParams(h, sidecar).Ok? {
      Sidecar.UpdatedLength(h.params, sidecar.value, Sidecar.LongParameters);
    }
  }

  /** Every variable name is free of illegal characters. */
  lemma {:induction false} VariablesLegal(params: seq<string>)
    ensures forall i | 0 <= i < |SanitizeAll(params)| :: Legal(SanitizeAll(params)[i])
  {
    forall i | 0 <= i < |SanitizeAll(params)| ensures Legal(SanitizeAll(params)[i]) {
      SanitizeLegal(params[i]);
    }
  }

  /** There is one station id per station, each starting with the feature type. */
  lemma BuildStations(h: HisData, hia: bool, sidecar: Option<Sidecar.Config>, stem: string)
    requires |h.locnrs| == |h.locs|
    ensures Build(h, hia, sidecar, stem).Ok? ==>
      var ds := Build(h, hia, sidecar, stem).value;
      |ds.stations| == |h.locs| &&
      forall j | 0 <= j < |ds.stations| ::
        |FeatureType(stem)| <= |ds.stations[j]| &&
        ds.stations[j][..|FeatureType(stem)|] == FeatureType(stem)
  {
    if Build(h, hia, sidecar, stem).Ok? && hia && sidecar.Some? {
      Sidecar.UpdatedLength(h.locs, sidecar.value, Sidecar.LongLocations);
    }
  }

  /** The station ids, case by case. Without hia or without a sidecar, id j is the feature
      type followed by station number j, and it reads back as that number. With both, it is the
      feature type followed by long location name j, sanitised and collapsed, and that part is
      legal. */
  lemma StationIdRules(h: HisData, hia: bool, sidecar: Option<Sidecar.Config>, stem: string, j: nat)
    requires Build(h, hia, sidecar, stem).Ok?
    requires j < |Build(h, hia, sidecar, stem).value.stations|
    ensures var id := Build(h, hia, sidecar, stem).value.stations[j];
      (!hia || sidecar.None? ==> j < |h.locnrs| && id == FeatureType(stem) + IntToString(h.locnrs[j])) &&
      (hia && sidecar.Some? ==>
        var locs := Sidecar.Updated(h.locs, sidecar.value, Sidecar.LongLocations);
        locs.Ok? && j < |locs.value| &&
        id == FeatureType(stem) + Collapse(Sanitize(locs.value[j])))
    ensures var id, ft := Build(h, hia, sidecar, stem).value.stations[j], FeatureType(stem);
      |ft| <= |id| && id[..|ft|] == ft &&
      (!hia || sidecar.None? ==> j < |h.locnrs| && ParseInt(id[|ft|..]) == Some(h.locnrs[j])) &&
      (hia && sidecar.Some? ==> Legal(id[|ft|..]))
  {
    var ft := FeatureType(stem);
    if hia && sidecar.Some? {
      var locs := Sidecar.Updated(h.locs, sidecar.value, Sidecar.LongLocations).value;
      NameIdsLegal(ft, locs, j);
    } else {
      NumberIdsReadBack(ft, h.locnrs);
    }
  }

  /** Whether hia is asked for changes nothing but the station ids. */
  lemma HiaOnlyStations(h: HisData, sidecar: Option<Sidecar.Config>, stem: string)
    requires Build(h, true, sidecar, stem).Ok? && Build(h, false, sidecar, stem).Ok?
    ensures var a, b := Build(h, true, sidecar, stem).value, Build(h, false, sidecar, stem).value;
      a.(stations := b.stations) == b
  {
  }

  /** readhis and read decode a file alike. A decode failure fails both with that error. When
      both succeed they agree on header, t0, scu, times and cube, and there is one station id
      per station read. With hia and a sidecar they succeed together, and readhis's long
      parameter names are the parameter names read gives. Without hia, read ignores the
      sidecar. */
  lemma ReadersAgree(f: seq<byte>, hia: bool, sidecar: Option<Sidecar.Config>, stem: string)
    ensures Decode(f).Err? ==>
      ReadHisSpec(f, hia, sidecar, stem) == Err(Decode(f).error) &&
      HisRead.ReadSpec(f, hia, sidecar) == Err(Decode(f).error)
    ensures ReadHisSpec(f, hia, sidecar, stem).Ok? && HisRead.ReadSpec(f, hia, sidecar).Ok? ==>
      var ds, h := ReadHisSpec(f, hia, sidecar, stem).value, HisRead.ReadSpec(f, hia, sidecar).value;
      ds.title == h.header && ds.t0 == h.t0 && ds.scu == h.scu &&
      ds.times == h.times && ds.data == h.data && |ds.stations| == |h.locs|
    ensures hia && sidecar.Some? ==>
      (ReadHisSpec(f, hia, sidecar, stem).Ok? <==> HisRead.ReadSpec(f, hia, sidecar).Ok?)
    ensures hia && sidecar.Some? && ReadHisSpec(f, hia, sidecar, stem).Ok? ==>
      HisRead.ReadSpec(f, hia, sidecar).Ok? &&
      ReadHisSpec(f, hia, sidecar, stem).value.longParams == HisRead.ReadSpec(f, hia, sidecar).value.params
    ensures !hia ==> HisRead.ReadSpec(f, hia, sidecar) == Decode(f)
  {
    HisRead.ReadSpecFacts(f, hia, sidecar);
    if Decode(f).Ok? {
      var d := Decode(f).value;
      DecodedStations(f);
      BuildFacts(d, hia, sidecar, stem);
      BuildStations(d, hia, sidecar, stem);
    }
  }
}
