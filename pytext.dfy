/** The parts of Python's str behaviour that the codecs rely on: slicing with negative
    indices, replace, strip, int() and str() of integers, and right-justified formatting. */
module PyText {
  import opened Results

  /** str.isspace() on ASCII characters: tab to carriage return, the four separators and space. */
  predicate IsSpace(c: char) { 9 <= c as int <= 13 || 28 <= c as int <= 32 }

  predicate IsDigit(c: char) { '0' <= c <= '9' }

  /** s.lstrip(): drop leading whitespace. */
  function LStrip(s: string): string
  {
    if s != [] && IsSpace(s[0]) then LStrip(s[1..]) else s
  }

  /** s.rstrip(): drop trailing whitespace. */
  function RStrip(s: string): string
  {
    if s != [] && IsSpace(s[|s| - 1]) then RStrip(s[..|s| - 1]) else s
  }

  /** lstrip() leaves a suffix that does not start with whitespace, and drops only whitespace. */
  lemma {:induction false} LStripFacts(s: string)
    ensures var r := LStrip(s);
      (r == [] || !IsSpace(r[0])) && |r| <= |s| && r == s[|s| - |r|..] &&
      forall i :: 0 <= i < |s| - |r| ==> IsSpace(s[i])
    decreases |s|
  {
    if s != [] && IsSpace(s[0]) {
      LStripFacts(s[1..]);
    }
  }

  function Strip(s: string): string { RStrip(LStrip(s)) }

  /** How Python normalises one slice bound: negative counts from the end, then clamp. */
  function PyIndex(i: int, n: nat): (r: nat)
    ensures r <= n
    ensures 0 <= i <= n ==> r == i
    ensures -(n as int) <= i < 0 ==> r == n as int + i
  {
    if i < 0 then (if i + n < 0 then 0 else i + n) else if i > n then n else i
  }

  /** s[i:j]. */
  function PySlice(s: string, i: int, j: int): string
  {
    var a := PyIndex(i, |s|);
    var b := PyIndex(j, |s|);
    if a <= b then s[a..b] else []
  }

  /** s.replace(pat, rep): every non-overlapping occurrence of pat, scanning left to right. */
  function Replace(s: string, pat: string, rep: string): string
    requires pat != []
    decreases |s|
  {
    if |s| < |pat| then s
    else if s[..|pat|] == pat then rep + Replace(s[|pat|..], pat, rep)
    else [s[0]] + Replace(s[1..], pat, rep)
  }

  /** Every character of a replaced text comes from the text or from the replacement. */
  lemma {:induction false} ReplaceIntroducesOnly(s: string, pat: string, rep: string, c: char)
    requires pat != []
    requires c in Replace(s, pat, rep)
    ensures c in s || c in rep
    decreases |s|
  {
    if |s| < |pat| {
    } else if s[..|pat|] == pat {
      if c !in rep {
        ReplaceIntroducesOnly(s[|pat|..], pat, rep, c);
      }
    } else if c != s[0] {
      ReplaceIntroducesOnly(s[1..], pat, rep, c);
    }
  }

  /** Replacing a single character by text without it leaves no occurrence of it. */
  lemma {:induction false} ReplaceRemoves(s: string, c: char, rep: string)
    requires c !in rep
    ensures c !in Replace(s, [c], rep)
    decreases |s|
  {
    if |s| >= 1 {
      ReplaceRemoves(s[1..], c, rep);
      if s[..1] == [c] {
        assert s[1..] == s[|[c]|..];
      } else {
        assert s[0] != c by { assert s[..1][0] == s[0]; }
      }
    }
  }

  /** A pattern with a character the text lacks is never found: replace changes nothing. */
  lemma {:induction false} ReplaceAbsent(s: string, pat: string, rep: string, k: nat)
    requires k < |pat| && pat[k] !in s
    ensures Replace(s, pat, rep) == s
    decreases |s|
  {
    if |s| >= |pat| {
      assert s[..|pat|] != pat by {
        assert s[..|pat|][k] == s[k];
      }
      assert pat[k] !in s[1..] by {
        forall i | 0 <= i < |s[1..]| ensures s[1..][i] != pat[k] { assert s[1..][i] == s[i + 1]; }
      }
      ReplaceAbsent(s[1..], pat, rep, k);
      assert s == [s[0]] + s[1..];
    }
  }

  /** Replacing a single character leaves the text before its first occurrence as it was. */
  lemma {:induction false} ReplaceKeepsPrefix(s: string, c: char, rep: string, k: nat)
    requires k <= |s| && c !in s[..k]
    ensures Replace(s, [c], rep) == s[..k] + Replace(s[k..], [c], rep)
    decreases k
  {
    if k == 0 {
      assert s[..0] == [] && s[0..] == s;
    } else {
      assert s[0] == s[..k][0];
      assert s[..1] != [c];
      assert s[1..][..k - 1] == s[1..k];
      assert c !in s[1..][..k - 1] by {
        forall i | 0 <= i < k - 1 ensures s[1..k][i] != c { assert s[1..k][i] == s[..k][i + 1]; }
      }
      ReplaceKeepsPrefix(s[1..], c, rep, k - 1);
      assert s[1..][k - 1..] == s[k..];
      assert s[..k] == [s[0]] + s[1..k];
    }
  }

  /** The text int() accepts after stripping and an optional sign: digits, with single
      underscores allowed between them. */
  predicate IsDigitRun(s: string)
    decreases |s|
  {
    |s| > 0 && IsDigit(s[|s| - 1]) &&
    var p := s[..|s| - 1];
    p == [] || IsDigitRun(p) || (p[|p| - 1] == '_' && IsDigitRun(p[..|p| - 1]))
  }

  function DigitsValue(s: string): nat
  {
    if s == [] then 0
    else if !IsDigit(s[|s| - 1]) then DigitsValue(s[..|s| - 1])
    else 10 * DigitsValue(s[..|s| - 1]) + (s[|s| - 1] as int - '0' as int)
  }

  /** int(s) for base-10 text: None stands for the ValueError. */
  function ParseInt(s: string): Option<int> { ParseSignedRun(Strip(s)) }

  /** An optional sign followed by a digit run, with nothing around it. */
  function ParseSignedRun(t: string): Option<int>
  {
    if |t| > 0 && (t[0] == '-' || t[0] == '+') then
      if IsDigitRun(t[1..]) then
        var v: int := DigitsValue(t[1..]);
        Some(if t[0] == '-' then -v else v)
      else None
    else if IsDigitRun(t) then Some(DigitsValue(t))
    else None
  }

  function DigitChar(d: int): (c: char)
    requires 0 <= d < 10
    ensures IsDigit(c) && c as int - '0' as int == d
  {
    ('0' as int + d) as char
  }

  function NatToString(n: nat): (r: string)
    ensures |r| > 0
    ensures forall i :: 0 <= i < |r| ==> IsDigit(r[i])
  {
    if n < 10 then [DigitChar(n)] else NatToString(n / 10) + [DigitChar(n % 10)]
  }

  /** str(n). */
  function IntToString(n: int): string
  {
    if n < 0 then "-" + NatToString(-n) else NatToString(n)
  }

  /** s.rjust(w): pad on the left with spaces, never truncate. */
  function PadLeft(s: string, w: nat): (r: string)
    ensures |r| == if |s| >= w then |s| else w
  {
    if |s| >= w then s else seq(w - |s|, _ => ' ') + s
  }

  /** s.ljust(w): pad on the right with spaces, never truncate. */
  function PadRight(s: string, w: nat): (r: string)
    ensures |r| == if |s| >= w then |s| else w
  {
    if |s| >= w then s else s + seq(w - |s|, _ => ' ')
  }

  /** "{:wd}".format(n). */
  function FormatInt(n: int, w: nat): string { PadLeft(IntToString(n), w) }

  lemma {:induction false} NatToStringValue(n: nat)
    ensures DigitsValue(NatToString(n)) == n
    decreases n
  {
    var s := NatToString(n);
    if n >= 10 {
      NatToStringValue(n / 10);
      assert s[..|s| - 1] == NatToString(n / 10);
    }
  }

  lemma {:induction false} DigitsAreRun(s: string)
    requires |s| > 0 && forall i :: 0 <= i < |s| ==> IsDigit(s[i])
    ensures IsDigitRun(s)
    decreases |s|
  {
    if |s| > 1 {
      DigitsAreRun(s[..|s| - 1]);
    }
  }

  lemma {:induction false} LStripSpaces(pad: string, t: string)
    requires forall i :: 0 <= i < |pad| ==> pad[i] == ' '
    requires t == [] || !IsSpace(t[0])
    ensures LStrip(pad + t) == t
    decreases |pad|
  {
    if pad != [] {
      var s := pad + t;
      assert s[0] == ' ';
      assert s[1..] == pad[1..] + t;
      assert LStrip(s) == LStrip(s[1..]);
      LStripSpaces(pad[1..], t);
    } else {
      assert pad + t == t;
    }
  }

  lemma RStripKeeps(t: string)
    requires t != [] && !IsSpace(t[|t| - 1])
    ensures RStrip(t) == t
  {
  }

  lemma StripPadded(pad: string, t: string)
    requires forall i :: 0 <= i < |pad| ==> pad[i] == ' '
    requires t != [] && !IsSpace(t[0]) && !IsSpace(t[|t| - 1])
    ensures Strip(pad + t) == t
  {
    LStripSpaces(pad, t);
    RStripKeeps(t);
  }

  /** A sign and digits, as str() writes a negative or a non-negative number. */
  lemma ParseSigned(t: string, m: nat)
    requires t == NatToString(m) || t == "-" + NatToString(m)
    ensures t[0] == '-' ==> ParseSignedRun(t) == Some(-(m as int))
    ensures t[0] != '-' ==> ParseSignedRun(t) == Some(m)
  {
    var digits := NatToString(m);
    NatToStringValue(m);
    DigitsAreRun(digits);
    if t[0] == '-' {
      assert t[1..] == digits;
    } else {
      assert t == digits;
      assert t[0] != '+';
    }
  }

  /** int() reads back what "{:wd}" wrote, for every integer and every width. */
  lemma FormatIntParses(n: int, w: nat)
    ensures ParseInt(FormatInt(n, w)) == Some(n)
  {
    var t := IntToString(n);
    var m: nat := if n < 0 then -n else n;
    ParseSigned(t, m);
    assert !IsSpace(t[0]) && !IsSpace(t[|t| - 1]);
    if |t| < w {
      StripPadded(seq(w - |t|, _ => ' '), t);
    } else {
      StripPadded([], t);
      assert [] + t == t;
    }
  }

  /** int() refuses text whose last non-blank character is a letter. */
  lemma EndsInLetterIsNoInt(s: string, c: char)
    requires !IsDigit(c) && !IsSpace(c) && c != '_'
    ensures ParseInt(s + [c]) == None
  {
    var u := s + [c];
    var l := LStrip(u);
    LStripFacts(u);
    assert u[|u| - 1] == c;
    assert l != [];
    assert l[|l| - 1] == c by { assert l == u[|u| - |l|..]; }
    RStripKeeps(l);
    var t := Strip(u);
    assert t == l;
    assert !IsDigitRun(t);
    if |t| > 1 {
      assert t[1..][|t[1..]| - 1] == c;
      assert !IsDigitRun(t[1..]);
    }
  }
}
