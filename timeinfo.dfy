/** The 40-character time-info block of a HIS file: "T0: YYYY.MM.DD HH:MM:SS  (scu=%8ds)".
    The reader takes the start date from fixed positions and the step unit (seconds per
    tick) from near the end, at one of two historical positions; the writer formats it. */
module TimeInfo {
  import opened Results
  import opened PyText

  /** A calendar date and time of day, as datetime keeps it. */
  datatype DateTime = DateTime(year: int, month: int, day: int, hour: int, minute: int, second: int)

  /** The field ranges datetime enforces; the length of each month is not checked. */
  predicate IsValid(d: DateTime)
  {
    1 <= d.year <= 9999 && 1 <= d.month <= 12 && 1 <= d.day <= 31 &&
    0 <= d.hour < 24 && 0 <= d.minute < 60 && 0 <= d.second < 60
  }

  function DigitAt(s: string, i: nat): (d: int)
    requires i < |s| && IsDigit(s[i])
    ensures 0 <= d < 10
  {
    s[i] as int - '0' as int
  }

  predicate TwoDigitsAt(s: string, i: nat) { i + 1 < |s| && IsDigit(s[i]) && IsDigit(s[i + 1]) }

  function Num2(s: string, i: nat): int
    requires TwoDigitsAt(s, i)
  {
    10 * DigitAt(s, i) + DigitAt(s, i + 1)
  }

  /** The text "%Y.%m.%d %H:%M:%S" describes, in its fixed-width form. */
  predicate IsDateText(s: string)
  {
    |s| == 19 && TwoDigitsAt(s, 0) && TwoDigitsAt(s, 2) && s[4] == '.' && TwoDigitsAt(s, 5) &&
    s[7] == '.' && TwoDigitsAt(s, 8) && s[10] == ' ' && TwoDigitsAt(s, 11) && s[13] == ':' &&
    TwoDigitsAt(s, 14) && s[16] == ':' && TwoDigitsAt(s, 17)
  }

  /** datetime.strptime(s, "%Y.%m.%d %H:%M:%S"); None stands for the ValueError. */
  function ParseDateTime(s: string): Option<DateTime>
  {
    if IsDateText(s) then
      var d := DateTime(100 * Num2(s, 0) + Num2(s, 2), Num2(s, 5), Num2(s, 8),
                        Num2(s, 11), Num2(s, 14), Num2(s, 17));
      if IsValid(d) then Some(d) else None
    else None
  }

  function Two(n: int): (r: string)
    requires 0 <= n < 100
    ensures TwoDigitsAt(r, 0) && Num2(r, 0) == n
  {
    [DigitChar(n / 10), DigitChar(n % 10)]
  }

  /** t0.strftime("%Y.%m.%d %H:%M:%S"), with %Y rendered without leading zeros (as glibc's
      strftime renders it), so years below 1000 come out shorter. C libraries and Python
      releases that zero-pad %Y to four digits render those years differently. */
  function FormatDateTime(d: DateTime): string
    requires IsValid(d)
  {
    IntToString(d.year) + "." + Two(d.month) + "." + Two(d.day) + " " +
    Two(d.hour) + ":" + Two(d.minute) + ":" + Two(d.second)
  }

  /** timeinfo[4:14] with spaces read as zeros, followed by timeinfo[14:23]. */
  function DateField(ti: string): string
  {
    Replace(PySlice(ti, 4, 14), " ", "0") + PySlice(ti, 14, 23)
  }

  /** int(timeinfo[30:-2]); only if that fails, int(timeinfo[30:-3]) (some files have the
      unit letter one place earlier). */
  function ParseUnit(ti: string): Option<int>
  {
    var first := ParseInt(PySlice(ti, 30, -2));
    if first.Some? then first else ParseInt(PySlice(ti, 30, -3))
  }

  /** The block the writer emits: "T0: {}  (scu={:8d}s)". */
  function Format(t0: DateTime, scu: int): string
    requires IsValid(t0)
  {
    "T0: " + FormatDateTime(t0) + "  (scu=" + FormatInt(scu, 8) + "s)"
  }

  /** A step unit that "{:8d}" writes in exactly eight characters. */
  predicate FitsWidth8(scu: int) { -9_999_999 <= scu <= 99_999_999 }

  function Pow10(k: nat): (r: nat)
    ensures r >= 1
  {
    if k == 0 then 1 else 10 * Pow10(k - 1)
  }

  lemma {:induction false} NatToStringShort(m: nat, k: nat)
    requires k >= 1
    ensures |NatToString(m)| <= k <==> m < Pow10(k)
    decreases m
  {
    if m >= 10 {
      if k == 1 {
        assert Pow10(1) == 10;
      } else {
        NatToStringShort(m / 10, k - 1);
      }
    } else {
      assert Pow10(k) >= 10 by { Pow10AtLeastTen(k); }
    }
  }

  lemma {:induction false} Pow10AtLeastTen(k: nat)
    requires k >= 1
    ensures Pow10(k) >= 10
  {
    if k > 1 { Pow10AtLeastTen(k - 1); }
  }

  lemma IntToStringWidth8(n: int)
    ensures |IntToString(n)| <= 8 <==> FitsWidth8(n)
  {
    assert Pow10(8) == 100_000_000;
    assert Pow10(7) == 10_000_000;
    if n < 0 {
      NatToStringShort(-n, 7);
    } else {
      NatToStringShort(n, 8);
    }
  }

  lemma YearText(y: int)
    requires 1 <= y <= 9999
    ensures |IntToString(y)| <= 4
    ensures |IntToString(y)| == 4 <==> 1000 <= y
    ensures 1000 <= y ==> IntToString(y) == Two(y / 100) + Two(y % 100)
  {
    assert Pow10(3) == 1000 && Pow10(4) == 10000;
    NatToStringShort(y, 3);
    NatToStringShort(y, 4);
    if 1000 <= y {
      var q := y / 10;
      var r := y / 100;
      assert NatToString(y) == NatToString(q) + [DigitChar(y % 10)];
      assert NatToString(q) == NatToString(r) + [DigitChar(q % 10)];
      assert NatToString(r) == NatToString(r / 10) + [DigitChar(r % 10)];
      assert NatToString(r / 10) == [DigitChar(r / 10)];
      assert y / 100 / 10 == y / 1000;
      assert q % 10 == y % 100 / 10;
      assert y % 10 == y % 100 % 10;
    }
  }

  lemma FormatDateTimeLength(d: DateTime)
    requires IsValid(d)
    ensures |FormatDateTime(d)| == |IntToString(d.year)| + 15
  {
  }

  lemma FormatPieces(t0: DateTime, scu: int)
    requires IsValid(t0)
    ensures |Format(t0, scu)| == |FormatDateTime(t0)| + |FormatInt(scu, 8)| + 13
  {
  }

  /** The written block is exactly 40 characters precisely when the year text and the padded
      step unit take 12 characters together. So with a four-digit year it is 40 precisely when
      the step unit fits its eight-character field, and with a fitting unit precisely when the
      year has four digits; a shorter year can be made up for by a longer unit. */
  lemma FormatLength(t0: DateTime, scu: int)
    requires IsValid(t0)
    ensures |Format(t0, scu)| == 40 <==>
      |IntToString(t0.year)| + (if |IntToString(scu)| >= 8 then |IntToString(scu)| else 8) == 12
    ensures 1000 <= t0.year ==> (|Format(t0, scu)| == 40 <==> FitsWidth8(scu))
    ensures FitsWidth8(scu) ==> (|Format(t0, scu)| == 40 <==> 1000 <= t0.year)
  {
    YearText(t0.year);
    IntToStringWidth8(scu);
    FormatDateTimeLength(t0);
    FormatPieces(t0, scu);
    var ys, ss := IntToString(t0.year), IntToString(scu);
    assert |FormatInt(scu, 8)| == if |ss| >= 8 then |ss| else 8;
    assert |Format(t0, scu)| == |ys| + |FormatInt(scu, 8)| + 28;
    assert |ys| <= 4;
  }

  /** With a three-digit year the date text the reader assembles has the '.' after the year
      where strptime wants the fourth digit of the year, so strptime refuses it. */
  lemma ShortYearNoDate(t0: DateTime, scu: int)
    requires IsValid(t0) && 100 <= t0.year < 1000
    ensures ParseDateTime(DateField(Format(t0, scu))) == None
  {
    var ys := IntToString(t0.year);
    YearText(t0.year);
    NatToStringShort(t0.year, 2);
    assert Pow10(2) == 100;
    assert |ys| == 3;
    var ti := Format(t0, scu);
    FormatPieces(t0, scu);
    FormatDateTimeLength(t0);
    assert ti[4..7] == ys && ti[7] == '.';
    var x := PySlice(ti, 4, 14);
    assert x == ti[4..14];
    assert x[..3] == ys && x[3] == '.';
    assert ' ' !in x[..3] by {
      forall i | 0 <= i < 3 ensures x[..3][i] != ' ' { assert IsDigit(ys[i]); }
    }
    ReplaceKeepsPrefix(x, ' ', "0", 3);
    var tail := x[3..];
    assert tail[..1] == ['.'] && tail[..1] != " ";
    assert Replace(tail, " ", "0") == [tail[0]] + Replace(tail[1..], " ", "0");
    var df := DateField(ti);
    assert df[3] == Replace(x, " ", "0")[3] == '.';
    assert !TwoDigitsAt(df, 2);
  }

  /** Seven two-digit groups joined by the separators of "%Y.%m.%d %H:%M:%S" form a date text
      whose fields are those groups. */
  lemma DateTextOf(y1: string, y2: string, mo: string, da: string, h: string, mi: string, se: string)
    requires |y1| == 2 && |y2| == 2 && |mo| == 2 && |da| == 2 && |h| == 2 && |mi| == 2 && |se| == 2
    requires TwoDigitsAt(y1, 0) && TwoDigitsAt(y2, 0) && TwoDigitsAt(mo, 0) && TwoDigitsAt(da, 0)
    requires TwoDigitsAt(h, 0) && TwoDigitsAt(mi, 0) && TwoDigitsAt(se, 0)
    ensures var s := y1 + y2 + "." + mo + "." + da + " " + h + ":" + mi + ":" + se;
      IsDateText(s) && Num2(s, 0) == Num2(y1, 0) && Num2(s, 2) == Num2(y2, 0) &&
      Num2(s, 5) == Num2(mo, 0) && Num2(s, 8) == Num2(da, 0) && Num2(s, 11) == Num2(h, 0) &&
      Num2(s, 14) == Num2(mi, 0) && Num2(s, 17) == Num2(se, 0)
  {
  }

  /** The ten characters of a date text before the time are digits and dots, never spaces. */
  lemma DateHasNoSpace(s: string)
    requires IsDateText(s)
    ensures ' ' !in s[..10]
  {
    assert forall i | 0 <= i < 10 :: s[..10][i] == s[i];
  }

  /** A four-digit year is written as its two centuries digits and its two year digits. */
  lemma ParseFormattedDate(d: DateTime)
    requires IsValid(d) && 1000 <= d.year
    ensures |FormatDateTime(d)| == 19
    ensures IsDateText(FormatDateTime(d))
    ensures ParseDateTime(FormatDateTime(d)) == Some(d)
  {
    YearText(d.year);
    var ds := FormatDateTime(d);
    var c, y := d.year / 100, d.year % 100;
    assert 100 * c + y == d.year;
    var y1, y2, mo, da := Two(c), Two(y), Two(d.month), Two(d.day);
    var h, mi, se := Two(d.hour), Two(d.minute), Two(d.second);
    assert ds == y1 + y2 + "." + mo + "." + da + " " + h + ":" + mi + ":" + se;
    DateTextOf(y1, y2, mo, da, h, mi, se);
    ParseFields(ds, d);
  }

  /** A date text whose fields read as those of a valid date parses to that date. */
  lemma ParseFields(s: string, d: DateTime)
    requires IsDateText(s) && IsValid(d)
    requires 100 * Num2(s, 0) + Num2(s, 2) == d.year && Num2(s, 5) == d.month
    requires Num2(s, 8) == d.day && Num2(s, 11) == d.hour && Num2(s, 14) == d.minute
    requires Num2(s, 17) == d.second
    ensures ParseDateTime(s) == Some(d)
  {
  }

  lemma FieldsOfFormat(t0: DateTime, scu: int)
    requires IsValid(t0) && 1000 <= t0.year && FitsWidth8(scu)
    ensures |Format(t0, scu)| == 40
    ensures PySlice(Format(t0, scu), 4, 14) == FormatDateTime(t0)[..10]
    ensures PySlice(Format(t0, scu), 14, 23) == FormatDateTime(t0)[10..]
    ensures PySlice(Format(t0, scu), 30, -2) == FormatInt(scu, 8)
  {
    FormatLength(t0, scu);
    ParseFormattedDate(t0);
    IntToStringWidth8(scu);
    var ds := FormatDateTime(t0);
    var u := FormatInt(scu, 8);
    assert |u| == 8;
    assert Format(t0, scu) == "T0: " + ds + "  (scu=" + u + "s)";
    SlicesOfBlock("T0: ", ds, "  (scu=", u, "s)");
  }

  lemma SlicesOfBlock(a: string, ds: string, b: string, u: string, c: string)
    requires |a| == 4 && |ds| == 19 && |b| == 7 && |u| == 8 && |c| == 2
    ensures PySlice(a + ds + b + u + c, 4, 14) == ds[..10]
    ensures PySlice(a + ds + b + u + c, 14, 23) == ds[10..]
    ensures PySlice(a + ds + b + u + c, 30, -2) == u
  {
    var ti := a + ds + b + u + c;
    assert |ti| == 40;
    assert ti[4..14] == ds[..10];
    assert ti[14..23] == ds[10..];
    assert ti[30..38] == u;
  }

  /** Reading back a block the writer produced recovers the start date and the step unit,
      through the first (nominal) unit position. */
  lemma ReadBackFormat(t0: DateTime, scu: int)
    requires IsValid(t0) && 1000 <= t0.year && FitsWidth8(scu)
    ensures ParseDateTime(DateField(Format(t0, scu))) == Some(t0)
    ensures ParseInt(PySlice(Format(t0, scu), 30, -2)) == Some(scu)
    ensures ParseUnit(Format(t0, scu)) == Some(scu)
  {
    var ds := FormatDateTime(t0);
    FieldsOfFormat(t0, scu);
    ParseFormattedDate(t0);
    DateHasNoSpace(ds);
    ReplaceAbsent(ds[..10], " ", "0", 0);
    assert ds[..10] + ds[10..] == ds;
    FormatIntParses(scu, 8);
  }

  /** The older layout with the unit letter one place earlier, "(scu=%7ds)" and one more
      character, fails at the nominal position and is read through the fallback. */
  lemma ReadBackEarlierUnit(prefix: string, scu: int, last: char)
    requires |prefix| == 30 && |FormatInt(scu, 7)| == 7
    ensures ParseUnit(prefix + FormatInt(scu, 7) + "s)" + [last]) == Some(scu)
  {
    var ti := prefix + FormatInt(scu, 7) + "s)" + [last];
    assert |ti| == 40;
    assert PySlice(ti, 30, -2) == FormatInt(scu, 7) + "s";
    EndsInLetterIsNoInt(FormatInt(scu, 7), 's');
    assert PySlice(ti, 30, -3) == FormatInt(scu, 7);
    FormatIntParses(scu, 7);
  }
}
