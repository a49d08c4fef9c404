/** Python integer arithmetic that the codecs rely on, and the facts about it they need. */
module Arith {
  /** A count that Python's range() treats as zero when it is negative. */
  function Max0(x: int): nat { if x < 0 then 0 else x }

  lemma MulLeft(a: int, b: int, c: nat)
    requires a <= b
    ensures a * c <= b * c
  {
  }

  /** int(a / b): the quotient rounded toward zero. */
  function TruncDiv(a: int, b: int): int
    requires b != 0
  {
    var m := (if a < 0 then -a else a) / (if b < 0 then -b else b);
    if (a < 0) == (b < 0) then m else -m
  }

  /** For a positive divisor, int(a / b) is the floor of a / b for a >= 0 and is 0 exactly
      when -b < a < 0. */
  lemma TruncDivFacts(a: int, b: int)
    requires 0 < b
    ensures 0 <= a ==> 0 <= TruncDiv(a, b) && TruncDiv(a, b) * b <= a < TruncDiv(a, b) * b + b
    ensures a < 0 ==> TruncDiv(a, b) <= 0 && (TruncDiv(a, b) == 0 <==> -b < a)
  {
    if 0 <= a {
      DivBounds(a, b);
    } else {
      DivBounds(-a, b);
    }
  }

  lemma DivBounds(a: nat, b: int)
    requires 0 < b
    ensures 0 <= a / b && (a / b) * b <= a < (a / b) * b + b
    ensures a / b == 0 <==> a < b
  {
    var q, r := a / b, a % b;
    assert a == q * b + r && 0 <= r < b;
    if q < 0 {
      MulLeft(q, -1, b);
    }
    if q > 0 {
      MulLeft(1, q, b);
    }
  }

  /** Python's a // b: the quotient rounded down. */
  function FloorDiv(a: int, b: int): int
    requires b != 0
  {
    if b > 0 then a / b else (-a) / (-b)
  }

  lemma FloorDivBounds(a: int, b: int)
    requires 0 < b
    ensures FloorDiv(a, b) * b <= a < FloorDiv(a, b) * b + b
  {
    var q, r := a / b, a % b;
    assert a == q * b + r && 0 <= r < b;
  }

  /** A multiple of b leaves no remainder. */
  lemma MulMod(k: int, b: int)
    requires 0 < b
    ensures (k * b) % b == 0
  {
    var q, r := (k * b) / b, (k * b) % b;
    assert k * b == q * b + r && 0 <= r < b;
    assert (k - q) * b == r;
    if k - q >= 1 {
      MulLeft(1, k - q, b);
    } else if k - q <= -1 {
      MulLeft(k - q, -1, b);
    }
  }
}
