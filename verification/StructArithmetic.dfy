/**
 Rounding up: the consumer's way of aligning, and what remainders say about it.
 */
module StructArithmetic {
  import opened StructLayout

  lemma {:induction false} UpwardsBounds(from: int, x: int, a: nat)
    requires a > 0
    ensures Upwards(from, x, a) >= from && Upwards(from, x, a) >= x
    ensures x <= from ==> Upwards(from, x, a) == from
    ensures x > from ==> Upwards(from, x, a) < x + a
    decreases x - from
  {
    if x > from {
      UpwardsBounds(from + a, x, a);
    }
  }

  /** What is reached stays reached, and the next step from there is one a further. */
  lemma {:induction false} UpwardsAgain(from: int, x: int, a: nat)
    requires a > 0
    ensures var y := Upwards(from, x, a); Upwards(from, y, a) == y && Upwards(from, y + a, a) == y + a
    decreases x - from
  {
    UpwardsBounds(from, x, a);
    if x > from {
      UpwardsAgain(from + a, x, a);
    }
  }

  lemma AlignProperties(x: int, a: nat, pack: bool)
    requires a > 0 && x >= 0
    ensures var y := AlignTo(x, a, pack);
      x <= y < x + a && AlignTo(y, a, pack) == y && AlignTo(y + a, a, pack) == y + a
  {
    UpwardsBounds(0, x, a);
    UpwardsAgain(0, x, a);
  }

  /** Stepping up by a, and remainders. */
  lemma RemainderShifts(x: int, a: nat)
    requires a > 0
    ensures (x + a) % a == x % a && (x - a) % a == x % a
  {
    RemainderOf(x + a, a, x / a + 1, x % a);
    RemainderOf(x - a, a, x / a - 1, x % a);
  }

  lemma RemainderOf(x: int, a: nat, q: int, r: int)
    requires a > 0 && 0 <= r < a && x == a * q + r
    ensures x % a == r
  {
    var d := q - x / a;
    assert a * d == x % a - r by { Distributes(a, q, x / a); }
    SmallMultiple(a, d);
  }

  lemma Distributes(a: int, q: int, q': int)
    ensures a * (q - q') == a * q - a * q'
  {
  }

  lemma SmallMultiple(a: nat, d: int)
    ensures d >= 1 ==> a * d >= a
    ensures d <= -1 ==> a * d + a <= 0
  {
    if d >= 1 {
      assert a * d == a + a * (d - 1);
    } else if d <= -1 {
      assert a * d + a == a * (d + 1);
    }
  }

  /** Rounding up, by the remainder. */
  lemma {:induction false} UpwardsRemainder(from: int, x: int, a: nat)
    requires a > 0 && from % a == 0 && x > from - a
    ensures Upwards(from, x, a) == if x % a == 0 then x else x + (a - x % a)
    decreases x - from
  {
    if x > from {
      RemainderShifts(from, a);
      UpwardsRemainder(from + a, x, a);
    } else {
      // from - a < x <= from
      var r := if x == from then 0 else x - (from - a);
      RemainderShifts(from, a);
      RemainderOf(x, a, if x == from then from / a else from / a - 1, r);
    }
  }

  lemma RoundUpRemainder(x: nat, a: nat)
    requires a > 0
    ensures RoundUp(x, a) == if x % a == 0 then x else x + (a - x % a)
  {
    UpwardsRemainder(0, x, a);
  }

  /** Rounding bytes and rounding bits. */
  lemma {:induction false} UpwardsScales(from: int, x: int, a: nat)
    requires a > 0
    ensures Upwards(8 * from, 8 * x, 8 * a) == 8 * Upwards(from, x, a)
    decreases x - from
  {
    if x > from {
      UpwardsScales(from + a, x, a);
    }
  }

  /** Being a multiple, in bytes and in bits. */
  lemma MultipleInBits(bytes: nat, a: nat)
    requires a > 0
    ensures bytes % a == 0 <==> RoundUp(8 * bytes, 8 * a) == 8 * bytes
  {
    RoundUpRemainder(bytes, a);
    UpwardsScales(0, bytes, a);
  }

  lemma Divides(x: int, a: nat, b: nat)
    requires a > 0 && b > 0 && x % a == 0 && a % b == 0
    ensures x % b == 0
  {
    var q, k := x / a, a / b;
    assert x == a * q && a == b * k;
    Regroups(b, k, q);
    RemainderOf(x, b, k * q, 0);
  }

  lemma Regroups(b: int, k: int, q: int)
    ensures (b * k) * q == b * (k * q)
  {
  }

  /** Of two unit sizes, one divides the other. */
  predicate OneDivides(a: nat, b: nat) {
    a > 0 && b > 0 && (a % b == 0 || b % a == 0)
  }

  /** From the end of an open unit, the next unit starts right there or farther away than the open
      one has room. */
  lemma NextUnitApart(pos: int, end: int, open: nat, unit: nat, pack: bool)
    requires OneDivides(open, unit) && 0 <= pos <= end < pos + open && AlignTo(end, open, pack) == end
    ensures AlignTo(end, unit, pack) == end || AlignTo(end, unit, pack) - end > end - pos
  {
    if !pack {
      var next := RoundUp(end, unit);
      RoundUpRemainder(end, open);
      RoundUpRemainder(end, unit);
      UpwardsBounds(0, end, unit);
      UpwardsAgain(0, end, unit);
      RoundUpRemainder(next, unit);
      if open % unit == 0 {
        Divides(end, open, unit);
      } else if next > end {
        Divides(next, unit, open);
        ApartByMultiple(end, next, open);
      }
    }
  }

  lemma ApartByMultiple(x: int, y: int, a: nat)
    requires a > 0 && x % a == 0 && y % a == 0 && x < y
    ensures y - x >= a
  {
    var d := y / a - x / a;
    assert y - x == a * d by { Distributes(a, y / a, x / a); }
    SmallMultiple(a, d);
  }
}
