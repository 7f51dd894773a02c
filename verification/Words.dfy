/** Machine words as bounded integers, and numbers written as sequences of limbs, lowest first. */
module Words {
  import opened Powers

  const TWO_32: nat := 0x1_0000_0000
  const TWO_64: nat := 0x1_0000_0000_0000_0000

  type u8 = x: int | 0 <= x < 0x100
  type u32 = x: int | 0 <= x < 0x1_0000_0000
  type u64 = x: int | 0 <= x < 0x1_0000_0000_0000_0000
  type i32 = x: int | -0x8000_0000 <= x < 0x8000_0000
  type i64 = x: int | -0x8000_0000_0000_0000 <= x < 0x8000_0000_0000_0000

  function Pow(b: nat, n: nat): (r: nat)
    ensures b > 0 ==> r > 0
  {
    if n == 0 then 1 else b * Pow(b, n - 1)
  }

  lemma {:induction false} PowAdd(b: nat, m: nat, n: nat)
    ensures Pow(b, m + n) == Pow(b, m) * Pow(b, n)
  {
    if m > 0 {
      PowAdd(b, m - 1, n);
      assert m + n - 1 == (m - 1) + n;
      MulAssoc(b, Pow(b, m - 1), Pow(b, n));
    }
  }

  lemma MulAssoc(a: int, b: int, c: int)
    ensures (a * b) * c == a * (b * c)
    ensures a * b == b * a
  {
  }

  lemma MulDistribute(a: int, b: int, c: int)
    ensures a * (b + c) == a * b + a * c
    ensures a * (b - c) == a * b - a * c
  {
  }

  /** The number with these limbs. */
  function Val(b: nat, x: seq<int>): int {
    if x == [] then 0 else x[0] + b * Val(b, x[1..])
  }

  ghost predicate Digits(b: nat, x: seq<int>) {
    forall i | 0 <= i < |x| :: 0 <= x[i] < b
  }

  lemma {:induction false} ValBound(b: nat, x: seq<int>)
    requires Digits(b, x)
    ensures 0 <= Val(b, x) < Pow(b, |x|) || (b == 0 && x != [])
  {
    if x != [] {
      ValBound(b, x[1..]);
      var t := Val(b, x[1..]);
      MulDistribute(b, Pow(b, |x| - 1), t + 1);
      MulMonotone(b, t + 1, Pow(b, |x| - 1));
      MulMonotone(b, 0, t);
      MulDistribute(b, t, 1);
    }
  }

  lemma {:induction false} ValAppend(b: nat, x: seq<int>, y: seq<int>)
    ensures Val(b, x + y) == Val(b, x) + Pow(b, |x|) * Val(b, y)
  {
    if x == [] {
      assert x + y == y;
    } else {
      assert (x + y)[1..] == x[1..] + y;
      ValAppend(b, x[1..], y);
      MulDistribute(b, Val(b, x[1..]), Pow(b, |x| - 1) * Val(b, y));
      MulAssoc(b, Pow(b, |x| - 1), Val(b, y));
    }
  }

  lemma ValOne(b: nat, y: int)
    ensures Val(b, [y]) == y
  {
    assert [y][1..] == [];
  }

  lemma ValSnoc(b: nat, x: seq<int>, y: int)
    ensures Val(b, x + [y]) == Val(b, x) + Pow(b, |x|) * y
  {
    ValAppend(b, x, [y]);
    ValOne(b, y);
  }

  lemma ValSplit(b: nat, x: seq<int>, k: nat)
    requires k <= |x|
    ensures Val(b, x) == Val(b, x[..k]) + Pow(b, k) * Val(b, x[k..])
  {
    assert x == x[..k] + x[k..];
    ValAppend(b, x[..k], x[k..]);
  }

  lemma ValUpdate(b: nat, x: seq<int>, i: nat, y: int)
    requires i < |x|
    ensures Val(b, x[i := y]) == Val(b, x) + Pow(b, i) * (y - x[i])
  {
    hide Pow;
    var x' := x[i := y];
    ValSplit(b, x, i);
    ValSplit(b, x', i);
    assert x'[..i] == x[..i];
    HeadOf(b, x, i);
    HeadOf(b, x', i);
    assert x'[i + 1..] == x[i + 1..];
    MulDistribute(Pow(b, i), Val(b, x'[i..]), Val(b, x[i..]));
  }

  lemma HeadOf(b: nat, x: seq<int>, i: nat)
    requires i < |x|
    ensures Val(b, x[i..]) == x[i] + b * Val(b, x[i + 1..])
  {
    assert x[i..][1..] == x[i + 1..];
  }

  lemma {:induction false} ValZero(b: nat, x: seq<int>)
    requires forall i | 0 <= i < |x| :: x[i] == 0
    ensures Val(b, x) == 0
  {
    if x != [] {
      ValZero(b, x[1..]);
    }
  }

  /** Digits in base b are determined by the number. */
  lemma {:induction false} ValUnique(b: nat, x: seq<int>, y: seq<int>)
    requires b > 0 && |x| == |y| && Digits(b, x) && Digits(b, y) && Val(b, x) == Val(b, y)
    ensures x == y
  {
    if x != [] {
      DivModUnique(Val(b, x), b, Val(b, x[1..]), x[0]);
      DivModUnique(Val(b, y), b, Val(b, y[1..]), y[0]);
      ValUnique(b, x[1..], y[1..]);
      assert x == [x[0]] + x[1..] && y == [y[0]] + y[1..];
    }
  }

  /** One step of a multiplication by rows: shifting the row gives the next one, up to a multiple of p. */
  lemma Horner(b: int, p: int, s: int, t: int, row: int, next: int, q: int)
    requires b * row == next + p * q
    ensures (s + b * t) * row == s * row + t * next + p * (t * q)
  {
    MulDistribute(row, s, b * t);
    MulAssoc(t, b, row);
    MulAssoc(b, t, row);
    MulDistribute(t, next, p * q);
    MulAssoc(t, p, q);
    MulAssoc(p, t, q);
  }

  /** The pieces in order. */
  function Joined<T>(pieces: seq<seq<T>>): seq<T> {
    if pieces == [] then [] else Joined(pieces[..|pieces| - 1]) + pieces[|pieces| - 1]
  }
}
