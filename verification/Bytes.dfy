/** Bytes, their bitwise conjunction, and a few facts about sequences of them. */
module Bytes {

  type byte = b: int | 0 <= b < 256

  datatype Option<+T> = None | Some(value: T)

  /** The bitwise "and" of two natural numbers. */
  function BitAnd(a: nat, b: nat): (r: nat)
    ensures r <= a && r <= b
  {
    if a == 0 || b == 0 then 0
    else 2 * BitAnd(a / 2, b / 2) + (a % 2) * (b % 2)
  }

  function Pow2(k: nat): (r: nat)
    ensures 1 <= r
  {
    if k == 0 then 1 else 2 * Pow2(k - 1)
  }

  lemma BytePowers()
    ensures Pow2(7) == 128 && Pow2(8) == 256
  {
    assert Pow2(3) == 8;
    assert Pow2(5) == 32;
  }

  /** The right shift of a natural number. */
  function Shr(d: nat, k: nat): (r: nat)
    ensures r <= d
  {
    if k == 0 then d else Shr(d, k - 1) / 2
  }

  lemma {:induction false} ShrFirst(d: nat, k: nat)
    requires k > 0
    ensures Shr(d, k) == Shr(d / 2, k - 1)
  {
    if k > 1 {
      ShrFirst(d, k - 1);
    }
  }

  lemma {:induction false} ShrOut(d: nat, k: nat)
    requires d < Pow2(k)
    ensures Shr(d, k) == 0
  {
    if k > 0 {
      ShrFirst(d, k);
      ShrOut(d / 2, k - 1);
    }
  }

  /** And-ing with a one-bit mask tests that bit. */
  lemma {:induction false} MaskTest(d: nat, k: nat)
    ensures BitAnd(d, Pow2(k)) != 0 <==> Shr(d, k) % 2 == 1
  {
    if k == 0 {
      assert BitAnd(d / 2, 0) == 0;
    } else if d > 0 {
      ShrFirst(d, k);
      MaskTest(d / 2, k - 1);
    } else {
      assert Shr(d, k) == 0;
    }
  }

  /** And-ing a `k`-bit number with `k` ones changes nothing. */
  lemma {:induction false} BitAndOnes(k: nat, d: nat)
    requires d < Pow2(k)
    ensures BitAnd(Pow2(k) - 1, d) == d
  {
    if k > 0 && d > 0 {
      assert (Pow2(k) - 1) / 2 == Pow2(k - 1) - 1 && (Pow2(k) - 1) % 2 == 1;
      BitAndOnes(k - 1, d / 2);
    }
  }

  /** Programming an erased byte stores the byte. */
  lemma ErasedTakesAnyByte(d: byte)
    ensures BitAnd(255, d) == d
  {
    BytePowers();
    BitAndOnes(8, d);
  }

  lemma Associate<T>(a: seq<T>, b: seq<T>, c: seq<T>)
    ensures a + (b + c) == a + b + c
  {
  }

  lemma JoinSlices<T>(s: seq<T>, i: nat, j: nat, k: nat)
    requires i <= j <= k <= |s|
    ensures s[i..j] + s[j..k] == s[i..k]
  {
  }

  /** Taking `front` off the middle of three parts and putting it behind the first. */
  lemma ShiftFront<T>(all: seq<T>, a: seq<T>, mid: seq<T>, c: seq<T>, front: seq<T>, rest: seq<T>)
    requires all == a + mid + c && front + rest == mid
    ensures all == a + front + rest + c
  {
    Associate(a, front, rest);
  }

  /** Appending to the whole what is appended to its last part. */
  lemma GrowBack<T>(all: seq<T>, a: seq<T>, b: seq<T>, last: seq<T>, more: seq<T>, longer: seq<T>)
    requires all == a + b + last && longer == last + more
    ensures all + more == a + b + longer
  {
    Associate(a + b, last, more);
  }

  lemma AppendInner<T>(a: seq<T>, b: seq<T>, c: seq<T>, d: seq<T>)
    ensures a + b + (c + d) == a + b + c + d
  {
  }

  lemma MoveAcross<T>(a: seq<T>, b: seq<T>, c: seq<T>, d: seq<T>)
    ensures a + b + (c + d) == a + (b + c) + d
  {
  }

  lemma DropAppended<T>(a: seq<T>, b: seq<T>, n: nat)
    requires n <= |a|
    ensures (a + b)[n..] == a[n..] + b
  {
  }

  lemma TakeMore<T>(a: seq<T>, i: nat, n: nat)
    requires i + n <= |a|
    ensures a[..i] + a[i..i + n] == a[..i + n]
  {
  }

  lemma AppendSnoc<T>(a: seq<T>, b: seq<T>)
    requires b != []
    ensures b == b[..|b| - 1] + [b[|b| - 1]]
    ensures a + b == (a + b[..|b| - 1]) + [b[|b| - 1]]
  {
  }

  /** Quotient and remainder are unique. */
  lemma DivisionIsUnique(x: nat, m: nat, q: nat, r: nat)
    requires r < m && x == q * m + r
    ensures x / m == q && x % m == r
  {
    var p := x / m;
    assert x == p * m + x % m;
    if p < q {
      MultiplyOrdered(p + 1, q, m);
    } else if q < p {
      MultiplyOrdered(q + 1, p, m);
    }
  }

  lemma MultiplyOrdered(a: nat, b: nat, m: nat)
    requires a <= b
    ensures a * m <= b * m
  {
  }
}
