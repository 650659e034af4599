/** Bytes, machine words and the little-endian encoding shared by the ELF, FAT and config models. */
module Bytes {
  import opened Arithmetic

  type Byte = b: int | 0 <= b < 256

  const U64_LIMIT: int := 0x1_0000_0000_0000_0000

  /** `256` to the power of `n`: the number of values `n` bytes can hold. */
  function Capacity(n: nat): (c: nat)
    ensures c >= 1
  {
    if n == 0 then 1 else 256 * Capacity(n - 1)
  }

  /** The `n` low bytes of `x`, least significant first (`to_le_bytes`). */
  function ToLE(x: nat, n: nat): (s: seq<Byte>)
    ensures |s| == n
  {
    if n == 0 then [] else [x % 256] + ToLE(x / 256, n - 1)
  }

  /** The number whose little-endian bytes are `s` (`from_le_bytes`). */
  function FromLE(s: seq<Byte>): (x: nat)
    ensures x < Capacity(|s|)
  {
    if s == [] then 0 else s[0] + 256 * FromLE(s[1..])
  }

  lemma {:induction false} FromToLE(x: nat, n: nat)
    requires x < Capacity(n)
    ensures FromLE(ToLE(x, n)) == x
  {
    if n > 0 {
      FromToLE(x / 256, n - 1);
      assert ToLE(x, n)[1..] == ToLE(x / 256, n - 1);
    }
  }

  lemma {:induction false} ToFromLE(s: seq<Byte>)
    ensures ToLE(FromLE(s), |s|) == s
  {
    if s != [] {
      var x := FromLE(s);
      assert x % 256 == s[0] && x / 256 == FromLE(s[1..]);
      ToFromLE(s[1..]);
    }
  }

  /** Byte `i` of a number is its digit to base 256. */
  lemma {:induction false} ByteOfLE(x: nat, n: nat, i: nat)
    requires i < n
    ensures ToLE(x, n)[i] == x / Capacity(i) % 256
  {
    if i > 0 {
      ByteOfLE(x / 256, n - 1, i - 1);
      DivideTwice(x, Capacity(i - 1));
    }
  }

  lemma DivideTwice(x: nat, c: nat)
    requires c > 0
    ensures x / 256 / c == x / (256 * c)
  {
    var q, r := x / 256 / c, x / 256 % c;
    assert x / 256 == q * c + r;
    assert x == q * (256 * c) + (256 * r + x % 256) && 256 * r + x % 256 < 256 * c;
    QuotientIs(x, 256 * c, q, 256 * r + x % 256);
  }

  lemma Capacities()
    ensures Capacity(1) == 256 && Capacity(2) == 0x1_0000
    ensures Capacity(4) == 0x1_0000_0000 && Capacity(8) == U64_LIMIT
  {
    assert Capacity(3) == 256 * Capacity(2);
    assert Capacity(4) == 256 * Capacity(3);
    assert Capacity(5) == 256 * Capacity(4);
    assert Capacity(6) == 256 * Capacity(5);
    assert Capacity(7) == 256 * Capacity(6);
    assert Capacity(8) == 256 * Capacity(7);
  }
}

/** Outcomes of operations that can fail. A Rust panic and an `Err` are both failures here, because
    every caller of this code turns an `Err` into a panic; running out of physical frames is kept
    apart, so that contracts can say that nothing else goes wrong. */
module Outcomes {

  datatype Option<+T> = None | Some(value: T)

  datatype Failure =
    | OutOfFrames
    | Rejected(reason: string)
    | Panic(reason: string)

  datatype Result<+T> = Ok(value: T) | Err(error: Failure) {
    predicate IsFailure() { Err? }

    function PropagateFailure<U>(): Result<U>
      requires Err?
    {
      Err(error)
    }

    function Extract(): T
      requires Ok?
    {
      value
    }
  }
}

/** Products that the solver does not relate on its own. */
module Arithmetic {

  lemma MulLessEqual(a: int, c: int, b: nat)
    requires a <= c
    ensures a * b <= c * b
  {
    assert (c - a) * b >= 0;
    Distribute(a, c - a, b);
  }

  lemma MulLess(a: int, c: int, b: nat)
    ensures a < c ==> a * b + b <= c * b
  {
    if a < c {
      MulLessEqual(a + 1, c, b);
      Distribute(a, 1, b);
    }
  }

  lemma Distribute(a: int, c: int, b: int)
    ensures (a + c) * b == a * b + c * b
  {
  }

  lemma Associate(a: int, b: int, c: int)
    ensures a * b * c == a * (c * b)
  {
  }

  lemma DivMul(a: nat, b: nat)
    requires b > 0
    ensures a / b * b <= a < a / b * b + b
  {
    assert a == a / b * b + a % b;
  }

  lemma MulMod(q: nat, b: nat)
    requires b > 0
    ensures q * b % b == 0 && q * b / b == q
  {
    var k := q * b / b;
    DivMul(q * b, b);
    MulLess(k, q, b);
    MulLess(q, k, b);
    assert q * b == k * b + q * b % b;
  }

  lemma ModSum(x: nat, y: nat, a: nat)
    requires a > 0 && x % a == 0 && y % a == 0
    ensures (x + y) % a == 0
  {
    var k, m := x / a, y / a;
    assert x == k * a && y == m * a;
    Distribute(k, m, a);
    MulMod(k + m, a);
  }

  lemma ModTwice(x: nat, b: nat, a: nat)
    requires a > 0 && b > 0 && b % a == 0 && x % b == 0
    ensures x % a == 0
  {
    ModProduct(x / b, b, a);
  }

  lemma SameRemainder(d: nat, m: nat, a: nat)
    requires a > 0
    ensures (d + m) % a == d % a <==> m % a == 0
  {
    DivMod(d, a);
    DivMod(d + m, a);
    DivMod(m, a);
    Cancel(d / a, (d + m) / a, d % a, m, a);
    AddMultiple(d / a, m / a, d % a, a);
  }

  lemma DivMod(x: nat, a: nat)
    requires a > 0
    ensures x == x / a * a + x % a
  {
  }

  lemma Cancel(q: nat, k: nat, r: nat, m: nat, a: nat)
    requires a > 0
    ensures q * a + r + m == k * a + r ==> m % a == 0
  {
    if q * a + r + m == k * a + r {
      MulLess(k, q, a);
      Distribute(k - q, q, a);
      QuotientIs(m, a, k - q, 0);
    }
  }

  lemma AddMultiple(q: nat, n: nat, r: nat, a: nat)
    requires r < a
    ensures (q * a + r + n * a) % a == r
  {
    Distribute(q, n, a);
    QuotientIs(q * a + r + n * a, a, q + n, r);
  }

  lemma QuotientIs(x: nat, b: nat, q: nat, r: nat)
    requires x == q * b + r && r < b
    ensures x / b == q && x % b == r
  {
    var k := x / b;
    DivMul(x, b);
    MulLess(k, q, b);
    MulLess(q, k, b);
    assert x == k * b + x % b;
  }

  lemma ModProduct(k: nat, x: nat, a: nat)
    requires a > 0 && x % a == 0
    ensures k * x % a == 0
  {
    var q := x / a;
    assert x == q * a;
    Associate(k, q, a);
    assert k * x == k * (a * q);
    MulMod(k * q, a);
  }
}

/** The frames an allocator will hand out, in order. */
module FrameSupply {
  /** Whether `rest` is what remains of `all` after some frames at its front were handed out. */
  predicate IsRest(rest: seq<int>, all: seq<int>) {
    |rest| <= |all| && rest == all[|all| - |rest|..]
  }

  lemma RestOfRest(rest: seq<int>, all: seq<int>)
    requires IsRest(rest, all) && rest != []
    ensures IsRest(rest[1..], all)
  {
  }

  lemma RestTwice(a: seq<int>, b: seq<int>, c: seq<int>)
    requires IsRest(a, b) && IsRest(b, c)
    ensures IsRest(a, c)
  {
  }

  lemma RestAll(a: seq<int>)
    ensures IsRest(a, a)
  {
  }

  lemma RestMembers(a: seq<int>, b: seq<int>)
    requires IsRest(a, b)
    ensures forall f | f in a :: f in b
  {
  }

  /** Whether frame `f` was handed out in between. */
  ghost predicate Taken(f: int, before: seq<int>, after: seq<int>) {
    f in before && f !in after
  }

  lemma TakenLater(before: seq<int>, now: seq<int>, after: seq<int>)
    requires IsRest(after, now)
    ensures forall f | Taken(f, before, now) :: Taken(f, before, after)
  {
  }

  lemma TakenEarlier(earlier: seq<int>, before: seq<int>, now: seq<int>)
    requires IsRest(before, earlier)
    ensures forall f | Taken(f, before, now) :: Taken(f, earlier, now)
  {
  }
}
