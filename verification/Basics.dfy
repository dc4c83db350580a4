/** A value that may be missing. */
module Wrappers {

  datatype Option<+T> = None | Some(value: T)
}

/** Bytes as numbers. */
module Bytes {

  type Byte = b: int | 0 <= b < 256
}

/** Bytes as bit vectors, and 32-bit words as they lie in memory, the least significant byte first. */
module Words {

  type Byte = bv8

  function Word32(b0: Byte, b1: Byte, b2: Byte, b3: Byte): bv32 {
    (b0 as bv32) | ((b1 as bv32) << 8) | ((b2 as bv32) << 16) | ((b3 as bv32) << 24)
  }

  function Byte32(x: bv32, n: nat): Byte
    requires n < 4
  {
    if n == 0 then (x & 0xFF) as Byte
    else if n == 1 then ((x >> 8) & 0xFF) as Byte
    else if n == 2 then ((x >> 16) & 0xFF) as Byte
    else (x >> 24) as Byte
  }

  function Bytes32(x: bv32): seq<Byte> {
    [Byte32(x, 0), Byte32(x, 1), Byte32(x, 2), Byte32(x, 3)]
  }

  lemma Word32RoundTrip(x: bv32)
    ensures Word32(Byte32(x, 0), Byte32(x, 1), Byte32(x, 2), Byte32(x, 3)) == x
  {
  }

  lemma Byte32RoundTrip(b0: Byte, b1: Byte, b2: Byte, b3: Byte)
    ensures Bytes32(Word32(b0, b1, b2, b3)) == [b0, b1, b2, b3]
  {
  }
}

/** Sequences put together and overwritten. */
module Sequences {

  /** All the pieces one after the other. */
  function Concat<T>(pieces: seq<seq<T>>): seq<T>
    decreases |pieces|
  {
    if pieces == [] then [] else Concat(pieces[..|pieces| - 1]) + pieces[|pieces| - 1]
  }

  function Copies<T>(v: T, n: nat): (s: seq<T>)
    ensures |s| == n && forall i :: 0 <= i < n ==> s[i] == v
  {
    if n == 0 then [] else Copies(v, n - 1) + [v]
  }

  /** `s` with `d` written over it at `i`. */
  function Put<T>(s: seq<T>, i: nat, d: seq<T>): (r: seq<T>)
    requires i + |d| <= |s|
    ensures |r| == |s|
  {
    s[..i] + d + s[i + |d|..]
  }
}

/** Bounds on products and quotients. */
module Division {

  lemma Scales(a: nat, b: nat, n: nat)
    ensures a <= b ==> a * n <= b * n && n * a <= n * b
  {
  }

  lemma Divides(q: nat, d: nat, r: nat)
    requires r < d
    ensures (q * d + r) / d == q && (q * d + r) % d == r
  {
    var x := q * d + r;
    var k := q - x / d;
    assert d * k == q * d - d * (x / d) == x % d - r;
    assert k >= 1 ==> d * k >= d;
    assert k <= -1 ==> d * k + d <= 0;
  }

  lemma DivBounds(x: nat, d: nat)
    requires d > 0
    ensures x / d * d <= x < x / d * d + d
  {
  }

  /** A quotient is at most `q` when `q + 1` divisors are more than there is. */
  lemma DivAtMost(x: nat, d: nat, q: nat)
    requires d > 0 && x < (q + 1) * d
    ensures x / d <= q
  {
    var k := x / d - q;
    assert k * d == x / d * d - q * d;
    assert k >= 1 ==> k * d >= d;
  }

  lemma DivAtLeast(x: nat, d: nat, q: nat)
    requires d > 0 && q * d <= x
    ensures q <= x / d
  {
    var k := q - x / d;
    assert k * d == q * d - x / d * d;
    assert k >= 1 ==> k * d >= d;
  }
}

/** 32-bit signed registers. */
module Registers {

  predicate Fits(v: int) {
    -0x8000_0000 <= v < 0x8000_0000
  }

  /** The value a 32-bit register keeps of `v`. */
  function Int32(v: int): (r: int)
    ensures Fits(r) && (Fits(v) ==> r == v)
    decreases if v < 0 then -v else v + 1
  {
    if v < -0x8000_0000 then Int32(v + 0x1_0000_0000)
    else if v >= 0x8000_0000 then Int32(v - 0x1_0000_0000)
    else v
  }
}
