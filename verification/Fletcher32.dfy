/**
 The streaming Fletcher-32 checksum of bertos/algo/fletcher32.c: whatever the split of a
 message into updates, the result is the pair of sums of its little-endian 16-bit words modulo
 65535, and no 32-bit sum ever wraps on the way.
 */
module Fletcher32 {
  import opened Bytes
  import opened Sequences

  const BATCH: nat := 360
  const MOD: nat := 65535
  const WRAP: nat := 0x1_0000_0000

  // ----- Reference -----

  /** A little-endian 16-bit word. */
  function Word(lo: Byte, hi: Byte): (w: nat)
    ensures w < 65536
  {
    lo as int + 256 * hi as int
  }

  /** The `i`-th word of a message; an odd last byte is padded with zero. */
  function WordAt(msg: seq<Byte>, i: nat): nat
    requires 2 * i < |msg|
  {
    Word(msg[2 * i], if 2 * i + 1 < |msg| then msg[2 * i + 1] else 0)
  }

  /** The sum of the first `w` words. */
  function Sum1(msg: seq<Byte>, w: nat): nat
    requires 2 * w <= |msg| + 1
  {
    if w == 0 then 0 else Sum1(msg, w - 1) + WordAt(msg, w - 1)
  }

  /** The sum of the first `w` partial sums. */
  function Sum2(msg: seq<Byte>, w: nat): nat
    requires 2 * w <= |msg| + 1
  {
    if w == 0 then 0 else Sum2(msg, w - 1) + Sum1(msg, w)
  }

  /** The representative of `x` modulo 65535 in 1..65535. */
  function Rep(x: nat): nat {
    if x % MOD == 0 then MOD else x % MOD
  }

  /** The checksum of a whole message. */
  function Checksum(msg: seq<Byte>): nat {
    var w := (|msg| + 1) / 2;
    Rep(Sum2(msg, w)) * 65536 + Rep(Sum1(msg, w))
  }

  // ----- The checksum without its recursion -----

  /** Word `i` of a message that zeros follow. */
  function Padded(msg: seq<Byte>, i: nat): nat {
    (if 2 * i < |msg| then msg[2 * i] as int else 0) + 256 * (if 2 * i + 1 < |msg| then msg[2 * i + 1] as int else 0)
  }

  /** The sum of Padded(i) for i below `n`. */
  function Plain(msg: seq<Byte>, n: nat): nat {
    if n == 0 then 0 else Plain(msg, n - 1) + Padded(msg, n - 1)
  }

  /** The sum of (w - i) * Padded(i) for i below `n`. */
  function Weighted(msg: seq<Byte>, n: nat, w: nat): nat
    requires n <= w
  {
    if n == 0 then 0 else Weighted(msg, n - 1, w) + (w - (n - 1)) * Padded(msg, n - 1)
  }

  /** In the low half the words count alike, in the high half the first counts most; neither half is zero. */
  ghost predicate IsFletcher32(msg: seq<Byte>, r: nat) {
    var (w, low, high) := ((|msg| + 1) / 2, r % 65536, r / 65536);
    && 1 <= low <= 65535 && low % 65535 == Plain(msg, w) % 65535
    && 1 <= high <= 65535 && high % 65535 == Weighted(msg, w, w) % 65535
  }

  lemma {:induction false} WeightedGrows(msg: seq<Byte>, n: nat, w: nat)
    requires n <= w
    ensures Weighted(msg, n, w + 1) == Weighted(msg, n, w) + Plain(msg, n)
  {
    if n > 0 {
      WeightedGrows(msg, n - 1, w);
      var (k, x) := (w - (n - 1), Padded(msg, n - 1));
      assert (k + 1) * x == k * x + x;
    }
  }

  lemma {:induction false} SumsAre(msg: seq<Byte>, w: nat)
    requires 2 * w <= |msg| + 1
    ensures Sum1(msg, w) == Plain(msg, w) && Sum2(msg, w) == Weighted(msg, w, w)
  {
    if w > 0 {
      SumsAre(msg, w - 1);
      WeightedGrows(msg, w - 1, w - 1);
      assert WordAt(msg, w - 1) == Padded(msg, w - 1);
    }
  }

  lemma RepIs(x: nat)
    ensures 1 <= Rep(x) <= 65535 && Rep(x) % 65535 == x % 65535
  {
  }

  lemma Halves(low: nat, high: nat)
    requires low < 65536
    ensures (high * 65536 + low) % 65536 == low && (high * 65536 + low) / 65536 == high
  {
  }

  lemma ChecksumIsFletcher32(msg: seq<Byte>)
    ensures IsFletcher32(msg, Checksum(msg))
  {
    var w := (|msg| + 1) / 2;
    SumsAre(msg, w);
    RepIs(Sum1(msg, w));
    RepIs(Sum2(msg, w));
    Halves(Rep(Sum1(msg, w)), Rep(Sum2(msg, w)));
  }

  /** The checksum of the letters a to e. */
  lemma KnownChecksum()
    ensures Checksum([0x61, 0x62, 0x63, 0x64, 0x65]) == 0xF04F_C729
  {
    var msg := [0x61, 0x62, 0x63, 0x64, 0x65];
    assert WordAt(msg, 0) == 0x6261 && WordAt(msg, 1) == 0x6463 && WordAt(msg, 2) == 0x65;
    assert Sum1(msg, 1) == 0x6261 && Sum1(msg, 2) == 0xC6C4 && Sum1(msg, 3) == 0xC729;
    assert Sum2(msg, 1) == 0x6261 && Sum2(msg, 2) == 0x12925 && Sum2(msg, 3) == 0x1F04E;
  }

  /** The words already complete do not depend on what follows. */
  lemma {:induction false} SumsKept(msg: seq<Byte>, more: seq<Byte>, w: nat)
    requires 2 * w <= |msg|
    ensures Sum1(msg + more, w) == Sum1(msg, w) && Sum2(msg + more, w) == Sum2(msg, w)
    decreases w
  {
    if w > 0 {
      SumsKept(msg, more, w - 1);
      assert WordAt(msg + more, w - 1) == WordAt(msg, w - 1);
    }
  }

  // ----- Congruence modulo 65535 -----

  ghost predicate Same(x: nat, y: nat) {
    exists k: int :: Shifted(x, k) == y
  }

  ghost function Shifted(x: nat, k: int): int {
    x + MOD * k
  }

  lemma SameAdds(a: nat, b: nat, c: nat, d: nat)
    requires Same(a, b) && Same(c, d)
    ensures Same(a + c, b + d)
  {
    var k :| Shifted(a, k) == b;
    var l :| Shifted(c, l) == d;
    assert Shifted(a + c, k + l) == b + d;
  }

  lemma SameChains(a: nat, b: nat, c: nat)
    requires Same(a, b) && Same(b, c)
    ensures Same(a, c)
  {
    var k :| Shifted(a, k) == b;
    var l :| Shifted(b, l) == c;
    assert Shifted(a, k + l) == c;
  }

  lemma ResidueOfMultiple(x: int, k: int)
    requires 0 <= x < MOD
    ensures (x + MOD * k) % MOD == x
  {
  }

  lemma RepOf(x: nat, y: nat)
    requires 1 <= y <= MOD && Same(y, x)
    ensures y == Rep(x)
  {
    var k :| Shifted(y, k) == x;
    if y == MOD {
      ResidueOfMultiple(0, k + 1);
    } else {
      ResidueOfMultiple(y, k);
    }
  }

  /** One step of both sums keeps them congruent to the exact ones. */
  lemma AddTracks(sum1: nat, sum2: nat, data: nat, s1: nat, s2: nat)
    requires Same(sum1, s1) && Same(sum2, s2)
    ensures Same(sum1 + data, s1 + data)
    ensures Same(sum2 + (sum1 + data), s2 + (s1 + data))
  {
    assert Shifted(data, 0) == data;
    SameAdds(sum1, s1, data, data);
    SameAdds(sum2, s2, sum1 + data, s1 + data);
  }

  // ----- Folding -----

  /** `(x & 0xffff) + (x >> 16)`. */
  function Fold(x: nat): nat {
    x % 65536 + x / 65536
  }

  lemma FoldKeeps(x: nat, y: nat)
    requires x > 0 && Same(x, y)
    ensures Same(Fold(x), y) && Fold(x) > 0
  {
    assert Shifted(Fold(x), x / 65536) == x;
    SameChains(Fold(x), x, y);
  }

  /** The last fold lands on the 16-bit representative. */
  lemma LastFold(s: nat, x: nat)
    requires 1 <= s <= 131070 && Same(s, x)
    ensures Fold(s) == Rep(x) && 1 <= Fold(s) <= MOD
  {
    FoldKeeps(s, x);
    RepOf(x, Fold(s));
  }

  // ----- Bounds inside a batch -----

  /** Addition of `uint32_t` values. */
  function Add32(x: nat, y: nat): (r: nat)
    ensures x + y < WRAP ==> r == x + y
  {
    (x + y) % WRAP
  }

  /** The most `sum2` can be after `t` words of a batch. */
  function Most2(t: nat): nat {
    if t == 0 then 131070 else Most2(t - 1) + 65895 + 65535 * t
  }

  lemma {:induction false} Most2Closed(t: nat)
    ensures 2 * Most2(t) == 262140 + 131790 * t + 65535 * (t * (t + 1))
  {
    if t > 0 {
      Most2Closed(t - 1);
      assert t * (t + 1) == (t - 1) * t + 2 * t;
    }
  }

  lemma {:induction false} Most2Grows(s: nat, t: nat)
    requires s <= t
    ensures Most2(s) <= Most2(t)
    decreases t
  {
    if s < t {
      Most2Grows(s, t - 1);
    }
  }

  /** Neither sum has grown past what `t` words of a batch can make it. */
  ghost predicate Within(sum1: nat, sum2: nat, t: nat) {
    t <= BATCH && sum1 <= 65895 + 65535 * t && sum2 <= Most2(t)
  }

  /** The largest value either sum reaches inside a batch fits 32 bits. */
  lemma BatchFits(sum1: nat, sum2: nat, t: nat)
    requires Within(sum1, sum2, t)
    ensures sum1 <= 23658495 && sum2 <= 4282317570 < WRAP
  {
    Most2Closed(BATCH);
    Most2Grows(t, BATCH);
  }

  lemma StepFits(sum1: nat, sum2: nat, data: nat, t: nat)
    requires Within(sum1, sum2, t) && t < BATCH && data < 65536
    ensures Within(sum1 + data, sum2 + (sum1 + data), t + 1)
    ensures sum2 + (sum1 + data) < WRAP
  {
    BatchFits(sum1 + data, sum2 + (sum1 + data), t + 1);
  }

  lemma FoldShrinks(sum1: nat, sum2: nat, t: nat)
    requires Within(sum1, sum2, t)
    ensures Within(Fold(sum1), Fold(sum2), 0)
  {
    BatchFits(sum1, sum2, t);
  }

  // ----- The context -----

  /** The word read ahead at `p`: unspecified where it reaches past the buffer. */
  method Next(buf: seq<Byte>, p: nat) returns (data: nat)
    ensures p + 2 <= |buf| ==> data == Word(buf[p], buf[p + 1])
    ensures data < 65536
  {
    if p + 2 <= |buf| {
      data := Word(buf[p], buf[p + 1]);
    } else {
      data :| data < 65536;
    }
  }

  /** `data` is word `w` of `whole`, if that word is complete. */
  ghost predicate Ahead(whole: seq<Byte>, w: nat, data: nat) {
    2 * w + 2 <= |whole| ==> data == WordAt(whole, w)
  }

  class Digest {
    var sum1: nat
    var sum2: nat
    var carry: int
    ghost var msg: seq<Byte>

    /** The sums stand for the first `w` words of `whole`, `t` words into a batch. */
    ghost predicate Tracks(whole: seq<Byte>, w: nat, t: nat)
      reads this
    {
      && 2 * w <= |whole|
      && Same(sum1, Sum1(whole, w)) && Same(sum2, Sum2(whole, w))
      && sum1 > 0 && sum2 > 0 && Within(sum1, sum2, t)
    }

    ghost predicate Valid()
      reads this
    {
      && Tracks(msg, |msg| / 2, 0)
      && carry == if |msg| % 2 == 1 then msg[|msg| - 1] as int else -1
    }

    /** `fletcher32_init`. */
    constructor ()
      ensures Valid() && msg == []
    {
      sum1, sum2, carry, msg := 0xFFFF, 0xFFFF, -1, [];
      assert Shifted(0xFFFF, -1) == 0;
    }

    /** The two additions of the inner loop, in 32 bits. */
    method Add(data: nat, ghost whole: seq<Byte>, ghost w: nat, ghost t: nat)
      requires Tracks(whole, w, t) && t < BATCH && 2 * w + 2 <= |whole| && data == WordAt(whole, w)
      modifies this`sum1, this`sum2
      ensures Tracks(whole, w + 1, t + 1)
    {
      StepFits(sum1, sum2, data, t);
      AddTracks(sum1, sum2, data, Sum1(whole, w), Sum2(whole, w));
      sum1 := Add32(sum1, data);
      sum2 := Add32(sum2, sum1);
    }

    /** The end of a batch: both sums are folded once. */
    method Reduce(ghost whole: seq<Byte>, ghost w: nat, ghost t: nat)
      requires Tracks(whole, w, t)
      modifies this`sum1, this`sum2
      ensures Tracks(whole, w, 0)
    {
      FoldKeeps(sum1, Sum1(whole, w));
      FoldKeeps(sum2, Sum2(whole, w));
      FoldShrinks(sum1, sum2, t);
      sum1, sum2 := Fold(sum1), Fold(sum2);
    }

    /** One turn of the inner loop: the word in hand is added and the next one is read at `p`. */
    method Step(buf: seq<Byte>, p: nat, data: nat, ghost whole: seq<Byte>, ghost w: nat, ghost t: nat)
      returns (next: nat)
      requires Tracks(whole, w, t) && t < BATCH && 2 * w + 2 <= |whole| && Ahead(whole, w, data)
      requires whole == msg + buf && |msg| + p == 2 * w + 2
      modifies this`sum1, this`sum2
      ensures Tracks(whole, w + 1, t + 1) && Ahead(whole, w + 1, next)
    {
      Add(data, whole, w, t);
      next := Next(buf, p);
    }

    /** One pass of the outer loop: `tlen` words, the first of them already in `first`. */
    method Batch(buf: seq<Byte>, from: nat, first: nat, tlen: nat, ghost whole: seq<Byte>, ghost w: nat)
      returns (p: nat, data: nat)
      requires 1 <= tlen <= BATCH && Tracks(whole, w, 0) && 2 * (w + tlen) <= |whole|
      requires whole == msg + buf && |msg| + from == 2 * w + 2 && Ahead(whole, w, first)
      modifies this`sum1, this`sum2
      ensures Tracks(whole, w + tlen, 0) && Ahead(whole, w + tlen, data)
      ensures p == from + 2 * tlen
    {
      p, data := from, first;
      var t := 0;
      while t < tlen
        invariant t <= tlen && p == from + 2 * t
        invariant Tracks(whole, w + t, t) && Ahead(whole, w + t, data)
      {
        data := Step(buf, p, data, whole, w + t, t);
        p, t := p + 2, t + 1;
      }
      Reduce(whole, w + tlen, tlen);
    }

    /** The outer loop of `fletcher32_update` over the `count` complete words from word `w` on. */
    method Batches(buf: seq<Byte>, from: nat, first: nat, count: nat, ghost whole: seq<Byte>, ghost w: nat)
      requires Tracks(whole, w, 0) && w + count == |whole| / 2
      requires whole == msg + buf && Ahead(whole, w, first)
      requires count > 0 ==> |msg| + from == 2 * w + 2
      modifies this`sum1, this`sum2
      ensures Tracks(whole, |whole| / 2, 0)
    {
      var p, data, l := from, first, count;
      while l > 0
        invariant 0 <= l <= count && p == from + 2 * (count - l)
        invariant Tracks(whole, w + (count - l), 0) && Ahead(whole, w + (count - l), data)
      {
        var tlen := if l < BATCH then l else BATCH;
        p, data := Batch(buf, p, data, tlen, whole, w + (count - l));
        l := l - tlen;
      }
    }

    /** `fletcher32_update`: the chunk is appended to the message. */
    method Update(buf: seq<Byte>)
      requires Valid() && buf != []
      modifies this
      ensures Valid() && msg == old(msg) + buf
    {
      ghost var whole := msg + buf;
      SumsKept(msg, buf, |msg| / 2);
      var len, p, data := |buf|, 0, 0;
      var last := buf[len - 1];
      if carry != -1 {
        data, p := Word(carry, buf[0]), 1;
        carry := -1;
        len := len + 1;
      } else if len > 1 {
        data, p := Word(buf[0], buf[1]), 2;
      }
      if len % 2 == 1 {
        carry := last as int;
      }
      Batches(buf, p, data, len / 2, whole, |msg| / 2);
      msg := whole;
    }

    /** `fletcher32_final`. */
    method Final() returns (r: nat)
      requires Valid()
      ensures r == Checksum(msg) < WRAP && IsFletcher32(msg, r)
    {
      ChecksumIsFletcher32(msg);
      var s1, s2 := sum1, sum2;
      ghost var w := (|msg| + 1) / 2;
      if carry != -1 {
        assert WordAt(msg, w - 1) == carry;
        AddTracks(s1, s2, carry, Sum1(msg, w - 1), Sum2(msg, w - 1));
        s1 := Add32(s1, carry);
        s2 := Add32(s2, s1);
        FoldKeeps(s1, Sum1(msg, w));
        FoldKeeps(s2, Sum2(msg, w));
        s1, s2 := Fold(s1), Fold(s2);
      }
      LastFold(s1, Sum1(msg, w));
      LastFold(s2, Sum2(msg, w));
      r := Fold(s2) * 65536 + Fold(s1);
    }
  }

  /** Digesting a message in any non-empty chunks gives the checksum of the whole message. */
  method Stream(chunks: seq<seq<Byte>>) returns (r: nat)
    requires forall i :: 0 <= i < |chunks| ==> chunks[i] != []
    ensures r == Checksum(Concat(chunks)) && IsFletcher32(Concat(chunks), r)
  {
    var f := new Digest();
    for i := 0 to |chunks|
      invariant fresh(f) && f.Valid() && f.msg == Concat(chunks[..i])
    {
      f.Update(chunks[i]);
      assert chunks[..i + 1][..i] == chunks[..i];
    }
    assert chunks[..|chunks|] == chunks;
    r := f.Final();
  }
}
