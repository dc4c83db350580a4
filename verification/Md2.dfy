/**
 The streaming MD2 of bertos/algo/md2.c against the two-pass definition of RFC 1319. The byte
 permutation is a parameter: nothing here depends on which one is configured.
 */
module Md2 {
  import opened Sequences
  import opened Words

  type Permutation = Byte -> Byte

  const BLOCK: nat := 16
  const ROUNDS: nat := 18

  // ----- Sections 3.1 to 3.4 of RFC 1319 -----

  function Xor(a: Byte, b: Byte): Byte {
    a ^ b
  }

  function Zeros(n: nat): (s: seq<Byte>)
    ensures |s| == n
  {
    Copies(0, n)
  }

  /** Section 3.1: `i` bytes of value `i` complete the last block. */
  function Padding(n: nat): (s: seq<Byte>)
    ensures 1 <= |s| <= BLOCK && (n + |s|) % BLOCK == 0
  {
    var i := BLOCK - n % BLOCK;
    Copies(i as Byte, i)
  }

  /** Section 3.2: one block, byte by byte, with `last` carried from byte to byte. */
  function SumBytes(perm: Permutation, c: seq<Byte>, last: Byte, block: seq<Byte>, j: nat): (s: seq<Byte>)
    requires |c| == |block| == BLOCK && j <= BLOCK
    ensures |s| == j
  {
    if j == 0 then []
    else
      var s := SumBytes(perm, c, last, block, j - 1);
      s + [Xor(c[j - 1], perm(Xor(block[j - 1], Last(s, last))))]
  }

  /** The last byte of `s`, or `first` before there is one. */
  function Last(s: seq<Byte>, first: Byte): Byte {
    if s == [] then first else s[|s| - 1]
  }

  /** Section 3.2 over all the blocks of `m`: the checksum and the carried byte. */
  function SumBlocks(perm: Permutation, m: seq<Byte>): (r: (seq<Byte>, Byte))
    requires |m| % BLOCK == 0
    ensures |r.0| == BLOCK
    decreases |m|
  {
    if m == [] then (Zeros(BLOCK), 0)
    else
      var (c, last) := SumBlocks(perm, m[..|m| - BLOCK]);
      var s := SumBytes(perm, c, last, m[|m| - BLOCK..], BLOCK);
      (s, Last(s, last))
  }

  /** One sweep of section 3.4 over the buffer. */
  function Sweep(perm: Permutation, x: seq<Byte>, t: Byte, k: nat): (s: seq<Byte>)
    requires k <= |x|
    ensures |s| == k
  {
    if k == 0 then []
    else
      var s := Sweep(perm, x, t, k - 1);
      s + [Xor(x[k - 1], perm(Last(s, t)))]
  }

  /** The first `n` rounds of section 3.4: the buffer and the carried byte. */
  function Rounds(perm: Permutation, x: seq<Byte>, n: nat): (r: (seq<Byte>, Byte))
    requires n <= ROUNDS
    ensures |r.0| == |x|
  {
    if n == 0 then (x, 0)
    else
      var (y, t) := Rounds(perm, x, n - 1);
      var s := Sweep(perm, y, t, |y|);
      (s, Last(s, t) + (n - 1) as Byte)
  }

  function XorEach(a: seq<Byte>, b: seq<Byte>, n: nat): (s: seq<Byte>)
    requires n <= |a| && n <= |b|
    ensures |s| == n
  {
    if n == 0 then [] else XorEach(a, b, n - 1) + [Xor(a[n - 1], b[n - 1])]
  }

  /** Sections 3.3 and 3.4: the 48-byte buffer after all the blocks of `m`. */
  function MdBuffer(perm: Permutation, m: seq<Byte>): (x: seq<Byte>)
    requires |m| % BLOCK == 0
    ensures |x| == 3 * BLOCK
    decreases |m|
  {
    if m == [] then Zeros(3 * BLOCK)
    else
      var x := MdBuffer(perm, m[..|m| - BLOCK])[..BLOCK];
      var block := m[|m| - BLOCK..];
      Rounds(perm, x + block + XorEach(block, x, BLOCK), ROUNDS).0
  }

  /** The message with its padding and then its checksum appended. */
  function Appended(perm: Permutation, msg: seq<Byte>): (m: seq<Byte>)
    ensures |m| % BLOCK == 0
  {
    var padded := msg + Padding(|msg|);
    padded + SumBlocks(perm, padded).0
  }

  /** Section 3.5: the digest is the first 16 bytes of the buffer. */
  function Digest(perm: Permutation, msg: seq<Byte>): (d: seq<Byte>)
    ensures |d| == BLOCK
  {
    MdBuffer(perm, Appended(perm, msg))[..BLOCK]
  }

  // ----- What `md2_compute` does to the state and the checksum -----

  function NextState(perm: Permutation, state: seq<Byte>, block: seq<Byte>): (s: seq<Byte>)
    requires |state| == |block| == BLOCK
    ensures |s| == BLOCK
  {
    Rounds(perm, state + block + XorEach(state, block, BLOCK), ROUNDS).0[..BLOCK]
  }

  function NextSum(perm: Permutation, c: seq<Byte>, block: seq<Byte>): (s: seq<Byte>)
    requires |c| == |block| == BLOCK
    ensures |s| == BLOCK
  {
    SumBytes(perm, c, c[BLOCK - 1], block, BLOCK)
  }

  lemma XorIs(a: Byte, b: Byte)
    ensures Xor(a, b) == (a | b) & !(a & b)
  {
  }

  lemma XorSwaps(a: Byte, b: Byte)
    ensures Xor(a, b) == Xor(b, a)
  {
  }

  lemma {:induction false} XorEachSwaps(a: seq<Byte>, b: seq<Byte>, n: nat)
    requires n <= |a| && n <= |b|
    ensures XorEach(a, b, n) == XorEach(b, a, n)
    decreases n
  {
    if n > 0 {
      XorEachSwaps(a, b, n - 1);
      XorSwaps(a[n - 1], b[n - 1]);
    }
  }

  /** Keeping 16 of the 48 bytes between blocks loses nothing. */
  lemma StateFollowsBuffer(perm: Permutation, m: seq<Byte>, block: seq<Byte>)
    requires |m| % BLOCK == 0 && |block| == BLOCK
    ensures MdBuffer(perm, m + block)[..BLOCK] == NextState(perm, MdBuffer(perm, m)[..BLOCK], block)
  {
    var n := m + block;
    assert n[..|n| - BLOCK] == m && n[|n| - BLOCK..] == block;
    XorEachSwaps(block, MdBuffer(perm, m)[..BLOCK], BLOCK);
  }

  /** The byte carried from block to block is always the last byte of the checksum. */
  lemma CarryIsLastByte(perm: Permutation, m: seq<Byte>)
    requires |m| % BLOCK == 0
    ensures SumBlocks(perm, m).1 == SumBlocks(perm, m).0[BLOCK - 1]
  {
    if m == [] {
      assert SumBlocks(perm, m).0 == Zeros(BLOCK);
    }
  }

  lemma SumFollowsBlocks(perm: Permutation, m: seq<Byte>, block: seq<Byte>)
    requires |m| % BLOCK == 0 && |block| == BLOCK
    ensures SumBlocks(perm, m + block).0 == NextSum(perm, SumBlocks(perm, m).0, block)
  {
    var n := m + block;
    assert n[..|n| - BLOCK] == m && n[|n| - BLOCK..] == block;
    CarryIsLastByte(perm, m);
  }

  lemma Aligned(m: seq<Byte>, block: seq<Byte>)
    requires |m| % BLOCK == 0 && |block| == BLOCK
    ensures |m + block| % BLOCK == 0
  {
  }

  // ----- The digest in terms of bytes alone -----

  /** Section 3.4, one round: every byte takes in the permuted byte before it, the first one `t`. */
  ghost predicate IsSweep(perm: Permutation, x: seq<Byte>, t: Byte, y: seq<Byte>) {
    |y| == |x| && forall k :: 0 <= k < |x| ==> y[k] == Xor(x[k], perm(if k == 0 then t else y[k - 1]))
  }

  ghost predicate IsRound(perm: Permutation, grid: seq<seq<Byte>>, ts: seq<Byte>, j: nat) {
    && j < 18 && j + 1 < |grid| && j + 1 < |ts| && |grid[j + 1]| == 48
    && IsSweep(perm, grid[j], ts[j], grid[j + 1]) && ts[j + 1] == grid[j + 1][47] + (j as Byte)
  }

  /** Section 3.4, one block: 18 rounds over state, block and their exclusive or; round `j` adds `j` to the carried byte. */
  ghost predicate CompressedBy(perm: Permutation, state: seq<Byte>, block: seq<Byte>, out: seq<Byte>,
                               grid: seq<seq<Byte>>, ts: seq<Byte>)
    requires |state| == |block| == |out| == 16
  {
    && |grid| == |ts| == 19 && |grid[0]| == 48 && |grid[18]| == 48 && ts[0] == 0
    && (forall i :: 0 <= i < 16 ==> grid[0][i] == state[i])
    && (forall i :: 0 <= i < 16 ==> grid[0][16 + i] == block[i])
    && (forall i :: 0 <= i < 16 ==> grid[0][32 + i] == Xor(state[i], block[i]))
    && (forall j: nat :: j < 18 ==> IsRound(perm, grid, ts, j))
    && out == grid[18][..16]
  }

  ghost predicate Compressed(perm: Permutation, state: seq<Byte>, block: seq<Byte>, out: seq<Byte>) {
    && |state| == |block| == |out| == 16
    && exists grid: seq<seq<Byte>>, ts: seq<Byte> :: CompressedBy(perm, state, block, out, grid, ts)
  }

  /** Section 3.2, one block: every byte takes in the permuted sum of the message byte and the checksum byte before. */
  ghost predicate Summed(perm: Permutation, c: seq<Byte>, block: seq<Byte>, d: seq<Byte>) {
    && |c| == |block| == |d| == 16
    && forall k :: 0 <= k < 16 ==> d[k] == Xor(c[k], perm(Xor(block[k], if k == 0 then c[15] else d[k - 1])))
  }

  ghost predicate IsZero(s: seq<Byte>) {
    |s| == 16 && forall i :: 0 <= i < 16 ==> s[i] == 0
  }

  /** Block `i` of `m` takes both the checksum and the state one further. */
  ghost predicate Absorbed(perm: Permutation, m: seq<Byte>, states: seq<seq<Byte>>, sums: seq<seq<Byte>>, i: nat) {
    && i + 1 < |states| && i + 1 < |sums| && 16 * i + 16 <= |m|
    && Summed(perm, sums[i], m[16 * i..16 * i + 16], sums[i + 1])
    && Compressed(perm, states[i], m[16 * i..16 * i + 16], states[i + 1])
  }

  /** Sections 3.1 to 3.5: padding, checksum over the padded message, and the state after both. */
  ghost predicate IsDigest(perm: Permutation, msg: seq<Byte>, digest: seq<Byte>) {
    exists pad: seq<Byte>, states: seq<seq<Byte>>, sums: seq<seq<Byte>> ::
      DigestedBy(perm, msg, digest, pad, states, sums)
  }

  ghost predicate DigestedBy(perm: Permutation, msg: seq<Byte>, digest: seq<Byte>, pad: seq<Byte>,
                             states: seq<seq<Byte>>, sums: seq<seq<Byte>>) {
    var m := msg + pad;
    var n := |m| / 16;
    && 1 <= |pad| <= 16 && |m| == 16 * n && (forall i :: 0 <= i < |pad| ==> pad[i] == |pad| as Byte)
    && |states| == |sums| == n + 1 && IsZero(states[0]) && IsZero(sums[0])
    && (forall i: nat :: i < n ==> Absorbed(perm, m, states, sums, i))
    && Compressed(perm, states[n], sums[n], digest)
  }

  lemma {:induction false} SweepIs(perm: Permutation, x: seq<Byte>, t: Byte, k: nat, i: nat)
    requires i < k <= |x|
    ensures Sweep(perm, x, t, k)[i] == Xor(x[i], perm(if i == 0 then t else Sweep(perm, x, t, k)[i - 1]))
    decreases k
  {
    if i < k - 1 {
      SweepIs(perm, x, t, k - 1, i);
    }
  }

  lemma RoundIs(perm: Permutation, x: seq<Byte>, grid: seq<seq<Byte>>, ts: seq<Byte>, j: nat)
    requires |x| == 48 && |grid| == |ts| == 19 && j < 18
    requires (grid[j], ts[j]) == Rounds(perm, x, j) && (grid[j + 1], ts[j + 1]) == Rounds(perm, x, j + 1)
    ensures IsRound(perm, grid, ts, j)
  {
    var y := grid[j];
    forall k | 0 <= k < 48
      ensures grid[j + 1][k] == Xor(y[k], perm(if k == 0 then ts[j] else grid[j + 1][k - 1]))
    {
      SweepIs(perm, y, ts[j], 48, k);
    }
  }

  lemma {:induction false} XorEachIs(a: seq<Byte>, b: seq<Byte>, n: nat, i: nat)
    requires i < n <= |a| && n <= |b|
    ensures XorEach(a, b, n)[i] == Xor(a[i], b[i])
    decreases n
  {
    if i < n - 1 {
      XorEachIs(a, b, n - 1, i);
    }
  }

  /** All the buffers of the 18 rounds, and all the carried bytes. */
  function Buffers(perm: Permutation, x: seq<Byte>): (grid: seq<seq<Byte>>)
    ensures |grid| == 19 && forall j :: 0 <= j < 19 ==> grid[j] == Rounds(perm, x, j).0
  {
    seq(19, j requires 0 <= j < 19 => Rounds(perm, x, j).0)
  }

  function Carries(perm: Permutation, x: seq<Byte>): (ts: seq<Byte>)
    ensures |ts| == 19 && forall j :: 0 <= j < 19 ==> ts[j] == Rounds(perm, x, j).1
  {
    seq(19, j requires 0 <= j < 19 => Rounds(perm, x, j).1)
  }

  lemma LoadedIs(state: seq<Byte>, block: seq<Byte>, x: seq<Byte>)
    requires |state| == |block| == 16 && x == state + block + XorEach(state, block, 16)
    ensures |x| == 48 && (forall i :: 0 <= i < 16 ==> x[i] == state[i])
    ensures forall i :: 0 <= i < 16 ==> x[16 + i] == block[i]
    ensures forall i :: 0 <= i < 16 ==> x[32 + i] == Xor(state[i], block[i])
  {
    forall i | 0 <= i < 16 ensures x[32 + i] == Xor(state[i], block[i]) {
      XorEachIs(state, block, 16, i);
      assert x[32 + i] == XorEach(state, block, 16)[i];
    }
  }

  lemma NextStateIs(perm: Permutation, state: seq<Byte>, block: seq<Byte>)
    requires |state| == |block| == 16
    ensures Compressed(perm, state, block, NextState(perm, state, block))
  {
    var x := state + block + XorEach(state, block, 16);
    var (grid, ts) := (Buffers(perm, x), Carries(perm, x));
    LoadedIs(state, block, x);
    assert grid[0] == x && grid[18] == Rounds(perm, x, 18).0;
    forall j: nat | j < 18 ensures IsRound(perm, grid, ts, j) {
      RoundIs(perm, x, grid, ts, j);
    }
    assert CompressedBy(perm, state, block, NextState(perm, state, block), grid, ts);
  }

  lemma {:induction false} SumBytesIs(perm: Permutation, c: seq<Byte>, last: Byte, block: seq<Byte>, n: nat, k: nat)
    requires |c| == |block| == 16 && k < n <= 16
    ensures SumBytes(perm, c, last, block, n)[k] ==
            Xor(c[k], perm(Xor(block[k], if k == 0 then last else SumBytes(perm, c, last, block, n)[k - 1])))
    decreases n
  {
    if k < n - 1 {
      SumBytesIs(perm, c, last, block, n - 1, k);
    }
  }

  lemma NextSumIs(perm: Permutation, c: seq<Byte>, block: seq<Byte>)
    requires |c| == |block| == 16
    ensures Summed(perm, c, block, NextSum(perm, c, block))
  {
    var d := NextSum(perm, c, block);
    forall k | 0 <= k < 16 ensures d[k] == Xor(c[k], perm(Xor(block[k], if k == 0 then c[15] else d[k - 1]))) {
      SumBytesIs(perm, c, c[15], block, 16, k);
    }
  }

  /** The first `i` blocks. */
  function Blocks(m: seq<Byte>, i: nat): (p: seq<Byte>)
    requires 16 * i <= |m|
    ensures |p| == 16 * i && |p| % BLOCK == 0
  {
    m[..16 * i]
  }

  function StateAt(perm: Permutation, m: seq<Byte>, i: nat): (s: seq<Byte>)
    requires 16 * i <= |m|
    ensures |s| == 16
  {
    MdBuffer(perm, Blocks(m, i))[..16]
  }

  function SumAt(perm: Permutation, m: seq<Byte>, i: nat): (s: seq<Byte>)
    requires 16 * i <= |m|
    ensures |s| == 16
  {
    SumBlocks(perm, Blocks(m, i)).0
  }

  lemma BlockIsAbsorbed(perm: Permutation, m: seq<Byte>, i: nat)
    requires 16 * i + 16 <= |m|
    ensures Summed(perm, SumAt(perm, m, i), m[16 * i..16 * i + 16], SumAt(perm, m, i + 1))
    ensures Compressed(perm, StateAt(perm, m, i), m[16 * i..16 * i + 16], StateAt(perm, m, i + 1))
  {
    var block := m[16 * i..16 * i + 16];
    assert Blocks(m, i + 1) == Blocks(m, i) + block;
    StateFollowsBuffer(perm, Blocks(m, i), block);
    SumFollowsBlocks(perm, Blocks(m, i), block);
    NextStateIs(perm, StateAt(perm, m, i), block);
    NextSumIs(perm, SumAt(perm, m, i), block);
  }

  lemma Begins(perm: Permutation, m: seq<Byte>)
    ensures IsZero(StateAt(perm, m, 0)) && IsZero(SumAt(perm, m, 0))
  {
    assert Blocks(m, 0) == [];
  }

  lemma Ends(perm: Permutation, msg: seq<Byte>, m: seq<Byte>, n: nat)
    requires m == msg + Padding(|msg|) && |m| == 16 * n
    ensures Compressed(perm, StateAt(perm, m, n), SumAt(perm, m, n), Digest(perm, msg))
  {
    assert Blocks(m, n) == m;
    StateFollowsBuffer(perm, m, SumAt(perm, m, n));
    NextStateIs(perm, StateAt(perm, m, n), SumAt(perm, m, n));
  }

  function States(perm: Permutation, m: seq<Byte>, n: nat): (r: seq<seq<Byte>>)
    requires 16 * n <= |m|
    ensures |r| == n + 1 && forall i :: 0 <= i <= n ==> r[i] == StateAt(perm, m, i)
  {
    seq(n + 1, i requires 0 <= i <= n => StateAt(perm, m, i))
  }

  function Sums(perm: Permutation, m: seq<Byte>, n: nat): (r: seq<seq<Byte>>)
    requires 16 * n <= |m|
    ensures |r| == n + 1 && forall i :: 0 <= i <= n ==> r[i] == SumAt(perm, m, i)
  {
    seq(n + 1, i requires 0 <= i <= n => SumAt(perm, m, i))
  }

  lemma AllAbsorbed(perm: Permutation, m: seq<Byte>, n: nat, i: nat)
    requires 16 * n <= |m| && i < n
    ensures Absorbed(perm, m, States(perm, m, n), Sums(perm, m, n), i)
  {
    BlockIsAbsorbed(perm, m, i);
  }

  lemma PaddingFills(msg: seq<Byte>, pad: seq<Byte>, n: nat)
    requires pad == Padding(|msg|) && n == |msg + pad| / 16
    ensures 1 <= |pad| <= 16 && |msg + pad| == 16 * n && forall i :: 0 <= i < |pad| ==> pad[i] == |pad| as Byte
  {
  }

  /** The digest of the definition above is the one these sections describe, byte by byte. */
  lemma DigestIs(perm: Permutation, msg: seq<Byte>)
    ensures IsDigest(perm, msg, Digest(perm, msg))
  {
    var pad := Padding(|msg|);
    var m := msg + pad;
    var n := |m| / 16;
    PaddingFills(msg, pad, n);
    forall i: nat | i < n ensures Absorbed(perm, m, States(perm, m, n), Sums(perm, m, n), i) {
      AllAbsorbed(perm, m, n, i);
    }
    Begins(perm, m);
    Ends(perm, msg, m, n);
    assert DigestedBy(perm, msg, Digest(perm, msg), pad, States(perm, m, n), Sums(perm, m, n));
  }

  // ----- `md2_compute` -----

  /** The inner loop over the whole compute array. */
  method SweepInPlace(perm: Permutation, x: array<Byte>, t0: Byte) returns (t: Byte)
    modifies x
    ensures x[..] == Sweep(perm, old(x[..]), t0, x.Length)
    ensures t == Last(x[..], t0)
  {
    t := t0;
    var j := 0;
    while j < x.Length
      invariant j <= x.Length
      invariant x[..j] == Sweep(perm, old(x[..]), t0, j) && x[j..] == old(x[j..])
      invariant t == Last(x[..j], t0)
    {
      x[j] := Xor(x[j], perm(t));
      t := x[j];
      j := j + 1;
    }
    assert x[..] == x[..x.Length];
  }

  method RoundsInPlace(perm: Permutation, x: array<Byte>)
    modifies x
    ensures x[..] == Rounds(perm, old(x[..]), ROUNDS).0
  {
    var t: Byte, i := 0, 0;
    while i < ROUNDS
      invariant i <= ROUNDS && (x[..], t) == Rounds(perm, old(x[..]), i)
    {
      t := SweepInPlace(perm, x, t);
      t := t + i as Byte;
      i := i + 1;
    }
  }

  lemma SumBytesGrow(perm: Permutation, c: seq<Byte>, last: Byte, block: seq<Byte>, j: nat)
    requires |c| == |block| == BLOCK && j < BLOCK
    ensures var s := SumBytes(perm, c, last, block, j);
            SumBytes(perm, c, last, block, j + 1) == s + [Xor(c[j], perm(Xor(block[j], Last(s, last))))]
  {
  }

  /** The checksum loop. */
  method SumInPlace(perm: Permutation, checksum: array<Byte>, block: array<Byte>)
    requires checksum.Length == block.Length == BLOCK && checksum != block
    modifies checksum
    ensures checksum[..] == NextSum(perm, old(checksum[..]), block[..])
  {
    var t := checksum[BLOCK - 1];
    ghost var t0 := t;
    var i := 0;
    while i < BLOCK
      invariant i <= BLOCK
      invariant checksum[..i] == SumBytes(perm, old(checksum[..]), t0, block[..], i)
      invariant checksum[i..] == old(checksum[i..])
      invariant t == Last(checksum[..i], t0)
    {
      ghost var done := checksum[..i];
      SumBytesGrow(perm, old(checksum[..]), t0, block[..], i);
      assert checksum[i] == checksum[i..][0] == old(checksum[..])[i];
      t := Xor(checksum[i], perm(Xor(block[i], t)));
      checksum[i] := t;
      assert checksum[..i + 1] == done + [t];
      i := i + 1;
    }
    assert checksum[..] == checksum[..BLOCK];
  }

  /** `memcpy` of a whole block. */
  method CopyBlock(dst: array<Byte>, at: nat, src: array<Byte>)
    requires dst != src && src.Length == BLOCK && at + BLOCK <= dst.Length
    modifies dst
    ensures dst[..at + BLOCK] == old(dst[..at]) + src[..]
  {
    for i := 0 to BLOCK
      invariant dst[..at + i] == old(dst[..at]) + src[..i]
    {
      dst[at + i] := src[i];
    }
    assert src[..BLOCK] == src[..];
  }

  /** The compute array: the state, the block and their XOR. */
  method Load(state: array<Byte>, block: array<Byte>) returns (x: array<Byte>)
    requires state.Length == block.Length == BLOCK
    ensures fresh(x) && x.Length == 3 * BLOCK
    ensures x[..] == state[..] + block[..] + XorEach(state[..], block[..], BLOCK)
  {
    x := new Byte[3 * BLOCK];
    CopyBlock(x, 0, state);
    CopyBlock(x, BLOCK, block);
    for i := 0 to BLOCK
      invariant x[..2 * BLOCK + i] == state[..] + block[..] + XorEach(state[..], block[..], i)
    {
      x[2 * BLOCK + i] := Xor(state[i], block[i]);
    }
    assert x[..3 * BLOCK] == x[..];
  }

  method Compute(perm: Permutation, state: array<Byte>, checksum: array<Byte>, block: array<Byte>)
    requires state.Length == checksum.Length == block.Length == BLOCK
    requires state != checksum && checksum != block && block != state
    modifies state, checksum
    ensures state[..] == NextState(perm, old(state[..]), block[..])
    ensures checksum[..] == NextSum(perm, old(checksum[..]), block[..])
  {
    var x := Load(state, block);
    RoundsInPlace(perm, x);
    SumInPlace(perm, checksum, block);
    for i := 0 to BLOCK
      invariant x[..] == Rounds(perm, old(state[..] + block[..] + XorEach(state[..], block[..], BLOCK)), ROUNDS).0
      invariant checksum[..] == NextSum(perm, old(checksum[..]), block[..])
      invariant state[..i] == x[..i]
    {
      state[i] := x[i];
    }
    assert state[..] == x[..BLOCK];
  }

  // ----- The context -----

  /** The part of `fed` that has been computed; the rest waits in the buffer. */
  function Done(fed: seq<Byte>): (m: seq<Byte>)
    ensures |m| % BLOCK == 0
  {
    fed[..|fed| - |fed| % BLOCK]
  }

  /** The bytes still waiting. */
  function Waiting(fed: seq<Byte>): (m: seq<Byte>)
    ensures |m| < BLOCK && fed == Done(fed) + m
  {
    fed[|fed| - |fed| % BLOCK..]
  }

  lemma DoneFits(m: seq<Byte>, w: seq<Byte>)
    requires |m| % BLOCK == 0 && |w| < BLOCK
    ensures Done(m + w) == m && Waiting(m + w) == w
  {
  }

  /** `md2_pad`. */
  method Pad(block: array<Byte>, n: nat)
    requires 1 <= n <= BLOCK <= block.Length
    modifies block
    ensures block[..n] == Copies(n as Byte, n)
  {
    for i := 0 to n
      invariant block[..i] == Copies(n as Byte, i)
    {
      block[i] := n as Byte;
    }
  }

  class Context {
    const perm: Permutation
    const buffer: array<Byte>
    const state: array<Byte>
    const checksum: array<Byte>
    var counter: nat
    ghost var fed: seq<Byte>

    ghost predicate Shaped()
      reads this
    {
      && buffer.Length == state.Length == checksum.Length == BLOCK
      && buffer != state && state != checksum && checksum != buffer
    }

    /** State `s` and checksum `c` stand for `m`. */
    ghost predicate Stands(m: seq<Byte>, s: seq<Byte>, c: seq<Byte>) {
      |m| % BLOCK == 0 && s == MdBuffer(perm, m)[..BLOCK] && c == SumBlocks(perm, m).0
    }

    lemma BlockStands(m: seq<Byte>, s: seq<Byte>, c: seq<Byte>, w: seq<Byte>)
      requires Stands(m, s, c) && |w| == BLOCK
      ensures Stands(m + w, NextState(perm, s, w), NextSum(perm, c, w))
    {
      Aligned(m, w);
      assert NextState(perm, s, w) == MdBuffer(perm, m + w)[..BLOCK] by {
        StateFollowsBuffer(perm, m, w);
      }
      assert NextSum(perm, c, w) == SumBlocks(perm, m + w).0 by {
        SumFollowsBlocks(perm, m, w);
      }
    }

    /** State and checksum stand for `m`, and `w` waits in the buffer. */
    ghost predicate Holds(m: seq<Byte>, w: seq<Byte>)
      reads this, buffer, state, checksum
    {
      && Shaped()
      && counter == |w| <= BLOCK && buffer[..counter] == w
      && Stands(m, state[..], checksum[..])
    }

    ghost predicate Valid()
      reads this, buffer, state, checksum
    {
      Holds(Done(fed), Waiting(fed))
    }

    /** `md2_init`. */
    constructor (perm: Permutation)
      ensures Valid() && fed == [] && this.perm == perm
      ensures fresh(buffer) && fresh(state) && fresh(checksum)
    {
      this.perm := perm;
      buffer := new Byte[BLOCK](_ => 0);
      state := new Byte[BLOCK](_ => 0);
      checksum := new Byte[BLOCK](_ => 0);
      counter, fed := 0, [];
      new;
      assert state[..] == Zeros(3 * BLOCK)[..BLOCK];
      assert checksum[..] == Zeros(BLOCK);
    }

    /** Copy `n` bytes of the input behind those waiting. */
    method Append(input: array<Byte>, from: nat, n: nat, ghost m: seq<Byte>, ghost w: seq<Byte>)
      requires Holds(m, w) && counter + n <= BLOCK && from + n <= input.Length
      requires input != buffer
      modifies buffer, this`counter
      ensures Holds(m, w + input[from..from + n])
    {
      for i := 0 to n
        invariant Holds(m, w)
        invariant buffer[..counter + i] == w + input[from..from + i]
      {
        buffer[counter + i] := input[from + i];
      }
      counter := counter + n;
    }

    /** A full buffer is computed and emptied. */
    method Flush(ghost m: seq<Byte>, ghost w: seq<Byte>)
      requires Holds(m, w) && counter == BLOCK
      modifies state, checksum, this`counter
      ensures Holds(m + w, [])
    {
      assert buffer[..] == w;
      assert Stands(m, state[..], checksum[..]);
      Compute(perm, state, checksum, buffer);
      BlockStands(m, old(state[..]), old(checksum[..]), w);
      counter := 0;
    }

    /** One pass of the loop of `md2_update`. */
    method Take(input: array<Byte>, from: nat, n: nat)
      requires Valid() && counter + n <= BLOCK && from + n <= input.Length
      requires input != buffer && input != state
      modifies this, buffer, state, checksum
      ensures Valid() && fed == old(fed) + old(input[from..from + n])
    {
      ghost var m, w := Done(fed), Waiting(fed);
      ghost var more := input[from..from + n];
      Append(input, from, n, m, w);
      if counter >= BLOCK {
        Flush(m, w + more);
        assert m + (w + more) + [] == fed + more;
        DoneFits(m + (w + more), []);
      } else {
        assert m + (w + more) == fed + more;
        DoneFits(m, w + more);
      }
      fed := fed + more;
    }

    /** Reading the context's own checksum is safe only for one block from an empty buffer. */
    ghost predicate Readable(input: array<Byte>, len: nat)
      reads this
    {
      && len <= input.Length && input != buffer && input != state
      && (input == checksum ==> counter == 0 && len <= BLOCK)
    }

    /** `md2_update`. */
    method Update(input: array<Byte>, len: nat)
      requires Valid() && Readable(input, len)
      modifies this, buffer, state, checksum
      ensures Valid() && fed == old(fed) + old(input[..len])
    {
      var p := 0;
      ghost var data := input[..];
      while p < len
        invariant p <= len && Valid() && fed == old(fed) + data[..p]
        invariant input == checksum && p > 0 ==> p == len
        invariant input != checksum || p == 0 ==> input[..] == data
        invariant p == 0 ==> counter == old(counter)
      {
        var n := if len - p < BLOCK - counter then len - p else BLOCK - counter;
        assert input[p..p + n] == data[p..p + n];
        Take(input, p, n);
        Extend(old(fed), data, p, n);
        p := p + n;
      }
      assert data[..len] == old(input[..len]);
    }

    /** The first update of `md2_end`: the padding. */
    method PadOut()
      requires Valid()
      modifies this, buffer, state, checksum
      ensures Valid() && fed == old(fed) + Padding(|old(fed)|)
    {
      var n := BLOCK - counter;
      PaddingIs(fed, n);
      var buf := new Byte[BLOCK];
      Pad(buf, n);
      Update(buf, n);
    }

    /** `md2_end`: the digest of everything fed. */
    method End() returns (digest: array<Byte>)
      requires Valid()
      modifies this, buffer, state, checksum
      ensures digest == state && digest[..] == Digest(perm, old(fed)) && IsDigest(perm, old(fed), digest[..])
    {
      DigestIs(perm, fed);
      PadOut();
      AlignedIsDone(fed);
      assert checksum[..BLOCK] == checksum[..] == SumBlocks(perm, fed).0;
      Update(checksum, BLOCK);
      assert fed == Appended(perm, old(fed));
      AlignedIsDone(fed);
      assert Stands(fed, state[..], checksum[..]);
      digest := state;
    }
  }

  lemma Extend(before: seq<Byte>, data: seq<Byte>, p: nat, n: nat)
    requires p + n <= |data|
    ensures before + data[..p] + data[p..p + n] == before + data[..p + n]
  {
  }

  lemma PaddingIs(msg: seq<Byte>, n: nat)
    requires n == BLOCK - |Waiting(msg)|
    ensures Padding(|msg|) == Copies(n as Byte, n)
  {
  }

  lemma AlignedIsDone(m: seq<Byte>)
    requires |m| % BLOCK == 0
    ensures Done(m) == m && Waiting(m) == []
  {
  }

  method Buffer(s: seq<Byte>) returns (a: array<Byte>)
    ensures fresh(a) && a.Length == |s| && a[..a.Length] == s
  {
    a := new Byte[|s|](i requires 0 <= i < |s| => s[i]);
  }

  /** Feeding a message in any chunks, empty ones included, gives the digest of RFC 1319. */
  method Stream(perm: Permutation, chunks: seq<seq<Byte>>) returns (digest: seq<Byte>)
    ensures digest == Digest(perm, Concat(chunks)) && IsDigest(perm, Concat(chunks), digest)
  {
    var context := new Context(perm);
    for i := 0 to |chunks|
      invariant context.Valid() && context.fed == Concat(chunks[..i]) && context.perm == perm
      invariant fresh(context) && fresh(context.buffer) && fresh(context.state) && fresh(context.checksum)
    {
      var input := Buffer(chunks[i]);
      context.Update(input, input.Length);
      assert chunks[..i + 1][..i] == chunks[..i];
    }
    assert chunks[..|chunks|] == chunks;
    var state := context.End();
    digest := state[..];
  }
}
