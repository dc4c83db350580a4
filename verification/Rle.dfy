/**
 The run-length codec of bertos/algo/rle.c. A run is a signed header byte followed by its data:
 a positive header repeats one byte, a negative one copies bytes, zero ends the stream.
 */
module Rle {
  import opened Bytes
  import opened Sequences
  import opened Wrappers

  /** The longest run of either kind. */
  const RUN: nat := 127

  // ----- Decoding -----

  /** A byte read as `signed char`. */
  function Signed(b: Byte): (c: int)
    ensures -128 <= c < 128
  {
    if b < 128 then b else b - 256
  }

  /** The decoded bytes and the encoded length, or `None` when the stream stops short of its end marker. */
  function Decode(s: seq<Byte>): (r: Option<(seq<Byte>, nat)>)
    ensures r.Some? ==> r.value.1 <= |s|
    decreases |s|
  {
    if s == [] then None
    else
      var c := Signed(s[0]);
      if c == 0 then Some(([], 1))
      else if c > 0 then
        if |s| < 2 then None else After(Copies(s[1], c), 2, Decode(s[2..]))
      else
        if |s| < 1 - c then None else After(s[1..1 - c], 1 - c, Decode(s[1 - c..]))
  }

  function After(run: seq<Byte>, used: nat, r: Option<(seq<Byte>, nat)>): Option<(seq<Byte>, nat)> {
    if r.None? then None else Some((run + r.value.0, used + r.value.1))
  }

  // ----- Encoding -----

  /** Where the bytes equal to `x[count]` end, looking no further than 127 bytes. */
  function SameEnd(x: seq<Byte>, count: nat, index: nat): (e: nat)
    requires count < index <= |x| && index - count <= RUN
    ensures index <= e <= |x| && e - count <= RUN
    decreases |x| - index
  {
    if index < |x| && index - count < RUN && x[index] == x[count] then SameEnd(x, count, index + 1) else index
  }

  lemma {:induction false} SameEndIsMaximal(x: seq<Byte>, count: nat, index: nat)
    requires count < index <= |x| && index - count <= RUN
    ensures var e := SameEnd(x, count, index);
            && (forall i :: index <= i < e ==> x[i] == x[count])
            && (e < |x| && e - count < RUN ==> x[e] != x[count])
    decreases |x| - index
  {
    if index < |x| && index - count < RUN && x[index] == x[count] {
      SameEndIsMaximal(x, count, index + 1);
    }
  }

  predicate Triple(x: seq<Byte>, i: nat) {
    i + 2 < |x| && x[i] == x[i + 1] == x[i + 2]
  }

  /** Where a literal run ends: before three equal bytes, or after 127 bytes, or at the end. */
  function CopyEnd(x: seq<Byte>, count: nat, index: nat): (e: nat)
    requires count < index <= |x| && index - count <= RUN
    requires count + 1 < |x| ==> x[count] != x[count + 1]
    ensures count < e <= |x| && e - count <= RUN
    ensures Triple(x, e) || e == |x| || e - count == RUN
    decreases |x| - index
  {
    if index < |x| && index - count < RUN then
      if x[index] == x[index - 1] && index > 1 && x[index] == x[index - 2] then index - 2
      else CopyEnd(x, count, index + 1)
    else index
  }

  /** A literal run stops at the first triple it meets. */
  lemma {:induction false} CopyEndIsFirst(x: seq<Byte>, count: nat, index: nat)
    requires count < index <= |x| && index - count <= RUN
    requires count + 1 < |x| ==> x[count] != x[count + 1]
    requires forall i :: count <= i < index - 2 ==> !Triple(x, i)
    ensures forall i :: count <= i < CopyEnd(x, count, index) - 2 ==> !Triple(x, i)
    decreases |x| - index
  {
    if index < |x| && index - count < RUN
       && !(x[index] == x[index - 1] && index > 1 && x[index] == x[index - 2])
    {
      CopyEndIsFirst(x, count, index + 1);
    }
  }

  /** Whether a replicate run starts at `count`. */
  predicate Repeats(x: seq<Byte>, count: nat)
    requires count < |x|
  {
    SameEnd(x, count, count + 1) > count + 1
  }

  /** The end of the run that starts at `count`. */
  function RunEnd(x: seq<Byte>, count: nat): (e: nat)
    requires count < |x|
    ensures count < e <= |x| && e - count <= RUN
  {
    if Repeats(x, count) then SameEnd(x, count, count + 1)
    else
      SameEndIsMaximal(x, count, count + 1);
      CopyEnd(x, count, count + 1)
  }

  /** What is written for the run that starts at `count`. */
  function RunBytes(x: seq<Byte>, count: nat): (s: seq<Byte>)
    requires count < |x|
    ensures |s| == if Repeats(x, count) then 2 else 1 + RunEnd(x, count) - count
  {
    var e := RunEnd(x, count);
    if Repeats(x, count) then [e - count, x[count]] else [256 - (e - count)] + x[count..e]
  }

  /** What is written for `x[count..]`, end marker included. */
  function Encode(x: seq<Byte>, count: nat): seq<Byte>
    requires count <= |x|
    decreases |x| - count
  {
    if count == |x| then [0] else RunBytes(x, count) + Encode(x, RunEnd(x, count))
  }

  // ----- Round trip -----

  lemma Slices(header: Byte, run: seq<Byte>, tail: seq<Byte>)
    ensures ([header] + run + tail)[0] == header
    ensures ([header] + run + tail)[1..1 + |run|] == run
    ensures ([header] + run + tail)[1 + |run|..] == tail
  {
  }

  lemma DecodeNegative(s: seq<Byte>, n: nat)
    requires n > 0 && |s| >= 1 + n && Signed(s[0]) + n == 0
    ensures Decode(s) == After(s[1..1 + n], 1 + n, Decode(s[1 + n..]))
  {
  }

  lemma DecodeLiteral(header: Byte, run: seq<Byte>, tail: seq<Byte>)
    requires run != [] && Signed(header) + |run| == 0
    ensures Decode([header] + run + tail) == After(run, 1 + |run|, Decode(tail))
  {
    Slices(header, run, tail);
    DecodeNegative([header] + run + tail, |run|);
  }

  lemma DecodeReplicate(v: Byte, n: nat, tail: seq<Byte>)
    requires 1 <= n <= RUN
    ensures Decode([n, v] + tail) == After(Copies(v, n), 2, Decode(tail))
  {
    var s: seq<Byte> := [n, v] + tail;
    assert s[2..] == tail;
  }

  /**
   The format, byte by byte: 0 ends the stream, a header from 1 to 127 repeats the byte behind it,
   and one of 256 - n, for n up to 128, has n bytes behind it that stand for themselves.
   */
  lemma FormatIs(tail: seq<Byte>, n: nat, v: Byte, run: seq<Byte>)
    ensures Decode([0] + tail) == Some(([], 1))
    ensures 1 <= n <= 127 && Decode(tail).Some? ==>
              var r := Decode([n, v] + tail);
              && r.Some? && r.value.1 == 2 + Decode(tail).value.1 && |r.value.0| == n + |Decode(tail).value.0|
              && (forall i :: 0 <= i < n ==> r.value.0[i] == v) && r.value.0[n..] == Decode(tail).value.0
    ensures 1 <= |run| <= 128 && Decode(tail).Some? ==>
              Decode([256 - |run|] + run + tail) == Some((run + Decode(tail).value.0, 1 + |run| + Decode(tail).value.1))
  {
    if 1 <= n <= 127 {
      DecodeReplicate(v, n, tail);
    }
    if 1 <= |run| <= 128 {
      DecodeLiteral(256 - |run|, run, tail);
    }
  }

  lemma Regroup(a: seq<Byte>, b: seq<Byte>, c: seq<Byte>)
    ensures a + b + c == a + (b + c)
  {
  }

  lemma Cut(x: seq<Byte>, from: nat, to: nat)
    requires from <= to <= |x|
    ensures x[from..] == x[from..to] + x[to..]
  {
  }

  lemma CopiesAre(s: seq<Byte>, v: Byte)
    requires forall i :: 0 <= i < |s| ==> s[i] == v
    ensures s == Copies(v, |s|)
  {
  }

  lemma RepeatBytes(x: seq<Byte>, count: nat)
    requires count < |x| && Repeats(x, count)
    ensures var (n, v) := (RunEnd(x, count) - count, x[count]);
            1 <= n <= RUN && RunBytes(x, count) == [n, v] && x[count..RunEnd(x, count)] == Copies(v, n)
  {
    SameEndIsMaximal(x, count, count + 1);
    CopiesAre(x[count..RunEnd(x, count)], x[count]);
  }

  lemma RepeatDecodes(x: seq<Byte>, count: nat, tail: seq<Byte>)
    requires count < |x| && Repeats(x, count)
    ensures Decode(RunBytes(x, count) + tail) == After(x[count..RunEnd(x, count)], 2, Decode(tail))
  {
    RepeatBytes(x, count);
    DecodeReplicate(x[count], RunEnd(x, count) - count, tail);
  }

  lemma RunDecodes(x: seq<Byte>, count: nat, tail: seq<Byte>)
    requires count < |x|
    ensures Decode(RunBytes(x, count) + tail) == After(x[count..RunEnd(x, count)], |RunBytes(x, count)|, Decode(tail))
  {
    if Repeats(x, count) {
      RepeatDecodes(x, count, tail);
    } else {
      var e := RunEnd(x, count);
      DecodeLiteral(256 - (e - count), x[count..e], tail);
    }
  }

  lemma RunThenRest(decode: seq<Byte> -> Option<(seq<Byte>, nat)>, head: seq<Byte>, more: seq<Byte>, rest: seq<Byte>,
                    run: seq<Byte>, y: seq<Byte>)
    requires decode(head + (more + rest)) == After(run, |head|, decode(more + rest))
    requires decode(more + rest) == Some((y, |more|))
    ensures decode(head + more + rest) == Some((run + y, |head + more|))
  {
    Regroup(head, more, rest);
  }

  /** Decoding what was written for `x[count..]` gives it back and stops at the end marker. */
  lemma {:induction false} RoundTripFrom(x: seq<Byte>, count: nat, rest: seq<Byte>)
    requires count <= |x|
    ensures Decode(Encode(x, count) + rest) == Some((x[count..], |Encode(x, count)|))
    decreases |x| - count
  {
    if count < |x| {
      var e := RunEnd(x, count);
      RoundTripFrom(x, e, rest);
      RunDecodes(x, count, Encode(x, e) + rest);
      RunThenRest(Decode, RunBytes(x, count), Encode(x, e), rest, x[count..e], x[e..]);
      Cut(x, count, e);
    } else {
      assert x[count..] == [];
    }
  }

  /** Every message survives the codec, whatever follows it in the stream. */
  lemma RoundTrip(x: seq<Byte>, rest: seq<Byte>)
    ensures Decode(Encode(x, 0) + rest) == Some((x, |Encode(x, 0)|))
  {
    RoundTripFrom(x, 0, rest);
    assert x[0..] == x;
  }

  /** Two equal bytes start a replicate run as long as they go, up to 127. */
  lemma PairIsReplicated(x: seq<Byte>, count: nat, r: seq<Byte>)
    requires count + 1 < |x| && x[count] == x[count + 1] && r == RunBytes(x, count)
    ensures |r| == 2 && 2 <= r[0] <= 127 && count + r[0] <= |x| && r[1] == x[count]
    ensures forall i :: count <= i < count + r[0] ==> x[i] == x[count]
    ensures r[0] == 127 || count + r[0] == |x| || x[count + r[0]] != x[count]
  {
    SameEndIsMaximal(x, count, count + 1);
  }

  /** Anything else starts a literal run. */
  lemma OthersAreCopied(x: seq<Byte>, count: nat, r: seq<Byte>)
    requires count < |x| && (count + 1 == |x| || x[count] != x[count + 1]) && r == RunBytes(x, count)
    ensures 2 <= |r| <= 128 && r[0] == 257 - |r| && count + |r| - 1 <= |x| && r[1..] == x[count..count + |r| - 1]
  {
    SameEndIsMaximal(x, count, count + 1);
  }

  /** And an encoding is its first run and the encoding of what that run leaves. */
  lemma EncodeGoesOn(x: seq<Byte>, count: nat, r: seq<Byte>, n: nat)
    requires count < |x| && r == RunBytes(x, count)
    requires n == if r[0] < 128 then r[0] else 256 - r[0]
    ensures count + n <= |x| && Encode(x, count) == r + Encode(x, count + n) && Encode(x, |x|) == [0]
  {
    assert RunEnd(x, count) == count + n;
  }

  // ----- Size -----

  /** The longest encoding of `n` bytes: one header for each full literal run begun, and the end marker. */
  function Most(n: nat): nat {
    n + (n + 126) / 127 + 1
  }

  lemma MostGrows(m: nat, n: nat)
    requires m <= n
    ensures Most(m) + (n - m) <= Most(n)
    ensures n - m == RUN ==> Most(m) + 128 == Most(n)
  {
  }

  lemma TripleRepeats(x: seq<Byte>, e: nat)
    requires Triple(x, e)
    ensures Repeats(x, e) && RunEnd(x, e) >= e + 3
  {
    assert SameEnd(x, e, e + 1) == SameEnd(x, e, e + 2) == SameEnd(x, e, e + 3);
  }

  /** A literal run that stops early is paid for by the replicate run of at least three that must follow. */
  lemma {:induction false} EncodeFits(x: seq<Byte>, count: nat)
    requires count <= |x|
    ensures |Encode(x, count)| <= Most(|x| - count)
    decreases |x| - count
  {
    if count < |x| {
      var e := RunEnd(x, count);
      if Repeats(x, count) || e == |x| || e - count == RUN {
        EncodeFits(x, e);
        MostGrows(|x| - e, |x| - count);
      } else {
        var f := RunEnd(x, e);
        TripleRepeats(x, e);
        EncodeFits(x, f);
        MostGrows(|x| - f, |x| - count);
        assert |Encode(x, e)| == 2 + |Encode(x, f)|;
      }
    }
  }

  // ----- The loops of `rle` -----

  /** Scan for bytes identical to the first one. */
  method ScanSame(x: seq<Byte>, count: nat) returns (index: nat)
    requires count < |x|
    ensures index == SameEnd(x, count, count + 1)
  {
    var first := x[count];
    index := count + 1;
    while index < |x| && index - count < RUN && x[index] == first
      invariant count < index <= |x| && index - count <= RUN
      invariant SameEnd(x, count, index) == SameEnd(x, count, count + 1)
    {
      index := index + 1;
    }
  }

  /** See how many bytes to copy, backing up before three identical ones. */
  method ScanCopy(x: seq<Byte>, count: nat) returns (index: nat)
    requires count < |x| && (count + 1 < |x| ==> x[count] != x[count + 1])
    ensures index == CopyEnd(x, count, count + 1)
  {
    index := count + 1;
    while index < |x| && index - count < RUN
      invariant count < index <= |x| && index - count <= RUN
      invariant CopyEnd(x, count, index) == CopyEnd(x, count, count + 1)
    {
      if x[index] == x[index - 1] && index > 1 && x[index] == x[index - 2] {
        index := index - 2;
        return;
      }
      index := index + 1;
    }
  }

  method PutLiteral(output: array<Byte>, start: nat, x: seq<Byte>, count: nat, index: nat) returns (out: nat)
    requires count < index <= |x| && index - count <= RUN && start + 1 + (index - count) <= output.Length
    modifies output
    ensures out == start + 1 + (index - count)
    ensures output[..out] == old(output[..start]) + ([256 - (index - count)] + x[count..index])
  {
    output[start] := 256 - (index - count);
    out := start + 1;
    var i := count;
    while i < index
      invariant count <= i <= index && out == start + 1 + (i - count)
      invariant output[..out] == old(output[..start]) + ([256 - (index - count)] + x[count..i])
    {
      output[out] := x[i];
      out, i := out + 1, i + 1;
    }
  }

  method PutReplicate(output: array<Byte>, start: nat, n: nat, first: Byte) returns (out: nat)
    requires 1 <= n <= RUN && start + 2 <= output.Length
    modifies output
    ensures out == start + 2 && output[..out] == old(output[..start]) + [n, first]
  {
    output[start] := n;
    output[start + 1] := first;
    out := start + 2;
  }

  /** One pass of the outer loop of `rle`. */
  method PutNext(output: array<Byte>, start: nat, x: seq<Byte>, count: nat) returns (out: nat, index: nat)
    requires count < |x| && start + |RunBytes(x, count)| <= output.Length
    modifies output
    ensures index == RunEnd(x, count) && out == start + |RunBytes(x, count)|
    ensures output[..out] == old(output[..start]) + RunBytes(x, count)
  {
    index := ScanSame(x, count);
    if index - count == 1 {
      SameEndIsMaximal(x, count, count + 1);
      index := ScanCopy(x, count);
      out := PutLiteral(output, start, x, count, index);
      assert RunBytes(x, count) == [256 - (index - count)] + x[count..index];
    } else {
      out := PutReplicate(output, start, index - count, x[count]);
      assert RunBytes(x, count) == [index - count, x[count]];
    }
  }

  /** `rle`: never writes past what the size bound allows. */
  method Compress(output: array<Byte>, x: seq<Byte>) returns (r: nat)
    requires output.Length >= |Encode(x, 0)|
    modifies output
    ensures r <= output.Length && r <= Most(|x|) && output[..r] == Encode(x, 0)
    ensures forall rest: seq<Byte> :: Decode(output[..r] + rest) == Some((x, r))
  {
    EncodeFits(x, 0);
    var out: nat, count: nat := 0, 0;
    while count < |x|
      invariant count <= |x| && out + |Encode(x, count)| <= output.Length
      invariant output[..out] + Encode(x, count) == Encode(x, 0)
      decreases |x| - count
    {
      ghost var done := output[..out];
      Regroup(done, RunBytes(x, count), Encode(x, RunEnd(x, count)));
      out, count := PutNext(output, out, x, count);
    }
    output[out] := 0;
    assert output[..out + 1] == output[..out] + [0];
    r := out + 1;
    forall rest: seq<Byte>
      ensures Decode(output[..r] + rest) == Some((x, r))
    {
      RoundTrip(x, rest);
    }
  }

  // ----- The loops of `unrle` -----

  method PutCopies(output: array<Byte>, start: nat, v: Byte, n: nat) returns (out: nat)
    requires start + n <= output.Length
    modifies output
    ensures out == start + n && output[..out] == old(output[..start]) + Copies(v, n)
  {
    out := start;
    var count := n;
    while count > 0
      invariant 0 <= count <= n && out == start + (n - count)
      invariant output[..out] == old(output[..start]) + Copies(v, n - count)
    {
      output[out] := v;
      out, count := out + 1, count - 1;
    }
  }

  method PutRun(output: array<Byte>, start: nat, run: seq<Byte>) returns (out: nat)
    requires start + |run| <= output.Length
    modifies output
    ensures out == start + |run| && output[..out] == old(output[..start]) + run
  {
    out := start;
    while out < start + |run|
      invariant start <= out <= start + |run|
      invariant output[..out] == old(output[..start]) + run[..out - start]
    {
      output[out] := run[out - start];
      out := out + 1;
    }
  }

  /** The length of the first run of a stream, its header included. */
  function RunLength(s: seq<Byte>): nat
    requires s != []
  {
    if Signed(s[0]) > 0 then 2 else 1 - Signed(s[0])
  }

  /** What the first run of a stream decodes to. */
  function FirstRun(s: seq<Byte>): seq<Byte>
    requires s != [] && RunLength(s) <= |s|
  {
    if Signed(s[0]) > 0 then Copies(s[1], Signed(s[0])) else s[1..RunLength(s)]
  }

  lemma FirstRunDecodes(s: seq<Byte>)
    requires s != [] && s[0] != 0 && Decode(s).Some?
    ensures RunLength(s) <= |s| && Decode(s) == After(FirstRun(s), RunLength(s), Decode(s[RunLength(s)..]))
  {
  }

  method PutFirst(output: array<Byte>, start: nat, input: seq<Byte>) returns (out: nat)
    requires input != [] && RunLength(input) <= |input| && start + |FirstRun(input)| <= output.Length
    modifies output
    ensures out == start + |FirstRun(input)| && output[..out] == old(output[..start]) + FirstRun(input)
  {
    var count := Signed(input[0]);
    if count > 0 {
      out := PutCopies(output, start, input[1], count);
    } else {
      out := PutRun(output, start, input[1..1 - count]);
    }
  }

  /** One pass of the loop of `unrle`. */
  method ExpandRun(output: array<Byte>, start: nat, input: seq<Byte>) returns (out: nat, used: nat)
    requires input != [] && input[0] != 0 && Decode(input).Some?
    requires start + |Decode(input).value.0| <= output.Length
    modifies output
    ensures 0 < used <= |input| && Decode(input[used..]).Some?
    ensures out + |Decode(input[used..]).value.0| <= output.Length
    ensures output[..out] + Decode(input[used..]).value.0 == old(output[..start]) + Decode(input).value.0
  {
    used := RunLength(input);
    FirstRunDecodes(input);
    Regroup(output[..start], FirstRun(input), Decode(input[used..]).value.0);
    out := PutFirst(output, start, input);
  }

  /** `unrle`: needs a well-formed stream and room for what it decodes to. */
  method Expand(output: array<Byte>, input: seq<Byte>) returns (r: nat)
    requires Decode(input).Some? && |Decode(input).value.0| <= output.Length
    modifies output
    ensures r == |Decode(input).value.0| && output[..r] == Decode(input).value.0
  {
    var out: nat, rest := 0, input;
    while rest[0] != 0
      invariant rest != [] && Decode(rest).Some? && out + |Decode(rest).value.0| <= output.Length
      invariant output[..out] + Decode(rest).value.0 == Decode(input).value.0
      decreases |rest|
    {
      var used;
      out, used := ExpandRun(output, out, rest);
      rest := rest[used..];
    }
    r := out;
  }
}
