/**
 Registers that divide a bit string by a polynomial over GF(2), whatever their width and
 direction.
 */
module ShiftRegister {

  /**
   A register: `add` is exclusive or, `shift` moves it by one bit, `out` is the bit that
   leaves on a shift and `poly` the polynomial that is subtracted when that bit and the
   message bit differ.
   */
  datatype Register<!T> = Register(add: (T, T) -> T, shift: T -> T, out: T -> bool, poly: T)
  {
    /** One message bit. */
    function Step(c: T, bit: bool): T {
      if out(c) != bit then add(shift(c), poly) else shift(c)
    }

    /** A whole message, the first element first. */
    function Run(c: T, bits: seq<bool>): T
      decreases |bits|
    {
      if bits == [] then c else Step(Run(c, bits[..|bits| - 1]), bits[|bits| - 1])
    }
  }

  function Zeros(n: nat): seq<bool> {
    seq(n, _ => false)
  }

  // What exclusive or and a shift satisfy.

  ghost predicate ShiftAdds<T>(r: Register<T>, x: T, y: T) {
    r.shift(r.add(x, y)) == r.add(r.shift(x), r.shift(y))
  }

  ghost predicate OutAdds<T>(r: Register<T>, x: T, y: T) {
    r.out(r.add(x, y)) == (r.out(x) != r.out(y))
  }

  ghost predicate AddCommutes<T>(r: Register<T>, x: T, y: T) {
    r.add(x, y) == r.add(y, x)
  }

  ghost predicate AddAssociates<T>(r: Register<T>, x: T, y: T, z: T) {
    r.add(r.add(x, y), z) == r.add(x, r.add(y, z))
  }

  ghost predicate AddCancels<T>(r: Register<T>, x: T, y: T) {
    r.add(x, r.add(x, y)) == y
  }

  ghost predicate Lawful<T(!new)>(r: Register<T>) {
    && (forall x, y :: ShiftAdds(r, x, y))
    && (forall x, y :: OutAdds(r, x, y))
    && (forall x, y :: AddCommutes(r, x, y))
    && (forall x, y, z :: AddAssociates(r, x, y, z))
    && (forall x, y :: AddCancels(r, x, y))
  }

  lemma {:induction false} RunAppends<T>(r: Register<T>, c: T, a: seq<bool>, b: seq<bool>)
    ensures r.Run(c, a + b) == r.Run(r.Run(c, a), b)
    decreases |b|
  {
    if b == [] {
      assert a + b == a;
    } else {
      RunAppends(r, c, a, b[..|b| - 1]);
      assert (a + b)[..|a + b| - 1] == a + b[..|b| - 1];
    }
  }

  lemma AddThree<T(!new)>(r: Register<T>, x: T, y: T, p: T)
    requires Lawful(r)
    ensures r.add(r.add(x, y), p) == r.add(r.add(x, p), y) == r.add(x, r.add(y, p))
    ensures r.add(r.add(x, p), r.add(y, p)) == r.add(x, y)
  {
    assert AddAssociates(r, x, y, p) && AddAssociates(r, x, p, y) && AddAssociates(r, x, p, r.add(y, p));
    assert AddCommutes(r, y, p) && AddCancels(r, p, y);
  }

  lemma StepAdds<T(!new)>(r: Register<T>, x: T, y: T, b: bool)
    requires Lawful(r)
    ensures r.Step(r.add(x, y), b) == r.add(r.Step(x, false), r.Step(y, b))
  {
    assert ShiftAdds(r, x, y) && OutAdds(r, x, y);
    AddThree(r, r.shift(x), r.shift(y), r.poly);
  }

  /** Division is linear: the message may be given to either of two summands. */
  lemma {:induction false} RunAdds<T(!new)>(r: Register<T>, x: T, y: T, bits: seq<bool>)
    requires Lawful(r)
    ensures r.Run(r.add(x, y), bits) == r.add(r.Run(x, Zeros(|bits|)), r.Run(y, bits))
    decreases |bits|
  {
    if bits != [] {
      var n := |bits| - 1;
      RunAdds(r, x, y, bits[..n]);
      assert Zeros(n + 1)[..n] == Zeros(n);
      StepAdds(r, r.Run(x, Zeros(n)), r.Run(y, bits[..n]), bits[n]);
    }
  }

  lemma RunOfEight<T>(r: Register<T>, c: T, bits: seq<bool>)
    requires |bits| == 8
    ensures r.Run(c, bits) ==
            r.Step(r.Step(r.Step(r.Step(r.Step(r.Step(r.Step(r.Step(c, bits[0]), bits[1]), bits[2]), bits[3]),
                                        bits[4]), bits[5]), bits[6]), bits[7])
  {
    var c1 := r.Step(c, bits[0]);
    var c2 := r.Step(c1, bits[1]);
    var c3 := r.Step(c2, bits[2]);
    var c4 := r.Step(c3, bits[3]);
    var c5 := r.Step(c4, bits[4]);
    var c6 := r.Step(c5, bits[5]);
    assert r.Run(c, bits[..1]) == c1;
    assert r.Run(c, bits[..2]) == c2 by { assert bits[..2][..1] == bits[..1]; }
    assert r.Run(c, bits[..3]) == c3 by { assert bits[..3][..2] == bits[..2]; }
    assert r.Run(c, bits[..4]) == c4 by { assert bits[..4][..3] == bits[..3]; }
    assert r.Run(c, bits[..5]) == c5 by { assert bits[..5][..4] == bits[..4]; }
    assert r.Run(c, bits[..6]) == c6 by { assert bits[..6][..5] == bits[..5]; }
    assert r.Run(c, bits[..7]) == r.Step(c6, bits[6]) by { assert bits[..7][..6] == bits[..6]; }
  }

  /** A register is shifted out unchanged by the message of its own outgoing bits. */
  lemma RunOut<T>(r: Register<T>, c: T, bits: seq<bool>, out: T)
    requires |bits| == 8
    requires
      var c1 := r.shift(c); var c2 := r.shift(c1); var c3 := r.shift(c2); var c4 := r.shift(c3);
      var c5 := r.shift(c4); var c6 := r.shift(c5); var c7 := r.shift(c6);
      && r.out(c) == bits[0] && r.out(c1) == bits[1] && r.out(c2) == bits[2] && r.out(c3) == bits[3]
      && r.out(c4) == bits[4] && r.out(c5) == bits[5] && r.out(c6) == bits[6] && r.out(c7) == bits[7]
      && r.shift(c7) == out
    ensures r.Run(c, bits) == out
  {
    RunOfEight(r, c, bits);
  }

  /** A message given to the sum of two registers may be given to the second alone. */
  lemma RunSplits<T(!new)>(r: Register<T>, c: T, x: T, y: T, bits: seq<bool>, e: T, s: T)
    requires Lawful(r)
    requires c == r.add(x, y)
    requires r.Run(x, Zeros(|bits|)) == e && r.Run(y, bits) == s
    ensures r.Run(c, bits) == r.add(e, s)
  {
    RunAdds(r, x, y, bits);
  }
}
