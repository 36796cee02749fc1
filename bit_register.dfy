// The bit register of the packer: the pending bits held left-justified in
// the low 24 bits of an integer, with bytes taken from bits 16..23.
module BitRegister {
  import opened Power
  import opened BitPacking

  /** Value of a bit string, bounded by its length in shift form. */
  lemma {:induction false} ValueBelow(b: seq<bool>)
    ensures 0 <= Value(b) < Shl(1, |b|)
  {
    ValueBound(b);
    ShlOne(|b|);
  }

  /** The 24-bit window of the register: the pending bits shifted to the
      top, zero bits below them. */
  function Window(pending: seq<bool>): int
    requires |pending| <= 24
  {
    Shl(Value(pending), 24 - |pending|)
  }

  /** Appending bits shifts the value left and adds. */
  lemma {:induction false} ValueConcat(a: seq<bool>, b: seq<bool>)
    ensures Value(a + b) == Shl(Value(a), |b|) + Value(b)
  {
    if b == [] {
      assert a + b == a;
    } else {
      var init := b[..|b| - 1];
      assert (a + b)[..|a + b| - 1] == a + init;
      ValueConcat(a, init);
    }
  }

  lemma {:induction false} ValueZeros(n: nat)
    ensures Value(Zeros(n)) == 0
  {
    if n > 0 {
      assert Zeros(n)[..n - 1] == Zeros(n - 1);
      ValueZeros(n - 1);
    }
  }

  /** The loop body of the packer: with at least eight pending bits, the
      byte `(buffer >> 16) & 0xFF` is the first eight of them, and
      `buffer << 8`, kept to 24 bits, is the window of the rest. */
  lemma {:induction false} TakeByte(pending: seq<bool>)
    requires 8 <= |pending| <= 24
    ensures (Window(pending) / 65536) % 256 == Value(pending[..8])
    ensures (Window(pending) * 256) % 16777216 == Window(pending[8..])
  {
    var h, t := pending[..8], pending[8..];
    assert pending == h + t;
    var vh, vt := Value(h), Value(t);
    var m, e := |t|, 24 - (|h| + |t|);
    var w := Window(pending);
    var low := Shl(vt, e);
    assert w == 65536 * vh + low by {
      WindowConcat(h, t);
      ShiftMerge(vh, vt, m, e);
      ShlCongruence(vh, vh, m + e, 16);
      ShlSixteen(vh);
    }
    assert 0 <= low < 65536 by {
      ValueBelow(t);
      ShlBelow(vt, m, e);
      ShlCongruence(1, 1, m + e, 16);
      ShlSixteen(1);
    }
    assert 0 <= vh < 256 by {
      ValueBelow(h);
      ShlCongruence(1, 1, |h|, 8);
      ShlByte(1);
    }
    DivModUnique(w, 65536, vh, low);
    DivModUnique(vh, 256, 0, vh);
    assert Window(t) == 256 * low by {
      ShlShl(vt, e, 8);
      ShlCongruence(vt, vt, e + 8, 24 - |t|);
      ShlByte(low);
    }
    DivModUnique(w * 256, 16777216, vh, low * 256);
  }

  /** The entry of the packer: the low `size` bits of `code`, shifted to
      sit just below the pending bits and merged into the register. The
      source merges with `|`. The first two ensures show the operands
      occupy disjoint bit ranges: the window has only zero bits below
      position 24 - |pending|, and the shifted code lies entirely there.
      So `|` is `+` here, and the sum is the window of the longer string. */
  lemma {:induction false} Merge(pending: seq<bool>, code: int, size: nat)
    requires |pending| + size <= 24
    ensures Window(pending) % Pow2(24 - |pending|) == 0
    ensures 0 <= Shl(code % Pow2(size), 24 - (|pending| + size)) < Pow2(24 - |pending|)
    ensures Shl(code % Pow2(size), 24 - (|pending| + size)) + Window(pending)
         == Window(pending + Bits(code, size))
  {
    var b := Bits(code, size);
    var k, e := 24 - |pending|, 24 - (|pending| + size);
    ValueOfBits(code, size);
    assert Value(b) == code % Pow2(size);
    ShlPow2(Value(pending), k);
    DivModUnique(Window(pending), Pow2(k), Value(pending), 0);
    ValueBelow(b);
    ShlBelow(Value(b), size, e);
    ShlCongruence(1, 1, size + e, k);
    ShlOne(k);
    MergeBits(pending, b);
  }

  lemma {:induction false} MergeBits(pending: seq<bool>, b: seq<bool>)
    requires |pending| + |b| <= 24
    ensures Shl(Value(b), 24 - (|pending| + |b|)) + Window(pending) == Window(pending + b)
  {
    var e := 24 - (|pending| + |b|);
    var vp, vb := Value(pending), Value(b);
    WindowConcat(pending, b);
    ShiftMerge(vp, vb, |b|, e);
    ShlCongruence(vp, vp, |b| + e, 24 - |pending|);
  }

  lemma {:induction false} WindowConcat(a: seq<bool>, b: seq<bool>)
    requires |a| + |b| <= 24
    ensures Window(a + b) == Shl(Shl(Value(a), |b|) + Value(b), 24 - (|a| + |b|))
  {
    ValueConcat(a, b);
    ShlCongruence(Value(a + b), Shl(Value(a), |b|) + Value(b), 24 - |a + b|, 24 - (|a| + |b|));
  }

  lemma {:induction false} ShiftMerge(x: int, y: int, a: nat, b: nat)
    ensures Shl(Shl(x, a) + y, b) == Shl(y, b) + Shl(x, a + b)
  {
    ShlAdd(Shl(x, a), y, b);
    ShlShl(x, a, b);
  }

  /** FlushBuffer's final byte: the pending bits on top, zero bits below. */
  function PadByte(b: seq<bool>): int
    requires |b| < 8
  {
    Shl(Value(b), 8 - |b|)
  }

  /** With fewer than eight pending bits, the top byte of the window is
      the padded byte; it holds at least one 0 bit, so it is never 0xFF,
      and its bits are the pending bits followed by zeros. */
  lemma {:induction false} PadByteBits(b: seq<bool>)
    requires |b| < 8
    ensures (Window(b) / 65536) % 256 == PadByte(b)
    ensures 0 <= PadByte(b) < 0xFF
    ensures Bits(PadByte(b), 8) == b + Zeros(8 - |b|)
  {
    var n := |b|;
    var z := Zeros(8 - n);
    var pad := PadByte(b);
    assert Value(b + z) == pad by {
      ValueConcat(b, z);
      ValueZeros(8 - n);
    }
    assert Bits(pad, 8) == b + z by {
      BitsOfValue(b + z);
    }
    assert 0 <= pad < 256 by {
      ValueBelow(b + z);
      ShlCongruence(1, 1, |b + z|, 8);
      ShlByte(1);
    }
    assert pad % 2 == 0 by {
      ShlStep(Value(b), 8 - n);
    }
    assert Window(b) == 65536 * pad by {
      ShlShl(Value(b), 8 - n, 16);
      ShlCongruence(Value(b), Value(b), 8 - n + 16, 24 - n);
      ShlSixteen(pad);
    }
    DivModUnique(Window(b), 65536, pad, 0);
    DivModUnique(pad, 256, 0, pad);
  }

  /** An empty register holds 0. */
  lemma {:induction false} EmptyWindow()
    ensures Window([]) == 0
  {
    ShlZero(24);
  }
}
