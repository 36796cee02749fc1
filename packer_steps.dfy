// The steps by which the packer's output loop and its final flush turn
// pending bits into bytes, stated over the Emitted relation.
module PackerSteps {
  import opened Power
  import opened BitPacking
  import opened BitRegister

  /** Eight bits pack into the one byte they spell. */
  lemma {:induction false} PackOne(byte: seq<bool>)
    requires |byte| == 8
    ensures Pack(byte) == [Value(byte)]
  {
    ValueBound(byte);
    Pow2Values();
    BitsOfValue(byte);
    PackByte(Value(byte));
  }

  /** What Emitted says, taken apart: the bits already written fill
      whole bytes and precede the pending ones. */
  lemma {:induction false} EmittedParts(before: seq<int>, after: seq<int>, stream: seq<bool>, rest: seq<bool>)
    requires Emitted(before, after, stream, rest)
    ensures |rest| <= |stream|
    ensures var done := stream[..|stream| - |rest|];
      stream == done + rest && |done| % 8 == 0 && after == before + Stuff(Pack(done))
  {
  }

  /** ... and put back together. */
  lemma {:induction false} EmittedOf(before: seq<int>, done: seq<bool>, rest: seq<bool>)
    requires |done| % 8 == 0
    ensures Emitted(before, before + Stuff(Pack(done)), done + rest, rest)
  {
    var stream := done + rest;
    assert stream[..|done|] == done && stream[|done|..] == rest;
  }

  lemma {:induction false} WholeBytes(a: nat, b: nat)
    requires a % 8 == 0 && b % 8 == 0
    ensures (a + b) % 8 == 0
  {
    DivModUnique(a + b, 8, a / 8 + b / 8, 0);
  }

  /** Two packer calls in a row write what one call on the joined bits would. */
  lemma {:induction false} EmittedChain(o0: seq<int>, o1: seq<int>, o2: seq<int>, s: seq<bool>,
                                        p1: seq<bool>, b: seq<bool>, p2: seq<bool>)
    requires Emitted(o0, o1, s, p1) && Emitted(o1, o2, p1 + b, p2)
    ensures Emitted(o0, o2, s + b, p2)
  {
    var e1, e2 := s[..|s| - |p1|], (p1 + b)[..|p1 + b| - |p2|];
    assert s == e1 + p1 && |e1| % 8 == 0 && o1 == o0 + Stuff(Pack(e1)) by {
      EmittedParts(o0, o1, s, p1);
    }
    assert p1 + b == e2 + p2 && |e2| % 8 == 0 && o2 == o1 + Stuff(Pack(e2)) by {
      EmittedParts(o1, o2, p1 + b, p2);
    }
    assert s + b == (e1 + e2) + p2 by {
      assert s + b == e1 + (p1 + b);
      Regroup(e1, e2, p2);
    }
    assert |e1 + e2| % 8 == 0 by {
      WholeBytes(|e1|, |e2|);
    }
    var w1, w2 := Stuff(Pack(e1)), Stuff(Pack(e2));
    assert o2 == o0 + Stuff(Pack(e1 + e2)) by {
      StuffPackAppend(e1, e2);
      assert o2 == (o0 + w1) + w2;
      assert (o0 + w1) + w2 == o0 + (w1 + w2);
    }
    EmittedOf(o0, e1 + e2, p2);
  }

  /** Before anything is written, every bit is pending. */
  lemma {:induction false} EmittedNothing(before: seq<int>, stream: seq<bool>)
    ensures Emitted(before, before, stream, stream)
  {
    assert stream[..0] == [];
  }

  /** A single byte is stuffed on its own: 0xFF gains a 0x00. */
  lemma {:induction false} StuffOne(c: int)
    ensures Stuff([c]) == if c == 0xFF then [0xFF, 0x00] else [c]
  {
    assert [c][1..] == [];
  }

  /** One pass of the output loop: the first eight pending bits leave as
      a byte, followed by 0x00 when that byte is 0xFF. */
  lemma {:induction false} EmitByte(before: seq<int>, after: seq<int>, stream: seq<bool>, rest: seq<bool>)
    requires Emitted(before, after, stream, rest) && |rest| >= 8
    ensures Emitted(before, after + Stuff([Value(rest[..8])]), stream, rest[8..])
  {
    EmittedParts(before, after, stream, rest);
    var done, byte, left := stream[..|stream| - |rest|], rest[..8], rest[8..];
    var written, last := Stuff(Pack(done)), Stuff([Value(byte)]);
    assert stream == (done + byte) + left by {
      assert rest == byte + left;
      Regroup(done, byte, left);
    }
    assert Stuff(Pack(done + byte)) == written + last by {
      PackOne(byte);
      StuffPackAppend(done, byte);
    }
    EmittedOf(before, done + byte, left);
    assert after + last == before + (written + last);
  }

  lemma {:induction false} PadOfTail(n: nat, k: nat, r: nat)
    requires k % 8 == 0 && n == k + r && r < 8
    ensures PadLength(n) == (if r == 0 then 0 else 8 - r)
  {
    DivModUnique(n, 8, k / 8, r);
  }

  /** The end of FlushBuffer when the bits sent fill whole bytes: nothing
      is left to write. */
  lemma {:induction false} EmitWhole(before: seq<int>, after: seq<int>, stream: seq<bool>, rest: seq<bool>)
    requires Emitted(before, after, stream, rest) && |rest| == 0
    ensures after == before + Stuff(Pack(stream + Zeros(PadLength(|stream|))))
  {
    EmittedParts(before, after, stream, rest);
    var done := stream[..|stream|];
    PadOfTail(|stream|, |done|, 0);
    assert stream + Zeros(PadLength(|stream|)) == done by {
      assert Zeros(0) == [];
    }
  }

  /** The end of FlushBuffer when one to seven bits are left: the padded
      byte completes the stream, and it needs no stuffing. */
  lemma {:induction false} EmitPad(before: seq<int>, after: seq<int>, stream: seq<bool>, rest: seq<bool>)
    requires Emitted(before, after, stream, rest) && 0 < |rest| < 8
    ensures after + [PadByte(rest)] == before + Stuff(Pack(stream + Zeros(PadLength(|stream|))))
  {
    EmittedParts(before, after, stream, rest);
    var done := stream[..|stream| - |rest|];
    PadOfTail(|stream|, |done|, |rest|);
    PadLast(before, after, done, rest, stream + Zeros(PadLength(|stream|)));
  }

  lemma {:induction false} PadLast(before: seq<int>, after: seq<int>, done: seq<bool>, rest: seq<bool>, padded: seq<bool>)
    requires 0 < |rest| < 8 && |done| % 8 == 0
    requires after == before + Stuff(Pack(done))
    requires padded == (done + rest) + Zeros(8 - |rest|)
    ensures after + [PadByte(rest)] == before + Stuff(Pack(padded))
  {
    var zeros := Zeros(8 - |rest|);
    var tail := rest + zeros;
    var written := Stuff(Pack(done));
    assert padded == done + tail by {
      Regroup(done, rest, zeros);
    }
    assert Stuff(Pack(padded)) == written + [PadByte(rest)] by {
      PadTail(rest);
      StuffPackAppend(done, tail);
    }
  }

  /** The padded last byte is one byte, and stuffing leaves it alone. */
  lemma {:induction false} PadTail(rest: seq<bool>)
    requires 0 < |rest| < 8
    ensures Stuff(Pack(rest + Zeros(8 - |rest|))) == [PadByte(rest)]
  {
    PadByteBits(rest);
    PackByte(PadByte(rest));
    assert Stuff([PadByte(rest)]) == [PadByte(rest)] + Stuff([]);
  }

  /** Solver helpers: sequence regroupings, stated once so the byte
      steps need not rediscover them. */
  lemma {:induction false} AppendTwo(s: seq<int>, a: int, b: int)
    ensures (s + [a]) + [b] == s + [a, b]
  {
  }

  lemma {:induction false} Regroup(a: seq<bool>, b: seq<bool>, c: seq<bool>)
    ensures (a + b) + c == a + (b + c)
  {
  }
}
