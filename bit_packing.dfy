// The bit packer's arithmetic: bit strings MSB-first, the 24-bit window of
// the bit register, bytes cut from a bit string, and the byte stuffing of
// section F.1.2.3 of ITU-T T.81.
module BitPacking {
  import opened Power

  /** The low n bits of v, most significant first. For a negative v these
      are its two's-complement bits, the ones `v & ((1 << n) - 1)` keeps. */
  function Bits(v: int, n: nat): (r: seq<bool>)
    ensures |r| == n
    decreases n
  {
    if n == 0 then [] else Bits(v / 2, n - 1) + [v % 2 == 1]
  }

  /** The number an MSB-first bit string denotes. */
  function Value(b: seq<bool>): nat
  {
    if b == [] then 0 else 2 * Value(b[..|b| - 1]) + (if b[|b| - 1] then 1 else 0)
  }

  lemma {:induction false} ValueBound(b: seq<bool>)
    ensures Value(b) < Pow2(|b|)
  {
    if b != [] {
      ValueBound(b[..|b| - 1]);
    }
  }

  function Zeros(n: nat): (r: seq<bool>)
    ensures |r| == n && forall i :: 0 <= i < n ==> !r[i]
  {
    seq(n, _ => false)
  }

  // ------------------------------------------------------ bits and values

  lemma {:induction false} DivModUnique(x: int, d: int, q: int, r: int)
    requires d >= 1 && x == q * d + r && 0 <= r < d
    ensures x / d == q && x % d == r
  {
    var q', r' := x / d, x % d;
    assert x == q' * d + r';
    if q' > q {
      MulMonotone(q + 1, q', d);
    } else if q' < q {
      MulMonotone(q' + 1, q, d);
    }
  }

  /** Value and Bits are inverse on strings of a fixed length. */
  lemma {:induction false} BitsOfValue(b: seq<bool>)
    ensures Bits(Value(b), |b|) == b
  {
    if b != [] {
      var init := b[..|b| - 1];
      var v := Value(b);
      DivModUnique(v, 2, Value(init), if b[|b| - 1] then 1 else 0);
      BitsOfValue(init);
      assert b == init + [b[|b| - 1]];
    }
  }

  lemma {:induction false} ValueOfBits(v: int, n: nat)
    ensures Value(Bits(v, n)) == v % Pow2(n)
    decreases n
  {
    if n > 0 {
      ValueOfBits(v / 2, n - 1);
      var b := Bits(v, n);
      assert b[..n - 1] == Bits(v / 2, n - 1);
      HalfStep(v, Pow2(n - 1));
    }
  }

  /** v % 2d == 2 * ((v / 2) % d) + v % 2. */
  lemma {:induction false} HalfStep(v: int, d: int)
    requires d >= 1
    ensures v % (2 * d) == 2 * ((v / 2) % d) + v % 2
  {
    var h := v / 2;
    var q, low := h / d, h % d;
    assert h == q * d + low;
    assert v == 2 * h + v % 2;
    MulAssoc(2, q, d);
    assert v == q * (2 * d) + (2 * low + v % 2);
    DivModUnique(v, 2 * d, q, 2 * low + v % 2);
  }

  // ---------------------------------------------------------------- bytes

  /** Bytes cut from a bit string whose length is a multiple of 8. */
  function Pack(b: seq<bool>): (r: seq<int>)
    requires |b| % 8 == 0
    ensures |r| == |b| / 8
    ensures forall i :: 0 <= i < |r| ==> 0 <= r[i] < 256
  {
    if b == [] then []
    else
      ValueBound(b[..8]);
      Pow2Values();
      [Value(b[..8])] + Pack(b[8..])
  }

  /** The bits of a byte string, MSB-first within each byte. */
  function Unpack(bytes: seq<int>): (r: seq<bool>)
    ensures |r| == 8 * |bytes|
  {
    if bytes == [] then [] else Bits(bytes[0], 8) + Unpack(bytes[1..])
  }

  lemma {:induction false} UnpackPack(b: seq<bool>)
    requires |b| % 8 == 0
    ensures Unpack(Pack(b)) == b
  {
    if b != [] {
      BitsOfValue(b[..8]);
      assert Pack(b)[1..] == Pack(b[8..]);
      UnpackPack(b[8..]);
      assert b == b[..8] + b[8..];
    }
  }

  lemma {:induction false} PackAppend(a: seq<bool>, b: seq<bool>)
    requires |a| % 8 == 0 && |b| % 8 == 0
    ensures Pack(a + b) == Pack(a) + Pack(b)
  {
    if a == [] {
      assert a + b == b;
    } else {
      assert (a + b)[..8] == a[..8];
      assert (a + b)[8..] == a[8..] + b;
      PackAppend(a[8..], b);
    }
  }

  lemma {:induction false} PackByte(v: int)
    requires 0 <= v < 256
    ensures Pack(Bits(v, 8)) == [v]
  {
    var b := Bits(v, 8);
    assert b[..8] == b && b[8..] == [];
    ValueOfBits(v, 8);
    Pow2Values();
    DivModUnique(v, 256, 0, v);
  }

  lemma {:induction false} Pow2Values()
    ensures Pow2(8) == 256 && Pow2(16) == 65536 && Pow2(24) == 16777216
  {
    assert Pow2(2) == 4;
    assert Pow2(4) == 16;
    assert Pow2(6) == 64;
    assert Pow2(8) == 256;
    Pow2Add(8, 8);
    Pow2Add(16, 8);
  }

  /** The number of zero bits that complete the last byte of n bits. */
  function PadLength(n: nat): (r: nat)
    ensures r < 8 && (n + r) % 8 == 0
  {
    (8 - n % 8) % 8
  }

  // ------------------------------------------------------- byte stuffing

  /** Section F.1.2.3: a 0x00 byte follows every 0xFF byte. */
  function Stuff(bytes: seq<int>): seq<int>
  {
    if bytes == [] then []
    else (if bytes[0] == 0xFF then [0xFF, 0x00] else [bytes[0]]) + Stuff(bytes[1..])
  }

  /** What a decoder does: drop the 0x00 that follows a 0xFF. */
  function Unstuff(s: seq<int>): seq<int>
  {
    if s == [] then []
    else if s[0] == 0xFF && |s| >= 2 && s[1] == 0x00 then [0xFF] + Unstuff(s[2..])
    else [s[0]] + Unstuff(s[1..])
  }

  function CountFF(bytes: seq<int>): nat
  {
    if bytes == [] then 0 else (if bytes[0] == 0xFF then 1 else 0) + CountFF(bytes[1..])
  }

  lemma {:induction false} StuffAppend(a: seq<int>, b: seq<int>)
    ensures Stuff(a + b) == Stuff(a) + Stuff(b)
  {
    if a == [] {
      assert a + b == b;
    } else {
      assert (a + b)[0] == a[0] && (a + b)[1..] == a[1..] + b;
      StuffAppend(a[1..], b);
    }
  }

  /** Stuffing loses nothing: the decoder's unstuffing gives the bytes back. */
  lemma {:induction false} UnstuffStuff(bytes: seq<int>)
    ensures Unstuff(Stuff(bytes)) == bytes
  {
    if bytes != [] {
      UnstuffStuff(bytes[1..]);
      var s := Stuff(bytes);
      if bytes[0] == 0xFF {
        assert s[2..] == Stuff(bytes[1..]);
      } else {
        assert s[1..] == Stuff(bytes[1..]);
      }
    }
  }

  /** Every 0xFF in the stuffed bytes is followed by 0x00. */
  lemma {:induction false} StuffedMarkers(bytes: seq<int>, i: nat)
    requires i < |Stuff(bytes)| && Stuff(bytes)[i] == 0xFF
    ensures i + 1 < |Stuff(bytes)| && Stuff(bytes)[i + 1] == 0x00
  {
    var s := Stuff(bytes);
    if bytes[0] == 0xFF {
      if i >= 2 {
        StuffedMarkers(bytes[1..], i - 2);
      }
    } else {
      assert i >= 1;
      StuffedMarkers(bytes[1..], i - 1);
    }
  }

  /** Only 0xFF bytes add a byte: one 0x00 each. */
  lemma {:induction false} StuffLength(bytes: seq<int>)
    ensures |Stuff(bytes)| == |bytes| + CountFF(bytes)
  {
    if bytes != [] {
      StuffLength(bytes[1..]);
    }
  }

  // ------------------------------------------------- what has been written

  /** `after` is `before` followed by the stuffed bytes of `stream` less the
      bits still pending, and the pending bits are the tail of `stream`. */
  ghost predicate Emitted(before: seq<int>, after: seq<int>, stream: seq<bool>, pending: seq<bool>)
  {
    var k := |stream| - |pending|;
    0 <= k && k % 8 == 0 && stream[k..] == pending &&
    after == before + Stuff(Pack(stream[..k]))
  }

  lemma {:induction false} StuffPackAppend(a: seq<bool>, b: seq<bool>)
    requires |a| % 8 == 0 && |b| % 8 == 0
    ensures Stuff(Pack(a + b)) == Stuff(Pack(a)) + Stuff(Pack(b))
  {
    PackAppend(a, b);
    StuffAppend(Pack(a), Pack(b));
  }
}
