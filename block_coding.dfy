// What the block encoder emits for one block of quantized coefficients
// (sections F.1.2.1 and F.1.2.2 of ITU-T T.81): the DC difference as a
// magnitude category plus raw bits, the AC coefficients as run-length /
// category symbols with ZRL and EOB, and the Extend procedure of Figure
// F.12 that a decoder uses to turn the raw bits back into a signed value.
module BlockCoding {
  import opened Power
  import opened BitPacking

  datatype Option<T> = None | Some(value: T)

  /** The symbol for a run of sixteen zero coefficients. */
  const ZRL: nat := 0xF0
  /** The symbol that ends a block whose remaining coefficients are zero. */
  const EOB: nat := 0x00
  /** Number of AC coefficients in a block. */
  const AcCount: nat := 63

  function Abs(v: int): nat
  {
    if v < 0 then -v else v
  }

  /** Number of significant bits of n: how often `n >>= 1` runs before n is 0. */
  function BitLength(n: nat): (t: nat)
    ensures (t == 0) == (n == 0)
    ensures n > 0 ==> Pow2(t - 1) <= n < Pow2(t)
  {
    if n == 0 then 0 else 1 + BitLength(n / 2)
  }

  /** The magnitude category SSSS of a difference or coefficient. */
  function Category(v: int): nat
  {
    BitLength(Abs(v))
  }

  /** `temp2` of the encoder: the value whose low Category(v) bits are sent,
      v itself when v >= 0 and v - 1 (the one's complement of |v|) when
      v < 0. */
  function MagnitudeBits(v: int): int
  {
    if v < 0 then v - 1 else v
  }

  /** Figure F.12: the signed value of t raw bits v. With t == 0 the source
      computes `1 << -1`, which C# masks to `1 << 31`, the least int, so v
      comes back unchanged. For t >= 1, t raw bits extend to a value of
      category t whose sign is the top raw bit. */
  function Extend(v: int, t: nat): (r: int)
    ensures 0 < t && 0 <= v < Pow2(t) ==>
      Pow2(t - 1) <= Abs(r) < Pow2(t) && (r > 0 <==> v >= Pow2(t - 1))
  {
    if t == 0 then v
    else if v < Pow2(t - 1) then v - Pow2(t) + 1
    else v
  }

  /** Extend undoes the encoder's convention: the low Category(d) bits of
      MagnitudeBits(d) extend back to d, for every d. */
  lemma {:induction false} ExtendMagnitude(d: int)
    ensures Extend(MagnitudeBits(d) % Pow2(Category(d)), Category(d)) == d
  {
    var t := Category(d);
    if t > 0 {
      var p, h := Pow2(t), Pow2(t - 1);
      assert p == 2 * h;
      if d > 0 {
        DivModUnique(d, p, 0, d);
      } else {
        DivModUnique(d - 1, p, -1, d - 1 + p);
      }
    }
  }

  /** The raw bits of a non-zero value start with 1 exactly when it is
      positive: the sign is carried by the top raw bit. */
  lemma {:induction false} MagnitudeSign(d: int)
    requires d != 0
    ensures var t := Category(d);
      (MagnitudeBits(d) % Pow2(t) >= Pow2(t - 1)) == (d > 0)
  {
    var t := Category(d);
    var p, h := Pow2(t), Pow2(t - 1);
    assert p == 2 * h;
    if d > 0 {
      DivModUnique(d, p, 0, d);
    } else {
      DivModUnique(d - 1, p, -1, d - 1 + p);
    }
  }

  // ----------------------------------------------------------- emissions

  /** One call of the bit packer made by the block encoder: the code of a
      DC category, the code of an AC symbol, or `size` raw bits of `value`. */
  datatype Emission = DcCode(category: nat) | AcCode(symbol: nat) | Magnitude(value: int, size: nat)

  /** Section F.1.2.1: the DC difference's category, then its raw bits
      when the category is not 0. */
  function DcEmissions(diff: int): seq<Emission>
  {
    var t := Category(diff);
    [DcCode(t)] + (if t != 0 then [Magnitude(MagnitudeBits(diff), t)] else [])
  }

  function Zrls(n: nat): (r: seq<Emission>)
    ensures |r| == n && forall i :: 0 <= i < n ==> r[i] == AcCode(ZRL)
  {
    seq(n, _ => AcCode(ZRL))
  }

  /** Section F.1.2.2 for the coefficients `acs` (in zig-zag order) after a
      run of r zeros: zeros extend the run; a non-zero coefficient sends
      r / 16 ZRL symbols, then the symbol (r % 16) * 16 + category and the
      raw bits; a run left at the end is closed by EOB. */
  function AcEmissions(acs: seq<int>, r: nat): seq<Emission>
    decreases |acs|
  {
    if acs == [] then (if r > 0 then [AcCode(EOB)] else [])
    else if acs[0] == 0 then AcEmissions(acs[1..], r + 1)
    else
      var t := Category(acs[0]);
      Zrls(r / 16) + [AcCode(16 * (r % 16) + t), Magnitude(MagnitudeBits(acs[0]), t)]
        + AcEmissions(acs[1..], 0)
  }

  /** Everything the encoder emits for a block with DC difference `diff`. */
  function BlockEmissions(diff: int, acs: seq<int>): seq<Emission>
  {
    DcEmissions(diff) + AcEmissions(acs, 0)
  }

  // ------------------------------------------------- the reference decoder

  function ZeroRun(n: nat): (r: seq<int>)
    ensures |r| == n && forall i :: 0 <= i < n ==> r[i] == 0
  {
    seq(n, _ => 0)
  }

  /** Section F.2.2.2 on emissions: recover n AC coefficients. A symbol RS
      with S == 0 is EOB (R == 0) or ZRL (R == 15); otherwise R zeros are
      skipped and S raw bits are extended into the next coefficient. */
  function DecodeAc(es: seq<Emission>, n: nat): Option<seq<int>>
    decreases |es|
  {
    if es == [] then (if n == 0 then Some([]) else None)
    else if !es[0].AcCode? then None
    else
      var rs := es[0].symbol;
      var run, s := rs / 16, rs % 16;
      if rs == EOB then
        (if |es| == 1 && n > 0 then Some(ZeroRun(n)) else None)
      else if rs == ZRL then
        (if n < 16 then None
         else match DecodeAc(es[1..], n - 16)
           case Some(rest) => Some(ZeroRun(16) + rest)
           case None => None)
      else if s == 0 || |es| < 2 || !es[1].Magnitude? || es[1].size != s || n < run + 1 then None
      else
        match DecodeAc(es[2..], n - run - 1)
          case Some(rest) => Some(ZeroRun(run) + [Extend(es[1].value % Pow2(s), s)] + rest)
          case None => None
  }

  /** Decode a whole block: the DC category and raw bits against the
      predictor `prec`, then the 63 AC coefficients. The result is the
      block in zig-zag order, DC first. */
  function DecodeBlock(es: seq<Emission>, prec: int): Option<seq<int>>
  {
    if es == [] || !es[0].DcCode? then None
    else
      var t := es[0].category;
      if t == 0 then
        match DecodeAc(es[1..], AcCount)
          case Some(acs) => Some([prec] + acs)
          case None => None
      else if |es| < 2 || !es[1].Magnitude? || es[1].size != t then None
      else
        match DecodeAc(es[2..], AcCount)
          case Some(acs) => Some([prec + Extend(es[1].value % Pow2(t), t)] + acs)
          case None => None
  }

  // ------------------------------------------------------------ round trip

  /** AC categories stay below 16, so a category fits the low nibble of
      its run/size symbol. */
  ghost predicate NibbleCategories(acs: seq<int>)
  {
    forall i :: 0 <= i < |acs| ==> Category(acs[i]) < 16
  }

  /** Solver helper: decoding does not depend on how the count is
      written. */
  lemma {:induction false} DecodeAcCongruence(es: seq<Emission>, n: nat, m: nat)
    requires n == m
    ensures DecodeAc(es, n) == DecodeAc(es, m)
  {
  }

  lemma {:induction false} ZrlsCons(q: nat, q1: nat, tail: seq<Emission>)
    requires q == q1 + 1
    ensures Zrls(q) + tail == [AcCode(ZRL)] + (Zrls(q1) + tail)
  {
    assert Zrls(q) == [AcCode(ZRL)] + Zrls(q1);
  }

  lemma {:induction false} ZeroRunAppend(a: nat, b: nat, c: nat, out: seq<int>)
    requires c == a + b
    ensures ZeroRun(a) + (ZeroRun(b) + out) == ZeroRun(c) + out
  {
    var lhs, rhs := ZeroRun(a) + (ZeroRun(b) + out), ZeroRun(c) + out;
    forall i | 0 <= i < |lhs| ensures lhs[i] == rhs[i] {
      if i >= c {
        assert lhs[i] == out[i - c];
      }
    }
  }

  /** One ZRL symbol decodes to sixteen zeros. */
  lemma {:induction false} DecodeZrl(x: seq<Emission>, m: nat, out: seq<int>)
    requires DecodeAc(x, m) == Some(out)
    ensures DecodeAc([AcCode(ZRL)] + x, m + 16) == Some(ZeroRun(16) + out)
  {
    var es := [AcCode(ZRL)] + x;
    assert es[0] == AcCode(ZRL) && es[1..] == x;
  }

  /** q ZRL symbols decode to 16 * q zeros. */
  lemma {:induction false} DecodeZrls(q: nat, tail: seq<Emission>, k: nat, out: seq<int>)
    requires DecodeAc(tail, k) == Some(out)
    ensures DecodeAc(Zrls(q) + tail, 16 * q + k) == Some(ZeroRun(16 * q) + out)
  {
    if q > 0 {
      var q1 := q - 1;
      var x, o, m := Zrls(q1) + tail, ZeroRun(16 * q1) + out, 16 * q1 + k;
      DecodeZrls(q1, tail, k, out);
      DecodeZrl(x, m, o);
      ZrlsCons(q, q1, tail);
      DecodeAcCongruence(Zrls(q) + tail, m + 16, 16 * q + k);
      ZeroRunAppend(16, 16 * q1, 16 * q, out);
    } else {
      assert Zrls(q) + tail == tail;
      assert ZeroRun(0) + out == out;
    }
  }

  /** The symbol of a run r < 16 before a value of category t in 1..15
      splits back into r and t. */
  lemma {:induction false} SymbolSplit(r: nat, t: nat)
    requires r < 16 && 1 <= t < 16
    ensures var rs := 16 * r + t;
      rs / 16 == r && rs % 16 == t && rs != EOB && rs != ZRL
  {
    DivModUnique(16 * r + t, 16, r, t);
  }

  /** A run/size symbol and its raw bits decode to the run of zeros and
      the extended value. */
  lemma {:induction false} DecodeValue(m: nat, t: nat, v: int, rest: seq<Emission>, n: nat, out: seq<int>)
    requires m < 16 && 1 <= t < 16 && n >= m + 1
    requires DecodeAc(rest, n - m - 1) == Some(out)
    ensures DecodeAc([AcCode(16 * m + t), Magnitude(v, t)] + rest, n)
         == Some(ZeroRun(m) + [Extend(v % Pow2(t), t)] + out)
  {
    var rs := 16 * m + t;
    SymbolSplit(m, t);
    PairParts(AcCode(rs), Magnitude(v, t), rest);
  }

  /** The first emission of a list and the ones after it. */
  lemma {:induction false} HeadTail(e: Emission, rest: seq<Emission>)
    ensures ([e] + rest)[0] == e && ([e] + rest)[1..] == rest
  {
    assert ([e] + rest)[1..] == rest;
  }

  /** The emissions of a DC difference, taken apart: the category symbol
      first, then the raw bits unless the category is 0. */
  lemma {:induction false} DcSplit(diff: int, rest: seq<Emission>)
    ensures var t := Category(diff); var es := DcEmissions(diff) + rest;
      es[0] == DcCode(t) && es[1..] == (if t != 0 then [Magnitude(MagnitudeBits(diff), t)] else []) + rest
  {
    var t := Category(diff);
    var bits := if t != 0 then [Magnitude(MagnitudeBits(diff), t)] else [];
    assert DcEmissions(diff) + rest == [DcCode(t)] + (bits + rest);
    HeadTail(DcCode(t), bits + rest);
  }

  lemma {:induction false} PairTail(a: Emission, b: Emission, rest: seq<Emission>)
    ensures ([a, b] + rest)[0] == a && ([a, b] + rest)[1..] == [b] + rest
  {
    assert ([a, b] + rest)[1..] == [b] + rest;
  }

  lemma {:induction false} PairParts(a: Emission, b: Emission, rest: seq<Emission>)
    ensures var es := [a, b] + rest; |es| >= 2 && es[0] == a && es[1] == b && es[2..] == rest
  {
    var es := [a, b] + rest;
    assert es[2..] == rest;
  }

  /** Decoding the AC emissions after a run of r zeros gives back the run
      and the coefficients. */
  lemma {:induction false} AcRoundTrip(acs: seq<int>, r: nat)
    requires NibbleCategories(acs)
    ensures DecodeAc(AcEmissions(acs, r), r + |acs|) == Some(ZeroRun(r) + acs)
    decreases |acs|
  {
    if acs == [] {
      assert ZeroRun(r) + acs == ZeroRun(r);
    } else {
      var tail := acs[1..];
      if acs[0] == 0 {
        var r1 := r + 1;
        AcRoundTrip(tail, r1);
        AcZeroCase(acs, r, tail, r1);
      } else {
        AcRoundTrip(tail, 0);
        AcValueCase(acs, r, tail);
      }
    }
  }

  /** The step of AcRoundTrip at a zero first coefficient. */
  lemma {:induction false} AcZeroCase(acs: seq<int>, r: nat, tail: seq<int>, r1: nat)
    requires acs != [] && acs[0] == 0 && tail == acs[1..] && r1 == r + 1
    requires DecodeAc(AcEmissions(tail, r1), r1 + |tail|) == Some(ZeroRun(r1) + tail)
    ensures DecodeAc(AcEmissions(acs, r), r + |acs|) == Some(ZeroRun(r) + acs)
  {
    assert AcEmissions(acs, r) == AcEmissions(tail, r1);
    DecodeAcCongruence(AcEmissions(tail, r1), r1 + |tail|, r + |acs|);
    ZeroRunCons(r, acs);
  }

  /** The step of AcRoundTrip at a non-zero first coefficient. */
  lemma {:induction false} AcValueCase(acs: seq<int>, r: nat, tail: seq<int>)
    requires acs != [] && acs[0] != 0 && Category(acs[0]) < 16 && tail == acs[1..]
    requires DecodeAc(AcEmissions(tail, 0), 0 + |tail|) == Some(ZeroRun(0) + tail)
    ensures DecodeAc(AcEmissions(acs, r), r + |acs|) == Some(ZeroRun(r) + acs)
  {
    var c, q, m := acs[0], r / 16, r % 16;
    var rest := AcEmissions(tail, 0);
    assert ZeroRun(0) + tail == tail;
    DecodeAcCongruence(rest, 0 + |tail|, |tail|);
    RunSplit(r);
    AcValueStep(c, tail, rest, q, m, r);
    var t := Category(c);
    var es := Zrls(q) + ([AcCode(16 * m + t), Magnitude(MagnitudeBits(c), t)] + rest);
    AcEmissionsValue(acs, r, c, q, m, tail, rest);
    assert [c] + tail == acs;
    DecodeAcCongruence(es, r + 1 + |tail|, r + |acs|);
  }

  lemma {:induction false} ZeroRunCons(r: nat, acs: seq<int>)
    requires acs != [] && acs[0] == 0
    ensures ZeroRun(r + 1) + acs[1..] == ZeroRun(r) + acs
  {
    var lhs, rhs := ZeroRun(r + 1) + acs[1..], ZeroRun(r) + acs;
    assert |lhs| == |rhs|;
    forall i | 0 <= i < |lhs| ensures lhs[i] == rhs[i] {
      if i > r {
        assert lhs[i] == acs[i - r];
      }
    }
  }

  /** A run length splits into ZRL symbols and a remainder below 16. */
  lemma {:induction false} RunSplit(r: nat)
    ensures r == 16 * (r / 16) + r % 16 && r % 16 < 16
  {
  }

  /** The step of AcRoundTrip at a non-zero coefficient c after a run of
      r == 16 * q + m zeros, with `rest` the emissions that decode to
      `tail`. */
  lemma {:induction false} AcValueStep(c: int, tail: seq<int>, rest: seq<Emission>, q: nat, m: nat, r: nat)
    requires c != 0 && Category(c) < 16 && m < 16 && r == 16 * q + m
    requires DecodeAc(rest, |tail|) == Some(tail)
    ensures var t := Category(c);
      DecodeAc(Zrls(q) + ([AcCode(16 * m + t), Magnitude(MagnitudeBits(c), t)] + rest), r + 1 + |tail|)
        == Some(ZeroRun(r) + ([c] + tail))
  {
    var t := Category(c);
    var x := [AcCode(16 * m + t), Magnitude(MagnitudeBits(c), t)] + rest;
    var out := ZeroRun(m) + [c] + tail;
    DecodeHead(c, tail, rest, m);
    DecodeZrls(q, x, m + 1 + |tail|, out);
    DecodeAcCongruence(Zrls(q) + x, 16 * q + (m + 1 + |tail|), r + 1 + |tail|);
    ZeroRunSplit(q, m, r, c, tail);
  }

  /** The symbol and raw bits of a non-zero coefficient after m < 16
      zeros decode back to those zeros and the coefficient. */
  lemma {:induction false} DecodeHead(c: int, tail: seq<int>, rest: seq<Emission>, m: nat)
    requires c != 0 && Category(c) < 16 && m < 16
    requires DecodeAc(rest, |tail|) == Some(tail)
    ensures var t := Category(c);
      DecodeAc([AcCode(16 * m + t), Magnitude(MagnitudeBits(c), t)] + rest, m + 1 + |tail|)
        == Some(ZeroRun(m) + [c] + tail)
  {
    ExtendMagnitude(c);
    DecodeValue(m, Category(c), MagnitudeBits(c), rest, m + 1 + |tail|, tail);
  }

  /** AcEmissions at a non-zero coefficient c after a run of
      r == 16 * q + m zeros, unfolded once. */
  lemma {:induction false} AcEmissionsValue(acs: seq<int>, r: nat, c: int, q: nat, m: nat, tail: seq<int>, rest: seq<Emission>)
    requires acs != [] && c == acs[0] && c != 0 && q == r / 16 && m == r % 16
    requires tail == acs[1..] && rest == AcEmissions(tail, 0)
    ensures var t := Category(c);
      AcEmissions(acs, r) == Zrls(q) + ([AcCode(16 * m + t), Magnitude(MagnitudeBits(c), t)] + rest)
  {
  }

  lemma {:induction false} ZeroRunSplit(q: nat, m: nat, r: nat, c: int, tail: seq<int>)
    requires r == 16 * q + m
    ensures ZeroRun(16 * q) + (ZeroRun(m) + [c] + tail) == ZeroRun(r) + ([c] + tail)
  {
    var lhs, rhs := ZeroRun(16 * q) + (ZeroRun(m) + [c] + tail), ZeroRun(r) + ([c] + tail);
    assert |lhs| == |rhs|;
    forall i | 0 <= i < |lhs| ensures lhs[i] == rhs[i] {
      if i < r {
        assert lhs[i] == 0;
      }
    }
  }

  /** The round trip of a block: decoding what the encoder emits for
      DC value dc against predictor prec gives the block back. */
  lemma {:induction false} BlockRoundTrip(dc: int, prec: int, acs: seq<int>)
    requires |acs| == AcCount && NibbleCategories(acs)
    ensures DecodeBlock(BlockEmissions(dc - prec, acs), prec) == Some([dc] + acs)
  {
    var rest := AcEmissions(acs, 0);
    AcRoundTrip(acs, 0);
    assert ZeroRun(0) + acs == acs;
    DecodeAcCongruence(rest, 0 + |acs|, AcCount);
    DecodeDc(dc - prec, prec, dc, rest, acs);
  }

  /** The DC category and raw bits, then AC emissions that decode to acs. */
  lemma {:induction false} DecodeDc(diff: int, prec: int, dc: int, rest: seq<Emission>, acs: seq<int>)
    requires diff == dc - prec && DecodeAc(rest, AcCount) == Some(acs)
    ensures DecodeBlock(DcEmissions(diff) + rest, prec) == Some([dc] + acs)
  {
    var es := DcEmissions(diff) + rest;
    ExtendMagnitude(diff);
    if Category(diff) == 0 {
      assert es[1..] == rest;
    } else {
      assert es[2..] == rest;
    }
  }

  // ------------------------------------------------------- end of block

  /** es is not empty, ends with EOB exactly when `endsZero` holds, and
      holds no other EOB. */
  ghost predicate EobOnlyLast(es: seq<Emission>, endsZero: bool)
  {
    es != [] && (es[|es| - 1] == AcCode(EOB) <==> endsZero) &&
    forall i :: 0 <= i < |es| - 1 ==> es[i] != AcCode(EOB)
  }

  /** EOB is sent exactly when the last coefficient is zero: it is then
      the final emission, and no other emission is an EOB. */
  lemma {:induction false} EobExactlyAtEnd(acs: seq<int>, r: nat)
    requires acs != [] || r > 0
    ensures EobOnlyLast(AcEmissions(acs, r), acs == [] || acs[|acs| - 1] == 0)
    decreases |acs|
  {
    if acs != [] {
      var tail := acs[1..];
      if acs[0] == 0 {
        var r1 := r + 1;
        EobExactlyAtEnd(tail, r1);
        EobZeroCase(acs, r, tail, r1);
      } else {
        if tail != [] {
          EobExactlyAtEnd(tail, 0);
        }
        EobAfterValue(acs, r, tail);
      }
    }
  }

  /** The step of EobExactlyAtEnd at a zero first coefficient. */
  lemma {:induction false} EobZeroCase(acs: seq<int>, r: nat, tail: seq<int>, r1: nat)
    requires acs != [] && acs[0] == 0 && tail == acs[1..] && r1 == r + 1
    requires EobOnlyLast(AcEmissions(tail, r1), tail == [] || tail[|tail| - 1] == 0)
    ensures EobOnlyLast(AcEmissions(acs, r), acs == [] || acs[|acs| - 1] == 0)
  {
    assert AcEmissions(acs, r) == AcEmissions(tail, r1);
    if tail != [] {
      assert tail[|tail| - 1] == acs[|acs| - 1];
    }
  }

  /** The step of EobExactlyAtEnd at a non-zero first coefficient. */
  lemma {:induction false} EobAfterValue(acs: seq<int>, r: nat, tail: seq<int>)
    requires acs != [] && acs[0] != 0 && tail == acs[1..]
    requires tail != [] ==> EobOnlyLast(AcEmissions(tail, 0), tail[|tail| - 1] == 0)
    ensures EobOnlyLast(AcEmissions(acs, r), acs[|acs| - 1] == 0)
  {
    var c, q, m, rest := acs[0], r / 16, r % 16, AcEmissions(tail, 0);
    var t := Category(c);
    var pair := [AcCode(16 * m + t), Magnitude(MagnitudeBits(c), t)];
    var head := Zrls(q) + pair;
    AcEmissionsValue(acs, r, c, q, m, tail, rest);
    assert AcEmissions(acs, r) == head + rest;
    HeadNoEob(c, r);
    if tail == [] {
      assert head + rest == head;
    } else {
      EobAppend(head, rest);
      assert tail[|tail| - 1] == acs[|acs| - 1];
    }
  }

  /** The ZRL symbols, run/size symbol and raw bits sent for a non-zero
      coefficient hold no EOB, and end with the raw bits. */
  lemma {:induction false} HeadNoEob(c: int, r: nat)
    requires c != 0
    ensures var t := Category(c);
      var head := Zrls(r / 16) + [AcCode(16 * (r % 16) + t), Magnitude(MagnitudeBits(c), t)];
      head[|head| - 1].Magnitude? && forall i :: 0 <= i < |head| ==> head[i] != AcCode(EOB)
  {
    RunSplit(r);
    assert Category(c) >= 1;
  }

  /** Emissions free of EOB followed by a non-empty tail: EOB can only
      appear at the end, and only if it ends the tail. */
  lemma {:induction false} EobAppend(head: seq<Emission>, rest: seq<Emission>)
    requires forall i :: 0 <= i < |head| ==> head[i] != AcCode(EOB)
    requires rest != [] && forall i :: 0 <= i < |rest| - 1 ==> rest[i] != AcCode(EOB)
    ensures var es := head + rest;
      es[|es| - 1] == rest[|rest| - 1] && forall i :: 0 <= i < |es| - 1 ==> es[i] != AcCode(EOB)
  {
    var es := head + rest;
    forall i | 0 <= i < |es| - 1 ensures es[i] != AcCode(EOB) {
      if i >= |head| {
        assert es[i] == rest[i - |head|];
      }
    }
  }

  // ------------------------------------------- the encoder loop's view

  /** A zero coefficient only lengthens the run. */
  lemma {:induction false} AcStepZero(acs: seq<int>, j: nat, next: nat, r: nat, r1: nat)
    requires j < |acs| && acs[j] == 0 && next == j + 1 && r1 == r + 1
    ensures AcEmissions(acs[j..], r) == AcEmissions(acs[next..], r1)
  {
    var tail := acs[j..];
    assert tail[0] == 0 && tail[1..] == acs[next..];
  }

  /** A non-zero coefficient sends r / 16 ZRL symbols, its run/size symbol
      and its raw bits; the run then starts again from 0. */
  lemma {:induction false} AcStepValue(acs: seq<int>, j: nat, next: nat, r: nat)
    requires j < |acs| && acs[j] != 0 && next == j + 1
    ensures var t := Category(acs[j]);
      AcEmissions(acs[j..], r)
        == Zrls(r / 16) + ([AcCode(16 * (r % 16) + t), Magnitude(MagnitudeBits(acs[j]), t)]
             + AcEmissions(acs[next..], 0))
  {
    var tail, rest := acs[j..], acs[next..];
    assert tail[0] == acs[j] && tail[1..] == rest;
    AcEmissionsValue(tail, r, acs[j], r / 16, r % 16, rest, AcEmissions(rest, 0));
  }

  /** One ZRL symbol takes sixteen zeros off a run longer than 15. */
  lemma {:induction false} ZrlStep(r: nat, next: nat, rest: seq<Emission>)
    requires r > 15 && next == r - 16
    ensures Zrls(r / 16) + rest == [AcCode(ZRL)] + (Zrls(next / 16) + rest)
    ensures next % 16 == r % 16
  {
    var q := r / 16;
    RunSplit(r);
    DivModUnique(next, 16, q - 1, r % 16);
    ZrlsCons(q, q - 1, rest);
  }

  /** The emissions left after the last coefficient: an EOB if a run of
      zeros is open. */
  lemma {:induction false} AcStepEnd(acs: seq<int>, r: nat)
    ensures AcEmissions(acs[|acs|..], r) == if r > 0 then [AcCode(EOB)] else []
  {
    assert acs[|acs|..] == [];
  }
}
