// The decoder tables of Figure F.15 of ITU-T T.81 (MINCODE, MAXCODE and
// VALPTR, one entry per code length) as HuffmanTable builds them, and what
// the decoding procedure of Figure F.16 relies on them for.
module DecoderTables {
  import opened Power
  import opened CanonicalCodes
  import opened BitPacking

  /** The code of the first symbol of length l + 1. */
  function FirstCode(bits: seq<nat>, l: nat): int
    requires l < |bits| && bits[l] != 0
  {
    SizeListRun(bits, l);
    Codes(bits)[Start(bits, l)]
  }

  /** The code of the last symbol of length l + 1. */
  function LastCode(bits: seq<nat>, l: nat): int
    requires l < |bits| && bits[l] != 0
  {
    SizeListRun(bits, l);
    Codes(bits)[Start(bits, l + 1) - 1]
  }

  /** Entry l of MINCODE, MAXCODE and VALPTR once the tables are built:
      -1, -1 and the offset left as it was for a length without codes;
      otherwise the least and the greatest code of length l + 1, and the
      offset that turns a code of that length into its position in
      HUFFVAL. */
  ghost predicate DecoderRow(bits: seq<nat>, l: nat, minc: int, maxc: int, vp: int, vp0: int)
    requires l < |bits|
  {
    if bits[l] == 0 then minc == -1 && maxc == -1 && vp == vp0
    else minc == FirstCode(bits, l) && maxc == LastCode(bits, l) && vp == Start(bits, l) - minc
  }

  /** All sixteen entries of MINCODE, MAXCODE and VALPTR as above, with
      vp0 the offsets they started from. */
  ghost predicate DecoderTablesOf(bits: seq<nat>, mn: seq<int>, mx: seq<int>, vp: seq<int>, vp0: seq<int>)
  {
    |bits| == 16 && |mn| == 16 && |mx| == 16 && |vp| == 16 && |vp0| == 16 &&
    forall l :: 0 <= l < 16 ==> DecoderRow(bits, l, mn[l], mx[l], vp[l], vp0[l])
  }

  /** The entries for the lengths below i + 1 are built. */
  ghost predicate RowsUpTo(bits: seq<nat>, mn: seq<int>, mx: seq<int>, vp: seq<int>, vp0: seq<int>, i: nat)
  {
    |bits| == 16 && |mn| == 16 && |mx| == 16 && |vp| == 16 && |vp0| == 16 && i <= 16 &&
    forall l :: 0 <= l < i ==> DecoderRow(bits, l, mn[l], mx[l], vp[l], vp0[l])
  }

  /** The entries from i on are as the array initializers left them. */
  ghost predicate RowsFrom(mn: seq<int>, mx: seq<int>, vp: seq<int>, vp0: seq<int>, i: nat)
  {
    |mn| == 16 && |mx| == 16 && |vp| == 16 && |vp0| == 16 &&
    forall l :: i <= l < 16 ==> mn[l] == -1 && mx[l] == -1 && vp[l] == vp0[l]
  }

  /** Building entry i keeps the entries below it. */
  lemma {:induction false} RowsStep(bits: seq<nat>, mn: seq<int>, mx: seq<int>, vp: seq<int>, vp0: seq<int>, i: nat,
                 mn': seq<int>, mx': seq<int>, vp': seq<int>)
    requires RowsUpTo(bits, mn, mx, vp, vp0, i) && RowsFrom(mn, mx, vp, vp0, i) && i < 16
    requires |mn'| == 16 && |mx'| == 16 && |vp'| == 16
    requires mn' == mn[i := mn'[i]] && mx' == mx[i := mx'[i]] && vp' == vp[i := vp'[i]]
    requires DecoderRow(bits, i, mn'[i], mx'[i], vp'[i], vp0[i])
    ensures RowsUpTo(bits, mn', mx', vp', vp0, i + 1) && RowsFrom(mn', mx', vp', vp0, i + 1)
  {
    forall l | 0 <= l < i + 1
      ensures DecoderRow(bits, l, mn'[l], mx'[l], vp'[l], vp0[l])
    {
      if l < i {
        assert mn'[l] == mn[l] && mx'[l] == mx[l] && vp'[l] == vp[l];
      }
    }
  }

  /** Every code of length l + 1 lies in [MINCODE, MAXCODE], and VALPTR
      takes it to its own position in HUFFVAL. */
  lemma {:induction false} DecoderFindsSymbol(bits: seq<nat>, l: nat, minc: int, maxc: int, vp: int, vp0: int, k: nat)
    requires l < |bits| && DecoderRow(bits, l, minc, maxc, vp, vp0)
    requires Start(bits, l) <= k < Start(bits, l + 1)
    ensures k < Sum(bits)
    ensures minc <= Codes(bits)[k] <= maxc && vp + Codes(bits)[k] == k
  {
    SizeListRun(bits, l);
    CodesConsecutive(bits, l, k);
    CodesConsecutive(bits, l, Start(bits, l + 1) - 1);
  }

  /** Conversely, a code value in [MINCODE, MAXCODE] is the code of the
      symbol VALPTR takes it to, and that symbol has length l + 1; for a
      length without codes MAXCODE is -1, below every code. */
  lemma {:induction false} DecoderAcceptsOnlyCodes(bits: seq<nat>, l: nat, minc: int, maxc: int, vp: int, vp0: int, c: int)
    requires l < |bits| && DecoderRow(bits, l, minc, maxc, vp, vp0)
    requires 0 <= c && minc <= c <= maxc
    ensures bits[l] != 0
    ensures var k := vp + c;
      Start(bits, l) <= k < Start(bits, l + 1) <= Sum(bits) && Codes(bits)[k] == c
  {
    SizeListRun(bits, l);
    var first, last := Start(bits, l), Start(bits, l + 1) - 1;
    CodesConsecutive(bits, l, last);
    var k := vp + c;
    assert first <= k <= last;
    CodesConsecutive(bits, l, k);
  }

  // ------------------------------------------- codes held in 16 bits

  /** The value a C# `short` keeps of an int: its low 16 bits, signed. */
  function ToShort(v: int): (r: int)
    ensures -32768 <= r < 32768 && (r - v) % 65536 == 0
  {
    (v + 32768) % 65536 - 32768
  }

  /** With a table whose Kraft sum is at most 1, a code shorter than 16
      bits is below 0x8000, so a `short` holds it unchanged: only codes of
      length 16 can wrap. */
  lemma {:induction false} ShortKeepsShorterCodes(bits: seq<nat>, p: nat)
    requires CountList(bits) && KraftSum(bits) <= 0x10000
    requires p < Sum(bits) && SizeList(bits)[p] < 16
    ensures ToShort(Codes(bits)[p]) == Codes(bits)[p]
  {
    CodesBounded(bits, p);
    Pow2Monotone(SizeList(bits)[p], 15);
    assert Pow2(15) == 0x8000 by {
      Pow2Values();
      assert Pow2(16) == 2 * Pow2(15);
    }
  }

  /** The inner loop of Figure F.15 as the source writes it: the codes of
      one length are read back from the `short` array huffmanCode and
      compared with the running MINCODE and MAXCODE entries, where a
      MINCODE of -1 counts as unset. The results are values already seen:
      MAXCODE is the greatest of maxc and the read-back codes; MINCODE is
      the least of them and of minc when no code reads back as -1, which
      would reset the entry to unset. */
  function MinMaxAsWritten(codes: seq<int>, minc: int, maxc: int): (r: (int, int))
    ensures maxc <= r.1 && forall i :: 0 <= i < |codes| ==> ToShort(codes[i]) <= r.1
    ensures r.1 == maxc || exists i :: 0 <= i < |codes| && r.1 == ToShort(codes[i])
    ensures r.0 == minc || exists i :: 0 <= i < |codes| && r.0 == ToShort(codes[i])
    ensures (forall i :: 0 <= i < |codes| ==> ToShort(codes[i]) != -1) ==>
      (minc != -1 ==> r.0 <= minc) && (codes != [] ==> r.0 != -1) &&
      forall i :: 0 <= i < |codes| ==> r.0 <= ToShort(codes[i])
    decreases |codes|
  {
    if codes == [] then (minc, maxc)
    else
      var c := ToShort(codes[0]);
      MinMaxAsWritten(codes[1..], if c < minc || minc == -1 then c else minc, if c > maxc then c else maxc)
  }

  /** A count list with one code of length 1 and one of length 16. */
  const ShortExample: seq<nat> := [1, 0, 0, 0, 0, 0, 0, 0, 0, 0, 0, 0, 0, 0, 0, 1]

  /** The shape of ShortExample, stated without the literal. */
  ghost predicate OneAndSixteen(bits: seq<nat>)
  {
    |bits| == 16 && bits[0] == 1 && bits[15] == 1 && forall l :: 0 < l < 15 ==> bits[l] == 0
  }

  lemma {:induction false} ExamplePrefix(bits: seq<nat>, l: nat)
    requires OneAndSixteen(bits) && 1 <= l <= 15
    ensures Sum(bits[..l]) == 1
  {
    assert bits[..l][..l - 1] == bits[..l - 1];
    if l > 1 {
      ExamplePrefix(bits, l - 1);
    } else {
      assert bits[..0] == [];
    }
  }

  lemma {:induction false} ExampleCodes(bits: seq<nat>)
    requires OneAndSixteen(bits)
    ensures Sum(bits) == 2 && Start(bits, 15) == 1 && Start(bits, 16) == 2
    ensures Codes(bits) == [0, 0x8000]
  {
    assert Sum(bits) == 2 && Start(bits, 15) == 1 && Start(bits, 16) == 2 by {
      ExamplePrefix(bits, 15);
      assert bits[..|bits| - 1] == bits[..15];
      assert bits[..16] == bits;
    }
    var s := SizeList(bits);
    assert s[0] == 1 by {
      ExamplePrefix(bits, 1);
      assert bits[..0] == [];
      SizeListAt(bits, 0, 0);
    }
    assert s[1] == 16 by {
      SizeListAt(bits, 15, 1);
    }
    TwoCodes(bits);
  }

  /** Sizes 1 and 16 give the codes 0 and 0x8000. */
  lemma {:induction false} TwoCodes(bits: seq<nat>)
    requires Sum(bits) == 2 && SizeList(bits)[0] == 1 && SizeList(bits)[1] == 16
    ensures Codes(bits) == [0, 0x8000]
  {
    var c, s := Codes(bits), SizeList(bits);
    CodesFirst(bits);
    CodesStep(bits, 0);
    var e := Pow2(s[1] - s[0]);
    assert c[1] == (c[0] + 1) * e;
    assert c[1] == e;
    assert Pow2(15) == 0x8000 by {
      Pow2Values();
      assert Pow2(16) == 2 * Pow2(15);
    }
  }

  /** The second code of ShortExample is 0x8000, which a `short` holds as
      -32768. As written, MINCODE for length 16 becomes -32768 and MAXCODE
      stays -1, so no 16-bit code is ever found; on unbounded codes both
      entries are 0x8000 and the code is found. */
  lemma {:induction false} ShortCodesLoseLength16()
    ensures Codes(ShortExample) == [0, 0x8000]
    ensures MinMaxAsWritten(Codes(ShortExample)[1..], -1, -1) == (-0x8000, -1)
    ensures DecoderRow(ShortExample, 15, 0x8000, 0x8000, 1 - 0x8000, 0)
  {
    ExampleCodes(ShortExample);
    var codes := Codes(ShortExample);
    assert codes[1..] == [0x8000];
    assert ToShort(0x8000) == -0x8000;
    assert MinMaxAsWritten([0x8000], -1, -1) == MinMaxAsWritten([], -0x8000, -1);
  }
}
