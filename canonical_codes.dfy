// Canonical Huffman codes of Annex C of ITU-T T.81 (ISO/IEC 10918-1):
// the size list of Figure C.1 and the code list of Figure C.2, as values.
module CanonicalCodes {
  import opened Power

  /** Sum of a list of counts. */
  function Sum(s: seq<nat>): nat
  {
    if s == [] then 0 else Sum(s[..|s| - 1]) + s[|s| - 1]
  }

  /** Position in the size list where the codes of length l + 1 begin. */
  function Start(bits: seq<nat>, l: nat): nat
    requires l <= |bits|
  {
    Sum(bits[..l])
  }

  function Repeat(x: int, n: nat): (r: seq<int>)
    ensures |r| == n && forall i :: 0 <= i < n ==> r[i] == x
  {
    seq(n, _ => x)
  }

  ghost predicate Sorted(s: seq<int>)
  {
    forall i, j :: 0 <= i <= j < |s| ==> s[i] <= s[j]
  }

  /** A JPEG code-count list: bits[l] codes of length l + 1, for l in 0..15. */
  ghost predicate CountList(bits: seq<nat>)
  {
    |bits| == 16
  }

  /** Figure C.1: length l + 1 written bits[l] times, for l = 0, 1, ... */
  function SizeList(bits: seq<nat>): (r: seq<int>)
    ensures |r| == Sum(bits)
    ensures forall p :: 0 <= p < |r| ==> 1 <= r[p] <= |bits|
  {
    if bits == [] then []
    else
      var init := SizeList(bits[..|bits| - 1]);
      var run := Repeat(|bits|, bits[|bits| - 1]);
      assert forall i :: 0 <= i < |init| ==> init[i] <= |bits| - 1;
      init + run
  }

  /** Figure C.2 from the state (code, si): equal sizes get consecutive
      codes, and each step to the next size doubles the running code. */
  function CanonCodes(sizes: seq<int>, code: int, si: int): (r: seq<int>)
    requires Sorted(sizes) && (sizes != [] ==> si <= sizes[0])
    ensures |r| == |sizes|
    decreases |sizes|, if sizes == [] then 0 else sizes[0] - si
  {
    if sizes == [] then []
    else if sizes[0] == si then [code] + CanonCodes(sizes[1..], code + 1, si)
    else CanonCodes(sizes, 2 * code, si + 1)
  }

  /** The codes Figure C.2 assigns to the size list of `bits`. */
  function Codes(bits: seq<nat>): (r: seq<int>)
    ensures |r| == Sum(bits)
  {
    var sizes := SizeList(bits);
    SizeListSorted(bits);
    if sizes == [] then [] else CanonCodes(sizes, 0, sizes[0])
  }

  /** Kraft sum scaled by 2^16: a code of length l + 1 weighs 2^(15 - l). */
  function KraftSum(bits: seq<nat>): nat
    requires |bits| <= 16
  {
    if bits == [] then 0
    else KraftSum(bits[..|bits| - 1]) + bits[|bits| - 1] * Pow2(16 - |bits|)
  }

  /** The same weight, summed over a size list. */
  function Weight(sizes: seq<int>): nat
    requires forall p :: 0 <= p < |sizes| ==> 0 <= sizes[p] <= 16
  {
    if sizes == [] then 0 else Pow2(16 - sizes[0]) + Weight(sizes[1..])
  }

  // ---------------------------------------------------------------- sums

  lemma {:induction false} SumAppend(a: seq<nat>, b: seq<nat>)
    ensures Sum(a + b) == Sum(a) + Sum(b)
  {
    if b != [] {
      assert (a + b)[..|a + b| - 1] == a + b[..|b| - 1];
      SumAppend(a, b[..|b| - 1]);
    } else {
      assert a + b == a;
    }
  }

  lemma {:induction false} StartStep(bits: seq<nat>, l: nat)
    requires l < |bits|
    ensures Start(bits, l + 1) == Start(bits, l) + bits[l]
  {
    assert bits[..l + 1][..l] == bits[..l];
  }

  lemma {:induction false} StartMonotone(bits: seq<nat>, l: nat, m: nat)
    requires l <= m <= |bits|
    ensures Start(bits, l) <= Start(bits, m)
  {
    if l < m {
      StartMonotone(bits, l, m - 1);
      StartStep(bits, m - 1);
    }
  }

  // ----------------------------------------------------------- size list

  /** Position p of the size list holds l + 1 exactly when p lies in the
      run of length-(l + 1) codes, so l + 1 occurs bits[l] times. */
  lemma {:induction false} SizeListAt(bits: seq<nat>, l: nat, p: nat)
    requires l < |bits| && p < Sum(bits)
    ensures SizeList(bits)[p] == l + 1 <==> Start(bits, l) <= p < Start(bits, l + 1)
  {
    var n := |bits|;
    var init := bits[..n - 1];
    assert bits[..n] == bits;
    assert init[..n - 1] == init;
    assert Start(bits, n - 1) == Sum(init);
    if l < n - 1 {
      assert bits[..l] == init[..l] && bits[..l + 1] == init[..l + 1];
      StartMonotone(init, l + 1, n - 1);
    }
    if p < Sum(init) {
      if l < n - 1 {
        SizeListAt(init, l, p);
      }
    }
  }

  /** The size list is in increasing order of length. */
  lemma {:induction false} SizeListSorted(bits: seq<nat>)
    ensures Sorted(SizeList(bits))
  {
    if bits != [] {
      var init := bits[..|bits| - 1];
      SizeListSorted(init);
      var a, b := SizeList(init), Repeat(|bits|, bits[|bits| - 1]);
      var r := SizeList(bits);
      assert r == a + b;
      forall i, j | 0 <= i <= j < |r| ensures r[i] <= r[j] {
        if i < |a| && j >= |a| {
          assert r[i] == a[i] && r[j] == b[j - |a|];
        }
      }
    }
  }

  /** Figure C.1 one length further: the run of length l + 1 is appended. */
  lemma {:induction false} SizeListStep(bits: seq<nat>, l: nat)
    requires l < |bits|
    ensures SizeList(bits[..l + 1]) == SizeList(bits[..l]) + Repeat(l + 1, bits[l])
  {
    assert bits[..l + 1][..l] == bits[..l];
  }

  /** The number of positions holding l + 1 is bits[l]. */
  lemma {:induction false} SizeListRun(bits: seq<nat>, l: nat)
    requires l < |bits|
    ensures Start(bits, l + 1) - Start(bits, l) == bits[l]
    ensures Start(bits, l + 1) <= Sum(bits)
  {
    StartStep(bits, l);
    StartMonotone(bits, l + 1, |bits|);
    assert bits[..|bits|] == bits;
  }

  lemma {:induction false} WeightAppend(a: seq<int>, b: seq<int>)
    requires forall p :: 0 <= p < |a| ==> 0 <= a[p] <= 16
    requires forall p :: 0 <= p < |b| ==> 0 <= b[p] <= 16
    ensures Weight(a + b) == Weight(a) + Weight(b)
  {
    if a != [] {
      assert (a + b)[1..] == a[1..] + b;
      WeightAppend(a[1..], b);
    } else {
      assert a + b == b;
    }
  }

  lemma {:induction false} WeightRepeat(x: int, n: nat)
    requires 0 <= x <= 16
    ensures Weight(Repeat(x, n)) == n * Pow2(16 - x)
  {
    if n > 0 {
      var w := Pow2(16 - x);
      assert Repeat(x, n)[1..] == Repeat(x, n - 1);
      assert Weight(Repeat(x, n)) == w + Weight(Repeat(x, n - 1));
      WeightRepeat(x, n - 1);
      AddOne(n - 1, w);
    }
  }

  /** The Kraft sum of the counts is the weight of the size list. */
  lemma {:induction false} WeightOfSizeList(bits: seq<nat>)
    requires |bits| <= 16
    ensures Weight(SizeList(bits)) == KraftSum(bits)
  {
    if bits != [] {
      var init := bits[..|bits| - 1];
      WeightOfSizeList(init);
      WeightAppend(SizeList(init), Repeat(|bits|, bits[|bits| - 1]));
      WeightRepeat(|bits|, bits[|bits| - 1]);
    }
  }

  // ------------------------------------------------------ canonical codes

  lemma {:induction false} CanonHead(sizes: seq<int>, code: int, si: int)
    requires Sorted(sizes) && sizes != [] && si <= sizes[0]
    ensures CanonCodes(sizes, code, si)[0] == code * Pow2(sizes[0] - si)
    decreases sizes[0] - si
  {
    if sizes[0] != si {
      CanonHead(sizes, 2 * code, si + 1);
      assert Pow2(sizes[0] - si) == 2 * Pow2(sizes[0] - (si + 1));
    }
  }

  /** Neighbouring codes: code[p + 1] == (code[p] + 1) << (size[p + 1] - size[p]). */
  lemma {:induction false} CanonStep(sizes: seq<int>, code: int, si: int, p: nat)
    requires Sorted(sizes) && (sizes != [] ==> si <= sizes[0])
    requires p + 1 < |sizes|
    ensures var r := CanonCodes(sizes, code, si);
      r[p + 1] == (r[p] + 1) * Pow2(sizes[p + 1] - sizes[p])
    decreases |sizes|, sizes[0] - si
  {
    if sizes[0] == si {
      var rest := sizes[1..];
      if p == 0 {
        CanonHead(rest, code + 1, si);
      } else {
        CanonStep(rest, code + 1, si, p - 1);
      }
    } else {
      CanonStep(sizes, 2 * code, si + 1, p);
    }
  }

  /** Every code is below 2^size (and non-negative) while the invariant
      (code << (16 - si)) + Weight(remaining sizes) <= 2^16 holds. */
  lemma {:induction false} CanonBound(sizes: seq<int>, code: int, si: int, p: nat)
    requires Sorted(sizes) && (sizes != [] ==> si <= sizes[0])
    requires forall q :: 0 <= q < |sizes| ==> 1 <= sizes[q] <= 16
    requires 0 <= si <= 16 && code >= 0
    requires Shl(code, 16 - si) + Weight(sizes) <= 0x10000
    requires p < |sizes|
    ensures 0 <= CanonCodes(sizes, code, si)[p] < Pow2(sizes[p])
    decreases |sizes|, sizes[0] - si, 1
  {
    if sizes[0] == si {
      CanonBoundTake(sizes, code, si, p);
    } else {
      var c2, s1 := 2 * code, si + 1;
      DoubleArith(code, si, s1);
      assert CanonCodes(sizes, code, si) == CanonCodes(sizes, c2, s1);
      CanonBound(sizes, c2, s1, p);
    }
  }

  /** CanonBound when the first size is the current one: its code is
      `code`, and the rest start from code + 1. */
  lemma {:induction false} CanonBoundTake(sizes: seq<int>, code: int, si: int, p: nat)
    requires Sorted(sizes) && sizes != [] && si == sizes[0]
    requires forall q :: 0 <= q < |sizes| ==> 1 <= sizes[q] <= 16
    requires 0 <= si <= 16 && code >= 0
    requires Shl(code, 16 - si) + Weight(sizes) <= 0x10000
    requires p < |sizes|
    ensures 0 <= CanonCodes(sizes, code, si)[p] < Pow2(sizes[p])
    decreases |sizes|, sizes[0] - si, 0
  {
    var r := CanonCodes(sizes, code, si);
    var tail, c1 := sizes[1..], code + 1;
    var rest := Weight(tail);
    assert Weight(sizes) == Pow2(16 - si) + rest by {
      WeightHead(sizes);
      Pow2Congruence(16 - sizes[0], 16 - si);
    }
    HeadArith(code, rest, si);
    assert r == [code] + CanonCodes(tail, c1, si);
    if p > 0 {
      var q := p - 1;
      assert Sorted(tail);
      CanonBound(tail, c1, si, q);
      var t := CanonCodes(tail, c1, si);
      assert r[p] == t[q];
      assert tail[q] == sizes[p];
      Pow2Congruence(tail[q], sizes[p]);
    } else {
      Pow2Congruence(si, sizes[0]);
    }
  }

  lemma {:induction false} WeightHead(sizes: seq<int>)
    requires sizes != [] && forall q :: 0 <= q < |sizes| ==> 0 <= sizes[q] <= 16
    ensures Weight(sizes) == Pow2(16 - sizes[0]) + Weight(sizes[1..])
  {
  }

  /** The arithmetic of taking the next code at the current size. */
  lemma {:induction false} HeadArith(code: int, rest: nat, si: nat)
    requires si <= 16 && Shl(code, 16 - si) + (Pow2(16 - si) + rest) <= 0x10000
    ensures Shl(code + 1, 16 - si) + rest <= 0x10000 && code + 1 <= Pow2(si)
  {
    var n := 16 - si;
    ShlAdd(code, 1, n);
    ShlOne(n);
    CodeFits(code + 1, si, n, rest);
  }

  /** A code whose shift to 16 bits stays within 2^16 fits si bits. */
  lemma {:induction false} CodeFits(c: int, si: nat, n: nat, rest: nat)
    requires si + n == 16 && Shl(c, n) + rest <= 0x10000
    ensures c <= Pow2(si)
  {
    ShlPow2(c, n);
    Pow2Add(si, n);
    Pow2Congruence(si + n, 16);
    Pow2Sixteen();
    var a, b := Pow2(si), Pow2(n);
    assert c * b <= a * b;
    MulCancel(c, a, b);
  }

  /** The arithmetic of moving to the next size: the code doubles. */
  lemma {:induction false} DoubleArith(code: int, si: nat, s1: nat)
    requires si < 16 && s1 == si + 1
    ensures Shl(code, 16 - si) == Shl(2 * code, 16 - s1)
  {
    ShlDouble(code, 16 - si);
    ShlCongruence(2 * code, 2 * code, 16 - si - 1, 16 - s1);
  }

  /** For i < j the later code is at least (code[i] + 1) << (size[j] - size[i]). */
  lemma {:induction false} CanonGap(sizes: seq<int>, code: int, si: int, i: nat, j: nat)
    requires Sorted(sizes) && (sizes != [] ==> si <= sizes[0])
    requires i < j < |sizes|
    ensures var r := CanonCodes(sizes, code, si);
      (r[i] + 1) * Pow2(sizes[j] - sizes[i]) <= r[j]
    decreases j - i
  {
    var r := CanonCodes(sizes, code, si);
    CanonStep(sizes, code, si, j - 1);
    if i < j - 1 {
      CanonGap(sizes, code, si, i, j - 1);
      ScaleGap(r[i] + 1, r[j - 1], sizes[j - 1] - sizes[i], sizes[j] - sizes[j - 1]);
    }
  }

  // ------------------------------------------- properties of Codes(bits)

  /** The first code is 0. */
  lemma {:induction false} CodesFirst(bits: seq<nat>)
    requires Sum(bits) >= 1
    ensures Codes(bits)[0] == 0
  {
    var sizes := SizeList(bits);
    SizeListSorted(bits);
    CanonHead(sizes, 0, sizes[0]);
  }

  /** Equal-size neighbours get consecutive codes; a size step of d shifts
      (code + 1) left by d. */
  lemma {:induction false} CodesStep(bits: seq<nat>, p: nat)
    requires p + 1 < Sum(bits)
    ensures var c, s := Codes(bits), SizeList(bits);
      s[p] <= s[p + 1] &&
      c[p + 1] == (c[p] + 1) * Pow2(s[p + 1] - s[p]) &&
      (s[p] == s[p + 1] ==> c[p + 1] == c[p] + 1)
  {
    var sizes := SizeList(bits);
    SizeListSorted(bits);
    CanonStep(sizes, 0, sizes[0], p);
  }

  /** With a Kraft-feasible count list every code fits its size. */
  lemma {:induction false} CodesBounded(bits: seq<nat>, p: nat)
    requires CountList(bits) && KraftSum(bits) <= 0x10000
    requires p < Sum(bits)
    ensures 0 <= Codes(bits)[p] < Pow2(SizeList(bits)[p])
  {
    var sizes := SizeList(bits);
    WeightOfSizeList(bits);
    ShlZero(16 - sizes[0]);
    SizeListSorted(bits);
    CanonBound(sizes, 0, sizes[0], p);
  }

  /** Within one code length the codes are consecutive. */
  lemma {:induction false} CodesConsecutive(bits: seq<nat>, l: nat, k: nat)
    requires l < |bits| && Start(bits, l) <= k < Start(bits, l + 1)
    ensures k < Sum(bits) && Codes(bits)[k] == Codes(bits)[Start(bits, l)] + (k - Start(bits, l))
    decreases k
  {
    SizeListRun(bits, l);
    if k > Start(bits, l) {
      var j := k - 1;
      CodesConsecutive(bits, l, j);
      ConsecutiveStep(bits, l, j, k);
    }
  }

  /** Two neighbouring positions in the run of length l + 1 hold
      consecutive codes. */
  lemma {:induction false} ConsecutiveStep(bits: seq<nat>, l: nat, j: nat, k: nat)
    requires l < |bits| && Start(bits, l) <= j && k == j + 1 && k < Start(bits, l + 1)
    ensures k < Sum(bits) && Codes(bits)[k] == Codes(bits)[j] + 1
  {
    SizeListRun(bits, l);
    SizeListAt(bits, l, j);
    SizeListAt(bits, l, k);
    CodesStep(bits, j);
  }

  /** No code is a prefix of another: dropping the extra low bits of a
      code at least as long never yields a different position's code. */
  lemma {:induction false} CodesPrefixFree(bits: seq<nat>, i: nat, j: nat)
    requires i < Sum(bits) && j < Sum(bits) && i != j
    ensures var c, s := Codes(bits), SizeList(bits);
      s[i] <= s[j] ==> c[j] / Pow2(s[j] - s[i]) != c[i]
  {
    var s := SizeList(bits);
    SizeListSorted(bits);
    if s[i] <= s[j] {
      if i < j {
        GapPrefix(s, i, j);
      } else {
        GapPrefix(s, j, i);
      }
    }
  }

  /** Shifting a later code right to an earlier code's length overshoots it. */
  lemma {:induction false} GapPrefix(s: seq<int>, i: nat, j: nat)
    requires Sorted(s) && i < j < |s|
    ensures var c := CanonCodes(s, 0, s[0]);
      c[j] / Pow2(s[j] - s[i]) >= c[i] + 1
  {
    var c := CanonCodes(s, 0, s[0]);
    CanonGap(s, 0, s[0], i, j);
    DivAtLeast(c[j], c[i] + 1, Pow2(s[j] - s[i]));
  }

  /** Figure C.2 started from a non-negative code assigns non-negative codes. */
  lemma {:induction false} CanonNonnegative(sizes: seq<int>, code: int, si: int, p: nat)
    requires Sorted(sizes) && (sizes != [] ==> si <= sizes[0])
    requires code >= 0 && p < |sizes|
    ensures CanonCodes(sizes, code, si)[p] >= 0
    decreases |sizes|, sizes[0] - si
  {
    if sizes[0] == si {
      if p > 0 {
        CanonNonnegative(sizes[1..], code + 1, si, p - 1);
      }
    } else {
      CanonNonnegative(sizes, 2 * code, si + 1, p);
    }
  }

  /** Every code of Figure C.2 is non-negative. */
  lemma {:induction false} CodesNonnegative(bits: seq<nat>, p: nat)
    requires p < Sum(bits)
    ensures Codes(bits)[p] >= 0
  {
    var sizes := SizeList(bits);
    SizeListSorted(bits);
    CanonNonnegative(sizes, 0, sizes[0], p);
  }

  // ------------------------------------------------------------ Figure C.3

  /** Figure C.3 stores the code of position p under the symbol values[p];
      a symbol listed twice keeps the entry of its last position before n.
      The result is that position, or -1 if s is not among values[..n]. */
  function LastIndex(values: seq<int>, s: int, n: nat): (r: int)
    requires n <= |values|
    ensures -1 <= r < n
    ensures r >= 0 ==> values[r] == s
    ensures forall p :: r < p < n ==> values[p] != s
  {
    if n == 0 then -1
    else if values[n - 1] == s then n - 1
    else LastIndex(values, s, n - 1)
  }
}
