// The encoder-side construction of a Huffman table in InitHuffmanCodes:
// Figure C.1 (size list, ended by a 0), Figure C.2 (codes), Figure C.3
// (the (code, size) matrix indexed by symbol), on arrays as the source does.
module TableBuilding {
  import opened Power
  import opened CanonicalCodes

  /** A Huffman table as a JPEG stream carries it: the number of codes of
      each length 1..16 and the symbol values in code order. */
  datatype JpegHuffmanTable = JpegHuffmanTable(codes: seq<nat>, values: seq<int>)

  /** Figure C.1: length l + 1 is written bits[l] times from sizes[0] on;
      the number of entries written is returned. Entries past them are
      left alone. */
  method FillSizes(bits: seq<nat>, sizes: array<int>) returns (count: int)
    requires Sum(bits) <= sizes.Length
    modifies sizes
    ensures count == Sum(bits)
    ensures sizes[..count] == SizeList(bits)
    ensures forall q :: count <= q < sizes.Length ==> sizes[q] == old(sizes[q])
  {
    count := 0;
    var l := 0;
    while l < |bits|
      invariant 0 <= l <= |bits|
      invariant count == Start(bits, l) <= Sum(bits)
      invariant sizes[..count] == SizeList(bits[..l])
      invariant forall q :: count <= q < sizes.Length ==> sizes[q] == old(sizes[q])
    {
      SizeListRun(bits, l);
      SizeListStep(bits, l);
      var j := 0;
      while j < bits[l]
        invariant 0 <= j <= bits[l]
        invariant count == Start(bits, l) + j
        invariant sizes[..count] == SizeList(bits[..l]) + Repeat(l + 1, j)
        invariant forall q :: count <= q < sizes.Length ==> sizes[q] == old(sizes[q])
      {
        sizes[count] := l + 1;
        assert Repeat(l + 1, j + 1) == Repeat(l + 1, j) + [l + 1];
        count := count + 1;
        j := j + 1;
      }
      l := l + 1;
    }
    assert bits[..|bits|] == bits;
  }

  /** Figure C.2 over the size list held in huffsize[..lastp] and ended by
      the 0 in huffsize[lastp]: equal sizes get consecutive codes, and the
      code doubles at each step to the next size. */
  method AssignCodes(bits: seq<nat>, huffsize: array<int>, huffcode: array<int>, lastp: int)
    requires huffsize != huffcode && |bits| <= 16
    requires lastp == Sum(bits) && lastp < huffsize.Length && lastp <= huffcode.Length
    requires huffsize[..lastp] == SizeList(bits) && huffsize[lastp] == 0
    modifies huffcode
    ensures huffcode[..lastp] == Codes(bits)
    ensures forall q :: lastp <= q < huffcode.Length ==> huffcode[q] == old(huffcode[q])
  {
    ghost var sizes, target := SizeList(bits), Codes(bits);
    var code := 0;
    var si := huffsize[0];
    var p := 0;
    if lastp > 0 {
      CodesFirst(bits);
    }
    while huffsize[p] != 0
      invariant 0 <= p <= lastp
      invariant forall q :: 0 <= q < p ==> huffcode[q] == target[q]
      invariant forall q :: p <= q < huffcode.Length ==> huffcode[q] == old(huffcode[q])
      invariant lastp > 0 ==> 1 <= si
      invariant p < lastp ==> si <= sizes[p] && Shl(code, sizes[p] - si) == target[p]
      decreases 17 - si
    {
      p, code := AssignRun(bits, huffsize, huffcode, lastp, p, code, si);
      if p < lastp {
        ShlDouble(code, sizes[p] - si);
      }
      code := code * 2;
      si := si + 1;
    }
    assert p == lastp;
    assert huffcode[..lastp] == target;
  }

  /** The inner loop of Figure C.2: the positions from p0 on that hold
      size si get the consecutive codes code0, code0 + 1, ...; it stops at
      the first other size. */
  method AssignRun(bits: seq<nat>, huffsize: array<int>, huffcode: array<int>, lastp: int, p0: int, code0: int, si: int)
    returns (p: int, code: int)
    requires huffsize != huffcode
    requires lastp == Sum(bits) && lastp < huffsize.Length && lastp <= huffcode.Length
    requires huffsize[..lastp] == SizeList(bits) && huffsize[lastp] == 0
    requires 0 <= p0 <= lastp && 1 <= si
    requires forall q :: 0 <= q < p0 ==> huffcode[q] == Codes(bits)[q]
    requires p0 < lastp ==> si <= SizeList(bits)[p0] && Shl(code0, SizeList(bits)[p0] - si) == Codes(bits)[p0]
    modifies huffcode
    ensures p0 <= p <= lastp && huffsize[p] != si
    ensures forall q :: 0 <= q < p ==> huffcode[q] == Codes(bits)[q]
    ensures forall q :: p <= q < huffcode.Length ==> huffcode[q] == old(huffcode[q])
    ensures p < lastp ==> si < SizeList(bits)[p] && Shl(code, SizeList(bits)[p] - si) == Codes(bits)[p]
  {
    ghost var sizes, target := SizeList(bits), Codes(bits);
    p, code := p0, code0;
    while huffsize[p] == si
      invariant p0 <= p <= lastp
      invariant forall q :: 0 <= q < p ==> huffcode[q] == target[q]
      invariant forall q :: p <= q < huffcode.Length ==> huffcode[q] == old(huffcode[q])
      invariant p < lastp ==> si <= sizes[p] && Shl(code, sizes[p] - si) == target[p]
      decreases lastp - p
    {
      assert p < lastp && sizes[p] == si;
      huffcode[p] := code;
      if p + 1 < lastp {
        NextCode(bits, p, code);
      }
      p := p + 1;
      code := code + 1;
    }
    if p < lastp {
      assert huffsize[p] == sizes[p];
    }
  }

  /** The inner step of Figure C.2: after code[p] the running code plus one,
      shifted to the next size, is code[p + 1]. */
  lemma {:induction false} NextCode(bits: seq<nat>, p: nat, code: int)
    requires p + 1 < Sum(bits) && code == Codes(bits)[p]
    ensures var s := SizeList(bits);
      s[p] <= s[p + 1] && Shl(code + 1, s[p + 1] - s[p]) == Codes(bits)[p + 1]
  {
    var s := SizeList(bits);
    CodesStep(bits, p);
    ShlPow2(code + 1, s[p + 1] - s[p]);
  }

  /** Figure C.3: row values[p] of the matrix gets (huffcode[p],
      huffsize[p]) for p = 0 .. lastp - 1, so each symbol ends up with the
      entry of its last position; other rows are left alone. */
  method StoreCodes(huffsize: array<int>, huffcode: array<int>, lastp: int, values: seq<int>, m: array2<int>)
    requires 0 <= lastp <= huffsize.Length && lastp <= huffcode.Length && lastp <= |values|
    requires m.Length1 == 2 && forall p :: 0 <= p < lastp ==> 0 <= values[p] < m.Length0
    modifies m
    ensures forall s :: 0 <= s < m.Length0 ==>
      var p := LastIndex(values, s, lastp);
      (p >= 0 ==> m[s, 0] == huffcode[p] && m[s, 1] == huffsize[p]) &&
      (p < 0 ==> m[s, 0] == old(m[s, 0]) && m[s, 1] == old(m[s, 1]))
  {
    var q := 0;
    while q < lastp
      invariant 0 <= q <= lastp
      invariant forall s :: 0 <= s < m.Length0 ==>
        var p := LastIndex(values, s, q);
        (p >= 0 ==> m[s, 0] == huffcode[p] && m[s, 1] == huffsize[p]) &&
        (p < 0 ==> m[s, 0] == old(m[s, 0]) && m[s, 1] == old(m[s, 1]))
    {
      m[values[q], 0] := huffcode[q];
      m[values[q], 1] := huffsize[q];
      q := q + 1;
    }
  }

  /** One table of InitHuffmanCodes: Figure C.1 into huffsize with the 0
      sentinel after the last size, Figure C.2 into huffcode, Figure C.3
      into the matrix m. */
  method BuildEncoderTable(table: JpegHuffmanTable, huffsize: array<int>, huffcode: array<int>, m: array2<int>)
    requires CountList(table.codes) && Sum(table.codes) < huffsize.Length
    requires huffsize != huffcode && Sum(table.codes) <= huffcode.Length
    requires Sum(table.codes) <= |table.values| && m.Length1 == 2
    requires forall p :: 0 <= p < Sum(table.codes) ==> 0 <= table.values[p] < m.Length0
    modifies huffsize, huffcode, m
    ensures forall s :: 0 <= s < m.Length0 ==>
      var p := LastIndex(table.values, s, Sum(table.codes));
      (p >= 0 ==> m[s, 0] == Codes(table.codes)[p] && m[s, 1] == SizeList(table.codes)[p]) &&
      (p < 0 ==> m[s, 0] == old(m[s, 0]) && m[s, 1] == old(m[s, 1]))
  {
    var lastp := FillSizes(table.codes, huffsize);
    huffsize[lastp] := 0;
    assert huffsize[..lastp] == SizeList(table.codes);
    AssignCodes(table.codes, huffsize, huffcode, lastp);
    StoreCodes(huffsize, huffcode, lastp, table.values, m);
  }

  /** What InitHuffmanCodes needs of a table it builds into a matrix of
      `rows` rows: at most 256 codes (huffsize has 257 entries, one of them
      for the closing 0), a value for each code, and every value a row of
      the matrix. */
  ghost predicate Encodable(table: JpegHuffmanTable, rows: int)
  {
    CountList(table.codes) && Sum(table.codes) <= 256 && Sum(table.codes) <= |table.values| &&
    forall p :: 0 <= p < Sum(table.codes) ==> 0 <= table.values[p] < rows
  }

  /** The shape HuffmanBlockEncoder relies on: `rows` rows of (code, size)
      with every size 0..16. */
  ghost predicate SizedRows(m: array2<int>, rows: int)
    reads m
  {
    m.Length0 == rows && m.Length1 == 2 && forall s :: 0 <= s < rows ==> 0 <= m[s, 1] <= 16
  }

  /** One table of InitHuffmanCodes into a new zeroed matrix of `rows`
      rows, with huffsize and huffcode as scratch space. */
  method NewEncoderTable(table: JpegHuffmanTable, rows: int, huffsize: array<int>, huffcode: array<int>)
    returns (m: array2<int>)
    requires Encodable(table, rows) && 0 <= rows
    requires huffsize != huffcode && huffsize.Length == 257 && huffcode.Length == 257
    modifies huffsize, huffcode
    ensures fresh(m) && EncodesTable(m, table) && SizedRows(m, rows)
  {
    m := new int[rows, 2]((_, _) => 0);
    BuildEncoderTable(table, huffsize, huffcode, m);
    assert EncodesTable(m, table);
    forall s | 0 <= s < rows
      ensures 0 <= m[s, 1] <= 16
    {
      EncodedSizes(m, table, s);
    }
  }

  /** The matrix m is what Figure C.3 builds from `table` in a zeroed
      matrix: the (code, size) of each listed symbol's last position, and
      (0, 0) for a symbol the table does not list. */
  ghost predicate EncodesTable(m: array2<int>, table: JpegHuffmanTable)
    reads m
  {
    CountList(table.codes) && Sum(table.codes) <= |table.values| && m.Length1 == 2 &&
    forall s :: 0 <= s < m.Length0 ==>
      var p := LastIndex(table.values, s, Sum(table.codes));
      (p >= 0 ==> m[s, 0] == Codes(table.codes)[p] && m[s, 1] == SizeList(table.codes)[p]) &&
      (p < 0 ==> m[s, 0] == 0 && m[s, 1] == 0)
  }

  /** Every size in such a matrix is 0 (symbol absent) or a code length
      1..16. */
  lemma {:induction false} EncodedSizes(m: array2<int>, table: JpegHuffmanTable, s: int)
    requires EncodesTable(m, table) && 0 <= s < m.Length0
    ensures 0 <= m[s, 1] <= 16
    ensures m[s, 1] == 0 <==> LastIndex(table.values, s, Sum(table.codes)) < 0
  {
  }

  /** With a table whose Kraft sum is at most 1, every code fits its size,
      so the packer's mask `code & ((1 << size) - 1)` keeps it whole. */
  lemma {:induction false} EncodedCodesFit(m: array2<int>, table: JpegHuffmanTable, s: int)
    requires EncodesTable(m, table) && KraftSum(table.codes) <= 0x10000 && 0 <= s < m.Length0
    ensures 0 <= m[s, 0] < Pow2(m[s, 1])
  {
    var p := LastIndex(table.values, s, Sum(table.codes));
    if p >= 0 {
      CodesBounded(table.codes, p);
    }
  }

  /** Two different symbols in the matrix never get codes one of which is
      a prefix of the other. */
  lemma {:induction false} EncodedPrefixFree(m: array2<int>, table: JpegHuffmanTable, s: int, t: int)
    requires EncodesTable(m, table) && 0 <= s < m.Length0 && 0 <= t < m.Length0 && s != t
    requires m[s, 1] > 0 && m[t, 1] > 0 && m[s, 1] <= m[t, 1]
    ensures m[t, 0] / Pow2(m[t, 1] - m[s, 1]) != m[s, 0]
  {
    var n := Sum(table.codes);
    var i, j := LastIndex(table.values, s, n), LastIndex(table.values, t, n);
    CodesPrefixFree(table.codes, i, j);
  }
}
