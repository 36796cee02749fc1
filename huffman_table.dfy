// The Huffman table object of the JPEG codec: on the decoding side it
// expands a table's BITS and HUFFVAL lists into the code tables of Annex C
// and the decoder tables of Figure F.15 of ITU-T T.81; on the encoding
// side it holds the four (code, size) matrices of the standard tables and
// a bit register through which a block's Huffman codes and magnitude bits
// are packed into bytes, with 0xFF followed by a stuffed 0x00.
module JpegHuffman {
  import opened Power
  import opened CanonicalCodes
  import opened BitPacking
  import opened BitRegister
  import opened PackerSteps
  import opened BlockCoding
  import opened TableBuilding
  import opened DecoderTables

  /** The output stream: the bytes written to it so far, in order. */
  class ByteSink {
    var bytes: seq<int>

    constructor ()
      ensures bytes == []
    {
      bytes := [];
    }

    method WriteByte(b: int)
      requires 0 <= b < 256
      modifies this
      ensures bytes == old(bytes) + [b]
    {
      bytes := bytes + [b];
    }
  }

  // ------------------------------------------------ emissions as bits

  /** A row of an encoder matrix: a symbol's code and code size. */
  type Row = (int, int)

  /** The rows of a (code, size) matrix as values. */
  function Rows(m: array2<int>): (r: seq<Row>)
    requires m.Length1 == 2
    reads m
    ensures |r| == m.Length0 && forall s :: 0 <= s < |r| ==> r[s] == (m[s, 0], m[s, 1])
  {
    seq(m.Length0, s requires 0 <= s < m.Length0 reads m => (m[s, 0], m[s, 1]))
  }

  /** The bits of row s: `size` low bits of `code`; nothing for a row
      outside the matrix. */
  function RowBits(rows: seq<Row>, s: int): seq<bool>
  {
    if 0 <= s < |rows| && rows[s].1 >= 0 then Bits(rows[s].0, rows[s].1) else []
  }

  /** The bits one emission puts into the register: a DC symbol through
      the DC rows, an AC symbol through the AC rows, magnitude bits as
      they are. */
  function EmissionBits(e: Emission, dc: seq<Row>, ac: seq<Row>): seq<bool>
  {
    match e
    case DcCode(t) => RowBits(dc, t)
    case AcCode(s) => RowBits(ac, s)
    case Magnitude(v, n) => Bits(v, n)
  }

  function StreamBits(es: seq<Emission>, dc: seq<Row>, ac: seq<Row>): seq<bool>
  {
    if es == [] then [] else EmissionBits(es[0], dc, ac) + StreamBits(es[1..], dc, ac)
  }

  /** Sending the first emission of what is left to send. */
  lemma {:induction false} SendFirst(o0: seq<int>, o1: seq<int>, o2: seq<int>, stream: seq<bool>, p1: seq<bool>,
                  b: seq<bool>, p2: seq<bool>, todo: seq<Emission>, dc: seq<Row>, ac: seq<Row>,
                  goal: seq<bool>)
    requires Emitted(o0, o1, stream, p1) && Emitted(o1, o2, p1 + b, p2)
    requires todo != [] && EmissionBits(todo[0], dc, ac) == b
    requires stream + StreamBits(todo, dc, ac) == goal
    ensures Emitted(o0, o2, stream + b, p2)
    ensures (stream + b) + StreamBits(todo[1..], dc, ac) == goal
  {
    EmittedChain(o0, o1, o2, stream, p1, b, p2);
    StreamBitsFirst(todo, dc, ac);
    Regroup(stream, b, StreamBits(todo[1..], dc, ac));
  }

  lemma {:induction false} StreamBitsFirst(todo: seq<Emission>, dc: seq<Row>, ac: seq<Row>)
    requires todo != []
    ensures StreamBits(todo, dc, ac) == EmissionBits(todo[0], dc, ac) + StreamBits(todo[1..], dc, ac)
  {
  }

  /** The 63 AC coefficients of a block in zig-zag order. */
  function AcCoefficients(zigzag: seq<int>, zigzagMap: seq<int>): (acs: seq<int>)
    requires |zigzagMap| == 64 && forall k :: 0 <= k < 64 ==> 0 <= zigzagMap[k] < |zigzag|
    ensures |acs| == AcCount && forall k :: 1 <= k < 64 ==> acs[k - 1] == zigzag[zigzagMap[k]]
  {
    seq(AcCount, j requires 0 <= j < AcCount => zigzag[zigzagMap[j + 1]])
  }

  /** The loop of Figure C.2 as GenerateCodeTable runs it: 256 passes,
      one per candidate size; the first 0 after the sizes (left in hs by
      the array's initializer) ends the codes. */
  method CodeTableLoop(bits: seq<nat>, hs: array<int>, hc: array<int>, n: int)
    requires hs != hc && hs.Length == 256 && n <= hc.Length
    requires CountList(bits) && 1 <= n < 256 && n == Sum(bits)
    requires hs[..n] == SizeList(bits) && hs[n] == 0
    modifies hc
    ensures hc[..n] == Codes(bits)
    ensures forall q :: n <= q < hc.Length ==> hc[q] == old(hc[q])
  {
    ghost var sizes, target := SizeList(bits), Codes(bits);
    var k := 0;
    var si := hs[0];
    var code := 0;
    CodesFirst(bits);
    var i := 0;
    while i < hs.Length
      invariant 0 <= i <= 256 && 0 <= k <= n
      invariant si == sizes[0] + i
      invariant forall q :: 0 <= q < k ==> hc[q] == target[q]
      invariant forall q :: k <= q < hc.Length ==> hc[q] == old(hc[q])
      invariant k < n ==> si <= sizes[k] && Shl(code, sizes[k] - si) == target[k]
    {
      k, code := AssignRun(bits, hs, hc, n, k, code, si);
      if k < n {
        ShlDouble(code, sizes[k] - si);
      }
      code := code * 2;
      si := si + 1;
      i := i + 1;
    }
    assert k == n;
    assert hc[..n] == target;
  }

  /** The loop of Figure F.15 as GenerateDecoderTables runs it, over the
      codes hc holds for the count list `bits`. */
  method DecoderLoop(bits: seq<nat>, hc: array<int>, vp: array<int>, mn: array<int>, mx: array<int>, n: int)
    requires vp.Length == 16 && mn.Length == 16 && mx.Length == 16
    requires vp != mn && vp != mx && mn != mx && hc != vp && hc != mn && hc != mx
    requires CountList(bits) && n == Sum(bits) <= hc.Length && hc[..n] == Codes(bits)
    requires forall l :: 0 <= l < 16 ==> mn[l] == -1 && mx[l] == -1
    modifies vp, mn, mx
    ensures DecoderTablesOf(bits, mn[..], mx[..], vp[..], old(vp[..]))
  {
    ghost var vp0 := vp[..];
    assert RowsFrom(mn[..], mx[..], vp[..], vp0, 0);
    var bitcount := 0;
    for i := 0 to 16
      invariant bitcount == Start(bits, i)
      invariant RowsUpTo(bits, mn[..], mx[..], vp[..], vp0, i)
      invariant RowsFrom(mn[..], mx[..], vp[..], vp0, i)
    {
      ghost var mn1, mx1, vp1 := mn[..], mx[..], vp[..];
      DecoderLength(bits, hc, vp, mn, mx, n, i, bitcount);
      RowsStep(bits, mn1, mx1, vp1, vp0, i, mn[..], mx[..], vp[..]);
      StartStep(bits, i);
      bitcount := bitcount + bits[i];
    }
  }

  /** One pass of the outer loop of Figure F.15: the entries for codes of
      length i + 1, whose symbols start at position bitcount. */
  method DecoderLength(bits: seq<nat>, hc: array<int>, vp: array<int>, mn: array<int>, mx: array<int>,
                       n: int, i: nat, bitcount: int)
    requires vp.Length == 16 && mn.Length == 16 && mx.Length == 16
    requires vp != mn && vp != mx && mn != mx && hc != vp && hc != mn && hc != mx
    requires CountList(bits) && n == Sum(bits) <= hc.Length && hc[..n] == Codes(bits)
    requires i < 16 && bitcount == Start(bits, i) && mn[i] == -1 && mx[i] == -1
    modifies vp, mn, mx
    ensures DecoderRow(bits, i, mn[i], mx[i], vp[i], old(vp[i]))
    ensures mn[..] == old(mn[..])[i := mn[i]] && mx[..] == old(mx[..])[i := mx[i]]
    ensures vp[..] == old(vp[..])[i := vp[i]]
  {
    ghost var codes := Codes(bits);
    SizeListRun(bits, i);
    if bits[i] != 0 {
      vp[i] := bitcount;
    }
    for j := 0 to bits[i]
      invariant mn[i] == (if j == 0 then -1 else codes[bitcount])
      invariant mx[i] == (if j == 0 then -1 else codes[bitcount] + j - 1)
      invariant vp[i] == (if bits[i] != 0 then bitcount else old(vp[i]))
      invariant forall l :: 0 <= l < 16 && l != i ==> mn[l] == old(mn[l]) && mx[l] == old(mx[l]) && vp[l] == old(vp[l])
    {
      var c := hc[j + bitcount];
      CodesConsecutive(bits, i, bitcount + j);
      CodesNonnegative(bits, bitcount);
      assert c == codes[bitcount] + j by {
        assert hc[..n][bitcount + j] == c;
      }
      if c < mn[i] || mn[i] == -1 {
        mn[i] := c;
      }
      if c > mx[i] {
        mx[i] := c;
      }
    }
    if bits[i] != 0 {
      CodesConsecutive(bits, i, Start(bits, i + 1) - 1);
      CodesNonnegative(bits, bitcount);
    }
    if mn[i] != -1 {
      vp[i] := vp[i] - mn[i];
    }
  }


  // ----------------------------------------------------- the table object

  class HuffmanTable {
    // Figure C.1 and C.2 tables and the Figure F.15 decoder tables.
    var huffmanCode: array<int>
    var huffmanSize: array<int>
    var valptr: array<int>
    var mincode: array<int>
    var maxcode: array<int>
    var huffval: seq<int>
    var bits: seq<nat>
    var lastk: int

    // The bit register of the encoder and the bits it holds.
    var bufferPutBits: int
    var bufferPutBuffer: int
    ghost var pending: seq<bool>

    // The encoder's (code, size) matrices: 0 for luminance, 1 for chrominance.
    var dcMatrix0: array2?<int>
    var acMatrix0: array2?<int>
    var dcMatrix1: array2?<int>
    var acMatrix1: array2?<int>
    var numOfDcTables: int
    var numOfAcTables: int
    var bitsList: seq<seq<nat>>
    var val: seq<seq<int>>

    /** The decoder arrays have their declared lengths and are distinct
        objects. */
    ghost predicate Valid()
      reads this`huffmanCode, this`huffmanSize, this`valptr, this`mincode, this`maxcode
    {
      huffmanCode.Length == 256 && huffmanSize.Length == 256 &&
      valptr.Length == 16 && mincode.Length == 16 && maxcode.Length == 16 &&
      huffmanCode != huffmanSize && huffmanCode != valptr && huffmanCode != mincode &&
      huffmanCode != maxcode && huffmanSize != valptr && huffmanSize != mincode &&
      huffmanSize != maxcode && valptr != mincode && valptr != maxcode && mincode != maxcode
    }

    /** Builds the decoder tables of `table`: its BITS and HUFFVAL lists
        are kept, and Figures C.1, C.2 and F.15 run in turn on arrays
        that start as the field initializers leave them. */
    constructor FromTable(table: JpegHuffmanTable)
      requires CountList(table.codes) && 1 <= Sum(table.codes) < 256
      ensures Valid() && RegisterValid() && pending == []
      ensures huffval == table.values && bits == table.codes && lastk == Sum(bits)
      ensures huffmanSize[..lastk] == SizeList(bits) && huffmanCode[..lastk] == Codes(bits)
      ensures DecoderTablesOf(bits, mincode[..], maxcode[..], valptr[..], seq(16, _ => 0))
      ensures dcMatrix0 == null && acMatrix0 == null && dcMatrix1 == null && acMatrix1 == null
    {
      var code := new int[256](_ => 0);
      var size := new int[256](_ => 0);
      var ptr := new int[16](_ => 0);
      var least := new int[16](_ => -1);
      var most := new int[16](_ => -1);
      var n := FillSizes(table.codes, size);
      CodeTableLoop(table.codes, size, code, n);
      assert ptr[..] == seq(16, _ => 0);
      DecoderLoop(table.codes, code, ptr, least, most, n);
      huffmanCode, huffmanSize, valptr, mincode, maxcode := code, size, ptr, least, most;
      huffval := table.values;
      bits := table.codes;
      lastk := n;
      bufferPutBits := 0;
      bufferPutBuffer := 0;
      pending := [];
      dcMatrix0, acMatrix0, dcMatrix1, acMatrix1 := null, null, null, null;
      numOfDcTables, numOfAcTables := 0, 0;
      bitsList, val := [], [];
      new;
      EmptyWindow();
    }

    /** The encoder's four matrices exist with the shapes InitHuffmanCodes
        gives them: 12 DC rows and 255 AC rows, each a (code, size) pair
        with a size of at most 16 bits. */
    ghost predicate EncoderValid()
      reads this`dcMatrix0, this`acMatrix0, this`dcMatrix1, this`acMatrix1
      reads dcMatrix0, acMatrix0, dcMatrix1, acMatrix1
    {
      dcMatrix0 != null && acMatrix0 != null && dcMatrix1 != null && acMatrix1 != null &&
      SizedRows(dcMatrix0, 12) && SizedRows(dcMatrix1, 12) &&
      SizedRows(acMatrix0, 255) && SizedRows(acMatrix1, 255)
    }

    /** `DC_matrix[c]`: 0 selects the luminance matrix, 1 the chrominance one. */
    function DcTable(c: int): array2<int>
      requires dcMatrix0 != null && dcMatrix1 != null
      reads this`dcMatrix0, this`dcMatrix1
    {
      if c == 0 then dcMatrix0 else dcMatrix1
    }

    /** `AC_matrix[c]`, likewise. */
    function AcTable(c: int): array2<int>
      requires acMatrix0 != null && acMatrix1 != null
      reads this`acMatrix0, this`acMatrix1
    {
      if c == 0 then acMatrix0 else acMatrix1
    }

    /** The four matrices hold, symbol by symbol, the codes and code sizes
        of the four tables: DC and AC luminance, DC and AC chrominance. */
    ghost predicate Encodes(dcLum: JpegHuffmanTable, acLum: JpegHuffmanTable,
                            dcChr: JpegHuffmanTable, acChr: JpegHuffmanTable)
      reads this`dcMatrix0, this`acMatrix0, this`dcMatrix1, this`acMatrix1
      reads dcMatrix0, acMatrix0, dcMatrix1, acMatrix1
    {
      dcMatrix0 != null && acMatrix0 != null && dcMatrix1 != null && acMatrix1 != null &&
      EncodesTable(dcMatrix0, dcLum) && EncodesTable(acMatrix0, acLum) &&
      EncodesTable(dcMatrix1, dcChr) && EncodesTable(acMatrix1, acChr)
    }

    /** The encoder's tables: a new matrix for each of the four tables,
        DC and AC chrominance first, then DC and AC luminance. */
    method InitHuffmanCodes(dcLum: JpegHuffmanTable, acLum: JpegHuffmanTable,
                            dcChr: JpegHuffmanTable, acChr: JpegHuffmanTable)
      requires Encodable(dcLum, 12) && Encodable(acLum, 255)
      requires Encodable(dcChr, 12) && Encodable(acChr, 255)
      modifies this`dcMatrix0, this`acMatrix0, this`dcMatrix1, this`acMatrix1
      ensures EncoderValid()
      ensures Encodes(dcLum, acLum, dcChr, acChr)
      ensures fresh(dcMatrix0) && fresh(acMatrix0) && fresh(dcMatrix1) && fresh(acMatrix1)
    {
      dcMatrix0, acMatrix0, dcMatrix1, acMatrix1 := EncoderMatrices(dcLum, acLum, dcChr, acChr);
    }

    /** The four (code, size) matrices of InitHuffmanCodes, built with the
        procedures of Annex C: the chrominance tables first, as in the
        source, then the luminance tables, through one pair of scratch
        arrays. */
    static method EncoderMatrices(dcLum: JpegHuffmanTable, acLum: JpegHuffmanTable,
                                  dcChr: JpegHuffmanTable, acChr: JpegHuffmanTable)
      returns (dc0: array2<int>, ac0: array2<int>, dc1: array2<int>, ac1: array2<int>)
      requires Encodable(dcLum, 12) && Encodable(acLum, 255)
      requires Encodable(dcChr, 12) && Encodable(acChr, 255)
      ensures fresh(dc0) && fresh(ac0) && fresh(dc1) && fresh(ac1)
      ensures SizedRows(dc0, 12) && SizedRows(dc1, 12) && SizedRows(ac0, 255) && SizedRows(ac1, 255)
      ensures EncodesTable(dc0, dcLum) && EncodesTable(ac0, acLum)
      ensures EncodesTable(dc1, dcChr) && EncodesTable(ac1, acChr)
    {
      var huffsize := new int[257](_ => 0);
      var huffcode := new int[257](_ => 0);
      dc1 := NewEncoderTable(dcChr, 12, huffsize, huffcode);
      ac1 := NewEncoderTable(acChr, 255, huffsize, huffcode);
      dc0 := NewEncoderTable(dcLum, 12, huffsize, huffcode);
      ac0 := NewEncoderTable(acLum, 255, huffsize, huffcode);
    }

    /** The encoding object: the four standard tables' BITS and HUFFVAL
        lists are kept in the order DC luminance, AC luminance, DC
        chrominance, AC chrominance, the matrices are those
        InitHuffmanCodes builds, and the register starts empty. */
    constructor ForEncoding(dcLum: JpegHuffmanTable, acLum: JpegHuffmanTable,
                            dcChr: JpegHuffmanTable, acChr: JpegHuffmanTable)
      requires Encodable(dcLum, 12) && Encodable(acLum, 255)
      requires Encodable(dcChr, 12) && Encodable(acChr, 255)
      ensures Valid() && RegisterValid() && pending == [] && EncoderValid()
      ensures bitsList == [dcLum.codes, acLum.codes, dcChr.codes, acChr.codes]
      ensures val == [dcLum.values, acLum.values, dcChr.values, acChr.values]
      ensures Encodes(dcLum, acLum, dcChr, acChr)
    {
      huffmanCode := new int[256](_ => 0);
      huffmanSize := new int[256](_ => 0);
      valptr := new int[16](_ => 0);
      mincode := new int[16](_ => -1);
      maxcode := new int[16](_ => -1);
      huffval, bits, lastk := [], [], 0;
      bufferPutBits, bufferPutBuffer := 0, 0;
      pending := [];
      var dc0, ac0, dc1, ac1 := EncoderMatrices(dcLum, acLum, dcChr, acChr);
      dcMatrix0, acMatrix0, dcMatrix1, acMatrix1 := dc0, ac0, dc1, ac1;
      numOfDcTables, numOfAcTables := 0, 0;
      bitsList := [dcLum.codes, acLum.codes, dcChr.codes, acChr.codes];
      val := [dcLum.values, acLum.values, dcChr.values, acChr.values];
      new;
      EmptyWindow();
    }

    /** Figure C.1: the code length of every symbol, in HUFFVAL order. */
    method GenerateSizeTable()
      requires Valid() && Sum(bits) <= 256
      modifies huffmanSize, this`lastk
      ensures lastk == Sum(bits) && huffmanSize[..lastk] == SizeList(bits)
      ensures forall q :: lastk <= q < 256 ==> huffmanSize[q] == old(huffmanSize[q])
    {
      lastk := FillSizes(bits, huffmanSize);
    }

    /** Figure C.2: the canonical code of every symbol. */
    method GenerateCodeTable()
      requires Valid() && CountList(bits) && 1 <= lastk < 256 && lastk == Sum(bits)
      requires huffmanSize[..lastk] == SizeList(bits) && huffmanSize[lastk] == 0
      modifies huffmanCode
      ensures huffmanCode[..lastk] == Codes(bits)
      ensures forall q :: lastk <= q < 256 ==> huffmanCode[q] == old(huffmanCode[q])
    {
      CodeTableLoop(bits, huffmanSize, huffmanCode, lastk);
    }

    /** Figure F.15: MINCODE, MAXCODE and VALPTR for each code length. */
    method GenerateDecoderTables()
      requires Valid() && CountList(bits) && lastk == Sum(bits) <= 256
      requires huffmanCode[..lastk] == Codes(bits)
      requires forall l :: 0 <= l < 16 ==> mincode[l] == -1 && maxcode[l] == -1
      modifies valptr, mincode, maxcode
      ensures DecoderTablesOf(bits, mincode[..], maxcode[..], valptr[..], old(valptr[..]))
    {
      DecoderLoop(bits, huffmanCode, valptr, mincode, maxcode, lastk);
    }

    /** The register holds exactly the pending bits, left-justified in
        its low 24 bits. */
    ghost predicate RegisterValid()
      reads this`pending, this`bufferPutBits, this`bufferPutBuffer
    {
      |pending| <= 24 && bufferPutBits == |pending| && bufferPutBuffer == Window(pending)
    }

    /** Uses the 24-bit register to hold the code's `size` low bits and
        sends every completed byte to the stream. */
    method BufferIt(stream: ByteSink, code: int, size: int)
      requires RegisterValid() && 0 <= size && bufferPutBits + size <= 24
      modifies this`bufferPutBuffer, this`bufferPutBits, this`pending, stream
      ensures RegisterValid() && bufferPutBits < 8
      ensures Emitted(old(stream.bytes), stream.bytes, old(pending) + Bits(code, size), pending)
    {
      ghost var sent := pending + Bits(code, size);
      var putBuffer := code % Pow2(size);
      var putBits := bufferPutBits;
      putBits := putBits + size;
      putBuffer := Shl(putBuffer, 24 - putBits);
      Merge(pending, code, size);
      putBuffer := putBuffer + bufferPutBuffer;
      ghost var rest := sent;
      EmittedNothing(stream.bytes, sent);
      while putBits >= 8
        invariant putBits == |rest| <= 24 && putBuffer == Window(rest)
        invariant Emitted(old(stream.bytes), stream.bytes, sent, rest)
        decreases putBits
      {
        var c := (putBuffer / 65536) % 256;
        ghost var before := stream.bytes;
        TakeByte(rest);
        EmitByte(old(stream.bytes), before, sent, rest);
        StuffOne(c);
        stream.WriteByte(c);
        if c == 0xFF {
          stream.WriteByte(0);
          AppendTwo(before, c, 0);
        }
        assert stream.bytes == before + Stuff([c]);
        putBuffer := (putBuffer * 256) % 16777216;
        putBits := putBits - 8;
        rest := rest[8..];
      }
      bufferPutBuffer := putBuffer;
      bufferPutBits := putBits;
      pending := rest;
    }

    /** Sections F.1.2.1 and F.1.2.2 of T.81: one block of quantized coefficients, DC first against
        the predictor prec, then the 63 AC coefficients in zig-zag order,
        is sent through the register with the DC and AC tables dcCode and
        acCode. The register is fed exactly the bits of the block's
        emissions, each symbol through its table row. */
    method HuffmanBlockEncoder(writer: ByteSink, zigzag: seq<int>, prec: int, dcCode: int, acCode: int,
                               zigzagMap: seq<int>)
      requires EncoderValid() && RegisterValid() && bufferPutBits < 8
      requires 0 <= dcCode <= 1 && 0 <= acCode <= 1
      requires |zigzag| == 64 && |zigzagMap| == 64 && forall k :: 0 <= k < 64 ==> 0 <= zigzagMap[k] < 64
      requires Category(zigzag[0] - prec) < 12
      requires forall k :: 1 <= k < 64 ==> Category(zigzag[zigzagMap[k]]) <= 14
      modifies this`numOfDcTables, this`numOfAcTables, this`bufferPutBuffer, this`bufferPutBits, this`pending, writer
      ensures numOfDcTables == 2 && numOfAcTables == 2
      ensures RegisterValid() && bufferPutBits < 8
      ensures Emitted(old(writer.bytes), writer.bytes,
                      old(pending + StreamBits(BlockEmissions(zigzag[0] - prec, AcCoefficients(zigzag, zigzagMap)),
                                               Rows(DcTable(dcCode)), Rows(AcTable(acCode)))),
                      pending)
    {
      var dc, ac := DcTable(dcCode), AcTable(acCode);
      ghost var dr, ar := Rows(dc), Rows(ac);
      ghost var diff, acs := zigzag[0] - prec, AcCoefficients(zigzag, zigzagMap);
      ghost var todo, rest := BlockEmissions(diff, acs), AcEmissions(acs, 0);
      ghost var goal := pending + StreamBits(todo, dr, ar);
      assert goal == old(pending + StreamBits(BlockEmissions(zigzag[0] - prec, AcCoefficients(zigzag, zigzagMap)),
                                              Rows(DcTable(dcCode)), Rows(AcTable(acCode))));
      ghost var o0, stream := writer.bytes, pending;
      EmittedNothing(o0, pending);
      numOfDcTables := 2;
      numOfAcTables := 2;
      stream := EncodeDc(writer, zigzag[0] - prec, dc, dr, ar, o0, stream, todo, rest, goal);
      stream := EncodeAcs(writer, zigzag, zigzagMap, ac, dr, ar, o0, stream, goal);
      assert StreamBits([], dr, ar) == [];
      assert stream == goal;
    }

    /** The AC part of HuffmanBlockEncoder: the coefficients 1 to 63 in
        zig-zag order, runs of zeros counted in r, EOB when a run is left
        at the end. */
    method EncodeAcs(writer: ByteSink, zigzag: seq<int>, zigzagMap: seq<int>, ac: array2<int>,
                     ghost dr: seq<Row>, ghost ar: seq<Row>,
                     ghost o0: seq<int>, ghost stream0: seq<bool>, ghost goal: seq<bool>)
      returns (ghost stream: seq<bool>)
      requires |zigzag| == 64 && |zigzagMap| == 64 && forall k :: 0 <= k < 64 ==> 0 <= zigzagMap[k] < 64
      requires forall k :: 1 <= k < 64 ==> Category(zigzag[zigzagMap[k]]) <= 14
      requires SizedRows(ac, 255) && ar == Rows(ac)
      requires Sending(o0, writer.bytes, stream0, AcEmissions(AcCoefficients(zigzag, zigzagMap), 0), goal, dr, ar)
      modifies this`bufferPutBuffer, this`bufferPutBits, this`pending, writer
      ensures Sending(o0, writer.bytes, stream, [], goal, dr, ar)
    {
      ghost var acs := AcCoefficients(zigzag, zigzagMap);
      assert acs[0..] == acs;
      stream := stream0;
      ghost var pos, todo := 0, AcEmissions(acs, 0);
      var r := 0;
      var k := 1;
      while k < 64
        invariant 1 <= k <= 64 && pos == k - 1 && 0 <= r
        invariant SizedRows(ac, 255) && ar == Rows(ac)
        invariant todo == AcEmissions(acs[pos..], r) && Sending(o0, writer.bytes, stream, todo, goal, dr, ar)
      {
        var temp := zigzag[zigzagMap[k]];
        ghost var next := pos + 1;
        assert temp == acs[pos];
        if temp == 0 {
          var r1 := r + 1;
          AcStepZero(acs, pos, next, r, r1);
          r := r1;
        } else {
          AcStepValue(acs, pos, next, r);
          ghost var rest := AcEmissions(acs[next..], 0);
          stream := EncodeAc(writer, temp, r, ac, dr, ar, o0, stream, todo, rest, goal);
          r, todo := 0, rest;
        }
        pos := next;
        k := k + 1;
      }
      AcStepEnd(acs, r);
      stream := SendEob(writer, r, ac, dr, ar, o0, stream, goal);
    }

    /** The end of HuffmanBlockEncoder: EOB through the AC table when a run
        of zeros is still open. */
    method SendEob(writer: ByteSink, r: int, ac: array2<int>, ghost dr: seq<Row>, ghost ar: seq<Row>,
                   ghost o0: seq<int>, ghost stream: seq<bool>, ghost goal: seq<bool>)
      returns (ghost stream': seq<bool>)
      requires SizedRows(ac, 255) && ar == Rows(ac)
      requires Sending(o0, writer.bytes, stream, if r > 0 then [AcCode(EOB)] else [], goal, dr, ar)
      modifies this`bufferPutBuffer, this`bufferPutBits, this`pending, writer
      ensures Sending(o0, writer.bytes, stream', [], goal, dr, ar)
    {
      stream' := stream;
      if r > 0 {
        assert EmissionBits(AcCode(EOB), dr, ar) == Bits(ac[0, 0], ac[0, 1]);
        assert [AcCode(EOB)][1..] == [];
        stream' := SendNext(writer, ac[0, 0], ac[0, 1], dr, ar, o0, stream, [AcCode(EOB)], [], goal);
      }
    }

    /** The bookkeeping of HuffmanBlockEncoder: the register is valid and
        holds fewer than 8 bits, `stream` has been handed to the packer
        since the bytes `o0`, and it is followed by the bits of `todo` in
        the bits `goal` of the whole block. */
    ghost predicate Sending(o0: seq<int>, bytes: seq<int>, stream: seq<bool>, todo: seq<Emission>, goal: seq<bool>,
                            dc: seq<Row>, ac: seq<Row>)
      reads this`pending, this`bufferPutBits, this`bufferPutBuffer
    {
      RegisterValid() && bufferPutBits < 8 && Emitted(o0, bytes, stream, pending) &&
      stream + StreamBits(todo, dc, ac) == goal
    }

    /** BufferIt on the first of the emissions still to send. */
    method SendNext(writer: ByteSink, code: int, size: int, ghost dc: seq<Row>, ghost ac: seq<Row>,
                    ghost o0: seq<int>, ghost stream: seq<bool>, ghost todo: seq<Emission>, ghost rest: seq<Emission>,
                    ghost goal: seq<bool>)
      returns (ghost stream': seq<bool>)
      requires Sending(o0, writer.bytes, stream, todo, goal, dc, ac)
      requires todo != [] && todo[1..] == rest
      requires 0 <= size <= 16 && EmissionBits(todo[0], dc, ac) == Bits(code, size)
      modifies this`bufferPutBuffer, this`bufferPutBits, this`pending, writer
      ensures Sending(o0, writer.bytes, stream', rest, goal, dc, ac)
    {
      ghost var o1, p1 := writer.bytes, pending;
      BufferIt(writer, code, size);
      SendFirst(o0, o1, writer.bytes, stream, p1, Bits(code, size), pending, todo, dc, ac, goal);
      stream' := stream + Bits(code, size);
    }

    /** The DC part of HuffmanBlockEncoder: the category of the difference
        through the DC table and, unless it is 0, its raw bits. */
    method EncodeDc(writer: ByteSink, diff: int, dc: array2<int>, ghost dr: seq<Row>, ghost ar: seq<Row>,
                    ghost o0: seq<int>, ghost stream: seq<bool>, ghost todo: seq<Emission>, ghost rest: seq<Emission>,
                    ghost goal: seq<bool>)
      returns (ghost stream': seq<bool>)
      requires todo == DcEmissions(diff) + rest && Sending(o0, writer.bytes, stream, todo, goal, dr, ar)
      requires SizedRows(dc, 12) && dr == Rows(dc) && Category(diff) < 12
      modifies this`bufferPutBuffer, this`bufferPutBits, this`pending, writer
      ensures Sending(o0, writer.bytes, stream', rest, goal, dr, ar)
    {
      var nbits, temp2 := DcCategory(diff);
      DcSplit(diff, rest);
      stream' := SendCoded(writer, dc, nbits, temp2, nbits, dr, ar, o0, stream, todo, rest, goal);
    }

    /** Row s of a table, then, unless nbits is 0, the nbits low bits of
        temp2: the symbol and raw bits of one DC difference or one
        non-zero AC coefficient. */
    method SendCoded(writer: ByteSink, table: array2<int>, s: int, temp2: int, nbits: int,
                     ghost dr: seq<Row>, ghost ar: seq<Row>, ghost o0: seq<int>, ghost stream: seq<bool>,
                     ghost todo: seq<Emission>, ghost rest: seq<Emission>, ghost goal: seq<bool>)
      returns (ghost stream': seq<bool>)
      requires table.Length1 == 2 && 0 <= s < table.Length0 && 0 <= table[s, 1] <= 16 && 0 <= nbits <= 16
      requires todo != [] && EmissionBits(todo[0], dr, ar) == Bits(table[s, 0], table[s, 1])
      requires todo[1..] == (if nbits != 0 then [Magnitude(temp2, nbits)] else []) + rest
      requires Sending(o0, writer.bytes, stream, todo, goal, dr, ar)
      modifies this`bufferPutBuffer, this`bufferPutBits, this`pending, writer
      ensures Sending(o0, writer.bytes, stream', rest, goal, dr, ar)
    {
      ghost var after := todo[1..];
      stream' := SendNext(writer, table[s, 0], table[s, 1], dr, ar, o0, stream, todo, after, goal);
      if nbits != 0 {
        HeadTail(Magnitude(temp2, nbits), rest);
        stream' := SendNext(writer, temp2, nbits, dr, ar, o0, stream', after, rest, goal);
      } else {
        assert after == rest;
      }
    }

    /** The DC loop of HuffmanBlockEncoder: the number of bits of |v|,
        and the value whose low bits are sent. */
    static method DcCategory(v: int) returns (nbits: int, temp2: int)
      ensures nbits == Category(v) && temp2 == MagnitudeBits(v)
    {
      var temp := v;
      temp2 := temp;
      if temp < 0 {
        temp := -temp;
        temp2 := temp2 - 1;
      }
      nbits := 0;
      while temp != 0
        invariant 0 <= temp && nbits + BitLength(temp) == Category(v)
        decreases temp
      {
        nbits := nbits + 1;
        temp := temp / 2;
      }
    }

    /** The AC loop of HuffmanBlockEncoder, which counts the first bit of
        a non-zero coefficient before it tests. */
    static method AcCategory(v: int) returns (nbits: int, temp2: int)
      requires v != 0
      ensures nbits == Category(v) && temp2 == MagnitudeBits(v)
    {
      var temp := v;
      temp2 := temp;
      if temp < 0 {
        temp := -temp;
        temp2 := temp2 - 1;
      }
      nbits := 1;
      temp := temp / 2;
      while temp != 0
        invariant 0 <= temp && nbits + BitLength(temp) == Category(v)
        decreases temp
      {
        nbits := nbits + 1;
        temp := temp / 2;
      }
    }

    /** A non-zero AC coefficient c after a run of r zeros: a ZRL through
        the AC table for every sixteen zeros, then the run/size symbol and
        the raw bits. */
    method EncodeAc(writer: ByteSink, c: int, r: int, ac: array2<int>, ghost dr: seq<Row>, ghost ar: seq<Row>,
                    ghost o0: seq<int>, ghost stream: seq<bool>, ghost todo: seq<Emission>, ghost rest: seq<Emission>,
                    ghost goal: seq<bool>)
      returns (ghost stream': seq<bool>)
      requires c != 0 && Category(c) <= 14 && r >= 0 && SizedRows(ac, 255) && ar == Rows(ac)
      requires todo == Zrls(r / 16) + ([AcCode(16 * (r % 16) + Category(c)), Magnitude(MagnitudeBits(c), Category(c))]
                                       + rest)
      requires Sending(o0, writer.bytes, stream, todo, goal, dr, ar)
      modifies this`bufferPutBuffer, this`bufferPutBits, this`pending, writer
      ensures Sending(o0, writer.bytes, stream', rest, goal, dr, ar)
    {
      ghost var t := Category(c);
      ghost var head := [AcCode(16 * (r % 16) + t), Magnitude(MagnitudeBits(c), t)];
      var run;
      ghost var symbol := head + rest;
      run, stream' := SendZrls(writer, r, ac, dr, ar, o0, stream, todo, symbol, goal);
      var nbits, temp2 := AcCategory(c);
      var i := run * 16 + nbits;
      PairTail(AcCode(16 * (r % 16) + t), Magnitude(MagnitudeBits(c), t), rest);
      stream' := SendCoded(writer, ac, i, temp2, nbits, dr, ar, o0, stream', symbol, rest, goal);
    }

    /** The ZRL loop of HuffmanBlockEncoder: one ZRL symbol for every
        sixteen zeros of the run r, leaving r % 16. */
    method SendZrls(writer: ByteSink, r: int, ac: array2<int>, ghost dr: seq<Row>, ghost ar: seq<Row>,
                    ghost o0: seq<int>, ghost stream: seq<bool>, ghost todo: seq<Emission>, ghost rest: seq<Emission>,
                    ghost goal: seq<bool>)
      returns (run: int, ghost stream': seq<bool>)
      requires r >= 0 && SizedRows(ac, 255) && ar == Rows(ac)
      requires todo == Zrls(r / 16) + rest && Sending(o0, writer.bytes, stream, todo, goal, dr, ar)
      modifies this`bufferPutBuffer, this`bufferPutBits, this`pending, writer
      ensures run == r % 16
      ensures Sending(o0, writer.bytes, stream', rest, goal, dr, ar)
    {
      run := r;
      stream' := stream;
      ghost var left := todo;
      while run > 15
        invariant 0 <= run && run % 16 == r % 16
        invariant left == Zrls(run / 16) + rest && Sending(o0, writer.bytes, stream', left, goal, dr, ar)
      {
        var next := run - 16;
        ZrlStep(run, next, rest);
        ghost var after := Zrls(next / 16) + rest;
        HeadTail(AcCode(ZRL), after);
        stream' := SendNext(writer, ac[0xF0, 0], ac[0xF0, 1], dr, ar, o0, stream', left, after, goal);
        run, left := next, after;
      }
      assert Zrls(run / 16) + rest == rest;
    }

    /** Sends the pending bits, the last byte padded with zero bits; the
        register itself is left as it is. */
    method FlushBuffer(stream: ByteSink)
      requires RegisterValid()
      modifies stream
      ensures stream.bytes == old(stream.bytes) + Stuff(Pack(pending + Zeros(PadLength(|pending|))))
    {
      var putBuffer := bufferPutBuffer;
      var putBits := bufferPutBits;
      ghost var rest := pending;
      EmittedNothing(stream.bytes, pending);
      while putBits >= 8
        invariant putBits == |rest| <= 24 && putBuffer == Window(rest)
        invariant Emitted(old(stream.bytes), stream.bytes, pending, rest)
        decreases putBits
      {
        var c := (putBuffer / 65536) % 256;
        TakeByte(rest);
        EmitByte(old(stream.bytes), stream.bytes, pending, rest);
        StuffOne(c);
        stream.WriteByte(c);
        if c == 0xFF {
          stream.WriteByte(0);
        }
        putBuffer := (putBuffer * 256) % 16777216;
        putBits := putBits - 8;
        rest := rest[8..];
      }
      if putBits > 0 {
        var c := (putBuffer / 65536) % 256;
        PadByteBits(rest);
        EmitPad(old(stream.bytes), stream.bytes, pending, rest);
        stream.WriteByte(c);
      } else {
        EmitWhole(old(stream.bytes), stream.bytes, pending, rest);
      }
    }
  }
}
