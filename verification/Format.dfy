/** The byte format spelled out: tags, class numbers and element sizes as they are
    stored, independently of the constants the code of the model uses. */
module Format {
  import opened Bytes
  import opened MatlabValue
  import opened Encoding
  import opened Decoding
  import opened CodecProofs
  import opened Envelope
  import Serializer

  // ---------- sizes ----------

  /** `k` bytes per element: logical, int8 and uint8; char, int16 and uint16;
      single, int32 and uint32; double, int64 and uint64. */
  predicate Takes(c: nat, k: nat) {
    || (k == 1 && (c == 3 || c == 8 || c == 9))
    || (k == 2 && (c == 4 || c == 10 || c == 11))
    || (k == 4 && (c == 7 || c == 12 || c == 13))
    || (k == 8 && (c == 6 || c == 14 || c == 15))
  }

  function Product(dims: seq<nat>): nat {
    if dims == [] then 1 else dims[0] * Product(dims[1..])
  }

  lemma {:induction false} TimesAssoc(a: nat, b: nat, c: nat)
    ensures a * (b * c) == (a * b) * c
  {
  }

  /** Multiplying from the front or from the back is the same. */
  lemma {:induction false} NumelIsProduct(dims: seq<nat>)
    ensures Numel(dims) == Product(dims)
    decreases |dims|
  {
    if |dims| == 1 {
      assert dims[..0] == [] && dims[1..] == [];
      assert Numel(dims) == Numel(dims[..0]) * dims[0] && Product(dims) == dims[0] * Product(dims[1..]);
    } else if |dims| > 1 {
      var n := |dims| - 1;
      var middle := dims[1..][..n - 1];
      assert dims[..n][1..] == middle && dims[1..][n - 1] == dims[n];
      NumelIsProduct(dims[..n]);
      NumelIsProduct(dims[1..]);
      NumelIsProduct(middle);
      TimesAssoc(dims[0], Product(middle), dims[n]);
    }
  }

  /** What is left of the dimensions is a start of them; ones alone are dropped, as
      many as there are at the end, but never the first two. */
  lemma {:induction false} TrimMeaning(dims: seq<nat>)
    ensures var r := TrimDims(dims);
            && r == dims[..|r|] && (forall k :: |r| <= k < |dims| ==> dims[k] == 1)
            && (|r| > 2 ==> r[|r| - 1] != 1) && (|dims| <= 2 ==> r == dims) && (|dims| > 2 ==> |r| >= 2)
  {
    if |dims| > 2 && dims[|dims| - 1] == 1 {
      TrimMeaning(dims[..|dims| - 1]);
    }
  }

  ghost predicate Trimmed(dims: seq<nat>) {
    |dims| == 2 || (|dims| > 2 && dims[|dims| - 1] != 1)
  }

  lemma {:induction false} TrimmedIff(dims: seq<nat>)
    ensures ValidDims(dims) <==> Trimmed(dims)
  {
    TrimMeaning(dims);
  }

  /** The arrays MATLAB holds. */
  lemma {:induction false} ArrayShapeIff(dims: seq<nat>, c: nat, re: bytes, im: Option<bytes>)
    ensures Shape(Arr(dims, c, re, im))
       <==> && Trimmed(dims) && (im.Some? ==> |im.value| == |re|)
            && exists k: nat :: Takes(c, k) && |re| == k * Product(dims)
  {
    TrimmedIff(dims);
    NumelIsProduct(dims);
    var k := ElementSize(c);
    if Shape(Arr(dims, c, re, im)) {
      assert Takes(c, k);
    }
  }

  /** And the sparse matrices: logical of one byte per element and always real, or
      double of eight. */
  lemma {:induction false} SparseShapeIff(v: Value)
    requires v.Sparse?
    ensures Shape(v) <==>
              && |v.jc| == v.cols + 1 && (v.im.Some? ==> |v.im.value| == |v.re|)
              && ((v.classId == 3 && |v.re| == |v.ir| && v.im.None?) || (v.classId == 6 && |v.re| == 8 * |v.ir|))
  {
    assert ElementSize(3) * |v.ir| == |v.ir| && ElementSize(6) * |v.ir| == 8 * |v.ir|;
  }

  // ---------- tags ----------

  /** The first byte of what is written for each kind, and the two headers. */
  lemma {:induction false} FirstBytes(v: Value, w: nat, z: Zlib, b: bytes)
    ensures v.Arr? ==> Encode(v, w) != [] && Encode(v, w)[0] == 65
    ensures v.Sparse? ==> Encode(v, w) != [] && Encode(v, w)[0] == 80
    ensures v.Cell? ==> Encode(v, w) != [] && Encode(v, w)[0] == 67
    ensures v.Struct? ==> Encode(v, w) != [] && Encode(v, w)[0] == 83
    ensures Serializer.Header(true) == MATLAB_ID == [109, 89, 109, 0] && Serializer.Header(false) == []
    ensures |Wrap(z, b, w)| >= 6 && Wrap(z, b, w)[..6] == [90, 76, 49, 50, 51, 0]
  {
  }

  // ---------- lengths ----------

  /** A stored length is refused if and only if `mwSize` has 4 bytes and the length
      does not fit them. */
  lemma {:induction false} LengthRead(s: bytes, p: nat, pl: Platform)
    ensures ReadUint(s, p, pl) ==
              if p + pl.field > |s| then Err(OutOfBuffer)
              else if pl.size == 4 && Load(s, p, pl.field) >= 0x1_0000_0000 then Err(SizeLimit)
              else Ok(Load(s, p, pl.field), p + pl.field)
  {
    if p + pl.field <= |s| {
      AtLoad(s, p, pl.field);
      Pow256Values();
    }
  }

  // ---------- arrays ----------

  /** Numbers the platform's size type can hold, of the width they are stored in. */
  ghost predicate Storeable(ns: seq<nat>, pl: Platform) {
    forall k :: 0 <= k < |ns| ==>
      ns[k] < (if pl.field == 4 || pl.size == 4 then 0x1_0000_0000 else 0x1_0000_0000_0000_0000)
  }

  /** An array as it lies in memory, with class `c` and complexity word `x`. */
  function ArrayBytes(dims: seq<nat>, c: nat, x: nat, data: bytes, w: nat): bytes {
    [65] + (LE(|dims|, w) + LEs(dims, w)) + (LE(c, 4) + LE(x, 4)) + data
  }

  /** What precedes the data is read, whatever the class and complexity are. */
  lemma {:induction false} ArrayHeadReads(dims: seq<nat>, c: nat, x: nat, data: bytes, s: bytes, p: nat, pl: Platform)
    returns (q: nat, e: nat)
    requires c < TWO_32 && x < TWO_32 && Storeable([|dims|], pl) && Storeable(dims, pl)
    requires At(s, p, ArrayBytes(dims, c, x, data, pl.field))
    ensures p < |s| && s[p] == 65 && Gives(ReadDims(s, p + 1, pl), dims, q)
    ensures Gives(ReadInt(s, q), c, q + 4) && Gives(ReadInt(s, q + 4), x, q + 8)
    ensures At(s, q + 8, data) && e == q + 8 + |data| == p + |ArrayBytes(dims, c, x, data, pl.field)|
  {
    var d := LE(|dims|, pl.field) + LEs(dims, pl.field);
    q := p + 1 + |d|;
    e := q + 8 + |data|;
    AtConcat3(s, p, [65] + d, LE(c, 4) + LE(x, 4), data);
    AtConcat(s, p, [65], d);
    AtByte(s, p, 65);
    assert [|dims|][0] < pl.Limit();
    ReadDimsAt(s, p + 1, dims, pl);
    AtConcat(s, q, LE(c, 4), LE(x, 4));
    ReadIntAt(s, q, c);
    ReadIntAt(s, q + 4, x);
  }

  lemma {:induction false} ArrayDecodes(s: bytes, p: nat, dims: seq<nat>, c: nat, x: nat, q: nat,
                                        data: (bytes, Option<bytes>), e: nat, pl: Platform)
    requires p < |s| && s[p] == 65 && Gives(ReadDims(s, p + 1, pl), dims, q)
    requires Gives(ReadInt(s, q), c, q + 4) && Gives(ReadInt(s, q + 4), x, q + 8)
    requires |dims| >= 2 && ElementSize(c) != 0
    requires Gives(ReadData(s, q + 8, ElementSize(c) * Numel(TrimDims(dims)), x == 1), data, e)
    ensures Gives(DecodeValue(s, p, pl), Arr(TrimDims(dims), c, data.0, data.1), e)
  {
    assert DecodeValue(s, p, pl) == DecodeArr(s, p + 1, pl);
  }

  /** Byte 65, dimensions, class, complexity and as many bytes as MATLAB's element
      size says are read as exactly these, imaginary bytes if and only if the
      complexity is 1. */
  lemma {:induction false} ArrayRead(dims: seq<nat>, c: nat, k: nat, x: nat, re: bytes, im: bytes, s: bytes, p: nat,
                                     pl: Platform)
    requires |dims| >= 2 && Takes(c, k) && x < 0x1_0000_0000 && Storeable([|dims|], pl) && Storeable(dims, pl)
    requires |re| == k * Product(dims) && |im| == (if x == 1 then |re| else 0)
    requires At(s, p, ArrayBytes(dims, c, x, re + im, pl.field))
    ensures Gives(DecodeValue(s, p, pl), Arr(TrimDims(dims), c, re, if x == 1 then Some(im) else None),
                  p + |ArrayBytes(dims, c, x, re + im, pl.field)|)
  {
    var q, e := ArrayHeadReads(dims, c, x, re + im, s, p, pl);
    NumelIsProduct(dims);
    TrimKeepsNumel(dims);
    assert ElementSize(c) == k;
    var i := if x == 1 then Some(im) else None;
    assert re + im == Data(re, i);
    ReadDataAt(s, q + 8, re, i);
    ArrayDecodes(s, p, dims, c, x, q, (re, i), e, pl);
  }

  /** Fewer than two dimensions, or a class without an element size, is refused. */
  lemma {:induction false} ArrayRefused(dims: seq<nat>, c: nat, x: nat, data: bytes, s: bytes, p: nat, pl: Platform)
    requires c < 0x1_0000_0000 && x < 0x1_0000_0000 && Storeable([|dims|], pl) && Storeable(dims, pl)
    requires |dims| < 2 || (forall k: nat :: !Takes(c, k))
    requires At(s, p, ArrayBytes(dims, c, x, data, pl.field))
    ensures DecodeValue(s, p, pl) == Err(BadArray)
  {
    var q, e := ArrayHeadReads(dims, c, x, data, s, p, pl);
    if ElementSize(c) != 0 {
      assert Takes(c, ElementSize(c));
    }
    assert DecodeValue(s, p, pl) == DecodeArr(s, p + 1, pl);
  }

  /** And these are the bytes written for an array. */
  lemma {:induction false} ArrayWritten(dims: seq<nat>, c: nat, re: bytes, im: Option<bytes>, w: nat)
    ensures Encode(Arr(dims, c, re, im), w)
         == ArrayBytes(dims, c, if im.Some? then 1 else 0, re + (if im.Some? then im.value else []), w)
    ensures EncodeSlot(Null, w) == ArrayBytes([0, 0], 6, 0, [], w)
  {
    var none: bytes := [];
    assert none + none == none;
  }

  /** A NULL element reads as a 0-by-0 real double array. */
  lemma {:induction false} NullRead(s: bytes, p: nat, pl: Platform)
    requires At(s, p, EncodeSlot(Null, pl.field))
    ensures Gives(DecodeValue(s, p, pl), Arr([0, 0], 6, [], None), p + |EncodeSlot(Null, pl.field)|)
    ensures NormSlot(Null) == Arr([0, 0], 6, [], None)
  {
    ArrayWritten([], 0, [], None, pl.field);
    var dims: seq<nat> := [0, 0];
    assert Product(dims) == 0 * Product(dims[1..]);
    var none: bytes := [];
    assert none + none == none;
    assert [2][0] < TWO_32 && [|dims|] == [2];
    ArrayRead(dims, 6, 8, 0, [], [], s, p, pl);
  }

  // ---------- sparse matrices ----------

  /** A sparse matrix as it lies in memory. */
  function SparseBytes(rows: nat, cols: nat, c: nat, x: nat, jc: seq<nat>, ir: seq<nat>, data: bytes, w: nat): bytes {
    [80] + (LE(rows, w) + (LE(cols, w) + LE(|ir|, w))) + (LE(c, 4) + LE(x, 4)) + LEs(jc, w) + LEs(ir, w) + data
  }

  lemma {:induction false} SparseWritten(v: Value, w: nat)
    requires v.Sparse?
    ensures Encode(v, w) == SparseBytes(v.rows, v.cols, v.classId, if v.im.Some? then 1 else 0, v.jc, v.ir,
                                        v.re + (if v.im.Some? then v.im.value else []), w)
  {
    CountsSize(v.rows, v.cols, |v.ir|, w);
  }

  lemma {:induction false} CountParts(rows: nat, cols: nat, nzmax: nat, c: nat, x: nat, s: bytes, p: nat, w: nat)
    returns (q0: nat, q: nat)
    requires At(s, p, [80] + (LE(rows, w) + (LE(cols, w) + LE(nzmax, w))) + (LE(c, 4) + LE(x, 4)))
    ensures p < |s| && s[p] == 80 && q0 == p + 1 + 3 * w && q == q0 + 8
    ensures At(s, p + 1, LE(rows, w)) && At(s, p + 1 + w, LE(cols, w)) && At(s, p + 1 + 2 * w, LE(nzmax, w))
    ensures At(s, q0, LE(c, 4)) && At(s, q0 + 4, LE(x, 4))
  {
    q0 := p + 1 + 3 * w;
    q := q0 + 8;
    AtConcat3(s, p, [80], LE(rows, w) + (LE(cols, w) + LE(nzmax, w)), LE(c, 4) + LE(x, 4));
    AtByte(s, p, 80);
    AtConcat(s, p + 1, LE(rows, w), LE(cols, w) + LE(nzmax, w));
    AtConcat(s, p + 1 + w, LE(cols, w), LE(nzmax, w));
    AtConcat(s, q0, LE(c, 4), LE(x, 4));
  }

  /** Four parts, one behind the other. */
  lemma {:induction false} FourParts(head: bytes, jc: bytes, ir: bytes, data: bytes, s: bytes, p: nat)
    returns (q: nat, q1: nat, q2: nat)
    requires At(s, p, head + jc + ir + data)
    ensures q == p + |head| && q1 == q + |jc| && q2 == q1 + |ir| && q <= |s| && q1 <= |s|
    ensures At(s, p, head) && At(s, q, jc) && At(s, q1, ir) && At(s, q2, data)
  {
    q := p + |head|;
    q1 := q + |jc|;
    q2 := q1 + |ir|;
    AtConcat3(s, p, head + jc, ir, data);
    AtConcat(s, p, head, jc);
  }

  lemma {:induction false} SparseParts(rows: nat, cols: nat, c: nat, x: nat, jc: seq<nat>, ir: seq<nat>, data: bytes,
                                       s: bytes, p: nat, w: nat)
    returns (q0: nat, q: nat, q1: nat, q2: nat)
    requires At(s, p, SparseBytes(rows, cols, c, x, jc, ir, data, w))
    ensures p < |s| && s[p] == 80
    ensures At(s, p + 1, LE(rows, w)) && At(s, p + 1 + w, LE(cols, w)) && At(s, p + 1 + 2 * w, LE(|ir|, w))
    ensures q0 == p + 1 + 3 * w && At(s, q0, LE(c, 4)) && At(s, q0 + 4, LE(x, 4)) && q == q0 + 8
    ensures At(s, q, LEs(jc, w)) && q1 == q + |LEs(jc, w)| && At(s, q1, LEs(ir, w)) && q2 == q1 + |LEs(ir, w)|
    ensures At(s, q2, data) && q <= |s| && q1 <= |s|
    ensures q2 + |data| == p + |SparseBytes(rows, cols, c, x, jc, ir, data, w)|
  {
    var head := [80] + (LE(rows, w) + (LE(cols, w) + LE(|ir|, w))) + (LE(c, 4) + LE(x, 4));
    q, q1, q2 := FourParts(head, LEs(jc, w), LEs(ir, w), data, s, p);
    q0, q := CountParts(rows, cols, |ir|, c, x, s, p, w);
  }

  lemma {:induction false} SparseHeadDecodes(rows: nat, cols: nat, nzmax: nat, c: nat, x: nat, s: bytes, p: nat,
                                             q0: nat, pl: Platform)
    requires c < TWO_32 && x < TWO_32 && Storeable([rows, cols, nzmax], pl) && q0 == p + 3 * pl.field
    requires At(s, p, LE(rows, pl.field)) && At(s, p + pl.field, LE(cols, pl.field))
    requires At(s, p + 2 * pl.field, LE(nzmax, pl.field)) && At(s, q0, LE(c, 4)) && At(s, q0 + 4, LE(x, 4))
    ensures Gives(ReadSparseHead(s, p, pl), SparseHead(rows, cols, nzmax, c, x), q0 + 8)
  {
    var ns := [rows, cols, nzmax];
    assert ns[0] < pl.Limit() && ns[1] < pl.Limit() && ns[2] < pl.Limit();
    ReadUintAt(s, p, rows, pl);
    ReadUintAt(s, p + pl.field, cols, pl);
    ReadUintAt(s, p + 2 * pl.field, nzmax, pl);
    ReadIntAt(s, q0, c);
    ReadIntAt(s, q0 + 4, x);
  }

  lemma {:induction false} BodyDecodes(h: SparseHead, jc: seq<nat>, ir: seq<nat>, data: (bytes, Option<bytes>),
                                       s: bytes, q: nat, q1: nat, q2: nat, e: nat, size: nat, pl: Platform)
    requires |jc| == h.cols + 1 && |ir| == h.nzmax && q <= |s| && q1 <= |s|
    requires Gives(ReadUints(s, q, |jc|, pl), jc, q1) && Gives(ReadUints(s, q1, |ir|, pl), ir, q2)
    requires h.classId == 3 && h.complexity == 1 ==> ir == []
    requires size == (if h.classId == 3 then |ir| else 8 * |ir|)
    requires Gives(ReadData(s, q2, size, h.complexity == 1 && h.classId != 3), data, e)
    ensures Gives(SparseBody(s, q, h, pl),
                  Sparse(h.rows, h.cols, if h.classId == 3 then 3 else 6, jc, ir, data.0, data.1), e)
  {
    assert ElementSize(3) * |ir| == |ir| && ElementSize(6) * |ir| == 8 * |ir|;
  }

  lemma {:induction false} SparseDecodes(h: SparseHead, s: bytes, p: nat, q: nat, v: Value, e: nat, pl: Platform)
    requires p < |s| && s[p] == 80 && Gives(ReadSparseHead(s, p + 1, pl), h, q) && q <= |s|
    requires Gives(SparseBody(s, q, h, pl), v, e)
    ensures Gives(DecodeValue(s, p, pl), v, e)
  {
    assert DecodeValue(s, p, pl) == DecodeSparse(s, p + 1, pl);
  }

  /** Byte 80, counts, class and complexity, jc, ir and data are read as a logical
      matrix of one byte per element if the class is 3, and as a double matrix of
      eight bytes per element, whatever else the class is; imaginary data are read
      if and only if the complexity is 1 (a logical matrix has room for none). */
  lemma {:induction false} SparseRead(rows: nat, cols: nat, c: nat, x: nat, jc: seq<nat>, ir: seq<nat>, re: bytes,
                                      im: bytes, s: bytes, p: nat, pl: Platform)
    requires c < 0x1_0000_0000 && x < 0x1_0000_0000 && Storeable([rows, cols, |ir|], pl)
    requires Storeable(jc, pl) && Storeable(ir, pl) && |jc| == cols + 1
    requires |re| == (if c == 3 then |ir| else 8 * |ir|) && |im| == (if x == 1 && c != 3 then |re| else 0)
    requires c == 3 && x == 1 ==> ir == []
    requires At(s, p, SparseBytes(rows, cols, c, x, jc, ir, re + im, pl.field))
    ensures Gives(DecodeValue(s, p, pl),
                  Sparse(rows, cols, if c == 3 then 3 else 6, jc, ir, re, if x == 1 && c != 3 then Some(im) else None),
                  p + |SparseBytes(rows, cols, c, x, jc, ir, re + im, pl.field)|)
  {
    var q0, q, q1, q2 := SparseParts(rows, cols, c, x, jc, ir, re + im, s, p, pl.field);
    var h := SparseHead(rows, cols, |ir|, c, x);
    var i := if x == 1 && c != 3 then Some(im) else None;
    var e := q2 + |re + im|;
    SparseHeadDecodes(rows, cols, |ir|, c, x, s, p + 1, q0, pl);
    ReadUintsAt(s, q, jc, pl);
    ReadUintsAt(s, q1, ir, pl);
    assert re + im == Data(re, i);
    ReadDataAt(s, q2, re, i);
    BodyDecodes(h, jc, ir, (re, i), s, q, q1, q2, e, |re|, pl);
    SparseDecodes(h, s, p, q, Sparse(rows, cols, if c == 3 then 3 else 6, jc, ir, re, i), e, pl);
  }

  // ---------- cells and structs ----------

  /** Length-prefixed elements as they lie in memory; a prefix may cover more than
      its element. */
  function ElementBytes(element: bytes, padding: bytes, w: nat): bytes {
    LE(|element| + |padding|, w) + element + padding
  }

  lemma {:induction false} CellWritten(dims: seq<nat>, names: seq<bytes>, es: seq<Slot>, w: nat)
    ensures Encode(Cell(dims, es), w) == [67] + (LE(|dims|, w) + LEs(dims, w)) + Children(es, w)
    ensures Encode(Struct(dims, names, es), w)
         == [83] + (LE(|dims|, w) + LEs(dims, w)) + LE(|names|, 4) + Names(names) + Children(es, w)
    ensures Children([], w) == [] && Names([]) == []
    ensures names != [] ==> Names(names) == names[0] + [0] + Names(names[1..])
    ensures es != [] ==> Children(es, w) == ElementBytes(EncodeSlot(es[0], w), [], w) + Children(es[1..], w)
  {
    if es != [] {
      var b := EncodeSlot(es[0], w);
      assert LE(|b|, w) + b + [] == LE(|b|, w) + b;
    }
  }

  /** Tag and dimensions, with `body` behind them. */
  lemma {:induction false} DimensionsRead(tag: byte, dims: seq<nat>, body: bytes, s: bytes, p: nat, pl: Platform)
    returns (q: nat)
    requires Storeable([|dims|], pl) && Storeable(dims, pl)
    requires At(s, p, [tag] + (LE(|dims|, pl.field) + LEs(dims, pl.field)) + body)
    ensures p < |s| && s[p] == tag && Gives(ReadDims(s, p + 1, pl), dims, q) && At(s, q, body)
  {
    var d := LE(|dims|, pl.field) + LEs(dims, pl.field);
    q := p + 1 + |d|;
    AtConcat3(s, p, [tag], d, body);
    AtByte(s, p, tag);
    assert [|dims|][0] < pl.Limit();
    ReadDimsAt(s, p + 1, dims, pl);
  }

  /** A cell array of fewer than two dimensions or of 2^31 elements or more is
      refused. */
  lemma {:induction false} CellRefused(dims: seq<nat>, body: bytes, s: bytes, p: nat, pl: Platform)
    requires Storeable([|dims|], pl) && Storeable(dims, pl) && (|dims| < 2 || Product(dims) >= 0x8000_0000)
    requires At(s, p, [67] + (LE(|dims|, pl.field) + LEs(dims, pl.field)) + body)
    ensures p < |s| && DecodeValue(s, p, pl) == Err(BadArray)
  {
    var q := DimensionsRead(67, dims, body, s, p, pl);
    NumelIsProduct(dims);
    assert DecodeValue(s, p, pl) == DecodeCell(s, p + 1, pl);
  }

  /** So is a struct array of 2^31 fields or more. */
  lemma {:induction false} FieldsRefused(dims: seq<nat>, n: nat, rest: bytes, s: bytes, p: nat, pl: Platform)
    requires Storeable([|dims|], pl) && Storeable(dims, pl) && 0x8000_0000 <= n < 0x1_0000_0000
    requires At(s, p, [83] + (LE(|dims|, pl.field) + LEs(dims, pl.field)) + (LE(n, 4) + rest))
    ensures p < |s| && DecodeValue(s, p, pl) == Err(BadArray)
  {
    var q := DimensionsRead(83, dims, LE(n, 4) + rest, s, p, pl);
    AtConcat(s, q, LE(n, 4), rest);
    ReadIntAt(s, q, n);
    assert DecodeValue(s, p, pl) == DecodeStruct(s, p + 1, pl);
  }

  /** A struct array of fewer than two dimensions or of 2^31 elements or more, once
      its names are read. */
  lemma {:induction false} StructRefused(dims: seq<nat>, names: seq<bytes>, body: bytes, s: bytes, p: nat, pl: Platform)
    requires Storeable([|dims|], pl) && Storeable(dims, pl) && |names| < 0x8000_0000
    requires forall k :: 0 <= k < |names| ==> 0 !in names[k]
    requires |dims| < 2 || Product(dims) >= 0x8000_0000
    requires At(s, p, [83] + (LE(|dims|, pl.field) + LEs(dims, pl.field)) + (LE(|names|, 4) + Names(names) + body))
    ensures p < |s| && DecodeValue(s, p, pl) == Err(BadArray)
  {
    var q := DimensionsRead(83, dims, LE(|names|, 4) + Names(names) + body, s, p, pl);
    AtConcat3(s, q, LE(|names|, 4), Names(names), body);
    ReadIntAt(s, q, |names|);
    ReadNamesAt(s, q + 4, names);
    NumelIsProduct(dims);
    assert DecodeValue(s, p, pl) == DecodeStruct(s, p + 1, pl);
  }

  /** Wherever an element's own bytes end, the next one is where its prefix says. */
  lemma {:induction false} PaddingSkipped(e: Slot, padding: bytes, n: nat, s: bytes, p: nat, q: nat, pl: Platform)
    requires n != 0 && SlotFits(e, pl) && ShapeSlot(e) && SupportedSlot(e)
    requires At(s, p, ElementBytes(EncodeSlot(e, pl.field), padding, pl.field))
    requires |EncodeSlot(e, pl.field)| + |padding| < pl.Limit()
    requires q == p + |ElementBytes(EncodeSlot(e, pl.field), padding, pl.field)|
    ensures q <= |s|
    ensures var rest := DecodeChildren(s, q, n - 1, pl);
            DecodeChildren(s, p, n, pl) ==
              if rest.Ok? then Ok([Full(NormSlot(e))] + rest.value, rest.end) else Err(rest.error)
  {
    var b := EncodeSlot(e, pl.field);
    var len := |b| + |padding|;
    AtConcat3(s, p, LE(len, pl.field), b, padding);
    ReadUintAt(s, p, len, pl);
    RoundTripSlot(e, s, p + pl.field, pl);
  }
}
