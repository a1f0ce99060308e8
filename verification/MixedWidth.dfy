/** With MYM_USE_32BIT_DIMS set the reader takes lengths to have 4 bytes, while the
    writer always gives them 8: what then becomes of a written value. */
module MixedWidth {
  import opened Bytes
  import opened MatlabValue
  import opened Encoding
  import opened Decoding
  import opened CodecProofs
  import opened Envelope
  import ByteOrder
  import CodecTheorems

  /** A number written with 8 bytes is read as itself and then as 0. */
  lemma {:induction false} HalvesRead(s: bytes, p: nat, n: nat, pl: Platform)
    requires pl.field == 4 && n < TWO_32 && At(s, p, LE(n, 8))
    ensures Gives(ReadUint(s, p, pl), n, p + 4) && Gives(ReadUint(s, p + 4, pl), 0, p + 8)
    ensures Gives(ReadInt(s, p), n, p + 4) && Gives(ReadInt(s, p + 4), 0, p + 8)
  {
    ByteOrder.EightDigits(n);
    AtConcat(s, p, LE(n, 4), LE(0, 4));
    ReadUintAt(s, p, n, pl);
    ReadUintAt(s, p + 4, 0, pl);
    ReadIntAt(s, p, n);
    ReadIntAt(s, p + 4, 0);
  }

  /** So whatever the dimensions were, the first one read is 0. */
  lemma {:induction false} FirstDimensionIsZero(dims: seq<nat>, s: bytes, p: nat, pl: Platform)
    requires pl.field == 4 && 0 < |dims| < TWO_32 && At(s, p, Dims(dims, 8)) && ReadDims(s, p, pl).Ok?
    ensures |ReadDims(s, p, pl).value| == |dims| && ReadDims(s, p, pl).value[0] == 0
  {
    AtConcat(s, p, LE(|dims|, 8), LEs(dims, 8));
    HalvesRead(s, p, |dims|, pl);
  }

  /** No elements. */
  predicate Hollow(v: Value) {
    match v
    case Arr(dims, _, _, _) => Numel(dims) == 0
    case Sparse(_, cols, _, _, _, _, _) => cols == 0
    case Cell(dims, _) => Numel(dims) == 0
    case Struct(dims, _, _) => Numel(dims) == 0
    case Other => false
  }

  lemma {:induction false} ZeroFirst(dims: seq<nat>)
    requires dims != [] && dims[0] == 0
    ensures Numel(dims) == 0 && Numel(TrimDims(dims)) == 0
  {
    TrimKeepsNumel(dims);
    if |dims| == 1 {
      assert dims[..0] == [];
    } else {
      ZeroFirst(dims[..|dims| - 1]);
    }
  }

  /** The number of dimensions, or of rows. */
  function FirstLength(v: Value): nat {
    match v
    case Arr(dims, _, _, _) => |dims|
    case Sparse(rows, _, _, _, _, _, _) => rows
    case Cell(dims, _) => |dims|
    case Struct(dims, _, _) => |dims|
    case Other => 0
  }

  /** The dimensions of what was read are those that were read. */
  lemma {:induction false} DimensionsOfDecoded(s: bytes, p: nat, pl: Platform)
    requires p < |s| && (s[p] == ID_ARRAY || s[p] == ID_CELL || s[p] == ID_STRUCT) && DecodeValue(s, p, pl).Ok?
    ensures ReadDims(s, p + 1, pl).Ok?
    ensures var v := DecodeValue(s, p, pl).value;
            (v.Arr? || v.Cell? || v.Struct?) && v.dims == TrimDims(ReadDims(s, p + 1, pl).value)
  {
    if s[p] == ID_ARRAY {
      assert DecodeValue(s, p, pl) == DecodeArr(s, p + 1, pl);
    } else if s[p] == ID_CELL {
      assert DecodeValue(s, p, pl) == DecodeCell(s, p + 1, pl);
    } else {
      assert DecodeValue(s, p, pl) == DecodeStruct(s, p + 1, pl);
    }
  }

  /** Anything the reader delivers is without elements, whatever was written. */
  lemma {:induction false} NothingComesBack(v: Value, s: bytes, p: nat, pl: Platform)
    requires pl.field == 4 && !v.Other? && Shape(v) && FirstLength(v) < TWO_32 && p <= |s| && At(s, p, Encode(v, 8))
    ensures DecodeValue(s, p, pl).Ok? ==> Hollow(DecodeValue(s, p, pl).value)
    ensures !Hollow(v) ==> !(DecodeValue(s, p, pl).Ok? && DecodeValue(s, p, pl).value == Norm(v))
  {
    if v.Sparse? {
      SparseLayoutStart(v, s, p);
      HalvesRead(s, p + 1, v.rows, pl);
    } else {
      DimsFirst(v, s, p);
      if DecodeValue(s, p, pl).Ok? {
        DimensionsOfDecoded(s, p, pl);
        FirstDimensionIsZero(v.dims, s, p + 1, pl);
        ZeroFirst(ReadDims(s, p + 1, pl).value);
      }
    }
  }

  lemma {:induction false} SparseLayoutStart(v: Value, s: bytes, p: nat)
    requires v.Sparse? && At(s, p, Encode(v, 8))
    ensures p < |s| && s[p] == ID_SPARSE && At(s, p + 1, LE(v.rows, 8))
  {
    var q, q1, q2 := SparseLayout(v, s, p, p + 25, 8);
    CountsSize(v.rows, v.cols, |v.ir|, 8);
    AtConcat(s, p + 1, LE(v.rows, 8), LE(v.cols, 8) + LE(|v.ir|, 8));
  }

  lemma {:induction false} DimsFirst(v: Value, s: bytes, p: nat)
    requires (v.Arr? || v.Cell? || v.Struct?) && At(s, p, Encode(v, 8))
    ensures p < |s| && s[p] == Encode(v, 8)[0] && At(s, p + 1, Dims(v.dims, 8))
  {
    var d := Dims(v.dims, 8);
    match v
    case Arr(_, c, re, im) => HeadAt(s, p, ID_ARRAY, d, Kind(c, im) + Data(re, im), Encode(v, 8));
    case Cell(_, es) => HeadAt(s, p, ID_CELL, d, Children(es, 8), Encode(v, 8));
    case Struct(_, names, es) =>
      HeadAt(s, p, ID_STRUCT, d, LE(|names|, 4) + Names(names) + Children(es, 8), Encode(v, 8));
  }

  lemma {:induction false} HeadAt(s: bytes, p: nat, tag: byte, d: bytes, rest: bytes, whole: bytes)
    requires At(s, p, whole) && whole == [tag] + d + rest
    ensures p < |s| && s[p] == tag && At(s, p + 1, d)
  {
    AtConcat3(s, p, [tag], d, rest);
    AtByte(s, p, tag);
  }

  /** Two dimensions: the words read are 2, then 0 and the first dimension taken for
      the dimensions, then 0. */
  lemma {:induction false} TwoDimensionsRead(m: nat, n: nat, s: bytes, p: nat, pl: Platform)
    requires pl.field == 4 && m < TWO_32 && n < TWO_32 && At(s, p, Dims([m, n], 8))
    ensures Gives(ReadDims(s, p, pl), [0, m], p + 12)
    ensures Gives(ReadInt(s, p + 12), 0, p + 16) && Gives(ReadInt(s, p + 16), n, p + 20)
  {
    assert [m, n][1..] == [n] && [n][1..] == [];
    assert LEs([n], 8) == LE(n, 8);
    AtConcat(s, p, LE(2, 8), LEs([m, n], 8));
    AtConcat(s, p + 8, LE(m, 8), LE(n, 8));
    HalvesRead(s, p, 2, pl);
    HalvesRead(s, p + 8, m, pl);
    HalvesRead(s, p + 16, n, pl);
    UintsNext(s, p + 8, 1, m, p + 12, [], p + 12, pl);
    assert [m] + [] == [m] && [0] + [m] == [0, m];
    UintsNext(s, p + 4, 2, 0, p + 8, [m], p + 12, pl);
  }

  lemma {:induction false} UintsNext(s: bytes, p: nat, n: nat, x: nat, q: nat, xs: seq<nat>, e: nat, pl: Platform)
    requires n != 0 && p <= |s| && q <= |s|
    requires Gives(ReadUint(s, p, pl), x, q) && Gives(ReadUints(s, q, n - 1, pl), xs, e)
    ensures Gives(ReadUints(s, p, n, pl), [x] + xs, e)
  {
  }

  /** Values of two dimensions below 2^32: an array is refused; a cell or a struct
      array comes back empty, with its first dimension as the second and no
      fields. */
  lemma {:induction false} TwoDimensional(v: Value, s: bytes, p: nat, pl: Platform)
    requires pl.field == 4 && (v.Arr? || v.Cell? || v.Struct?) && Shape(v) && |v.dims| == 2
    requires v.dims[0] < TWO_32 && v.dims[1] < TWO_32 && p <= |s| && At(s, p, Encode(v, 8))
    ensures v.Arr? ==> DecodeValue(s, p, pl) == Err(BadArray)
    ensures v.Cell? ==> DecodeValue(s, p, pl).Ok? && DecodeValue(s, p, pl).value == Cell([0, v.dims[0]], [])
    ensures v.Struct? ==> DecodeValue(s, p, pl).Ok? && DecodeValue(s, p, pl).value == Struct([0, v.dims[0]], [], [])
  {
    var m, n := v.dims[0], v.dims[1];
    assert v.dims == [m, n];
    DimsFirst(v, s, p);
    TwoDimensionsRead(m, n, s, p + 1, pl);
    ZeroFirst([0, m]);
    match v
    case Arr(_, _, _, _) =>
      assert DecodeValue(s, p, pl) == DecodeArr(s, p + 1, pl);
    case Cell(_, _) =>
      ComposeCell([0, m], [], s, p, p + 13, p + 13, pl);
    case Struct(_, _, _) =>
      assert Gives(ReadStructHead(s, p + 1, pl), ([0, m], []), p + 17);
      ComposeStruct([0, m], [], [], s, p, p + 17, p + 17, pl);
  }

  // ---------- exactly what comes back ----------

  function Zeros(n: nat): seq<nat> {
    seq(n, _ => 0)
  }

  /** Cells without elements and struct arrays without elements or fields, all
      dimensions 0; sparse double matrices without columns or room for elements. */
  predicate Survivor(v: Value) {
    match v
    case Arr(_, _, _, _) => false
    case Sparse(rows, _, _, _, _, _, _) => rows < TWO_32 && v == Sparse(rows, 0, DOUBLE_CLASS, [0], [], [], None)
    case Cell(dims, _) => |dims| < TWO_32 && dims == Zeros(|dims|)
    case Struct(dims, names, _) => |dims| < TWO_32 && dims == Zeros(|dims|) && names == []
    case Other => false
  }

  ghost predicate ReadsBack(v: Value, s: bytes, p: nat, pl: Platform)
    requires p <= |s|
  {
    DecodeValue(s, p, pl).Ok? && DecodeValue(s, p, pl).value == Norm(v)
  }

  /** The low and the high half of any number written with 8 bytes. */
  lemma {:induction false} HalvesOf(s: bytes, p: nat, n: nat, pl: Platform)
    requires pl.field == 4 && At(s, p, LE(n, 8))
    ensures Gives(ReadUint(s, p, pl), n % TWO_32, p + 4)
    ensures Gives(ReadUint(s, p + 4, pl), n / TWO_32 % TWO_32, p + 8)
  {
    ByteOrder.EightDigits(n);
    ByteOrder.LowHalf(n / TWO_32);
    AtConcat(s, p, LE(n % TWO_32, 4), LE(n / TWO_32, 4));
    ReadUintAt(s, p, n % TWO_32, pl);
    ReadUintAt(s, p + 4, n / TWO_32 % TWO_32, pl);
  }

  lemma {:induction false} NumberAt(s: bytes, b: nat, ns: seq<nat>, j: nat)
    requires At(s, b, LEs(ns, 8)) && j < |ns|
    ensures At(s, b + 8 * j, LE(ns[j], 8))
    decreases j
  {
    AtConcat(s, b, LE(ns[0], 8), LEs(ns[1..], 8));
    if j != 0 {
      NumberAt(s, b + 8, ns[1..], j - 1);
    }
  }

  /** Both halves of a dimension 0, the words `2 * j` and `2 * j + 1` from `b` on. */
  lemma {:induction false} ZeroWords(s: bytes, b: nat, dims: seq<nat>, i: nat, q: nat, pl: Platform)
    requires pl.field == 4 && At(s, b, LEs(dims, 8)) && i < 2 * |dims| && dims[i / 2] == 0 && q == b + 4 * i
    ensures Gives(ReadUint(s, q, pl), 0, q + 4) && Gives(ReadInt(s, q), 0, q + 4)
  {
    NumberAt(s, b, dims, i / 2);
    HalvesRead(s, b + 8 * (i / 2), 0, pl);
    assert q == b + 8 * (i / 2) || q == b + 8 * (i / 2) + 4;
  }

  /** Number `i` of those read is the word at its place. */
  lemma {:induction false} UintAt(s: bytes, q: nat, n: nat, i: nat, pl: Platform)
    requires pl.field == 4 && q <= |s| && ReadUints(s, q, n, pl).Ok? && i < n
    ensures ReadUint(s, q + 4 * i, pl).Ok? && ReadUint(s, q + 4 * i, pl).value == ReadUints(s, q, n, pl).value[i]
    ensures ReadUints(s, q, n, pl).end == q + 4 * n
    decreases n
  {
    if i != 0 {
      UintAt(s, q + 4, n - 1, i - 1, pl);
    } else if n > 1 {
      UintAt(s, q + 4, n - 1, 0, pl);
    } else {
      assert ReadUints(s, q + 4, 0, pl) == Ok([], q + 4);
    }
  }

  /** If the dimensions read are those written, dimension `i` is half of an earlier
      one, and so on down to the first, which is 0. */
  lemma {:induction false} DimensionIsZero(dims: seq<nat>, i: nat, s: bytes, p: nat, pl: Platform)
    requires pl.field == 4 && 0 < |dims| < TWO_32 && At(s, p, Dims(dims, 8)) && i < |dims|
    requires ReadDims(s, p, pl).Ok? && ReadDims(s, p, pl).value == dims
    ensures dims[i] == 0
    decreases i
  {
    if i == 0 {
      FirstDimensionIsZero(dims, s, p, pl);
    } else {
      DimensionIsZero(dims, (i - 1) / 2, s, p, pl);
      AtConcat(s, p, LE(|dims|, 8), LEs(dims, 8));
      HalvesRead(s, p, |dims|, pl);
      UintAt(s, p + 4, |dims|, i, pl);
      ZeroWords(s, p + 8, dims, i - 1, p + 4 + 4 * i, pl);
    }
  }

  lemma {:induction false} DimensionsAreZero(dims: seq<nat>, s: bytes, p: nat, pl: Platform)
    requires pl.field == 4 && 0 < |dims| < TWO_32 && At(s, p, Dims(dims, 8))
    requires ReadDims(s, p, pl).Ok? && ReadDims(s, p, pl).value == dims
    ensures dims == Zeros(|dims|)
  {
    forall i | 0 <= i < |dims|
      ensures dims[i] == 0
    {
      DimensionIsZero(dims, i, s, p, pl);
    }
  }

  lemma {:induction false} ZerosRead(s: bytes, q: nat, n: nat, pl: Platform)
    requires pl.field == 4 && q + 4 * n <= |s|
    requires forall i :: 0 <= i < n ==> Gives(ReadUint(s, q + 4 * i, pl), 0, q + 4 * i + 4)
    ensures Gives(ReadUints(s, q, n, pl), Zeros(n), q + 4 * n)
    decreases n
  {
    if n == 0 {
      assert Zeros(0) == [];
    } else {
      forall i | 0 <= i < n - 1
        ensures Gives(ReadUint(s, (q + 4) + 4 * i, pl), 0, (q + 4) + 4 * i + 4)
      {
        assert Gives(ReadUint(s, q + 4 * (i + 1), pl), 0, q + 4 * (i + 1) + 4);
      }
      assert Gives(ReadUint(s, q + 4 * 0, pl), 0, q + 4 * 0 + 4);
      ZerosRead(s, q + 4, n - 1, pl);
      UintsNext(s, q, n, 0, q + 4, Zeros(n - 1), q + 4 * n, pl);
      assert Zeros(n) == [0] + Zeros(n - 1);
    }
  }

  /** Dimensions 0 are read as they are, and the word after them is 0. */
  lemma {:induction false} ZeroDimensionsRead(dims: seq<nat>, s: bytes, p: nat, pl: Platform) returns (q: nat)
    requires pl.field == 4 && 1 < |dims| < TWO_32 && dims == Zeros(|dims|) && At(s, p, Dims(dims, 8))
    ensures Gives(ReadDims(s, p, pl), dims, q) && Gives(ReadInt(s, q), 0, q + 4) && q + 4 <= |s|
  {
    var n := |dims|;
    q := p + 4 + 4 * n;
    AtConcat(s, p, LE(n, 8), LEs(dims, 8));
    HalvesRead(s, p, n, pl);
    ZeroWords(s, p + 8, dims, n - 1, q, pl);
    forall i | 0 <= i < n
      ensures Gives(ReadUint(s, (p + 4) + 4 * i, pl), 0, (p + 4) + 4 * i + 4)
    {
      if i != 0 {
        ZeroWords(s, p + 8, dims, i - 1, (p + 4) + 4 * i, pl);
      }
    }
    ZerosRead(s, p + 4, n, pl);
  }

  lemma {:induction false} DimensionCount(dims: seq<nat>, s: bytes, p: nat, pl: Platform)
    requires pl.field == 4 && At(s, p, Dims(dims, 8)) && ReadDims(s, p, pl).Ok?
    ensures |ReadDims(s, p, pl).value| == |dims| % TWO_32
  {
    AtConcat(s, p, LE(|dims|, 8), LEs(dims, 8));
    HalvesOf(s, p, |dims|, pl);
  }

  lemma {:induction false} TrimmedSame(dims: seq<nat>)
    ensures |TrimDims(dims)| == |dims| ==> TrimDims(dims) == dims
  {
  }

  lemma {:induction false} DimensionsMatch(v: Value, s: bytes, p: nat, pl: Platform)
    requires (v.Arr? || v.Cell? || v.Struct?) && p < |s| && s[p] == Encode(v, 8)[0] && ReadsBack(v, s, p, pl)
    ensures ReadDims(s, p + 1, pl).Ok? && TrimDims(ReadDims(s, p + 1, pl).value) == v.dims
  {
    DimensionsOfDecoded(s, p, pl);
  }

  /** Dimensions that were read as they had been written are all 0. */
  lemma {:induction false} MatchingDimensions(dims: seq<nat>, s: bytes, p: nat, pl: Platform)
    requires pl.field == 4 && dims != [] && At(s, p, Dims(dims, 8))
    requires ReadDims(s, p, pl).Ok? && TrimDims(ReadDims(s, p, pl).value) == dims
    ensures |dims| < TWO_32 && dims == Zeros(|dims|)
  {
    DimensionCount(dims, s, p, pl);
    TrimmedSame(ReadDims(s, p, pl).value);
    DimensionsAreZero(dims, s, p, pl);
  }

  lemma {:induction false} DimensionsBack(v: Value, s: bytes, p: nat, pl: Platform)
    requires pl.field == 4 && (v.Arr? || v.Cell? || v.Struct?) && Shape(v) && p <= |s| && At(s, p, Encode(v, 8))
    requires ReadsBack(v, s, p, pl)
    ensures |v.dims| < TWO_32 && v.dims == Zeros(|v.dims|)
  {
    DimsFirst(v, s, p);
    DimensionsMatch(v, s, p, pl);
    MatchingDimensions(v.dims, s, p + 1, pl);
  }

  /** What is made of dimensions that are all 0. */
  lemma {:induction false} ZeroDimensioned(v: Value, s: bytes, p: nat, pl: Platform)
    requires pl.field == 4 && (v.Arr? || v.Cell? || v.Struct?) && Shape(v) && p <= |s| && At(s, p, Encode(v, 8))
    requires |v.dims| < TWO_32 && v.dims == Zeros(|v.dims|)
    ensures v.Arr? ==> DecodeValue(s, p, pl).Err?
    ensures v.Cell? ==> DecodeValue(s, p, pl).Ok? && DecodeValue(s, p, pl).value == Cell(v.dims, [])
    ensures v.Struct? ==> DecodeValue(s, p, pl).Ok? && DecodeValue(s, p, pl).value == Struct(v.dims, [], [])
  {
    DimsFirst(v, s, p);
    ZeroFirst(v.dims);
    var q := ZeroDimensionsRead(v.dims, s, p + 1, pl);
    match v
    case Arr(_, _, _, _) =>
      assert DecodeValue(s, p, pl) == DecodeArr(s, p + 1, pl);
    case Cell(_, _) =>
      ComposeCell(v.dims, [], s, p, q, q, pl);
    case Struct(_, _, _) =>
      assert Gives(ReadStructHead(s, p + 1, pl), (v.dims, []), q + 4);
      ComposeStruct(v.dims, [], [], s, p, q + 4, q + 4, pl);
  }

  lemma {:induction false} NoElements(v: Value)
    requires (v.Cell? || v.Struct?) && Shape(v) && v.dims == Zeros(|v.dims|)
    ensures v.elems == [] && Norm(v) == v
  {
    ZeroFirst(v.dims);
  }

  lemma {:induction false} DimensionedSurvivors(v: Value, s: bytes, p: nat, pl: Platform)
    requires pl.field == 4 && (v.Arr? || v.Cell? || v.Struct?) && Shape(v) && p <= |s| && At(s, p, Encode(v, 8))
    ensures ReadsBack(v, s, p, pl) <==> Survivor(v)
  {
    if ReadsBack(v, s, p, pl) {
      DimensionsBack(v, s, p, pl);
    }
    if |v.dims| < TWO_32 && v.dims == Zeros(|v.dims|) {
      ZeroDimensioned(v, s, p, pl);
      if !v.Arr? {
        NoElements(v);
      }
    }
  }

  // ---------- sparse matrices ----------

  lemma {:induction false} CountsAt(v: Value, s: bytes, p: nat)
    requires v.Sparse? && At(s, p, Encode(v, 8))
    ensures p < |s| && s[p] == ID_SPARSE
    ensures At(s, p + 1, LE(v.rows, 8)) && At(s, p + 9, LE(v.cols, 8)) && At(s, p + 17, LE(|v.ir|, 8))
  {
    var q, q1, q2 := SparseLayout(v, s, p, p + 25, 8);
    CountsSize(v.rows, v.cols, |v.ir|, 8);
    AtConcat(s, p + 1, LE(v.rows, 8), LE(v.cols, 8) + LE(|v.ir|, 8));
    AtConcat(s, p + 9, LE(v.cols, 8), LE(|v.ir|, 8));
  }

  /** The counts of a sparse matrix that was read are the first three words. */
  lemma {:induction false} CountsOfDecoded(s: bytes, p: nat, pl: Platform)
    requires pl.field == 4 && p < |s| && s[p] == ID_SPARSE && DecodeValue(s, p, pl).Ok?
    ensures ReadUint(s, p + 1, pl).Ok? && ReadUint(s, p + 5, pl).Ok? && ReadUint(s, p + 9, pl).Ok?
    ensures var v := DecodeValue(s, p, pl).value;
            && v.Sparse? && v.rows == ReadUint(s, p + 1, pl).value && v.cols == ReadUint(s, p + 5, pl).value
            && |v.ir| == ReadUint(s, p + 9, pl).value
  {
    assert DecodeValue(s, p, pl) == DecodeSparse(s, p + 1, pl);
  }

  /** No columns and no elements: the words after the number of rows are all 0. */
  lemma {:induction false} ZeroCountsRead(v: Value, s: bytes, p: nat, pl: Platform)
    requires pl.field == 4 && v.Sparse? && v.rows < TWO_32 && v.cols == 0 && v.ir == [] && At(s, p, Encode(v, 8))
    ensures p < |s| && s[p] == ID_SPARSE && p + 25 <= |s|
    ensures Gives(ReadSparseHead(s, p + 1, pl), SparseHead(v.rows, 0, 0, 0, 0), p + 21)
    ensures Gives(ReadUint(s, p + 21, pl), 0, p + 25)
  {
    CountsAt(v, s, p);
    HalvesRead(s, p + 1, v.rows, pl);
    HalvesRead(s, p + 9, 0, pl);
    HalvesRead(s, p + 17, 0, pl);
  }

  lemma {:induction false} ZeroBodyRead(rows: nat, s: bytes, q: nat, pl: Platform)
    requires pl.field == 4 && q + 4 <= |s| && Gives(ReadUint(s, q, pl), 0, q + 4)
    ensures Gives(SparseBody(s, q, SparseHead(rows, 0, 0, 0, 0), pl),
                  Sparse(rows, 0, DOUBLE_CLASS, [0], [], [], None), q + 4)
  {
    assert ReadUints(s, q + 4, 0, pl) == Ok([], q + 4);
    UintsNext(s, q, 1, 0, q + 4, [], q + 4, pl);
    assert [0] + [] == [0];
    assert Gives(ReadUints(s, q, 1, pl), [0], q + 4);
    assert Gives(ReadData(s, q + 4, 0, false), ([], None), q + 4);
  }

  lemma {:induction false} CountsMatch(v: Value, s: bytes, p: nat, pl: Platform)
    requires pl.field == 4 && v.Sparse? && p < |s| && s[p] == ID_SPARSE && ReadsBack(v, s, p, pl)
    ensures ReadUint(s, p + 1, pl).Ok? && ReadUint(s, p + 1, pl).value == v.rows
    ensures ReadUint(s, p + 5, pl).Ok? && ReadUint(s, p + 5, pl).value == v.cols
    ensures ReadUint(s, p + 9, pl).Ok? && ReadUint(s, p + 9, pl).value == |v.ir|
  {
    CountsOfDecoded(s, p, pl);
  }

  lemma {:induction false} CountsBack(v: Value, s: bytes, p: nat, pl: Platform)
    requires pl.field == 4 && v.Sparse? && p <= |s| && At(s, p, Encode(v, 8)) && ReadsBack(v, s, p, pl)
    ensures v.rows < TWO_32 && v.cols == 0 && v.ir == []
  {
    CountsAt(v, s, p);
    CountsMatch(v, s, p, pl);
    HalvesOf(s, p + 1, v.rows, pl);
    HalvesOf(s, p + 9, v.cols, pl);
  }

  lemma {:induction false} ZeroCounts(v: Value, s: bytes, p: nat, pl: Platform)
    requires pl.field == 4 && v.Sparse? && p <= |s| && At(s, p, Encode(v, 8))
    requires v.rows < TWO_32 && v.cols == 0 && v.ir == []
    ensures Gives(DecodeValue(s, p, pl), Sparse(v.rows, 0, DOUBLE_CLASS, [0], [], [], None), p + 25)
  {
    ZeroCountsRead(v, s, p, pl);
    ZeroBodyRead(v.rows, s, p + 21, pl);
    assert DecodeValue(s, p, pl) == DecodeSparse(s, p + 1, pl);
  }

  lemma {:induction false} SparseSurvivors(v: Value, s: bytes, p: nat, pl: Platform)
    requires pl.field == 4 && v.Sparse? && p <= |s| && At(s, p, Encode(v, 8))
    ensures ReadsBack(v, s, p, pl) <==> Survivor(v)
  {
    if ReadsBack(v, s, p, pl) {
      CountsBack(v, s, p, pl);
    }
    if v.rows < TWO_32 && v.cols == 0 && v.ir == [] {
      ZeroCounts(v, s, p, pl);
    }
  }

  /** Exactly what comes back, of all values there are. */
  lemma {:induction false} OnlyEmptyComesBack(v: Value, s: bytes, p: nat, pl: Platform)
    requires pl.field == 4 && Shape(v) && p <= |s| && At(s, p, Encode(v, 8))
    ensures ReadsBack(v, s, p, pl) <==> Survivor(v)
  {
    match v
    case Sparse(_, _, _, _, _, _, _) => SparseSurvivors(v, s, p, pl);
    case Other =>
      if DecodeValue(s, p, pl).Ok? {
        CodecTheorems.DecodedIsWellFormed(s, p, pl);
      }
    case _ => DimensionedSurvivors(v, s, p, pl);
  }

  // ---------- whole blobs ----------

  lemma {:induction false} EncodeLonger(v: Value, w: nat)
    requires v.Arr?
    ensures |Encode(v, w)| > |v.re|
  {
  }

  lemma {:induction false} TaggedReads(z: Zlib, mem: bytes, length: nat, pl: Platform)
    requires HasTag(mem, MATLAB_ID) && |mem| > 4 && KnownTag(mem[4])
    ensures var d := DecodeValue(mem, 4, pl);
            Deserialize(z, mem, length, pl) ==
              if d.Ok? then Success(d.value) else if Raised(d.error) then Dump(mem, 0, length) else Failure(d.error)
  {
    assert mem[0] == 109;
  }

  lemma {:induction false} PlainBlobReads(z: Zlib, v: Value, after: bytes, length: nat, pl: Platform)
    returns (mem: bytes, d: Decoded<Value>)
    requires Supported(v)
    ensures mem == MATLAB_ID + Encode(v, 8) + after && |mem| >= 4 && At(mem, 4, Encode(v, 8))
    ensures d == DecodeValue(mem, 4, pl)
    ensures Deserialize(z, mem, length, pl) ==
              if d.Ok? then Success(d.value) else if Raised(d.error) then Dump(mem, 0, length) else Failure(d.error)
  {
    var e := Encode(v, 8);
    mem := MATLAB_ID + e + after;
    d := DecodeValue(mem, 4, pl);
    AtMiddle(MATLAB_ID, e, after);
    EncodeTagged(v, 8);
    assert mem[4] == e[0] && HasTag(mem, MATLAB_ID);
    TaggedReads(z, mem, length, pl);
  }

  /** The same of a blob that was not compressed, read to its own length: if the
      readers raise an error, what comes back is longer than the value. */
  lemma {:induction false} PlainBlobComesBack(z: Zlib, v: Value, after: bytes, pl: Platform)
    requires pl.field == 4 && Shape(v) && Supported(v)
    ensures var blob := MATLAB_ID + Encode(v, 8);
            Deserialize(z, blob + after, |blob|, pl) == Success(Norm(v)) <==> Survivor(v)
  {
    var blob := MATLAB_ID + Encode(v, 8);
    var mem, d := PlainBlobReads(z, v, after, |blob|, pl);
    OnlyEmptyComesBack(v, mem, 4, pl);
    if v.Arr? {
      EncodeLonger(v, 8);
    }
  }

  /** A compressed blob is not recognised at all: its length is read short, zlib
      is given four zero bytes first, and the blob comes back as bytes. */
  lemma {:induction false} CompressedBlobComesBack(z: Zlib, b: bytes, after: bytes, pl: Platform)
    requires pl.field == 4 && HeaderLaw(z) && |b| < TWO_32
    ensures Deserialize(z, Wrap(z, b, 8) + after, |Wrap(z, b, 8)|, pl) == Success(ByteColumn(Wrap(z, b, 8)))
  {
    var blob := Wrap(z, b, 8);
    var mem := blob + after;
    var n, rest := LE(|b|, 8), z.compress(b) + after;
    assert mem == ZLIB_ID + n + rest;
    AtMiddle(ZLIB_ID, n, rest);
    HalvesRead(mem, 6, |b|, pl);
    ByteOrder.EightDigits(|b|);
    AtConcat(mem, 6, LE(|b|, 4), LE(0, 4));
    LESplit(0, 4);
    SubIsSlice(mem, 10, 4);
    assert mem[10] == mem[10..14][0] == 0;
    var window := Window(mem, 10, |blob|);
    assert window[0] == 0;
    assert HasTag(mem, ZLIB_ID) && mem[0] == 90;
    assert mem[0..|blob|] == blob;
  }
}
