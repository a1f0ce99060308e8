/** The decoder undoes the encoder, on every tree and before any suffix. */
module CodecProofs {
  import opened Bytes
  import opened MatlabValue
  import opened Encoding
  import opened Decoding

  // ---------- which values a platform can store ----------

  ghost predicate NumbersFit(ns: seq<nat>, pl: Platform) {
    forall k :: 0 <= k < |ns| ==> ns[k] < pl.Limit()
  }

  /** Every number and every length stored for `v` fits its field.  With 64-bit
      sizes this holds of every value in memory. */
  ghost predicate Fits(v: Value, pl: Platform) {
    match v
    case Arr(dims, c, re, im) => |dims| < pl.Limit() && NumbersFit(dims, pl)
    case Sparse(rows, cols, c, jc, ir, re, im) =>
      NumbersFit([rows, cols, |ir|], pl) && NumbersFit(jc, pl) && NumbersFit(ir, pl)
    case Cell(dims, es) => |dims| < pl.Limit() && NumbersFit(dims, pl) && SlotsFit(es, pl)
    case Struct(dims, names, es) => |dims| < pl.Limit() && NumbersFit(dims, pl) && SlotsFit(es, pl)
    case Other => true
  }

  ghost predicate SlotsFit(es: seq<Slot>, pl: Platform) {
    forall k :: 0 <= k < |es| ==> SlotFits(es[k], pl)
  }

  ghost predicate SlotFits(e: Slot, pl: Platform) {
    && |EncodeSlot(e, pl.field)| < pl.Limit()
    && match e
       case Null => true
       case Full(v) => Fits(v, pl)
  }

  /** The values the round trip is about. */
  ghost predicate Storable(v: Value, pl: Platform) {
    Shape(v) && Supported(v) && Fits(v, pl)
  }

  ghost predicate StorableSlots(es: seq<Slot>, pl: Platform) {
    Shapes(es) && Supporteds(es) && SlotsFit(es, pl)
  }

  // ---------- reading back each part ----------

  /** `r` is the value `x` with the cursor left at `e`. */
  ghost predicate Gives<T(!new)>(r: Decoded<T>, x: T, e: nat) {
    r.Ok? && r.value == x && r.end == e
  }

  lemma {:induction false} ReadUintAt(s: bytes, p: nat, n: nat, pl: Platform)
    requires n < pl.Limit() && At(s, p, LE(n, pl.field))
    ensures Gives(ReadUint(s, p, pl), n, p + pl.field)
  {
    Pow256Values();
    LoadAt(s, p, n, pl.field);
  }

  lemma {:induction false} ReadIntAt(s: bytes, p: nat, n: nat)
    requires n < 0x1_0000_0000 && At(s, p, LE(n, 4))
    ensures Gives(ReadInt(s, p), n, p + 4)
  {
    Pow256Values();
    LoadAt(s, p, n, 4);
  }

  lemma {:induction false} ReadUintsAt(s: bytes, p: nat, ns: seq<nat>, pl: Platform)
    requires p <= |s| && NumbersFit(ns, pl) && At(s, p, LEs(ns, pl.field))
    ensures Gives(ReadUints(s, p, |ns|, pl), ns, p + |LEs(ns, pl.field)|)
    decreases ns
  {
    if ns != [] {
      var w: nat := pl.field;
      AtConcat(s, p, LE(ns[0], w), LEs(ns[1..], w));
      ReadUintAt(s, p, ns[0], pl);
      ReadUintsAt(s, p + w, ns[1..], pl);
      assert ns == [ns[0]] + ns[1..];
    }
  }

  lemma {:induction false} ReadDimsAt(s: bytes, p: nat, dims: seq<nat>, pl: Platform)
    requires |dims| < pl.Limit() && NumbersFit(dims, pl) && At(s, p, Dims(dims, pl.field))
    ensures Gives(ReadDims(s, p, pl), dims, p + |Dims(dims, pl.field)|)
  {
    var w: nat := pl.field;
    AtConcat(s, p, LE(|dims|, w), LEs(dims, w));
    ReadUintAt(s, p, |dims|, pl);
    ReadUintsAt(s, p + w, dims, pl);
  }

  lemma {:induction false} StrEndAt(s: bytes, p: nat, q: nat)
    requires p <= q < |s| && s[q] == 0 && 0 !in s[p..q]
    ensures StrEnd(s, p) == Some(q)
    decreases q - p
  {
    if p < q {
      assert s[p] == s[p..q][0];
      assert s[p + 1..q] == s[p..q][1..];
      StrEndAt(s, p + 1, q);
    }
  }

  lemma {:induction false} NameAt(s: bytes, p: nat, name: bytes, rest: bytes)
    requires ValidName(name) && At(s, p, name + [0] + rest)
    ensures p + |name| < |s| && StrEnd(s, p) == Some(p + |name|) && Sub(s, p, |name|) == name
    ensures At(s, p + |name| + 1, rest)
  {
    AtConcat3(s, p, name, [0], rest);
    AtByte(s, p + |name|, 0);
    SubIsSlice(s, p, |name|);
    assert s[p..p + |name|] == name;
    StrEndAt(s, p, p + |name|);
  }

  lemma {:induction false} ReadNamesAt(s: bytes, p: nat, names: seq<bytes>)
    requires p <= |s| && At(s, p, Names(names))
    requires forall k :: 0 <= k < |names| ==> ValidName(names[k])
    ensures Gives(ReadNames(s, p, |names|), names, p + |Names(names)|)
    decreases names
  {
    if names != [] {
      var n := names[0];
      NameAt(s, p, n, Names(names[1..]));
      forall k | 0 <= k < |names[1..]|
        ensures ValidName(names[1..][k])
      {
        assert names[1..][k] == names[k + 1];
      }
      ReadNamesAt(s, p + |n| + 1, names[1..]);
      assert names == [n] + names[1..];
    }
  }

  lemma {:induction false} ReadDataAt(s: bytes, p: nat, re: bytes, im: Option<bytes>)
    requires ImagMatches(re, im) && At(s, p, Data(re, im))
    ensures Gives(ReadData(s, p, |re|, im.Some?), (re, im), p + |Data(re, im)|)
  {
    AtConcat(s, p, re, if im.Some? then im.value else []);
  }

  lemma {:induction false} ReadKindAt(s: bytes, p: nat, c: nat, im: Option<bytes>)
    requires c < 0x1_0000_0000 && At(s, p, Kind(c, im))
    ensures Gives(ReadInt(s, p), c, p + 4)
    ensures Gives(ReadInt(s, p + 4), if im.Some? then 1 else 0, p + 8)
  {
    AtConcat(s, p, LE(c, 4), LE(if im.Some? then 1 else 0, 4));
    ReadIntAt(s, p, c);
    ReadIntAt(s, p + 4, if im.Some? then 1 else 0);
  }

  // ---------- the head of each kind ----------

  lemma {:induction false} ArrReads(dims: seq<nat>, c: nat, re: bytes, im: Option<bytes>, s: bytes, p: nat,
                                    pl: Platform)
    requires ImagMatches(re, im) && c < 0x1_0000_0000 && |dims| < pl.Limit() && NumbersFit(dims, pl)
    requires At(s, p, [ID_ARRAY] + Dims(dims, pl.field) + Kind(c, im) + Data(re, im))
    ensures p < |s| && s[p] == ID_ARRAY
    ensures var q := p + 1 + |Dims(dims, pl.field)|;
            && Gives(ReadDims(s, p + 1, pl), dims, q)
            && Gives(ReadInt(s, q), c, q + 4)
            && Gives(ReadInt(s, q + 4), if im.Some? then 1 else 0, q + 8)
            && Gives(ReadData(s, q + 8, |re|, im.Some?), (re, im), q + 8 + |Data(re, im)|)
  {
    var d := Dims(dims, pl.field);
    AtConcat3(s, p, [ID_ARRAY] + d, Kind(c, im), Data(re, im));
    AtConcat(s, p, [ID_ARRAY], d);
    ReadDimsAt(s, p + 1, dims, pl);
    ReadKindAt(s, p + 1 + |d|, c, im);
    ReadDataAt(s, p + 9 + |d|, re, im);
    AtByte(s, p, ID_ARRAY);
  }

  lemma {:induction false} SparseLayout(v: Value, s: bytes, p: nat, q0: nat, w: nat) returns (q: nat, q1: nat, q2: nat)
    requires v.Sparse? && At(s, p, Encode(v, w)) && q0 == p + 1 + 3 * w
    ensures p < |s| && s[p] == ID_SPARSE && q <= |s| && q1 <= |s|
    ensures q == q0 + 8 && q1 == q + |LEs(v.jc, w)| && q2 == q1 + |LEs(v.ir, w)|
    ensures At(s, p + 1, LEs([v.rows, v.cols, |v.ir|], w)) && At(s, q0, Kind(v.classId, v.im))
    ensures At(s, q, LEs(v.jc, w)) && At(s, q1, LEs(v.ir, w)) && At(s, q2, Data(v.re, v.im))
    ensures p + |Encode(v, w)| == q2 + |Data(v.re, v.im)|
  {
    var counts := LEs([v.rows, v.cols, |v.ir|], w);
    CountsSize(v.rows, v.cols, |v.ir|, w);
    q := q0 + 8;
    q1 := q + |LEs(v.jc, w)|;
    q2 := q1 + |LEs(v.ir, w)|;
    var head := [ID_SPARSE] + counts + Kind(v.classId, v.im);
    AtConcat3(s, p, head + LEs(v.jc, w), LEs(v.ir, w), Data(v.re, v.im));
    AtConcat(s, p, head, LEs(v.jc, w));
    AtConcat3(s, p, [ID_SPARSE], counts, Kind(v.classId, v.im));
    AtByte(s, p, ID_SPARSE);
  }

  function HeadOf(v: Value): SparseHead
    requires v.Sparse?
  {
    SparseHead(v.rows, v.cols, |v.ir|, v.classId, if v.im.Some? then 1 else 0)
  }

  lemma {:induction false} SparseHeadReads(v: Value, s: bytes, p: nat, pl: Platform)
    requires v.Sparse? && v.classId < 0x1_0000_0000 && NumbersFit([v.rows, v.cols, |v.ir|], pl)
    requires At(s, p, LEs([v.rows, v.cols, |v.ir|], pl.field)) && At(s, p + 3 * pl.field, Kind(v.classId, v.im))
    ensures Gives(ReadSparseHead(s, p, pl), HeadOf(v), p + 3 * pl.field + 8)
  {
    ReadCountsAt(s, p, v.rows, v.cols, |v.ir|, pl);
    ReadKindAt(s, p + 3 * pl.field, v.classId, v.im);
  }

  lemma {:induction false} SparseReads(v: Value, s: bytes, p: nat, pl: Platform) returns (q: nat, q1: nat, q2: nat)
    requires v.Sparse? && v.classId < 0x1_0000_0000 && ImagMatches(v.re, v.im)
    requires NumbersFit([v.rows, v.cols, |v.ir|], pl) && NumbersFit(v.jc, pl) && NumbersFit(v.ir, pl)
    requires At(s, p, Encode(v, pl.field))
    ensures p < |s| && s[p] == ID_SPARSE && q <= |s| && q1 <= |s|
    ensures Gives(ReadSparseHead(s, p + 1, pl), HeadOf(v), q)
    ensures Gives(ReadUints(s, q, |v.jc|, pl), v.jc, q1) && Gives(ReadUints(s, q1, |v.ir|, pl), v.ir, q2)
    ensures Gives(ReadData(s, q2, |v.re|, v.im.Some?), (v.re, v.im), p + |Encode(v, pl.field)|)
  {
    var q0 := p + 1 + 3 * pl.field;
    q, q1, q2 := SparseLayout(v, s, p, q0, pl.field);
    SparseHeadReads(v, s, p + 1, pl);
    SparseTailReads(v, s, q, q1, q2, pl);
  }

  lemma {:induction false} SparseTailReads(v: Value, s: bytes, q: nat, q1: nat, q2: nat, pl: Platform)
    requires v.Sparse? && ImagMatches(v.re, v.im) && NumbersFit(v.jc, pl) && NumbersFit(v.ir, pl)
    requires q1 == q + |LEs(v.jc, pl.field)| && q2 == q1 + |LEs(v.ir, pl.field)|
    requires At(s, q, LEs(v.jc, pl.field)) && At(s, q1, LEs(v.ir, pl.field)) && At(s, q2, Data(v.re, v.im))
    ensures Gives(ReadUints(s, q, |v.jc|, pl), v.jc, q1) && Gives(ReadUints(s, q1, |v.ir|, pl), v.ir, q2)
    ensures Gives(ReadData(s, q2, |v.re|, v.im.Some?), (v.re, v.im), q2 + |Data(v.re, v.im)|)
  {
    ReadUintsAt(s, q, v.jc, pl);
    ReadUintsAt(s, q1, v.ir, pl);
    ReadDataAt(s, q2, v.re, v.im);
  }

  lemma {:induction false} CountsSize(a: nat, b: nat, c: nat, w: nat)
    ensures LEs([a, b, c], w) == LE(a, w) + (LE(b, w) + LE(c, w)) && |LEs([a, b, c], w)| == 3 * w
  {
    assert [a, b, c][1..] == [b, c] && [b, c][1..] == [c];
    assert LEs([c], w) == LE(c, w);
  }

  lemma {:induction false} ReadCountsAt(s: bytes, p: nat, a: nat, b: nat, c: nat, pl: Platform)
    requires NumbersFit([a, b, c], pl) && At(s, p, LEs([a, b, c], pl.field))
    ensures Gives(ReadUint(s, p, pl), a, p + pl.field)
    ensures Gives(ReadUint(s, p + pl.field, pl), b, p + 2 * pl.field)
    ensures Gives(ReadUint(s, p + 2 * pl.field, pl), c, p + 3 * pl.field)
  {
    var w: nat := pl.field;
    CountsSize(a, b, c, w);
    AtConcat(s, p, LE(a, w), LE(b, w) + LE(c, w));
    AtConcat(s, p + w, LE(b, w), LE(c, w));
    assert [a, b, c][0] < pl.Limit() && [a, b, c][1] < pl.Limit() && [a, b, c][2] < pl.Limit();
    ReadUintAt(s, p, a, pl);
    ReadUintAt(s, p + w, b, pl);
    ReadUintAt(s, p + 2 * w, c, pl);
  }

  lemma {:induction false} CellReads(dims: seq<nat>, body: bytes, s: bytes, p: nat, pl: Platform)
    requires |dims| >= 2 && Numel(dims) < INT_LIMIT && |dims| < pl.Limit() && NumbersFit(dims, pl)
    requires At(s, p, [ID_CELL] + Dims(dims, pl.field) + body)
    ensures p < |s| && s[p] == ID_CELL
    ensures var q := p + 1 + |Dims(dims, pl.field)|;
            q <= |s| && At(s, q, body) && Gives(ReadCellHead(s, p + 1, pl), dims, q)
  {
    AtConcat3(s, p, [ID_CELL], Dims(dims, pl.field), body);
    AtByte(s, p, ID_CELL);
    ReadDimsAt(s, p + 1, dims, pl);
  }

  lemma {:induction false} StructReads(dims: seq<nat>, names: seq<bytes>, body: bytes, s: bytes, p: nat, q: nat,
                                       pl: Platform)
    requires |dims| >= 2 && Numel(dims) < INT_LIMIT && |dims| < pl.Limit() && NumbersFit(dims, pl)
    requires |names| < INT_LIMIT && forall k :: 0 <= k < |names| ==> ValidName(names[k])
    requires At(s, p, [ID_STRUCT] + Dims(dims, pl.field) + LE(|names|, 4) + Names(names) + body)
    requires q == p + 5 + |Dims(dims, pl.field)| + |Names(names)|
    ensures p < |s| && s[p] == ID_STRUCT
    ensures q <= |s| && At(s, q, body) && Gives(ReadStructHead(s, p + 1, pl), (dims, names), q)
  {
    var d := Dims(dims, pl.field);
    AtConcat3(s, p, [ID_STRUCT] + d + LE(|names|, 4), Names(names), body);
    AtConcat3(s, p, [ID_STRUCT], d, LE(|names|, 4));
    AtByte(s, p, ID_STRUCT);
    ReadDimsAt(s, p + 1, dims, pl);
    ReadIntAt(s, p + 1 + |d|, |names|);
    ReadNamesAt(s, p + 5 + |d|, names);
  }

  // ---------- the round trip ----------

  lemma {:induction false} RoundTripArr(v: Value, s: bytes, p: nat, pl: Platform)
    requires v.Arr? && Shape(v) && Fits(v, pl) && At(s, p, Encode(v, pl.field))
    ensures Gives(DecodeValue(s, p, pl), v, p + |Encode(v, pl.field)|)
  {
    var q := p + 1 + |Dims(v.dims, pl.field)|;
    ArrReads(v.dims, v.classId, v.re, v.im, s, p, pl);
    ComposeArr(v, s, p, q, q + 8 + |Data(v.re, v.im)|, pl);
  }

  lemma {:induction false} ComposeArr(v: Value, s: bytes, p: nat, q: nat, e: nat, pl: Platform)
    requires v.Arr? && Shape(v) && p < |s| && s[p] == ID_ARRAY
    requires Gives(ReadDims(s, p + 1, pl), v.dims, q)
    requires Gives(ReadInt(s, q), v.classId, q + 4) && Gives(ReadInt(s, q + 4), if v.im.Some? then 1 else 0, q + 8)
    requires Gives(ReadData(s, q + 8, |v.re|, v.im.Some?), (v.re, v.im), e)
    ensures Gives(DecodeValue(s, p, pl), v, e)
  {
    assert DecodeValue(s, p, pl) == DecodeArr(s, p + 1, pl);
  }

  lemma {:induction false} RoundTripSparse(v: Value, s: bytes, p: nat, pl: Platform)
    requires v.Sparse? && Shape(v) && Fits(v, pl) && At(s, p, Encode(v, pl.field))
    ensures Gives(DecodeValue(s, p, pl), v, p + |Encode(v, pl.field)|)
  {
    var q, q1, q2 := SparseReads(v, s, p, pl);
    ComposeSparse(v, s, p, q, q1, q2, p + |Encode(v, pl.field)|, pl);
  }

  lemma {:induction false} ComposeSparse(v: Value, s: bytes, p: nat, q: nat, q1: nat, q2: nat, e: nat, pl: Platform)
    requires v.Sparse? && Shape(v) && p < |s| && s[p] == ID_SPARSE
    requires Gives(ReadSparseHead(s, p + 1, pl), HeadOf(v), q) && q <= |s|
    requires Gives(ReadUints(s, q, |v.jc|, pl), v.jc, q1) && q1 <= |s|
    requires Gives(ReadUints(s, q1, |v.ir|, pl), v.ir, q2)
    requires Gives(ReadData(s, q2, |v.re|, v.im.Some?), (v.re, v.im), e)
    ensures Gives(DecodeValue(s, p, pl), v, e)
  {
    assert DecodeValue(s, p, pl) == DecodeSparse(s, p + 1, pl);
  }

  lemma {:induction false} ComposeCell(dims: seq<nat>, es: seq<Slot>, s: bytes, p: nat, q: nat, e: nat, pl: Platform)
    requires p < |s| && s[p] == ID_CELL && Gives(ReadCellHead(s, p + 1, pl), dims, q) && q <= |s|
    requires Gives(DecodeChildren(s, q, Numel(dims), pl), es, e)
    ensures Gives(DecodeValue(s, p, pl), Cell(TrimDims(dims), es), e)
  {
    assert DecodeValue(s, p, pl) == DecodeCell(s, p + 1, pl);
  }

  lemma {:induction false} ComposeStruct(dims: seq<nat>, names: seq<bytes>, es: seq<Slot>,
                                         s: bytes, p: nat, q: nat, e: nat, pl: Platform)
    requires p < |s| && s[p] == ID_STRUCT && Gives(ReadStructHead(s, p + 1, pl), (dims, names), q) && q <= |s|
    requires Gives(DecodeChildren(s, q, Numel(dims) * |names|, pl), es, e)
    ensures Gives(DecodeValue(s, p, pl), Struct(TrimDims(dims), names, es), e)
  {
    assert DecodeValue(s, p, pl) == DecodeStruct(s, p + 1, pl);
  }

  lemma {:induction false} ComposeChildren(k: nat, s: bytes, p: nat, n: nat, c: nat, q: nat, v: Value, vs: seq<Slot>,
                                           e: nat, pl: Platform)
    requires k != 0 && Gives(ReadUint(s, p, pl), n, c) && q == c + n <= |s|
    requires Gives(DecodeValue(s, c, pl), v, q) && Gives(DecodeChildren(s, q, k - 1, pl), vs, e)
    ensures Gives(DecodeChildren(s, p, k, pl), [Full(v)] + vs, e)
  {
  }

  lemma {:induction false} ChildrenLayout(es: seq<Slot>, s: bytes, p: nat, w: nat) returns (n: nat, c: nat, q: nat)
    requires es != [] && At(s, p, Children(es, w))
    ensures n == |EncodeSlot(es[0], w)| && c == p + w && q == c + n <= |s|
    ensures At(s, p, LE(n, w)) && At(s, c, EncodeSlot(es[0], w)) && At(s, q, Children(es[1..], w))
    ensures p + |Children(es, w)| == q + |Children(es[1..], w)|
  {
    var b := EncodeSlot(es[0], w);
    AtConcat3(s, p, LE(|b|, w), b, Children(es[1..], w));
    n, c := |b|, p + w;
    q := c + n;
  }

  lemma {:induction false} StorableSplit(es: seq<Slot>, pl: Platform)
    requires es != [] && StorableSlots(es, pl)
    ensures SlotFits(es[0], pl) && ShapeSlot(es[0]) && SupportedSlot(es[0])
    ensures StorableSlots(es[1..], pl)
  {
  }

  /** Decoding an encoded value anywhere in memory gives the value back, NULL
      elements filled in, and stops exactly where the encoding ends. */
  lemma {:induction false} RoundTrip(v: Value, s: bytes, p: nat, pl: Platform)
    requires Storable(v, pl) && At(s, p, Encode(v, pl.field))
    ensures Gives(DecodeValue(s, p, pl), Norm(v), p + |Encode(v, pl.field)|)
    decreases v, 1
  {
    match v
    case Arr(_, _, _, _) => RoundTripArr(v, s, p, pl);
    case Sparse(_, _, _, _, _, _, _) => RoundTripSparse(v, s, p, pl);
    case Cell(_, es) =>
      var q := CellStart(v, s, p, pl);
      RoundTripChildren(es, |es|, s, q, pl);
      ComposeCell(v.dims, NormAll(es), s, p, q, q + |Children(es, pl.field)|, pl);
    case Struct(_, _, es) =>
      var q := StructStart(v, s, p, pl);
      RoundTripChildren(es, |es|, s, q, pl);
      ComposeStruct(v.dims, v.names, NormAll(es), s, p, q, q + |Children(es, pl.field)|, pl);
  }

  lemma {:induction false} CellStart(v: Value, s: bytes, p: nat, pl: Platform) returns (q: nat)
    requires v.Cell? && Storable(v, pl) && At(s, p, Encode(v, pl.field))
    ensures p < |s| && s[p] == ID_CELL && q <= |s| && At(s, q, Children(v.elems, pl.field))
    ensures p + |Encode(v, pl.field)| == q + |Children(v.elems, pl.field)|
    ensures Gives(ReadCellHead(s, p + 1, pl), v.dims, q)
  {
    q := p + 1 + |Dims(v.dims, pl.field)|;
    CellReads(v.dims, Children(v.elems, pl.field), s, p, pl);
  }

  lemma {:induction false} StructStart(v: Value, s: bytes, p: nat, pl: Platform) returns (q: nat)
    requires v.Struct? && Storable(v, pl) && At(s, p, Encode(v, pl.field))
    ensures p < |s| && s[p] == ID_STRUCT && q <= |s| && At(s, q, Children(v.elems, pl.field))
    ensures p + |Encode(v, pl.field)| == q + |Children(v.elems, pl.field)|
    ensures Gives(ReadStructHead(s, p + 1, pl), (v.dims, v.names), q)
  {
    q := p + 5 + |Dims(v.dims, pl.field)| + |Names(v.names)|;
    StructReads(v.dims, v.names, Children(v.elems, pl.field), s, p, q, pl);
  }

  lemma {:induction false} RoundTripChildren(es: seq<Slot>, k: nat, s: bytes, p: nat, pl: Platform)
    requires k == |es| && p <= |s| && StorableSlots(es, pl) && At(s, p, Children(es, pl.field))
    ensures Gives(DecodeChildren(s, p, k, pl), NormAll(es), p + |Children(es, pl.field)|)
    decreases es, 1
  {
    if k != 0 {
      var n, c, q := RoundTripFirst(es, s, p, pl);
      RoundTripChildren(es[1..], k - 1, s, q, pl);
      ComposeChildren(k, s, p, n, c, q, NormSlot(es[0]), NormAll(es[1..]), p + |Children(es, pl.field)|, pl);
    }
  }

  /** The first element: `c` is where it starts and `q` where it ends. */
  lemma {:induction false} RoundTripFirst(es: seq<Slot>, s: bytes, p: nat, pl: Platform)
    returns (n: nat, c: nat, q: nat)
    requires es != [] && StorableSlots(es, pl) && At(s, p, Children(es, pl.field))
    ensures Gives(ReadUint(s, p, pl), n, c) && c == p + pl.field && q == c + n <= |s|
    ensures Gives(DecodeValue(s, c, pl), NormSlot(es[0]), q)
    ensures StorableSlots(es[1..], pl) && At(s, q, Children(es[1..], pl.field))
    ensures p + |Children(es, pl.field)| == q + |Children(es[1..], pl.field)|
    decreases es, 0
  {
    n, c, q := ChildrenLayout(es, s, p, pl.field);
    StorableSplit(es, pl);
    ReadUintAt(s, p, n, pl);
    RoundTripSlot(es[0], s, c, pl);
  }

  lemma {:induction false} RoundTripSlot(e: Slot, s: bytes, p: nat, pl: Platform)
    requires SlotFits(e, pl) && ShapeSlot(e) && SupportedSlot(e) && At(s, p, EncodeSlot(e, pl.field))
    ensures Gives(DecodeValue(s, p, pl), NormSlot(e), p + |EncodeSlot(e, pl.field)|)
    decreases e, 2
  {
    match e
    case Null => EmptyShape(); RoundTripArr(EMPTY, s, p, pl);
    case Full(v) => RoundTrip(v, s, p, pl);
  }

  lemma {:induction false} EmptyShape()
    ensures Shape(EMPTY)
  {
    assert EMPTY.dims[..1] == [0] && Numel([0, 0]) == Numel([0]) * 0;
  }
}
