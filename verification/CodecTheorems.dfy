/** What follows from the round trip, and what holds of any bytes at all. */
module CodecTheorems {
  import opened Bytes
  import opened MatlabValue
  import opened Encoding
  import opened Decoding
  import opened CodecProofs

  // ---------- the encoding determines the value ----------

  /** NULL elements are written as the empty double array they read back as. */
  lemma {:induction false} EncodeNorm(v: Value, w: nat)
    ensures Encode(Norm(v), w) == Encode(v, w)
    decreases v, 1
  {
    match v
    case Cell(_, es) => ChildrenNorm(es, w);
    case Struct(_, _, es) => ChildrenNorm(es, w);
    case _ =>
  }

  lemma {:induction false} ChildrenNorm(es: seq<Slot>, w: nat)
    ensures Children(NormAll(es), w) == Children(es, w)
    decreases es, 0
  {
    if es != [] {
      SlotNorm(es[0], w);
      ChildrenNorm(es[1..], w);
      assert NormAll(es)[0] == Full(NormSlot(es[0])) && NormAll(es)[1..] == NormAll(es[1..]);
    }
  }

  lemma {:induction false} SlotNorm(e: Slot, w: nat)
    ensures Encode(NormSlot(e), w) == EncodeSlot(e, w)
    decreases e, 2
  {
    match e
    case Null =>
    case Full(v) => EncodeNorm(v, w);
  }

  /** No encoding is a proper prefix of another, and two values share an
      encoding exactly when they differ only in NULL elements. */
  lemma {:induction false} PrefixFree(v1: Value, r1: bytes, v2: Value, r2: bytes, pl: Platform)
    requires Storable(v1, pl) && Storable(v2, pl)
    ensures Encode(v1, pl.field) + r1 == Encode(v2, pl.field) + r2 <==> Norm(v1) == Norm(v2) && r1 == r2
  {
    var s1, s2 := Encode(v1, pl.field) + r1, Encode(v2, pl.field) + r2;
    if s1 == s2 {
      AtStart(Encode(v1, pl.field), r1);
      AtStart(Encode(v2, pl.field), r2);
      RoundTrip(v1, s1, 0, pl);
      RoundTrip(v2, s1, 0, pl);
      assert r1 == s1[|Encode(v1, pl.field)|..] && r2 == s1[|Encode(v2, pl.field)|..];
    }
    if Norm(v1) == Norm(v2) {
      EncodeNorm(v1, pl.field);
      EncodeNorm(v2, pl.field);
    }
  }

  lemma {:induction false} AtStart(a: bytes, b: bytes)
    ensures At(a + b, 0, a)
  {
    SubIsSlice(a + b, 0, |a|);
  }

  /** Length prefixes and cursors agree: element `k` of an encoded cell or struct
      starts after the ones before it, its decoder stops exactly where its prefix
      says, and that is where the next prefix is (or the elements end). */
  lemma {:induction false} CursorsAgree(es: seq<Slot>, k: nat, s: bytes, p: nat, pl: Platform)
    returns (n: nat, q: nat, c: nat, e: nat)
    requires k < |es| && StorableSlots(es, pl) && At(s, p, Children(es, pl.field))
    ensures q == p + |Children(es[..k], pl.field)| && e == p + |Children(es[..k + 1], pl.field)|
    ensures Gives(ReadUint(s, q, pl), n, c) && c <= |s| && e == c + n
    ensures Gives(DecodeValue(s, c, pl), NormSlot(es[k]), e)
    decreases es
  {
    var next;
    n, c, next := RoundTripFirst(es, s, p, pl);
    FirstPrefix(es, k, pl.field);
    if k == 0 {
      q, e := p, next;
    } else {
      n, q, c, e := CursorsAgree(es[1..], k - 1, s, next, pl);
    }
  }

  lemma {:induction false} FirstPrefix(es: seq<Slot>, k: nat, w: nat)
    requires k < |es|
    ensures |Children(es[..k + 1], w)| == |Children(es, w)| - |Children(es[1..], w)| + |Children(es[1..][..k], w)|
    ensures k != 0 ==>
      |Children(es[..k], w)| == |Children(es, w)| - |Children(es[1..], w)| + |Children(es[1..][..k - 1], w)|
    ensures k == 0 ==> Children(es[..k], w) == []
  {
    assert es[..k + 1][1..] == es[1..][..k];
    if k != 0 {
      assert es[..k][1..] == es[1..][..k - 1];
    }
  }

  /** The 4-byte and the 8-byte layout of a value read back to the same tree. */
  lemma {:induction false} WidthsAgree(v: Value, r4: bytes, r8: bytes, size: width)
    requires Storable(v, Platform(4, size)) && Storable(v, Platform(8, size))
    ensures var d4 := DecodeValue(Encode(v, 4) + r4, 0, Platform(4, size));
            var d8 := DecodeValue(Encode(v, 8) + r8, 0, Platform(8, size));
            d4.Ok? && d8.Ok? && d4.value == d8.value && d4.end == |Encode(v, 4)| && d8.end == |Encode(v, 8)|
  {
    AtStart(Encode(v, 4), r4);
    AtStart(Encode(v, 8), r8);
    RoundTrip(v, Encode(v, 4) + r4, 0, Platform(4, size));
    RoundTrip(v, Encode(v, 8) + r8, 0, Platform(8, size));
  }

  // ---------- stored lengths: the size check ----------

  /** Whatever numbers are stored, reading them delivers all of them unchanged
      if the platform's size type can hold them all, and fails otherwise. */
  lemma {:induction false} SizeCheck(s: bytes, p: nat, ns: seq<nat>, pl: Platform)
    requires p <= |s| && At(s, p, LEs(ns, pl.field))
    requires forall k :: 0 <= k < |ns| ==> ns[k] < Capacity(pl.field)
    ensures if forall k :: 0 <= k < |ns| ==> ns[k] < Capacity(pl.size)
            then Gives(ReadUints(s, p, |ns|, pl), ns, p + |LEs(ns, pl.field)|)
            else ReadUints(s, p, |ns|, pl) == Err(SizeLimit)
    decreases ns
  {
    if ns != [] {
      var w := pl.field;
      AtConcat(s, p, LE(ns[0], w), LEs(ns[1..], w));
      Pow256Values();
      LoadAt(s, p, ns[0], w);
      SizeCheck(s, p + w, ns[1..], pl);
      assert ns == [ns[0]] + ns[1..];
    }
  }

  /** Any numbers read are the ones stored there, and fit. */
  lemma {:induction false} ReadUintsSound(s: bytes, p: nat, n: nat, pl: Platform)
    requires p <= |s| && ReadUints(s, p, n, pl).Ok?
    ensures NumbersFit(ReadUints(s, p, n, pl).value, pl)
    ensures At(s, p, LEs(ReadUints(s, p, n, pl).value, pl.field))
    ensures ReadUints(s, p, n, pl).end == p + |LEs(ReadUints(s, p, n, pl).value, pl.field)|
    decreases n
  {
    if n != 0 {
      var w := pl.field;
      var ns := ReadUints(s, p, n, pl).value;
      Pow256Values();
      AtLoad(s, p, w);
      ReadUintsSound(s, p + w, n - 1, pl);
      assert ns[1..] == ReadUints(s, p + w, n - 1, pl).value;
      AtConcat(s, p, LE(ns[0], w), LEs(ns[1..], w));
    }
  }

  // ---------- decoding any bytes ----------

  lemma {:induction false} ReadNamesValid(s: bytes, p: nat, n: nat)
    requires p <= |s| && ReadNames(s, p, n).Ok?
    ensures forall k :: 0 <= k < n ==> ValidName(ReadNames(s, p, n).value[k])
    decreases n
  {
    if n != 0 {
      var e := StrEnd(s, p).value;
      StrEndFirst(s, p);
      SubIsSlice(s, p, e - p);
      ReadNamesValid(s, e + 1, n - 1);
    }
  }

  lemma {:induction false} StrEndFirst(s: bytes, p: nat)
    requires p <= |s| && StrEnd(s, p).Some?
    ensures s[StrEnd(s, p).value] == 0 && forall k :: p <= k < StrEnd(s, p).value ==> s[k] != 0
    decreases |s| - p
  {
    if s[p] != 0 {
      StrEndFirst(s, p + 1);
    }
  }

  /** Whatever the bytes, a value the decoder delivers is one MATLAB could
      hold, has no NULL elements left, and can be serialized again. */
  lemma {:induction false} DecodedIsWellFormed(s: bytes, p: nat, pl: Platform)
    requires p <= |s| && DecodeValue(s, p, pl).Ok?
    ensures Shape(DecodeValue(s, p, pl).value) && Supported(DecodeValue(s, p, pl).value)
    ensures Norm(DecodeValue(s, p, pl).value) == DecodeValue(s, p, pl).value
    decreases |s| - p, 0
  {
    if s[p] == ID_ARRAY {
      DecodedArr(s, p + 1, pl);
    } else if s[p] == ID_SPARSE {
      DecodedSparse(s, p + 1, pl);
    } else if s[p] == ID_STRUCT {
      DecodedStruct(s, p + 1, pl);
    } else {
      DecodedCell(s, p + 1, pl);
    }
  }

  lemma {:induction false} DecodedArr(s: bytes, p: nat, pl: Platform)
    requires DecodeArr(s, p, pl).Ok?
    ensures DecodeArr(s, p, pl).value.Arr? && Shape(DecodeArr(s, p, pl).value)
  {
    TrimKeepsNumel(ReadDims(s, p, pl).value);
  }

  lemma {:induction false} DecodedSparse(s: bytes, p: nat, pl: Platform)
    requires DecodeSparse(s, p, pl).Ok?
    ensures DecodeSparse(s, p, pl).value.Sparse? && Shape(DecodeSparse(s, p, pl).value)
  {
  }

  lemma {:induction false} DecodedCell(s: bytes, p: nat, pl: Platform)
    requires p <= |s| && DecodeCell(s, p, pl).Ok?
    ensures DecodeCell(s, p, pl).value.Cell? && Shape(DecodeCell(s, p, pl).value)
    ensures Supported(DecodeCell(s, p, pl).value) && Norm(DecodeCell(s, p, pl).value) == DecodeCell(s, p, pl).value
    decreases |s| - p, 0
  {
    var head := ReadCellHead(s, p, pl);
    TrimKeepsNumel(head.value);
    DecodedChildren(s, head.end, Numel(head.value), pl);
  }

  lemma {:induction false} DecodedStruct(s: bytes, p: nat, pl: Platform)
    requires p <= |s| && DecodeStruct(s, p, pl).Ok?
    ensures DecodeStruct(s, p, pl).value.Struct? && Shape(DecodeStruct(s, p, pl).value)
    ensures Supported(DecodeStruct(s, p, pl).value)
    ensures Norm(DecodeStruct(s, p, pl).value) == DecodeStruct(s, p, pl).value
    decreases |s| - p, 0
  {
    var head := ReadStructHead(s, p, pl);
    TrimKeepsNumel(head.value.0);
    StructHeadNames(s, p, pl);
    DecodedChildren(s, head.end, Numel(head.value.0) * |head.value.1|, pl);
  }

  lemma {:induction false} StructHeadNames(s: bytes, p: nat, pl: Platform)
    requires ReadStructHead(s, p, pl).Ok?
    ensures |ReadStructHead(s, p, pl).value.1| < INT_LIMIT
    ensures forall k :: 0 <= k < |ReadStructHead(s, p, pl).value.1|
                    ==> ValidName(ReadStructHead(s, p, pl).value.1[k])
  {
    var dims := ReadDims(s, p, pl);
    var n := ReadInt(s, dims.end);
    ReadNamesValid(s, n.end, n.value);
  }

  /** Each of the `n` children takes at least 4 bytes of memory. */
  lemma {:induction false} ChildrenTakeSpace(s: bytes, p: nat, n: nat, pl: Platform)
    requires p <= |s| && DecodeChildren(s, p, n, pl).Ok?
    ensures p + 4 * n <= |s|
    decreases n
  {
    if n != 0 {
      var len := ReadUint(s, p, pl);
      ChildrenTakeSpace(s, len.end + len.value, n - 1, pl);
    }
  }

  lemma {:induction false} FirstChild(s: bytes, p: nat, n: nat, pl: Platform)
    returns (c: nat, q: nat, v: Value, rest: seq<Slot>)
    requires p <= |s| && n != 0 && DecodeChildren(s, p, n, pl).Ok?
    ensures p < c <= q <= |s| && DecodeValue(s, c, pl).Ok? && DecodeValue(s, c, pl).value == v
    ensures DecodeChildren(s, q, n - 1, pl).Ok? && DecodeChildren(s, q, n - 1, pl).value == rest
    ensures DecodeChildren(s, p, n, pl).value == [Full(v)] + rest
  {
    var len := ReadUint(s, p, pl);
    c, q := len.end, len.end + len.value;
    v, rest := DecodeValue(s, c, pl).value, DecodeChildren(s, q, n - 1, pl).value;
  }

  lemma {:induction false} DecodedChildren(s: bytes, p: nat, n: nat, pl: Platform)
    requires p <= |s| && DecodeChildren(s, p, n, pl).Ok?
    ensures Shapes(DecodeChildren(s, p, n, pl).value) && Supporteds(DecodeChildren(s, p, n, pl).value)
    ensures NormAll(DecodeChildren(s, p, n, pl).value) == DecodeChildren(s, p, n, pl).value
    decreases |s| - p, 1, n
  {
    if n != 0 {
      var c, q, v, rest := FirstChild(s, p, n, pl);
      DecodedIsWellFormed(s, c, pl);
      DecodedChildren(s, q, n - 1, pl);
      Prepend(v, rest);
    }
  }

  lemma {:induction false} Prepend(v: Value, rest: seq<Slot>)
    requires Shape(v) && Supported(v) && Norm(v) == v
    requires Shapes(rest) && Supporteds(rest) && NormAll(rest) == rest
    ensures Shapes([Full(v)] + rest) && Supporteds([Full(v)] + rest)
    ensures NormAll([Full(v)] + rest) == [Full(v)] + rest
  {
    assert ([Full(v)] + rest)[1..] == rest;
  }

  /** One trip is enough: writing out a value read from any bytes and reading it
      again changes nothing. */
  lemma {:induction false} SecondTripIsExact(s: bytes, p: nat, s': bytes, p': nat, pl: Platform)
    requires p <= |s| && DecodeValue(s, p, pl).Ok?
    requires Fits(DecodeValue(s, p, pl).value, pl)
    requires At(s', p', Encode(DecodeValue(s, p, pl).value, pl.field))
    ensures DecodeValue(s', p', pl).Ok? && DecodeValue(s', p', pl).value == DecodeValue(s, p, pl).value
  {
    DecodedIsWellFormed(s, p, pl);
    RoundTrip(DecodeValue(s, p, pl).value, s', p', pl);
  }
}
