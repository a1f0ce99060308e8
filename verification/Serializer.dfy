/** The two-pass writers: compute the size, allocate, then write through a
    moving position.  Each is proved to leave exactly the encoding behind. */
module Serializer {
  import opened Bytes
  import opened MatlabValue
  import opened Encoding

  function Header(head: bool): bytes {
    if head then MATLAB_ID else []
  }

  // ---------- how the parts add up ----------

  lemma {:induction false} LEsSize(ns: seq<nat>, w: nat)
    ensures |LEs(ns, w)| == |ns| * w
  {
    if ns != [] {
      LEsSize(ns[1..], w);
    }
  }

  lemma {:induction false} LEsSnoc(ns: seq<nat>, i: nat, w: nat)
    requires i < |ns|
    ensures LEs(ns[..i + 1], w) == LEs(ns[..i], w) + LE(ns[i], w)
  {
    if i == 0 {
      assert ns[..1][1..] == [];
    } else {
      assert ns[..i + 1][1..] == ns[1..][..i] && ns[..i][1..] == ns[1..][..i - 1];
      LEsSnoc(ns[1..], i - 1, w);
      Assoc(LE(ns[0], w), LEs(ns[1..][..i - 1], w), LE(ns[i], w));
    }
  }

  lemma {:induction false} NamesSnoc(names: seq<bytes>, i: nat)
    requires i < |names|
    ensures Names(names[..i + 1]) == Names(names[..i]) + (names[i] + [0])
  {
    if i == 0 {
      assert names[..1][1..] == [];
    } else {
      assert names[..i + 1][1..] == names[1..][..i] && names[..i][1..] == names[1..][..i - 1];
      NamesSnoc(names[1..], i - 1);
      Assoc(names[0] + [0], Names(names[1..][..i - 1]), names[i] + [0]);
    }
  }

  lemma {:induction false} ChildrenSnoc(es: seq<Slot>, i: nat, w: nat)
    requires i < |es|
    ensures Children(es[..i + 1], w)
         == Children(es[..i], w) + (LE(|EncodeSlot(es[i], w)|, w) + EncodeSlot(es[i], w))
  {
    if i == 0 {
      assert es[..1][1..] == [];
    } else {
      assert es[..i + 1][1..] == es[1..][..i] && es[..i][1..] == es[1..][..i - 1];
      ChildrenSnoc(es[1..], i - 1, w);
      var first := LE(|EncodeSlot(es[0], w)|, w) + EncodeSlot(es[0], w);
      Assoc(first, Children(es[1..][..i - 1], w), LE(|EncodeSlot(es[i], w)|, w) + EncodeSlot(es[i], w));
    }
  }

  // ---------- the moving write position ----------

  /** `memcpy(p, src, |src|); p += |src|`.  `h` and `x` are the header and the
      part of the body already written. */
  method Put(buf: array<byte>, p: nat, src: bytes, ghost h: bytes, ghost x: bytes) returns (q: nat, ghost y: bytes)
    requires p + |src| <= buf.Length && buf[..p] == h + x
    modifies buf
    ensures q == p + |src| && y == x + src && buf[..q] == h + y
  {
    for i := 0 to |src|
      invariant buf[..p + i] == h + x + src[..i]
    {
      buf[p + i] := src[i];
    }
    q := p + |src|;
    y := x + src;
    assert src[..|src|] == src;
    Assoc(h, x, src);
  }

  /** WRITE_UINT64S. */
  method PutAll(buf: array<byte>, p: nat, ns: seq<nat>, ghost h: bytes, ghost x: bytes) returns (q: nat, ghost y: bytes)
    requires p + 8 * |ns| <= buf.Length && buf[..p] == h + x
    modifies buf
    ensures q == p + 8 * |ns| && y == x + LEs(ns, 8) && buf[..q] == h + y
  {
    q, y := p, x;
    for i := 0 to |ns|
      invariant q == p + 8 * i && y == x + LEs(ns[..i], 8) && buf[..q] == h + y
    {
      q, y := Put(buf, q, LE(ns[i], 8), h, y);
      LEsSnoc(ns, i, 8);
      Assoc(x, LEs(ns[..i], 8), LE(ns[i], 8));
    }
    assert ns[..|ns|] == ns;
  }

  /** The header if asked for, the tag, and the dimensions. */
  method PutHead(buf: array<byte>, head: bool, tag: byte, dims: seq<nat>) returns (q: nat, ghost y: bytes)
    requires |Header(head)| + 9 + 8 * |dims| <= buf.Length
    modifies buf
    ensures q == |Header(head)| + 9 + 8 * |dims| && y == [tag] + Dims(dims, 8) && buf[..q] == Header(head) + y
  {
    q := 0;
    if head {
      q, y := Put(buf, q, MATLAB_ID, [], []);
    }
    q, y := Put(buf, q, [tag], Header(head), []);
    q, y := Put(buf, q, LE(|dims|, 8), Header(head), y);
    q, y := PutAll(buf, q, dims, Header(head), y);
    Assoc([tag], LE(|dims|, 8), LEs(dims, 8));
  }

  /** Class and complexity. */
  method PutKind(buf: array<byte>, p: nat, v: Value, complexity: nat, ghost h: bytes, ghost x: bytes)
    returns (q: nat, ghost y: bytes)
    requires (v.Arr? || v.Sparse?) && complexity == if v.im.Some? then 1 else 0
    requires p + 8 <= buf.Length && buf[..p] == h + x
    modifies buf
    ensures q == p + 8 && y == x + Kind(v.classId, v.im) && buf[..q] == h + y
  {
    q, y := Put(buf, p, LE(v.classId, 4), h, x);
    q, y := Put(buf, q, LE(complexity, 4), h, y);
    Assoc(x, LE(v.classId, 4), LE(complexity, 4));
  }

  /** The real part, then the imaginary part if there is one. */
  method PutData(buf: array<byte>, p: nat, v: Value, complexity: nat, ghost h: bytes, ghost x: bytes)
    returns (q: nat, ghost y: bytes)
    requires (v.Arr? || v.Sparse?) && complexity == if v.im.Some? then 1 else 0
    requires p + |Data(v.re, v.im)| <= buf.Length && buf[..p] == h + x
    modifies buf
    ensures q == p + |Data(v.re, v.im)| && y == x + Data(v.re, v.im) && buf[..q] == h + y
  {
    q, y := Put(buf, p, v.re, h, x);
    if complexity == 1 {
      q, y := Put(buf, q, v.im.value, h, y);
      Assoc(x, v.re, v.im.value);
    } else {
      assert v.re + [] == v.re;
    }
  }

  // ---------- arrays and sparse matrices ----------

  method SerializeArray(v: Value, head: bool) returns (r: Result<array<byte>>)
    requires v.Arr? && Shape(v)
    ensures r.Success? && fresh(r.value) && r.value[..] == Header(head) + Encode(v, 8)
  {
    var complexity := if v.im.Some? then 1 else 0;
    var nBytesData := ElementSize(v.classId) * Numel(v.dims);
    if complexity == 1 {
      nBytesData := ElementSize(v.classId) * Numel(v.dims) * 2;
    }
    var nb := 1 + 8 + |v.dims| * 8 + 4 + 4 + nBytesData;
    if head {
      nb := nb + |MATLAB_ID|;
    }
    var buf := new byte[nb](_ => 0);
    ghost var h := Header(head);
    var p; ghost var y;
    p, y := PutHead(buf, head, ID_ARRAY, v.dims);
    p, y := PutKind(buf, p, v, complexity, h, y);
    p, y := PutData(buf, p, v, complexity, h, y);
    if p > nb {
      return Failure(ShortAllocation);
    }
    assert buf[..p] == buf[..];
    return Success(buf);
  }

  method SerializeSparse(v: Value, head: bool) returns (r: Result<array<byte>>)
    requires v.Sparse? && Shape(v)
    ensures r.Success? && fresh(r.value) && r.value[..] == Header(head) + Encode(v, 8)
  {
    var nzmax := |v.ir|;
    var nBytesJc := 8 * (v.cols + 1);
    var nBytesIr := 8 * nzmax;
    var nBytesData := ElementSize(v.classId) * nzmax;
    var complexity := if v.im.Some? then 1 else 0;
    var nBytesImag := if complexity == 1 then nBytesData else 0;
    var nb := 1 + 3 * 8 + 4 + 4 + nBytesJc + nBytesIr + nBytesData + nBytesImag;
    if head {
      nb := nb + |MATLAB_ID|;
    }
    var buf := new byte[nb](_ => 0);
    ghost var h := Header(head);
    var p := 0;
    ghost var y: bytes := [];
    if head {
      p, y := Put(buf, p, MATLAB_ID, [], []);
    }
    p, y := Put(buf, p, [ID_SPARSE], h, []);
    assert y == [ID_SPARSE];
    var counts := [v.rows, v.cols, nzmax];
    p, y := PutAll(buf, p, counts, h, y);
    p, y := PutKind(buf, p, v, complexity, h, y);
    p, y := PutAll(buf, p, v.jc, h, y);
    p, y := PutAll(buf, p, v.ir, h, y);
    p, y := PutData(buf, p, v, complexity, h, y);
    assert y == Encode(v, 8);
    if p > nb {
      return Failure(ShortAllocation);
    }
    assert buf[..p] == buf[..];
    return Success(buf);
  }

  // ---------- cells and structs ----------

  /** One element: a NULL element is written as an empty double array. */
  method SerializeElement(e: Slot) returns (r: Result<array<byte>>)
    requires ShapeSlot(e) && CountableSlot(e)
    ensures r.Success? <==> SupportedSlot(e)
    ensures r.Success? ==> fresh(r.value) && r.value[..] == EncodeSlot(e, 8)
    ensures r.Failure? ==> r.error == UnsupportedType
    decreases e, 2
  {
    match e
    case Null =>
      assert EMPTY.dims[..1] == [0] && Numel([0, 0]) == Numel([0]) * 0;
      r := SerializeArray(EMPTY, false);
    case Full(v) =>
      r := SerializeValue(v, false);
  }

  /** Dispatch on the class of the value. */
  method SerializeValue(v: Value, head: bool) returns (r: Result<array<byte>>)
    requires Writable(v)
    ensures r.Success? <==> Supported(v)
    ensures r.Success? ==> fresh(r.value) && r.value[..] == Header(head) + Encode(v, 8)
    ensures r.Failure? ==> r.error == UnsupportedType
    decreases v, 3
  {
    match v
    case Arr(_, _, _, _) => r := SerializeArray(v, head);
    case Sparse(_, _, _, _, _, _, _) => r := SerializeSparse(v, head);
    case Struct(_, _, _) => r := SerializeStruct(v, head);
    case Cell(_, _) => r := SerializeCell(v, head);
    case Other => r := Failure(UnsupportedType);
  }

  /** The length-prefixed elements, in order. */
  method PutChildren(buf: array<byte>, p: nat, pser: seq<array<byte>>, plen: seq<nat>, ghost es: seq<Slot>,
                     ghost h: bytes, ghost x: bytes)
    returns (q: nat, ghost y: bytes)
    requires Collected(es, |es|, pser, plen) && buf !in pser
    requires p + |Children(es, 8)| <= buf.Length && buf[..p] == h + x
    modifies buf
    ensures q == p + |Children(es, 8)| && y == x + Children(es, 8) && buf[..q] == h + y
  {
    q, y := p, x;
    for i := 0 to |pser|
      invariant Collected(es, |es|, pser, plen)
      invariant q == p + |Children(es[..i], 8)| <= buf.Length && y == x + Children(es[..i], 8) && buf[..q] == h + y
    {
      ghost var b := EncodeSlot(es[i], 8);
      ChildrenSnoc(es, i, 8);
      ChildrenPrefix(es, i + 1, 8);
      ghost var y0 := y;
      q, y := Put(buf, q, LE(plen[i], 8), h, y);
      q, y := Put(buf, q, pser[i][..plen[i]], h, y);
      Assoc(y0, LE(|b|, 8), b);
      Assoc(x, Children(es[..i], 8), LE(|b|, 8) + b);
    }
    assert es[..|es|] == es;
  }

  lemma {:induction false} ChildrenPrefix(es: seq<Slot>, i: nat, w: nat)
    requires i <= |es|
    ensures |Children(es[..i], w)| <= |Children(es, w)|
    decreases |es| - i
  {
    if i == |es| {
      assert es[..i] == es;
    } else {
      ChildrenSnoc(es, i, w);
      ChildrenPrefix(es, i + 1, w);
    }
  }

  /** What the first pass leaves: a buffer per element, and their lengths. */
  ghost predicate Collected(es: seq<Slot>, n: nat, pser: seq<array<byte>>, plen: seq<nat>)
    reads pser
  {
    && n <= |es| && |pser| == |plen| == n
    && (forall k :: 0 <= k < n ==> SupportedSlot(es[k]))
    && forall k :: 0 <= k < n ==> pser[k][..] == EncodeSlot(es[k], 8) && plen[k] == pser[k].Length
  }

  /** Serializes element `i` and adds up its size. */
  method CollectOne(es: seq<Slot>, i: nat, pser: seq<array<byte>>, plen: seq<nat>, size: nat)
    returns (ok: bool, pser': seq<array<byte>>, plen': seq<nat>, size': nat)
    requires Shapes(es) && Countables(es) && i < |es| && Collected(es, i, pser, plen) && size == |Children(es[..i], 8)|
    ensures ok <==> SupportedSlot(es[i])
    ensures ok ==> Collected(es, i + 1, pser', plen') && size' == |Children(es[..i + 1], 8)|
    decreases es, 0
  {
    ok, pser', plen', size' := true, pser, plen, size;
    var child := SerializeElement(es[i]);
    if child.Failure? {
      ok := false;
      return;
    }
    pser' := pser + [child.value];
    plen' := plen + [child.value.Length];
    size' := size + plen'[i] + 8;
    ChildrenSnoc(es, i, 8);
  }

  /** First pass over a cell array: serialize each element and add up the size. */
  method CollectCell(es: seq<Slot>) returns (ok: bool, pser: seq<array<byte>>, plen: seq<nat>, size: nat)
    requires Shapes(es) && Countables(es)
    ensures ok <==> Supporteds(es)
    ensures ok ==> Collected(es, |es|, pser, plen) && size == |Children(es, 8)|
    decreases es, 1
  {
    ok, pser, plen, size := true, [], [], 0;
    for i := 0 to |es|
      invariant Collected(es, i, pser, plen) && size == |Children(es[..i], 8)|
    {
      ok, pser, plen, size := CollectOne(es, i, pser, plen, size);
      if !ok {
        return;
      }
    }
    ok := true;
    assert es[..|es|] == es;
  }

  /** First pass over a struct array, element by element and field by field. */
  method CollectStruct(es: seq<Slot>, nelts: nat, nfields: nat)
    returns (ok: bool, pser: seq<array<byte>>, plen: seq<nat>, size: nat)
    requires Shapes(es) && Countables(es) && |es| == Rows(nelts, nfields)
    ensures ok <==> Supporteds(es)
    ensures ok ==> Collected(es, |es|, pser, plen) && size == |Children(es, 8)|
    decreases es, 1
  {
    ok, pser, plen, size := true, [], [], 0;
    var li := 0;
    for i := 0 to nelts
      invariant li == Rows(i, nfields) && Collected(es, li, pser, plen) && size == |Children(es[..li], 8)|
    {
      RowsGrow(i + 1, nelts, nfields);
      for j := 0 to nfields
        invariant li == Rows(i, nfields) + j && Collected(es, li, pser, plen) && size == |Children(es[..li], 8)|
      {
        ok, pser, plen, size := CollectOne(es, li, pser, plen, size);
        if !ok {
          return;
        }
        li := li + 1;
      }
    }
    ok := true;
    assert es[..|es|] == es;
  }

  method SerializeCell(v: Value, head: bool) returns (r: Result<array<byte>>)
    requires v.Cell? && Writable(v)
    ensures r.Success? <==> Supported(v)
    ensures r.Success? ==> fresh(r.value) && r.value[..] == Header(head) + Encode(v, 8)
    ensures r.Failure? ==> r.error == UnsupportedType
    decreases v, 1
  {
    var rnBytes := 1 + (1 + |v.dims|) * 8;
    if head {
      rnBytes := rnBytes + |MATLAB_ID|;
    }
    var ok, pser, plen, size := CollectCell(v.elems);
    if !ok {
      return Failure(UnsupportedType);
    }
    rnBytes := rnBytes + size;
    var buf := new byte[rnBytes](_ => 0);
    var p; ghost var y;
    p, y := PutHead(buf, head, ID_CELL, v.dims);
    p, y := PutChildren(buf, p, pser, plen, v.elems, Header(head), y);
    if p != rnBytes {
      return Failure(ShortAllocation);
    }
    assert buf[..p] == buf[..];
    return Success(buf);
  }

  method SerializeStruct(v: Value, head: bool) returns (r: Result<array<byte>>)
    requires v.Struct? && Writable(v)
    ensures r.Success? <==> Supported(v)
    ensures r.Success? ==> fresh(r.value) && r.value[..] == Header(head) + Encode(v, 8)
    ensures r.Failure? ==> r.error == UnsupportedType
    decreases v, 1
  {
    var rnBytes := 1 + 8 + |v.dims| * 8;
    if head {
      rnBytes := rnBytes + |MATLAB_ID|;
    }
    var nfields := |v.names|;
    rnBytes := rnBytes + 4;
    ghost var base := rnBytes;
    for i := 0 to nfields
      invariant rnBytes == base + |Names(v.names[..i])|
    {
      rnBytes := rnBytes + |v.names[i]| + 1;
      NamesSnoc(v.names, i);
    }
    assert v.names[..nfields] == v.names;
    RowsTimes(Numel(v.dims), nfields);
    var ok, pser, plen, size := CollectStruct(v.elems, Numel(v.dims), nfields);
    if !ok {
      return Failure(UnsupportedType);
    }
    rnBytes := rnBytes + size;
    var buf := new byte[rnBytes](_ => 0);
    var p; ghost var y;
    p, y := PutHead(buf, head, ID_STRUCT, v.dims);
    p, y := Put(buf, p, LE(nfields, 4), Header(head), y);
    p, y := PutNames(buf, p, v.names, Header(head), y);
    p, y := PutChildren(buf, p, pser, plen, v.elems, Header(head), y);
    if p != rnBytes {
      return Failure(ShortAllocation);
    }
    assert buf[..p] == buf[..];
    return Success(buf);
  }

  method PutNames(buf: array<byte>, p: nat, names: seq<bytes>, ghost h: bytes, ghost x: bytes)
    returns (q: nat, ghost y: bytes)
    requires p + |Names(names)| <= buf.Length && buf[..p] == h + x
    modifies buf
    ensures q == p + |Names(names)| && y == x + Names(names) && buf[..q] == h + y
  {
    q, y := p, x;
    for i := 0 to |names|
      invariant q == p + |Names(names[..i])| <= buf.Length && y == x + Names(names[..i]) && buf[..q] == h + y
    {
      NamesSnoc(names, i);
      NamesPrefix(names, i + 1);
      ghost var y0 := y;
      q, y := Put(buf, q, names[i], h, y);
      q, y := Put(buf, q, [0], h, y);
      Assoc(y0, names[i], [0]);
      Assoc(x, Names(names[..i]), names[i] + [0]);
    }
    assert names[..|names|] == names;
  }

  lemma {:induction false} NamesPrefix(names: seq<bytes>, i: nat)
    requires i <= |names|
    ensures |Names(names[..i])| <= |Names(names)|
    decreases |names| - i
  {
    if i == |names| {
      assert names[..i] == names;
    } else {
      NamesSnoc(names, i);
      NamesPrefix(names, i + 1);
    }
  }
}
