/** The readers: a position moved forward through memory, proved to deliver
    exactly what the decoding functions say, errors included. */
module Deserializer {
  import opened Bytes
  import opened MatlabValue
  import opened Encoding
  import opened Decoding

  /** `r` with the elements `acc` already read put in front. */
  ghost function After<T>(acc: seq<T>, r: Decoded<seq<T>>): Decoded<seq<T>> {
    match r
    case Ok(xs, e) => Ok(acc + xs, e)
    case Err(error) => Err(error)
  }

  lemma AfterNil<T>(r: Decoded<seq<T>>)
    ensures After([], r) == r
  {
    if r.Ok? {
      assert [] + r.value == r.value;
    }
  }

  lemma AfterAll<T>(acc: seq<T>, e: nat)
    ensures After(acc, Ok([], e)) == Ok(acc, e)
  {
    assert acc + [] == acc;
  }

  lemma AfterAppend<T>(acc: seq<T>, more: seq<T>, r: Decoded<seq<T>>)
    ensures After(acc, After(more, r)) == After(acc + more, r)
  {
    if r.Ok? {
      assert acc + (more + r.value) == (acc + more) + r.value;
    }
  }

  /** An integer load of `w` bytes. */
  method LoadInt(buf: array<byte>, p: nat, w: nat) returns (n: nat)
    requires p + w <= buf.Length
    ensures n == Load(buf[..], p, w)
  {
    n := 0;
    for i := w downto 0
      invariant n == Load(buf[..], p + i, w - i)
    {
      n := buf[p + i] + 256 * n;
    }
  }

  /** READ_UINT: one length, checked against the platform's size type. */
  method ReadLength(buf: array<byte>, p: nat, pl: Platform) returns (r: Decoded<nat>)
    ensures r == ReadUint(buf[..], p, pl)
  {
    if p + pl.field > buf.Length {
      return Err(OutOfBuffer);
    }
    var n := LoadInt(buf, p, pl.field);
    if n >= Capacity(pl.size) {
      return Err(SizeLimit);
    }
    return Ok(n, p + pl.field);
  }

  /** READ_UINTS. */
  method ReadLengths(buf: array<byte>, p: nat, n: nat, pl: Platform) returns (r: Decoded<seq<nat>>)
    requires p <= buf.Length
    ensures r == ReadUints(buf[..], p, n, pl)
  {
    var dst: seq<nat> := [];
    var q := p;
    AfterNil(ReadUints(buf[..], p, n, pl));
    for i := 0 to n
      invariant p <= q <= buf.Length
      invariant After(dst, ReadUints(buf[..], q, n - i, pl)) == ReadUints(buf[..], p, n, pl)
    {
      var x := ReadLength(buf, q, pl);
      if x.Err? {
        return Err(x.error);
      }
      AfterAppend(dst, [x.value], ReadUints(buf[..], x.end, n - i - 1, pl));
      dst := dst + [x.value];
      q := x.end;
    }
    AfterAll(dst, q);
    return Ok(dst, q);
  }

  method ReadInt32(buf: array<byte>, p: nat) returns (r: Decoded<nat>)
    ensures r == ReadInt(buf[..], p)
  {
    if p + 4 > buf.Length {
      return Err(OutOfBuffer);
    }
    var n := LoadInt(buf, p, 4);
    return Ok(n, p + 4);
  }

  method ReadDimensions(buf: array<byte>, p: nat, pl: Platform) returns (r: Decoded<seq<nat>>)
    ensures r == ReadDims(buf[..], p, pl)
  {
    var ndims := ReadLength(buf, p, pl);
    if ndims.Err? {
      return Err(ndims.error);
    }
    r := ReadLengths(buf, ndims.end, ndims.value, pl);
  }

  /** `memcpy` out of the buffer. */
  method Copy(buf: array<byte>, p: nat, n: nat) returns (r: Decoded<bytes>)
    ensures r == Take(buf[..], p, n)
  {
    if p + n > buf.Length {
      return Err(OutOfBuffer);
    }
    SubIsSlice(buf[..], p, n);
    return Ok(buf[p..p + n], p + n);
  }

  method CopyData(buf: array<byte>, p: nat, n: nat, complex: bool) returns (r: Decoded<(bytes, Option<bytes>)>)
    ensures r == ReadData(buf[..], p, n, complex)
  {
    var re := Copy(buf, p, n);
    if re.Err? {
      return Err(re.error);
    }
    if complex {
      var im := Copy(buf, re.end, n);
      if im.Err? {
        return Err(im.error);
      }
      return Ok((re.value, Some(im.value)), im.end);
    }
    return Ok((re.value, None), re.end);
  }

  method DeserializeArray(buf: array<byte>, p: nat, pl: Platform) returns (r: Decoded<Value>)
    ensures r == DecodeArr(buf[..], p, pl)
  {
    var dims := ReadDimensions(buf, p, pl);
    if dims.Err? {
      return Err(dims.error);
    }
    var classId := ReadInt32(buf, dims.end);
    if classId.Err? {
      return Err(classId.error);
    }
    var complexity := ReadInt32(buf, classId.end);
    if complexity.Err? {
      return Err(complexity.error);
    }
    if |dims.value| < 2 || ElementSize(classId.value) == 0 {
      return Err(BadArray);
    }
    var shape := TrimDims(dims.value);
    var nbytes := ElementSize(classId.value) * Numel(shape);
    var data := CopyData(buf, complexity.end, nbytes, complexity.value == 1);
    if data.Err? {
      return Err(data.error);
    }
    return Ok(Arr(shape, classId.value, data.value.0, data.value.1), data.end);
  }

  method ReadHeadOfSparse(buf: array<byte>, p: nat, pl: Platform) returns (r: Decoded<SparseHead>)
    ensures r == ReadSparseHead(buf[..], p, pl)
  {
    var rows := ReadLength(buf, p, pl);
    if rows.Err? {
      return Err(rows.error);
    }
    var columns := ReadLength(buf, rows.end, pl);
    if columns.Err? {
      return Err(columns.error);
    }
    var nzmax := ReadLength(buf, columns.end, pl);
    if nzmax.Err? {
      return Err(nzmax.error);
    }
    var classId := ReadInt32(buf, nzmax.end);
    if classId.Err? {
      return Err(classId.error);
    }
    var complexity := ReadInt32(buf, classId.end);
    if complexity.Err? {
      return Err(complexity.error);
    }
    return Ok(SparseHead(rows.value, columns.value, nzmax.value, classId.value, complexity.value), complexity.end);
  }

  method DeserializeSparse(buf: array<byte>, p: nat, pl: Platform) returns (r: Decoded<Value>)
    ensures r == DecodeSparse(buf[..], p, pl)
  {
    var head := ReadHeadOfSparse(buf, p, pl);
    if head.Err? {
      return Err(head.error);
    }
    r := ReadBodyOfSparse(buf, head.end, head.value, pl);
  }

  method ReadBodyOfSparse(buf: array<byte>, p: nat, h: SparseHead, pl: Platform) returns (r: Decoded<Value>)
    requires p <= buf.Length
    ensures r == SparseBody(buf[..], p, h, pl)
  {
    var created := if h.classId == LOGICAL_CLASS then LOGICAL_CLASS else DOUBLE_CLASS;
    var jc := ReadLengths(buf, p, h.cols + 1, pl);
    if jc.Err? {
      return Err(jc.error);
    }
    var ir := ReadLengths(buf, jc.end, h.nzmax, pl);
    if ir.Err? {
      return Err(ir.error);
    }
    if created == LOGICAL_CLASS && h.complexity == 1 && h.nzmax > 0 {
      return Err(OutOfBuffer);
    }
    var complex := h.complexity == 1 && created == DOUBLE_CLASS;
    var data := CopyData(buf, ir.end, ElementSize(created) * h.nzmax, complex);
    if data.Err? {
      return Err(data.error);
    }
    return Ok(Sparse(h.rows, h.cols, created, jc.value, ir.value, data.value.0, data.value.1), data.end);
  }

  /** The product of the dimensions, as the source multiplies them up. */
  method Product(dims: seq<nat>) returns (nelts: nat)
    ensures nelts == Numel(dims)
  {
    nelts := 1;
    for i := 0 to |dims|
      invariant nelts == Numel(dims[..i])
    {
      assert dims[..i + 1][..i] == dims[..i];
      nelts := nelts * dims[i];
    }
    assert dims[..|dims|] == dims;
  }

  /** `strlen` from `p`; `None` when memory ends first. */
  method FindNul(buf: array<byte>, p: nat) returns (r: Option<nat>)
    requires p <= buf.Length
    ensures r == StrEnd(buf[..], p)
  {
    var q := p;
    while q < buf.Length
      invariant p <= q <= buf.Length && StrEnd(buf[..], p) == StrEnd(buf[..], q)
    {
      if buf[q] == 0 {
        return Some(q);
      }
      q := q + 1;
    }
    return None;
  }

  /** The first of `k` names. */
  method ReadFieldName(buf: array<byte>, p: nat, ghost k: nat) returns (r: Decoded<bytes>)
    requires p <= buf.Length && k != 0
    ensures r.Err? ==> ReadNames(buf[..], p, k) == Err(r.error)
    ensures r.Ok? ==> p < r.end <= buf.Length
    ensures r.Ok? ==> ReadNames(buf[..], p, k) == After([r.value], ReadNames(buf[..], r.end, k - 1))
  {
    var e := FindNul(buf, p);
    if e.None? {
      return Err(OutOfBuffer);
    }
    SubIsSlice(buf[..], p, e.value - p);
    return Ok(buf[p..e.value], e.value + 1);
  }

  method ReadFieldNames(buf: array<byte>, p: nat, nfields: nat) returns (r: Decoded<seq<bytes>>)
    requires p <= buf.Length
    ensures r == ReadNames(buf[..], p, nfields)
  {
    var names: seq<bytes> := [];
    var q := p;
    AfterNil(ReadNames(buf[..], p, nfields));
    for i := 0 to nfields
      invariant p <= q <= buf.Length
      invariant After(names, ReadNames(buf[..], q, nfields - i)) == ReadNames(buf[..], p, nfields)
    {
      var name := ReadFieldName(buf, q, nfields - i);
      if name.Err? {
        return Err(name.error);
      }
      AfterAppend(names, [name.value], ReadNames(buf[..], name.end, nfields - i - 1));
      names := names + [name.value];
      q := name.end;
    }
    AfterAll(names, q);
    return Ok(names, q);
  }

  /** Reads the first of `k` length-prefixed elements and steps over it by its
      stored length. */
  method DeserializeElement(buf: array<byte>, p: nat, ghost k: nat, pl: Platform) returns (r: Decoded<Value>)
    requires p <= buf.Length && k != 0
    ensures r.Ok? ==> p < r.end <= buf.Length
    ensures r.Err? ==> DecodeChildren(buf[..], p, k, pl) == Err(r.error)
    ensures r.Ok? ==> (DecodeChildren(buf[..], p, k, pl)
                    == After([Full(r.value)], DecodeChildren(buf[..], r.end, k - 1, pl)))
    decreases buf.Length - p, 0
  {
    var nbytes := ReadLength(buf, p, pl);
    if nbytes.Err? {
      return Err(nbytes.error);
    }
    var pf := DeserializeValue(buf, nbytes.end, pl);
    if pf.Err? {
      return Err(pf.error);
    }
    if nbytes.end + nbytes.value > buf.Length {
      return Err(OutOfBuffer);
    }
    return Ok(pf.value, nbytes.end + nbytes.value);
  }

  /** One more element read, the rest still to come. */
  lemma {:induction false} RowStep(s: bytes, all: Decoded<seq<Slot>>, es: seq<Slot>, q: nat, k: nat, v: Value, e: nat,
                                   pl: Platform)
    requires q <= |s| && e <= |s| && k != 0 && After(es, DecodeChildren(s, q, k, pl)) == all
    requires DecodeChildren(s, q, k, pl) == After([Full(v)], DecodeChildren(s, e, k - 1, pl))
    ensures After(es + [Full(v)], DecodeChildren(s, e, k - 1, pl)) == all
  {
    AfterAppend(es, [Full(v)], DecodeChildren(s, e, k - 1, pl));
  }

  /** The next `n` elements, with `rest` more still to come after them. */
  method DeserializeRow(buf: array<byte>, p: nat, n: nat, ghost rest: nat, pl: Platform) returns (r: Decoded<seq<Slot>>)
    requires p <= buf.Length
    ensures r.Err? ==> DecodeChildren(buf[..], p, n + rest, pl) == Err(r.error)
    ensures r.Ok? ==> p <= r.end <= buf.Length
    ensures r.Ok? ==> (DecodeChildren(buf[..], p, n + rest, pl)
                    == After(r.value, DecodeChildren(buf[..], r.end, rest, pl)))
    decreases buf.Length - p, 1
  {
    var es: seq<Slot> := [];
    var q := p;
    ghost var all := DecodeChildren(buf[..], p, n + rest, pl);
    ghost var k := n + rest;
    AfterNil(all);
    for i := 0 to n
      invariant p <= q <= buf.Length && k == n - i + rest
      invariant After(es, DecodeChildren(buf[..], q, k, pl)) == all
    {
      var pf := DeserializeElement(buf, q, k, pl);
      if pf.Err? {
        return Err(pf.error);
      }
      RowStep(buf[..], all, es, q, k, pf.value, pf.end, pl);
      es := es + [Full(pf.value)];
      q := pf.end;
      k := k - 1;
    }
    return Ok(es, q);
  }

  /** All fields of all elements of a struct array, element by element. */
  method DeserializeFields(buf: array<byte>, p: nat, nelts: nat, nfields: nat, pl: Platform)
    returns (r: Decoded<seq<Slot>>)
    requires p <= buf.Length
    ensures r == DecodeChildren(buf[..], p, Rows(nelts, nfields), pl)
    decreases buf.Length - p, 2
  {
    var es: seq<Slot> := [];
    var q := p;
    ghost var all := DecodeChildren(buf[..], p, Rows(nelts, nfields), pl);
    AfterNil(all);
    for i := 0 to nelts
      invariant p <= q <= buf.Length
      invariant After(es, DecodeChildren(buf[..], q, Rows(nelts - i, nfields), pl)) == all
    {
      ghost var rest := Rows(nelts - i - 1, nfields);
      var row := DeserializeRow(buf, q, nfields, rest, pl);
      if row.Err? {
        return Err(row.error);
      }
      AfterAppend(es, row.value, DecodeChildren(buf[..], row.end, rest, pl));
      es := es + row.value;
      q := row.end;
    }
    AfterAll(es, q);
    return Ok(es, q);
  }

  method DeserializeCell(buf: array<byte>, p: nat, pl: Platform) returns (r: Decoded<Value>)
    requires p <= buf.Length
    ensures r == DecodeCell(buf[..], p, pl)
    decreases buf.Length - p, 3
  {
    var dims := ReadDimensions(buf, p, pl);
    if dims.Err? {
      return Err(dims.error);
    }
    var nelts := Product(dims.value);
    if |dims.value| < 2 || nelts >= INT_LIMIT {
      return Err(BadArray);
    }
    var es := DeserializeRow(buf, dims.end, nelts, 0, pl);
    if es.Err? {
      return Err(es.error);
    }
    AfterAll(es.value, es.end);
    return Ok(Cell(TrimDims(dims.value), es.value), es.end);
  }

  method DeserializeStruct(buf: array<byte>, p: nat, pl: Platform) returns (r: Decoded<Value>)
    requires p <= buf.Length
    ensures r == DecodeStruct(buf[..], p, pl)
    decreases buf.Length - p, 3
  {
    var dims := ReadDimensions(buf, p, pl);
    if dims.Err? {
      return Err(dims.error);
    }
    var nelts := Product(dims.value);
    var nfields := ReadInt32(buf, dims.end);
    if nfields.Err? {
      return Err(nfields.error);
    }
    if nfields.value >= INT_LIMIT {
      return Err(BadArray);
    }
    var names := ReadFieldNames(buf, nfields.end, nfields.value);
    if names.Err? {
      return Err(names.error);
    }
    if |dims.value| < 2 || nelts >= INT_LIMIT {
      return Err(BadArray);
    }
    RowsTimes(nelts, nfields.value);
    var es := DeserializeFields(buf, names.end, nelts, nfields.value, pl);
    if es.Err? {
      return Err(es.error);
    }
    return Ok(Struct(TrimDims(dims.value), names.value, es.value), es.end);
  }

  /** Dispatch on the tag byte at `p`. */
  method DeserializeValue(buf: array<byte>, p: nat, pl: Platform) returns (r: Decoded<Value>)
    requires p <= buf.Length
    ensures r == DecodeValue(buf[..], p, pl)
    decreases buf.Length - p, 4
  {
    if p == buf.Length {
      return Err(OutOfBuffer);
    }
    if buf[p] == ID_ARRAY {
      r := DeserializeArray(buf, p + 1, pl);
    } else if buf[p] == ID_SPARSE {
      r := DeserializeSparse(buf, p + 1, pl);
    } else if buf[p] == ID_STRUCT {
      r := DeserializeStruct(buf, p + 1, pl);
    } else if buf[p] == ID_CELL {
      r := DeserializeCell(buf, p + 1, pl);
    } else {
      r := Err(UnknownTag);
    }
  }
}
