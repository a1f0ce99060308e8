/** What the deserializer reads, as functions of the bytes in memory.  A
    position past the end of `s` stands for a read outside the buffer. */
module Decoding {
  import opened Bytes
  import opened MatlabValue
  import opened Encoding

  /** Bytes an integer field takes. */
  type width = w: nat | w == 4 || w == 8 witness 8

  /** How many numbers fit in `w` bytes. */
  function Capacity(w: width): nat {
    if w == 4 then 0x1_0000_0000 else 0x1_0000_0000_0000_0000
  }

  /** `field`: bytes a stored length takes, 4 when the environment variable
      MYM_USE_32BIT_DIMS is set; `size`: bytes of the platform's `mwSize`. */
  datatype Platform = Platform(field: width, size: width) {
    /** Lengths below this can be stored and read back. */
    function Limit(): nat {
      if field <= size then Capacity(field) else Capacity(size)
    }
  }

  /** A value read and the position just after it. */
  datatype Decoded<+T> = Ok(value: T, end: nat) | Err(error: Error) {
    predicate IsFailure() {
      Err?
    }

    function PropagateFailure<U>(): Decoded<U>
      requires Err?
    {
      Err(error)
    }

    function Extract(): (T, nat)
      requires Ok?
    {
      (value, end)
    }
  }

  function Take(s: bytes, p: nat, n: nat): (r: Decoded<bytes>)
    ensures r.Ok? ==> r.end == p + n <= |s| && |r.value| == n
  {
    if p + n <= |s| then Ok(Sub(s, p, n), p + n) else Err(OutOfBuffer)
  }

  /** A stored length: refused when the platform's size type cannot hold it. */
  function ReadUint(s: bytes, p: nat, pl: Platform): (r: Decoded<nat>)
    ensures r.Ok? ==> r.end == p + pl.field <= |s|
  {
    if p + pl.field > |s| then Err(OutOfBuffer)
    else
      var n := Load(s, p, pl.field);
      if n < Capacity(pl.size) then Ok(n, p + pl.field) else Err(SizeLimit)
  }

  function ReadUints(s: bytes, p: nat, n: nat, pl: Platform): (r: Decoded<seq<nat>>)
    requires p <= |s|
    ensures r.Ok? ==> p <= r.end <= |s| && |r.value| == n
    decreases n, p, s
  {
    if n == 0 then Ok([], p)
    else
      var (x, q) :- ReadUint(s, p, pl);
      var (xs, e) :- ReadUints(s, q, n - 1, pl);
      Ok([x] + xs, e)
  }

  /** A 4-byte class, complexity or count. */
  function ReadInt(s: bytes, p: nat): (r: Decoded<nat>)
    ensures r.Ok? ==> r.end == p + 4 <= |s|
  {
    if p + 4 <= |s| then Ok(Load(s, p, 4), p + 4) else Err(OutOfBuffer)
  }

  /** The first NUL at or after `p`, as `strlen` finds it. */
  function StrEnd(s: bytes, p: nat): (r: Option<nat>)
    requires p <= |s|
    ensures r.Some? ==> p <= r.value < |s|
    decreases |s| - p
  {
    if p == |s| then None else if s[p] == 0 then Some(p) else StrEnd(s, p + 1)
  }

  function ReadNames(s: bytes, p: nat, n: nat): (r: Decoded<seq<bytes>>)
    requires p <= |s|
    ensures r.Ok? ==> p <= r.end <= |s| && |r.value| == n
    decreases n, p, s
  {
    if n == 0 then Ok([], p)
    else match StrEnd(s, p)
      case None => Err(OutOfBuffer)
      case Some(e) =>
        var (names, q) :- ReadNames(s, e + 1, n - 1);
        Ok([Sub(s, p, e - p)] + names, q)
  }

  function ReadDims(s: bytes, p: nat, pl: Platform): (r: Decoded<seq<nat>>)
    ensures r.Ok? ==> p < r.end <= |s|
  {
    var (nd, p1) :- ReadUint(s, p, pl);
    ReadUints(s, p1, nd, pl)
  }

  /** `n` bytes of real data, then `n` bytes of imaginary data if complex. */
  function ReadData(s: bytes, p: nat, n: nat, complex: bool): (r: Decoded<(bytes, Option<bytes>)>)
    ensures r.Ok? ==> p <= r.end <= |s|
  {
    var (re, p1) :- Take(s, p, n);
    if complex then
      var (im, p2) :- Take(s, p1, n);
      Ok((re, Some(im)), p2)
    else Ok((re, None), p1)
  }

  function DecodeArr(s: bytes, p: nat, pl: Platform): (r: Decoded<Value>)
    ensures r.Ok? ==> p < r.end <= |s|
  {
    var (dims, p1) :- ReadDims(s, p, pl);
    var (c, p2) :- ReadInt(s, p1);
    var (complexity, p3) :- ReadInt(s, p2);
    if |dims| < 2 || ElementSize(c) == 0 then Err(BadArray)
    else
      var shape := TrimDims(dims);
      var (data, p4) :- ReadData(s, p3, ElementSize(c) * Numel(shape), complexity == 1);
      Ok(Arr(shape, c, data.0, data.1), p4)
  }

  datatype SparseHead = SparseHead(rows: nat, cols: nat, nzmax: nat, classId: nat, complexity: nat)

  function ReadSparseHead(s: bytes, p: nat, pl: Platform): (r: Decoded<SparseHead>)
    ensures r.Ok? ==> p < r.end <= |s|
  {
    var (rows, p1) :- ReadUint(s, p, pl);
    var (cols, p2) :- ReadUint(s, p1, pl);
    var (nzmax, p3) :- ReadUint(s, p2, pl);
    var (c, p4) :- ReadInt(s, p3);
    var (complexity, p5) :- ReadInt(s, p4);
    Ok(SparseHead(rows, cols, nzmax, c, complexity), p5)
  }

  /** Any class but logical is created as double.  A logical matrix has no
      imaginary area to copy into. */
  function SparseBody(s: bytes, p: nat, h: SparseHead, pl: Platform): (r: Decoded<Value>)
    requires p <= |s|
    ensures r.Ok? ==> p <= r.end <= |s|
  {
    var created := if h.classId == LOGICAL_CLASS then LOGICAL_CLASS else DOUBLE_CLASS;
    var (jc, p2) :- ReadUints(s, p, h.cols + 1, pl);
    var (ir, p3) :- ReadUints(s, p2, h.nzmax, pl);
    if created == LOGICAL_CLASS && h.complexity == 1 && h.nzmax > 0 then Err(OutOfBuffer)
    else
      var complex := h.complexity == 1 && created == DOUBLE_CLASS;
      var (data, p4) :- ReadData(s, p3, ElementSize(created) * h.nzmax, complex);
      Ok(Sparse(h.rows, h.cols, created, jc, ir, data.0, data.1), p4)
  }

  function DecodeSparse(s: bytes, p: nat, pl: Platform): (r: Decoded<Value>)
    ensures r.Ok? ==> p < r.end <= |s|
  {
    var (h, p1) :- ReadSparseHead(s, p, pl);
    SparseBody(s, p1, h, pl)
  }

  /** What precedes the elements of a cell: its dimensions. */
  function ReadCellHead(s: bytes, p: nat, pl: Platform): (r: Decoded<seq<nat>>)
    ensures r.Ok? ==> p < r.end <= |s|
  {
    var (dims, p1) :- ReadDims(s, p, pl);
    if |dims| < 2 || Numel(dims) >= INT_LIMIT then Err(BadArray) else Ok(dims, p1)
  }

  /** What precedes the elements of a struct: dimensions and field names. */
  function ReadStructHead(s: bytes, p: nat, pl: Platform): (r: Decoded<(seq<nat>, seq<bytes>)>)
    ensures r.Ok? ==> p < r.end <= |s|
  {
    var (dims, p1) :- ReadDims(s, p, pl);
    var (nfields, p2) :- ReadInt(s, p1);
    if nfields >= INT_LIMIT then Err(BadArray)
    else
      var (names, p3) :- ReadNames(s, p2, nfields);
      if |dims| < 2 || Numel(dims) >= INT_LIMIT then Err(BadArray) else Ok((dims, names), p3)
  }

  function DecodeCell(s: bytes, p: nat, pl: Platform): (r: Decoded<Value>)
    requires p <= |s|
    ensures r.Ok? ==> p < r.end <= |s|
    decreases |s| - p
  {
    var (dims, p1) :- ReadCellHead(s, p, pl);
    var (es, p2) :- DecodeChildren(s, p1, Numel(dims), pl);
    Ok(Cell(TrimDims(dims), es), p2)
  }

  function DecodeStruct(s: bytes, p: nat, pl: Platform): (r: Decoded<Value>)
    requires p <= |s|
    ensures r.Ok? ==> p < r.end <= |s|
    decreases |s| - p
  {
    var (head, p1) :- ReadStructHead(s, p, pl);
    var (es, p2) :- DecodeChildren(s, p1, Numel(head.0) * |head.1|, pl);
    Ok(Struct(TrimDims(head.0), head.1, es), p2)
  }

  /** Dispatch on the tag byte. */
  function DecodeValue(s: bytes, p: nat, pl: Platform): (r: Decoded<Value>)
    requires p <= |s|
    ensures r.Ok? ==> p < r.end <= |s|
    decreases |s| - p
  {
    if p == |s| then Err(OutOfBuffer)
    else if s[p] == ID_ARRAY then DecodeArr(s, p + 1, pl)
    else if s[p] == ID_SPARSE then DecodeSparse(s, p + 1, pl)
    else if s[p] == ID_STRUCT then DecodeStruct(s, p + 1, pl)
    else if s[p] == ID_CELL then DecodeCell(s, p + 1, pl)
    else Err(UnknownTag)
  }

  /** `n` length-prefixed values.  The cursor moves on by the stored length,
      wherever the child's own decoder stopped. */
  function DecodeChildren(s: bytes, p: nat, n: nat, pl: Platform): (r: Decoded<seq<Slot>>)
    requires p <= |s|
    ensures r.Ok? ==> p <= r.end <= |s| && |r.value| == n
    decreases |s| - p, n
  {
    if n == 0 then Ok([], p)
    else
      var (nbytes, p1) :- ReadUint(s, p, pl);
      var (v, _) :- DecodeValue(s, p1, pl);
      if p1 + nbytes > |s| then Err(OutOfBuffer)
      else
        var (vs, p2) :- DecodeChildren(s, p1 + nbytes, n - 1, pl);
        Ok([Full(v)] + vs, p2)
  }
}
