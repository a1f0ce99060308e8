/** MATLAB values as trees, and what MATLAB itself guarantees about them. */
module MatlabValue {
  import opened Bytes

  // Class numbers of MATLAB's matrix.h.
  const LOGICAL_CLASS: nat := 3
  const CHAR_CLASS: nat := 4
  const DOUBLE_CLASS: nat := 6
  const UINT8_CLASS: nat := 9

  /** `re`/`im` are the data areas; a missing `im` means a real array.
      Struct fields are stored element by element.
      `Other` is any class the serializer refuses (function handles, objects). */
  datatype Value =
    | Arr(dims: seq<nat>, classId: nat, re: bytes, im: Option<bytes>)
    | Sparse(rows: nat, cols: nat, classId: nat, jc: seq<nat>, ir: seq<nat>, re: bytes, im: Option<bytes>)
    | Cell(dims: seq<nat>, elems: seq<Slot>)
    | Struct(dims: seq<nat>, names: seq<bytes>, elems: seq<Slot>)
    | Other

  /** An element of a cell or struct array; `Null` is the NULL pointer MATLAB
      may return for one that was never set. */
  datatype Slot = Null | Full(value: Value)

  /** `mxGetElementSize`; 0 for a class that cannot hold numeric data. */
  function ElementSize(classId: nat): nat {
    if classId == LOGICAL_CLASS || classId == 8 || classId == 9 then 1
    else if classId == CHAR_CLASS || classId == 10 || classId == 11 then 2
    else if classId == 7 || classId == 12 || classId == 13 then 4
    else if classId == DOUBLE_CLASS || classId == 14 || classId == 15 then 8
    else 0
  }

  /** The characters of a char array, two bytes each. */
  function CodeUnits(re: bytes): (r: seq<nat>)
    ensures |r| == |re| / 2
  {
    seq(|re| / 2, i requires 0 <= i < |re| / 2 => re[2 * i] as nat + 256 * re[2 * i + 1] as nat)
  }

  function Numel(dims: seq<nat>): nat {
    if dims == [] then 1 else Numel(dims[..|dims| - 1]) * dims[|dims| - 1]
  }

  /** `n` rows of `w` elements. */
  ghost function Rows(n: nat, w: nat): nat {
    if n == 0 then 0 else w + Rows(n - 1, w)
  }

  lemma {:induction false} RowsTimes(n: nat, w: nat)
    ensures Rows(n, w) == n * w
  {
    if n != 0 {
      RowsTimes(n - 1, w);
      assert n * w == w + (n - 1) * w;
    }
  }

  lemma {:induction false} RowsGrow(i: nat, n: nat, w: nat)
    requires i <= n
    ensures Rows(i, w) <= Rows(n, w)
  {
    if i < n {
      RowsGrow(i, n - 1, w);
    }
  }

  /** `mxCreate*Array` drops trailing singleton dimensions beyond the second. */
  function TrimDims(dims: seq<nat>): (r: seq<nat>)
    ensures |dims| >= 2 ==> |r| >= 2
    ensures |r| <= |dims|
  {
    if |dims| > 2 && dims[|dims| - 1] == 1 then TrimDims(dims[..|dims| - 1]) else dims
  }

  lemma {:induction false} TrimKeepsNumel(dims: seq<nat>)
    ensures Numel(TrimDims(dims)) == Numel(dims)
    ensures TrimDims(TrimDims(dims)) == TrimDims(dims)
  {
    if |dims| > 2 && dims[|dims| - 1] == 1 {
      TrimKeepsNumel(dims[..|dims| - 1]);
    }
  }

  const INT_LIMIT: nat := 0x8000_0000

  ghost predicate ValidDims(dims: seq<nat>) {
    |dims| >= 2 && TrimDims(dims) == dims
  }

  ghost predicate ImagMatches(re: bytes, im: Option<bytes>) {
    im.Some? ==> |im.value| == |re|
  }

  ghost predicate ValidName(name: bytes) {
    0 !in name
  }

  /** The shape MATLAB guarantees.  Element counts and field counts stay below
      2^31 because the source counts them with `int`. */
  ghost predicate Shape(v: Value) {
    match v
    case Arr(dims, c, re, im) =>
      ValidDims(dims) && 0 < ElementSize(c) && |re| == ElementSize(c) * Numel(dims) && ImagMatches(re, im)
    case Sparse(rows, cols, c, jc, ir, re, im) =>
      && c in {LOGICAL_CLASS, DOUBLE_CLASS} && |jc| == cols + 1
      && |re| == ElementSize(c) * |ir| && ImagMatches(re, im) && (c == LOGICAL_CLASS ==> im.None?)
    case Cell(dims, es) =>
      ValidDims(dims) && |es| == Numel(dims) < INT_LIMIT && Shapes(es)
    case Struct(dims, names, es) =>
      && ValidDims(dims) && Numel(dims) < INT_LIMIT && |names| < INT_LIMIT
      && |es| == Numel(dims) * |names|
      && (forall k :: 0 <= k < |names| ==> ValidName(names[k]))
      && Shapes(es)
    case Other => true
  }

  ghost predicate Shapes(es: seq<Slot>) {
    forall k :: 0 <= k < |es| ==> ShapeSlot(es[k])
  }

  ghost predicate ShapeSlot(e: Slot) {
    match e
    case Null => true
    case Full(v) => Shape(v)
  }

  /** The writer also counts all fields of all elements of a struct array with
      one `int`; the reader does not. */
  ghost predicate Countable(v: Value) {
    match v
    case Cell(_, es) => Countables(es)
    case Struct(_, _, es) => |es| < INT_LIMIT && Countables(es)
    case _ => true
  }

  ghost predicate Countables(es: seq<Slot>) {
    forall k :: 0 <= k < |es| ==> CountableSlot(es[k])
  }

  ghost predicate CountableSlot(e: Slot) {
    match e
    case Null => true
    case Full(v) => Countable(v)
  }

  /** What the writer may be given. */
  ghost predicate Writable(v: Value) {
    Shape(v) && Countable(v)
  }

  /** No part of the tree is of a class the serializer refuses. */
  predicate Supported(v: Value) {
    match v
    case Arr(_, _, _, _) => true
    case Sparse(_, _, _, _, _, _, _) => true
    case Cell(_, es) => Supporteds(es)
    case Struct(_, _, es) => Supporteds(es)
    case Other => false
  }

  predicate Supporteds(es: seq<Slot>) {
    forall k :: 0 <= k < |es| ==> SupportedSlot(es[k])
  }

  predicate SupportedSlot(e: Slot) {
    match e
    case Null => true
    case Full(v) => Supported(v)
  }

  /** The 0-by-0 real double array that stands in for a NULL element. */
  const EMPTY: Value := Arr([0, 0], DOUBLE_CLASS, [], None)

  /** The value with every NULL element replaced by `EMPTY`. */
  function Norm(v: Value): Value {
    match v
    case Cell(dims, es) => Cell(dims, NormAll(es))
    case Struct(dims, names, es) => Struct(dims, names, NormAll(es))
    case _ => v
  }

  function NormAll(es: seq<Slot>): (r: seq<Slot>)
    ensures |r| == |es|
  {
    if es == [] then [] else [Full(NormSlot(es[0]))] + NormAll(es[1..])
  }

  function NormSlot(e: Slot): Value {
    match e
    case Null => EMPTY
    case Full(v) => Norm(v)
  }
}
