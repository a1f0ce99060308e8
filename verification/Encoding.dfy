/** The byte format of serialized MATLAB values. */
module Encoding {
  import opened Bytes
  import opened MatlabValue

  const ID_ARRAY: byte := 65   // 'A'
  const ID_SPARSE: byte := 80  // 'P'
  const ID_CELL: byte := 67    // 'C'
  const ID_STRUCT: byte := 83  // 'S'

  /** "mYm" and its terminating NUL. */
  const MATLAB_ID: bytes := [109, 89, 109, 0]

  /** Consecutive `w`-byte integers. */
  function LEs(ns: seq<nat>, w: nat): bytes {
    if ns == [] then [] else LE(ns[0], w) + LEs(ns[1..], w)
  }

  function Dims(dims: seq<nat>, w: nat): bytes {
    LE(|dims|, w) + LEs(dims, w)
  }

  /** Class and complexity, 4 bytes each (mxREAL is 0 and mxCOMPLEX is 1). */
  function Kind(classId: nat, im: Option<bytes>): bytes {
    LE(classId, 4) + LE(if im.Some? then 1 else 0, 4)
  }

  function Data(re: bytes, im: Option<bytes>): bytes {
    re + (if im.Some? then im.value else [])
  }

  /** NUL-terminated names. */
  function Names(names: seq<bytes>): bytes {
    if names == [] then [] else names[0] + [0] + Names(names[1..])
  }

  /** The encoding, tag included and header excluded.  Lengths and dimensions
      take `w` bytes: the source writes `w == 8` and can also read `w == 4`. */
  function Encode(v: Value, w: nat): bytes
    decreases v, 1
  {
    match v
    case Arr(dims, c, re, im) =>
      [ID_ARRAY] + Dims(dims, w) + Kind(c, im) + Data(re, im)
    case Sparse(rows, cols, c, jc, ir, re, im) =>
      [ID_SPARSE] + LEs([rows, cols, |ir|], w) + Kind(c, im) + LEs(jc, w) + LEs(ir, w) + Data(re, im)
    case Cell(dims, es) =>
      [ID_CELL] + Dims(dims, w) + Children(es, w)
    case Struct(dims, names, es) =>
      [ID_STRUCT] + Dims(dims, w) + LE(|names|, 4) + Names(names) + Children(es, w)
    case Other => []
  }

  /** The encoding of `EMPTY`. */
  function EncodeEmpty(w: nat): bytes {
    [ID_ARRAY] + Dims([0, 0], w) + Kind(DOUBLE_CLASS, None) + Data([], None)
  }

  /** Each element preceded by the length of its encoding. */
  function Children(es: seq<Slot>, w: nat): bytes
    decreases es, 0
  {
    if es == [] then []
    else
      var b := EncodeSlot(es[0], w);
      LE(|b|, w) + b + Children(es[1..], w)
  }

  function EncodeSlot(e: Slot, w: nat): bytes
    decreases e, 2
  {
    match e
    case Null => EncodeEmpty(w)
    case Full(v) => Encode(v, w)
  }
}
