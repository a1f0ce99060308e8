/** The outer envelope of a blob: the mYm header, the compressed form, and what
    is returned for anything else. */
module Envelope {
  import opened Bytes
  import opened MatlabValue
  import opened Encoding
  import opened Decoding
  import opened CodecProofs
  import Deserializer

  /** "ZL123" and its terminating NUL. */
  const ZLIB_ID: bytes := [90, 76, 49, 50, 51, 0]

  const MIN_LEN_ZLIB: nat := 1000

  // ---------- zlib ----------

  /** `uncompress(src, room)` is `None` when zlib reports an error. */
  datatype Zlib = Zlib(compress: bytes -> bytes, bound: nat -> nat, uncompress: (bytes, nat) -> Option<bytes>)

  /** What is used of zlib (RFC 1950, section 2.2, and its documented bounds):
      a stream is recognised whatever follows it, too little room for its content
      is an error, and `compressBound` is a bound. */
  ghost predicate ZlibLaw(z: Zlib) {
    && (forall x: bytes :: |z.compress(x)| <= z.bound(|x|))
    && (forall x: bytes, rest: bytes, room: nat :: z.uncompress(z.compress(x) + rest, room) ==
          (if room < |x| then None else Some(x)))
  }

  /** Every stream starts with a header whose low four bits are 8, for "deflate";
      anything else is an error (RFC 1950, section 2.2). */
  ghost predicate HeaderLaw(z: Zlib) {
    forall s: bytes, room: nat :: s != [] && s[0] % 16 != 8 ==> z.uncompress(s, room) == None
  }

  /** A stream format that meets the laws: behind the header, each byte preceded
      by 1, then 0. */
  function Stuff(x: bytes): bytes {
    if x == [] then [0] else [1, x[0]] + Stuff(x[1..])
  }

  function Unstuff(s: bytes): Option<bytes> {
    if s == [] || s[0] > 1 || (s[0] == 1 && |s| == 1) then None
    else if s[0] == 0 then Some([])
    else match Unstuff(s[2..])
      case None => None
      case Some(x) => Some([s[1]] + x)
  }

  lemma {:induction false} UnstuffStep(b: byte, s: bytes, x: bytes)
    requires Unstuff(s) == Some(x)
    ensures Unstuff([1, b] + s) == Some([b] + x)
  {
    assert ([1, b] + s)[2..] == s;
  }

  lemma {:induction false} StuffLaw(x: bytes, rest: bytes)
    ensures Unstuff(Stuff(x) + rest) == Some(x) && |Stuff(x)| == 2 * |x| + 1
  {
    if x == [] {
      assert Stuff(x) + rest == [0] + rest;
    } else {
      var tail := x[1..];
      StuffLaw(tail, rest);
      UnstuffStep(x[0], Stuff(tail) + rest, tail);
      assert Stuff(x) + rest == [1, x[0]] + (Stuff(tail) + rest);
      assert x == [x[0]] + tail;
    }
  }

  function Deflate(x: bytes): bytes {
    [0x78] + Stuff(x)
  }

  function Inflate(s: bytes, room: nat): Option<bytes> {
    if s == [] || s[0] != 0x78 then None
    else match Unstuff(s[1..])
      case None => None
      case Some(x) => if room < |x| then None else Some(x)
  }

  lemma {:induction false} InflateDeflate(x: bytes, rest: bytes, room: nat)
    ensures Inflate(Deflate(x) + rest, room) == if room < |x| then None else Some(x)
    ensures |Deflate(x)| == 2 * |x| + 2
  {
    StuffLaw(x, rest);
    assert (Deflate(x) + rest)[1..] == Stuff(x) + rest;
  }

  /** What is asked of zlib can be met, so no result rests on a contradiction. */
  lemma {:induction false} ZlibLawConsistent() returns (z: Zlib)
    ensures ZlibLaw(z) && HeaderLaw(z)
  {
    z := Zlib(Deflate, n => 2 * n + 2, Inflate);
    forall x: bytes
      ensures |z.compress(x)| <= z.bound(|x|)
    {
      InflateDeflate(x, [], 0);
    }
    forall x: bytes, rest: bytes, room: nat
      ensures z.uncompress(z.compress(x) + rest, room) == if room < |x| then None else Some(x)
    {
      InflateDeflate(x, rest, room);
    }
  }

  // ---------- writing ----------

  function Wrap(z: Zlib, b: bytes, w: nat): bytes {
    ZLIB_ID + LE(|b|, w) + z.compress(b)
  }

  /** The compression rate test, on exact numbers. */
  predicate WorthIt(oldLen: nat, newLen: nat) {
    (oldLen as real) / ((|ZLIB_ID| + 8 + newLen) as real) > 1.1
  }

  /** What is stored for the serialized bytes `b`. */
  function Pack(z: Zlib, enable: bool, b: bytes): bytes {
    if enable && |b| > MIN_LEN_ZLIB && WorthIt(|b|, |z.compress(b)|) then Wrap(z, b, 8) else b
  }

  lemma {:induction false} RateIsExact(oldLen: nat, newLen: nat)
    ensures WorthIt(oldLen, newLen) <==> 10 * oldLen > 11 * (14 + newLen)
  {
    QuotientAbove(oldLen as real, (14 + newLen) as real, 1.1);
  }

  lemma {:induction false} QuotientAbove(a: real, n: real, q: real)
    requires n > 0.0
    ensures a / n > q <==> a > q * n
  {
    var d := a / n;
    assert d * n == a;
    if d > q {
      assert (d - q) * n > 0.0;
    } else {
      assert (q - d) * n >= 0.0;
    }
  }

  /** A stored blob is never longer than its serialization; a compressed one is
      shorter by more than a tenth of itself. */
  lemma {:induction false} PackSize(z: Zlib, enable: bool, b: bytes)
    ensures |Pack(z, enable, b)| <= |b|
    ensures Pack(z, enable, b) == b
         || (enable && |b| > MIN_LEN_ZLIB && 10 * |b| > 11 * |Pack(z, enable, b)|
             && Pack(z, enable, b) == Wrap(z, b, 8) && |Pack(z, enable, b)| == 14 + |z.compress(b)|)
  {
    RateIsExact(|b|, |z.compress(b)|);
  }

  /** zlib's `compress` into a buffer: fails when the output does not fit. */
  method Compress(z: Zlib, dest: array<byte>, src: bytes) returns (ok: bool, len: nat)
    modifies dest
    ensures ok <==> |z.compress(src)| <= dest.Length
    ensures ok ==> len == |z.compress(src)| && dest[..len] == z.compress(src)
  {
    var stream := z.compress(src);
    ok, len := |stream| <= dest.Length, |stream|;
    if ok {
      for i := 0 to |stream|
        invariant dest[..i] == stream[..i]
      {
        dest[i] := stream[i];
      }
      assert stream[..len] == stream;
    }
  }

  /** The compression step of the argument loop.  `pcmp` is the scratch buffer,
      reallocated when it is smaller than `compressBound` asks for, so that
      compression cannot fail. */
  method PackArgument(z: Zlib, pcmp: array<byte>, enable: bool, ser: bytes)
    returns (r: Result<bytes>, pcmp': array<byte>)
    requires ZlibLaw(z)
    modifies pcmp
    ensures r == Success(Pack(z, enable, ser))
    ensures pcmp' == pcmp || fresh(pcmp')
    ensures pcmp'.Length >= pcmp.Length
    ensures enable && |ser| > MIN_LEN_ZLIB ==> pcmp'.Length >= z.bound(|ser|)
  {
    pcmp' := pcmp;
    if enable && |ser| > MIN_LEN_ZLIB {
      var maxLen := z.bound(|ser|);
      if maxLen > pcmp.Length {
        pcmp' := new byte[maxLen](_ => 0);
      }
      var ok, len := Compress(z, pcmp', ser);
      if !ok {
        return Failure(CompressionFailed), pcmp';
      }
      var rate := (|ser| as real) / ((|ZLIB_ID| + 8 + len) as real);
      if rate > 1.1 {
        return Success(ZLIB_ID + LE(|ser|, 8) + pcmp'[..len]), pcmp';
      }
    }
    return Success(ser), pcmp';
  }

  // ---------- reading ----------

  /** `strcmp` with a tag that carries its own NUL. */
  predicate HasTag(mem: bytes, tag: bytes) {
    tag <= mem
  }

  /** `strcasecmp` with "dj0". */
  predicate IsDj0(mem: bytes) {
    |mem| >= 4 && Lower(mem[0]) == 100 && Lower(mem[1]) == 106 && mem[2] == 48 && mem[3] == 0
  }

  /** Memory ends before the comparison with the tag is decided. */
  predicate CutOff(mem: bytes, tag: bytes) {
    |mem| < |tag| && mem == tag[..|mem|]
  }

  predicate CutOffDj0(mem: bytes) {
    && |mem| < 4 && (|mem| > 0 ==> Lower(mem[0]) == 100) && (|mem| > 1 ==> Lower(mem[1]) == 106)
    && (|mem| > 2 ==> mem[2] == 48)
  }

  /** An n-by-1 uint8 array. */
  function ByteColumn(b: bytes): Value {
    Arr([|b|, 1], UINT8_CLASS, b, None)
  }

  function Dump(mem: bytes, offset: nat, length: nat): Result<Value> {
    if offset + length <= |mem| then Success(ByteColumn(mem[offset..offset + length])) else Failure(OutOfBuffer)
  }

  predicate KnownTag(b: byte) {
    b == ID_ARRAY || b == ID_SPARSE || b == ID_STRUCT || b == ID_CELL
  }

  /** Errors the readers raise themselves, which `deserialize` catches. */
  predicate Raised(e: Error) {
    e == SizeLimit || e == UnknownTag
  }

  /** What the bytes at `mem` stand for once any compression is undone.  Behind
      an mYm header with an unknown tag the bytes after the header are returned;
      after an error that was caught, the bytes from the start of the blob, `blob`,
      which are still compressed if `mem` is not. */
  function Payload(mem: bytes, blob: bytes, length: nat, pl: Platform): Result<Value> {
    if CutOffDj0(mem) || CutOff(mem, MATLAB_ID) then Failure(OutOfBuffer)
    else if IsDj0(mem) then Failure(DataJointPython)
    else if HasTag(mem, MATLAB_ID) then
      if |mem| == |MATLAB_ID| then Failure(OutOfBuffer)
      else if KnownTag(mem[|MATLAB_ID|]) then
        match DecodeValue(mem, |MATLAB_ID|, pl)
        case Ok(v, _) => Success(v)
        case Err(e) => if Raised(e) then Dump(blob, 0, length) else Failure(e)
      else Dump(mem, |MATLAB_ID|, length)
    else Dump(mem, 0, length)
  }

  /** The output buffer of `uncompress`: `len` bytes, zeroed beyond the output. */
  function Scratch(out: bytes, len: nat): bytes {
    seq(len, i requires 0 <= i => if i < |out| then out[i] else 0)
  }

  /** What zlib is given to read: `length` bytes although the stream starts only
      at `p`, so that memory after the blob is included. */
  function Window(mem: bytes, p: nat, length: nat): bytes
    requires p <= |mem|
  {
    if p + length <= |mem| then mem[p..p + length] else mem[p..]
  }

  /** `mem` is memory from the start of the blob; the blob is its first `length`
      bytes. */
  function Deserialize(z: Zlib, mem: bytes, length: nat, pl: Platform): Result<Value> {
    if CutOff(mem, ZLIB_ID) then Failure(OutOfBuffer)
    else if HasTag(mem, ZLIB_ID) then
      match ReadUint(mem, |ZLIB_ID|, pl)
      case Err(e) => Failure(e)
      case Ok(len, p) =>
        match z.uncompress(Window(mem, p, length), len % TWO_32)
        case Some(out) => Payload(Scratch(out, len), mem, len, pl)
        case None => Payload(mem, mem, length, pl)
    else Payload(mem, mem, length, pl)
  }

  /** `strcmp`; `cut` if memory ends before it is decided. */
  method CompareTag(mem: array<byte>, tag: bytes) returns (cut: bool, same: bool)
    ensures cut == CutOff(mem[..], tag) && same == HasTag(mem[..], tag)
  {
    for i := 0 to |tag|
      invariant i <= mem.Length && tag[..i] == mem[..i]
    {
      if i == mem.Length {
        assert mem[..] == tag[..i];
        return true, false;
      }
      if mem[i] != tag[i] {
        assert mem[..][i] != tag[i];
        return false, false;
      }
    }
    assert tag == mem[..|tag|];
    return false, true;
  }

  method DumpBytes(mem: array<byte>, p: nat, length: nat) returns (r: Result<Value>)
    ensures r == Dump(mem[..], p, length)
  {
    if p + length > mem.Length {
      return Failure(OutOfBuffer);
    }
    assert mem[..][p..p + length] == mem[p..p + length];
    return Success(ByteColumn(mem[p..p + length]));
  }

  method DeserializePayload(mem: array<byte>, blob: array<byte>, length: nat, pl: Platform) returns (r: Result<Value>)
    ensures r == Payload(mem[..], blob[..], length, pl)
  {
    var cut, isMym := CompareTag(mem, MATLAB_ID);
    if cut || CutOffDj0(mem[..]) {
      return Failure(OutOfBuffer);
    }
    if IsDj0(mem[..]) {
      return Failure(DataJointPython);
    }
    var p := 0;
    if isMym {
      p := |MATLAB_ID|;
      if p == mem.Length {
        return Failure(OutOfBuffer);
      }
      if KnownTag(mem[p]) {
        var d := Deserializer.DeserializeValue(mem, p, pl);
        if d.Ok? {
          return Success(d.value);
        }
        if !Raised(d.error) {
          return Failure(d.error);
        }
        r := DumpBytes(blob, 0, length);
        return;
      }
    }
    r := DumpBytes(mem, p, length);
  }

  /** The `deserialize` entry point. */
  method DeserializeBlob(z: Zlib, mem: array<byte>, length: nat, pl: Platform) returns (r: Result<Value>)
    ensures r == Deserialize(z, mem[..], length, pl)
  {
    var serial, size := mem, length;
    var cut, compressed := CompareTag(mem, ZLIB_ID);
    if cut {
      return Failure(OutOfBuffer);
    }
    if compressed {
      var len := Deserializer.ReadLength(mem, |ZLIB_ID|, pl);
      if len.Err? {
        return Failure(len.error);
      }
      var src := if len.end + length <= mem.Length then mem[len.end..len.end + length] else mem[len.end..];
      assert src == Window(mem[..], len.end, length);
      var res := z.uncompress(src, len.value % TWO_32);
      if res.Some? {
        var out := res.value;
        var cmp := new byte[len.value](i requires 0 <= i => if i < |out| then out[i] else 0);
        assert cmp[..] == Scratch(out, len.value);
        serial, size := cmp, len.value;
      }
    }
    r := DeserializePayload(serial, mem, size, pl);
  }

  // ---------- what a reader gets back ----------

  lemma {:induction false} WrapParts(n: bytes, c: bytes, after: bytes)
    ensures var mem := ZLIB_ID + n + c + after;
            HasTag(mem, ZLIB_ID) && At(mem, |ZLIB_ID|, n) && mem[|ZLIB_ID| + |n|..] == c + after
  {
    AtMiddle(ZLIB_ID, n, c + after);
    assert ZLIB_ID + n + (c + after) == ZLIB_ID + n + c + after;
  }

  lemma {:induction false} WrapLayout(z: Zlib, b: bytes, after: bytes, pl: Platform)
    requires |b| < pl.Limit()
    ensures HasTag(Wrap(z, b, pl.field) + after, ZLIB_ID)
    ensures Gives(ReadUint(Wrap(z, b, pl.field) + after, |ZLIB_ID|, pl), |b|, |ZLIB_ID| + pl.field)
    ensures exists rest :: Window(Wrap(z, b, pl.field) + after, |ZLIB_ID| + pl.field, |Wrap(z, b, pl.field)|)
                        == z.compress(b) + rest
  {
    var n := LE(|b|, pl.field);
    var c := z.compress(b);
    var mem := Wrap(z, b, pl.field) + after;
    WrapParts(n, c, after);
    ReadUintAt(mem, |ZLIB_ID|, |b|, pl);
    var k := |ZLIB_ID| + pl.field;
    var w := Window(mem, k, |Wrap(z, b, pl.field)|);
    assert w == c + w[|c|..] by {
      assert |w| >= |c| && w[..|c|] == mem[k..][..|c|] == c;
    }
  }

  lemma {:induction false} ScratchExact(b: bytes)
    ensures Scratch(b, |b|) == b
  {
  }

  /** Behind an mYm header lies something the readers raise an error for. */
  ghost predicate Malformed(mem: bytes, pl: Platform) {
    && HasTag(mem, MATLAB_ID) && |mem| > |MATLAB_ID| && KnownTag(mem[|MATLAB_ID|])
    && DecodeValue(mem, |MATLAB_ID|, pl).Err? && Raised(DecodeValue(mem, |MATLAB_ID|, pl).error)
  }

  /** A cell whose first element has an unknown tag, for one. */
  lemma {:induction false} UnknownElementIsMalformed(dims: seq<nat>, n: nat, tag: byte, rest: bytes, pl: Platform)
    requires |dims| >= 2 && 0 < Numel(dims) < INT_LIMIT && |dims| < pl.Limit() && NumbersFit(dims, pl)
    requires n < pl.Limit() && !KnownTag(tag)
    ensures Malformed(MATLAB_ID + ([ID_CELL] + Dims(dims, pl.field) + (LE(n, pl.field) + [tag] + rest)), pl)
  {
    var body := LE(n, pl.field) + [tag] + rest;
    var cell := [ID_CELL] + Dims(dims, pl.field) + body;
    var mem := MATLAB_ID + cell;
    assert mem == MATLAB_ID + cell + [];
    AtMiddle(MATLAB_ID, cell, []);
    var q := 5 + |Dims(dims, pl.field)|;
    CellReads(dims, body, mem, 4, pl);
    AtConcat3(mem, q, LE(n, pl.field), [tag], rest);
    ReadUintAt(mem, q, n, pl);
    var c := q + pl.field;
    AtByte(mem, c, tag);
    assert DecodeValue(mem, c, pl) == Err(UnknownTag);
    assert DecodeChildren(mem, q, Numel(dims), pl) == Err(UnknownTag);
    assert DecodeValue(mem, 4, pl) == DecodeCell(mem, 5, pl);
  }

  lemma {:induction false} Unwrapped(z: Zlib, b: bytes, after: bytes, pl: Platform)
    requires ZlibLaw(z) && |b| < TWO_32
    ensures var mem := Wrap(z, b, pl.field) + after;
            Deserialize(z, mem, |Wrap(z, b, pl.field)|, pl) == Payload(b, mem, |b|, pl)
  {
    WrapLayout(z, b, after, pl);
    var window := Window(Wrap(z, b, pl.field) + after, |ZLIB_ID| + pl.field, |Wrap(z, b, pl.field)|);
    var rest :| window == z.compress(b) + rest;
    assert z.uncompress(window, |b|) == Some(b);
    ScratchExact(b);
  }

  /** The blob's own bytes matter only when an error was caught. */
  lemma {:induction false} PayloadOfBlob(b: bytes, blob: bytes, length: nat, pl: Platform)
    requires !Malformed(b, pl)
    ensures Payload(b, blob, length, pl) == Payload(b, b, length, pl)
  {
  }

  /** When one was, the bytes from the start of the blob come back. */
  lemma {:induction false} CaughtDumpsBlob(b: bytes, blob: bytes, length: nat, pl: Platform)
    requires Malformed(b, pl)
    ensures Payload(b, blob, length, pl) == Dump(blob, 0, length)
  {
    assert b[0] == 109;
  }

  /** Compression is transparent: up to 2^32 bytes, a wrapped blob reads exactly
      as its content does, whatever lies in memory after it, unless the content
      is malformed, or ends within the tag of a compressed blob; then it never
      does. */
  lemma {:induction false} EnvelopeTransparent(z: Zlib, b: bytes, after: bytes, pl: Platform)
    requires ZlibLaw(z) && |b| < TWO_32
    ensures var mem := Wrap(z, b, pl.field) + after;
            !HasTag(b, ZLIB_ID) ==>
              (Deserialize(z, mem, |Wrap(z, b, pl.field)|, pl) == Deserialize(z, b, |b|, pl)
          <==> !Malformed(b, pl) && (b == [] || !CutOff(b, ZLIB_ID)))
  {
    var mem := Wrap(z, b, pl.field) + after;
    Unwrapped(z, b, after, pl);
    if Malformed(b, pl) {
      CaughtDumpsBlob(b, mem, |b|, pl);
      CaughtDumpsBlob(b, b, |b|, pl);
      assert b[0] == 109 && mem[0] == 90;
      assert b[0..|b|] == b;
      if |b| <= |mem| {
        assert mem[0..|b|][0] == 90;
      }
    } else {
      PayloadOfBlob(b, mem, |b|, pl);
      assert b[0..|b|] == b;
    }
  }

  /** A malformed blob comes back byte for byte if it was not compressed.  If it
      was, the copy starts at the compressed blob but has the length of the
      content: it takes in memory after the blob, or runs out of it. */
  lemma {:induction false} MalformedComesBack(z: Zlib, enable: bool, b: bytes, after: bytes, size: width)
    requires ZlibLaw(z) && |b| < TWO_32 && Malformed(b, Platform(8, size))
    requires Malformed(b + after, Platform(8, size))
    ensures var blob := Pack(z, enable, b);
            Deserialize(z, blob + after, |blob|, Platform(8, size)) ==
              if |b| <= |blob + after| then Success(ByteColumn((blob + after)[..|b|])) else Failure(OutOfBuffer)
    ensures Pack(z, enable, b) != b ==> |Pack(z, enable, b)| < |b|
  {
    var pl := Platform(8, size);
    var blob := Pack(z, enable, b);
    PackSize(z, enable, b);
    assert |b| <= |blob + after| ==> (blob + after)[0..|b|] == (blob + after)[..|b|];
    if blob == b {
      assert (b + after)[0] == 109;
      CaughtDumpsBlob(b + after, b + after, |b|, pl);
    } else {
      Unwrapped(z, b, after, pl);
      CaughtDumpsBlob(b, blob + after, |b|, pl);
    }
  }

  /** From 2^32 bytes on it is not: the length is cut to 32 bits, zlib runs out
      of room, and the compressed blob itself comes back. */
  lemma {:induction false} OversizeComesBackWrapped(z: Zlib, b: bytes, after: bytes, pl: Platform)
    requires ZlibLaw(z) && TWO_32 <= |b| < pl.Limit()
    ensures Deserialize(z, Wrap(z, b, pl.field) + after, |Wrap(z, b, pl.field)|, pl)
         == Success(ByteColumn(Wrap(z, b, pl.field)))
  {
    WrapLayout(z, b, after, pl);
    var mem := Wrap(z, b, pl.field) + after;
    var window := Window(mem, |ZLIB_ID| + pl.field, |Wrap(z, b, pl.field)|);
    var rest :| window == z.compress(b) + rest;
    assert |b| % TWO_32 < |b|;
    assert z.uncompress(window, |b| % TWO_32) == None;
    assert mem[0] == 90;
    assert mem[0..|Wrap(z, b, pl.field)|] == Wrap(z, b, pl.field);
  }

  /** A blob that only looks compressed comes back byte for byte. */
  lemma {:induction false} UndecompressableComesBack(z: Zlib, blob: bytes, after: bytes, pl: Platform)
    requires HasTag(blob + after, ZLIB_ID) && ReadUint(blob + after, |ZLIB_ID|, pl).Ok?
    requires var len := ReadUint(blob + after, |ZLIB_ID|, pl);
             z.uncompress(Window(blob + after, len.end, |blob|), len.value % TWO_32).None?
    ensures Deserialize(z, blob + after, |blob|, pl) == Success(ByteColumn(blob))
  {
    assert (blob + after)[0] == 90;
    assert (blob + after)[0..|blob|] == blob;
  }

  /** The header and the encoding of a value read back to the value. */
  lemma {:induction false} HeadedRoundTrip(v: Value, after: bytes, blob: bytes, length: nat, pl: Platform)
    requires Storable(v, pl)
    ensures var mem := MATLAB_ID + Encode(v, pl.field) + after;
            Payload(mem, blob, length, pl) == Success(Norm(v)) && !Malformed(mem, pl)
  {
    var mem := MATLAB_ID + Encode(v, pl.field) + after;
    var e := Encode(v, pl.field);
    SubIsSlice(mem, 4, |e|);
    assert mem[4..4 + |e|] == e;
    assert mem[0] == 109;
    EncodeTagged(v, pl.field);
    assert mem[4] == e[0];
    RoundTrip(v, mem, 4, pl);
  }

  lemma {:induction false} EncodeTagged(v: Value, w: nat)
    requires Supported(v)
    ensures Encode(v, w) != [] && KnownTag(Encode(v, w)[0])
  {
  }

  /** Whichever way it was stored, a serialized value reads back as itself with
      NULL elements filled in. */
  lemma {:induction false} PackedRoundTrip(z: Zlib, enable: bool, v: Value, after: bytes, size: width)
    requires ZlibLaw(z) && Storable(v, Platform(8, size)) && |MATLAB_ID + Encode(v, 8)| < TWO_32
    ensures var blob := Pack(z, enable, MATLAB_ID + Encode(v, 8));
            Deserialize(z, blob + after, |blob|, Platform(8, size)) == Success(Norm(v))
  {
    var pl := Platform(8, size);
    var b := MATLAB_ID + Encode(v, 8);
    if Pack(z, enable, b) == b {
      assert (b + after)[0] == 109;
      HeadedRoundTrip(v, after, b + after, |b|, pl);
    } else {
      Unwrapped(z, b, after, pl);
      HeadedRoundTrip(v, [], Wrap(z, b, 8) + after, |b|, pl);
      assert b + [] == b;
    }
  }

  /** Bytes that carry none of the tags come back as they are, packed or not. */
  lemma {:induction false} RawRoundTrip(z: Zlib, enable: bool, b: bytes, after: bytes, size: width)
    requires ZlibLaw(z) && |b| < TWO_32 && after != [] && after[0] == 0
    requires !HasTag(b + [0], ZLIB_ID) && !HasTag(b + [0], MATLAB_ID) && !IsDj0(b + [0])
    ensures var blob := Pack(z, enable, b);
            Deserialize(z, blob + after, |blob|, Platform(8, size)) == Success(ByteColumn(b))
  {
    var pl := Platform(8, size);
    if Pack(z, enable, b) == b {
      NotCutOff(b, after, ZLIB_ID);
      NotCutOff(b, after, MATLAB_ID);
      assert (b + after)[|b|] == 0;
      if HasTag(b + after, ZLIB_ID) {
        TagFound(b, after, ZLIB_ID);
      } else if HasTag(b + after, MATLAB_ID) {
        TagFound(b, after, MATLAB_ID);
      } else if IsDj0(b + after) {
        Dj0Found(b, after);
      }
      assert (b + after)[0..|b|] == b;
    } else {
      Unwrapped(z, b, after, pl);
      if HasTag(b, MATLAB_ID) {
        TagStays(b, MATLAB_ID);
      }
      assert b[0..|b|] == b;
    }
  }

  /** A NUL-terminated tag found in memory lies in `b` and its terminator. */
  lemma {:induction false} TagFound(b: bytes, after: bytes, tag: bytes)
    requires after != [] && after[0] == 0 && tag != []
    requires tag[|tag| - 1] == 0 && forall k :: 0 <= k < |tag| - 1 ==> tag[k] != 0
    requires HasTag(b + after, tag)
    ensures HasTag(b + [0], tag)
  {
    var mem := b + after;
    if |b| < |tag| {
      assert tag[|b|] == mem[|b|] == 0;
      assert |b| == |tag| - 1;
      assert tag == mem[..|tag|] == b + [0];
    } else {
      assert tag == mem[..|tag|] == (b + [0])[..|tag|];
    }
  }

  /** Memory with a NUL behind the blob never ends within a tag. */
  lemma {:induction false} NotCutOff(b: bytes, after: bytes, tag: bytes)
    requires after != [] && after[0] == 0 && tag != [] && forall k :: 0 <= k < |tag| - 1 ==> tag[k] != 0
    ensures !CutOff(b + after, tag)
  {
    assert (b + after)[|b|] == 0;
  }

  lemma {:induction false} TagStays(b: bytes, tag: bytes)
    requires HasTag(b, tag)
    ensures HasTag(b + [0], tag)
  {
    assert (b + [0])[..|tag|] == b[..|tag|];
  }

  lemma {:induction false} Dj0Found(b: bytes, after: bytes)
    requires after != [] && after[0] == 0 && IsDj0(b + after)
    ensures IsDj0(b + [0])
  {
    assert (b + after)[|b|] == 0;
  }

  /** Behind an mYm header with an unknown tag, memory shifted by the header is
      returned, not the blob. */
  lemma {:induction false} UnknownTagShifts(z: Zlib, body: bytes, after: bytes, pl: Platform)
    requires body != [] && !KnownTag(body[0]) && |after| >= 4
    ensures Deserialize(z, MATLAB_ID + body + after, 4 + |body|, pl) == Success(ByteColumn(body + after[..4]))
  {
    var mem := MATLAB_ID + body + after;
    assert mem[0] == 109 && mem[4] == body[0];
    assert mem[4..4 + (4 + |body|)] == body + after[..4];
  }
}
