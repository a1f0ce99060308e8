/** What comes back from a blob, case by case, with the bytes of all tags spelled
    out. */
module Reading {
  import opened Bytes
  import opened MatlabValue
  import opened Decoding
  import opened Envelope

  // ---------- writing ----------

  /** Exactly which blobs are stored compressed, and in what form. */
  lemma {:induction false} PackIff(z: Zlib, enable: bool, b: bytes)
    ensures Pack(z, enable, b) ==
              if enable && |b| > 1000 && 10 * |b| > 11 * (14 + |z.compress(b)|)
              then [90, 76, 49, 50, 51, 0] + LE(|b|, 8) + z.compress(b)
              else b
  {
    RateIsExact(|b|, |z.compress(b)|);
  }

  // ---------- tags in memory ----------

  /** d or D, j or J, 0, NUL. */
  predicate StartsDj0(mem: bytes) {
    |mem| >= 4 && (mem[0] == 100 || mem[0] == 68) && (mem[1] == 106 || mem[1] == 74) && mem[2] == 48 && mem[3] == 0
  }

  predicate StartsMym(mem: bytes) {
    |mem| >= 4 && mem[0] == 109 && mem[1] == 89 && mem[2] == 109 && mem[3] == 0
  }

  predicate StartsZlib(mem: bytes) {
    && |mem| >= 6 && mem[0] == 90 && mem[1] == 76 && mem[2] == 49 && mem[3] == 50 && mem[4] == 51 && mem[5] == 0
  }

  /** Memory ends while it still agrees with the tag. */
  predicate EndsInMym(mem: bytes) {
    && |mem| < 4 && (|mem| > 0 ==> mem[0] == 109) && (|mem| > 1 ==> mem[1] == 89) && (|mem| > 2 ==> mem[2] == 109)
  }

  predicate EndsInDj0(mem: bytes) {
    && |mem| < 4 && (|mem| > 0 ==> mem[0] == 100 || mem[0] == 68) && (|mem| > 1 ==> mem[1] == 106 || mem[1] == 74)
    && (|mem| > 2 ==> mem[2] == 48)
  }

  predicate EndsInZlib(mem: bytes) {
    && |mem| < 6 && (|mem| > 0 ==> mem[0] == 90) && (|mem| > 1 ==> mem[1] == 76) && (|mem| > 2 ==> mem[2] == 49)
    && (|mem| > 3 ==> mem[3] == 50) && (|mem| > 4 ==> mem[4] == 51)
  }

  lemma {:induction false} TagsSpelled(mem: bytes)
    ensures HasTag(mem, [109, 89, 109, 0]) <==> StartsMym(mem)
    ensures HasTag(mem, [90, 76, 49, 50, 51, 0]) <==> StartsZlib(mem)
    ensures CutOff(mem, [109, 89, 109, 0]) <==> EndsInMym(mem)
    ensures CutOff(mem, [90, 76, 49, 50, 51, 0]) <==> EndsInZlib(mem)
    ensures CutOffDj0(mem) <==> EndsInDj0(mem)
    ensures IsDj0(mem) <==> StartsDj0(mem)
  {
  }

  // ---------- the cases ----------

  /** `n` bytes from `p` as an n-by-1 uint8 array. */
  ghost predicate IsDump(r: Result<Value>, mem: bytes, p: nat, n: nat) {
    r == if p + n <= |mem| then Success(Arr([n, 1], 9, mem[p..p + n], None)) else Failure(OutOfBuffer)
  }

  predicate KindTag(b: byte) {
    b == 65 || b == 80 || b == 83 || b == 67
  }

  /** What `mem` reads as, once any compression is undone; `blob` is memory from
      where the blob starts. */
  ghost predicate Outcome(r: Result<Value>, mem: bytes, blob: bytes, n: nat, pl: Platform) {
    if EndsInDj0(mem) || EndsInMym(mem) then r == Failure(OutOfBuffer)
    else if StartsDj0(mem) then r == Failure(DataJointPython)
    else if !StartsMym(mem) then IsDump(r, mem, 0, n)
    else if |mem| == 4 then r == Failure(OutOfBuffer)
    else if !KindTag(mem[4]) then IsDump(r, mem, 4, n)
    else
      match DecodeValue(mem, 4, pl)
      case Ok(v, _) => r == Success(v)
      case Err(e) => if e == SizeLimit || e == UnknownTag then IsDump(r, blob, 0, n) else r == Failure(e)
  }

  lemma {:induction false} PayloadOutcome(mem: bytes, blob: bytes, n: nat, pl: Platform)
    ensures Outcome(Payload(mem, blob, n, pl), mem, blob, n, pl)
  {
    TagsSpelled(mem);
  }

  /** The content of a compressed blob in a buffer of the stored length. */
  ghost predicate Fills(content: bytes, out: bytes, len: nat) {
    |content| == len && forall i :: 0 <= i < len ==> content[i] == if i < |out| then out[i] else 0
  }

  /** Without the tag of a compressed blob, memory is read as it is. */
  lemma {:induction false} PlainOutcome(z: Zlib, mem: bytes, n: nat, pl: Platform)
    requires !StartsZlib(mem)
    ensures if EndsInZlib(mem) then Deserialize(z, mem, n, pl) == Failure(OutOfBuffer)
            else Outcome(Deserialize(z, mem, n, pl), mem, mem, n, pl)
  {
    TagsSpelled(mem);
    PayloadOutcome(mem, mem, n, pl);
  }

  /** With it, zlib is given as many bytes behind the length as the blob has in all
      (or memory holds), and room for the length cut to 32 bits; if it reports an
      error the blob is read as it is, which makes it a dump. */
  lemma {:induction false} CompressedOutcome(z: Zlib, mem: bytes, n: nat, pl: Platform) returns (content: bytes)
    requires StartsZlib(mem) && ReadUint(mem, 6, pl).Ok?
    ensures var len := Load(mem, 6, pl.field);
            var p := 6 + pl.field;
            var window := mem[p..if p + n <= |mem| then p + n else |mem|];
            match z.uncompress(window, len % 0x1_0000_0000)
            case None => IsDump(Deserialize(z, mem, n, pl), mem, 0, n)
            case Some(out) => Fills(content, out, len) && Outcome(Deserialize(z, mem, n, pl), content, mem, len, pl)
  {
    TagsSpelled(mem);
    var len := Load(mem, 6, pl.field);
    var p := 6 + pl.field;
    var window := mem[p..if p + n <= |mem| then p + n else |mem|];
    assert window == Window(mem, p, n);
    var out := z.uncompress(window, len % 0x1_0000_0000);
    content := if out.Some? then Scratch(out.value, len) else [];
    PayloadOutcome(content, mem, len, pl);
    PayloadOutcome(mem, mem, n, pl);
  }

  lemma {:induction false} LengthUnreadable(z: Zlib, mem: bytes, n: nat, pl: Platform)
    requires StartsZlib(mem) && ReadUint(mem, 6, pl).Err?
    ensures Deserialize(z, mem, n, pl) == Failure(ReadUint(mem, 6, pl).error)
  {
    TagsSpelled(mem);
  }

  // ---------- DataJoint for Python ----------

  predicate ReadError(e: Error) {
    e == OutOfBuffer || e == SizeLimit || e == BadArray || e == UnknownTag
  }

  lemma {:induction false} UintsErrors(s: bytes, p: nat, n: nat, pl: Platform)
    requires p <= |s| && ReadUints(s, p, n, pl).Err?
    ensures ReadError(ReadUints(s, p, n, pl).error)
    decreases n
  {
    var x := ReadUint(s, p, pl);
    if x.Ok? {
      UintsErrors(s, x.end, n - 1, pl);
    }
  }

  lemma {:induction false} DimsErrors(s: bytes, p: nat, pl: Platform)
    requires ReadDims(s, p, pl).Err?
    ensures ReadError(ReadDims(s, p, pl).error)
  {
    var n := ReadUint(s, p, pl);
    if n.Ok? {
      UintsErrors(s, n.end, n.value, pl);
    }
  }

  lemma {:induction false} NamesErrors(s: bytes, p: nat, n: nat)
    requires p <= |s| && ReadNames(s, p, n).Err?
    ensures ReadError(ReadNames(s, p, n).error)
    decreases n
  {
    var e := StrEnd(s, p);
    if e.Some? {
      NamesErrors(s, e.value + 1, n - 1);
    }
  }

  lemma {:induction false} ArrErrors(s: bytes, p: nat, pl: Platform)
    requires DecodeArr(s, p, pl).Err?
    ensures ReadError(DecodeArr(s, p, pl).error)
  {
    if ReadDims(s, p, pl).Err? {
      DimsErrors(s, p, pl);
    }
  }

  lemma {:induction false} BodyErrors(s: bytes, p: nat, h: SparseHead, pl: Platform)
    requires p <= |s| && SparseBody(s, p, h, pl).Err?
    ensures ReadError(SparseBody(s, p, h, pl).error)
  {
    var jc := ReadUints(s, p, h.cols + 1, pl);
    if jc.Err? {
      UintsErrors(s, p, h.cols + 1, pl);
    } else if ReadUints(s, jc.end, h.nzmax, pl).Err? {
      UintsErrors(s, jc.end, h.nzmax, pl);
    }
  }

  lemma {:induction false} SparseErrors(s: bytes, p: nat, pl: Platform)
    requires DecodeSparse(s, p, pl).Err?
    ensures ReadError(DecodeSparse(s, p, pl).error)
  {
    var h := ReadSparseHead(s, p, pl);
    if h.Ok? {
      BodyErrors(s, h.end, h.value, pl);
    }
  }

  lemma {:induction false} CellHeadErrors(s: bytes, p: nat, pl: Platform)
    requires ReadCellHead(s, p, pl).Err?
    ensures ReadError(ReadCellHead(s, p, pl).error)
  {
    if ReadDims(s, p, pl).Err? {
      DimsErrors(s, p, pl);
    }
  }

  lemma {:induction false} StructHeadErrors(s: bytes, p: nat, pl: Platform)
    requires ReadStructHead(s, p, pl).Err?
    ensures ReadError(ReadStructHead(s, p, pl).error)
  {
    var dims := ReadDims(s, p, pl);
    if dims.Err? {
      DimsErrors(s, p, pl);
    } else {
      var n := ReadInt(s, dims.end);
      if n.Ok? && ReadNames(s, n.end, n.value).Err? {
        NamesErrors(s, n.end, n.value);
      }
    }
  }

  lemma {:induction false} ValueErrors(s: bytes, p: nat, pl: Platform)
    requires p <= |s| && DecodeValue(s, p, pl).Err?
    ensures ReadError(DecodeValue(s, p, pl).error)
    decreases |s| - p, 0
  {
    if p == |s| {
    } else if s[p] == 65 {
      ArrErrors(s, p + 1, pl);
    } else if s[p] == 80 {
      SparseErrors(s, p + 1, pl);
    } else if s[p] == 83 {
      StructErrors(s, p + 1, pl);
    } else if s[p] == 67 {
      CellErrors(s, p + 1, pl);
    }
  }

  lemma {:induction false} CellErrors(s: bytes, p: nat, pl: Platform)
    requires p <= |s| && DecodeCell(s, p, pl).Err?
    ensures ReadError(DecodeCell(s, p, pl).error)
    decreases |s| - p, 1
  {
    var head := ReadCellHead(s, p, pl);
    if head.Err? {
      CellHeadErrors(s, p, pl);
    } else {
      ChildrenErrors(s, head.end, Numel(head.value), pl);
    }
  }

  lemma {:induction false} StructErrors(s: bytes, p: nat, pl: Platform)
    requires p <= |s| && DecodeStruct(s, p, pl).Err?
    ensures ReadError(DecodeStruct(s, p, pl).error)
    decreases |s| - p, 1
  {
    var head := ReadStructHead(s, p, pl);
    if head.Err? {
      StructHeadErrors(s, p, pl);
    } else {
      ChildrenErrors(s, head.end, Numel(head.value.0) * |head.value.1|, pl);
    }
  }

  lemma {:induction false} ChildrenErrors(s: bytes, p: nat, n: nat, pl: Platform)
    requires p <= |s| && DecodeChildren(s, p, n, pl).Err?
    ensures ReadError(DecodeChildren(s, p, n, pl).error)
    decreases |s| - p, 0, n
  {
    var len := ReadUint(s, p, pl);
    if len.Ok? {
      if DecodeValue(s, len.end, pl).Err? {
        ValueErrors(s, len.end, pl);
      } else if len.end + len.value <= |s| {
        ChildrenErrors(s, len.end + len.value, n - 1, pl);
      }
    }
  }

  /** The readers never report this error themselves. */
  lemma {:induction false} OutcomeDj0(r: Result<Value>, mem: bytes, blob: bytes, n: nat, pl: Platform)
    requires Outcome(r, mem, blob, n, pl)
    ensures r == Failure(DataJointPython) <==> StartsDj0(mem)
  {
    if StartsMym(mem) && |mem| > 4 && DecodeValue(mem, 4, pl).Err? {
      ValueErrors(mem, 4, pl);
    }
  }

  /** A blob is refused as one of DataJoint for Python if and only if its bytes, or
      those it decompresses to, start with d or D, j or J, 0, NUL. */
  lemma {:induction false} DataJointIff(z: Zlib, mem: bytes, n: nat, pl: Platform) returns (content: bytes)
    ensures !StartsZlib(mem) ==> (Deserialize(z, mem, n, pl) == Failure(DataJointPython) <==> StartsDj0(mem))
    ensures StartsZlib(mem) && ReadUint(mem, 6, pl).Ok? ==>
      var len := Load(mem, 6, pl.field);
      var p := 6 + pl.field;
      match z.uncompress(mem[p..if p + n <= |mem| then p + n else |mem|], len % 0x1_0000_0000)
      case None => Deserialize(z, mem, n, pl) != Failure(DataJointPython)
      case Some(out) =>
        Fills(content, out, len) && (Deserialize(z, mem, n, pl) == Failure(DataJointPython) <==> StartsDj0(content))
  {
    content := [];
    if !StartsZlib(mem) {
      PlainOutcome(z, mem, n, pl);
      if !EndsInZlib(mem) {
        OutcomeDj0(Deserialize(z, mem, n, pl), mem, mem, n, pl);
      }
    } else if ReadUint(mem, 6, pl).Ok? {
      content := CompressedOutcome(z, mem, n, pl);
      var len := Load(mem, 6, pl.field);
      var p := 6 + pl.field;
      if z.uncompress(mem[p..if p + n <= |mem| then p + n else |mem|], len % 0x1_0000_0000).Some? {
        OutcomeDj0(Deserialize(z, mem, n, pl), content, mem, len, pl);
      }
    }
  }
}
