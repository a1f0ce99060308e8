/** The SERIALIZE and DESERIALIZE commands, and what comes back from one after
    the other. */
module SerialCommands {
  import opened Bytes
  import opened MatlabValue
  import opened Encoding
  import opened Decoding
  import opened CodecProofs
  import opened Envelope
  import opened Placeholders
  import opened QueryRebuild
  import opened Arguments
  import Text

  // ---------- SERIALIZE ----------

  /** The bytes of each output cell. */
  ghost function SerializeCommand(env: Env, t: bytes, args: seq<Value>): Result<seq<bytes>> {
    if args == [] then Success([])
    else
      var spans :- Scan(t, 0, |args|);
      if |spans| != |args| then Failure(PlaceholderCount) else ItemsOf(env, t, spans, args)
  }

  method Serialize(env: Env, q: array<byte>, ghost t: bytes, args: seq<Value>) returns (r: Result<seq<bytes>>)
    requires ZlibLaw(env.zlib) && Holds(q, t)
    requires forall i :: 0 <= i < |args| ==> Writable(args[i])
    modifies q
    ensures r == SerializeCommand(env, t, args)
  {
    if |args| == 0 {
      return Success([]);
    }
    var spans := FindSpans(q, t, |args|);
    if spans.Failure? {
      return Failure(spans.error);
    }
    if |spans.value| != |args| {
      return Failure(PlaceholderCount);
    }
    var kinds := ClassifyAll(q, t, spans.value, args);
    if kinds.Failure? {
      return Failure(kinds.error);
    }
    var nb;
    r, nb := SerializeAll(env, q, t, spans.value, kinds.value, args);
  }

  /** `b` is what placeholder `s` makes of the argument `v`. */
  ghost predicate Stores(env: Env, t: bytes, s: Span, v: Value, b: bytes) {
    var k := Classify(t, s.open + 1, v);
    k.Success? && Suits(k.value.form, v) && Item(env, t, s, k.value, v) == Success(b)
  }

  lemma {:induction false} StoresAt(env: Env, t: bytes, spans: seq<Span>, args: seq<Value>, kinds: seq<Kind>, i: nat,
                                    b: bytes)
    requires |spans| == |kinds| && AllSuit(kinds, args) && i < |spans|
    requires Classify(t, spans[i].open + 1, args[i]) == Success(kinds[i])
    ensures Stores(env, t, spans[i], args[i], b) <==> ItemEach(env, t, spans, kinds, args)[i] == Success(b)
  {
  }

  lemma {:induction false} KindsKnown(t: bytes, spans: seq<Span>, args: seq<Value>, kinds: seq<Kind>)
    requires |spans| <= |args| && KindsOf(t, spans, args) == Success(kinds)
    ensures |spans| == |kinds| && AllSuit(kinds, args)
    ensures forall i :: 0 <= i < |spans| ==> Classify(t, spans[i].open + 1, args[i]) == Success(kinds[i])
  {
    var each := ClassifyEach(t, spans, args);
    KindsSuit(t, spans, args);
    CollectIff(each, |spans|, kinds);
    assert forall i :: 0 <= i < |spans| ==> each[i] == Classify(t, spans[i].open + 1, args[i]);
  }

  /** The items, once it is known what the placeholders ask for. */
  lemma {:induction false} ItemsGiven(env: Env, t: bytes, spans: seq<Span>, args: seq<Value>, kinds: seq<Kind>,
                                      items: seq<bytes>)
    requires |spans| <= |args| && KindsOf(t, spans, args) == Success(kinds)
    ensures ItemsOf(env, t, spans, args) == Success(items)
       <==> |items| == |spans| && forall i :: 0 <= i < |spans| ==> Stores(env, t, spans[i], args[i], items[i])
  {
    KindsKnown(t, spans, args, kinds);
    CollectIff(ItemEach(env, t, spans, kinds, args), |spans|, items);
    if |items| == |spans| {
      forall i | 0 <= i < |spans|
        ensures Stores(env, t, spans[i], args[i], items[i])
           <==> ItemEach(env, t, spans, kinds, args)[i] == Success(items[i])
      {
        StoresAt(env, t, spans, args, kinds, i, items[i]);
      }
    }
  }

  lemma {:induction false} KindsGiven(env: Env, t: bytes, spans: seq<Span>, args: seq<Value>, items: seq<bytes>)
    requires |spans| <= |args| && |items| == |spans|
    requires forall i :: 0 <= i < |spans| ==> Stores(env, t, spans[i], args[i], items[i])
    ensures KindsOf(t, spans, args).Success?
  {
    var each := ClassifyEach(t, spans, args);
    forall i | 0 <= i < |spans|
      ensures each[i].Success?
    {
      assert Stores(env, t, spans[i], args[i], items[i]);
    }
    var kinds := seq(|spans|, i requires 0 <= i < |spans| => each[i].value);
    CollectIff(each, |spans|, kinds);
  }

  lemma {:induction false} ItemsIff(env: Env, t: bytes, spans: seq<Span>, args: seq<Value>, items: seq<bytes>)
    requires |spans| <= |args|
    ensures ItemsOf(env, t, spans, args) == Success(items)
       <==> |items| == |spans| && forall i :: 0 <= i < |spans| ==> Stores(env, t, spans[i], args[i], items[i])
  {
    if KindsOf(t, spans, args).Success? {
      ItemsGiven(env, t, spans, args, KindsOf(t, spans, args).value, items);
    } else if |items| == |spans| && forall i :: 0 <= i < |spans| ==> Stores(env, t, spans[i], args[i], items[i]) {
      KindsGiven(env, t, spans, args, items);
    }
  }

  /** SERIALIZE succeeds exactly when there are as many placeholders as arguments
      and each accepts its own, and cell `i` is made from placeholder `i` and
      argument `i` alone. */
  lemma {:induction false} SerializeIff(env: Env, t: bytes, args: seq<Value>, cells: seq<bytes>)
    ensures SerializeCommand(env, t, args) == Success(cells)
       <==> |cells| == |args| &&
            exists spans ::
              && |spans| == |args| && IsScan(t, 0, |args|, spans)
              && forall i :: 0 <= i < |args| ==> Stores(env, t, spans[i], args[i], cells[i])
  {
    if args == [] {
      assert Scan(t, 0, 0) == Success([]);
      ScanIff(t, 0, 0, []);
    } else {
      if Scan(t, 0, |args|).Success? && |Scan(t, 0, |args|).value| == |args| {
        var spans := Scan(t, 0, |args|).value;
        ScanIff(t, 0, |args|, spans);
        ItemsIff(env, t, spans, args, cells);
      }
      forall spans | |spans| == |args| && IsScan(t, 0, |args|, spans)
        ensures Scan(t, 0, |args|) == Success(spans)
      {
        ScanIff(t, 0, |args|, spans);
      }
    }
  }

  // ---------- DESERIALIZE ----------

  /** `after` is whatever lies in memory behind the argument's data. */
  function DeserializeCommand(z: Zlib, v: Value, after: bytes, pl: Platform): Result<Value>
    requires v.Arr? && |v.dims| >= 2
  {
    if v.re == [] then Success(Arr([0, 0], CHAR_CLASS, [], None))
    else Deserialize(z, v.re + after, BlobLength(v), pl)
  }

  /** The larger of the first two dimensions. */
  function BlobLength(v: Value): nat
    requires v.Arr? && |v.dims| >= 2
  {
    if v.dims[0] > v.dims[1] then v.dims[0] else v.dims[1]
  }

  method DeserializeArgument(z: Zlib, v: Value, mem: array<byte>, ghost after: bytes, pl: Platform)
    returns (r: Result<Value>)
    requires v.Arr? && |v.dims| >= 2 && mem[..] == v.re + after
    ensures r == DeserializeCommand(z, v, after, pl)
  {
    if |v.re| == 0 {
      return Success(Arr([0, 0], CHAR_CLASS, [], None));
    }
    r := DeserializeBlob(z, mem, if v.dims[0] > v.dims[1] then v.dims[0] else v.dims[1], pl);
  }

  /** The length DESERIALIZE assumes is that of the data exactly if the bytes form
      a vector, of either orientation; of a matrix only a part is looked at. */
  lemma {:induction false} WholeBlob(z: Zlib, v: Value, after: bytes, pl: Platform)
    requires Shape(v) && v.Arr? && v.classId == UINT8_CLASS && |v.dims| == 2 && v.re != []
    ensures BlobLength(v) <= |v.re|
    ensures BlobLength(v) == |v.re| <==> IsVector(v)
    ensures DeserializeCommand(z, v, after, pl) == Deserialize(z, v.re + after, BlobLength(v), pl)
  {
    var m, n := v.dims[0], v.dims[1];
    assert v.dims[..1] == [m] && Numel([m]) == Numel([m][..0]) * m;
    assert |v.re| == m * n;
    LargerSide(m, n);
  }

  lemma {:induction false} LargerSide(m: nat, n: nat)
    requires m * n != 0
    ensures m <= m * n && n <= m * n
    ensures m == m * n || n == m * n <==> m == 1 || n == 1
  {
    assert m != 0 && n != 0;
    Times(m, n);
    Times(n, m);
  }

  lemma {:induction false} Times(a: nat, b: nat)
    requires a != 0 && b != 0
    ensures a <= a * b && (a == a * b <==> b == 1)
  {
    if b > 1 {
      Times(a, b - 1);
      assert a * b == a * (b - 1) + a;
    }
  }

  // ---------- one after the other ----------

  /** "{M" or "{uM": a serialized MATLAB value. */
  predicate AsksForMatlab(t: bytes, s: Span) {
    CharAt(t, s.open + 1) == 77 || (CharAt(t, s.open + 1) == 117 && CharAt(t, s.open + 2) == 77)
  }

  /** The values the end-to-end round trip is about. */
  ghost predicate Sendable(v: Value, size: width) {
    !v.Sparse? && Storable(v, Platform(8, size)) && |MATLAB_ID + Encode(v, 8)| < TWO_32
  }

  lemma {:induction false} StoresMatlab(env: Env, t: bytes, s: Span, v: Value, size: width)
    returns (compress: bool)
    requires AsksForMatlab(t, s) && Sendable(v, size)
    ensures Stores(env, t, s, v, Pack(env.zlib, compress, MATLAB_ID + Encode(v, 8)))
  {
    compress := Classify(t, s.open + 1, v).value.compress;
  }

  /** Packed MATLAB values come back, whatever follows them in memory. */
  lemma {:induction false} ComesBack(z: Zlib, compress: bool, v: Value, after: bytes, size: width)
    requires ZlibLaw(z) && Storable(v, Platform(8, size)) && |MATLAB_ID + Encode(v, 8)| < TWO_32
    ensures var blob := Pack(z, compress, MATLAB_ID + Encode(v, 8));
            DeserializeCommand(z, ByteColumn(blob), after, Platform(8, size)) == Success(Norm(v))
  {
    PackedRoundTrip(z, compress, v, after, size);
  }

  ghost predicate CellGives(z: Zlib, cell: bytes, v: Value, size: width) {
    forall after: bytes :: DeserializeCommand(z, ByteColumn(cell), after, Platform(8, size)) == Success(v)
  }

  lemma {:induction false} OneCell(env: Env, t: bytes, s: Span, v: Value, cell: bytes, size: width)
    requires ZlibLaw(env.zlib) && AsksForMatlab(t, s) && Sendable(v, size)
    requires Stores(env, t, s, v, cell)
    ensures CellGives(env.zlib, cell, Norm(v), size)
  {
    var compress := StoresMatlab(env, t, s, v, size);
    forall after: bytes
      ensures DeserializeCommand(env.zlib, ByteColumn(cell), after, Platform(8, size)) == Success(Norm(v))
    {
      ComesBack(env.zlib, compress, v, after, size);
    }
  }

  /** End to end: any number of MATLAB placeholders, each with its own
      compression choice, and as many arguments.  SERIALIZE succeeds, and
      DESERIALIZE of each cell gives its argument with NULL elements filled in. */
  lemma {:induction false} EndToEnd(env: Env, t: bytes, args: seq<Value>, spans: seq<Span>, size: width)
    requires ZlibLaw(env.zlib) && |spans| == |args| && IsScan(t, 0, |args|, spans)
    requires forall i :: 0 <= i < |args| ==> AsksForMatlab(t, spans[i]) && Sendable(args[i], size)
    ensures SerializeCommand(env, t, args).Success? && |SerializeCommand(env, t, args).value| == |args|
    ensures forall i :: 0 <= i < |args| ==>
              CellGives(env.zlib, SerializeCommand(env, t, args).value[i], Norm(args[i]), size)
  {
    var cells := MatlabCells(env, t, args, spans, size, |args|);
    SerializeIff(env, t, args, cells);
    forall i | 0 <= i < |args|
      ensures CellGives(env.zlib, cells[i], Norm(args[i]), size)
    {
      OneCell(env, t, spans[i], args[i], cells[i], size);
    }
  }

  lemma {:induction false} MatlabCells(env: Env, t: bytes, args: seq<Value>, spans: seq<Span>, size: width, n: nat)
    returns (cells: seq<bytes>)
    requires n <= |spans| == |args|
    requires forall i :: 0 <= i < |args| ==> AsksForMatlab(t, spans[i]) && Sendable(args[i], size)
    ensures |cells| == n && forall i :: 0 <= i < n ==> Stores(env, t, spans[i], args[i], cells[i])
  {
    cells := [];
    if n != 0 {
      cells := MatlabCells(env, t, args, spans, size, n - 1);
      var compress := StoresMatlab(env, t, spans[n - 1], args[n - 1], size);
      cells := cells + [Pack(env.zlib, compress, MATLAB_ID + Encode(args[n - 1], 8))];
    }
  }

  /** A sparse matrix at top level is written as a dense array: read past its
      data unless that happens to have room for every element, and then coming
      back as the array. */
  lemma {:induction false} SparseComesBackDense(env: Env, t: bytes, s: Span, v: Value, b: bytes, after: bytes,
                                                size: width)
    requires ZlibLaw(env.zlib) && AsksForMatlab(t, s) && v.Sparse? && Storable(v, Platform(8, size))
    requires Stores(env, t, s, v, b)
    ensures TopArray(v).Success? && TopArray(v).value.Arr?
    ensures |MATLAB_ID + Encode(TopArray(v).value, 8)| < TWO_32 ==>
      DeserializeCommand(env.zlib, ByteColumn(b), after, Platform(8, size)) == Success(TopArray(v).value)
  {
    var a := TopArray(v).value;
    TopArrayShape(v);
    var ns := [v.rows, v.cols, |v.ir|];
    assert ns[0] < Platform(8, size).Limit() && ns[1] < Platform(8, size).Limit();
    if |MATLAB_ID + Encode(a, 8)| < TWO_32 {
      ComesBack(env.zlib, Classify(t, s.open + 1, v).value.compress, a, after, size);
    }
  }

  /** Serializing `v` succeeds, and deserializing the result gives it back. */
  ghost predicate Survives(env: Env, t: bytes, s: Span, v: Value, after: bytes, size: width) {
    exists b :: (Stores(env, t, s, v, b) &&
                 DeserializeCommand(env.zlib, ByteColumn(b), after, Platform(8, size)) == Success(Norm(v)))
  }

  /** At top level a value comes back exactly when it is not sparse. */
  lemma {:induction false} OnlySparseIsLost(env: Env, t: bytes, s: Span, v: Value, after: bytes, size: width)
    requires ZlibLaw(env.zlib) && AsksForMatlab(t, s) && Storable(v, Platform(8, size))
    requires !v.Sparse? ==> |MATLAB_ID + Encode(v, 8)| < TWO_32
    requires v.Sparse? && TopArray(v).Success? ==> |MATLAB_ID + Encode(TopArray(v).value, 8)| < TWO_32
    ensures Survives(env, t, s, v, after, size) <==> !v.Sparse?
  {
    if !v.Sparse? {
      var compress := StoresMatlab(env, t, s, v, size);
      ComesBack(env.zlib, compress, v, after, size);
    } else {
      forall b | Stores(env, t, s, v, b)
        ensures DeserializeCommand(env.zlib, ByteColumn(b), after, Platform(8, size)) != Success(Norm(v))
      {
        SparseComesBackDense(env, t, s, v, b, after, size);
      }
    }
  }

  // ---------- bytes and text ----------

  /** The bytes carry none of the tags the reader looks for. */
  ghost predicate Untagged(b: bytes) {
    !HasTag(b + [0], ZLIB_ID) && !HasTag(b + [0], MATLAB_ID) && !IsDj0(b + [0])
  }

  lemma {:induction false} StoresBytes(env: Env, t: bytes, s: Span, v: Value, b: bytes)
    requires Stores(env, t, s, v, b) && Classify(t, s.open + 1, v).value.form == ToBinary
    ensures v.Arr? && b == Pack(env.zlib, Classify(t, s.open + 1, v).value.compress, v.re)
  {
  }

  /** "{B" and "{uB": a uint8 vector comes back as a column of the same bytes,
      from a row of a result, which the MySQL client ends in a NUL. */
  lemma {:induction false} BinaryComesBack(env: Env, t: bytes, s: Span, v: Value, b: bytes, after: bytes, size: width)
    requires ZlibLaw(env.zlib) && Stores(env, t, s, v, b)
    requires Classify(t, s.open + 1, v).value.form == ToBinary && v.Arr?
    requires Untagged(v.re) && |v.re| < TWO_32 && after != [] && after[0] == 0
    ensures Deserialize(env.zlib, b + after, |b|, Platform(8, size)) == Success(ByteColumn(v.re))
  {
    StoresBytes(env, t, s, v, b);
    RawRoundTrip(env.zlib, Classify(t, s.open + 1, v).value.compress, v.re, after, size);
  }

  /** `v` is a char vector of the code points `cs`, and MATLAB's UTF-8 form of it
      is that of RFC 3629. */
  ghost predicate IsText(env: Env, v: Value, cs: seq<nat>) {
    && Shape(v) && IsVector(v) && v.classId == CHAR_CLASS
    && Text.Scalars(cs) && env.utf8(v.re) == Text.Utf8All(cs) && |v.re| == 2 * Text.Utf16Length(cs)
  }

  /** No NUL but possibly at the end, nothing above U+FFFF. */
  ghost predicate PlainText(cs: seq<nat>) {
    forall i :: 0 <= i < |cs| ==> cs[i] <= 0xFFFF && (cs[i] == 0 ==> i == |cs| - 1)
  }

  lemma {:induction false} BytesOutcome(u: bytes, length: nat, b: bytes)
    requires Text.Narrow(u, 0) == Success(b) && Text.Written(u, 0) == |b| <= length
    ensures TextBytes(u, length) == if |b| == length then Success(b)
                                    else if |b| + 1 == length then Success(b + [0]) else Failure(Unwritten)
  {
  }

  lemma {:induction false} NoCharacters(env: Env, v: Value, cs: seq<nat>)
    requires IsText(env, v, cs) && IsEmpty(v)
    ensures cs == [] && Text.LowBytes(Until(cs, 0)) == []
  {
    Text.UnitsCount(cs);
  }

  /** What is stored for a char vector: the low bytes of the characters before the
      first NUL, if they are all; with one byte missing, a NUL; with more missing,
      bytes that were never written. */
  lemma {:induction false} TextOutcome(env: Env, v: Value, arg: bytes, cs: seq<nat>)
    requires IsText(env, v, cs)
    ensures var b, length := Text.LowBytes(Until(cs, 0)), Text.Utf16Length(cs);
            && |b| <= length
            && TextOf(env, v, arg) == if |b| == length then Success(b)
                                      else if |b| + 1 == length then Success(b + [0]) else Failure(Unwritten)
  {
    Text.CutText(cs);
    Text.UnitsCount(cs);
    if IsEmpty(v) {
      NoCharacters(env, v, cs);
    } else {
      BytesOutcome(Until(env.utf8(v.re), 0), Text.Utf16Length(cs), Text.LowBytes(Until(cs, 0)));
    }
  }

  /** All characters are stored, a byte each, exactly for plain text. */
  lemma {:induction false} TextStoredIff(env: Env, v: Value, arg: bytes, cs: seq<nat>)
    requires IsText(env, v, cs)
    ensures TextOf(env, v, arg) == Success(Text.LowBytes(cs)) <==> PlainText(cs)
  {
    TextOutcome(env, v, arg, cs);
    Text.UnitsCount(cs);
    Text.UntilMeaning(cs);
    var k := |Until(cs, 0)|;
    if k == |cs| {
      assert Text.LowBytes(Until(cs, 0)) == Text.LowBytes(cs);
    } else if k + 1 == |cs| {
      assert Text.LowBytes(cs) == Text.LowBytes(Until(cs, 0)) + [0];
    } else {
      assert cs[k] == 0;
    }
  }

  lemma {:induction false} AsciiText(cs: bytes)
    requires forall i :: 0 <= i < |cs| ==> cs[i] < 0x80
    ensures Text.Scalars(cs) && Text.Utf8All(cs) == cs && Text.Utf16Length(cs) == |cs|
  {
    if cs != [] {
      AsciiText(cs[1..]);
      assert cs == [cs[0]] + cs[1..];
    }
  }

  /** 'a', NUL, 'b' is cut at the NUL, and its last byte was never written. */
  lemma {:induction false} NulCutsText(env: Env, v: Value, arg: bytes)
    requires v == Arr([1, 3], CHAR_CLASS, [97, 0, 0, 0, 98, 0], None) && env.utf8(v.re) == [97, 0, 98]
    ensures TextOf(env, v, arg) == Failure(Unwritten)
  {
    var cs: seq<nat> := [97, 0, 98];
    AsciiText(cs);
    assert v.dims[0] == 1 && v.dims[..1] == [1] && TrimDims(v.dims) == v.dims;
    assert Numel([1]) == Numel([1][..0]) * 1 && Numel(v.dims) == Numel([1]) * 3;
    assert IsText(env, v, cs);
    assert Until(cs, 0) == [97];
    TextOutcome(env, v, arg, cs);
  }

  /** "{S" or "{uS" with a char vector stores a byte for each character, its low byte,
      exactly for plain text; what is stored comes back as a column. */
  lemma {:induction false} TextComesBack(env: Env, t: bytes, s: Span, plain: bool, v: Value, cs: seq<nat>, b: bytes,
                                         after: bytes, size: width)
    requires ZlibLaw(env.zlib) && Spelt(t, s.open + 1, plain, 83) && IsText(env, v, cs)
    ensures Stores(env, t, s, v, Text.LowBytes(cs)) <==> PlainText(cs)
    ensures Stores(env, t, s, v, b) && Untagged(b) && |b| < TWO_32 && after != [] && after[0] == 0 ==>
      Deserialize(env.zlib, b + after, |b|, Platform(8, size)) == Success(ByteColumn(b))
  {
    TextStoredIff(env, v, InString(t, s), cs);
    if Stores(env, t, s, v, b) && Untagged(b) && |b| < TWO_32 && after != [] && after[0] == 0 {
      RawRoundTrip(env.zlib, false, b, after, size);
    }
  }
}
