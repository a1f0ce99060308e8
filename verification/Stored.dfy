/** What each placeholder makes of each argument, errors included, with letters and
    class numbers spelled out. */
module Stored {
  import opened Bytes
  import opened MatlabValue
  import opened Encoding
  import opened Envelope
  import opened Placeholders
  import opened QueryRebuild
  import opened Arguments
  import opened SerialCommands
  import Format
  import Decoding
  import Text

  /** The bytes stored for `v` in place of `s`, or the error raised. */
  function Outcome(env: Env, t: bytes, s: Span, v: Value): Result<bytes> {
    var k := Classify(t, s.open + 1, v);
    if k.Failure? then Failure(k.error)
    else
      ClassifySuits(t, s.open + 1, v);
      Item(env, t, s, k.value, v)
  }

  lemma {:induction false} StoresIsOutcome(env: Env, t: bytes, s: Span, v: Value, b: bytes)
    ensures Stores(env, t, s, v, b) <==> Outcome(env, t, s, v) == Success(b)
  {
    if Classify(t, s.open + 1, v).Success? {
      ClassifySuits(t, s.open + 1, v);
    }
  }

  /** The letter behind the brace, or behind a brace and a 'u' if `plain`. */
  predicate Asks(t: bytes, s: Span, plain: bool, letter: byte) {
    var p := s.open + 1;
    if plain then p + 1 < |t| && t[p] == 117 && t[p + 1] == letter else p < |t| && t[p] == letter
  }

  lemma {:induction false} AsksSpelt(t: bytes, s: Span, plain: bool, letter: byte)
    requires Asks(t, s, plain, letter) && letter != 117
    ensures Spelt(t, s.open + 1, plain, letter)
  {
  }

  predicate Vector(v: Value, c: nat) {
    v.Arr? && v.classId == c && |v.dims| == 2 && (v.dims[0] == 1 || v.dims[1] == 1)
  }

  // ---------- the letters ----------

  /** M: an array, a cell or a struct array is stored with its header, compressed
      where that pays, unless there is a 'u'. */
  lemma {:induction false} MatlabStored(env: Env, t: bytes, s: Span, plain: bool, v: Value)
    requires Asks(t, s, plain, 77) && !v.Sparse?
    ensures Outcome(env, t, s, v) ==
              if Supported(v) then Success(Pack(env.zlib, !plain, [109, 89, 109, 0] + Encode(v, 8)))
              else Failure(UnsupportedType)
  {
    AsksSpelt(t, s, plain, 77);
  }

  /** M with a sparse matrix: as a dense array of the first rows times columns
      elements, eight bytes each or one if logical; too few are read past. */
  lemma {:induction false} SparseStored(env: Env, t: bytes, s: Span, plain: bool, v: Value, n: nat)
    requires Asks(t, s, plain, 77) && v.Sparse? && Shape(v)
    requires n == (if v.classId == 3 then 1 else 8) * (v.rows * v.cols)
    ensures Outcome(env, t, s, v) ==
              if n > |v.re| then Failure(OutOfBuffer)
              else
                var im := if v.im.Some? then Some(v.im.value[..n]) else None;
                var dense := Arr([v.rows, v.cols], v.classId, v.re[..n], im);
                Success(Pack(env.zlib, !plain, [109, 89, 109, 0] + Encode(dense, 8)))
  {
    AsksSpelt(t, s, plain, 77);
    var dims := [v.rows, v.cols];
    assert dims[1..] == [v.cols] && dims[1..][1..] == [];
    Format.NumelIsProduct(dims);
    assert Format.Product([v.cols]) == v.cols * Format.Product([v.cols][1..]);
    assert Format.Product(dims) == v.rows * v.cols;
  }

  /** B: the bytes of a uint8 vector; nothing else is accepted. */
  lemma {:induction false} BinaryStored(env: Env, t: bytes, s: Span, plain: bool, v: Value)
    requires Asks(t, s, plain, 66)
    ensures Outcome(env, t, s, v) ==
              if Vector(v, 9) then Success(Pack(env.zlib, !plain, v.re)) else Failure(BadPlaceholder)
  {
    AsksSpelt(t, s, plain, 66);
  }

  /** F: the contents of the file a char vector names, if it can be opened. */
  lemma {:induction false} FileStored(env: Env, t: bytes, s: Span, plain: bool, v: Value)
    requires Asks(t, s, plain, 70)
    ensures Outcome(env, t, s, v) ==
              if !Vector(v, 4) then Failure(BadPlaceholder)
              else if env.file(v).None? then Failure(NoFile)
              else Success(Pack(env.zlib, !plain, env.file(v).value))
  {
    AsksSpelt(t, s, plain, 70);
  }

  ghost predicate Empty(v: Value) {
    match v
    case Arr(dims, _, _, _) => Format.Product(dims) == 0
    case Sparse(rows, cols, _, _, _, _, _) => rows == 0 || cols == 0
    case Cell(dims, _) => Format.Product(dims) == 0
    case Struct(dims, _, _) => Format.Product(dims) == 0
    case Other => false
  }

  lemma {:induction false} EmptyIff(v: Value)
    ensures IsEmpty(v) <==> Empty(v)
  {
    if v.Arr? || v.Cell? || v.Struct? {
      Format.NumelIsProduct(v.dims);
    }
  }

  /** S: nothing for an empty value, formatted numbers with the placeholder's own
      text as the format, never compressed; neither char matrices nor cells. */
  lemma {:induction false} TextStored(env: Env, t: bytes, s: Span, plain: bool, v: Value)
    requires Asks(t, s, plain, 83) && s.open + 2 <= s.close <= |t|
    ensures Empty(v) ==> Outcome(env, t, s, v) == Success([])
    ensures !Empty(v) && (v.Cell? || v.Struct? || v.Other?) ==> Outcome(env, t, s, v) == Failure(UnsupportedType)
    ensures !Empty(v) && (v.Sparse? || (v.Arr? && v.classId != 4)) ==>
              Outcome(env, t, s, v) == env.number(v, t[s.open + 2..s.close])
    ensures !Empty(v) && v.Arr? && v.classId == 4 && !Vector(v, 4) ==> Outcome(env, t, s, v) == Failure(BadPlaceholder)
  {
    AsksSpelt(t, s, plain, 83);
    EmptyIff(v);
    var k := Kind(ToText, false);
    assert Classify(t, s.open + 1, v) == Success(k);
    var r := TextOf(env, v, InString(t, s));
    assert Item(env, t, s, k, v) == if r.Success? then Success(Pack(env.zlib, false, r.value)) else Failure(r.error);
  }

  /** S with a char vector whose text, up to its first NUL, is not well formed. */
  lemma {:induction false} TextRejected(env: Env, t: bytes, s: Span, plain: bool, v: Value)
    requires Asks(t, s, plain, 83) && Vector(v, 4) && !Empty(v)
    ensures var u := Until(env.utf8(v.re), 0);
            Text.Narrow(u, 0).Failure? && Text.Written(u, 0) <= |v.re| / 2 + 1 ==>
              Outcome(env, t, s, v) == Failure(InvalidUtf8)
    ensures var u := Until(env.utf8(v.re), 0);
            Text.Written(u, 0) > |v.re| / 2 + 1 ==> Outcome(env, t, s, v) == Failure(OutOfBuffer)
  {
    AsksSpelt(t, s, plain, 83);
    EmptyIff(v);
    var u := Until(env.utf8(v.re), 0);
    if Text.Narrow(u, 0).Failure? {
      Text.RejectedError(u, 0);
    }
  }

  /** Any other letter is an error. */
  lemma {:induction false} OtherLetters(env: Env, t: bytes, s: Span, v: Value)
    requires forall plain, letter :: Asks(t, s, plain, letter) ==>
               letter != 77 && letter != 66 && letter != 70 && letter != 83
    ensures Outcome(env, t, s, v) == Failure(BadPlaceholder)
  {
    var p := s.open + 1;
    assert p < |t| ==> Asks(t, s, false, t[p]);
    assert p + 1 < |t| && t[p] == 117 ==> Asks(t, s, true, t[p + 1]);
  }

  // ---------- all arguments ----------

  /** The first error decides: of all placeholders that do not accept their
      arguments, and only then of those that fail to serialize. */
  lemma {:induction false} FirstRefusal(env: Env, t: bytes, spans: seq<Span>, args: seq<Value>, i: nat)
    requires i < |spans| <= |args| && Classify(t, spans[i].open + 1, args[i]).Failure?
    requires forall j :: 0 <= j < i ==> Classify(t, spans[j].open + 1, args[j]).Success?
    ensures ItemsOf(env, t, spans, args) == Failure(Classify(t, spans[i].open + 1, args[i]).error)
  {
    var each := ClassifyEach(t, spans, args);
    var kinds := seq(i, j requires 0 <= j < i => each[j].value);
    CollectIff(each, i, kinds);
    FirstError(each, i, |spans|);
  }

  // ---------- the commands ----------

  /** Errors of SERIALIZE before any argument is looked at. */
  lemma {:induction false} CountMismatch(env: Env, t: bytes, args: seq<Value>)
    ensures args == [] ==> SerializeCommand(env, t, args) == Success([])
    ensures args != [] && Scan(t, 0, |args|).Failure? ==> SerializeCommand(env, t, args) == Failure(UnclosedPlaceholder)
    ensures args != [] && Scan(t, 0, |args|).Success? && |Scan(t, 0, |args|).value| != |args| ==>
              SerializeCommand(env, t, args) == Failure(PlaceholderCount)
  {
    if Scan(t, 0, |args|).Failure? {
      ScanError(t, 0, |args|);
    }
  }

  /** DESERIALIZE: the blob is as long as the larger of the first two dimensions;
      without data the result is a 0-by-0 char array. */
  lemma {:induction false} BlobRead(z: Zlib, v: Value, after: bytes, pl: Decoding.Platform)
    requires v.Arr? && |v.dims| >= 2
    ensures v.re == [] ==> DeserializeCommand(z, v, after, pl) == Success(Arr([0, 0], 4, [], None))
    ensures v.re != [] && v.dims[0] >= v.dims[1] ==>
              DeserializeCommand(z, v, after, pl) == Deserialize(z, v.re + after, v.dims[0], pl)
    ensures v.re != [] && v.dims[1] >= v.dims[0] ==>
              DeserializeCommand(z, v, after, pl) == Deserialize(z, v.re + after, v.dims[1], pl)
  {
  }
}
