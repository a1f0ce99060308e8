/** From placeholders and arguments to the bytes stored for each: what the
    SERIALIZE command and MySQL commands have in common. */
module Arguments {
  import opened Bytes
  import opened MatlabValue
  import opened Encoding
  import opened Envelope
  import opened Placeholders
  import opened QueryRebuild
  import Serializer
  import Text

  /** What lies outside the model: zlib, the contents of a named file, MATLAB's
      conversion of a char array to UTF-8, and number formatting. */
  datatype Env = Env(zlib: Zlib, file: Value -> Option<bytes>, utf8: bytes -> bytes,
                     number: (Value, bytes) -> Result<bytes>)

  // ---------- one argument ----------

  /** The serializer accepts this class of value. */
  ghost predicate Suits(form: Form, v: Value) {
    match form
    case ToArray => v.Arr? || v.Sparse?
    case ToCell => v.Cell?
    case ToStruct => v.Struct?
    case ToBinary => IsVector(v) && v.classId == UINT8_CLASS
    case ToFile => IsVector(v) && v.classId == CHAR_CLASS
    case ToText => true
  }

  /** What the array serializer sees.  A sparse matrix comes here too, and is
      read as if its data area held every element. */
  function TopArray(v: Value): Result<Value>
    requires v.Arr? || v.Sparse?
  {
    if v.Arr? then Success(v)
    else
      var n := ElementSize(v.classId) * Numel([v.rows, v.cols]);
      if n > |v.re| || (v.im.Some? && n > |v.im.value|) then Failure(OutOfBuffer)
      else Success(Arr([v.rows, v.cols], v.classId, v.re[..n], if v.im.Some? then Some(v.im.value[..n]) else None))
  }

  predicate IsEmpty(v: Value) {
    match v
    case Arr(dims, _, _, _) => Numel(dims) == 0
    case Sparse(rows, cols, _, _, _, _, _) => rows == 0 || cols == 0
    case Cell(dims, _) => Numel(dims) == 0
    case Struct(dims, _, _) => Numel(dims) == 0
    case Other => false
  }

  /** The text `u` through `char2hex`, with `length` bytes of the buffer sent: the
      bytes written, the NUL behind them if there is one more, and beyond that
      bytes that were never written. */
  function TextBytes(u: bytes, length: nat): Result<bytes> {
    if Text.Overruns(u, length + 1) then Failure(OutOfBuffer)
    else
      var b :- Text.Narrow(u, 0);
      if |b| == length then Success(b)
      else if |b| + 1 == length then Success(b + [0])
      else Failure(Unwritten)
  }

  /** `serializeString`.  The byte count it reports is the number of UTF-16 units;
      the text ends at its first NUL. */
  function TextOf(env: Env, v: Value, arg: bytes): Result<bytes> {
    if IsEmpty(v) then Success([])
    else if v.Arr? && v.classId == CHAR_CLASS then
      if !IsVector(v) then Failure(BadPlaceholder) else TextBytes(Until(env.utf8(v.re), 0), |v.re| / 2)
    else if v.Arr? || v.Sparse? then env.number(v, arg)
    else Failure(UnsupportedType)
  }

  /** The bytes a serializer produces at top level; `arg` is the placeholder's
      in-string argument. */
  function Serialized(env: Env, form: Form, v: Value, arg: bytes): Result<bytes>
    requires Suits(form, v)
  {
    match form
    case ToArray =>
      var a :- TopArray(v);
      Success(MATLAB_ID + Encode(a, 8))
    case ToCell => if Supported(v) then Success(MATLAB_ID + Encode(v, 8)) else Failure(UnsupportedType)
    case ToStruct => if Supported(v) then Success(MATLAB_ID + Encode(v, 8)) else Failure(UnsupportedType)
    case ToBinary => Success(v.re)
    case ToFile =>
      (match env.file(v)
       case None => Failure(NoFile)
       case Some(b) => Success(b))
    case ToText => TextOf(env, v, arg)
  }

  lemma {:induction false} ClassifySuits(t: bytes, p: nat, v: Value)
    requires Classify(t, p, v).Success?
    ensures Suits(Classify(t, p, v).value.form, v)
  {
  }

  /** The letter that selects a serializer. */
  function LetterOf(form: Form): byte {
    match form
    case ToArray => 77   // 'M'
    case ToCell => 77
    case ToStruct => 77
    case ToBinary => 66  // 'B'
    case ToFile => 70    // 'F'
    case ToText => 83    // 'S'
  }

  /** The text at `p` is the letter, behind a 'u' if `plain`. */
  predicate Spelt(t: bytes, p: nat, plain: bool, letter: byte) {
    CharAt(t, p) == (if plain then 117 else letter) && (plain ==> CharAt(t, p + 1) == letter)
  }

  /** Which placeholders accept which arguments, and when the output may be
      compressed: the letter must belong to a serializer that takes this class of
      value, and neither text nor anything behind a 'u' is compressed. */
  lemma {:induction false} ClassifyIff(t: bytes, p: nat, v: Value, form: Form, compress: bool)
    ensures Classify(t, p, v) == Success(Kind(form, compress))
       <==> Suits(form, v) && exists plain :: Spelt(t, p, plain, LetterOf(form))
                                           && (compress <==> !plain && form != ToText)
  {
    var plain := CharAt(t, p) == 117;
    if Classify(t, p, v) == Success(Kind(form, compress)) {
      assert Spelt(t, p, plain, LetterOf(form)) && (compress <==> !plain && form != ToText);
    }
  }

  /** Only a value of a class that cannot be serialized makes the letter M fail. */
  lemma {:induction false} ClassifyFails(t: bytes, p: nat, v: Value)
    ensures Classify(t, p, v) == Failure(UnsupportedType)
       <==> v.Other? && exists plain :: Spelt(t, p, plain, 77)
  {
    var plain := CharAt(t, p) == 117;
    if Classify(t, p, v) == Failure(UnsupportedType) {
      assert Spelt(t, p, plain, 77);
    }
  }

  /** The dense view of a sparse matrix is an array MATLAB could hold. */
  lemma {:induction false} TopArrayShape(v: Value)
    requires Shape(v) && (v.Arr? || v.Sparse?) && TopArray(v).Success?
    ensures TopArray(v).value.Arr? && Shape(TopArray(v).value)
  {
    if v.Sparse? {
      var a := TopArray(v).value;
      assert TrimDims(a.dims) == a.dims;
    }
  }

  method SerializeText(env: Env, v: Value, arg: bytes) returns (r: Result<bytes>)
    ensures r == TextOf(env, v, arg)
  {
    if IsEmpty(v) {
      return Success([]);
    }
    if v.Arr? && v.classId == CHAR_CLASS {
      if !IsVector(v) {
        return Failure(BadPlaceholder);
      }
      var length := |v.re| / 2;
      var u := Until(env.utf8(v.re), 0);
      if Text.Overruns(u, length + 1) {
        return Failure(OutOfBuffer);
      }
      var buf, n := Text.CharToHex(u, length + 1);
      if buf.Failure? {
        return Failure(buf.error);
      }
      Text.WrittenSize(u, 0);
      if n + 1 < length {
        return Failure(Unwritten);
      }
      assert n < length ==> buf.value[..length] == buf.value[..n] + [0];
      return Success(buf.value[..length]);
    }
    if v.Arr? || v.Sparse? {
      return env.number(v, arg);
    }
    return Failure(UnsupportedType);
  }

  /** The call through the serializer pointer `pf[i]`. */
  method SerializeArgument(env: Env, form: Form, v: Value, arg: bytes) returns (r: Result<bytes>)
    requires Writable(v) && Suits(form, v)
    ensures r == Serialized(env, form, v, arg)
  {
    match form
    case ToArray =>
      var a := TopArray(v);
      if a.Failure? {
        return Failure(a.error);
      }
      TopArrayShape(v);
      var b := Serializer.SerializeArray(a.value, true);
      return Success(b.value[..]);
    case ToCell =>
      var b := Serializer.SerializeCell(v, true);
      return if b.Success? then Success(b.value[..]) else Failure(b.error);
    case ToStruct =>
      var b := Serializer.SerializeStruct(v, true);
      return if b.Success? then Success(b.value[..]) else Failure(b.error);
    case ToBinary => return Success(v.re);
    case ToFile =>
      var b := env.file(v);
      return if b.Some? then Success(b.value) else Failure(NoFile);
    case ToText => r := SerializeText(env, v, arg);
  }

  // ---------- all arguments ----------

  /** The text of a placeholder after its type letter. */
  function InString(t: bytes, s: Span): bytes {
    if s.open + 2 <= s.close <= |t| then t[s.open + 2..s.close] else []
  }

  /** All of the first `n` results, or the first error among them. */
  function Collect<T>(rs: seq<Result<T>>, n: nat): (r: Result<seq<T>>)
    requires n <= |rs|
    ensures r.Success? ==> |r.value| == n
  {
    if n == 0 then Success([])
    else
      var xs :- Collect(rs, n - 1);
      var x :- rs[n - 1];
      Success(xs + [x])
  }

  lemma {:induction false} CollectIff<T>(rs: seq<Result<T>>, n: nat, xs: seq<T>)
    requires n <= |rs|
    ensures Collect(rs, n) == Success(xs) <==> |xs| == n && forall i :: 0 <= i < n ==> rs[i] == Success(xs[i])
  {
    if n != 0 {
      if |xs| == n {
        CollectIff(rs, n - 1, xs[..n - 1]);
        assert xs == xs[..n - 1] + [xs[n - 1]];
      }
      if Collect(rs, n) == Success(xs) {
        assert Collect(rs, n - 1) == Success(xs[..n - 1]);
      }
    }
  }

  lemma {:induction false} FirstError<T>(rs: seq<Result<T>>, i: nat, n: nat)
    requires i < n <= |rs| && Collect(rs, i).Success? && rs[i].Failure?
    ensures Collect(rs, n) == Failure(rs[i].error)
    decreases n
  {
    if i + 1 < n {
      FirstError(rs, i, n - 1);
    }
  }

  function ClassifyEach(t: bytes, spans: seq<Span>, args: seq<Value>): (rs: seq<Result<Kind>>)
    requires |spans| <= |args|
    ensures |rs| == |spans|
  {
    seq(|spans|, i requires 0 <= i < |spans| => Classify(t, spans[i].open + 1, args[i]))
  }

  /** What the placeholders ask for. */
  function KindsOf(t: bytes, spans: seq<Span>, args: seq<Value>): (r: Result<seq<Kind>>)
    requires |spans| <= |args|
  {
    Collect(ClassifyEach(t, spans, args), |spans|)
  }

  ghost predicate AllSuit(kinds: seq<Kind>, args: seq<Value>) {
    |kinds| <= |args| && forall i :: 0 <= i < |kinds| ==> Suits(kinds[i].form, args[i])
  }

  lemma {:induction false} KindsSuit(t: bytes, spans: seq<Span>, args: seq<Value>)
    requires |spans| <= |args| && KindsOf(t, spans, args).Success?
    ensures |KindsOf(t, spans, args).value| == |spans| && AllSuit(KindsOf(t, spans, args).value, args)
  {
    var kinds := KindsOf(t, spans, args).value;
    CollectIff(ClassifyEach(t, spans, args), |spans|, kinds);
    forall i | 0 <= i < |spans|
      ensures Suits(kinds[i].form, args[i])
    {
      assert ClassifyEach(t, spans, args)[i] == Success(kinds[i]);
      ClassifySuits(t, spans[i].open + 1, args[i]);
    }
  }

  /** The bytes stored for one argument. */
  function Item(env: Env, t: bytes, s: Span, k: Kind, v: Value): Result<bytes>
    requires Suits(k.form, v)
  {
    var b :- Serialized(env, k.form, v, InString(t, s));
    Success(Pack(env.zlib, k.compress, b))
  }

  ghost function ItemEach(env: Env, t: bytes, spans: seq<Span>, kinds: seq<Kind>, args: seq<Value>):
    (rs: seq<Result<bytes>>)
    requires |spans| == |kinds| && AllSuit(kinds, args)
    ensures |rs| == |spans|
  {
    seq(|spans|, i requires 0 <= i < |spans| => Item(env, t, spans[i], kinds[i], args[i]))
  }

  /** The bytes stored for the arguments. */
  ghost function ItemsOf(env: Env, t: bytes, spans: seq<Span>, args: seq<Value>): Result<seq<bytes>>
    requires |spans| <= |args|
  {
    var kinds :- KindsOf(t, spans, args);
    KindsSuit(t, spans, args);
    Collect(ItemEach(env, t, spans, kinds, args), |spans|)
  }

  // ---------- finding the placeholders ----------

  lemma {:induction false} ScanError(t: bytes, from: nat, limit: nat)
    requires from <= |t| && Scan(t, from, limit).Failure?
    ensures Scan(t, from, limit).error == UnclosedPlaceholder
    decreases limit
  {
    var c := Find(t, Find(t, from, OPEN).value + 1, CLOSE);
    if c.Some? {
      ScanError(t, c.value + 1, limit - 1);
    }
  }

  /** The scan, its pointer arrays read off as spans. */
  method FindSpans(q: array<byte>, ghost t: bytes, expected: nat) returns (r: Result<seq<Span>>)
    requires Holds(q, t) && expected != 0
    ensures r == Scan(t, 0, expected)
    ensures r.Success? ==> InText(t, r.value) && Closed(t, r.value)
  {
    var nac, po, pc := FindPlaceholders(q, t, expected);
    if nac.Failure? {
      ScanError(t, 0, expected);
      return Failure(nac.error);
    }
    ghost var found := Scan(t, 0, expected).value;
    var spans: seq<Span> := [];
    for i := 0 to nac.value
      invariant spans == found[..i]
    {
      spans := spans + [Span(po[i].value, pc[i].value)];
    }
    assert spans == found;
    ScanInText(t, expected, spans);
    ScanClosed(t, expected, spans);
    return Success(spans);
  }

  /** Every placeholder ends in a closing brace of the text. */
  ghost predicate Closed(t: bytes, spans: seq<Span>) {
    forall i :: 0 <= i < |spans| ==> spans[i].close < |t| && t[spans[i].close] == CLOSE
  }

  lemma {:induction false} ScanClosed(t: bytes, limit: nat, spans: seq<Span>)
    requires Scan(t, 0, limit) == Success(spans)
    ensures Closed(t, spans)
  {
    ScanIff(t, 0, limit, spans);
    forall i | 0 <= i < |spans|
      ensures spans[i].close < |t| && t[spans[i].close] == CLOSE
    {
      assert SpanAt(t, 0, spans, i);
    }
  }

  // ---------- the two loops ----------

  /** The query text in memory once a NUL is planted at the end of each of the
      first `n` placeholders. */
  ghost predicate PlantedTo(q: array<byte>, t: bytes, spans: seq<Span>, n: nat)
    requires n <= |spans|
    reads q
  {
    && HoldsPlanted(q, t, spans[..n])
    && forall j :: 0 <= j < n ==> spans[j].close < |t| && q[spans[j].close] == 0
  }

  /** Inside a placeholder no other one ends. */
  lemma {:induction false} InsideIsClear(t: bytes, spans: seq<Span>, n: nat, i: nat, k: nat)
    requires InText(t, spans) && n <= |spans| && i < |spans| && spans[i].open <= k
    requires k < spans[i].close || n <= i
    ensures !Planted(spans[..n], k)
  {
    forall j | 0 <= j < n
      ensures spans[..n][j].close != k
    {
      if j < i {
        InOrder(t, spans, j, i);
      } else if i < j {
        InOrder(t, spans, i, j);
        assert SpanFits(t, spans, j);
      }
    }
  }

  method ClassifyAt(q: array<byte>, p: nat, v: Value, ghost t: bytes) returns (r: Result<Kind>)
    requires p < |t| && q.Length == |t| + 1 && q[p] == t[p] && q[p + 1] == CharAt(t, p + 1)
    ensures r == Classify(t, p, v)
  {
    var plain := q[p] == 117;
    var c := if plain then q[p + 1] else q[p];
    if c == 77 {
      match v
      case Arr(_, _, _, _) => return Success(Kind(ToArray, !plain));
      case Sparse(_, _, _, _, _, _, _) => return Success(Kind(ToArray, !plain));
      case Cell(_, _) => return Success(Kind(ToCell, !plain));
      case Struct(_, _, _) => return Success(Kind(ToStruct, !plain));
      case Other => return Failure(UnsupportedType);
    }
    if c == 66 {
      var accepts := IsVector(v) && v.classId == UINT8_CLASS;
      return if accepts then Success(Kind(ToBinary, !plain)) else Failure(BadPlaceholder);
    }
    if c == 70 {
      var accepts := IsVector(v) && v.classId == CHAR_CLASS;
      return if accepts then Success(Kind(ToFile, !plain)) else Failure(BadPlaceholder);
    }
    return if c == 83 then Success(Kind(ToText, false)) else Failure(BadPlaceholder);
  }

  method PlantNul(q: array<byte>, ghost t: bytes, ghost spans: seq<Span>, i: nat, close: nat)
    requires i < |spans| && close == spans[i].close < |t| && PlantedTo(q, t, spans, i)
    modifies q
    ensures PlantedTo(q, t, spans, i + 1)
  {
    q[close] := 0;
    assert Planted(spans[..i + 1], close) by {
      assert spans[..i + 1][i].close == close;
    }
    forall k | 0 <= k < |t| && q[k] != t[k]
      ensures Planted(spans[..i + 1], k)
    {
      if k != close {
        var j :| 0 <= j < i && spans[..i][j].close == k;
        assert spans[..i + 1][j].close == k;
      }
    }
  }

  /** The first loop: classify each placeholder, then plant a NUL at its end. */
  method ClassifyAll(q: array<byte>, ghost t: bytes, spans: seq<Span>, args: seq<Value>) returns (r: Result<seq<Kind>>)
    requires Holds(q, t) && InText(t, spans) && |spans| <= |args|
    modifies q
    ensures r == KindsOf(t, spans, args)
    ensures r.Success? ==> PlantedTo(q, t, spans, |spans|)
  {
    var kinds: seq<Kind> := [];
    ghost var rs := ClassifyEach(t, spans, args);
    for i := 0 to |spans|
      invariant PlantedTo(q, t, spans, i) && Collect(rs, i) == Success(kinds)
    {
      ResumeInText(t, spans, i);
      var p := spans[i].open + 1;
      InsideIsClear(t, spans, i, i, p);
      InsideIsClear(t, spans, i, i, p + 1);
      var k := ClassifyAt(q, p, args[i], t);
      if k.Failure? {
        FirstError(rs, i, |spans|);
        return Failure(k.error);
      }
      kinds := kinds + [k.value];
      PlantNul(q, t, spans, i, spans[i].close);
    }
    return Success(kinds);
  }

  /** The in-string argument, as far as the planted NUL. */
  method ReadInString(q: array<byte>, ghost t: bytes, ghost spans: seq<Span>, ghost i: nat, p: nat) returns (arg: bytes)
    requires InText(t, spans) && 0 !in t && PlantedTo(q, t, spans, |spans|)
    requires i < |spans| && p == spans[i].open + 2 <= spans[i].close < |t|
    ensures arg == InString(t, spans[i])
  {
    arg := [];
    var k := p;
    while q[k] != 0
      invariant p <= k <= spans[i].close && arg == t[p..k]
      decreases spans[i].close - k
    {
      InsideIsClear(t, spans, |spans|, i, k);
      arg := arg + [q[k]];
      k := k + 1;
    }
    if k < spans[i].close {
      InsideIsClear(t, spans, |spans|, i, k);
      assert false;
    }
  }

  /** An accepted placeholder is not empty. */
  lemma {:induction false} AcceptedSpan(t: bytes, spans: seq<Span>, i: nat, v: Value)
    requires InText(t, spans) && i < |spans| && spans[i].close < |t| && t[spans[i].close] == CLOSE
    requires Classify(t, spans[i].open + 1, v).Success?
    ensures spans[i].open + 2 <= spans[i].close
  {
    ResumeInText(t, spans, i);
  }

  /** One turn of the second loop: serialize an argument and compress the
      result if that pays. */
  method SerializeOne(env: Env, pcmp: array<byte>, q: array<byte>, ghost t: bytes, ghost spans: seq<Span>, ghost i: nat,
                      open: nat, k: Kind, v: Value)
    returns (r: Result<bytes>, pcmp': array<byte>)
    requires ZlibLaw(env.zlib) && Writable(v) && Suits(k.form, v)
    requires pcmp != q && InText(t, spans) && 0 !in t && PlantedTo(q, t, spans, |spans|)
    requires i < |spans| && open == spans[i].open && open + 2 <= spans[i].close < |t|
    modifies pcmp
    ensures r == Item(env, t, spans[i], k, v)
    ensures pcmp' == pcmp || fresh(pcmp')
  {
    pcmp' := pcmp;
    var arg := ReadInString(q, t, spans, i, open + 2);
    var ser := SerializeArgument(env, k.form, v, arg);
    if ser.Failure? {
      return ser, pcmp';
    }
    r, pcmp' := PackArgument(env.zlib, pcmp, k.compress, ser.value);
  }

  lemma {:induction false} KindAt(t: bytes, spans: seq<Span>, args: seq<Value>, kinds: seq<Kind>, i: nat)
    requires InText(t, spans) && |spans| <= |args| && KindsOf(t, spans, args) == Success(kinds) && i < |spans|
    requires spans[i].close < |t| && t[spans[i].close] == CLOSE
    ensures |kinds| == |spans| && Suits(kinds[i].form, args[i]) && spans[i].open + 2 <= spans[i].close
  {
    CollectIff(ClassifyEach(t, spans, args), |spans|, kinds);
    assert ClassifyEach(t, spans, args)[i] == Success(kinds[i]);
    KindsSuit(t, spans, args);
    AcceptedSpan(t, spans, i, args[i]);
  }

  /** The second loop.  `pcmp` is the scratch buffer, `nb` the total size. */
  method SerializeAll(env: Env, q: array<byte>, ghost t: bytes, spans: seq<Span>, kinds: seq<Kind>, args: seq<Value>)
    returns (r: Result<seq<bytes>>, nb: nat)
    requires ZlibLaw(env.zlib) && InText(t, spans) && Closed(t, spans) && 0 !in t && PlantedTo(q, t, spans, |spans|)
    requires |spans| <= |args| && KindsOf(t, spans, args) == Success(kinds)
    requires forall i :: 0 <= i < |args| ==> Writable(args[i])
    ensures r == ItemsOf(env, t, spans, args)
    ensures r.Success? ==> |r.value| == |spans| && nb == TotalSize(r.value, 0)
  {
    KindsSuit(t, spans, args);
    ghost var rs := ItemEach(env, t, spans, kinds, args);
    var pd: seq<bytes> := [];
    var pcmp := new byte[10000](_ => 0);
    nb := 0;
    for i := 0 to |spans|
      invariant Collect(rs, i) == Success(pd) && nb == TotalSize(pd, 0) && fresh(pcmp)
      invariant PlantedTo(q, t, spans, |spans|)
    {
      KindAt(t, spans, args, kinds, i);
      var item;
      item, pcmp := SerializeOne(env, pcmp, q, t, spans, i, spans[i].open, kinds[i], args[i]);
      ItemAt(env, t, spans, kinds, args, i);
      if item.Failure? {
        FirstError(rs, i, |spans|);
        return Failure(item.error), nb;
      }
      TotalSnoc(pd, item.value, 0);
      pd := pd + [item.value];
      nb := nb + |item.value|;
    }
    return Success(pd), nb;
  }

  lemma {:induction false} ItemAt(env: Env, t: bytes, spans: seq<Span>, kinds: seq<Kind>, args: seq<Value>, i: nat)
    requires |spans| == |kinds| && AllSuit(kinds, args) && i < |spans|
    ensures ItemEach(env, t, spans, kinds, args)[i] == Item(env, t, spans[i], kinds[i], args[i])
  {
  }

  lemma {:induction false} TotalSnoc(ds: seq<bytes>, d: bytes, i: nat)
    requires i <= |ds|
    ensures TotalSize(ds + [d], i) == TotalSize(ds, i) + |d|
    decreases |ds| - i
  {
    if i < |ds| {
      TotalSnoc(ds, d, i + 1);
    }
  }
}
