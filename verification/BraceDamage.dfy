/** A value damaged on its way: in a CREATE query, the escaped form of a backslash
    before a brace loses a byte, and the server reads other data. */
module BraceDamage {
  import opened Bytes
  import opened MatlabValue
  import opened Encoding
  import opened Decoding
  import opened CodecProofs
  import opened Envelope
  import opened Placeholders
  import opened QueryRebuild
  import opened Arguments
  import opened SerialCommands
  import opened QueryCommand
  import opened BraceUnescape

  /** "CREATE{uM}" */
  const QUERY: bytes := CREATE + [123, 117, 77, 125]

  const SPAN: Span := Span(6, 9)

  /** A 1-by-2 uint8 array. */
  function Pair(re: bytes): Value {
    Arr([1, 2], UINT8_CLASS, re, None)
  }

  /** A backslash and an opening brace. */
  const ARGUMENT: Value := Pair([92, 123])

  /** What is serialized before the two bytes. */
  const FRONT: bytes := MATLAB_ID + ([ID_ARRAY] + Dims([1, 2], 8) + Encoding.Kind(UINT8_CLASS, None))

  ghost predicate NoBrace(s: bytes) {
    forall k :: 0 <= k < |s| ==> !IsBrace(s[k])
  }

  lemma {:induction false} SmallNumber(n: nat, w: nat)
    requires n < 123
    ensures NoBrace(LE(n, w))
  {
    if w != 0 {
      LESplit(n, w);
      SmallNumber(0, w - 1);
    }
  }

  /** What is serialized for two bytes. */
  lemma {:induction false} TwoBytes(re: bytes)
    ensures MATLAB_ID + Encode(Pair(re), 8) == FRONT + re
  {
    assert Data(re, None) == re;
  }

  lemma {:induction false} FrontHasNoBrace()
    ensures NoBrace(FRONT)
  {
    SmallNumber(2, 8);
    SmallNumber(1, 8);
    SmallNumber(UINT8_CLASS, 4);
    SmallNumber(0, 4);
    var dims: seq<nat> := [1, 2];
    assert dims[1..] == [2] && dims[1..][1..] == [];
    assert LEs([2], 8) == LE(2, 8) + LEs([], 8);
    assert LEs(dims, 8) == LE(1, 8) + LEs([2], 8);
  }

  lemma {:induction false} EscapeHasNoBrace(d: bytes)
    requires NoBrace(d)
    ensures NoBrace(Escape(Backslashed, d))
  {
    if d != [] {
      EscapeHasNoBrace(d[..|d| - 1]);
    }
  }

  lemma {:induction false} EscapeTwo(d: bytes)
    ensures Escape(Backslashed, d + [92, 123]) == Escape(Backslashed, d) + [92, 92, 123]
  {
    assert (d + [92, 123])[..|d| + 1] == d + [92];
    assert (d + [92])[..|d|] == d;
  }

  lemma {:induction false} QueryScans()
    ensures IsScan(QUERY, 0, 1, [SPAN])
  {
    assert QUERY[6] == 123 && QUERY[7] == 117 && QUERY[8] == 77 && QUERY[9] == 125;
    forall i | 0 <= i < 1
      ensures SpanAt(QUERY, 0, [SPAN], i)
    {
      assert Resume([SPAN], 0, 0) == 0;
      assert FirstAt(QUERY, 0, OPEN, 6) && FirstAt(QUERY, 7, CLOSE, 9);
    }
  }

  lemma {:induction false} ArgumentStored(env: Env)
    ensures Stores(env, QUERY, SPAN, ARGUMENT, FRONT + [92, 123])
  {
    assert QUERY[7] == 117 && QUERY[8] == 77;
    TwoBytes([92, 123]);
    assert Classify(QUERY, 7, ARGUMENT) == Success(Kind(ToArray, false));
  }

  /** The filled query is CREATE and the escaped bytes. */
  lemma {:induction false} QueryFills(env: Env)
    ensures Filled(env, Backslashed, QUERY, [ARGUMENT]).Success?
    ensures Filled(env, Backslashed, QUERY, [ARGUMENT]).value.0 == CREATE + Escape(Backslashed, FRONT) + [92, 92, 123]
  {
    QueryScans();
    ArgumentStored(env);
    ScanIff(QUERY, 0, 1, [SPAN]);
    assert Accepts(env, QUERY, SPAN, ARGUMENT);
    FilledGiven(env, Backslashed, QUERY, [ARGUMENT], [SPAN]);
    var spans, items := FilledWith(env, Backslashed, QUERY, [ARGUMENT]);
    ScanIff(QUERY, 0, 1, spans);
    assert spans == [SPAN];
    assert Stores(env, QUERY, spans[0], ARGUMENT, items[0]);
    assert items[0] == FRONT + [92, 123];
    RebuiltOne(items);
    EscapeTwo(FRONT);
  }

  lemma {:induction false} RebuiltOne(items: seq<bytes>)
    requires InText(QUERY, [SPAN]) && |items| == 1
    ensures Rebuilt(Backslashed, QUERY, [SPAN], items, 0) == CREATE + Escape(Backslashed, items[0])
  {
    var spans := [SPAN];
    assert Resume(spans, 0, 0) == 0 && Resume(spans, 0, 1) == 10;
    assert QUERY[0..6] == CREATE && QUERY[10..] == [];
    assert Rebuilt(Backslashed, QUERY, spans, items, 1) == [];
  }

  /** In such a query the only brace is the last byte; the backslash before it goes. */
  lemma {:induction false} LastBackslashGoes(a: bytes, q: bytes, lo: nat)
    requires NoBrace(a) && lo <= |a| && q == a + [92, 92, 123]
    ensures Accepted(q) && BraceFollows(q, lo, |q|)
    ensures Kept(q, lo, |q|) == a[lo..] + [92, 123]
  {
    var n := |q|;
    forall k | 0 <= k < n
      ensures !BareBrace(q, k)
    {
      assert k < n - 1 ==> !IsBrace(q[k]);
    }
    assert IsBrace(q[n - 1]) && Dropped(q, n - 2) && !Dropped(q, n - 1);
    forall j | lo < j <= n - 2
      ensures !IsBrace(q[j])
    {
      assert j < |a| ==> q[j] == a[j];
    }
    KeptWhole(q, lo, n - 2);
    assert q[lo..n - 2] == a[lo..] + [92];
    assert Kept(q, lo, n - 1) == Kept(q, lo, n - 2);
  }

  /** What is sent of the filled query. */
  lemma {:induction false} QueryFinishes()
    ensures Finished(CREATE + Escape(Backslashed, FRONT) + [92, 92, 123])
         == Success(CREATE + Escape(Backslashed, FRONT) + [92, 123])
  {
    FrontHasNoBrace();
    EscapeHasNoBrace(FRONT);
    var a := CREATE + Escape(Backslashed, FRONT);
    var q := a + [92, 92, 123];
    LastBackslashGoes(a, q, 0);
    UnescapedIsKept(q);
    assert q[0] == 67 && StartsWith(q, CREATE);
  }

  /** The command is sent, and what the server unescapes is the value's bytes
      without the backslash. */
  lemma {:induction false} ValueDamaged(env: Env)
    ensures Stores(env, QUERY, SPAN, ARGUMENT, FRONT + [92, 123])
    ensures Command(env, Backslashed, QUERY, [ARGUMENT]).Success?
    ensures Command(env, Backslashed, QUERY, [ARGUMENT]).value.text
         == CREATE + (Escape(Backslashed, FRONT) + [92, 123])
    ensures Unbackslashed(Escape(Backslashed, FRONT) + [92, 123]) == FRONT + [123]
  {
    ArgumentStored(env);
    QueryFills(env);
    QueryFinishes();
    Assoc(CREATE, Escape(Backslashed, FRONT), [92, 123]);
    UnbackslashedEscape(FRONT, [92, 123]);
    assert [92, 123][2..] == [];
  }

  /** Reading the row gives other data: the brace, and whatever follows the row. */
  lemma {:induction false} OtherDataComesBack(z: Zlib, after: bytes, size: width)
    requires after != []
    ensures Deserialize(z, FRONT + [123] + after, |FRONT + [123]|, Platform(8, size))
         == Success(Pair([123, after[0]]))
    ensures Pair([123, after[0]]) != Norm(ARGUMENT)
  {
    var v := Pair([123, after[0]]);
    var mem := FRONT + [123] + after;
    TwoBytes([123, after[0]]);
    assert mem == MATLAB_ID + Encode(v, 8) + after[1..];
    assert mem[0] == 109;
    assert v.dims[..1] == [1] && TrimDims(v.dims) == v.dims && Numel([1]) == Numel([1][..0]) * 1;
    assert Numel(v.dims) == Numel([1]) * 2;
    assert Storable(v, Platform(8, size));
    HeadedRoundTrip(v, after[1..], mem, |FRONT + [123]|, Platform(8, size));
  }
}
