/** A MySQL command from its text and arguments to the query sent. */
module QueryCommand {
  import opened Bytes
  import opened MatlabValue
  import opened Decoding
  import opened Envelope
  import opened Placeholders
  import opened QueryRebuild
  import opened Arguments
  import opened SerialCommands
  import BraceUnescape

  /** The query sent, and whether bigints are asked for as doubles. */
  datatype Statement = Statement(text: bytes, bigintToDouble: bool)

  const CREATE: bytes := [67, 82, 69, 65, 84, 69]
  const ALTER: bytes := [65, 76, 84, 69, 82]

  predicate IsSpace(c: byte) {
    c == 32 || 9 <= c <= 13
  }

  // ---------- specification ----------

  /** The text with the placeholders at `spans` filled in. */
  ghost function FilledText(env: Env, esc: Escaper, t: bytes, spans: seq<Span>, args: seq<Value>): Result<bytes>
    requires |spans| <= |args| && InText(t, spans)
  {
    var items :- ItemsOf(env, t, spans, args);
    ItemsCount(env, t, spans, args);
    Success(Rebuilt(esc, t, spans, items, 0))
  }

  /** The text with its placeholders filled in, and the number of flags. */
  ghost function Filled(env: Env, esc: Escaper, t: bytes, args: seq<Value>): Result<(bytes, nat)> {
    if args == [] then Success((t, 0))
    else
      var spans :- Scan(t, 0, |args|);
      ScanFits(t, |args|, spans);
      var flags :- MatchArguments(|spans|, args);
      var text :- FilledText(env, esc, t, spans, args);
      Success((text, flags))
  }

  /** Braces are escaped in these queries. */
  predicate HasBraceRule(q: bytes) {
    BraceUnescape.StartsWith(q, CREATE) || BraceUnescape.StartsWith(q, ALTER)
  }

  /** Trimming leading white space frees the query under the caller. */
  ghost function Finished(q: bytes): Result<bytes> {
    if q != [] && IsSpace(q[0]) then Failure(OutOfBuffer)
    else if HasBraceRule(q) then
      if BraceUnescape.Accepted(q) then Success(BraceUnescape.Unescaped(q)) else Failure(UnescapedBrace)
    else Success(q)
  }

  ghost function Command(env: Env, esc: Escaper, t: bytes, args: seq<Value>): Result<Statement> {
    var filled :- Filled(env, esc, t, args);
    var text :- Finished(filled.0);
    Success(Statement(text, filled.1 > 0))
  }

  lemma {:induction false} ScanFits(t: bytes, limit: nat, spans: seq<Span>)
    requires Scan(t, 0, limit) == Success(spans)
    ensures |spans| <= limit && InText(t, spans)
  {
    ScanIff(t, 0, limit, spans);
    ScanInText(t, limit, spans);
  }

  lemma {:induction false} ItemsCount(env: Env, t: bytes, spans: seq<Span>, args: seq<Value>)
    requires |spans| <= |args| && ItemsOf(env, t, spans, args).Success?
    ensures |ItemsOf(env, t, spans, args).value| == |spans|
  {
  }

  // ---------- the method ----------

  /** The number of flags, adjusted to the number of placeholders found. */
  method AdjustFlags(nac: nat, args: seq<Value>) returns (r: Result<nat>)
    requires nac <= |args|
    ensures r == MatchArguments(nac, args)
  {
    var nbFlags := CountFlags(args);
    if nac < |args| && nac >= |args| - nbFlags {
      nbFlags := |args| - nac;
    } else if nac != |args| {
      return Failure(PlaceholderCount);
    }
    return Success(nbFlags);
  }

  /** The new query up to its NUL. */
  method NewText(esc: Escaper, q: array<byte>, ghost t: bytes, spans: seq<Span>, pd: seq<bytes>, nb: nat)
    returns (text: bytes)
    requires EscapeLaw(esc) && |spans| == |pd| && InText(t, spans) && nb == TotalSize(pd, 0)
    requires PlantedTo(q, t, spans, |spans|)
    ensures text == Rebuilt(esc, t, spans, pd, 0)
  {
    assert spans[..|spans|] == spans;
    var nq, len := BuildQuery(esc, q, t, q.Length - 1, spans, pd, nb);
    text := nq[..len - 1];
  }

  method FillSpans(env: Env, esc: Escaper, q: array<byte>, ghost t: bytes, spans: seq<Span>, args: seq<Value>)
    returns (r: Result<bytes>)
    requires ZlibLaw(env.zlib) && EscapeLaw(esc) && Holds(q, t)
    requires |spans| <= |args| && InText(t, spans) && Closed(t, spans)
    requires forall i :: 0 <= i < |args| ==> Writable(args[i])
    modifies q
    ensures r == FilledText(env, esc, t, spans, args)
  {
    var kinds := ClassifyAll(q, t, spans, args);
    if kinds.Failure? {
      return Failure(kinds.error);
    }
    var pd, nb := SerializeAll(env, q, t, spans, kinds.value, args);
    if pd.Failure? {
      return Failure(pd.error);
    }
    var text := NewText(esc, q, t, spans, pd.value, nb);
    return Success(text);
  }

  /** The part that runs when there are arguments. */
  method Fill(env: Env, esc: Escaper, q: array<byte>, ghost t: bytes, args: seq<Value>)
    returns (r: Result<(bytes, nat)>)
    requires ZlibLaw(env.zlib) && EscapeLaw(esc) && Holds(q, t) && args != []
    requires forall i :: 0 <= i < |args| ==> Writable(args[i])
    modifies q
    ensures r == Filled(env, esc, t, args)
  {
    var spans := FindSpans(q, t, |args|);
    if spans.Failure? {
      return Failure(spans.error);
    }
    ScanFits(t, |args|, spans.value);
    var nbFlags := AdjustFlags(|spans.value|, args);
    if nbFlags.Failure? {
      return Failure(nbFlags.error);
    }
    var text := FillSpans(env, esc, q, t, spans.value, args);
    if text.Failure? {
      return Failure(text.error);
    }
    return Success((text.value, nbFlags.value));
  }

  /** The MySQL command branch, up to the query sent. */
  method Prepare(env: Env, esc: Escaper, q: array<byte>, ghost t: bytes, args: seq<Value>)
    returns (r: Result<Statement>)
    requires ZlibLaw(env.zlib) && EscapeLaw(esc) && Holds(q, t)
    requires forall i :: 0 <= i < |args| ==> Writable(args[i])
    modifies q
    ensures r == Command(env, esc, t, args)
  {
    var query, nbFlags := q[..q.Length - 1], 0;
    if |args| > 0 {
      var filled := Fill(env, esc, q, t, args);
      if filled.Failure? {
        return Failure(filled.error);
      }
      query, nbFlags := filled.value.0, filled.value.1;
    }
    if query != [] && IsSpace(query[0]) {
      return Failure(OutOfBuffer);
    }
    var create := BraceUnescape.TestPrefix(query, CREATE);
    var alter := BraceUnescape.TestPrefix(query, ALTER);
    if create || alter {
      var parsed := BraceUnescape.Parse(query);
      if parsed.Failure? {
        return Failure(parsed.error);
      }
      query := parsed.value;
    }
    return Success(Statement(query, nbFlags > 0));
  }

  // ---------- meaning ----------

  ghost predicate RestAreFlags(args: seq<Value>, k: nat) {
    forall j :: k <= j < |args| ==> IsFlag(args[j])
  }

  /** Placeholder `s` accepts the argument. */
  ghost predicate Accepts(env: Env, t: bytes, s: Span, v: Value) {
    exists b :: Stores(env, t, s, v, b)
  }

  ghost predicate AllAccept(env: Env, t: bytes, spans: seq<Span>, args: seq<Value>, n: nat)
    requires n <= |spans| <= |args|
  {
    forall i :: 0 <= i < n ==> Accepts(env, t, spans[i], args[i])
  }

  /** The text is filled exactly when its placeholders are all closed, as far as
      there are arguments, every argument beyond them is the flag, and each of them
      accepts its own. */
  lemma {:induction false} FilledIff(env: Env, esc: Escaper, t: bytes, args: seq<Value>)
    ensures Filled(env, esc, t, args).Success?
       <==> exists spans :: Fillable(env, t, spans, args)
  {
    var scan := Scan(t, 0, |args|);
    if scan.Success? {
      ScanIff(t, 0, |args|, scan.value);
      FilledGiven(env, esc, t, args, scan.value);
    }
    forall spans | Fillable(env, t, spans, args)
      ensures scan == Success(spans)
    {
      ScanIff(t, 0, |args|, spans);
    }
  }

  ghost predicate Fillable(env: Env, t: bytes, spans: seq<Span>, args: seq<Value>) {
    IsScan(t, 0, |args|, spans) && RestAreFlags(args, |spans|) && AllAccept(env, t, spans, args, |spans|)
  }

  lemma {:induction false} FilledGiven(env: Env, esc: Escaper, t: bytes, args: seq<Value>, spans: seq<Span>)
    requires IsScan(t, 0, |args|, spans)
    ensures Filled(env, esc, t, args).Success? <==> Fillable(env, t, spans, args)
  {
    if args != [] {
      ScanIff(t, 0, |args|, spans);
      MatchMeaning(|spans|, args);
      if ItemsOf(env, t, spans, args).Success? {
        ItemsIff(env, t, spans, args, ItemsOf(env, t, spans, args).value);
      } else if AllAccept(env, t, spans, args, |spans|) {
        var items := Choose(env, t, spans, args, |spans|);
        ItemsIff(env, t, spans, args, items);
      }
    }
  }

  /** What a filled text is made of: the bytes stored for each argument, in the
      places of its placeholders.  `BuildQuery` leaves just these bytes. */
  lemma {:induction false} FilledWith(env: Env, esc: Escaper, t: bytes, args: seq<Value>)
    returns (spans: seq<Span>, items: seq<bytes>)
    requires Filled(env, esc, t, args).Success?
    ensures IsScan(t, 0, |args|, spans) && InText(t, spans) && |items| == |spans| <= |args|
    ensures forall i :: 0 <= i < |spans| ==> Stores(env, t, spans[i], args[i], items[i])
    ensures Filled(env, esc, t, args).value.0 == Rebuilt(esc, t, spans, items, 0)
  {
    if args == [] {
      spans, items := [], [];
      assert Scan(t, 0, 0) == Success(spans);
    } else {
      spans := Scan(t, 0, |args|).value;
      items := ItemsOf(env, t, spans, args).value;
      ItemsIff(env, t, spans, args, items);
    }
    ScanIff(t, 0, |args|, spans);
    ScanInText(t, |args|, spans);
  }

  lemma {:induction false} Choose(env: Env, t: bytes, spans: seq<Span>, args: seq<Value>, n: nat)
    returns (items: seq<bytes>)
    requires n <= |spans| <= |args| && AllAccept(env, t, spans, args, n)
    ensures |items| == n && forall i :: 0 <= i < n ==> Stores(env, t, spans[i], args[i], items[i])
  {
    items := [];
    if n != 0 {
      items := Choose(env, t, spans, args, n - 1);
      assert Accepts(env, t, spans[n - 1], args[n - 1]);
      var b :| Stores(env, t, spans[n - 1], args[n - 1], b);
      items := items + [b];
    }
  }

  /** `un` undoes the escaping, as the server does when it parses a string. */
  ghost predicate Unescapes(un: bytes -> bytes, esc: Escaper) {
    forall d: bytes :: un(Escape(esc, d)) == d
  }

  /** An escaping that meets the laws: a backslash before a backslash, and for NUL
      a backslash and a zero. */
  function Backslashed(b: byte): bytes {
    if b == BraceUnescape.BACKSLASH then [b, b] else if b == 0 then [BraceUnescape.BACKSLASH, 48] else [b]
  }

  /** As MySQL reads a string: a backslash makes the next byte stand for itself,
      but for the zero. */
  function Unbackslashed(s: bytes): bytes {
    if s == [] then []
    else if s[0] == BraceUnescape.BACKSLASH && |s| >= 2 then
      [if s[1] == 48 then 0 else s[1]] + Unbackslashed(s[2..])
    else [s[0]] + Unbackslashed(s[1..])
  }

  lemma {:induction false} EscapeFirst(esc: Escaper, d: bytes)
    requires d != []
    ensures Escape(esc, d) == esc(d[0]) + Escape(esc, d[1..])
  {
    var n := |d| - 1;
    if n == 0 {
      assert d[..0] == [] && d[1..] == [];
    } else {
      EscapeFirst(esc, d[..n]);
      assert d[..n][1..] == d[1..][..n - 1];
      Assoc(esc(d[0]), Escape(esc, d[1..][..n - 1]), esc(d[n]));
    }
  }

  lemma {:induction false} UnbackslashedOne(b: byte, e: bytes, rest: bytes)
    ensures Unbackslashed(Backslashed(b) + e + rest) == [b] + Unbackslashed(e + rest)
  {
    var s := Backslashed(b) + e + rest;
    assert s[|Backslashed(b)|..] == e + rest;
  }

  lemma {:induction false} UnbackslashedEscape(d: bytes, rest: bytes)
    ensures Unbackslashed(Escape(Backslashed, d) + rest) == d + Unbackslashed(rest)
  {
    if d == [] {
      assert Escape(Backslashed, d) + rest == rest;
      assert d + Unbackslashed(rest) == Unbackslashed(rest);
    } else {
      var tail := d[1..];
      EscapeFirst(Backslashed, d);
      UnbackslashedEscape(tail, rest);
      UnbackslashedOne(d[0], Escape(Backslashed, tail), rest);
      Assoc([d[0]], tail, Unbackslashed(rest));
      assert d == [d[0]] + tail;
    }
  }

  /** What is asked of escaping can be met. */
  lemma {:induction false} EscapeLawConsistent() returns (esc: Escaper, un: bytes -> bytes)
    ensures esc == Backslashed && un == Unbackslashed && EscapeLaw(esc) && Unescapes(un, esc)
  {
    esc, un := Backslashed, Unbackslashed;
    forall d: bytes
      ensures un(Escape(esc, d)) == d
    {
      UnbackslashedEscape(d, []);
      assert Escape(esc, d) + [] == Escape(esc, d) && d + [] == d;
    }
  }

  /** The bytes of a filled query from `lo` to `hi`, as they are sent. */
  function Sent(q: bytes, lo: nat, hi: nat): bytes
    requires lo <= hi <= |q|
  {
    if HasBraceRule(q) then BraceUnescape.Kept(q, lo, hi) else q[lo..hi]
  }

  /** No byte from `lo` to `hi` is lost. */
  predicate SentWhole(q: bytes, lo: nat, hi: nat) {
    !HasBraceRule(q) || !BraceUnescape.BraceFollows(q, lo, hi)
  }

  lemma {:induction false} SentInParts(q: bytes, lo: nat, hi: nat)
    requires Finished(q).Success? && lo <= hi <= |q|
    ensures Finished(q).value == Sent(q, 0, lo) + Sent(q, lo, hi) + Sent(q, hi, |q|)
    ensures Sent(q, lo, hi) == q[lo..hi] <==> SentWhole(q, lo, hi)
    ensures |Sent(q, lo, hi)| == hi - lo <==> SentWhole(q, lo, hi)
    ensures |Sent(q, lo, hi)| <= hi - lo
  {
    if HasBraceRule(q) {
      BraceUnescape.UnescapedIsKept(q);
      BraceUnescape.KeptSplit(q, 0, hi, |q|);
      BraceUnescape.KeptSplit(q, 0, lo, hi);
      BraceUnescape.KeptWhole(q, lo, hi);
    } else {
      assert q == q[0..lo] + q[lo..hi] + q[hi..|q|];
    }
  }

  /** Where argument `i` is in the filled query `q`: its stored bytes, escaped, are
      `e`, at `w`, right behind the untouched text before its placeholder. */
  ghost predicate PlacedAt(esc: Escaper, t: bytes, spans: seq<Span>, items: seq<bytes>, i: nat, q: bytes, w: nat,
                           e: bytes)
    requires InText(t, spans) && |items| == |spans| && i < |spans|
  {
    && SpanFits(t, spans, i) && e == Escape(esc, items[i])
    && w == |Head(esc, t, spans, items, i) + TextBefore(t, spans, i)|
    && q == Head(esc, t, spans, items, i) + TextBefore(t, spans, i) + e + Rebuilt(esc, t, spans, items, i + 1)
  }

  /** What becomes of any datum in the query sent.  It arrives whole unless the
      query is a CREATE or ALTER and a brace stands behind one of its bytes; then
      some of its bytes are missing. */
  lemma {:induction false} DatumSent(env: Env, esc: Escaper, t: bytes, args: seq<Value>, i: nat)
    returns (spans: seq<Span>, items: seq<bytes>, q: bytes, lo: nat, hi: nat, e: bytes)
    requires Command(env, esc, t, args).Success?
    requires Scan(t, 0, |args|).Success? && i < |Scan(t, 0, |args|).value|
    ensures Scan(t, 0, |args|) == Success(spans) && InText(t, spans) && |items| == |spans| <= |args|
    ensures Stores(env, t, spans[i], args[i], items[i]) && PlacedAt(esc, t, spans, items, i, q, lo, e)
    ensures hi == lo + |e| <= |q|
    ensures Command(env, esc, t, args).value.text == Sent(q, 0, lo) + Sent(q, lo, hi) + Sent(q, hi, |q|)
    ensures Sent(q, lo, hi) == e <==> SentWhole(q, lo, hi)
    ensures Sent(q, lo, hi) != e ==> |Sent(q, lo, hi)| < |e|
  {
    q := Filled(env, esc, t, args).value.0;
    spans, items := FilledWith(env, esc, t, args);
    ScanIff(t, 0, |args|, spans);
    DataIntact(esc, t, spans, items, i);
    var before := Head(esc, t, spans, items, i) + TextBefore(t, spans, i);
    e := Escape(esc, items[i]);
    lo := |before|;
    hi := lo + |e|;
    MiddleOf(before, e, Rebuilt(esc, t, spans, items, i + 1), q, lo, hi);
    SentInParts(q, lo, hi);
    CommandSends(env, esc, t, args);
  }

  lemma {:induction false} MiddleOf(a: bytes, b: bytes, c: bytes, s: bytes, lo: nat, hi: nat)
    requires s == a + b + c && lo == |a| && hi == lo + |b|
    ensures hi <= |s| && s[lo..hi] == b
  {
  }

  lemma {:induction false} CommandSends(env: Env, esc: Escaper, t: bytes, args: seq<Value>)
    requires Command(env, esc, t, args).Success?
    ensures Filled(env, esc, t, args).Success? && Finished(Filled(env, esc, t, args).value.0).Success?
    ensures Command(env, esc, t, args).value.text == Finished(Filled(env, esc, t, args).value.0).value
  {
  }

  /** A value sent in a query comes back from the row it was stored in, if its
      escaped blob was sent whole: unescaping it, as the server does, and reading
      the row gives the value.  `DatumSent` says exactly when it is. */
  lemma {:induction false} StoredAndFetched(env: Env, esc: Escaper, un: bytes -> bytes, t: bytes, args: seq<Value>,
                                            i: nat, after: bytes, size: width)
    returns (spans: seq<Span>, items: seq<bytes>, q: bytes, lo: nat, hi: nat, e: bytes)
    requires ZlibLaw(env.zlib) && Unescapes(un, esc) && Command(env, esc, t, args).Success?
    requires Scan(t, 0, |args|).Success? && i < |Scan(t, 0, |args|).value| && i < |args|
    requires AsksForMatlab(t, Scan(t, 0, |args|).value[i]) && Sendable(args[i], size)
    ensures Scan(t, 0, |args|) == Success(spans) && InText(t, spans) && |items| == |spans|
    ensures Stores(env, t, spans[i], args[i], items[i]) && PlacedAt(esc, t, spans, items, i, q, lo, e)
    ensures hi == lo + |e| <= |q|
    ensures Command(env, esc, t, args).value.text == Sent(q, 0, lo) + Sent(q, lo, hi) + Sent(q, hi, |q|)
    ensures SentWhole(q, lo, hi) ==> Sent(q, lo, hi) == e
    ensures SentWhole(q, lo, hi) ==>
      var row := un(Sent(q, lo, hi));
      Deserialize(env.zlib, row + after, |row|, Platform(8, size)) == Success(Norm(args[i]))
    ensures !SentWhole(q, lo, hi) ==> |Sent(q, lo, hi)| < |e|
  {
    spans, items, q, lo, hi, e := DatumSent(env, esc, t, args, i);
    var compress := StoresMatlab(env, t, spans[i], args[i], size);
    PackedRoundTrip(env.zlib, compress, args[i], after, size);
  }

  /** The query sent is the text rebuilt with the arguments' bytes; for CREATE and
      ALTER it must have no bare brace, whether in the text or in the data, and
      what is sent is then the one text whose braces, all escaped, give it. */
  lemma {:induction false} SentAsFilled(env: Env, esc: Escaper, t: bytes, args: seq<Value>)
    returns (spans: seq<Span>, items: seq<bytes>, q: bytes)
    requires Filled(env, esc, t, args).Success?
    requires var q := Filled(env, esc, t, args).value.0; q == [] || !IsSpace(q[0])
    ensures IsScan(t, 0, |args|, spans) && InText(t, spans) && |items| == |spans| <= |args|
    ensures forall i :: 0 <= i < |spans| ==> Stores(env, t, spans[i], args[i], items[i])
    ensures q == Rebuilt(esc, t, spans, items, 0)
    ensures Command(env, esc, t, args).Success? <==> (HasBraceRule(q) ==> BraceUnescape.Accepted(q))
    ensures Command(env, esc, t, args).Success? && !HasBraceRule(q) ==> Command(env, esc, t, args).value.text == q
    ensures Command(env, esc, t, args).Success? && HasBraceRule(q) ==>
      var text := Command(env, esc, t, args).value.text;
      && text == BraceUnescape.Unescaped(q) && BraceUnescape.Escaped(text) == q
      && |text| == |q| - BraceUnescape.BraceCount(q)
  {
    spans, items := FilledWith(env, esc, t, args);
    q := Filled(env, esc, t, args).value.0;
    if HasBraceRule(q) && BraceUnescape.Accepted(q) {
      assert !BraceUnescape.IsBrace(q[0]);
      BraceUnescape.EscapeUnescape(q);
      BraceUnescape.UnescapedSize(q);
    }
  }
}
