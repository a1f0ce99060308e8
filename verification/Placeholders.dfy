/** Placeholders in a query: finding them, matching them with the arguments and
    the trailing flags, and what each one asks for. */
module Placeholders {
  import opened Bytes
  import opened MatlabValue

  const OPEN: byte := 123    // '{'
  const CLOSE: byte := 125   // '}'

  /** Offsets of an opening brace and of the brace that closes it. */
  datatype Span = Span(open: nat, close: nat)

  // ---------- the scan ----------

  /** `strstr` for a one-character needle, in a text without its NUL. */
  function Find(t: bytes, from: nat, c: byte): (r: Option<nat>)
    requires from <= |t|
    ensures r.Some? ==> from <= r.value < |t|
    decreases |t| - from
  {
    if from == |t| then None else if t[from] == c then Some(from) else Find(t, from + 1, c)
  }

  /** `k` is the first place from `from` on where `t` has a `c`. */
  ghost predicate FirstAt(t: bytes, from: nat, c: byte, k: nat) {
    from <= k < |t| && t[k] == c && forall j :: from <= j < k ==> t[j] != c
  }

  /** At most `limit` placeholders, the rest of the text not looked at. */
  function Scan(t: bytes, from: nat, limit: nat): Result<seq<Span>>
    requires from <= |t|
    decreases limit
  {
    if limit == 0 then Success([])
    else match Find(t, from, OPEN)
      case None => Success([])
      case Some(o) =>
        match Find(t, o + 1, CLOSE)
        case None => Failure(UnclosedPlaceholder)
        case Some(c) =>
          var rest :- Scan(t, c + 1, limit - 1);
          Success([Span(o, c)] + rest)
  }

  /** Where the text left of the first `i` spans ends. */
  function Resume(spans: seq<Span>, from: nat, i: nat): nat
    requires i <= |spans|
  {
    if i == 0 then from else spans[i - 1].close + 1
  }

  /** What a scan should find: each span opens at the first opening brace after
      the one before, closes at the first closing brace after that, and none is
      left over unless the limit is reached. */
  ghost predicate IsScan(t: bytes, from: nat, limit: nat, spans: seq<Span>)
    requires from <= |t|
  {
    && |spans| <= limit
    && (forall i :: 0 <= i < |spans| ==> SpanAt(t, from, spans, i))
    && (|spans| < limit ==> forall k :: Resume(spans, from, |spans|) <= k < |t| ==> t[k] != OPEN)
  }

  ghost predicate SpanAt(t: bytes, from: nat, spans: seq<Span>, i: nat)
    requires i < |spans|
  {
    IsSpan(t, Resume(spans, from, i), spans[i])
  }

  ghost predicate IsSpan(t: bytes, from: nat, s: Span) {
    FirstAt(t, from, OPEN, s.open) && FirstAt(t, s.open + 1, CLOSE, s.close)
  }

  /** The first span, and what remains to be found after it. */
  lemma {:induction false} IsScanTail(t: bytes, from: nat, limit: nat, spans: seq<Span>)
    requires from <= |t| && spans != [] && IsScan(t, from, limit, spans)
    ensures IsSpan(t, from, spans[0]) && IsScan(t, spans[0].close + 1, limit - 1, spans[1..])
  {
    var rest, next := spans[1..], spans[0].close + 1;
    assert SpanAt(t, from, spans, 0);
    forall i | 0 <= i < |rest|
      ensures SpanAt(t, next, rest, i)
    {
      assert SpanAt(t, from, spans, i + 1);
    }
    assert Resume(rest, next, |rest|) == Resume(spans, from, |spans|);
  }

  lemma {:induction false} IsScanCons(t: bytes, from: nat, limit: nat, s: Span, rest: seq<Span>)
    requires from <= |t| && limit != 0 && IsSpan(t, from, s) && IsScan(t, s.close + 1, limit - 1, rest)
    ensures IsScan(t, from, limit, [s] + rest)
  {
    var spans, next := [s] + rest, s.close + 1;
    forall i | 0 <= i < |spans|
      ensures SpanAt(t, from, spans, i)
    {
      if i != 0 {
        assert SpanAt(t, next, rest, i - 1);
      }
    }
    assert Resume(rest, next, |rest|) == Resume(spans, from, |spans|);
  }

  lemma {:induction false} FindIff(t: bytes, from: nat, c: byte, k: nat)
    requires from <= |t|
    ensures Find(t, from, c) == Some(k) <==> FirstAt(t, from, c, k)
    ensures Find(t, from, c) == None <==> forall j :: from <= j < |t| ==> t[j] != c
    decreases |t| - from
  {
    if from < |t| && t[from] != c {
      FindIff(t, from + 1, c, k);
    }
  }

  lemma {:induction false} ScanMeets(t: bytes, from: nat, limit: nat, spans: seq<Span>)
    requires from <= |t| && Scan(t, from, limit) == Success(spans)
    ensures IsScan(t, from, limit, spans)
    decreases limit
  {
    if spans == [] {
      FindIff(t, from, OPEN, 0);
      assert Resume(spans, from, 0) == from;
    } else {
      FindIff(t, from, OPEN, spans[0].open);
      FindIff(t, spans[0].open + 1, CLOSE, spans[0].close);
      ScanMeets(t, spans[0].close + 1, limit - 1, spans[1..]);
      IsScanCons(t, from, limit, spans[0], spans[1..]);
      assert spans == [spans[0]] + spans[1..];
    }
  }

  lemma {:induction false} ScanComplete(t: bytes, from: nat, limit: nat, spans: seq<Span>)
    requires from <= |t| && IsScan(t, from, limit, spans)
    ensures Scan(t, from, limit) == Success(spans)
    decreases limit
  {
    if spans == [] {
      assert Resume(spans, from, 0) == from;
      FindIff(t, from, OPEN, 0);
    } else {
      IsScanTail(t, from, limit, spans);
      FindIff(t, from, OPEN, spans[0].open);
      FindIff(t, spans[0].open + 1, CLOSE, spans[0].close);
      ScanComplete(t, spans[0].close + 1, limit - 1, spans[1..]);
      assert spans == [spans[0]] + spans[1..];
    }
  }

  /** The scan is exactly what it should be: it succeeds with `spans` if and only
      if these are the placeholders of the text. */
  lemma {:induction false} ScanIff(t: bytes, from: nat, limit: nat, spans: seq<Span>)
    requires from <= |t|
    ensures Scan(t, from, limit) == Success(spans) <==> IsScan(t, from, limit, spans)
  {
    if Scan(t, from, limit) == Success(spans) {
      ScanMeets(t, from, limit, spans);
    } else if IsScan(t, from, limit, spans) {
      ScanComplete(t, from, limit, spans);
    }
  }

  /** Spans are disjoint and in order. */
  lemma {:induction false} ScanOrdered(t: bytes, from: nat, limit: nat, spans: seq<Span>)
    requires from <= |t| && IsScan(t, from, limit, spans)
    ensures forall i :: 0 <= i < |spans| ==> from <= spans[i].open < spans[i].close < |t|
    ensures forall i, j :: 0 <= i < j < |spans| ==> spans[i].close < spans[j].open
    decreases limit
  {
    if spans != [] {
      IsScanTail(t, from, limit, spans);
      ScanOrdered(t, spans[0].close + 1, limit - 1, spans[1..]);
      assert forall i :: 0 < i < |spans| ==> spans[i] == spans[1..][i - 1];
    }
  }

  /** With fewer arguments only the first placeholders are seen: if `all` are
      available, `limit` arguments find the first min(|all|, limit). */
  lemma {:induction false} ScanTruncates(t: bytes, from: nat, limit: nat, more: nat)
    requires from <= |t| && limit <= more && Scan(t, from, more).Success?
    ensures var all := Scan(t, from, more).value;
            Scan(t, from, limit) == Success(if limit < |all| then all[..limit] else all)
    decreases limit
  {
    if limit != 0 && Find(t, from, OPEN).Some? {
      var all := Scan(t, from, more).value;
      ScanTruncates(t, all[0].close + 1, limit - 1, more - 1);
      if limit < |all| {
        assert all[..limit] == [all[0]] + all[1..][..limit - 1];
      }
    }
  }

  /** The text as it lies in memory. */
  ghost predicate Holds(q: array<byte>, t: bytes)
    reads q
  {
    q.Length == |t| + 1 && q[..|t|] == t && q[|t|] == 0 && 0 !in t
  }

  lemma {:induction false} HeldText(q: array<byte>, t: bytes)
    requires Holds(q, t)
    ensures forall k :: 0 <= k < |t| ==> q[k] == t[k] && q[k] != 0
  {
    forall k | 0 <= k < |t|
      ensures q[k] == t[k] && q[k] != 0
    {
      assert q[k] == q[..|t|][k] && t[k] in t;
    }
  }

  method StrStr(q: array<byte>, ghost t: bytes, from: nat, c: byte) returns (r: Option<nat>)
    requires Holds(q, t) && from <= |t| && c != 0
    ensures r == Find(t, from, c)
  {
    var k := from;
    HeldText(q, t);
    while q[k] != 0
      invariant from <= k <= |t| && Find(t, from, c) == Find(t, k, c)
      decreases |t| - k
    {
      if q[k] == c {
        return Some(k);
      }
      k := k + 1;
    }
    return None;
  }

  function Before(acc: seq<Span>, r: Result<seq<Span>>): Result<seq<Span>> {
    match r
    case Success(spans) => Success(acc + spans)
    case Failure(e) => Failure(e)
  }

  lemma {:induction false} ScanStep(acc: seq<Span>, t: bytes, from: nat, limit: nat, o: nat, c: nat)
    requires from <= o < c < |t| && limit != 0
    requires Find(t, from, OPEN) == Some(o) && Find(t, o + 1, CLOSE) == Some(c)
    ensures Before(acc, Scan(t, from, limit)) == Before(acc + [Span(o, c)], Scan(t, c + 1, limit - 1))
  {
    var rest := Scan(t, c + 1, limit - 1);
    if rest.Success? {
      assert acc + ([Span(o, c)] + rest.value) == (acc + [Span(o, c)]) + rest.value;
    }
  }

  /** The pointer arrays record the spans. */
  ghost predicate Recorded(spans: seq<Span>, po: array<Option<nat>>, pc: array<Option<nat>>)
    reads po, pc
  {
    && |spans| <= po.Length && |spans| <= pc.Length
    && forall i :: 0 <= i < |spans| ==> po[i] == Some(spans[i].open) && pc[i] == Some(spans[i].close)
  }

  /** Stores where span number `nac` closes and where the next one may open. */
  method Record(ghost spans: seq<Span>, po: array<Option<nat>>, pc: array<Option<nat>>, nac: nat, close: nat,
                next: Option<nat>)
    requires po != pc && Recorded(spans, po, pc) && nac == |spans| + 1 < po.Length == pc.Length
    requires po[nac - 1].Some?
    modifies po, pc
    ensures po[nac] == next && Recorded(spans + [Span(old(po[nac - 1].value), close)], po, pc)
  {
    pc[nac - 1] := Some(close);
    po[nac] := next;
  }

  /** One turn of the scanning loop: where the placeholder at `po[nac - 1]`
      closes, and where the next one opens. */
  method ScanOne(q: array<byte>, ghost t: bytes, ghost found: seq<Span>, ghost from: nat, ghost todo: nat,
                 po: array<Option<nat>>, pc: array<Option<nat>>, nac: nat)
    returns (ok: bool, ghost span: Span)
    requires Holds(q, t) && from <= |t| && todo != 0
    requires po != pc && Recorded(found, po, pc) && nac == |found| + 1 < po.Length == pc.Length
    requires po[nac - 1].Some? && po[nac - 1] == Find(t, from, OPEN)
    modifies po, pc
    ensures !ok ==> Scan(t, from, todo) == Failure(UnclosedPlaceholder)
    ensures ok ==> span.close < |t| && po[nac] == Find(t, span.close + 1, OPEN) && Recorded(found + [span], po, pc)
    ensures ok ==> Before(found, Scan(t, from, todo)) == Before(found + [span], Scan(t, span.close + 1, todo - 1))
  {
    var o := po[nac - 1].value;
    var closing := StrStr(q, t, o + 1, CLOSE);
    span := Span(o, o);
    if closing.None? {
      return false, span;
    }
    var c := closing.value;
    var next := StrStr(q, t, c + 1, OPEN);
    ScanStep(found, t, from, todo, o, c);
    Record(found, po, pc, nac, c, next);
    return true, Span(o, c);
  }

  /** The scanning loop over the pointer arrays `po` and `pc`. */
  method FindPlaceholders(q: array<byte>, ghost t: bytes, expected: nat)
    returns (r: Result<nat>, po: array<Option<nat>>, pc: array<Option<nat>>)
    requires Holds(q, t) && expected != 0
    ensures fresh(po) && fresh(pc) && po.Length == pc.Length == expected + 1
    ensures r.Success? <==> Scan(t, 0, expected).Success?
    ensures r.Failure? ==> r.error == UnclosedPlaceholder
    ensures r.Success? ==> r.value == |Scan(t, 0, expected).value| && Recorded(Scan(t, 0, expected).value, po, pc)
  {
    po := new Option<nat>[expected + 1](_ => None);
    pc := new Option<nat>[expected + 1](_ => None);
    ghost var found: seq<Span> := [];
    ghost var from: nat, todo: nat := 0, expected;
    var nac := 0;
    var first := StrStr(q, t, 0, OPEN);
    po[nac] := first;
    nac := nac + 1;
    BeforeNil(Scan(t, 0, expected));
    while po[nac - 1].Some? && nac <= expected
      invariant 1 <= nac <= expected + 1 && |found| == nac - 1 && todo == expected + 1 - nac && from <= |t|
      invariant Holds(q, t) && po[nac - 1] == Find(t, from, OPEN)
      invariant Recorded(found, po, pc)
      invariant Before(found, Scan(t, from, todo)) == Scan(t, 0, expected)
      decreases expected - nac
    {
      var ok; ghost var span;
      ok, span := ScanOne(q, t, found, from, todo, po, pc, nac);
      if !ok {
        return Failure(UnclosedPlaceholder), po, pc;
      }
      nac := nac + 1;
      found := found + [span];
      from, todo := span.close + 1, todo - 1;
    }
    nac := nac - 1;
    BeforeAll(found);
    return Success(nac), po, pc;
  }

  lemma {:induction false} BeforeNil(r: Result<seq<Span>>)
    ensures Before([], r) == r
  {
    if r.Success? {
      assert [] + r.value == r.value;
    }
  }

  lemma {:induction false} BeforeAll(acc: seq<Span>)
    ensures Before(acc, Success([])) == Success(acc)
  {
    assert acc + [] == acc;
  }

  // ---------- trailing flags ----------

  /** "bigint_to_double", in UTF-16 code units. */
  const FLAG: seq<nat> := [98, 105, 103, 105, 110, 116, 95, 116, 111, 95, 100, 111, 117, 98, 108, 101]

  function LowerUnit(c: nat): nat {
    if 65 <= c <= 90 then c + 32 else c
  }

  function LowerAll(cs: seq<nat>): seq<nat> {
    seq(|cs|, i requires 0 <= i < |cs| => LowerUnit(cs[i]))
  }

  /** A char argument whose C string spells the flag in any letter case. */
  predicate IsFlag(v: Value) {
    v.Arr? && v.classId == CHAR_CLASS && LowerAll(Until(CodeUnits(v.re), 0)) == FLAG
  }

  function TrailingFlags(args: seq<Value>): (n: nat)
    ensures n <= |args|
  {
    if args != [] && IsFlag(args[|args| - 1]) then 1 + TrailingFlags(args[..|args| - 1]) else 0
  }

  method CountFlags(args: seq<Value>) returns (n: nat)
    ensures n == TrailingFlags(args)
  {
    n := 0;
    var i := |args|;
    assert args[..i] == args;
    while i > 0 && IsFlag(args[i - 1])
      invariant 0 <= i <= |args| && i + n == |args|
      invariant n + TrailingFlags(args[..i]) == TrailingFlags(args)
    {
      assert args[..i][..i - 1] == args[..i - 1];
      n := n + 1;
      i := i - 1;
    }
  }

  lemma {:induction false} TrailingAreFlags(args: seq<Value>, k: nat)
    requires k <= |args|
    ensures |args| - TrailingFlags(args) <= k <==> forall j :: k <= j < |args| ==> IsFlag(args[j])
    decreases |args|
  {
    var n := |args|;
    if n != 0 && IsFlag(args[n - 1]) {
      if k < n {
        TrailingAreFlags(args[..n - 1], k);
      }
    } else if k < n {
      assert !IsFlag(args[n - 1]);
    }
  }

  /** How many of the arguments are flags, given the number of placeholders
      found; an error when the others do not match them. */
  function MatchArguments(nac: nat, args: seq<Value>): Result<nat>
    requires nac <= |args|
  {
    var flags := TrailingFlags(args);
    if nac < |args| && nac >= |args| - flags then Success(|args| - nac)
    else if nac != |args| then Failure(PlaceholderCount)
    else Success(flags)
  }

  /** The check passes exactly when every argument without a placeholder is the
      flag; and then the flag is in force exactly when the last argument is it
      (even if that argument also fills a placeholder). */
  lemma {:induction false} MatchMeaning(nac: nat, args: seq<Value>)
    requires nac <= |args|
    ensures MatchArguments(nac, args).Success? <==> forall j :: nac <= j < |args| ==> IsFlag(args[j])
    ensures MatchArguments(nac, args).Success? ==>
      (MatchArguments(nac, args).value > 0 <==> args != [] && IsFlag(args[|args| - 1]))
    ensures MatchArguments(nac, args).Success? ==> MatchArguments(nac, args).value <= |args|
    ensures MatchArguments(nac, args).Success? ==>
      forall j :: |args| - MatchArguments(nac, args).value <= j < |args| ==> IsFlag(args[j])
  {
    TrailingAreFlags(args, nac);
    TrailingAreFlags(args, |args| - TrailingFlags(args));
  }

  // ---------- what a placeholder asks for ----------

  datatype Form = ToArray | ToCell | ToStruct | ToBinary | ToFile | ToText

  /** The serializer a placeholder selects, and whether its output may be compressed. */
  datatype Kind = Kind(form: Form, compress: bool)

  predicate IsVector(v: Value) {
    v.Arr? && |v.dims| == 2 && (v.dims[0] == 1 || v.dims[1] == 1)
  }

  function CharAt(t: bytes, p: nat): byte {
    if p < |t| then t[p] else 0
  }

  /** `getSerialFct`, at the character after the opening brace. */
  function Classify(t: bytes, p: nat, arg: Value): Result<Kind> {
    var plain := CharAt(t, p) == 117;  // 'u'
    var c := CharAt(t, if plain then p + 1 else p);
    if c == 77 then  // 'M'
      match arg
      case Arr(_, _, _, _) => Success(Kind(ToArray, !plain))
      case Sparse(_, _, _, _, _, _, _) => Success(Kind(ToArray, !plain))
      case Cell(_, _) => Success(Kind(ToCell, !plain))
      case Struct(_, _, _) => Success(Kind(ToStruct, !plain))
      case Other => Failure(UnsupportedType)
    else if c == 66 then  // 'B'
      if IsVector(arg) && arg.classId == UINT8_CLASS then Success(Kind(ToBinary, !plain)) else Failure(BadPlaceholder)
    else if c == 70 then  // 'F'
      if IsVector(arg) && arg.classId == CHAR_CLASS then Success(Kind(ToFile, !plain)) else Failure(BadPlaceholder)
    else if c == 83 then  // 'S'
      Success(Kind(ToText, false))
    else Failure(BadPlaceholder)
  }
}
