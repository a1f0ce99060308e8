/** Building the new query: the text around the placeholders, with the escaped
    data in their place. */
module QueryRebuild {
  import opened Bytes
  import opened Placeholders

  // ---------- escaping ----------

  /** How `mysql_real_escape_string` writes one byte. */
  type Escaper = byte -> bytes

  /** One or two bytes for each, none of them NUL. */
  ghost predicate EscapeLaw(esc: Escaper) {
    forall b: byte :: 1 <= |esc(b)| <= 2 && 0 !in esc(b)
  }

  function Escape(esc: Escaper, d: bytes): bytes {
    if d == [] then [] else Escape(esc, d[..|d| - 1]) + esc(d[|d| - 1])
  }

  lemma {:induction false} EscapeSize(esc: Escaper, d: bytes)
    requires EscapeLaw(esc)
    ensures |Escape(esc, d)| <= 2 * |d| && 0 !in Escape(esc, d)
  {
    if d != [] {
      EscapeSize(esc, d[..|d| - 1]);
      assert 0 !in esc(d[|d| - 1]);
    }
  }

  /** Writes the escaped data and a terminating NUL; asks, as MySQL documents,
      for room for twice the data and the NUL. */
  method EscapeString(esc: Escaper, buf: array<byte>, p: nat, d: bytes) returns (n: nat)
    requires EscapeLaw(esc) && p + 2 * |d| + 1 <= buf.Length
    modifies buf
    ensures n == |Escape(esc, d)| <= 2 * |d| && buf[..p + n] == old(buf[..p]) + Escape(esc, d) && buf[p + n] == 0
  {
    n := 0;
    EscapeSize(esc, d);
    for i := 0 to |d|
      invariant n == |Escape(esc, d[..i])| <= 2 * i && buf[..p + n] == old(buf[..p]) + Escape(esc, d[..i])
    {
      assert d[..i + 1][..i] == d[..i];
      var e := esc(d[i]);
      buf[p + n] := e[0];
      if |e| == 2 {
        buf[p + n + 1] := e[1];
      }
      n := n + |e|;
      assert buf[..p + n] == old(buf[..p]) + Escape(esc, d[..i]) + e;
    }
    assert d[..|d|] == d;
    buf[p + n] := 0;
  }

  // ---------- the new query ----------

  /** The spans lie in the text, one after the other. */
  ghost predicate InText(t: bytes, spans: seq<Span>) {
    forall i :: 0 <= i < |spans| ==> SpanFits(t, spans, i)
  }

  ghost predicate SpanFits(t: bytes, spans: seq<Span>, i: nat)
    requires i < |spans|
  {
    Resume(spans, 0, i) <= spans[i].open < spans[i].close < |t|
  }

  lemma {:induction false} InOrder(t: bytes, spans: seq<Span>, j: nat, i: nat)
    requires InText(t, spans) && j < i < |spans|
    ensures spans[j].close < spans[i].open
    decreases i - j
  {
    assert SpanFits(t, spans, i);
    if j + 1 < i {
      InOrder(t, spans, j, i - 1);
      assert SpanFits(t, spans, i - 1);
    }
  }

  lemma {:induction false} ResumeInText(t: bytes, spans: seq<Span>, i: nat)
    requires InText(t, spans) && i <= |spans|
    ensures Resume(spans, 0, i) <= |t|
    ensures i < |spans| ==> Resume(spans, 0, i) <= spans[i].open < spans[i].close < |t|
  {
    if i != 0 {
      assert SpanFits(t, spans, i - 1);
    }
    if i < |spans| {
      assert SpanFits(t, spans, i);
    }
  }

  /** What a scan finds lies in the text. */
  lemma {:induction false} ScanInText(t: bytes, limit: nat, spans: seq<Span>)
    requires Scan(t, 0, limit) == Success(spans)
    ensures InText(t, spans)
  {
    ScanIff(t, 0, limit, spans);
    forall i | 0 <= i < |spans|
      ensures SpanFits(t, spans, i)
    {
      assert SpanAt(t, 0, spans, i);
    }
  }

  /** The query from span `i` on: the text in between, each span replaced by its
      escaped data. */
  ghost function Rebuilt(esc: Escaper, t: bytes, spans: seq<Span>, ds: seq<bytes>, i: nat): bytes
    requires |spans| == |ds| && i <= |spans| && InText(t, spans)
    decreases |spans| - i
  {
    ResumeInText(t, spans, i);
    var from := Resume(spans, 0, i);
    if i == |spans| then t[from..]
    else t[from..spans[i].open] + Escape(esc, ds[i]) + Rebuilt(esc, t, spans, ds, i + 1)
  }

  function TotalSize(ds: seq<bytes>, i: nat): nat
    requires i <= |ds|
    decreases |ds| - i
  {
    if i == |ds| then 0 else |ds[i]| + TotalSize(ds, i + 1)
  }

  /** The new query holds no NUL and fits the buffer the source allocates. */
  lemma {:induction false} RebuiltSize(esc: Escaper, t: bytes, spans: seq<Span>, ds: seq<bytes>, i: nat)
    requires EscapeLaw(esc) && |spans| == |ds| && i <= |spans| && InText(t, spans)
    ensures |Rebuilt(esc, t, spans, ds, i)| <= 2 * TotalSize(ds, i) + |t| - Resume(spans, 0, i)
    ensures 0 !in t ==> 0 !in Rebuilt(esc, t, spans, ds, i)
    decreases |spans| - i
  {
    ResumeInText(t, spans, i);
    if i < |spans| {
      EscapeSize(esc, ds[i]);
      RebuiltSize(esc, t, spans, ds, i + 1);
    }
  }

  /** The text between span `i - 1` and span `i`. */
  function TextBefore(t: bytes, spans: seq<Span>, i: nat): bytes
    requires i < |spans| && Resume(spans, 0, i) <= spans[i].open <= |t|
  {
    t[Resume(spans, 0, i)..spans[i].open]
  }

  /** The query up to where span `i - 1` was: made from the first `i` data. */
  ghost function Head(esc: Escaper, t: bytes, spans: seq<Span>, ds: seq<bytes>, i: nat): bytes
    requires |spans| == |ds| && i <= |spans| && InText(t, spans)
  {
    if i == 0 then []
    else
      ResumeInText(t, spans, i - 1);
      Head(esc, t, spans, ds, i - 1) + TextBefore(t, spans, i - 1) + Escape(esc, ds[i - 1])
  }

  /** Every datum is in the new query, escaped and whole, whatever braces or NULs
      any of the data contain: right behind the untouched text before its own
      placeholder, and right before what is made of the rest. */
  lemma {:induction false} DataIntact(esc: Escaper, t: bytes, spans: seq<Span>, ds: seq<bytes>, i: nat)
    requires |spans| == |ds| && i < |spans| && InText(t, spans)
    ensures SpanFits(t, spans, i)
    ensures Rebuilt(esc, t, spans, ds, 0) == Head(esc, t, spans, ds, i) + TextBefore(t, spans, i) + Escape(esc, ds[i])
                                             + Rebuilt(esc, t, spans, ds, i + 1)
  {
    HeadThenRest(esc, t, spans, ds, i + 1);
    assert SpanFits(t, spans, i);
  }

  lemma {:induction false} HeadThenRest(esc: Escaper, t: bytes, spans: seq<Span>, ds: seq<bytes>, i: nat)
    requires |spans| == |ds| && i <= |spans| && InText(t, spans)
    ensures Rebuilt(esc, t, spans, ds, 0) == Head(esc, t, spans, ds, i) + Rebuilt(esc, t, spans, ds, i)
  {
    if i == 0 {
      assert [] + Rebuilt(esc, t, spans, ds, 0) == Rebuilt(esc, t, spans, ds, 0);
    } else {
      HeadThenRest(esc, t, spans, ds, i - 1);
      ResumeInText(t, spans, i - 1);
      RebuildStep(Head(esc, t, spans, ds, i - 1), TextBefore(t, spans, i - 1), Escape(esc, ds[i - 1]),
                  Rebuilt(esc, t, spans, ds, i));
    }
  }

  // ---------- the writing loop ----------

  /** Memory holds the text, but for a NUL planted at each closing brace. */
  ghost predicate HoldsPlanted(q: array<byte>, t: bytes, spans: seq<Span>)
    reads q
  {
    && q.Length == |t| + 1 && q[|t|] == 0
    && forall k :: 0 <= k < |t| ==> q[k] == t[k] || Planted(spans, k)
  }

  ghost predicate Planted(spans: seq<Span>, k: nat) {
    exists i :: 0 <= i < |spans| && spans[i].close == k
  }

  /** No closing brace, hence no planted NUL, between span `i - 1` and span `i`
      (or the end of the text). */
  lemma {:induction false} GapIsClear(t: bytes, spans: seq<Span>, i: nat, k: nat)
    requires InText(t, spans) && i <= |spans|
    requires Resume(spans, 0, i) <= k && (i < |spans| ==> k < spans[i].open)
    ensures !Planted(spans, k)
  {
    forall j | 0 <= j < |spans|
      ensures spans[j].close != k
    {
      if j < i - 1 {
        InOrder(t, spans, j, i - 1);
        assert SpanFits(t, spans, i - 1);
      }
      if i <= j {
        assert SpanFits(t, spans, i) && SpanFits(t, spans, j);
      }
      if i < j {
        InOrder(t, spans, i, j);
      }
    }
  }

  /** Copies the text between span `i - 1` and `to`. */
  method CopyText(buf: array<byte>, p: nat, q: array<byte>, ghost t: bytes, ghost spans: seq<Span>, ghost i: nat,
                  from: nat, to: nat)
    requires buf != q && HoldsPlanted(q, t, spans) && InText(t, spans) && i <= |spans|
    requires from == Resume(spans, 0, i) <= to <= |t| && (i < |spans| ==> to <= spans[i].open)
    requires p + (to - from) <= buf.Length
    modifies buf
    ensures buf[..p + (to - from)] == old(buf[..p]) + t[from..to]
  {
    for k := from to to
      invariant buf[..p + (k - from)] == old(buf[..p]) + t[from..k]
    {
      GapIsClear(t, spans, i, k);
      buf[p + (k - from)] := q[k];
      assert t[from..k + 1] == t[from..k] + [t[k]];
    }
  }

  /** The text up to span `i`, then the data in its place. */
  method ReplaceOne(esc: Escaper, buf: array<byte>, p: nat, q: array<byte>, ghost t: bytes, spans: seq<Span>, i: nat,
                    from: nat, d: bytes)
    returns (p': nat)
    requires EscapeLaw(esc) && buf != q && HoldsPlanted(q, t, spans) && InText(t, spans)
    requires i < |spans| && from == Resume(spans, 0, i) <= spans[i].open <= |t|
    requires p + (spans[i].open - from) + 2 * |d| + 1 <= buf.Length
    modifies buf
    ensures p <= p' <= p + (spans[i].open - from) + 2 * |d|
    ensures buf[..p'] == old(buf[..p]) + t[from..spans[i].open] + Escape(esc, d)
  {
    CopyText(buf, p, q, t, spans, i, from, spans[i].open);
    p' := p + (spans[i].open - from);
    var n := EscapeString(esc, buf, p', d);
    p' := p' + n;
  }

  /** The new query, its NUL included, in a buffer of the size the source
      allocates.  `from` is the running pointer into the old query. */
  method BuildQuery(esc: Escaper, q: array<byte>, ghost t: bytes, lengthOfQuery: nat, spans: seq<Span>, pd: seq<bytes>,
                    nb: nat)
    returns (nq: array<byte>, len: nat)
    requires EscapeLaw(esc) && |spans| == |pd| && InText(t, spans)
    requires HoldsPlanted(q, t, spans) && lengthOfQuery == |t| && nb == TotalSize(pd, 0)
    ensures fresh(nq) && nq.Length == 2 * nb + lengthOfQuery + 1
    ensures len <= nq.Length && nq[..len] == Rebuilt(esc, t, spans, pd, 0) + [0]
  {
    nq := new byte[2 * nb + lengthOfQuery + 1](_ => 0);
    var p: nat, from: nat := 0, 0;
    ghost var done: bytes := [];
    ghost var whole := Rebuilt(esc, t, spans, pd, 0);
    assert [] + whole == whole;
    for i := 0 to |spans|
      invariant from == Resume(spans, 0, i) <= |t| && HoldsPlanted(q, t, spans)
      invariant p + 2 * TotalSize(pd, i) + (|t| - from) <= 2 * nb + |t| && nq[..p] == done
      invariant done + Rebuilt(esc, t, spans, pd, i) == whole
    {
      ResumeInText(t, spans, i);
      RebuildStep(done, t[from..spans[i].open], Escape(esc, pd[i]), Rebuilt(esc, t, spans, pd, i + 1));
      done := done + t[from..spans[i].open] + Escape(esc, pd[i]);
      p := ReplaceOne(esc, nq, p, q, t, spans, i, from, pd[i]);
      from := spans[i].close + 1;
    }
    CopyText(nq, p, q, t, spans, |spans|, from, lengthOfQuery);
    assert t[from..|t|] == t[from..];
    len := p + (lengthOfQuery - from) + 1;
    nq[len - 1] := q[lengthOfQuery];
  }

  lemma {:induction false} RebuildStep(done: bytes, text: bytes, e: bytes, rest: bytes)
    ensures done + (text + e + rest) == done + text + e + rest
  {
  }
}
