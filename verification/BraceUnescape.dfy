/** CREATE and ALTER queries carry literal braces as "\{" and "\}". */
module BraceUnescape {
  import opened Bytes

  const BACKSLASH: byte := 92

  predicate IsBrace(c: byte) {
    c == 123 || c == 125
  }

  /** The query starts with `word`, in any letter case. */
  predicate StartsWith(q: bytes, word: bytes) {
    |word| <= |q| && forall i :: 0 <= i < |word| ==> Lower(q[i]) == Lower(word[i])
  }

  method TestPrefix(q: bytes, word: bytes) returns (b: bool)
    ensures b == StartsWith(q, word)
  {
    for i := 0 to |word|
      invariant i <= |q| && forall k :: 0 <= k < i ==> Lower(q[k]) == Lower(word[k])
    {
      if i == |q| || Lower(q[i]) != Lower(word[i]) {
        return false;
      }
    }
    return true;
  }

  /** A brace at `i` that no backslash precedes; the first character is never
      looked at. */
  predicate BareBrace(q: bytes, i: nat)
    requires i < |q|
  {
    i != 0 && IsBrace(q[i]) && q[i - 1] != BACKSLASH
  }

  ghost predicate Accepted(q: bytes) {
    forall i :: 0 <= i < |q| ==> !BareBrace(q, i)
  }

  /** The text an escaped query stands for. */
  function Unescaped(q: bytes): bytes {
    if q == [] then []
    else
      var n := |q| - 1;
      if IsBrace(q[n]) && n != 0 && q[n - 1] == BACKSLASH then Unescaped(q[..n - 1]) + [q[n]]
      else Unescaped(q[..n]) + [q[n]]
  }

  function Escaped(s: bytes): bytes {
    if s == [] then []
    else
      var n := |s| - 1;
      Escaped(s[..n]) + (if IsBrace(s[n]) then [BACKSLASH, s[n]] else [s[n]])
  }

  /** Braces that lose their backslash. */
  function BraceCount(q: bytes): nat {
    if |q| <= 1 then 0 else BraceCount(q[..|q| - 1]) + (if IsBrace(q[|q| - 1]) then 1 else 0)
  }

  lemma {:induction false} AcceptedPrefix(q: bytes, n: nat)
    requires Accepted(q) && n <= |q|
    ensures Accepted(q[..n])
  {
    forall i | 0 <= i < n
      ensures !BareBrace(q[..n], i)
    {
      assert !BareBrace(q, i);
    }
  }

  /** Exactly one backslash is dropped for each brace. */
  lemma {:induction false} UnescapedSize(q: bytes)
    requires Accepted(q)
    ensures |Unescaped(q)| == |q| - BraceCount(q)
  {
    if q != [] {
      var n := |q| - 1;
      if IsBrace(q[n]) && n != 0 {
        assert !BareBrace(q, n);
        AcceptedPrefix(q, n - 1);
        UnescapedSize(q[..n - 1]);
        assert q[..n][..n - 1] == q[..n - 1];
      } else {
        AcceptedPrefix(q, n);
        UnescapedSize(q[..n]);
      }
    }
  }

  /** The source gives the result as many bytes as the query has, so there is
      room for its NUL exactly when some brace was unescaped. */
  lemma {:induction false} RoomForNul(q: bytes)
    requires Accepted(q)
    ensures |Unescaped(q)| < |q| <==> exists i :: 0 < i < |q| && IsBrace(q[i])
  {
    UnescapedSize(q);
    NoBraces(q);
  }

  lemma {:induction false} NoBraces(q: bytes)
    ensures BraceCount(q) == 0 <==> forall i :: 0 < i < |q| ==> !IsBrace(q[i])
  {
    if |q| > 1 {
      var n := |q| - 1;
      NoBraces(q[..n]);
      if forall i :: 0 < i < n ==> !IsBrace(q[..n][i]) {
        assert forall i :: 0 < i < n ==> q[i] == q[..n][i];
      } else {
        var i :| 0 < i < n && IsBrace(q[..n][i]);
        assert IsBrace(q[i]);
      }
    }
  }

  /** Escaping every brace and unescaping gives any text back. */
  lemma {:induction false} UnescapeEscape(s: bytes)
    ensures Accepted(Escaped(s)) && Unescaped(Escaped(s)) == s
  {
    if s != [] {
      var n := |s| - 1;
      var front := Escaped(s[..n]);
      UnescapeEscape(s[..n]);
      assert s == s[..n] + [s[n]];
      var e := Escaped(s);
      if IsBrace(s[n]) {
        assert e[..|e| - 2] == front && e[|e| - 1] == s[n] && e[|e| - 2] == BACKSLASH;
      } else {
        assert e[..|e| - 1] == front && e[|e| - 1] == s[n];
      }
      forall i | 0 <= i < |e|
        ensures !BareBrace(e, i)
      {
        if i < |front| {
          assert !BareBrace(front, i);
        }
      }
    }
  }

  /** And unescaping any accepted query, then escaping, restores the query. */
  lemma {:induction false} EscapeUnescape(q: bytes)
    requires Accepted(q) && (q != [] ==> !IsBrace(q[0]))
    ensures Escaped(Unescaped(q)) == q
  {
    if q != [] {
      var n := |q| - 1;
      var k := if IsBrace(q[n]) then n - 1 else n;
      assert !BareBrace(q, n);
      AcceptedPrefix(q, k);
      EscapeUnescape(q[..k]);
      var u := Unescaped(q);
      assert u[..|u| - 1] == Unescaped(q[..k]);
      assert q == q[..k] + q[k..];
    }
  }

  // ---------- which bytes are lost ----------

  /** A backslash right before a brace. */
  predicate Dropped(q: bytes, k: nat)
    requires k < |q|
  {
    q[k] == BACKSLASH && k + 1 < |q| && IsBrace(q[k + 1])
  }

  /** The bytes of `q` from `lo` to `hi` that are not dropped. */
  function Kept(q: bytes, lo: nat, hi: nat): (r: bytes)
    requires lo <= hi <= |q|
    ensures |r| <= hi - lo
  {
    if lo == hi then [] else Kept(q, lo, hi - 1) + (if Dropped(q, hi - 1) then [] else [q[hi - 1]])
  }

  /** Unescaping keeps exactly the other bytes, in order. */
  lemma {:induction false} UnescapedIsKept(q: bytes)
    ensures Unescaped(q) == Kept(q, 0, |q|)
  {
    if q != [] {
      PrefixKept(q, |q|);
      assert q[..|q|] == q;
    }
  }

  /** The last byte of a prefix has nothing behind it yet. */
  lemma {:induction false} PrefixKept(q: bytes, n: nat)
    requires 0 < n <= |q|
    ensures Unescaped(q[..n]) == Kept(q, 0, n - 1) + [q[n - 1]]
  {
    var m := n - 1;
    if m == 0 {
      assert q[..1] == [q[0]] && q[..1][..0] == [];
    } else {
      assert q[..n][..m] == q[..m] && q[..n][..m - 1] == q[..m - 1];
      if m == 1 {
        assert q[..0] == [];
      } else {
        PrefixKept(q, m - 1);
      }
      PrefixKept(q, m);
    }
  }

  lemma {:induction false} KeptSplit(q: bytes, lo: nat, mid: nat, hi: nat)
    requires lo <= mid <= hi <= |q|
    ensures Kept(q, lo, hi) == Kept(q, lo, mid) + Kept(q, mid, hi)
    decreases hi
  {
    if mid < hi {
      KeptSplit(q, lo, mid, hi - 1);
    }
  }

  /** A brace right behind one of the bytes from `lo` to `hi`. */
  predicate BraceFollows(q: bytes, lo: nat, hi: nat) {
    exists j :: lo < j <= hi && j < |q| && IsBrace(q[j])
  }

  /** Of an accepted query a part loses bytes exactly if a brace stands behind one
      of them: the brace right behind the part counts, its own first byte does not. */
  lemma {:induction false} KeptWhole(q: bytes, lo: nat, hi: nat)
    requires Accepted(q) && lo <= hi <= |q|
    ensures Kept(q, lo, hi) == q[lo..hi] <==> !BraceFollows(q, lo, hi)
    ensures |Kept(q, lo, hi)| == hi - lo <==> !BraceFollows(q, lo, hi)
    decreases hi
  {
    if lo < hi {
      KeptWhole(q, lo, hi - 1);
      assert q[lo..hi] == q[lo..hi - 1] + [q[hi - 1]];
      if hi < |q| {
        assert !BareBrace(q, hi);
      }
      assert BraceFollows(q, lo, hi) <==> BraceFollows(q, lo, hi - 1) || (hi < |q| && IsBrace(q[hi]));
    }
  }

  // ---------- the loop ----------

  /** Where the parsing index steps back, what was emitted last is a backslash:
      the one the brace in the query follows. */
  lemma {:induction false} StepsBackOntoBackslash(q: bytes, i: nat)
    requires 0 < i < |q| && IsBrace(q[i]) && !BareBrace(q, i)
    ensures Unescaped(q[..i]) == Unescaped(q[..i - 1]) + [BACKSLASH]
    ensures Unescaped(q[..i + 1]) == Unescaped(q[..i - 1]) + [q[i]]
  {
    assert q[..i][..i - 1] == q[..i - 1] == q[..i + 1][..i - 1];
  }

  /** The parsing loop, with its index that steps back over a backslash.  The
      buffer is one byte longer than the source's (see `RoomForNul`). */
  method Parse(q: bytes) returns (r: Result<bytes>)
    ensures r.Success? <==> Accepted(q)
    ensures r.Success? ==> r.value == Unescaped(q)
    ensures r.Failure? ==> r.error == UnescapedBrace
  {
    var parsed := new byte[|q| + 1](_ => 0);
    var current := 0;
    for i := 0 to |q|
      invariant current == |Unescaped(q[..i])| <= i && parsed[..current] == Unescaped(q[..i])
      invariant forall k :: 0 <= k < i ==> !BareBrace(q, k)
    {
      assert q[..i + 1][..i] == q[..i];
      if IsBrace(q[i]) && i != 0 {
        if q[i - 1] != BACKSLASH {
          assert BareBrace(q, i);
          return Failure(UnescapedBrace);
        }
        StepsBackOntoBackslash(q, i);
        current := current - 1;
        parsed[current] := q[i];
        assert parsed[..current] == Unescaped(q[..i - 1]);
      } else {
        parsed[current] := q[i];
      }
      current := current + 1;
    }
    parsed[current] := 0;
    assert q[..|q|] == q;
    return Success(parsed[..current]);
  }
}
