/** Which statement a MySQL command sends, with the flag, the two keywords and the
    braces spelled out. */
module Statements {
  import opened Bytes
  import opened MatlabValue
  import opened Placeholders
  import opened QueryRebuild
  import opened Arguments
  import opened QueryCommand
  import opened BraceUnescape
  import Text

  // ---------- the flag ----------

  /** b i g i n t _ t o _ d o u b l e */
  const BIGINT: seq<nat> := [98, 105, 103, 105, 110, 116, 95, 116, 111, 95, 100, 111, 117, 98, 108, 101]

  /** A lower-case letter or underscore, or the letter in upper case. */
  predicate EitherCase(c: nat, letter: nat) {
    c == letter || (97 <= letter <= 122 && c == letter - 32)
  }

  /** Two bytes per character, low byte first: the 16 characters, then nothing more
      or a NUL. */
  predicate SpellsBigint(re: bytes) {
    && |re| / 2 >= 16
    && (forall i :: 0 <= i < 16 ==> re[2 * i + 1] == 0 && EitherCase(re[2 * i], BIGINT[i]))
    && (|re| / 2 > 16 ==> re[32] == 0 && re[33] == 0)
  }

  lemma {:induction false} LowerIsEither(c: nat, i: nat)
    requires i < 16
    ensures LowerUnit(c) == BIGINT[i] <==> EitherCase(c, BIGINT[i])
    ensures EitherCase(c, BIGINT[i]) ==> 0 < c < 256
  {
  }

  lemma {:induction false} UntilStops(cs: seq<nat>, n: nat)
    requires n <= |cs| && forall i :: 0 <= i < n ==> cs[i] != 0
    ensures |Until(cs, 0)| >= n && Until(cs, 0)[..n] == cs[..n]
    ensures |Until(cs, 0)| == n <==> n == |cs| || cs[n] == 0
  {
    if n != 0 {
      UntilStops(cs[1..], n - 1);
      assert cs == [cs[0]] + cs[1..];
      var u := Until(cs[1..], 0);
      assert Until(cs, 0) == [cs[0]] + u;
      assert Until(cs, 0)[..n] == [cs[0]] + u[..n - 1];
    }
  }

  predicate UnitsSpell(cs: seq<nat>) {
    |cs| >= 16 && (forall i :: 0 <= i < 16 ==> EitherCase(cs[i], BIGINT[i])) && (|cs| > 16 ==> cs[16] == 0)
  }

  /** The characters before the first NUL are the flag, in any letter case. */
  lemma {:induction false} SpellsIff(cs: seq<nat>)
    ensures LowerAll(Until(cs, 0)) == BIGINT <==> UnitsSpell(cs)
  {
    var u := Until(cs, 0);
    Text.UntilMeaning(cs);
    if UnitsSpell(cs) {
      forall i | 0 <= i < 16
        ensures cs[i] != 0 && LowerUnit(cs[i]) == BIGINT[i]
      {
        LowerIsEither(cs[i], i);
      }
      UntilStops(cs, 16);
    }
    if LowerAll(u) == BIGINT {
      forall i | 0 <= i < 16
        ensures EitherCase(cs[i], BIGINT[i])
      {
        assert LowerAll(u)[i] == LowerUnit(cs[i]);
        LowerIsEither(cs[i], i);
      }
    }
  }

  lemma {:induction false} UnitOfBytes(re: bytes, i: nat, letter: nat)
    requires i < |re| / 2 && 95 <= letter <= 122
    ensures EitherCase(CodeUnits(re)[i], letter) <==> re[2 * i + 1] == 0 && EitherCase(re[2 * i], letter)
    ensures CodeUnits(re)[i] == 0 <==> re[2 * i] == 0 && re[2 * i + 1] == 0
  {
  }

  lemma {:induction false} BytesSpell(re: bytes)
    ensures UnitsSpell(CodeUnits(re)) <==> SpellsBigint(re)
  {
    var cs := CodeUnits(re);
    if |cs| > 16 {
      UnitOfBytes(re, 16, 95);
    }
    if UnitsSpell(cs) {
      forall i | 0 <= i < 16
        ensures re[2 * i + 1] == 0 && EitherCase(re[2 * i], BIGINT[i])
      {
        UnitOfBytes(re, i, BIGINT[i]);
      }
    }
    if SpellsBigint(re) {
      forall i | 0 <= i < 16
        ensures EitherCase(cs[i], BIGINT[i])
      {
        UnitOfBytes(re, i, BIGINT[i]);
      }
    }
  }

  lemma {:induction false} FlagIff(v: Value)
    ensures IsFlag(v) <==> v.Arr? && v.classId == 4 && SpellsBigint(v.re)
  {
    if v.Arr? {
      SpellsIff(CodeUnits(v.re));
      BytesSpell(v.re);
      assert FLAG == BIGINT;
    }
  }

  /** Big integers are asked for as doubles if and only if the last argument is the
      flag. */
  lemma {:induction false} BigintIff(env: Env, esc: Escaper, t: bytes, args: seq<Value>)
    requires Command(env, esc, t, args).Success?
    ensures Command(env, esc, t, args).value.bigintToDouble <==>
              && args != [] && args[|args| - 1].Arr? && args[|args| - 1].classId == 4
              && SpellsBigint(args[|args| - 1].re)
  {
    if args != [] {
      var spans := Scan(t, 0, |args|).value;
      ScanFits(t, |args|, spans);
      MatchMeaning(|spans|, args);
      FlagIff(args[|args| - 1]);
    }
  }

  // ---------- braces ----------

  predicate Brace(c: byte) {
    c == 123 || c == 125
  }

  /** Every brace but a first character is right behind a backslash. */
  ghost predicate AllEscaped(q: bytes) {
    forall i :: 0 < i < |q| && Brace(q[i]) ==> q[i - 1] == 92
  }

  /** `r` is `q` without the backslashes that are right before a brace. */
  ghost function WithoutEscapes(q: bytes, n: nat): bytes
    requires n <= |q|
  {
    if n == 0 then []
    else WithoutEscapes(q, n - 1) + if q[n - 1] == 92 && n < |q| && Brace(q[n]) then [] else [q[n - 1]]
  }

  lemma {:induction false} WithoutIsKept(q: bytes, n: nat)
    requires n <= |q|
    ensures WithoutEscapes(q, n) == Kept(q, 0, n)
  {
    if n != 0 {
      WithoutIsKept(q, n - 1);
    }
  }

  lemma {:induction false} AcceptedIff(q: bytes)
    ensures Accepted(q) <==> AllEscaped(q)
    ensures Unescaped(q) == WithoutEscapes(q, |q|)
  {
    UnescapedIsKept(q);
    WithoutIsKept(q, |q|);
    if Accepted(q) {
      forall i | 0 < i < |q| && Brace(q[i])
        ensures q[i - 1] == 92
      {
        assert !BareBrace(q, i);
      }
    }
    if AllEscaped(q) {
      forall i | 0 <= i < |q|
        ensures !BareBrace(q, i)
      {
      }
    }
  }

  // ---------- the statement ----------

  /** An upper-case letter, or the letter in lower case. */
  predicate Letter(c: byte, upper: byte) {
    c == upper || c as int == upper + 32
  }

  /** C R E A T E */
  predicate StartsCreate(q: bytes) {
    && |q| >= 6 && Letter(q[0], 67) && Letter(q[1], 82) && Letter(q[2], 69) && Letter(q[3], 65) && Letter(q[4], 84)
    && Letter(q[5], 69)
  }

  /** A L T E R */
  predicate StartsAlter(q: bytes) {
    |q| >= 5 && Letter(q[0], 65) && Letter(q[1], 76) && Letter(q[2], 84) && Letter(q[3], 69) && Letter(q[4], 82)
  }

  lemma {:induction false} LowerLetter(c: byte, upper: byte)
    requires 65 <= upper <= 90
    ensures Lower(c) == Lower(upper) <==> Letter(c, upper)
  {
  }

  lemma {:induction false} CreateIff(q: bytes)
    ensures StartsWith(q, CREATE) <==> StartsCreate(q)
  {
    assert CREATE == [67, 82, 69, 65, 84, 69];
    if |q| >= 6 {
      var word: bytes := [67, 82, 69, 65, 84, 69];
      forall i | 0 <= i < 6
        ensures Lower(q[i]) == Lower(word[i]) <==> Letter(q[i], word[i])
      {
        LowerLetter(q[i], word[i]);
      }
    }
  }

  lemma {:induction false} AlterIff(q: bytes)
    ensures StartsWith(q, ALTER) <==> StartsAlter(q)
  {
    assert ALTER == [65, 76, 84, 69, 82];
    if |q| >= 5 {
      var word: bytes := [65, 76, 84, 69, 82];
      forall i | 0 <= i < 5
        ensures Lower(q[i]) == Lower(word[i]) <==> Letter(q[i], word[i])
      {
        LowerLetter(q[i], word[i]);
      }
    }
  }

  /** Blank, or tab to carriage return. */
  predicate Space(c: byte) {
    c == 32 || c == 9 || c == 10 || c == 11 || c == 12 || c == 13
  }

  /** What becomes of a query, filled or without arguments: with leading white space
      it is lost; CREATE and ALTER, in any letter case, have their braces unescaped,
      or are refused; any other query is sent as it is. */
  lemma {:induction false} FinishedIff(q: bytes)
    ensures q != [] && Space(q[0]) ==> Finished(q) == Failure(OutOfBuffer)
    ensures (q == [] || !Space(q[0])) && (StartsCreate(q) || StartsAlter(q)) ==>
              Finished(q) == if AllEscaped(q) then Success(WithoutEscapes(q, |q|)) else Failure(UnescapedBrace)
    ensures (q == [] || !Space(q[0])) && !StartsCreate(q) && !StartsAlter(q) ==> Finished(q) == Success(q)
  {
    CreateIff(q);
    AlterIff(q);
    AcceptedIff(q);
  }

  lemma {:induction false} CommandFinishes(env: Env, esc: Escaper, t: bytes, args: seq<Value>)
    ensures args == [] ==> Filled(env, esc, t, args) == Success((t, 0))
    ensures Filled(env, esc, t, args).Failure? ==>
              Command(env, esc, t, args) == Failure(Filled(env, esc, t, args).error)
    ensures Filled(env, esc, t, args).Success? && Finished(Filled(env, esc, t, args).value.0).Failure? ==>
              Command(env, esc, t, args) == Failure(Finished(Filled(env, esc, t, args).value.0).error)
    ensures Filled(env, esc, t, args).Success? && Finished(Filled(env, esc, t, args).value.0).Success? ==>
              && Command(env, esc, t, args).Success?
              && Command(env, esc, t, args).value.text == Finished(Filled(env, esc, t, args).value.0).value
  {
  }

  /** Why a text is not filled: a placeholder is not closed, there are arguments left
      that are no flags, or an argument is refused. */
  lemma {:induction false} FillErrors(env: Env, esc: Escaper, t: bytes, args: seq<Value>)
    requires args != []
    ensures Scan(t, 0, |args|).Failure? ==> Filled(env, esc, t, args) == Failure(UnclosedPlaceholder)
    ensures Scan(t, 0, |args|).Success? ==>
              var spans := Scan(t, 0, |args|).value;
              && |spans| <= |args|
              && ((exists j :: |spans| <= j < |args| && !IsFlag(args[j])) ==>
                    Filled(env, esc, t, args) == Failure(PlaceholderCount))
              && ((forall j :: |spans| <= j < |args| ==> IsFlag(args[j])) && ItemsOf(env, t, spans, args).Failure? ==>
                    Filled(env, esc, t, args) == Failure(ItemsOf(env, t, spans, args).error))
  {
    if Scan(t, 0, |args|).Failure? {
      ScanError(t, 0, |args|);
    } else {
      var spans := Scan(t, 0, |args|).value;
      ScanFits(t, |args|, spans);
      MatchMeaning(|spans|, args);
    }
  }

  // ---------- the text between ----------

  ghost predicate Unchanged(esc: Escaper, t: bytes, s: Span, d: bytes) {
    s.open <= s.close < |t| && Escape(esc, d) == t[s.open..s.close + 1]
  }

  ghost predicate AllUnchanged(esc: Escaper, t: bytes, spans: seq<Span>, ds: seq<bytes>)
    requires |spans| == |ds|
  {
    forall k :: 0 <= k < |spans| ==> Unchanged(esc, t, spans[k], ds[k])
  }

  lemma {:induction false} InThree(t: bytes, from: nat, o: nat, c: nat, e: bytes, tail: bytes)
    requires from <= o <= c <= |t| && e == t[o..c] && tail == t[c..]
    ensures t[from..o] + e + tail == t[from..]
  {
  }

  lemma {:induction false} OneKept(esc: Escaper, t: bytes, spans: seq<Span>, ds: seq<bytes>, i: nat, from: nat, c: nat)
    requires |spans| == |ds| && i < |spans| && InText(t, spans) && Unchanged(esc, t, spans[i], ds[i])
    requires from == Resume(spans, 0, i) <= |t| && c == spans[i].close + 1
    requires Rebuilt(esc, t, spans, ds, i + 1) == t[c..]
    ensures Rebuilt(esc, t, spans, ds, i) == t[from..]
  {
    ResumeInText(t, spans, i);
    InThree(t, from, spans[i].open, c, Escape(esc, ds[i]), t[c..]);
  }

  /** If every datum escapes to just what its placeholder looked like, the query is
      the one given: nothing of the text around them is lost, moved or added. */
  lemma {:induction false} TextKept(esc: Escaper, t: bytes, spans: seq<Span>, ds: seq<bytes>, i: nat)
    requires |spans| == |ds| && i <= |spans| && InText(t, spans) && AllUnchanged(esc, t, spans, ds)
    ensures Resume(spans, 0, i) <= |t| && Rebuilt(esc, t, spans, ds, i) == t[Resume(spans, 0, i)..]
    decreases |spans| - i
  {
    ResumeInText(t, spans, i);
    if i < |spans| {
      TextKept(esc, t, spans, ds, i + 1);
      OneKept(esc, t, spans, ds, i, Resume(spans, 0, i), spans[i].close + 1);
    }
  }

  lemma {:induction false} WholeTextKept(esc: Escaper, t: bytes, spans: seq<Span>, ds: seq<bytes>)
    requires |spans| == |ds| && InText(t, spans) && AllUnchanged(esc, t, spans, ds)
    ensures Rebuilt(esc, t, spans, ds, 0) == t
  {
    TextKept(esc, t, spans, ds, 0);
  }
}
