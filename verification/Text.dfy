/** The two text conversions: bytes to UTF-8 (`hex2char`) and UTF-8 to bytes
    (`char2hex`), against UTF-8 as RFC 3629, section 3, defines it. */
module Text {
  import opened Bytes

  // ---------- UTF-8 ----------

  /** A Unicode scalar value: no surrogates. */
  ghost predicate IsScalar(c: nat) {
    c < 0x11_0000 && !(0xD800 <= c <= 0xDFFF)
  }

  ghost function Utf8(c: nat): bytes
    requires c < 0x11_0000
  {
    if c < 0x80 then [c]
    else if c < 0x800 then [0xC0 + c / 0x40, 0x80 + c % 0x40]
    else if c < 0x1_0000 then [0xE0 + c / 0x1000, 0x80 + c / 0x40 % 0x40, 0x80 + c % 0x40]
    else [0xF0 + c / 0x4_0000, 0x80 + c / 0x1000 % 0x40, 0x80 + c / 0x40 % 0x40, 0x80 + c % 0x40]
  }

  ghost predicate Scalars(cs: seq<nat>) {
    forall i :: 0 <= i < |cs| ==> IsScalar(cs[i])
  }

  ghost function Utf8All(cs: seq<nat>): bytes
    requires Scalars(cs)
  {
    if cs == [] then [] else Utf8(cs[0]) + Utf8All(cs[1..])
  }

  // ---------- bytes to UTF-8 ----------

  /** One byte as `hex2char` writes it: bytes above 0x7F take two. */
  function Widen(b: byte): bytes {
    if b <= 0x7F then [b] else [0xC0 + b / 0x40, 0x80 + b % 0x40]
  }

  function WidenAll(s: bytes): bytes {
    if s == [] then [] else WidenAll(s[..|s| - 1]) + Widen(s[|s| - 1])
  }

  function HighBytes(s: bytes): nat {
    if s == [] then 0 else HighBytes(s[..|s| - 1]) + (if s[|s| - 1] > 0x7F then 1 else 0)
  }

  lemma {:induction false} WidenSize(s: bytes)
    ensures |WidenAll(s)| == |s| + HighBytes(s) <= 2 * |s|
  {
    if s != [] {
      WidenSize(s[..|s| - 1]);
    }
  }

  /** `hex2char`.  The NUL goes to the last index used, which is inside the
      4|s| bytes the source allocates exactly when `s` is not empty; the buffer
      here has one byte more. */
  method HexToChar(s: bytes) returns (r: array<byte>, len: nat)
    ensures fresh(r) && r.Length == 4 * |s| + 1 && len == |s| + HighBytes(s) <= 4 * |s|
    ensures r[..len] == WidenAll(s) && r[len] == 0
    ensures len < 4 * |s| <==> s != []
  {
    r := new byte[4 * |s| + 1](_ => 0);
    var offset := 0;
    for a := 0 to |s|
      invariant a + offset == |WidenAll(s[..a])| <= 2 * a && r[..a + offset] == WidenAll(s[..a])
    {
      assert s[..a + 1][..a] == s[..a];
      if s[a] <= 0x7F {
        r[a + offset] := s[a];
      } else {
        r[a + offset] := s[a] / 0x40 + 0xC0;
        r[a + offset + 1] := s[a] % 0x40 + 0x80;
        offset := offset + 1;
      }
      assert r[..a + 1 + offset] == WidenAll(s[..a]) + Widen(s[a]);
    }
    assert s[..|s|] == s;
    WidenSize(s);
    len := |s| + offset;
    r[len] := 0;
  }

  // ---------- UTF-8 to bytes ----------

  /** The mask tests of the source, on whole bytes. */
  lemma {:induction false} MaskTests(u: bv8)
    ensures u & 0xF8 == 0xF0 <==> 0xF0 <= u <= 0xF7
    ensures u & 0xF0 == 0xE0 <==> 0xE0 <= u <= 0xEF
    ensures u & 0xE0 == 0xC0 <==> 0xC0 <= u <= 0xDF
    ensures u & 0xA0 == 0xA0 <==> 0xA0 <= u <= 0xBF || 0xE0 <= u
  {
  }

  /** How many bytes the sequence at `a` is taken to have. */
  function SeqLength(s: bytes, a: nat): (n: nat)
    requires a < |s|
    ensures 1 <= n && a + n <= |s|
  {
    if 0xF0 <= s[a] <= 0xF7 && a + 4 <= |s| then 4
    else if 0xE0 <= s[a] <= 0xEF && a + 3 <= |s| then 3
    else if 0xC0 <= s[a] <= 0xDF && a + 2 <= |s| then 2
    else 1
  }

  /** The surrogate test. */
  predicate Rejected(s: bytes, a: nat)
    requires a < |s|
  {
    SeqLength(s, a) == 3 && s[a] == 0xED && (0xA0 <= s[a + 1] <= 0xBF || 0xE0 <= s[a + 1])
  }

  /** The payload of a continuation byte; negative if it is not one. */
  function Tail(b: byte): int {
    b as int - 0x80
  }

  /** The number the source computes from the sequence at `a`. */
  function Code(s: bytes, a: nat): int
    requires a < |s|
  {
    var n := SeqLength(s, a);
    if n == 4 then
      (s[a] as int - 0xF0) * 0x4_0000 + Tail(s[a + 1]) * 0x1000 + Tail(s[a + 2]) * 0x40 + Tail(s[a + 3])
    else if n == 3 then (s[a] as int - 0xE0) * 0x1000 + Tail(s[a + 1]) * 0x40 + Tail(s[a + 2])
    else if n == 2 then (s[a] as int - 0xC0) * 0x40 + Tail(s[a + 1])
    else s[a]
  }

  /** The byte written for it: the number cut to eight bits. */
  function LowByte(s: bytes, a: nat): byte
    requires a < |s|
  {
    Code(s, a) % 256
  }

  /** What `char2hex` makes of the input from `a` on. */
  function Narrow(s: bytes, a: nat): Result<bytes>
    requires a <= |s|
    decreases |s| - a
  {
    if a == |s| then Success([])
    else if Rejected(s, a) then Failure(InvalidUtf8)
    else
      var rest :- Narrow(s, a + SeqLength(s, a));
      Success([LowByte(s, a)] + rest)
  }

  /** How many bytes are written, whether or not the input is rejected. */
  function Written(s: bytes, a: nat): (n: nat)
    requires a <= |s|
    ensures n <= |s| - a
    decreases |s| - a
  {
    if a == |s| || Rejected(s, a) then 0 else 1 + Written(s, a + SeqLength(s, a))
  }

  lemma {:induction false} RejectedError(s: bytes, a: nat)
    requires a <= |s| && Narrow(s, a).Failure?
    ensures Narrow(s, a).error == InvalidUtf8
    decreases |s| - a
  {
    if !Rejected(s, a) {
      RejectedError(s, a + SeqLength(s, a));
    }
  }

  lemma {:induction false} WrittenSize(s: bytes, a: nat)
    requires a <= |s| && Narrow(s, a).Success?
    ensures |Narrow(s, a).value| == Written(s, a)
    decreases |s| - a
  {
    if a < |s| {
      WrittenSize(s, a + SeqLength(s, a));
    }
  }

  ghost predicate Continues(s: bytes, done: bytes, a: nat)
    requires a <= |s|
  {
    && |done| + Written(s, a) == Written(s, 0)
    && Narrow(s, 0) == if Narrow(s, a).Success? then Success(done + Narrow(s, a).value) else Narrow(s, a)
  }

  lemma {:induction false} ContinuesStep(s: bytes, done: bytes, a: nat)
    requires a < |s| && Continues(s, done, a) && !Rejected(s, a)
    ensures Continues(s, done + [LowByte(s, a)], a + SeqLength(s, a))
  {
    var rest := Narrow(s, a + SeqLength(s, a));
    if rest.Success? {
      assert done + ([LowByte(s, a)] + rest.value) == done + [LowByte(s, a)] + rest.value;
    }
  }

  /** `char2hex` would write past a buffer of `room` bytes; the NUL is written
      only if nothing is rejected. */
  predicate Overruns(s: bytes, room: nat) {
    Written(s, 0) > room || (Written(s, 0) == room && Narrow(s, 0).Success?)
  }

  /** `char2hex` into a buffer of `room` bytes, which the caller must make large
      enough. */
  method CharToHex(s: bytes, room: nat) returns (r: Result<array<byte>>, len: nat)
    requires !Overruns(s, room)
    ensures r.Success? <==> Narrow(s, 0).Success?
    ensures r.Failure? ==> Narrow(s, 0) == Failure(InvalidUtf8) && r.error == InvalidUtf8
    ensures r.Success? ==> fresh(r.value) && r.value.Length == room && len == Written(s, 0) <= |s|
    ensures r.Success? ==> r.value[..len] == Narrow(s, 0).value && r.value[len] == 0
  {
    var result := new byte[room](_ => 0);
    var a := 0;
    len := 0;
    assert Narrow(s, 0).Success? ==> [] + Narrow(s, 0).value == Narrow(s, 0).value;
    while a < |s|
      invariant a <= |s| && len <= room && Continues(s, result[..len], a)
      decreases |s| - a
    {
      if Rejected(s, a) {
        return Failure(InvalidUtf8), len;
      }
      ContinuesStep(s, result[..len], a);
      ghost var done := result[..len] + [LowByte(s, a)];
      result[len] := LowByte(s, a);
      len := len + 1;
      assert result[..len] == done;
      a := a + SeqLength(s, a);
    }
    assert result[..len] + [] == result[..len];
    result[len] := 0;
    return Success(result), len;
  }

  // ---------- meaning ----------

  lemma {:induction false} DropMultiple(n: int, k: int)
    ensures (n + 256 * k) % 256 == n % 256
  {
  }

  /** The low byte of the last two groups; higher ones do not reach it. */
  lemma {:induction false} LastTwo(x: int, y: byte, z: byte, base: int)
    requires base % 4 == 0
    ensures (x * 0x1000 + (y as int - base) * 0x40 + Tail(z)) % 256 == (y as int % 4 * 64 + z as int + 128) % 256
  {
    var n := y as int % 4 * 64 + z as int + 128;
    var k := x * 16 + y as int / 4 - base / 4 - 1;
    assert x * 0x1000 + (y as int - base) * 0x40 + Tail(z) == n + 256 * k;
    DropMultiple(n, k);
  }

  /** What is read at `a` and written for it, whatever the bytes are: leads with the
      bytes they announce take those, all other bytes are copied. */
  lemma {:induction false} StepTable(s: bytes, a: nat)
    requires a < |s|
    ensures var u, left := s[a], |s| - a;
            if 0xF0 <= u < 0xF8 && left >= 4 then
              && SeqLength(s, a) == 4 && !Rejected(s, a)
              && LowByte(s, a) == (s[a + 2] as int % 4 * 64 + s[a + 3] as int + 128) % 256
            else if 0xE0 <= u < 0xF0 && left >= 3 then
              && SeqLength(s, a) == 3 && LowByte(s, a) == (s[a + 1] as int % 4 * 64 + s[a + 2] as int + 128) % 256
              && (Rejected(s, a) <==> u == 0xED && (0xA0 <= s[a + 1] < 0xC0 || 0xE0 <= s[a + 1]))
            else if 0xC0 <= u < 0xE0 && left >= 2 then
              && SeqLength(s, a) == 2 && !Rejected(s, a)
              && LowByte(s, a) == (u as int % 4 * 64 + s[a + 1] as int + 128) % 256
            else SeqLength(s, a) == 1 && !Rejected(s, a) && LowByte(s, a) == u
  {
    var u := s[a] as int;
    var n := SeqLength(s, a);
    if n == 4 {
      LastTwo((u - 0xF0) * 0x40 + Tail(s[a + 1]), s[a + 2], s[a + 3], 0x80);
    } else if n == 3 {
      LastTwo(u - 0xE0, s[a + 1], s[a + 2], 0x80);
    } else if n == 2 {
      LastTwo(0, s[a], s[a + 1], 0xC0);
    }
  }

  /** U+0041, U+00E9, U+20AC and U+1F600, as RFC 3629 has them. */
  lemma {:induction false} Utf8Examples()
    ensures Utf8(0x41) == [0x41] && Utf8(0xE9) == [0xC3, 0xA9] && Utf8(0x20AC) == [0xE2, 0x82, 0xAC]
    ensures Utf8(0x1F600) == [0xF0, 0x9F, 0x98, 0x80]
  {
  }

  /** The low byte of each code point. */
  ghost function LowBytes(cs: seq<nat>): bytes {
    seq(|cs|, i requires 0 <= i < |cs| => cs[i] % 256)
  }

  lemma {:induction false} TwoByteStep(s: bytes, a: nat, c: nat)
    requires 0x80 <= c < 0x800 && a + 2 <= |s| && s[a] == 0xC0 + c / 0x40 && s[a + 1] == 0x80 + c % 0x40
    ensures SeqLength(s, a) == 2 && Code(s, a) == c
  {
  }

  lemma {:induction false} ThreeByteStep(s: bytes, a: nat, c: nat)
    requires 0x800 <= c < 0x1_0000 && IsScalar(c) && a + 3 <= |s| && s[a] == 0xE0 + c / 0x1000
    requires s[a + 1] == 0x80 + c / 0x40 % 0x40 && s[a + 2] == 0x80 + c % 0x40
    ensures SeqLength(s, a) == 3 && !Rejected(s, a) && Code(s, a) == c
  {
    assert c == c / 0x1000 * 0x1000 + c / 0x40 % 0x40 * 0x40 + c % 0x40;
  }

  lemma {:induction false} FourByteStep(s: bytes, a: nat, h: nat, x: nat, y: nat, z: nat)
    requires h < 8 && x < 0x40 && y < 0x40 && z < 0x40 && a + 4 <= |s|
    requires s[a] == 0xF0 + h && s[a + 1] == 0x80 + x && s[a + 2] == 0x80 + y && s[a + 3] == 0x80 + z
    ensures SeqLength(s, a) == 4 && Code(s, a) == h * 0x4_0000 + x * 0x1000 + y * 0x40 + z
  {
  }

  lemma {:induction false} SixBitGroups(c: nat)
    ensures c == c / 0x4_0000 * 0x4_0000 + c / 0x1000 % 0x40 * 0x1000 + c / 0x40 % 0x40 * 0x40 + c % 0x40
  {
    assert c / 0x1000 == c / 0x40 / 0x40 && c / 0x4_0000 == c / 0x1000 / 0x40;
  }

  lemma {:induction false} AtIndex(s: bytes, a: nat, b: bytes, i: nat)
    requires At(s, a, b) && i < |b|
    ensures s[a + i] == b[i]
  {
    SubIsSlice(s, a, |b|);
  }

  /** Memory `s` holds the UTF-8 form of `c` at `a`: one step reads it whole. */
  lemma {:induction false} OneStep(s: bytes, a: nat, c: nat)
    requires IsScalar(c) && At(s, a, Utf8(c))
    ensures SeqLength(s, a) == |Utf8(c)| && !Rejected(s, a) && Code(s, a) == c
  {
    AtIndex(s, a, Utf8(c), 0);
    if c < 0x80 {
    } else if c < 0x800 {
      AtIndex(s, a, Utf8(c), 1);
      TwoByteStep(s, a, c);
    } else if c < 0x1_0000 {
      AtIndex(s, a, Utf8(c), 1);
      AtIndex(s, a, Utf8(c), 2);
      ThreeByteStep(s, a, c);
    } else {
      AtIndex(s, a, Utf8(c), 1);
      AtIndex(s, a, Utf8(c), 2);
      AtIndex(s, a, Utf8(c), 3);
      SixBitGroups(c);
      FourByteStep(s, a, c / 0x4_0000, c / 0x1000 % 0x40, c / 0x40 % 0x40, c % 0x40);
    }
  }

  lemma {:induction false} LowBytesCons(cs: seq<nat>)
    requires cs != []
    ensures LowBytes(cs) == [cs[0] % 256] + LowBytes(cs[1..])
  {
  }

  lemma {:induction false} FirstLayout(cs: seq<nat>, s: bytes, a: nat) returns (n: nat)
    requires cs != [] && Scalars(cs) && At(s, a, Utf8All(cs))
    ensures n == |Utf8(cs[0])| != 0 && At(s, a, Utf8(cs[0]))
    ensures At(s, a + n, Utf8All(cs[1..])) && |Utf8All(cs)| == n + |Utf8All(cs[1..])|
  {
    n := |Utf8(cs[0])|;
    AtConcat(s, a, Utf8(cs[0]), Utf8All(cs[1..]));
  }

  lemma {:induction false} FirstCode(cs: seq<nat>, s: bytes, a: nat) returns (n: nat)
    requires cs != [] && Scalars(cs) && At(s, a, Utf8All(cs))
    ensures a < |s| && n == SeqLength(s, a) && !Rejected(s, a) && Code(s, a) == cs[0]
    ensures At(s, a + n, Utf8All(cs[1..])) && |Utf8All(cs)| == n + |Utf8All(cs[1..])|
  {
    n := FirstLayout(cs, s, a);
    OneStep(s, a, cs[0]);
  }

  /** Well-formed UTF-8 is never rejected, and gives the low byte of each code
      point in order. */
  lemma {:induction false} NarrowMeaning(cs: seq<nat>, s: bytes, a: nat)
    requires Scalars(cs) && At(s, a, Utf8All(cs)) && a + |Utf8All(cs)| == |s|
    ensures Narrow(s, a) == Success(LowBytes(cs)) && Written(s, a) == |cs|
    decreases |cs|
  {
    if cs != [] {
      var n := FirstCode(cs, s, a);
      NarrowMeaning(cs[1..], s, a + n);
      LowBytesCons(cs);
    } else {
      assert LowBytes(cs) == [];
    }
  }

  lemma {:induction false} WholeText(cs: seq<nat>)
    requires Scalars(cs)
    ensures Narrow(Utf8All(cs), 0) == Success(LowBytes(cs)) && Written(Utf8All(cs), 0) == |cs|
  {
    var s := Utf8All(cs);
    SubIsSlice(s, 0, |s|);
    assert s[0..|s|] == s;
    NarrowMeaning(cs, s, 0);
  }

  /** Among three-byte sequences that are well-formed but for surrogates, the
      test rejects exactly those of U+D800 to U+DFFF. */
  lemma {:induction false} RejectsSurrogates(s: bytes, a: nat)
    requires a + 3 <= |s| && 0xE0 <= s[a] <= 0xEF && 0x80 <= s[a + 1] <= 0xBF && 0x80 <= s[a + 2] <= 0xBF
    ensures Rejected(s, a) <==> 0xD800 <= Code(s, a) <= 0xDFFF
  {
  }

  /** `hex2char` writes the UTF-8 form of the bytes taken as code points. */
  lemma {:induction false} WidenIsUtf8(s: bytes)
    ensures Scalars(s) && WidenAll(s) == Utf8All(s)
  {
    if s != [] {
      var n := |s| - 1;
      WidenIsUtf8(s[..n]);
      Utf8Snoc(s[..n], s[n]);
      assert s == s[..n] + [s[n]];
    }
  }

  lemma {:induction false} Utf8Snoc(cs: seq<nat>, c: nat)
    requires Scalars(cs) && IsScalar(c)
    ensures Scalars(cs + [c]) && Utf8All(cs + [c]) == Utf8All(cs) + Utf8(c)
    decreases |cs|
  {
    if cs == [] {
      assert [c][1..] == [];
    } else {
      Utf8Snoc(cs[1..], c);
      assert (cs + [c])[1..] == cs[1..] + [c];
      Assoc(Utf8(cs[0]), Utf8All(cs[1..]), Utf8(c));
    }
  }

  lemma {:induction false} LowBytesOfBytes(b: bytes)
    ensures LowBytes(b) == b
  {
  }

  /** Any bytes survive the trip through text. */
  lemma {:induction false} TextRoundTrip(b: bytes)
    ensures Narrow(WidenAll(b), 0) == Success(b) && |WidenAll(b)| == |b| + HighBytes(b)
  {
    WidenIsUtf8(b);
    WidenSize(b);
    LowBytesOfBytes(b);
    WholeText(b);
  }

  /** Text survives the trip through bytes exactly when all its code points are
      at most U+00FF. */
  lemma {:induction false} LatinOnly(cs: seq<nat>)
    requires Scalars(cs)
    ensures Narrow(Utf8All(cs), 0).Success?
    ensures WidenAll(Narrow(Utf8All(cs), 0).value) == Utf8All(cs) <==> forall i :: 0 <= i < |cs| ==> cs[i] <= 0xFF
  {
    WholeText(cs);
    WidenIsUtf8(LowBytes(cs));
    LowBytesSame(cs);
  }

  lemma {:induction false} HeadDiffers(cs: seq<nat>)
    requires cs != [] && cs[0] > 0xFF && Scalars(cs) && Scalars(LowBytes(cs))
    ensures Utf8All(LowBytes(cs)) != Utf8All(cs)
  {
    FirstByteDiffers(cs[0]);
    FirstByte(cs);
    FirstByte(LowBytes(cs));
  }

  lemma {:induction false} SameAfterFirst(cs: seq<nat>)
    requires cs != [] && cs[0] <= 0xFF && Scalars(cs) && Scalars(LowBytes(cs))
    ensures Scalars(cs[1..]) && Scalars(LowBytes(cs[1..]))
    ensures Utf8All(LowBytes(cs)) == Utf8All(cs) <==> Utf8All(LowBytes(cs[1..])) == Utf8All(cs[1..])
  {
    var rest := cs[1..];
    var lows := LowBytes(rest);
    LowBytesCons(cs);
    assert LowBytes(cs)[1..] == lows && LowBytes(cs)[0] == cs[0];
    SamePrefix(Utf8(cs[0]), Utf8All(lows), Utf8All(rest));
  }

  lemma {:induction false} LowBytesSame(cs: seq<nat>)
    requires Scalars(cs) && Scalars(LowBytes(cs))
    ensures Utf8All(LowBytes(cs)) == Utf8All(cs) <==> forall i :: 0 <= i < |cs| ==> cs[i] <= 0xFF
    decreases |cs|
  {
    if cs == [] {
      assert LowBytes(cs) == [];
    } else if cs[0] <= 0xFF {
      AllSplit(cs, 0xFF);
      SameAfterFirst(cs);
      LowBytesSame(cs[1..]);
    } else {
      HeadDiffers(cs);
    }
  }

  lemma {:induction false} AllSplit(cs: seq<nat>, limit: nat)
    requires cs != []
    ensures (forall i :: 0 <= i < |cs| ==> cs[i] <= limit)
       <==> cs[0] <= limit && forall i :: 0 <= i < |cs[1..]| ==> cs[1..][i] <= limit
  {
    if cs[0] <= limit && forall i :: 0 <= i < |cs[1..]| ==> cs[1..][i] <= limit {
      assert forall i :: 0 < i < |cs| ==> cs[i] == cs[1..][i - 1];
    }
  }

  lemma {:induction false} SamePrefix(a: bytes, b: bytes, c: bytes)
    ensures a + b == a + c <==> b == c
  {
    assert (a + b)[|a|..] == b && (a + c)[|a|..] == c;
  }

  lemma {:induction false} FirstByte(cs: seq<nat>)
    requires cs != [] && Scalars(cs)
    ensures Utf8All(cs) != [] && Utf8All(cs)[0] == Utf8(cs[0])[0]
  {
  }

  lemma {:induction false} FirstByteDiffers(c: nat)
    requires 0xFF < c && IsScalar(c)
    ensures Utf8(c % 256)[0] != Utf8(c)[0]
  {
  }

  /** UTF-16 code units, the count MATLAB keeps for a char array. */
  ghost function Utf16Length(cs: seq<nat>): nat {
    if cs == [] then 0 else (if cs[0] < 0x1_0000 then 1 else 2) + Utf16Length(cs[1..])
  }

  lemma {:induction false} UntilSkip(a: bytes, b: bytes)
    requires 0 !in a
    ensures Until(a + b, 0) == a + Until(b, 0)
  {
    if a == [] {
      assert a + b == b;
    } else {
      assert (a + b)[1..] == a[1..] + b;
      UntilSkip(a[1..], b);
    }
  }

  /** `strlen` cuts the UTF-8 text at the first NUL character. */
  lemma {:induction false} UntilUtf8(cs: seq<nat>)
    requires Scalars(cs)
    ensures Scalars(Until(cs, 0)) && Until(Utf8All(cs), 0) == Utf8All(Until(cs, 0))
  {
    if cs != [] {
      UntilUtf8(cs[1..]);
      if cs[0] != 0 {
        UntilSkip(Utf8(cs[0]), Utf8All(cs[1..]));
        assert Until(cs, 0)[1..] == Until(cs[1..], 0);
      }
    }
  }

  lemma {:induction false} UntilMeaning(cs: seq<nat>)
    ensures var k := |Until(cs, 0)|;
            Until(cs, 0) == cs[..k] && (forall i :: 0 <= i < k ==> cs[i] != 0) && (k < |cs| ==> cs[k] == 0)
  {
    if cs != [] && cs[0] != 0 {
      UntilMeaning(cs[1..]);
      var k := |Until(cs[1..], 0)|;
      assert forall i :: 0 < i <= k ==> cs[i] == cs[1..][i - 1];
    }
  }

  lemma {:induction false} CutText(cs: seq<nat>)
    requires Scalars(cs)
    ensures Narrow(Until(Utf8All(cs), 0), 0) == Success(LowBytes(Until(cs, 0)))
    ensures Written(Until(Utf8All(cs), 0), 0) == |Until(cs, 0)|
  {
    UntilUtf8(cs);
    WholeText(Until(cs, 0));
  }

  /** The caller cuts the text at its first NUL, gives `char2hex` one byte per
      UTF-16 unit and one for a NUL, and reports one byte per unit.  The buffer is
      always large enough; the count is the number of bytes written exactly when
      no code point is 0 or above U+FFFF. */
  lemma {:induction false} CallerBuffer(cs: seq<nat>)
    requires Scalars(cs)
    ensures Written(Until(Utf8All(cs), 0), 0) < Utf16Length(cs) + 1
    ensures Written(Until(Utf8All(cs), 0), 0) == Utf16Length(cs) <==> forall i :: 0 <= i < |cs| ==> 0 < cs[i] <= 0xFFFF
  {
    CutText(cs);
    UnitsCount(cs);
    UntilMeaning(cs);
  }

  lemma {:induction false} UnitsCount(cs: seq<nat>)
    ensures |cs| <= Utf16Length(cs)
    ensures |cs| == Utf16Length(cs) <==> forall i :: 0 <= i < |cs| ==> cs[i] <= 0xFFFF
  {
    if cs != [] {
      UnitsCount(cs[1..]);
      AllSplit(cs, 0xFFFF);
    }
  }
}
