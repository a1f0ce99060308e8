/** Bytes, C-style buffers and little-endian integers of a fixed width. */
module Bytes {
  type byte = x: int | 0 <= x < 256
  type bytes = seq<byte>

  datatype Option<+T> = None | Some(value: T)

  /** Everything that stops a call: a `mexErrMsg*` exit, a read or write outside
      the memory the source owns, or a result with bytes that were never written
      (both undefined in C). */
  datatype Error =
    | OutOfBuffer
    | Unwritten
    | SizeLimit
    | BadArray
    | UnknownTag
    | UnsupportedType
    | ShortAllocation
    | CompressionFailed
    | DataJointPython
    | UnclosedPlaceholder
    | PlaceholderCount
    | BadPlaceholder
    | UnescapedBrace
    | InvalidUtf8
    | NoFile

  datatype Result<+T> = Success(value: T) | Failure(error: Error) {
    predicate IsFailure() {
      Failure?
    }

    function PropagateFailure<U>(): Result<U>
      requires Failure?
    {
      Failure(error)
    }

    function Extract(): T
      requires Success?
    {
      value
    }
  }

  /** 256 to the power `n`: the number of values `n` bytes can hold. */
  function Pow256(n: nat): (r: nat)
    ensures 0 < r
  {
    if n == 0 then 1 else 256 * Pow256(n - 1)
  }

  const TWO_32: nat := 0x1_0000_0000

  lemma {:induction false} Pow256Values()
    ensures Pow256(4) == TWO_32 && Pow256(8) == TWO_32 * TWO_32
  {
    assert Pow256(4) == 256 * (256 * (256 * (256 * Pow256(0))));
    assert Pow256(8) == 256 * (256 * (256 * (256 * Pow256(4))));
  }

  /** Byte `i` of `n`, counting from the least significant. */
  function Digit(n: nat, i: nat): byte {
    if i == 0 then n % 256 else Digit(n / 256, i - 1)
  }

  /** The low `w` bytes of `n`, least significant byte first. */
  function LE(n: nat, w: nat): (s: bytes)
    ensures |s| == w
  {
    seq(w, i requires 0 <= i => Digit(n, i))
  }

  lemma {:induction false} LESplit(n: nat, w: nat)
    requires w != 0
    ensures LE(n, w) == [n % 256] + LE(n / 256, w - 1)
  {
  }

  /** The number stored little-endian in the `w` bytes of `s` from `p`. */
  function Load(s: bytes, p: nat, w: nat): nat
    requires p + w <= |s|
    decreases w, p, s
  {
    if w == 0 then 0 else s[p] + 256 * Load(s, p + 1, w - 1)
  }

  /** The `n` bytes of `s` from `p`, as `memcpy` copies them.  Equal to the slice
      (see `SubIsSlice`), which proofs about offsets do better without. */
  function Sub(s: bytes, p: nat, n: nat): (r: bytes)
    requires p + n <= |s|
    ensures |r| == n
    decreases n, p, s
  {
    if n == 0 then [] else Sub(s, p, n - 1) + [s[p + n - 1]]
  }

  lemma {:induction false} SubIsSlice(s: bytes, p: nat, n: nat)
    requires p + n <= |s|
    ensures Sub(s, p, n) == s[p..p + n]
  {
    if n != 0 {
      SubIsSlice(s, p, n - 1);
    }
  }

  /** `b` is what memory `s` holds at offset `p`. */
  ghost predicate At(s: bytes, p: nat, b: bytes) {
    p + |b| <= |s| && Sub(s, p, |b|) == b
  }

  lemma {:induction false} AtConcat(s: bytes, p: nat, a: bytes, b: bytes)
    ensures At(s, p, a + b) <==> At(s, p, a) && At(s, p + |a|, b)
  {
    if p + |a| + |b| <= |s| {
      SubIsSlice(s, p, |a + b|);
      SubIsSlice(s, p, |a|);
      SubIsSlice(s, p + |a|, |b|);
      var whole := s[p..p + |a| + |b|];
      assert whole == s[p..p + |a|] + s[p + |a|..p + |a| + |b|];
      assert whole[..|a|] == s[p..p + |a|] && whole[|a|..] == s[p + |a|..p + |a| + |b|];
      assert (a + b)[..|a|] == a && (a + b)[|a|..] == b;
    }
  }

  lemma {:induction false} AtConcat3(s: bytes, p: nat, a: bytes, b: bytes, c: bytes)
    requires At(s, p, a + b + c)
    ensures At(s, p, a) && At(s, p + |a|, b) && At(s, p + |a| + |b|, c)
  {
    AtConcat(s, p, a + b, c);
    AtConcat(s, p, a, b);
  }

  lemma {:induction false} AtMiddle(a: bytes, b: bytes, c: bytes)
    ensures At(a + b + c, |a|, b)
  {
    SubIsSlice(a + b + c, |a|, |b|);
    assert (a + b + c)[|a|..|a| + |b|] == b;
  }

  lemma {:induction false} AtByte(s: bytes, p: nat, b: byte)
    requires At(s, p, [b])
    ensures s[p] == b
  {
    SubIsSlice(s, p, 1);
    assert s[p] == s[p..p + 1][0];
  }

  /** Loading what was stored gives the number back. */
  lemma {:induction false} LoadAt(s: bytes, p: nat, n: nat, w: nat)
    requires n < Pow256(w) && At(s, p, LE(n, w))
    ensures Load(s, p, w) == n
    decreases w
  {
    if w != 0 {
      LESplit(n, w);
      AtConcat(s, p, [n % 256], LE(n / 256, w - 1));
      AtByte(s, p, n % 256);
      LoadAt(s, p + 1, n / 256, w - 1);
    }
  }

  /** Storing what was loaded gives the bytes back. */
  lemma {:induction false} AtLoad(s: bytes, p: nat, w: nat)
    requires p + w <= |s|
    ensures Load(s, p, w) < Pow256(w) && At(s, p, LE(Load(s, p, w), w))
    decreases w
  {
    if w != 0 {
      AtLoad(s, p + 1, w - 1);
      var n := Load(s, p, w);
      assert n % 256 == s[p] && n / 256 == Load(s, p + 1, w - 1);
      LESplit(n, w);
      assert Sub(s, p, 1) == [s[p]];
      AtConcat(s, p, [n % 256], LE(n / 256, w - 1));
    }
  }

  /** What comes before the first `x`: the C string in a text, with `x` a NUL. */
  function Until<T(==)>(s: seq<T>, x: T): (r: seq<T>)
    ensures |r| <= |s|
  {
    if s == [] || s[0] == x then [] else [s[0]] + Until(s[1..], x)
  }

  /** `tolower`, on ASCII letters. */
  function Lower(c: byte): byte {
    if 65 <= c <= 90 then c + 32 else c
  }

  lemma {:induction false} Assoc(a: bytes, b: bytes, c: bytes)
    ensures a + (b + c) == (a + b) + c
  {
  }
}
