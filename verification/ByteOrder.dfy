/** The endianness-independent loads and stores. */
module ByteOrder {
  import opened Bytes

  function Uint4Korr(s: bytes, p: nat): nat
    requires p + 4 <= |s|
  {
    s[p] as nat + s[p + 1] as nat * 0x100 + s[p + 2] as nat * 0x1_0000 + s[p + 3] as nat * 0x100_0000
  }

  function Uint8Korr(s: bytes, p: nat): nat
    requires p + 8 <= |s|
  {
    Uint4Korr(s, p) + Uint4Korr(s, p + 4) * TWO_32
  }

  lemma {:induction false} KorrIsLoad(s: bytes, p: nat)
    ensures p + 4 <= |s| ==> Uint4Korr(s, p) == Load(s, p, 4)
    ensures p + 8 <= |s| ==> Uint8Korr(s, p) == Load(s, p, 8)
  {
    if p + 4 <= |s| {
      FourBytes(s, p, 0);
    }
    if p + 8 <= |s| {
      FourBytes(s, p, 4);
      FourBytes(s, p + 4, 0);
    }
  }

  /** Least significant byte first. */
  lemma {:induction false} LittleEndian(s: bytes, p: nat)
    requires p + 4 <= |s|
    ensures Load(s, p, 4) == s[p] as nat + 256 * s[p + 1] as nat + 65536 * s[p + 2] as nat + 16777216 * s[p + 3] as nat
    ensures p + 8 <= |s| ==> Load(s, p, 8) == Load(s, p, 4) + 4294967296 * Load(s, p + 4, 4)
  {
    FourBytes(s, p, 0);
    if p + 8 <= |s| {
      FourBytes(s, p, 4);
    }
  }

  lemma {:induction false} FourBytes(s: bytes, p: nat, w: nat)
    requires p + 4 + w <= |s|
    ensures Load(s, p, 4 + w) == Uint4Korr(s, p) + TWO_32 * Load(s, p + 4, w)
  {
    assert Load(s, p + 3, 1 + w) == s[p + 3] + 256 * Load(s, p + 4, w);
    assert Load(s, p + 2, 2 + w) == s[p + 2] + 256 * Load(s, p + 3, 1 + w);
    assert Load(s, p + 1, 3 + w) == s[p + 1] + 256 * Load(s, p + 2, 2 + w);
  }

  /** `a` with the bytes from `p` on replaced by `b`. */
  function Patched(a: bytes, p: nat, b: bytes): bytes
    requires p + |b| <= |a|
  {
    a[..p] + b + a[p + |b|..]
  }

  lemma {:induction false} FourDigits(n: nat)
    ensures LE(n, 4) == [n % 256, n / 0x100 % 256, n / 0x1_0000 % 256, n / 0x100_0000 % 256]
  {
    assert n / 0x100 / 0x100 == n / 0x1_0000 && n / 0x1_0000 / 0x100 == n / 0x100_0000;
    assert Digit(n, 1) == Digit(n / 256, 0);
    assert Digit(n, 2) == Digit(n / 256, 1) == Digit(n / 256 / 256, 0);
    assert Digit(n, 3) == Digit(n / 256, 2) == Digit(n / 256 / 256, 1) == Digit(n / 256 / 256 / 256, 0);
  }

  method Int4Store(t: array<byte>, p: nat, a: nat)
    requires p + 4 <= t.Length
    modifies t
    ensures t[..] == Patched(old(t[..]), p, LE(a, 4))
  {
    FourDigits(a);
    t[p] := a % 256;
    t[p + 1] := a / 0x100 % 256;
    t[p + 2] := a / 0x1_0000 % 256;
    t[p + 3] := a / 0x100_0000 % 256;
  }

  /** Dividing by 256 keeps the low digits apart from the rest. */
  lemma {:induction false} NextDigit(n: nat, q: nat, r: nat, m: nat)
    requires n == q * (256 * m) + r
    ensures n / 256 == q * m + r / 256 && n % 256 == r % 256
  {
    assert n == 256 * (q * m) + r;
  }

  lemma {:induction false} LowHalf(n: nat)
    ensures LE(n % TWO_32, 4) == LE(n, 4)
  {
    var q, r := n / TWO_32, n % TWO_32;
    NextDigit(n, q, r, 0x100_0000);
    NextDigit(n / 256, q, r / 256, 0x1_0000);
    NextDigit(n / 256 / 256, q, r / 256 / 256, 0x100);
    NextDigit(n / 256 / 256 / 256, q, r / 256 / 256 / 256, 1);
    SplitFour(n);
    SplitFour(r);
  }

  lemma {:induction false} SplitFour(n: nat)
    ensures LE(n, 4) == [n % 256, n / 256 % 256, n / 256 / 256 % 256, n / 256 / 256 / 256 % 256]
  {
    LESplit(n, 4);
    LESplit(n / 256, 3);
    LESplit(n / 256 / 256, 2);
    LESplit(n / 256 / 256 / 256, 1);
  }

  lemma {:induction false} HighDigit(n: nat, i: nat)
    ensures Digit(n, i + 4) == Digit(n / TWO_32, i)
  {
    var a := n / 256;
    var b := a / 256;
    var c := b / 256;
    assert b == n / 0x1_0000;
    assert c == n / 0x100_0000;
    assert c / 256 == n / TWO_32;
    assert Digit(n, i + 4) == Digit(a, i + 3) == Digit(b, i + 2) == Digit(c, i + 1) == Digit(c / 256, i);
  }

  lemma {:induction false} EightDigits(n: nat)
    ensures LE(n, 8) == LE(n % TWO_32, 4) + LE(n / TWO_32, 4)
  {
    LowHalf(n);
    forall i: nat | i < 8
      ensures LE(n, 8)[i] == (LE(n, 4) + LE(n / TWO_32, 4))[i]
    {
      if i >= 4 {
        HighDigit(n, i - 4);
      }
    }
  }

  /** Two 32-bit halves; `a` is a 64-bit number. */
  method Int8Store(t: array<byte>, p: nat, a: nat)
    requires p + 8 <= t.Length && a < TWO_32 * TWO_32
    modifies t
    ensures t[..] == Patched(old(t[..]), p, LE(a, 8))
  {
    var defTemp, defTemp2 := a % TWO_32, a / TWO_32;
    Int4Store(t, p, defTemp);
    Int4Store(t, p + 4, defTemp2);
    EightDigits(a);
    TwoPatches(old(t[..]), p, LE(defTemp, 4), LE(defTemp2, 4));
  }

  lemma {:induction false} TwoPatches(a: bytes, p: nat, b: bytes, c: bytes)
    requires p + |b| + |c| <= |a|
    ensures Patched(Patched(a, p, b), p + |b|, c) == Patched(a, p, b + c)
  {
  }

  /** Loading what was stored gives the number back, for every 64-bit number and
      wherever it is stored. */
  lemma {:induction false} StoreThenLoad(a: bytes, p: nat, n: nat)
    requires p + 8 <= |a| && n < TWO_32 * TWO_32
    ensures Uint8Korr(Patched(a, p, LE(n, 8)), p) == n
  {
    var s := Patched(a, p, LE(n, 8));
    SubIsSlice(s, p, 8);
    assert s[p..p + 8] == LE(n, 8);
    Pow256Values();
    LoadAt(s, p, n, 8);
    KorrIsLoad(s, p);
  }
}
