/** Three ways of skipping trailing spaces, with one result. */
module TrailingSpace {
  import opened Bytes
  import opened ByteOrder

  const SPACE: byte := 0x20

  /** Where the first `n` bytes end once trailing spaces are dropped. */
  function TrimmedEnd(s: bytes, n: nat): (e: nat)
    requires n <= |s|
    ensures e <= n
  {
    if n != 0 && s[n - 1] == SPACE then TrimmedEnd(s, n - 1) else n
  }

  /** That end is the only place with nothing but spaces after it and no space
      just before it. */
  lemma {:induction false} EndIsUnique(s: bytes, n: nat, e: nat)
    requires n <= |s|
    ensures e == TrimmedEnd(s, n) <==>
            e <= n && (forall k :: e <= k < n ==> s[k] == 0x20) && (e != 0 ==> s[e - 1] != 0x20)
  {
    if n != 0 && s[n - 1] == SPACE {
      EndIsUnique(s, n - 1, e);
    }
  }

  /** A run of spaces before `n` can be skipped in one go. */
  lemma {:induction false} SkipRun(s: bytes, n: nat, w: nat)
    requires w <= n <= |s| && forall k :: n - w <= k < n ==> s[k] == SPACE
    ensures TrimmedEnd(s, n) == TrimmedEnd(s, n - w)
  {
    if w != 0 {
      SkipRun(s, n - 1, w - 1);
    }
  }

  // ---------- words of spaces ----------

  function SpaceWord(w: nat): nat {
    if w == 0 then 0 else SPACE + 256 * SpaceWord(w - 1)
  }

  lemma {:induction false} SpaceConstants()
    ensures SpaceWord(4) == 0x2020_2020 && SpaceWord(8) == 0x2020_2020_2020_2020
  {
    assert SpaceWord(4) == SPACE + 256 * (SPACE + 256 * (SPACE + 256 * (SPACE + 256 * SpaceWord(0))));
    assert SpaceWord(8) == SPACE + 256 * (SPACE + 256 * (SPACE + 256 * (SPACE + 256 * SpaceWord(4))));
  }

  /** A little-endian word equals the constant exactly if all its bytes are spaces. */
  lemma {:induction false} WordOfSpaces(s: bytes, p: nat, w: nat)
    requires p + w <= |s|
    ensures Load(s, p, w) == SpaceWord(w) <==> forall k :: p <= k < p + w ==> s[k] == SPACE
    decreases w
  {
    if w != 0 {
      WordOfSpaces(s, p + 1, w - 1);
      if forall k :: p + 1 <= k < p + w ==> s[k] == SPACE {
        if s[p] == SPACE {
          assert forall k :: p <= k < p + w ==> s[k] == SPACE;
        }
      } else {
        assert exists k :: p <= k < p + w && s[k] != SPACE;
      }
    }
  }

  /** The word SPARC loads: most significant byte first. */
  function LoadBig(s: bytes, p: nat, w: nat): nat
    requires p + w <= |s|
    decreases w, p, s
  {
    if w == 0 then 0 else 256 * LoadBig(s, p, w - 1) + s[p + w - 1]
  }

  lemma {:induction false} BigWordOfSpaces(s: bytes, p: nat, w: nat)
    requires p + w <= |s|
    ensures LoadBig(s, p, w) == SpaceWord(w) <==> forall k :: p <= k < p + w ==> s[k] == SPACE
    decreases w
  {
    if w != 0 {
      BigWordOfSpaces(s, p, w - 1);
      if forall k :: p <= k < p + w - 1 ==> s[k] == SPACE {
        if s[p + w - 1] == SPACE {
          assert forall k :: p <= k < p + w ==> s[k] == SPACE;
        }
      } else {
        assert exists k :: p <= k < p + w && s[k] != SPACE;
      }
    }
  }

  // ---------- the three forms ----------

  method SkipPlain(s: bytes, len: nat) returns (end: nat)
    requires len <= |s|
    ensures end == TrimmedEnd(s, len)
  {
    end := len;
    while end > 0 && s[end - 1] == SPACE
      invariant end <= len && TrimmedEnd(s, end) == TrimmedEnd(s, len)
    {
      end := end - 1;
    }
  }

  /** Eight bytes at a time, whatever the alignment. */
  method SkipEight(s: bytes, len: nat) returns (end: nat)
    requires len <= |s|
    ensures end == TrimmedEnd(s, len)
  {
    end := len;
    SpaceConstants();
    while end >= 8
      invariant end <= len && TrimmedEnd(s, end) == TrimmedEnd(s, len)
    {
      KorrIsLoad(s, end - 8);
      WordOfSpaces(s, end - 8, 8);
      if Uint8Korr(s, end - 8) != 0x2020_2020_2020_2020 {
        break;
      }
      SkipRun(s, end, 8);
      end := end - 8;
    }
    while end > 0 && s[end - 1] == SPACE
      invariant end <= len && TrimmedEnd(s, end) == TrimmedEnd(s, len)
    {
      end := end - 1;
    }
  }

  /** Loads the word just before `end`; SPARC demands that it be aligned. */
  method LoadWordBefore(s: bytes, base: nat, end: nat, word: nat) returns (n: nat)
    requires 0 < word <= end <= |s| && (base + end) % word == 0
    ensures n == LoadBig(s, end - word, word)
  {
    n := LoadBig(s, end - word, word);
  }

  /** The SPARC form, for a buffer at address `base`: single bytes down to a word
      boundary, then aligned words, then single bytes again. */
  method SkipWords(s: bytes, len: nat, base: nat, word: nat) returns (end: nat)
    requires len <= |s| && (word == 4 || word == 8)
    ensures end == TrimmedEnd(s, len)
  {
    end := len;
    var spaceInt := if word == 4 then 0x2020_2020 else 0x2020_2020_2020_2020;
    SpaceConstants();
    if len > 20 {
      var endWords := (base + len) / word * word - base;
      var startWords := (base + word - 1) / word * word - base;
      Boundaries(base, len, word);
      while end > endWords && s[end - 1] == SPACE
        invariant endWords <= end <= len && TrimmedEnd(s, end) == TrimmedEnd(s, len)
      {
        end := end - 1;
      }
      if s[end - 1] == SPACE && startWords < endWords {
        assert end == endWords;
        while end > startWords
          invariant startWords <= end <= len && (base + end) % word == 0
          invariant TrimmedEnd(s, end) == TrimmedEnd(s, len)
        {
          NextWord(base + startWords, base + end, word);
          var w := LoadWordBefore(s, base, end, word);
          BigWordOfSpaces(s, end - word, word);
          if w != spaceInt {
            break;
          }
          SkipRun(s, end, word);
          end := end - word;
        }
      }
    }
    while end > 0 && s[end - 1] == SPACE
      invariant end <= len && TrimmedEnd(s, end) == TrimmedEnd(s, len)
    {
      end := end - 1;
    }
  }

  lemma {:induction false} Boundaries(base: nat, len: nat, word: nat)
    requires len > 20 && (word == 4 || word == 8)
    ensures 0 < (base + len) / word * word - base <= len
    ensures 0 <= (base + word - 1) / word * word - base < word
    ensures (base + len) / word * word % word == 0 && (base + word - 1) / word * word % word == 0
  {
  }

  lemma {:induction false} NextWord(a: nat, b: nat, word: nat)
    requires (word == 4 || word == 8) && a % word == 0 && b % word == 0 && a < b
    ensures a + word <= b && (b - word) % word == 0
  {
  }
}
