/**
 * Text helpers: runs of one character used to pad text, and the length of a
 * text as a JVM or JavaScript string counts it (UTF-16 code units).
 */
module Text {

  /** `k` copies of `c`. */
  function Repeat(c: char, k: nat): (s: string)
    ensures |s| == k && forall i :: 0 <= i < k ==> s[i] == c
  {
    seq(k, _ => c)
  }

  /** A character outside the Basic Multilingual Plane takes a surrogate pair in UTF-16. */
  predicate Supplementary(c: char) {
    c as int >= 0x1_0000
  }

  /** Code units of one character: two for a supplementary character, one otherwise. */
  function Utf16Units(c: char): (n: nat)
    ensures 1 <= n <= 2 && (n == 2 <==> Supplementary(c))
  {
    if Supplementary(c) then 2 else 1
  }

  /** `StringBuilder.length()` / `String.length`: the number of UTF-16 code units. */
  function Utf16Length(s: string): nat
    decreases |s|
  {
    if s == [] then 0 else Utf16Length(s[..|s| - 1]) + Utf16Units(s[|s| - 1])
  }

  /** A text takes at least one and at most two code units per character. */
  lemma {:induction false} Utf16LengthBounds(s: string)
    ensures |s| <= Utf16Length(s) <= 2 * |s|
    decreases |s|
  {
    if s != [] {
      Utf16LengthBounds(s[..|s| - 1]);
    }
  }

  /** The UTF-16 length of a concatenation is the sum of the lengths. */
  lemma {:induction false} Utf16LengthAppend(a: string, b: string)
    ensures Utf16Length(a + b) == Utf16Length(a) + Utf16Length(b)
    decreases |b|
  {
    if b != [] {
      var b' := b[..|b| - 1];
      assert (a + b)[..|a + b| - 1] == a + b';
      assert (a + b)[|a + b| - 1] == b[|b| - 1];
      Utf16LengthAppend(a, b');
    } else {
      assert a + b == a;
    }
  }

  /** A text of Basic Multilingual Plane characters has one code unit per character. */
  lemma {:induction false} Utf16LengthBmp(s: string)
    requires forall i :: 0 <= i < |s| ==> !Supplementary(s[i])
    ensures Utf16Length(s) == |s|
    decreases |s|
  {
    if s != [] {
      Utf16LengthBmp(s[..|s| - 1]);
    }
  }

  /** Each supplementary character adds one unit beyond the character count. */
  lemma {:induction false} Utf16LengthExceedsByPairs(s: string)
    ensures Utf16Length(s) > |s| <==> exists i :: 0 <= i < |s| && Supplementary(s[i])
    decreases |s|
  {
    if s != [] {
      var s' := s[..|s| - 1];
      Utf16LengthExceedsByPairs(s');
      Utf16LengthBounds(s');
      if exists i :: 0 <= i < |s'| && Supplementary(s'[i]) {
        var i :| 0 <= i < |s'| && Supplementary(s'[i]);
        assert s[i] == s'[i];
      }
      if exists i :: 0 <= i < |s| && Supplementary(s[i]) {
        var i :| 0 <= i < |s| && Supplementary(s[i]);
        if i < |s'| {
          assert s'[i] == s[i];
        }
      }
    }
  }

  /** Appending `k` padding dots adds `k` units. */
  lemma PaddedUnits(s: string, k: nat)
    ensures Utf16Length(s + Repeat('.', k)) == Utf16Length(s) + k
  {
    Utf16LengthAppend(s, Repeat('.', k));
    RepeatDotsUnits(k);
  }

  /** Padding dots are one unit each. */
  lemma RepeatDotsUnits(k: nat)
    ensures Utf16Length(Repeat('.', k)) == k
  {
    Utf16LengthBmp(Repeat('.', k));
  }
}
