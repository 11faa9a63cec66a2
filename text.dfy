/**
 * ASCII text helpers: Kotlin's `toLowerCase` and `capitalize` on the ASCII
 * range, a tab splitter used by the proofs, and prefix/suffix facts.
 */
module Text {

  predicate IsAsciiUpper(c: char) { 'A' <= c <= 'Z' }

  predicate IsAsciiLower(c: char) { 'a' <= c <= 'z' }

  predicate IsAsciiDigit(c: char) { '0' <= c <= '9' }

  /** One character lowercased; characters other than `A`..`Z` are kept. */
  function LowerChar(c: char): (r: char)
    ensures IsAsciiUpper(c) ==> IsAsciiLower(r)
    ensures !IsAsciiUpper(c) ==> r == c
  {
    if IsAsciiUpper(c) then (c as int - 'A' as int + 'a' as int) as char else c
  }

  /** One character uppercased; characters other than `a`..`z` are kept. */
  function UpperChar(c: char): (r: char)
    ensures IsAsciiLower(c) ==> IsAsciiUpper(r) && LowerChar(r) == c
    ensures !IsAsciiLower(c) ==> r == c
  {
    if IsAsciiLower(c) then (c as int - 'a' as int + 'A' as int) as char else c
  }

  /** `String.toLowerCase()` on the ASCII range. */
  function ToLower(s: string): (r: string)
    ensures |r| == |s|
    ensures forall i :: 0 <= i < |s| ==> r[i] == LowerChar(s[i])
  {
    if s == [] then [] else [LowerChar(s[0])] + ToLower(s[1..])
  }

  /** Kotlin's `capitalize()`: the first character uppercased, the rest kept. */
  function Capitalize(s: string): (r: string)
    ensures |r| == |s|
  {
    if s == [] then [] else [UpperChar(s[0])] + s[1..]
  }

  /**
   * Capitalising keeps the word: it differs from `s` only in case, a
   * lower-case initial becomes upper-case, and doing it twice changes
   * nothing more.
   */
  lemma CapitalizeSameWord(s: string)
    ensures ToLower(Capitalize(s)) == ToLower(s)
    ensures s != [] && IsAsciiLower(s[0]) ==> IsAsciiUpper(Capitalize(s)[0])
    ensures Capitalize(Capitalize(s)) == Capitalize(s)
  {
    var r := Capitalize(s);
    forall i | 0 <= i < |s|
      ensures ToLower(r)[i] == ToLower(s)[i]
    {
      if i == 0 {
        assert LowerChar(UpperChar(s[0])) == LowerChar(s[0]);
      } else {
        assert r[i] == s[i];
      }
    }
  }

  /** `s` begins with `p`. */
  predicate StartsWith(s: string, p: string) {
    |p| <= |s| && s[..|p|] == p
  }

  /** `s` ends with `p`. */
  predicate EndsWith(s: string, p: string) {
    |p| <= |s| && s[|s| - |p|..] == p
  }

  /** `sep` does not occur in `s`. */
  predicate Free(s: string, sep: char) {
    forall i :: 0 <= i < |s| ==> s[i] != sep
  }

  /**
   * The pieces of `s` between occurrences of `sep`, in order, empty pieces
   * included; a string without separators is a single piece. The commands
   * never split anything: this reads a tab-separated access-widener line
   * back into its fields, so that the lemmas can say what the fields are.
   */
  function Split(s: string, sep: char): (r: seq<string>)
    ensures |r| >= 1
  {
    if s == [] then [""]
    else
      var rest := Split(s[1..], sep);
      if s[0] == sep then [""] + rest else [[s[0]] + rest[0]] + rest[1..]
  }

  /** Splitting `a + [sep] + b`, where `a` holds no separator, peels off `a`. */
  lemma {:induction false} SplitCons(a: string, sep: char, b: string)
    requires Free(a, sep)
    ensures Split(a + [sep] + b, sep) == [a] + Split(b, sep)
  {
    if a == [] {
      assert a + [sep] + b == [sep] + b;
      assert ([sep] + b)[1..] == b;
    } else {
      var s := a + [sep] + b;
      assert s[0] == a[0];
      assert s[1..] == a[1..] + [sep] + b;
      SplitCons(a[1..], sep, b);
      assert [a[0]] + a[1..] == a;
    }
  }

  /** A string without separators splits into itself alone. */
  lemma {:induction false} SplitFree(a: string, sep: char)
    requires Free(a, sep)
    ensures Split(a, sep) == [a]
  {
    if a != [] {
      SplitFree(a[1..], sep);
      assert [a[0]] + a[1..] == a;
    }
  }

  /** The first and the last piece of a three-piece string can be read back from it. */
  lemma ThreePieces(head: string, middle: string, tail: string)
    ensures StartsWith(head + middle + tail, head)
    ensures EndsWith(head + middle + tail, tail)
    ensures (head + middle + tail)[|head|..] == middle + tail
  {
    var s := head + middle + tail;
    assert s[..|head|] == head;
    assert s[|head|..] == middle + tail;
    assert s[|s| - |tail|..] == tail;
  }
}
