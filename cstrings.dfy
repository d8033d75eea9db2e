/**
 * NUL-terminated character buffers and the buffer-building helpers of the
 * watch face: strlen, memcpy, string_repeat, concat, and the bounded copy
 * that snprintf performs into the battery buffer.
 *
 * A C string is an array of characters that holds a NUL somewhere; its text
 * is everything before the first NUL.
 */
module CStrings {

  const NUL: char := '\0'

  /** The buffer holds a C string: some NUL ends it. */
  predicate Terminated(s: seq<char>)
  {
    NUL in s
  }

  /** strlen: the index of the first NUL. */
  function Length(s: seq<char>): (n: nat)
    requires Terminated(s)
    ensures n < |s| && s[n] == NUL
    ensures forall i :: 0 <= i < n ==> s[i] != NUL
  {
    if s[0] == NUL then 0 else 1 + Length(s[1..])
  }

  /** The text of the C string held in `s`, without its terminator. */
  function Text(s: seq<char>): (t: seq<char>)
    requires Terminated(s)
    ensures NUL !in t
    ensures t + [NUL] <= s
  {
    s[..Length(s)]
  }

  /** A text followed by NUL (and anything) reads back as that text. */
  lemma {:induction false} TextOfTerminated(t: seq<char>, rest: seq<char>)
    requires NUL !in t
    ensures Terminated(t + [NUL] + rest)
    ensures Text(t + [NUL] + rest) == t
  {
    var s := t + [NUL] + rest;
    assert s[|t|] == NUL;
    assert forall i :: 0 <= i < |t| ==> s[i] == t[i];
    assert Text(s) == s[..|t|] == t;
  }

  /** `n` back-to-back copies of `s`. */
  function Repeat(n: nat, s: seq<char>): (r: seq<char>)
    ensures |r| == n * |s|
  {
    if n == 0 then [] else Repeat(n - 1, s) + s
  }

  /** Character `j` of copy `k` of a repetition is character `j` of `s`. */
  lemma {:induction false} RepeatAt(n: nat, s: seq<char>, k: nat, j: nat)
    requires k < n && j < |s|
    ensures k * |s| + j < |Repeat(n, s)|
    ensures Repeat(n, s)[k * |s| + j] == s[j]
  {
    MulBelow(k, n, |s|);
    if k < n - 1 {
      MulBelow(k, n - 1, |s|);
      RepeatAt(n - 1, s, k, j);
    } else {
      assert (n - 1) * |s| == |Repeat(n - 1, s)|;
    }
  }

  /** Every character of a repetition of one character is that character. */
  lemma {:induction false} RepeatCharAt(n: nat, c: char, i: nat)
    requires i < n
    ensures |Repeat(n, [c])| == n && Repeat(n, [c])[i] == c
  {
    RepeatAt(n, [c], i, 0);
  }

  lemma RepeatCharAll(n: nat, c: char)
    ensures |Repeat(n, [c])| == n
    ensures forall i :: 0 <= i < n ==> Repeat(n, [c])[i] == c
  {
    forall i | 0 <= i < n
      ensures Repeat(n, [c])[i] == c
    {
      RepeatCharAt(n, c, i);
    }
  }

  /** Repeating a text without NUL gives a text without NUL. */
  lemma {:induction false} RepeatHasNoNul(n: nat, s: seq<char>)
    requires NUL !in s
    ensures NUL !in Repeat(n, s)
  {
    if n > 0 {
      RepeatHasNoNul(n - 1, s);
      assert Repeat(n, s) == Repeat(n - 1, s) + s;
    }
  }

  /** A repetition of a non-NUL character, terminated, reads back as itself. */
  lemma RepeatIsText(n: nat, c: char)
    requires c != NUL
    ensures Terminated(Repeat(n, [c]) + [NUL])
    ensures Text(Repeat(n, [c]) + [NUL]) == Repeat(n, [c])
  {
    RepeatHasNoNul(n, [c]);
    TextOfTerminated(Repeat(n, [c]), []);
    assert Repeat(n, [c]) + [NUL] + [] == Repeat(n, [c]) + [NUL];
  }

  lemma {:induction false} MulBelow(k: nat, n: nat, m: nat)
    requires k < n
    ensures k * m + m <= n * m
  {
    assert n * m == (n - 1) * m + m;
    if k < n - 1 {
      MulBelow(k, n - 1, m);
    }
  }

  /**
   * strlen over a buffer: scans for the first NUL.
   */
  method StrLen(a: array<char>) returns (n: nat)
    requires Terminated(a[..])
    ensures n < a.Length && a[n] == NUL
    ensures forall i :: 0 <= i < n ==> a[i] != NUL
  {
    n := 0;
    while a[n] != NUL
      invariant n < a.Length
      invariant NUL in a[n..]
      invariant forall i :: 0 <= i < n ==> a[i] != NUL
      decreases a.Length - n
    {
      assert a[n..] == [a[n]] + a[n + 1..];
      n := n + 1;
    }
  }

  /** After StrLen: the length found is that of the text. */
  lemma LengthIsFirstNul(s: seq<char>, n: nat)
    requires n < |s| && s[n] == NUL
    requires forall i :: 0 <= i < n ==> s[i] != NUL
    ensures Terminated(s) && Length(s) == n && Text(s) == s[..n]
  {
    assert s[..n] + [NUL] + s[n + 1..] == s;
    TextOfTerminated(s[..n], s[n + 1..]);
  }

  /**
   * memcpy(dst + at, src, len): copies the first `len` characters of `src`
   * to `dst` from index `at` on and leaves the rest of `dst` as it was.
   */
  method MemCopy(dst: array<char>, at: nat, src: array<char>, len: nat)
    requires at + len <= dst.Length && len <= src.Length
    requires dst != src
    modifies dst
    ensures dst[..] == old(dst[..at]) + src[..len] + old(dst[at + len..])
  {
    var i := 0;
    while i < len
      invariant 0 <= i <= len
      invariant dst[..at] == old(dst[..at])
      invariant dst[at..at + i] == src[..i]
      invariant dst[at + len..] == old(dst[at + len..])
      invariant dst[at + i..at + len] == old(dst[at + i..at + len])
    {
      dst[at + i] := src[i];
      assert dst[at..at + i + 1] == dst[at..at + i] + [src[i]];
      assert src[..i + 1] == src[..i] + [src[i]];
      i := i + 1;
    }
    assert dst[..] == dst[..at] + dst[at..at + len] + dst[at + len..];
  }

  /** A bounded copy into a buffer one longer than the text holds the whole text. */
  lemma CopyHoldsText(s: seq<char>, copied: nat, b: seq<char>)
    requires Terminated(s) && |b| == |Text(s)| + 1
    requires copied == if |Text(s)| < |b| then |Text(s)| else |b| - 1
    requires b[..copied + 1] == Text(s)[..copied] + [NUL]
    ensures b == Text(s) + [NUL]
  {
    assert b == b[..copied + 1];
  }

  /**
   * Writes `text` and a NUL at the start of `dst`, as strftime does once it
   * has produced a text that fits; the rest of `dst` is left as it was.
   */
  method WriteText(dst: array<char>, text: string)
    requires |text| < dst.Length
    modifies dst
    ensures dst[..|text| + 1] == text + [NUL]
    ensures dst[|text| + 1..] == old(dst[|text| + 1..])
  {
    var i := 0;
    while i < |text|
      invariant 0 <= i <= |text|
      invariant dst[..i] == text[..i]
      invariant dst[i..] == old(dst[i..])
    {
      dst[i] := text[i];
      assert dst[..i + 1] == dst[..i] + [text[i]];
      assert text[..i + 1] == text[..i] + [text[i]];
      i := i + 1;
    }
    dst[i] := NUL;
    assert dst[..i + 1] == dst[..i] + [NUL];
    assert text[..i] == text;
  }

  /** A fresh buffer holding a string literal and its terminator. */
  method NewCString(text: string) returns (a: array<char>)
    requires NUL !in text
    ensures fresh(a)
    ensures a[..] == text + [NUL]
    ensures Terminated(a[..]) && Text(a[..]) == text
  {
    a := new char[|text| + 1];
    WriteText(a, text);
    assert a[..] == a[..|text| + 1];
    TextOfTerminated(text, []);
    assert text + [NUL] + [] == text + [NUL];
  }

  /**
   * string_repeat(n, s): a fresh buffer of n * strlen(s) + 1 characters that
   * holds n copies of the text of `s` and then a NUL.
   */
  method StringRepeat(n: int, s: array<char>) returns (dest: array<char>)
    requires 0 <= n
    requires Terminated(s[..])
    ensures fresh(dest)
    ensures dest.Length == n * |Text(s[..])| + 1
    ensures dest[..] == Repeat(n, Text(s[..])) + [NUL]
  {
    var slen := StrLen(s);
    LengthIsFirstNul(s[..], slen);
    ghost var t := s[..slen];
    dest := new char[n * slen + 1];
    var i, p := 0, 0;
    while i < n
      invariant 0 <= i <= n
      invariant p == i * slen && p + 1 <= dest.Length
      invariant dest[..p] == Repeat(i, t)
    {
      MulBelow(i, n, slen);
      ghost var done := dest[..p];
      MemCopy(dest, p, s, slen);
      assert dest[..p + slen] == done + t;
      i, p := i + 1, p + slen;
    }
    dest[p] := NUL;
    assert dest[..] == dest[..p] + [NUL];
  }

  /**
   * concat(s1, s2): a fresh buffer of strlen(s1) + strlen(s2) + 1 characters
   * holding the text of `s1`, the text of `s2` and a NUL. Neither argument
   * changes.
   */
  method Concat(s1: array<char>, s2: array<char>) returns (result: array<char>)
    requires Terminated(s1[..]) && Terminated(s2[..])
    ensures fresh(result)
    ensures result.Length == |Text(s1[..])| + |Text(s2[..])| + 1
    ensures result[..] == Text(s1[..]) + Text(s2[..]) + [NUL]
    ensures s1[..] == old(s1[..]) && s2[..] == old(s2[..])
  {
    var len1 := StrLen(s1);
    var len2 := StrLen(s2);
    LengthIsFirstNul(s1[..], len1);
    LengthIsFirstNul(s2[..], len2);
    result := new char[len1 + len2 + 1];
    MemCopy(result, 0, s1, len1);
    ghost var first := result[..len1];
    assert first == s1[..len1];
    MemCopy(result, len1, s2, len2 + 1);
    assert result[..] == first + s2[..len2 + 1];
    assert s2[..len2 + 1] == s2[..len2] + [NUL];
  }

  /**
   * The copy snprintf(dst, dst.Length, "%s", src) makes: at most
   * dst.Length - 1 characters of the text of `src`, then a NUL.
   */
  method BoundedCopy(dst: array<char>, src: array<char>) returns (m: nat)
    requires 1 <= dst.Length
    requires Terminated(src[..])
    requires dst != src
    modifies dst
    ensures m == if |Text(src[..])| < dst.Length then |Text(src[..])| else dst.Length - 1
    ensures dst[..m + 1] == Text(src[..])[..m] + [NUL]
    ensures dst[m + 1..] == old(dst[m + 1..])
  {
    var n := StrLen(src);
    LengthIsFirstNul(src[..], n);
    m := if n < dst.Length then n else dst.Length - 1;
    MemCopy(dst, 0, src, m);
    dst[m] := NUL;
    assert dst[..m + 1] == dst[..m] + [NUL];
  }
}
