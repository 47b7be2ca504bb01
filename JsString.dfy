/** The few JavaScript string primitives the word-chain engine relies on:
    the `\s` character class, `String.prototype.trim`, and
    `replace(/\s+/g, '')`. Strings are plain sequences of characters
    (UTF-16 code units are not distinguished from code points). */
module JsString {

  /** ECMAScript WhiteSpace and LineTerminator characters, exactly the set
      that `\s` matches and that `trim` strips: tab, line feed, vertical
      tab, form feed, carriage return, space, no-break space, the Unicode
      space separators (U+1680, U+2000 to U+200A, U+202F, U+205F, U+3000),
      the line and paragraph separators (U+2028, U+2029) and the byte order
      mark (U+FEFF). */
  predicate IsSpace(c: char)
  {
    var n := c as int;
    if n < 0xA0 then n == 0x20 || 0x09 <= n <= 0x0D
    else
      n == 0xA0 || n == 0x1680 || 0x2000 <= n <= 0x200A || n == 0x2028 || n == 0x2029 ||
      n == 0x202F || n == 0x205F || n == 0x3000 || n == 0xFEFF
  }

  /** `/\s/.test(s)` */
  predicate HasSpace(s: string)
  {
    exists i :: 0 <= i < |s| && IsSpace(s[i])
  }

  /** Every character of `s` is whitespace (vacuously true of ""). */
  predicate AllSpace(s: string)
  {
    forall i :: 0 <= i < |s| ==> IsSpace(s[i])
  }

  /** The index of the first non-whitespace character of `s` at or after
      `from`, or `|s|` when there is none. */
  function SkipSpaces(s: string, from: nat): (i: nat)
    requires from <= |s|
    ensures from <= i <= |s|
    ensures forall k :: from <= k < i ==> IsSpace(s[k])
    ensures i < |s| ==> !IsSpace(s[i])
    decreases |s| - from
  {
    if from == |s| || !IsSpace(s[from]) then from else SkipSpaces(s, from + 1)
  }

  /** One past the index of the last non-whitespace character of `s` in
      `[lo, hi)`, or `lo` when there is none. */
  function SkipSpacesBack(s: string, lo: nat, hi: nat): (j: nat)
    requires lo <= hi <= |s|
    ensures lo <= j <= hi
    ensures forall k :: j <= k < hi ==> IsSpace(s[k])
    ensures lo < j ==> !IsSpace(s[j - 1])
    decreases hi
  {
    if hi == lo || !IsSpace(s[hi - 1]) then hi else SkipSpacesBack(s, lo, hi - 1)
  }

  /** `s.trim()`: a slice of `s` with only whitespace before and after it.
      It is empty exactly when `s` is all whitespace, and otherwise starts
      and ends with a non-whitespace character. */
  function Trim(s: string): (r: string)
    ensures var i := SkipSpaces(s, 0);
      i + |r| <= |s| && r == s[i..i + |r|] &&
      (forall k :: 0 <= k < i ==> IsSpace(s[k])) &&
      (forall k :: i + |r| <= k < |s| ==> IsSpace(s[k]))
    ensures r == [] <==> AllSpace(s)
    ensures r != [] ==> !IsSpace(r[0]) && !IsSpace(r[|r| - 1])
  {
    var i := SkipSpaces(s, 0);
    var j := SkipSpacesBack(s, i, |s|);
    assert i < |s| ==> i < j;
    assert i < j ==> s[i..j][0] == s[i] && s[i..j][j - i - 1] == s[j - 1];
    s[i..j]
  }

  /** `s.replace(/\s+/g, '')`: `s` with every whitespace character removed
      and the other characters kept in order. */
  function RemoveSpaces(s: string): (r: string)
    ensures !HasSpace(r)
    ensures forall c :: c in r <==> c in s && !IsSpace(c)
    ensures !HasSpace(s) ==> r == s
    ensures |r| <= |s|
  {
    if s == [] then []
    else
      var rest := RemoveSpaces(s[1..]);
      assert forall c :: c in s <==> c == s[0] || c in s[1..];
      assert forall i :: 0 <= i < |s| - 1 ==> s[1..][i] == s[i + 1];
      if IsSpace(s[0]) then rest
      else
        var r := [s[0]] + rest;
        assert forall i :: 0 < i < |r| ==> r[i] == rest[i - 1];
        r
  }

  /** Removing whitespace distributes over concatenation. Together with the
      contract of `RemoveSpaces` (a whitespace-free string is unchanged, so
      a single visible character is kept, and a whitespace character is
      dropped) this fixes the result as the visible characters in order. */
  lemma {:induction false} RemoveSpacesAppend(a: string, b: string)
    ensures RemoveSpaces(a + b) == RemoveSpaces(a) + RemoveSpaces(b)
    decreases |a|
  {
    if a == [] {
      assert a + b == b;
    } else {
      var ab := a + b;
      assert ab[0] == a[0];
      assert ab[1..] == a[1..] + b;
      RemoveSpacesAppend(a[1..], b);
    }
  }

  /** A string that is all whitespace disappears entirely. */
  lemma {:induction false} RemoveSpacesOfBlank(s: string)
    requires AllSpace(s)
    ensures RemoveSpaces(s) == []
    decreases |s|
  {
    if s != [] {
      assert forall i :: 0 <= i < |s| - 1 ==> s[1..][i] == s[i + 1];
      RemoveSpacesOfBlank(s[1..]);
    }
  }

  /** Whitespace around a string does not change what is left of it once
      whitespace is removed. */
  lemma RemoveSpacesOfPadded(pre: string, t: string, post: string)
    requires AllSpace(pre) && AllSpace(post)
    ensures RemoveSpaces(pre + t + post) == RemoveSpaces(t)
  {
    RemoveSpacesOfBlank(pre);
    RemoveSpacesOfBlank(post);
    RemoveSpacesAppend(pre + t, post);
    RemoveSpacesAppend(pre, t);
    assert RemoveSpaces(pre + t) == RemoveSpaces(t);
  }

  /** A string that neither starts nor ends with whitespace is unchanged by
      `trim`; in particular every non-empty whitespace-free word is. */
  lemma TrimOfUnpadded(s: string)
    requires s != [] && !IsSpace(s[0]) && !IsSpace(s[|s| - 1])
    ensures Trim(s) == s
  {
    assert SkipSpaces(s, 0) == 0;
    assert SkipSpacesBack(s, 0, |s|) == |s|;
  }

  /** Trimming is idempotent. */
  lemma TrimIdempotent(s: string)
    ensures Trim(Trim(s)) == Trim(s)
  {
    var t := Trim(s);
    if t != [] {
      TrimOfUnpadded(t);
    }
  }

  /** Trimming removes whitespace only: the non-whitespace characters of
      the trimmed string are exactly those of the original. */
  lemma TrimKeepsVisible(s: string)
    ensures forall c :: c in Trim(s) && !IsSpace(c) <==> c in s && !IsSpace(c)
  {
    var t := Trim(s);
    var i := SkipSpaces(s, 0);
    forall c | c in t ensures c in s {
      var k :| 0 <= k < |t| && t[k] == c;
      assert s[i + k] == c;
    }
    forall c | c in s && !IsSpace(c) ensures c in t {
      var k :| 0 <= k < |s| && s[k] == c;
      assert i <= k < i + |t|;
      assert t[k - i] == c;
    }
  }
}
