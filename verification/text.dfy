/** Character-level string helpers: .NET's notion of white space, trimming, an ordinal
    case-insensitive comparison, and ordinal `String.Replace`. */
module Text {

  /** `Char.IsWhiteSpace`: U+0009..U+000D, U+0020, U+0085, U+00A0 and the Unicode
      space, line and paragraph separators (categories Zs, Zl, Zp). */
  predicate IsWhiteSpace(c: char) {
    var n := c as int;
    (0x09 <= n <= 0x0D) || n == 0x20 || n == 0x85 || n == 0xA0 || n == 0x1680
    || (0x2000 <= n <= 0x200A) || n == 0x2028 || n == 0x2029 || n == 0x202F
    || n == 0x205F || n == 0x3000
  }

  predicate AllWhiteSpace(s: string) {
    forall i :: 0 <= i < |s| ==> IsWhiteSpace(s[i])
  }

  /** Neither end of `s` is white space. */
  predicate IsTrimmed(s: string) {
    s == [] || (!IsWhiteSpace(s[0]) && !IsWhiteSpace(s[|s| - 1]))
  }

  /** The index of the first character at or after `i` that is not white space, or `|s|`. */
  function SkipStart(s: string, i: nat): (n: nat)
    requires i <= |s|
    ensures i <= n <= |s|
    ensures forall k :: i <= k < n ==> IsWhiteSpace(s[k])
    ensures n < |s| ==> !IsWhiteSpace(s[n])
    decreases |s| - i
  {
    if i < |s| && IsWhiteSpace(s[i]) then SkipStart(s, i + 1) else i
  }

  /** The index just past the last character before `j`, and not before `lo`, that is
      not white space, or `lo`. */
  function SkipEnd(s: string, lo: nat, j: nat): (n: nat)
    requires lo <= j <= |s|
    ensures lo <= n <= j
    ensures forall k :: n <= k < j ==> IsWhiteSpace(s[k])
    ensures n > lo ==> !IsWhiteSpace(s[n - 1])
    decreases j - lo
  {
    if j > lo && IsWhiteSpace(s[j - 1]) then SkipEnd(s, lo, j - 1) else j
  }

  /** `String.Trim()`: scans past the leading white space, then back over the trailing
      white space, and keeps what lies between. */
  function Trim(s: string): (r: string)
    ensures IsTrimmed(r)
    ensures |r| <= |s|
  {
    var start := SkipStart(s, 0);
    s[start..SkipEnd(s, start, |s|)]
  }

  /** What `Trim` keeps is a middle part of its input, and what it removes on either
      side is white space. */
  lemma TrimIsMiddle(s: string)
    ensures var r := Trim(s);
      exists i :: (0 <= i <= |s| - |r| && r == s[i..i + |r|]
                   && AllWhiteSpace(s[..i]) && AllWhiteSpace(s[i + |r|..]))
  {
    var start := SkipStart(s, 0);
    var end := SkipEnd(s, start, |s|);
    var r := Trim(s);
    assert r == s[start..end] && start + |r| == end;
    assert AllWhiteSpace(s[..start]) by {
      forall k | 0 <= k < start ensures IsWhiteSpace(s[..start][k]) {
        assert s[..start][k] == s[k];
      }
    }
    assert AllWhiteSpace(s[end..]) by {
      forall k | 0 <= k < |s| - end ensures IsWhiteSpace(s[end..][k]) {
        assert s[end..][k] == s[end + k];
      }
    }
  }

  /** Trimming keeps only characters of its input. */
  lemma TrimKeepsCharacters(s: string, c: char)
    requires c in Trim(s)
    ensures c in s
  {
    var start := SkipStart(s, 0);
    var end := SkipEnd(s, start, |s|);
    var k :| 0 <= k < end - start && s[start..end][k] == c;
    assert s[start + k] == c;
  }

  /** A string whose ends are not white space is left as it is. */
  lemma TrimTrimmed(s: string)
    requires IsTrimmed(s)
    ensures Trim(s) == s
  {
    assert SkipStart(s, 0) == 0;
    assert SkipEnd(s, 0, |s|) == |s|;
  }

  /** Upper-case mapping of the ASCII letters; every other character is kept. */
  function UpperAscii(c: char): (u: char)
    ensures 'a' <= c <= 'z' ==> 'A' <= u <= 'Z' && u as int == c as int - 32
    ensures !('a' <= c <= 'z') ==> u == c
  {
    if 'a' <= c <= 'z' then (c as int - 32) as char else c
  }

  /** The key under which `StringComparer.OrdinalIgnoreCase` compares strings. */
  function FoldCase(s: string): (r: string)
    ensures |r| == |s|
    ensures forall i :: 0 <= i < |s| ==>
      !('a' <= r[i] <= 'z') && (r[i] == s[i] || ('a' <= s[i] <= 'z' && r[i] as int == s[i] as int - 32))
  {
    seq(|s|, i requires 0 <= i < |s| => UpperAscii(s[i]))
  }

  /** Ordinal case-insensitive equality (ASCII letters only are folded). */
  predicate EqualsIgnoreCase(a: string, b: string) {
    FoldCase(a) == FoldCase(b)
  }

  /** Two strings are equal ignoring case exactly when they have the same length and,
      position by position, the characters are equal or are the lower- and upper-case
      forms of one ASCII letter. */
  lemma EqualsIgnoreCaseCharacterization(a: string, b: string)
    ensures EqualsIgnoreCase(a, b) <==>
      && |a| == |b|
      && forall i :: 0 <= i < |a| ==>
           || a[i] == b[i]
           || ('a' <= a[i] <= 'z' && b[i] as int == a[i] as int - 32)
           || ('a' <= b[i] <= 'z' && a[i] as int == b[i] as int - 32)
  {
    if EqualsIgnoreCase(a, b) {
      forall i | 0 <= i < |a|
        ensures || a[i] == b[i]
                || ('a' <= a[i] <= 'z' && b[i] as int == a[i] as int - 32)
                || ('a' <= b[i] <= 'z' && a[i] as int == b[i] as int - 32)
      {
        assert FoldCase(a)[i] == FoldCase(b)[i];
      }
    }
  }

  /** `String.Replace(oldValue, newValue)`: every non-overlapping occurrence of `oldValue`,
      found scanning left to right, is replaced. */
  function Replace(text: string, oldValue: string, newValue: string): (r: string)
    requires |oldValue| > 0
    ensures forall c :: c in r ==> c in text || c in newValue
    decreases |text|
  {
    if |oldValue| <= |text| && text[..|oldValue|] == oldValue then
      newValue + Replace(text[|oldValue|..], oldValue, newValue)
    else if text == [] then []
    else [text[0]] + Replace(text[1..], oldValue, newValue)
  }

  /** `w` occurs in `t` at position `k`. */
  predicate OccursAt(t: string, w: string, k: int) {
    0 <= k <= |t| - |w| && t[k..k + |w|] == w
  }

  /** `w` occurs somewhere in `t`. */
  ghost predicate Occurs(t: string, w: string) {
    exists k :: OccursAt(t, w, k)
  }

  /** Where the text starts with the old value, the output starts with the new one. */
  lemma ReplaceHead(text: string, oldValue: string, newValue: string)
    requires |oldValue| > 0 && |newValue| > 0
    ensures |oldValue| <= |text| && text[..|oldValue|] == oldValue ==>
      |Replace(text, oldValue, newValue)| > 0 && Replace(text, oldValue, newValue)[0] == newValue[0]
  {
  }

  /** If `[c] + rest` begins with `w`, then `rest` begins with the tail of `w`. */
  lemma PrefixOfTail(c: char, rest: string, w: string)
    requires 0 < |w| <= |[c] + rest| && ([c] + rest)[..|w|] == w
    ensures rest[..|w| - 1] == w[1..]
  {
    forall j | 0 <= j < |w| - 1 ensures rest[j] == w[j + 1] {
      assert ([c] + rest)[j + 1] == rest[j];
    }
  }

  /** If a replacement output begins with characters none of which belong to the
      replacement, the input began with the same characters. */
  lemma {:induction false} ReplacePrefix(text: string, oldValue: string, newValue: string, w: string)
    requires |oldValue| > 0 && |newValue| > 0
    requires forall c :: c in w ==> c !in newValue
    requires |w| <= |Replace(text, oldValue, newValue)|
    requires Replace(text, oldValue, newValue)[..|w|] == w
    ensures |w| <= |text| && text[..|w|] == w
    decreases |text|
  {
    var r := Replace(text, oldValue, newValue);
    ReplaceHead(text, oldValue, newValue);
    if w != [] {
      assert w[0] in w && newValue[0] in newValue;
      if |oldValue| <= |text| && text[..|oldValue|] == oldValue {
        assert false;
      } else if text == [] {
      } else {
        var rest := Replace(text[1..], oldValue, newValue);
        assert r == [text[0]] + rest;
        PrefixOfTail(text[0], rest, w);
        assert forall c :: c in w[1..] ==> c in w;
        ReplacePrefix(text[1..], oldValue, newValue, w[1..]);
        assert text[..|w|] == [text[0]] + text[1..][..|w| - 1];
        assert w == [w[0]] + w[1..];
      }
    }
  }

  /** After replacing every occurrence of a value by a text sharing no character with
      it, the value no longer occurs. */
  lemma {:induction false} ReplaceRemovesAll(text: string, oldValue: string, newValue: string)
    requires |oldValue| > 0 && |newValue| > 0
    requires forall c :: c in oldValue ==> c !in newValue
    ensures !Occurs(Replace(text, oldValue, newValue), oldValue)
    decreases |text|
  {
    var n := |oldValue|;
    if n <= |text| && text[..n] == oldValue {
      ReplaceRemovesAll(text[n..], oldValue, newValue);
      NoOccurrenceAfterReplacement(newValue, Replace(text[n..], oldValue, newValue), oldValue);
    } else if text != [] {
      ReplaceRemovesAll(text[1..], oldValue, newValue);
      NoOccurrenceAfterKept(text, oldValue, newValue);
    }
  }

  /** `w` does not occur in `p + rest` if it does not occur in `rest` and no occurrence
      starts inside `p`. */
  lemma NoOccurrenceShift(p: string, rest: string, w: string)
    requires !Occurs(rest, w)
    requires forall k :: 0 <= k < |p| ==> !OccursAt(p + rest, w, k)
    ensures !Occurs(p + rest, w)
  {
    var r := p + rest;
    forall k | |p| <= k <= |r| - |w| ensures !OccursAt(r, w, k) {
      assert r[k..k + |w|] == rest[k - |p|..k - |p| + |w|];
      assert !OccursAt(rest, w, k - |p|);
    }
  }

  /** Putting a text that shares no character with `w` in front of a text free of `w`
      keeps it free of `w`. */
  lemma NoOccurrenceAfterReplacement(newValue: string, rest: string, w: string)
    requires |w| > 0 && |newValue| > 0
    requires forall c :: c in w ==> c !in newValue
    requires !Occurs(rest, w)
    ensures !Occurs(newValue + rest, w)
  {
    var r := newValue + rest;
    forall k | 0 <= k < |newValue| ensures !OccursAt(r, w, k) {
      if 0 <= k <= |r| - |w| {
        assert r[k..k + |w|][0] == newValue[k];
        assert w[0] in w;
      }
    }
    NoOccurrenceShift(newValue, rest, w);
  }

  /** A character kept because no match starts at it cannot begin an occurrence. */
  lemma NoOccurrenceAfterKept(text: string, oldValue: string, newValue: string)
    requires |oldValue| > 0 && |newValue| > 0 && text != []
    requires forall c :: c in oldValue ==> c !in newValue
    requires !(|oldValue| <= |text| && text[..|oldValue|] == oldValue)
    requires !Occurs(Replace(text[1..], oldValue, newValue), oldValue)
    ensures !Occurs(Replace(text, oldValue, newValue), oldValue)
  {
    var rest := Replace(text[1..], oldValue, newValue);
    assert Replace(text, oldValue, newValue) == [text[0]] + rest;
    KeptCharacterStartsNoOccurrence(text, oldValue, newValue);
    NoOccurrenceAfterCharacter(text[0], rest, oldValue);
  }

  /** `w` does not occur in `[c] + rest` if it does not occur in `rest` and does not
      start at `c`. */
  lemma NoOccurrenceAfterCharacter(c: char, rest: string, w: string)
    requires !Occurs(rest, w) && !OccursAt([c] + rest, w, 0)
    ensures !Occurs([c] + rest, w)
  {
    NoOccurrenceShift([c], rest, w);
  }

  lemma KeptCharacterStartsNoOccurrence(text: string, oldValue: string, newValue: string)
    requires |oldValue| > 0 && |newValue| > 0 && text != []
    requires forall c :: c in oldValue ==> c !in newValue
    requires !(|oldValue| <= |text| && text[..|oldValue|] == oldValue)
    ensures !OccursAt(Replace(text, oldValue, newValue), oldValue, 0)
  {
    var rest := Replace(text[1..], oldValue, newValue);
    var r := [text[0]] + rest;
    assert Replace(text, oldValue, newValue) == r;
    var n := |oldValue|;
    if n <= |r| && r[..n] == oldValue {
      PrefixOfTail(text[0], rest, oldValue);
      assert forall c :: c in oldValue[1..] ==> c in oldValue;
      ReplacePrefix(text[1..], oldValue, newValue, oldValue[1..]);
      assert false;
    }
  }

  /** A text in which the old value does not occur is left as it is. */
  lemma {:induction false} ReplaceWithoutOccurrence(text: string, oldValue: string, newValue: string)
    requires |oldValue| > 0 && !Occurs(text, oldValue)
    ensures Replace(text, oldValue, newValue) == text
    decreases |text|
  {
    if text != [] {
      assert !OccursAt(text, oldValue, 0);
      forall k | OccursAt(text[1..], oldValue, k) ensures OccursAt(text, oldValue, k + 1) {
        assert text[k + 1..k + 1 + |oldValue|] == text[1..][k..k + |oldValue|];
      }
      ReplaceWithoutOccurrence(text[1..], oldValue, newValue);
      assert [text[0]] + text[1..] == text;
    }
  }

  /** The first occurrence, scanning left to right, is replaced by the new value: when the
      old value does not occur in `a` nor straddle the boundary into it, the text before
      it is kept as it is and the scan resumes right after it. With
      `ReplaceWithoutOccurrence` this determines `Replace` on every text. */
  lemma {:induction false} ReplaceFirst(a: string, b: string, oldValue: string, newValue: string)
    requires |oldValue| > 0 && !Occurs(a + oldValue[..|oldValue| - 1], oldValue)
    ensures Replace(a + oldValue + b, oldValue, newValue) == a + newValue + Replace(b, oldValue, newValue)
    decreases |a|
  {
    var n := |oldValue|;
    var text := a + oldValue + b;
    if a == [] {
      assert text == oldValue + b;
      assert text[..n] == oldValue;
    } else {
      var head := a + oldValue[..n - 1];
      var a' := a[1..];
      assert head[1..] == a' + oldValue[..n - 1];
      NotOccursInTail(head, oldValue);
      ReplaceFirst(a', b, oldValue, newValue);
      assert text[1..] == a' + oldValue + b;
      assert !(text[..n] == oldValue) by {
        assert text[..n] == head[..n];
        assert !OccursAt(head, oldValue, 0);
      }
      ReplaceKeep(text, oldValue, newValue);
      Assoc([a[0]], a' + newValue, Replace(b, oldValue, newValue));
      assert [a[0]] + (a' + newValue) == a + newValue;
    }
  }

  /** A value absent from a text is absent from the text's tail. */
  lemma NotOccursInTail(t: string, w: string)
    requires |t| > 0 && !Occurs(t, w)
    ensures !Occurs(t[1..], w)
  {
    forall k | OccursAt(t[1..], w, k) ensures OccursAt(t, w, k + 1) {
      assert t[k + 1..k + 1 + |w|] == t[1..][k..k + |w|];
    }
  }

  /** Where the text does not start with the old value, its first character is kept. */
  lemma ReplaceKeep(text: string, oldValue: string, newValue: string)
    requires |oldValue| > 0 && |oldValue| <= |text| && text[..|oldValue|] != oldValue
    ensures Replace(text, oldValue, newValue) == [text[0]] + Replace(text[1..], oldValue, newValue)
  {
  }

  /** Concatenation is associative; a hint for regrouping a chain of appends. */
  lemma Assoc<T>(a: seq<T>, b: seq<T>, c: seq<T>)
    ensures a + b + c == a + (b + c)
  {
  }
}
