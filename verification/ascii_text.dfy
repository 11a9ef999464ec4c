/** ASCII models of the Python string primitives the transform is built from:
    `str.isspace`, `strip`, `upper`, `lower`, `title`, `split()` and the
    substring test `k in s`. Characters outside ASCII pass through unchanged. */
module AsciiText {

  /** Python's `str.isspace` on ASCII: space, \t \n \v \f \r and the four
      information separators 0x1C-0x1F. */
  predicate IsSpace(c: char) {
    c == ' ' || ('\t' <= c <= '\r') || ('\U{1C}' <= c <= '\U{1F}')
  }

  predicate IsUpperLetter(c: char) { 'A' <= c <= 'Z' }
  predicate IsLowerLetter(c: char) { 'a' <= c <= 'z' }
  predicate IsLetter(c: char) { IsUpperLetter(c) || IsLowerLetter(c) }

  function UpperChar(c: char): char {
    if IsLowerLetter(c) then (c as int - 32) as char else c
  }

  function LowerChar(c: char): char {
    if IsUpperLetter(c) then (c as int + 32) as char else c
  }

  /** Two characters are the same letter, or the same non-letter. */
  predicate SameIgnoringCase(a: char, b: char) { LowerChar(a) == LowerChar(b) }

  predicate AllSpace(s: string) { forall i :: 0 <= i < |s| ==> IsSpace(s[i]) }
  predicate NoSpace(s: string) { forall i :: 0 <= i < |s| ==> !IsSpace(s[i]) }

  // ---------------------------------------------------------------------------
  // Case mapping
  // ---------------------------------------------------------------------------

  /** `s.upper()`: the same text with no lower-case letter left. */
  function Upper(s: string): (r: string)
    ensures |r| == |s|
    ensures forall i :: 0 <= i < |s| ==> SameIgnoringCase(r[i], s[i]) && !IsLowerLetter(r[i])
    ensures forall i :: 0 <= i < |s| ==> (IsSpace(r[i]) <==> IsSpace(s[i]))
  {
    seq(|s|, i requires 0 <= i < |s| => UpperChar(s[i]))
  }

  /** `s.lower()`: the same text with no upper-case letter left. */
  function Lower(s: string): (r: string)
    ensures |r| == |s|
    ensures forall i :: 0 <= i < |s| ==> SameIgnoringCase(r[i], s[i]) && !IsUpperLetter(r[i])
    ensures forall i :: 0 <= i < |s| ==> (IsSpace(r[i]) <==> IsSpace(s[i]))
  {
    seq(|s|, i requires 0 <= i < |s| => LowerChar(s[i]))
  }

  /** Position `i` opens a run of letters: Python's `title` keeps a
      "previous character is cased" flag, and only letters are cased in ASCII. */
  predicate StartsWord(s: string, i: int)
    requires 0 <= i < |s|
  {
    i == 0 || !IsLetter(s[i - 1])
  }

  function TitleChar(s: string, i: int): char
    requires 0 <= i < |s|
  {
    if StartsWord(s, i) then UpperChar(s[i]) else LowerChar(s[i])
  }

  /** `s.title()`: only the case of letters changes, and a letter is upper-case
      exactly when it opens a run of letters. */
  function Title(s: string): (r: string)
    ensures |r| == |s|
    ensures forall i :: 0 <= i < |s| ==> SameIgnoringCase(r[i], s[i])
    ensures forall i :: 0 <= i < |s| ==> (IsSpace(r[i]) <==> IsSpace(s[i])) && (IsLetter(r[i]) <==> IsLetter(s[i]))
    ensures forall i :: 0 <= i < |s| && IsLetter(s[i]) ==> (IsUpperLetter(r[i]) <==> StartsWord(s, i))
  {
    seq(|s|, i requires 0 <= i < |s| => TitleChar(s, i))
  }

  lemma UpperIdempotent(s: string)
    ensures Upper(Upper(s)) == Upper(s)
  {
  }

  lemma UpperAfterCaseChange(c: char)
    ensures UpperChar(UpperChar(c)) == UpperChar(c)
    ensures UpperChar(LowerChar(c)) == UpperChar(c)
  {
  }

  /** Upper-casing forgets whatever `title` did. */
  lemma UpperOfTitle(s: string)
    ensures Upper(Title(s)) == Upper(s)
  {
    var t := Title(s);
    forall i | 0 <= i < |s|
      ensures UpperChar(t[i]) == UpperChar(s[i])
    {
      UpperAfterCaseChange(s[i]);
    }
  }

  lemma UpperOfPrefix(s: string, n: nat)
    requires n <= |s|
    ensures Upper(s[..n]) == Upper(s)[..n]
  {
  }

  /** `title` looks only backwards, so it commutes with taking a prefix. */
  lemma TitleOfPrefix(s: string, n: nat)
    requires n <= |s|
    ensures Title(s[..n]) == Title(s)[..n]
  {
  }

  /** Text without lower-case letters is unchanged by `upper`. */
  lemma UpperOfNoLower(k: string)
    requires forall i :: 0 <= i < |k| ==> !IsLowerLetter(k[i])
    ensures Upper(k) == k
  {
  }

  lemma LowerOfNoUpper(k: string)
    requires forall i :: 0 <= i < |k| ==> !IsUpperLetter(k[i])
    ensures Lower(k) == k
  {
  }

  // ---------------------------------------------------------------------------
  // strip()
  // ---------------------------------------------------------------------------

  /** Drops leading whitespace: the result is the suffix that starts at the
      first non-space character. */
  function TrimStart(s: string): (r: string)
    ensures |r| <= |s| && r == s[|s| - |r|..]
    ensures AllSpace(s[..|s| - |r|])
    ensures r == [] || !IsSpace(r[0])
  {
    if |s| > 0 && IsSpace(s[0]) then
      var r := TrimStart(s[1..]);
      assert s[..|s| - |r|] == [s[0]] + s[1..][..|s| - 1 - |r|];
      r
    else
      s
  }

  /** Drops trailing whitespace: the result is the prefix that ends at the
      last non-space character. */
  function TrimEnd(s: string): (r: string)
    ensures |r| <= |s| && r == s[..|r|]
    ensures AllSpace(s[|r|..])
    ensures r == [] || !IsSpace(r[|r| - 1])
  {
    if |s| > 0 && IsSpace(s[|s| - 1]) then
      var r := TrimEnd(s[..|s| - 1]);
      assert s[|r|..] == s[..|s| - 1][|r|..] + [s[|s| - 1]];
      r
    else
      s
  }

  /** `s.strip()`. */
  function Strip(s: string): (r: string)
    ensures |r| <= |s|
    ensures r == [] <==> AllSpace(s)
    ensures r != [] ==> !IsSpace(r[0]) && !IsSpace(r[|r| - 1])
  {
    var t := TrimStart(s);
    var r := TrimEnd(t);
    assert t != [] ==> !AllSpace(s) by {
      if t != [] {
        assert t[0] == s[|s| - |t|];
      }
    }
    assert r == [] ==> AllSpace(s) by {
      if r == [] {
        assert s == s[..|s| - |t|] + t;
        assert t == t[0..];
      }
    }
    r
  }

  lemma {:induction false} TrimStartOfSpaces(a: string, rest: string)
    requires AllSpace(a)
    requires rest == [] || !IsSpace(rest[0])
    ensures TrimStart(a + rest) == rest
    decreases |a|
  {
    if a != [] {
      assert (a + rest)[1..] == a[1..] + rest;
      TrimStartOfSpaces(a[1..], rest);
    }
  }

  lemma {:induction false} TrimEndOfSpaces(rest: string, b: string)
    requires AllSpace(b)
    requires rest == [] || !IsSpace(rest[|rest| - 1])
    ensures TrimEnd(rest + b) == rest
    decreases |b|
  {
    if b != [] {
      assert (rest + b)[..|rest + b| - 1] == rest + b[..|b| - 1];
      TrimEndOfSpaces(rest, b[..|b| - 1]);
    }
  }

  /** `strip` removes exactly the surrounding whitespace: a text with no space
      at either end, padded by any whitespace, strips back to itself. */
  lemma StripUnique(a: string, m: string, b: string)
    requires AllSpace(a) && AllSpace(b)
    requires m == [] || (!IsSpace(m[0]) && !IsSpace(m[|m| - 1]))
    ensures Strip(a + m + b) == m
  {
    if m == [] {
      assert a + m + b == a + b;
      assert AllSpace(a + b);
    } else {
      assert a + m + b == a + (m + b);
      TrimStartOfSpaces(a, m + b);
      TrimEndOfSpaces(m, b);
    }
  }

  /** A text that neither starts nor ends with whitespace strips to itself. */
  lemma StripUnpadded(s: string)
    requires s == [] || (!IsSpace(s[0]) && !IsSpace(s[|s| - 1]))
    ensures Strip(s) == s
  {
    assert [] + s + [] == s;
    StripUnique([], s, []);
  }

  lemma StripNoSpace(s: string)
    requires NoSpace(s)
    ensures Strip(s) == s
  {
    assert [] + s + [] == s;
    StripUnique([], s, []);
  }

  // ---------------------------------------------------------------------------
  // split()
  // ---------------------------------------------------------------------------

  /** `w` is the first whitespace-delimited word of `s`, where `s` does not
      start with whitespace: a non-empty space-free prefix that ends at the end
      of `s` or at a whitespace character. */
  predicate IsFirstWord(w: string, s: string) {
    && w != []
    && NoSpace(w)
    && |w| <= |s|
    && w == s[..|w|]
    && (|w| == |s| || IsSpace(s[|w|]))
  }

  /** The longest space-free prefix of `s`. */
  function TakeWord(s: string): (w: string)
    ensures |w| <= |s| && w == s[..|w|] && NoSpace(w)
    ensures |w| == |s| || IsSpace(s[|w|])
  {
    if |s| == 0 || IsSpace(s[0]) then [] else [s[0]] + TakeWord(s[1..])
  }

  /** `s.split()` with no separator: the maximal runs of non-space characters. */
  function Split(s: string): (r: seq<string>)
    ensures forall j :: 0 <= j < |r| ==> r[j] != [] && NoSpace(r[j])
    ensures r == [] <==> AllSpace(s)
    ensures r != [] && !IsSpace(s[0]) ==> IsFirstWord(r[0], s)
    decreases |s|
  {
    if s == [] then
      []
    else if IsSpace(s[0]) then
      assert AllSpace(s) <==> AllSpace(s[1..]) by {
        if AllSpace(s[1..]) {
          assert forall i :: 1 <= i < |s| ==> s[i] == s[1..][i - 1];
        }
      }
      Split(s[1..])
    else
      var w := TakeWord(s);
      [w] + Split(s[|w|..])
  }

  /** `s.split()[0]` for a text that starts with a non-space character. */
  function FirstWord(s: string): (w: string)
    requires s != [] && !IsSpace(s[0])
    ensures IsFirstWord(w, s)
  {
    Split(s)[0]
  }

  /** A space-free, non-empty text is its own only word. */
  lemma SplitOfWord(w: string)
    requires w != [] && NoSpace(w)
    ensures Split(w) == [w]
  {
    assert TakeWord(w) == w;
    assert w[|w|..] == [];
  }

  /** A text has only one first word. */
  lemma FirstWordUnique(w1: string, w2: string, s: string)
    requires IsFirstWord(w1, s) && IsFirstWord(w2, s)
    ensures w1 == w2
  {
    forall n | 0 <= n < |s| && n < |w1| && n < |w2|
      ensures w1[n] == w2[n]
    {
      assert w1[n] == s[n] == w2[n];
    }
  }

  function Concat(ws: seq<string>): string {
    if ws == [] then [] else ws[0] + Concat(ws[1..])
  }

  /** The text with every whitespace character deleted. */
  function RemoveSpaces(s: string): string {
    if s == [] then [] else (if IsSpace(s[0]) then [] else [s[0]]) + RemoveSpaces(s[1..])
  }

  lemma {:induction false} RemoveSpacesAppend(a: string, b: string)
    ensures RemoveSpaces(a + b) == RemoveSpaces(a) + RemoveSpaces(b)
    decreases |a|
  {
    if a == [] {
      assert a + b == b;
    } else {
      assert (a + b)[1..] == a[1..] + b;
      RemoveSpacesAppend(a[1..], b);
    }
  }

  lemma {:induction false} RemoveSpacesOfSpaces(s: string)
    requires AllSpace(s)
    ensures RemoveSpaces(s) == []
    decreases |s|
  {
    if s != [] {
      RemoveSpacesOfSpaces(s[1..]);
    }
  }

  lemma {:induction false} RemoveSpacesOfWord(s: string)
    requires NoSpace(s)
    ensures RemoveSpaces(s) == s
    decreases |s|
  {
    if s != [] {
      RemoveSpacesOfWord(s[1..]);
    }
  }

  /** `split()` loses nothing but whitespace: its words, concatenated, are the
      text with every whitespace character removed. */
  lemma {:induction false} SplitKeepsEveryNonSpace(s: string)
    ensures Concat(Split(s)) == RemoveSpaces(s)
    decreases |s|
  {
    if s == [] {
    } else if IsSpace(s[0]) {
      SplitKeepsEveryNonSpace(s[1..]);
    } else {
      var w := TakeWord(s);
      var rest := s[|w|..];
      assert s == w + rest;
      RemoveSpacesAppend(w, rest);
      RemoveSpacesOfWord(w);
      SplitKeepsEveryNonSpace(rest);
      var r := Split(s);
      assert r == [w] + Split(rest);
      assert r[1..] == Split(rest);
    }
  }

  // ---------------------------------------------------------------------------
  // Substring test `k in s`
  // ---------------------------------------------------------------------------

  predicate OccursAt(s: string, k: string, i: int) {
    0 <= i && i + |k| <= |s| && s[i..i + |k|] == k
  }

  /** Python's `k in s` on strings. */
  predicate Contains(s: string, k: string) {
    exists i | 0 <= i <= |s| :: OccursAt(s, k, i)
  }

  lemma ContainsSelf(k: string)
    ensures Contains(k, k)
  {
    assert OccursAt(k, k, 0);
  }

  /** A substring of a substring is a substring. */
  lemma ContainsTransitive(s: string, m: string, k: string)
    requires Contains(s, m) && Contains(m, k)
    ensures Contains(s, k)
  {
    var i :| 0 <= i <= |s| && OccursAt(s, m, i);
    var j :| 0 <= j <= |m| && OccursAt(m, k, j);
    var a, b := s[i + j..i + j + |k|], s[i..i + |m|][j..j + |k|];
    forall t | 0 <= t < |k|
      ensures a[t] == b[t]
    {
    }
    assert a == b;
    assert OccursAt(s, k, i + j);
  }

  /** A text lacking one of the characters of `k` cannot contain `k`. */
  lemma MissingCharNotContained(s: string, k: string, c: char)
    requires c in k && c !in s
    ensures !Contains(s, k)
  {
    var j :| 0 <= j < |k| && k[j] == c;
    forall i | 0 <= i <= |s|
      ensures !OccursAt(s, k, i)
    {
      if i + |k| <= |s| {
        assert s[i..i + |k|][j] == s[i + j];
        assert s[i + j] in s;
      }
    }
  }

  // ---------------------------------------------------------------------------
  // Fields between separators
  // ---------------------------------------------------------------------------

  /** The fields of `s` between occurrences of `sep`, as `s.split(sep)` gives them. */
  function SplitOn(s: string, sep: char): (r: seq<string>)
    ensures |r| >= 1
    ensures forall j :: 0 <= j < |r| ==> sep !in r[j]
  {
    if s == [] then
      [[]]
    else
      var rest := SplitOn(s[1..], sep);
      if s[0] == sep then [[]] + rest else [[s[0]] + rest[0]] + rest[1..]
  }

  /** `sep.join(parts)`. */
  function JoinWith(parts: seq<string>, sep: char): string
    requires |parts| >= 1
  {
    if |parts| == 1 then parts[0] else parts[0] + [sep] + JoinWith(parts[1..], sep)
  }

  /** Splitting loses nothing: joining the fields back gives the text. */
  lemma {:induction false} JoinSplitOn(s: string, sep: char)
    ensures JoinWith(SplitOn(s, sep), sep) == s
    decreases |s|
  {
    if s != [] {
      JoinSplitOn(s[1..], sep);
      var rest := SplitOn(s[1..], sep);
      if s[0] == sep {
        assert SplitOn(s, sep)[1..] == rest;
      } else if |rest| == 1 {
        assert s == [s[0]] + s[1..];
      } else {
        var r := SplitOn(s, sep);
        assert r[1..] == rest[1..];
        assert JoinWith(rest, sep) == rest[0] + [sep] + JoinWith(rest[1..], sep);
        assert s == [s[0]] + s[1..];
      }
    }
  }

  lemma {:induction false} SplitOnNoSep(a: string, sep: char)
    requires sep !in a
    ensures SplitOn(a, sep) == [a]
    decreases |a|
  {
    if a != [] {
      SplitOnNoSep(a[1..], sep);
      assert [a[0]] + a[1..] == a;
    }
  }

  lemma {:induction false} SplitOnField(a: string, b: string, sep: char)
    requires sep !in a
    ensures SplitOn(a + [sep] + b, sep) == [a] + SplitOn(b, sep)
    decreases |a|
  {
    var s := a + [sep] + b;
    if a == [] {
      assert s[1..] == b;
    } else {
      assert s[1..] == a[1..] + [sep] + b;
      SplitOnField(a[1..], b, sep);
      assert [a[0]] + a[1..] == a;
    }
  }

  /** Joining separator-free fields and splitting again gives the fields back. */
  lemma {:induction false} SplitOnJoinWith(parts: seq<string>, sep: char)
    requires |parts| >= 1
    requires forall j :: 0 <= j < |parts| ==> sep !in parts[j]
    ensures SplitOn(JoinWith(parts, sep), sep) == parts
    decreases |parts|
  {
    if |parts| == 1 {
      SplitOnNoSep(parts[0], sep);
    } else {
      SplitOnJoinWith(parts[1..], sep);
      SplitOnField(parts[0], JoinWith(parts[1..], sep), sep);
      assert [parts[0]] + parts[1..] == parts;
    }
  }
}
