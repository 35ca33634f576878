/** The JavaScript string built-ins the scaffolder relies on (`includes`,
    `charAt`, `slice`, `substring`, `lastIndexOf`, `split`, `join`,
    `toUpperCase`, `toLowerCase`), with their edge cases written out:
    `split` never returns an empty array, `lastIndexOf` answers -1 when the
    character is absent, and `substring` clamps a negative index to 0.
    Strings are sequences of characters; case mapping is limited to ASCII. */
module JsString {

  // ---------------------------------------------------------------------
  // Counting and searching
  // ---------------------------------------------------------------------

  /** Number of occurrences of `c` in `s`. */
  function Count(s: seq<char>, c: char): (n: nat)
    ensures n <= |s|
    ensures n == 0 <==> c !in s
  {
    if s == [] then 0 else (if s[0] == c then 1 else 0) + Count(s[1..], c)
  }

  lemma {:induction false} CountAppend(a: seq<char>, b: seq<char>, c: char)
    ensures Count(a + b, c) == Count(a, c) + Count(b, c)
  {
    if a == [] {
      assert a + b == b;
    } else {
      assert (a + b)[1..] == a[1..] + b;
      CountAppend(a[1..], b, c);
    }
  }

  /** `s.lastIndexOf(c)`: the index of the last `c` in `s`, or -1. */
  function LastIndexOf(s: seq<char>, c: char): (i: int)
    ensures -1 <= i < |s|
    ensures i == -1 <==> c !in s
    ensures 0 <= i ==> s[i] == c && c !in s[i + 1..]
  {
    if s == [] then -1
    else if s[|s| - 1] == c then |s| - 1
    else
      assert s == s[..|s| - 1] + [s[|s| - 1]];
      LastIndexOf(s[..|s| - 1], c)
  }

  /** The last occurrence is unique: any `c` with no `c` after it is the one
      `LastIndexOf` finds. */
  lemma LastIndexOfUnique(s: seq<char>, c: char, i: nat)
    requires i < |s| && s[i] == c && c !in s[i + 1..]
    ensures LastIndexOf(s, c) == i
  {
  }

  // ---------------------------------------------------------------------
  // Slicing
  // ---------------------------------------------------------------------

  function Clamp(x: int, hi: nat): (r: nat)
    ensures r <= hi
  {
    if x < 0 then 0 else if x > hi then hi else x
  }

  /** `s.charAt(i)`: the one-character string at `i`, or "" out of range. */
  function CharAt(s: seq<char>, i: nat): (r: seq<char>)
    ensures i < |s| ==> r == [s[i]]
    ensures |s| <= i ==> r == []
  {
    if i < |s| then [s[i]] else []
  }

  /** `s.slice(start)` for a non-negative start: the suffix from `start`,
      empty when `start` is past the end. */
  function Slice(s: seq<char>, start: nat): (r: seq<char>)
    ensures start <= |s| ==> r == s[start..]
    ensures |s| <= start ==> r == []
  {
    if start <= |s| then s[start..] else []
  }

  /** `s.substring(start, end)`: both indices are clamped into `[0, |s|]`
      (a negative index becomes 0), and they are swapped when the first is
      the larger. */
  function Substring(s: seq<char>, start: int, end: int): (r: seq<char>)
    ensures 0 <= start <= end <= |s| ==> r == s[start..end]
    ensures 0 <= end <= start <= |s| ==> r == s[end..start]
    ensures start <= 0 && 0 <= end <= |s| ==> r == s[..end]
    ensures start <= 0 && end <= 0 ==> r == []
    ensures 0 <= start <= |s| <= end ==> r == s[start..]
    ensures |r| <= |s|
  {
    var a, b := Clamp(start, |s|), Clamp(end, |s|);
    if a <= b then s[a..b] else s[b..a]
  }

  // ---------------------------------------------------------------------
  // Splitting and joining
  // ---------------------------------------------------------------------

  /** `s.split(sep)` for a one-character separator: the maximal runs between
      separators, in order. Leading, trailing and doubled separators produce
      empty fragments, and the result is never empty (`"".split(sep)` is
      `[""]`). */
  function Split(s: seq<char>, sep: char): (parts: seq<seq<char>>)
    ensures |parts| >= 1
  {
    if s == [] then [[]]
    else if s[0] == sep then [[]] + Split(s[1..], sep)
    else
      var rest := Split(s[1..], sep);
      [[s[0]] + rest[0]] + rest[1..]
  }

  /** No part holds `c`. */
  predicate NonePartHolds(parts: seq<seq<char>>, c: char)
  {
    forall k :: 0 <= k < |parts| ==> c !in parts[k]
  }

  /** There is one fragment more than there are separators, and no fragment
      holds a separator. */
  lemma {:induction false} SplitFragments(s: seq<char>, sep: char)
    ensures |Split(s, sep)| == Count(s, sep) + 1
    ensures forall k :: 0 <= k < |Split(s, sep)| ==> sep !in Split(s, sep)[k]
  {
    if s != [] {
      SplitFragments(s[1..], sep);
      var rest := Split(s[1..], sep);
      assert NonePartHolds(rest, sep);
      if s[0] != sep {
        assert Split(s, sep) == [[s[0]] + rest[0]] + rest[1..];
        NonePartHoldsExtendFirst(s[0], rest, sep);
      } else {
        assert Split(s, sep) == [[]] + rest;
        NonePartHoldsEmptyFirst(rest, sep);
      }
      assert NonePartHolds(Split(s, sep), sep);
    }
  }

  lemma NonePartHoldsExtendFirst(c: char, parts: seq<seq<char>>, sep: char)
    requires |parts| >= 1 && c != sep && NonePartHolds(parts, sep)
    ensures NonePartHolds([[c] + parts[0]] + parts[1..], sep)
  {
    var q := [[c] + parts[0]] + parts[1..];
    assert forall k :: 1 <= k < |q| ==> q[k] == parts[k];
  }

  lemma NonePartHoldsEmptyFirst(parts: seq<seq<char>>, sep: char)
    requires NonePartHolds(parts, sep)
    ensures NonePartHolds([[]] + parts, sep)
  {
    var q := [[]] + parts;
    assert forall k :: 1 <= k < |q| ==> q[k] == parts[k - 1];
  }

  /** Splitting text joined at a separator splits each side on its own:
      the separator ends the last fragment of `a` and starts the first of
      `b`. */
  lemma {:induction false} SplitAtSeparator(a: seq<char>, b: seq<char>, sep: char)
    ensures Split(a + [sep] + b, sep) == Split(a, sep) + Split(b, sep)
  {
    if a == [] {
      assert a + [sep] + b == [sep] + b;
      assert ([sep] + b)[1..] == b;
    } else {
      var t := a + [sep] + b;
      assert t[0] == a[0] && t[1..] == a[1..] + [sep] + b;
      SplitAtSeparator(a[1..], b, sep);
      if a[0] != sep {
        ExtendFirstFragment([a[0]], Split(a[1..], sep), Split(b, sep));
      }
    }
  }

  /** Extending the first fragment commutes with appending more fragments. */
  lemma ExtendFirstFragment(x: seq<char>, left: seq<seq<char>>, right: seq<seq<char>>)
    requires |left| >= 1
    ensures [x + (left + right)[0]] + (left + right)[1..] == ([x + left[0]] + left[1..]) + right
  {
    assert (left + right)[1..] == left[1..] + right;
  }

  /** `parts.join(sep)`: the parts in order with `sep` between neighbours.
      `JoinSplit` and `JoinEmptyCons` state what it computes. */
  function Join(parts: seq<seq<char>>, sep: seq<char>): seq<char>
  {
    if |parts| == 0 then []
    else if |parts| == 1 then parts[0]
    else parts[0] + sep + Join(parts[1..], sep)
  }

  /** Joining the fragments back with the separator gives the original
      string: `s.split(sep).join(sep) == s`. */
  lemma {:induction false} JoinSplit(s: seq<char>, sep: char)
    ensures Join(Split(s, sep), [sep]) == s
  {
    if s != [] {
      JoinSplit(s[1..], sep);
      if s[0] == sep {
        JoinSplitAtSeparator(s, sep);
      } else {
        JoinSplitInFragment(s, sep);
      }
    }
  }

  /** Induction step of `JoinSplit` at a separator. */
  lemma JoinSplitAtSeparator(s: seq<char>, sep: char)
    requires s != [] && s[0] == sep
    requires Join(Split(s[1..], sep), [sep]) == s[1..]
    ensures Join(Split(s, sep), [sep]) == s
  {
    var rest := Split(s[1..], sep);
    assert Split(s, sep) == [[]] + rest;
    JoinCons([], rest, [sep]);
    assert s == [sep] + s[1..];
  }

  /** Induction step of `JoinSplit` inside a fragment. */
  lemma JoinSplitInFragment(s: seq<char>, sep: char)
    requires s != [] && s[0] != sep
    requires Join(Split(s[1..], sep), [sep]) == s[1..]
    ensures Join(Split(s, sep), [sep]) == s
  {
    var rest := Split(s[1..], sep);
    assert Split(s, sep) == [[s[0]] + rest[0]] + rest[1..];
    JoinExtendFirst(s[0], rest, [sep]);
    assert s == [s[0]] + s[1..];
  }

  /** Putting a character in front of the first part puts it in front of
      the joined text. */
  lemma JoinExtendFirst(c: char, parts: seq<seq<char>>, sep: seq<char>)
    requires |parts| >= 1
    ensures Join([[c] + parts[0]] + parts[1..], sep) == [c] + Join(parts, sep)
  {
    assert parts == [parts[0]] + parts[1..];
    JoinCons(parts[0], parts[1..], sep);
    JoinCons([c] + parts[0], parts[1..], sep);
  }

  /** Joining one more part in front. */
  lemma JoinCons(p: seq<char>, parts: seq<seq<char>>, sep: seq<char>)
    ensures parts == [] ==> Join([p] + parts, sep) == p
    ensures parts != [] ==> Join([p] + parts, sep) == p + sep + Join(parts, sep)
  {
    assert ([p] + parts)[1..] == parts;
  }

  /** A string without the separator splits into itself alone. */
  lemma {:induction false} SplitWithoutSeparator(s: seq<char>, sep: char)
    requires sep !in s
    ensures Split(s, sep) == [s]
  {
    if s != [] {
      SplitWithoutSeparator(s[1..], sep);
      assert s == [s[0]] + s[1..];
    }
  }

  /** With the empty separator, joining is plain concatenation, one part at a
      time. */
  lemma JoinEmptyCons(parts: seq<seq<char>>)
    requires |parts| >= 1
    ensures Join(parts, []) == parts[0] + Join(parts[1..], [])
  {
  }

  // ---------------------------------------------------------------------
  // ASCII case mapping
  // ---------------------------------------------------------------------

  predicate IsAsciiLower(c: char) { 'a' <= c <= 'z' }
  predicate IsAsciiUpper(c: char) { 'A' <= c <= 'Z' }
  predicate IsAsciiLetter(c: char) { IsAsciiLower(c) || IsAsciiUpper(c) }

  /** Upper-cases an ASCII letter; every other character is unchanged. */
  function UpperChar(c: char): (r: char)
    ensures IsAsciiLower(c) ==> IsAsciiUpper(r) && r as int == c as int - 32
    ensures !IsAsciiLower(c) ==> r == c
  {
    if IsAsciiLower(c) then (c as int - 32) as char else c
  }

  /** Lower-cases an ASCII letter; every other character is unchanged. */
  function LowerChar(c: char): (r: char)
    ensures IsAsciiUpper(c) ==> IsAsciiLower(r) && r as int == c as int + 32
    ensures !IsAsciiUpper(c) ==> r == c
  {
    if IsAsciiUpper(c) then (c as int + 32) as char else c
  }

  /** `s.toUpperCase()`, limited to ASCII letters. */
  function ToUpper(s: seq<char>): (r: seq<char>)
    ensures |r| == |s|
    ensures forall k :: 0 <= k < |s| ==> r[k] == UpperChar(s[k])
  {
    if s == [] then [] else [UpperChar(s[0])] + ToUpper(s[1..])
  }

  /** `s.toLowerCase()`, limited to ASCII letters. */
  function ToLower(s: seq<char>): (r: seq<char>)
    ensures |r| == |s|
    ensures forall k :: 0 <= k < |s| ==> r[k] == LowerChar(s[k])
  {
    if s == [] then [] else [LowerChar(s[0])] + ToLower(s[1..])
  }

  /** Case mapping never creates or removes a character that is not a
      letter, such as a separator. */
  lemma CaseKeepsNonLetters(c: char, x: char)
    requires !IsAsciiLetter(x)
    ensures UpperChar(c) == x <==> c == x
    ensures LowerChar(c) == x <==> c == x
  {
  }

  /** Upper-casing is idempotent. */
  lemma UpperCharIdempotent(c: char)
    ensures UpperChar(UpperChar(c)) == UpperChar(c)
  {
  }
}
