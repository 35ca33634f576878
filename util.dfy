/** The two project-name converters of the scaffolder. A snake_case or
    dash-case name is split on its separator; each fragment gets its first
    character upper-cased and the rest lower-cased, and the fragments are
    joined with nothing between them. The two converters differ when the
    separator is absent: the snake variant still upper-cases the first
    character, the dash variant returns its input as it is. The snake variant
    names the Rust error type `<Title>Error` of the generated project. */
module Util {
  import opened JsString

  // ---------------------------------------------------------------------
  // The converters, as written
  // ---------------------------------------------------------------------

  /** `word.charAt(0).toUpperCase() + word.slice(1).toLowerCase()`. */
  function TitleWord(w: seq<char>): (r: seq<char>)
    ensures |r| == |w|
    ensures w == [] ==> r == []
  {
    ToUpper(CharAt(w, 0)) + ToLower(Slice(w, 1))
  }

  /** `words.map(TitleWord)`. */
  function TitleWords(words: seq<seq<char>>): (r: seq<seq<char>>)
    ensures |r| == |words|
    ensures forall k {:trigger r[k]} :: 0 <= k < |words| ==> r[k] == TitleWord(words[k])
  {
    if words == [] then [] else [TitleWord(words[0])] + TitleWords(words[1..])
  }

  /** `s.split(sep).map(TitleWord).join('')`, the branch both converters take
      when the separator occurs. Without the separator the name is a single
      fragment, and it comes out title-cased. */
  function TitleCaseFragments(s: seq<char>, sep: char): (r: seq<char>)
    ensures sep !in s ==> r == TitleWord(s)
  {
    var parts := Split(s, sep);
    assert sep !in s ==> parts == [s] by {
      if sep !in s {
        SplitWithoutSeparator(s, sep);
      }
    }
    Join(TitleWords(parts), [])
  }

  /** `s.charAt(0).toUpperCase() + s.slice(1)`: the snake converter's branch
      for a name without `_`. */
  function UpperFirst(s: seq<char>): (r: seq<char>)
    ensures |r| == |s|
    ensures s != [] ==> r[0] == UpperChar(s[0]) && r[1..] == s[1..]
  {
    ToUpper(CharAt(s, 0)) + Slice(s, 1)
  }

  /** `snakeCaseToTitleCase`. */
  function SnakeCaseToTitleCase(s: seq<char>): (r: seq<char>)
    ensures '_' in s ==> '_' !in r
    ensures |r| == |s| - Count(s, '_')
    ensures r != [] ==> UpperChar(r[0]) == r[0]
    ensures '_' !in s && s != [] ==> r[0] == UpperChar(s[0]) && r[1..] == s[1..]
  {
    if '_' in s then
      FragmentsMatchScan(s, '_');
      ScanShape(s, '_', true);
      TitleCaseFragments(s, '_')
    else
      UpperFirst(s)
  }

  /** `dashCaseToTitleCase`. */
  function DashCaseToTitleCase(s: seq<char>): (r: seq<char>)
    ensures '-' in s ==> '-' !in r
    ensures '-' !in s ==> r == s
    ensures |r| == |s| - Count(s, '-')
  {
    if '-' in s then
      FragmentsMatchScan(s, '-');
      ScanShape(s, '-', true);
      TitleCaseFragments(s, '-')
    else
      s
  }

  // ---------------------------------------------------------------------
  // An independent reading: one pass over the characters
  // ---------------------------------------------------------------------

  /** The conversion read one character at a time: a separator disappears
      and starts a new word; the first character of a word is upper-cased,
      every later one lower-cased. `atWordStart` is true at the start of the
      string and right after a separator. */
  function Scan(s: seq<char>, sep: char, atWordStart: bool): seq<char>
  {
    if s == [] then []
    else if s[0] == sep then Scan(s[1..], sep, true)
    else [if atWordStart then UpperChar(s[0]) else LowerChar(s[0])]
         + Scan(s[1..], sep, false)
  }

  /** The split / map / join pipeline computes exactly the one-pass reading.
      In the middle of a word the pass lower-cases the rest of the current
      fragment and then continues with the remaining fragments. */
  lemma {:induction false} FragmentsMatchScan(s: seq<char>, sep: char)
    ensures TitleCaseFragments(s, sep) == Scan(s, sep, true)
    ensures Scan(s, sep, false)
         == ToLower(Split(s, sep)[0]) + Join(TitleWords(Split(s, sep)[1..]), [])
  {
    if s == [] {
      assert ToLower([]) == [];
    } else {
      FragmentsMatchScan(s[1..], sep);
      if s[0] == sep {
        FragmentsAfterSeparator(s, sep);
      } else {
        FragmentsInWord(s, sep);
        FragmentsInWordMid(s, sep);
      }
    }
  }

  /** Induction step of `FragmentsMatchScan` at a separator. */
  lemma FragmentsAfterSeparator(s: seq<char>, sep: char)
    requires s != [] && s[0] == sep
    requires TitleCaseFragments(s[1..], sep) == Scan(s[1..], sep, true)
    ensures TitleCaseFragments(s, sep) == Scan(s, sep, true)
    ensures Scan(s, sep, false)
         == ToLower(Split(s, sep)[0]) + Join(TitleWords(Split(s, sep)[1..]), [])
  {
    var parts := Split(s, sep);
    assert parts == [[]] + Split(s[1..], sep);
    var tw := TitleWords(parts);
    JoinEmptyCons(tw);
    assert tw[1..] == TitleWords(Split(s[1..], sep));
    assert parts[1..] == Split(s[1..], sep);
    assert ToLower(parts[0]) == [];
  }

  /** Induction step of `FragmentsMatchScan` inside a word, at a word start. */
  lemma FragmentsInWord(s: seq<char>, sep: char)
    requires s != [] && s[0] != sep
    requires Scan(s[1..], sep, false)
         == ToLower(Split(s[1..], sep)[0]) + Join(TitleWords(Split(s[1..], sep)[1..]), [])
    ensures TitleCaseFragments(s, sep) == Scan(s, sep, true)
  {
    var parts, rest := Split(s, sep), Split(s[1..], sep);
    var w, tail := rest[0], Join(TitleWords(rest[1..]), []);
    var u := [UpperChar(s[0])];
    SplitInWord(s, sep);
    JoinTitleWordsCons(parts);
    CaseOfCons(s[0], w);
    ScanCons(s, sep, true);
    AppendAssoc(u, ToLower(w), tail);
  }

  /** Induction step of `FragmentsMatchScan` inside a word, in mid-word. */
  lemma FragmentsInWordMid(s: seq<char>, sep: char)
    requires s != [] && s[0] != sep
    requires Scan(s[1..], sep, false)
         == ToLower(Split(s[1..], sep)[0]) + Join(TitleWords(Split(s[1..], sep)[1..]), [])
    ensures Scan(s, sep, false)
         == ToLower(Split(s, sep)[0]) + Join(TitleWords(Split(s, sep)[1..]), [])
  {
  }

  /** One step of the one-pass reading over a non-separator. */
  lemma ScanCons(s: seq<char>, sep: char, atWordStart: bool)
    requires s != [] && s[0] != sep
    ensures Scan(s, sep, atWordStart)
         == [if atWordStart then UpperChar(s[0]) else LowerChar(s[0])] + Scan(s[1..], sep, false)
  {
  }

  lemma AppendAssoc(a: seq<char>, b: seq<char>, c: seq<char>)
    ensures a + (b + c) == a + b + c
  {
  }

  /** How `Split` extends the first fragment with a non-separator. */
  lemma SplitInWord(s: seq<char>, sep: char)
    requires s != [] && s[0] != sep
    ensures Split(s, sep)[0] == [s[0]] + Split(s[1..], sep)[0]
    ensures Split(s, sep)[1..] == Split(s[1..], sep)[1..]
  {
  }

  /** Joining title-cased fragments, one fragment off the front. */
  lemma JoinTitleWordsCons(parts: seq<seq<char>>)
    requires |parts| >= 1
    ensures Join(TitleWords(parts), []) == TitleWord(parts[0]) + Join(TitleWords(parts[1..]), [])
  {
    var tw := TitleWords(parts);
    JoinEmptyCons(tw);
    assert tw[1..] == TitleWords(parts[1..]);
  }

  /** Title-casing and lower-casing a word, one character off the front. */
  lemma CaseOfCons(c: char, w: seq<char>)
    ensures TitleWord([c] + w) == [UpperChar(c)] + ToLower(w)
    ensures ToLower([c] + w) == [LowerChar(c)] + ToLower(w)
  {
    assert ([c] + w)[1..] == w;
  }

  /** What the one-pass reading produces: no separator, one character per
      non-separator character of the input, and a first character that
      upper-casing leaves alone when the pass starts a word. */
  lemma {:induction false} ScanShape(s: seq<char>, sep: char, atWordStart: bool)
    requires !IsAsciiLetter(sep)
    ensures sep !in Scan(s, sep, atWordStart)
    ensures |Scan(s, sep, atWordStart)| == |s| - Count(s, sep)
    ensures atWordStart && Scan(s, sep, atWordStart) != []
            ==> UpperChar(Scan(s, sep, atWordStart)[0]) == Scan(s, sep, atWordStart)[0]
  {
    if s != [] {
      ScanShape(s[1..], sep, s[0] == sep);
      if s[0] != sep {
        CaseKeepsNonLetters(s[0], sep);
        UpperCharIdempotent(s[0]);
      }
    }
  }

  // ---------------------------------------------------------------------
  // Properties of the converters
  // ---------------------------------------------------------------------

  /** With `_` present, the snake converter is the one-pass reading: empty
      fragments from leading, trailing or doubled `_` contribute nothing, and
      every other fragment appears, in order, title-cased. */
  lemma SnakeCaseIsScan(s: seq<char>)
    requires '_' in s
    ensures SnakeCaseToTitleCase(s) == Scan(s, '_', true)
  {
    FragmentsMatchScan(s, '_');
  }

  /** With `-` present, the dash converter is the one-pass reading. */
  lemma DashCaseIsScan(s: seq<char>)
    requires '-' in s
    ensures DashCaseToTitleCase(s) == Scan(s, '-', true)
  {
    FragmentsMatchScan(s, '-');
  }

  /** Doubling a separator does not change the one-pass reading. */
  lemma {:induction false} ScanDoubledSeparator(a: seq<char>, b: seq<char>, sep: char, atWordStart: bool)
    ensures Scan(a + [sep, sep] + b, sep, atWordStart) == Scan(a + [sep] + b, sep, atWordStart)
  {
    if a == [] {
      assert [sep, sep] + b == [sep] + ([sep] + b);
      assert ([sep] + b)[1..] == b;
    } else {
      ScanDoubledSeparator(a[1..], b, sep, a[0] == sep);
      assert (a + [sep, sep] + b)[1..] == a[1..] + [sep, sep] + b;
      assert (a + [sep] + b)[1..] == a[1..] + [sep] + b;
    }
  }

  /** `my__cool_project` and `my_cool_project` give the same type name. */
  lemma SnakeCaseDoubledSeparator(a: seq<char>, b: seq<char>)
    ensures SnakeCaseToTitleCase(a + "__" + b) == SnakeCaseToTitleCase(a + "_" + b)
  {
    assert '_' in a + "__" + b by { assert (a + "__" + b)[|a|] == '_'; }
    assert '_' in a + "_" + b by { assert (a + "_" + b)[|a|] == '_'; }
    SnakeCaseIsScan(a + "__" + b);
    SnakeCaseIsScan(a + "_" + b);
    ScanDoubledSeparator(a, b, '_', true);
  }

  /** The snake converter is idempotent: its output has no `_` and a first
      character that upper-casing leaves alone. */
  lemma SnakeCaseIdempotent(s: seq<char>)
    ensures SnakeCaseToTitleCase(SnakeCaseToTitleCase(s)) == SnakeCaseToTitleCase(s)
  {
    var r := SnakeCaseToTitleCase(s);
    if '_' !in s && s != [] {
      CaseKeepsNonLetters(s[0], '_');
      assert r == [r[0]] + r[1..];
    }
    if r != [] {
      assert r == [r[0]] + r[1..];
    }
  }

  /** The dash converter is idempotent. */
  lemma DashCaseIdempotent(s: seq<char>)
    ensures DashCaseToTitleCase(DashCaseToTitleCase(s)) == DashCaseToTitleCase(s)
  {
  }

  /** On a name with neither separator the dash converter is the identity,
      while the snake converter keeps the name exactly when its first
      character is not a lower-case letter; so `abc` is where they part. */
  lemma ConvertersDisagreeWithoutSeparator(s: seq<char>)
    requires '_' !in s && '-' !in s
    ensures DashCaseToTitleCase(s) == s
    ensures SnakeCaseToTitleCase(s) == s <==> s == [] || !IsAsciiLower(s[0])
  {
    var r := SnakeCaseToTitleCase(s);
    if s != [] && !IsAsciiLower(s[0]) {
      assert r == [r[0]] + r[1..];
      assert s == [s[0]] + s[1..];
    }
  }

  /** The state the one-pass reading is in after reading `a`. */
  function WordStartAfter(a: seq<char>, sep: char, atWordStart: bool): bool
  {
    if a == [] then atWordStart else a[|a| - 1] == sep
  }

  /** The one-pass reading of a concatenation reads the parts one after the
      other. */
  lemma {:induction false} ScanConcat(a: seq<char>, b: seq<char>, sep: char, atWordStart: bool)
    ensures Scan(a + b, sep, atWordStart)
         == Scan(a, sep, atWordStart) + Scan(b, sep, WordStartAfter(a, sep, atWordStart))
  {
    if a == [] {
      assert a + b == b;
    } else {
      ScanConcat(a[1..], b, sep, a[0] == sep);
      assert (a + b)[1..] == a[1..] + b;
      if |a| > 1 {
        assert a[1..][|a[1..]| - 1] == a[|a| - 1];
      }
    }
  }

  /** A single word read in one pass is that word title-cased. */
  lemma ScanWord(w: seq<char>, sep: char)
    requires sep !in w
    ensures Scan(w, sep, true) == TitleWord(w)
  {
    FragmentsMatchScan(w, sep);
    SplitWithoutSeparator(w, sep);
  }

  /** Words without the separator, joined by it and read in one pass, give
      the words title-cased and concatenated, in order. */
  lemma {:induction false} ScanJoinedWords(words: seq<seq<char>>, sep: char)
    requires |words| >= 1
    requires forall k :: 0 <= k < |words| ==> sep !in words[k]
    ensures Scan(Join(words, [sep]), sep, true) == Join(TitleWords(words), [])
  {
    var w := words[0];
    ScanWord(w, sep);
    JoinTitleWordsCons(words);
    if |words| > 1 {
      var j := Join(words[1..], [sep]);
      ScanJoinedWords(words[1..], sep);
      assert Join(words, [sep]) == w + ([sep] + j);
      ScanConcat(w, [sep] + j, sep, true);
      assert ([sep] + j)[1..] == j;
    }
  }

  /** A snake_case name made of words is the words title-cased and
      concatenated, in order: `my_cool_project` gives `MyCoolProject`. */
  lemma SnakeCaseJoinedWords(words: seq<seq<char>>)
    requires |words| >= 2
    requires forall k :: 0 <= k < |words| ==> '_' !in words[k]
    ensures SnakeCaseToTitleCase(Join(words, "_")) == Join(TitleWords(words), [])
  {
    var s := Join(words, "_");
    assert s == words[0] + "_" + Join(words[1..], "_");
    assert s[|words[0]|] == '_';
    SnakeCaseIsScan(s);
    ScanJoinedWords(words, '_');
  }

  /** A dash-case name made of words is the words title-cased and
      concatenated, in order: `my-cool-project` gives `MyCoolProject`. */
  lemma DashCaseJoinedWords(words: seq<seq<char>>)
    requires |words| >= 2
    requires forall k :: 0 <= k < |words| ==> '-' !in words[k]
    ensures DashCaseToTitleCase(Join(words, "-")) == Join(TitleWords(words), [])
  {
    var s := Join(words, "-");
    assert s == words[0] + "-" + Join(words[1..], "-");
    assert s[|words[0]|] == '-';
    DashCaseIsScan(s);
    ScanJoinedWords(words, '-');
  }

  /** The empty fragments a leading or a trailing `_` produces contribute
      nothing, once the name holds a `_` anyway. */
  lemma SnakeCaseOuterSeparators(s: seq<char>)
    requires '_' in s
    ensures SnakeCaseToTitleCase("_" + s) == SnakeCaseToTitleCase(s)
    ensures SnakeCaseToTitleCase(s + "_") == SnakeCaseToTitleCase(s)
  {
    assert ("_" + s)[0] == '_';
    assert (s + "_")[|s|] == '_';
    SnakeCaseIsScan(s);
    SnakeCaseIsScan("_" + s);
    SnakeCaseIsScan(s + "_");
    assert ("_" + s)[1..] == s;
    ScanConcat(s, "_", '_', true);
    assert Scan("_", '_', WordStartAfter(s, '_', true)) == [];
  }

  /** The two branches of the snake converter treat a single word
      differently: alone, only its first character is upper-cased; behind a
      `_`, the rest of the word is also lower-cased (`MyApp` stays `MyApp`,
      `_MyApp` gives `Myapp`). */
  lemma SnakeCaseSingleWordBranches(w: seq<char>)
    requires '_' !in w
    ensures SnakeCaseToTitleCase(w) == UpperFirst(w)
    ensures SnakeCaseToTitleCase("_" + w) == TitleWord(w)
  {
    assert ("_" + w)[0] == '_';
    assert ("_" + w)[1..] == w;
    SnakeCaseIsScan("_" + w);
    ScanWord(w, '_');
  }
}
