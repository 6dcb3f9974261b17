/** The unit tests of `src/strings.rs`, as lemmas about the model.
    The longer computations are broken into steps by small helper lemmas.
    Some lemmas take the test's strings as parameters fixed by a `requires`
    (`requires s == "  foobar "`) rather than writing them in the body:
    this keeps the verifier from unfolding the literals too eagerly, which
    makes those proofs far cheaper and steadier. */
module StringsTests {
  import opened RustPrims
  import opened GtmplValue
  import opened Strings

  lemma AbbrevTest()
    ensures Abbrev(4, "foobar") == "f..."
  {
  }

  lemma AbbrevBothTest()
    ensures AbbrevBoth(5, 7, "foobarfoobar") == "...r..."
    ensures AbbrevBoth(4, 7, "foobarfoobar") == "foob..."
    ensures AbbrevBoth(6, 9, "foobarfoobar") == "...foobar"
    ensures AbbrevBoth(5, 7, "foobar") == "foobar"
  {
  }

  lemma InitialsTest()
    ensures Initials("") == ""
    ensures Initials(" ") == ""
    ensures Initials("Foo Bar") == "FB"
  {
    assert WordsFrom(" ", 1) == [];
    var s := "Foo Bar";
    assert !IsWhitespace(s[4]) && !IsWhitespace(s[0]) && IsWhitespace(s[3]);
    assert s[4..7] == "Bar" && s[0..3] == "Foo";
    assert WordEnd(s, 4) == 7;
    assert WordsFrom(s, 4) == ["Bar"] + WordsFrom(s, 7);
    assert WordEnd(s, 0) == 3;
    assert WordsFrom(s, 0) == ["Foo"] + WordsFrom(s, 3);
    assert WordsFrom(s, 0) == ["Foo", "Bar"];
  }

  lemma UntitleTest()
    ensures Untitled("") == ""
    ensures Untitled(" ") == " "
    ensures Untitled("Foo Bar") == "foo bar"
    ensures Untitled("FOO BAR") == "fOO bAR"
    ensures Untitled("  F  B  ") == "  f  b  "
  {
  }

  lemma FindWorldAbsent()
    ensures Find("World", "!") == None
  {
  }

  lemma FindWorld()
    ensures Find("World", "Hello World!") == Some(6)
  {
    var s := "Hello World!";
    forall j | 0 <= j < 6
      ensures !OccursAt("World", s, j)
    {
      assert s[j] != 'W';
    }
    FindIsLeftmost("World", s, 6);
  }

  lemma ReplaceInHello(oldStr: string, newStr: string, s: string)
    requires oldStr == "World" && newStr == "Doom" && s == "Hello World!"
    ensures Replace(oldStr, newStr, s) == "Hello " + newStr + Replace(oldStr, newStr, "!")
  {
    FindWorld();
    assert s[11..] == "!" && s[..6] == "Hello ";
  }

  lemma ReplaceInBang(oldStr: string, newStr: string)
    requires oldStr == "World"
    ensures Replace(oldStr, newStr, "!") == "!"
  {
    FindWorldAbsent();
  }

  lemma ReplaceTest(oldStr: string, newStr: string, s: string)
    requires oldStr == "World" && newStr == "Doom" && s == "Hello World!"
    ensures Replace(oldStr, newStr, s) == "Hello Doom!"
  {
    ReplaceInHello(oldStr, newStr, s);
    ReplaceInBang(oldStr, newStr);
  }

  lemma PluralTest()
    ensures Plural("mouse", "mice", 1) == "mouse"
    ensures Plural("mouse", "mice", 10) == "mice"
  {
  }

  lemma TruncTest()
    ensures Trunc(5, "foobar") == "fooba"
  {
  }

  /** The doc comment of `trunc` promises "hello"; the code keeps the case. */
  lemma TruncDocExample()
    ensures Trunc(5, "Hello World") == "Hello"
  {
  }

  lemma JoinTest(display: Value -> string)
    requires forall t :: display(Str(t)) == t
    ensures Join([Boxed(Str("_")), Boxed(Array([Str("hello"), Str("world")]))], display) == Ok(Str("hello_world"))
  {
    var items := [Str("hello"), Str("world")];
    assert AllStrings(items);
    assert Texts(items) == ["hello", "world"];
    assert JoinStrings(["hello", "world"], "_") == "hello_world";
  }

  lemma FindSpace()
    ensures Find(" ", "foo bar") == Some(3)
  {
    var s := "foo bar";
    forall j | 0 <= j < 3
      ensures !OccursAt(" ", s, j)
    {
      assert s[j..j + 1][0] == s[j] != ' ';
    }
    FindIsLeftmost(" ", s, 3);
  }

  lemma FindSpaceAbsent()
    ensures Find(" ", "bar") == None
  {
    forall j
      ensures !OccursAt(" ", "bar", j)
    {
      if 0 <= j && j + 1 <= 3 { assert "bar"[j..j + 1][0] == "bar"[j] != ' '; }
    }
  }

  lemma SplitPiecesFooBar()
    ensures SplitPieces(" ", "foo bar") == ["foo", "bar"]
  {
    var s := "foo bar";
    FindSpace();
    FindSpaceAbsent();
    assert s[4..] == "bar" && s[..3] == "foo";
    assert SplitPieces(" ", "bar") == ["bar"];
  }

  lemma KeysZeroOne()
    ensures Key(0) == "_0" && Key(1) == "_1"
  {
    assert Decimal(0) == "0" && Decimal(1) == "1";
  }

  /** The eleventh piece of a split is keyed "_10": the digits of the index
      are written most significant first. */
  lemma KeyTen()
    ensures Key(10) == "_10"
  {
    assert Decimal(1) == "1" && Decimal(0) == "0";
    assert Decimal(10) == "10";
  }

  lemma SplitEntriesFooBar(sep: string, s: string, m: map<string, string>)
    requires sep == " " && s == "foo bar" && m == Split(sep, s)
    ensures "_0" in m && m["_0"] == "foo"
    ensures "_1" in m && m["_1"] == "bar"
  {
    SplitPiecesFooBar();
    KeysZeroOne();
  }

  lemma SplitKeysFooBar(sep: string, s: string, m: map<string, string>)
    requires sep == " " && s == "foo bar" && m == Split(sep, s)
    ensures forall key :: key in m ==> key == "_0" || key == "_1"
  {
    SplitPiecesFooBar();
    KeysZeroOne();
    forall key | key in m
      ensures key == "_0" || key == "_1"
    {
      var i :| 0 <= i < |SplitPieces(sep, s)| && key == Key(i);
      assert i == 0 || i == 1;
    }
  }

  lemma MapOfTwo(m: map<string, string>)
    requires "_0" in m && m["_0"] == "foo"
    requires "_1" in m && m["_1"] == "bar"
    requires forall key :: key in m ==> key == "_0" || key == "_1"
    ensures m == map["_0" := "foo", "_1" := "bar"]
  {
  }

  lemma SplitTest()
    ensures Split(" ", "foo bar") == map["_0" := "foo", "_1" := "bar"]
  {
    SplitEntriesFooBar(" ", "foo bar", Split(" ", "foo bar"));
    SplitKeysFooBar(" ", "foo bar", Split(" ", "foo bar"));
    MapOfTwo(Split(" ", "foo bar"));
  }

  lemma SubstringTest()
    ensures Substring(0, 0, "") == ""
    ensures Substring(1, 5, "foobar") == "ooba"
    ensures Substring(3, 2, "foobar") == "foobar"
    ensures Substring(8, 9, "foobar") == "foobar"
  {
  }

  lemma ContainsTest()
    ensures Contains("oo", "foobar")
    ensures HasSuffix("bar", "foobar")
    ensures HasPrefix("foo", "foobar")
  {
  }

  lemma TrimStartSpaces(s: string)
    requires s == "  foobar "
    ensures SkipStart(s, AsciiWhitespace, 0) == 2
  {
    assert s[2] !in AsciiWhitespace;
    assert SkipStart(s, AsciiWhitespace, 2) == 2;
    assert s[1] in AsciiWhitespace && s[0] in AsciiWhitespace;
  }

  lemma TrimEndSpaces(s: string)
    requires s == "  foobar "
    ensures SkipEnd(s, AsciiWhitespace, 2, 9) == 8
  {
    assert s[7] !in AsciiWhitespace;
    assert SkipEnd(s, AsciiWhitespace, 2, 8) == 8;
    assert s[8] in AsciiWhitespace;
  }

  lemma TrimTest(s: string)
    requires s == "  foobar "
    ensures Trim(s) == "foobar"
  {
    TrimStartSpaces(s);
    TrimEndSpaces(s);
    assert s[2..8] == "foobar";
  }

  lemma TrimStartFr(s: string, x: set<char>)
    requires s == "  foobar " && x == {' ', 'f', 'r'}
    ensures SkipStart(s, x, 0) == 3
  {
    assert s[3] !in x;
    assert SkipStart(s, x, 3) == 3;
    assert s[2] in x && s[1] in x && s[0] in x;
  }

  lemma TrimEndFr(s: string, x: set<char>)
    requires s == "  foobar " && x == {' ', 'f', 'r'}
    ensures SkipEnd(s, x, 3, 9) == 7
  {
    assert s[6] !in x;
    assert SkipEnd(s, x, 3, 7) == 7;
    assert s[7] in x && s[8] in x;
  }

  lemma TrimAllTest(chars: string, s: string)
    requires chars == " fr" && s == "  foobar "
    ensures TrimAll(chars, s) == "ooba"
  {
    var x := set c | c in chars;
    assert x == {' ', 'f', 'r'};
    TrimStartFr(s, x);
    TrimEndFr(s, x);
    assert s[3..7] == "ooba";
  }

  lemma TrimSuffixTest()
    ensures TrimSuffix("bar", "foobar") == "foo"
  {
    assert "foobar"[..3] == "foo";
    assert TrimSuffix("bar", "foo") == "foo";
  }

  lemma TrimPrefixTest()
    ensures TrimPrefix("foo", "foobar") == "bar"
  {
    assert "foobar"[3..] == "bar";
    assert "bar"[..3] == "bar";
    assert TrimPrefix("foo", "bar") == "bar";
  }

  /** Unlike Go's `strings.TrimSuffix`, `trim_suffix` removes every trailing copy. */
  lemma TrimSuffixRemovesRepeatedCopies()
    ensures TrimSuffix("-", "ends--") == "ends"
  {
    assert "ends--"[..5] == "ends-" && "ends-"[..4] == "ends";
    assert TrimSuffix("-", "ends") == "ends";
  }
}
