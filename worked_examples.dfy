/**
  Concrete inputs worked through the model: the outputs the component shows
  for a few short texts.
 */
module Examples {
  import opened TextMetrics
  import opened TextTransformer

  /** Letters and digits are counted; spaces, `-` and `!` are not. */
  lemma CharacterCountExample()
    ensures CharacterCount("a b-c1!") == 4
  {
  }

  /** The scan finds the two runs of word characters. */
  lemma MatchesHiExample()
    ensures WordMatches("Hi hi", 0) == [Span(0, 2), Span(3, 5)]
  {
    var s := "Hi hi";
    assert RunEnd(s, 3) == 5;
    assert RunEnd(s, 0) == 2;
    assert WordMatches(s, 4) == [];
    assert WordMatches(s, 3) == [Span(3, 5)];
    assert WordMatches(s, 2) == [Span(3, 5)];
  }

  /** Case-sensitive counting sees two distinct words in "Hi hi". */
  lemma TokensExample()
    ensures Tokens("Hi hi") == ["Hi", "hi"]
    ensures UniqueWordCount("Hi hi") == 2
  {
    var s := "Hi hi";
    MatchesHiExample();
    assert s[0..2] == "Hi" && s[3..5] == "hi";
    assert Tokens(s) == ["Hi", "hi"];
    assert "Hi"[0] != "hi"[0];
    PairCount("Hi", "hi");
  }

  /** Case-insensitive counting sees one. */
  lemma LowerTokensExample()
    ensures Tokens(ToLowerCase("Hi hi")) == ["hi", "hi"]
    ensures UniqueWordCount(ToLowerCase("Hi hi")) == 1
  {
    var l := ToLowerCase("Hi hi");
    assert l == "hi hi";
    assert WordMatches(l, 0) == [Span(0, 2), Span(3, 5)] by {
      MatchesHiExample();
      LowerCaseSameMatches("Hi hi", 0);
    }
    assert l[0..2] == "hi" && l[3..5] == "hi";
    assert Tokens(l) == ["hi", "hi"];
    PairCount("hi", "hi");
  }

  /** The number of distinct elements of a two-element sequence. */
  lemma PairCount(a: string, b: string)
    ensures |set t | t in [a, b]| == if a == b then 1 else 2
  {
    if a == b {
      assert (set t | t in [a, b]) == {a};
    } else {
      assert (set t | t in [a, b]) == {a, b};
    }
  }

  /** Both `a`s of "a b a" are matches. */
  lemma MatchesExample()
    ensures MatchPositions("a b a", "a", 0) == [0, 4]
  {
    var s := "a b a";
    assert MatchPositions(s, "a", 5) == [];
    assert MatchPositions(s, "a", 4) == [4];
    assert !OccursAt(s, "a", 3) by { assert s[3..4][0] == ' '; }
    assert !OccursAt(s, "a", 2) by { assert s[2..3][0] == 'b'; }
    assert !OccursAt(s, "a", 1) by { assert s[1..2][0] == ' '; }
  }

  /** The empty search string matches before and after the one character of a one-character text. */
  lemma EmptySearchExample()
    ensures MatchPositions("\U{1F600}", "", 0) == [0, 1]
  {
    var s := "\U{1F600}";
    assert MatchPositions(s, "", 2) == [];
    assert MatchPositions(s, "", 1) == [1];
  }

  /** Splicing a fill at both matches keeps " b " between them. */
  lemma SpliceExample(m: string)
    ensures Splice("a b a", [0, 4], 1, [m, m], 0) == m + " b " + m
  {
    var s := "a b a";
    assert s[0..0] == [] && s[1..4] == " b " && s[5..] == [];
  }

  /** Replacing `a` by `X` highlights both replacements. */
  lemma ReplaceExample()
    ensures ReplaceAllHighlighted("a b a", "a", "X") == Markup("X") + " b " + Markup("X")
  {
    var s := "a b a";
    var m := Markup("X");
    MatchesExample();
    assert Substitutions(s, "a", m, [0, 4]) == [m, m] by {
      assert '$' !in m;
    }
    SpliceExample(m);
  }

  /**
    The `$` patterns of a replacement string, for the match "b" at index 1 of
    "ab"; `$2` names a group the pattern does not have and is kept as written.
   */
  lemma TemplateExample()
    ensures Expand("$&", "ab", 1, "b") == "b"
    ensures Expand("$$", "ab", 1, "b") == "$"
    ensures Expand("$`", "ab", 1, "b") == "a"
    ensures Expand("$'", "ab", 1, "b") == ""
    ensures Expand("$2", "ab", 1, "b") == "$2"
  {
    assert Expand("$&", "ab", 1, "b") == "b" by {
      assert RefLength("$&") == 2;
    }
    assert Expand("$$", "ab", 1, "b") == "$" by {
      assert RefLength("$$") == 2;
    }
    assert Expand("$`", "ab", 1, "b") == "a" by {
      assert RefLength("$`") == 2;
      assert "ab"[..1] == "a";
    }
    assert Expand("$'", "ab", 1, "b") == "" by {
      assert RefLength("$'") == 2;
    }
    assert Expand("$2", "ab", 1, "b") == "$2" by {
      assert RefLength("$2") == 1;
      assert RefLength("2") == 1;
      assert Expand("2", "ab", 1, "b") == "2";
    }
  }
}
