/**
  The counting half of the text analysis component: the tokens found by the
  global regular expression `\b\w+\b`, the number of distinct tokens (with and
  without ASCII lowercasing first), and the number of ASCII letters and digits.
  A JavaScript string is modelled as a sequence of Unicode scalar values, so a
  model character stands for one UTF-16 code unit only in texts without
  surrogate code units.
 */
module TextMetrics {

  /** `\w` of an ECMAScript regular expression without the `u` and `i` flags. */
  predicate IsWordChar(c: char) {
    ('a' <= c <= 'z') || ('A' <= c <= 'Z') || ('0' <= c <= '9') || c == '_'
  }

  /** The class `[a-zA-Z0-9]`; unlike `\w` it leaves out `_`. */
  predicate IsAlnum(c: char) {
    ('a' <= c <= 'z') || ('A' <= c <= 'Z') || ('0' <= c <= '9')
  }

  /** `\b` holds at index i: exactly one of the characters on either side is a word character. */
  predicate IsBoundary(s: string, i: nat)
    requires i <= |s|
  {
    (i > 0 && IsWordChar(s[i - 1])) != (i < |s| && IsWordChar(s[i]))
  }

  /** The pattern `\b\w+\b` can begin a match at index i. */
  predicate MatchStartsAt(s: string, i: nat)
    requires i <= |s|
  {
    IsBoundary(s, i) && i < |s| && IsWordChar(s[i])
  }

  /** i is not strictly inside a run of word characters. */
  predicate AtRunEdge(s: string, i: nat)
    requires i <= |s|
  {
    !(0 < i < |s| && IsWordChar(s[i - 1]) && IsWordChar(s[i]))
  }

  /** A half-open range [start, end) of a string. */
  datatype Span = Span(start: nat, end: nat)

  /** sp covers a non-empty run of word characters that cannot be extended on either side. */
  predicate IsMaximalRun(s: string, sp: Span) {
    && sp.start < sp.end <= |s|
    && (forall p :: sp.start <= p < sp.end ==> IsWordChar(s[p]))
    && (sp.start == 0 || !IsWordChar(s[sp.start - 1]))
    && (sp.end == |s| || !IsWordChar(s[sp.end]))
  }

  /** Where the greedy `\w+` stops when it starts at index i. */
  function RunEnd(s: string, i: nat): (e: nat)
    requires i <= |s|
    ensures i <= e <= |s|
    ensures forall p :: i <= p < e ==> IsWordChar(s[p])
    ensures e == |s| || !IsWordChar(s[e])
    decreases |s| - i
  {
    if i < |s| && IsWordChar(s[i]) then RunEnd(s, i + 1) else i
  }

  /**
    The matches of the global `\b\w+\b` from lastIndex i onwards: the engine tries
    each index in turn; a successful match consumes the whole run of word
    characters and the search resumes where the match ended.
   */
  function WordMatches(s: string, i: nat): (r: seq<Span>)
    requires i <= |s|
    ensures forall k :: 0 <= k < |r| ==> i <= r[k].start && IsMaximalRun(s, r[k])
    ensures forall k :: 0 <= k < |r| - 1 ==> r[k].end < r[k + 1].start
    decreases |s| - i
  {
    if i == |s| then []
    else if MatchStartsAt(s, i) then
      var e := RunEnd(s, i);
      [Span(i, e)] + WordMatches(s, e)
    else
      WordMatches(s, i + 1)
  }

  /** Scanning from an index outside any run, every word character lies in some match. */
  lemma {:induction false} WordMatchesCover(s: string, i: nat, p: nat)
    requires i <= p < |s| && IsWordChar(s[p]) && AtRunEdge(s, i)
    ensures exists k :: 0 <= k < |WordMatches(s, i)| && WordMatches(s, i)[k].start <= p < WordMatches(s, i)[k].end
    decreases |s| - i
  {
    var r := WordMatches(s, i);
    if MatchStartsAt(s, i) {
      var e := RunEnd(s, i);
      if p < e {
        assert r[0] == Span(i, e);
      } else {
        WordMatchesCover(s, e, p);
        var k :| 0 <= k < |WordMatches(s, e)| && WordMatches(s, e)[k].start <= p < WordMatches(s, e)[k].end;
        assert r[k + 1] == WordMatches(s, e)[k];
      }
    } else {
      assert p != i;
      WordMatchesCover(s, i + 1, p);
    }
  }

  /** `s.match(/\b\w+\b/g) || []`: the matched substrings in text order. */
  function Tokens(s: string): (ts: seq<string>)
    ensures forall k :: 0 <= k < |ts| ==> |ts[k]| > 0
    ensures forall k, j :: 0 <= k < |ts| && 0 <= j < |ts[k]| ==> IsWordChar(ts[k][j])
  {
    var ms := WordMatches(s, 0);
    seq(|ms|, k requires 0 <= k < |ms| => s[ms[k].start..ms[k].end])
  }

  /**
    `new Set(words).size`: at most the number of tokens, and at least one
    exactly when there is a token.
   */
  function UniqueWordCount(s: string): (n: nat)
    ensures n <= |Tokens(s)|
    ensures Tokens(s) != [] <==> n >= 1
  {
    SetOfSeqBounds(Tokens(s));
    |set t | t in Tokens(s)|
  }

  /** ASCII part of `String.prototype.toLowerCase` on one character. */
  function ToLowerChar(c: char): char {
    if 'A' <= c <= 'Z' then (c as int + 32) as char else c
  }

  /**
    ASCII part of `String.prototype.toLowerCase`: same length, every capital
    turned into its small letter, no capital left, every other character kept.
   */
  function ToLowerCase(s: string): (r: string)
    ensures |r| == |s|
    ensures forall j :: 0 <= j < |s| ==> !('A' <= r[j] <= 'Z')
    ensures forall j :: 0 <= j < |s| && 'A' <= s[j] <= 'Z' ==> 'a' <= r[j] <= 'z' && r[j] as int - s[j] as int == 32
    ensures forall j :: 0 <= j < |s| && !('A' <= s[j] <= 'Z') ==> r[j] == s[j]
  {
    seq(|s|, j requires 0 <= j < |s| => ToLowerChar(s[j]))
  }

  /** `text.replace(/[^a-zA-Z0-9]/g, '')`. */
  function StripNonAlnum(s: string): (r: string)
    ensures |r| <= |s|
    ensures forall j :: 0 <= j < |r| ==> IsAlnum(r[j])
  {
    if s == [] then [] else (if IsAlnum(s[0]) then [s[0]] else []) + StripNonAlnum(s[1..])
  }

  /**
    `text.replace(/[^a-zA-Z0-9]/g, '').length`: 0 exactly when the text has no
    ASCII letter or digit, the whole length exactly when it has nothing else.
   */
  function CharacterCount(s: string): (n: nat)
    ensures n <= |s|
    ensures n == 0 <==> forall j :: 0 <= j < |s| ==> !IsAlnum(s[j])
    ensures n == |s| <==> forall j :: 0 <= j < |s| ==> IsAlnum(s[j])
  {
    StripEmptyIffNoAlnum(s);
    StripFullIffAllAlnum(s);
    |StripNonAlnum(s)|
  }

  // ---------------------------------------------------------------------------
  // Tokens

  /**
    The tokens are exactly the maximal runs of word characters: one per
    match, each match a run that cannot be extended, the matches in text
    order without overlap, and every word character inside one of them.
   */
  lemma TokensAreMaximalRuns(s: string)
    ensures var ms := WordMatches(s, 0);
      && |Tokens(s)| == |ms|
      && (forall k :: 0 <= k < |ms| ==> IsMaximalRun(s, ms[k]) && Tokens(s)[k] == s[ms[k].start..ms[k].end])
      && (forall k :: 0 <= k < |ms| - 1 ==> ms[k].end < ms[k + 1].start)
      && (forall p :: 0 <= p < |s| && IsWordChar(s[p]) ==>
            exists k :: 0 <= k < |ms| && ms[k].start <= p < ms[k].end)
  {
    assert AtRunEdge(s, 0);
    forall p | 0 <= p < |s| && IsWordChar(s[p])
      ensures exists k :: 0 <= k < |WordMatches(s, 0)| && WordMatches(s, 0)[k].start <= p < WordMatches(s, 0)[k].end
    {
      WordMatchesCover(s, 0, p);
    }
  }

  /** Text without a word character (the empty text included) has no token, and conversely. */
  lemma NoTokensIffNoWordChars(s: string)
    ensures Tokens(s) == [] <==> forall j :: 0 <= j < |s| ==> !IsWordChar(s[j])
  {
    TokensAreMaximalRuns(s);
    if Tokens(s) != [] {
      var sp := WordMatches(s, 0)[0];
      assert IsMaximalRun(s, sp);
      assert IsWordChar(s[sp.start]);
    }
  }

  /** A `Set` built from a list has no more elements than the list, and is empty only when the list is. */
  lemma {:induction false} SetOfSeqBounds<T>(xs: seq<T>)
    ensures |set x | x in xs| <= |xs|
    ensures xs != [] <==> |set x | x in xs| >= 1
  {
    if xs != [] {
      var init := xs[..|xs| - 1];
      SetOfSeqBounds(init);
      assert (set x | x in xs) == (set x | x in init) + {xs[|xs| - 1]} by {
        assert xs == init + [xs[|xs| - 1]];
      }
    }
  }

  /** Both unique counts are 0 exactly when the text has no word character. */
  lemma UniqueWordCountZero(s: string)
    ensures UniqueWordCount(s) == 0 <==> forall j :: 0 <= j < |s| ==> !IsWordChar(s[j])
  {
    NoTokensIffNoWordChars(s);
  }

  // ---------------------------------------------------------------------------
  // Lowercasing

  /** Lowercasing a character keeps it a word character or a non-word character. */
  lemma ToLowerCharKeepsWordClass(c: char)
    ensures IsWordChar(ToLowerChar(c)) == IsWordChar(c)
    ensures !('A' <= ToLowerChar(c) <= 'Z')
  {
  }

  /** Lowercasing moves no run boundary, so the scan finds the same matches. */
  lemma {:induction false} LowerCaseSameMatches(s: string, i: nat)
    requires i <= |s|
    ensures WordMatches(ToLowerCase(s), i) == WordMatches(s, i)
    decreases |s| - i
  {
    var l := ToLowerCase(s);
    forall p | 0 <= p < |s| ensures IsWordChar(l[p]) == IsWordChar(s[p]) {
      ToLowerCharKeepsWordClass(s[p]);
    }
    if i < |s| {
      assert MatchStartsAt(l, i) == MatchStartsAt(s, i);
      if MatchStartsAt(s, i) {
        SameRunEnd(s, l, i);
        LowerCaseSameMatches(s, RunEnd(s, i));
      } else {
        LowerCaseSameMatches(s, i + 1);
      }
    }
  }

  lemma {:induction false} SameRunEnd(s: string, l: string, i: nat)
    requires |l| == |s| && i <= |s|
    requires forall p :: 0 <= p < |s| ==> IsWordChar(l[p]) == IsWordChar(s[p])
    ensures RunEnd(l, i) == RunEnd(s, i)
    decreases |s| - i
  {
    if i < |s| && IsWordChar(s[i]) {
      SameRunEnd(s, l, i + 1);
    }
  }

  /** The tokens of the lowercased text are the lowercased tokens of the text. */
  lemma LowerCaseTokens(s: string)
    ensures |Tokens(ToLowerCase(s))| == |Tokens(s)|
    ensures forall k :: 0 <= k < |Tokens(s)| ==> Tokens(ToLowerCase(s))[k] == ToLowerCase(Tokens(s)[k])
  {
    LowerCaseSameMatches(s, 0);
  }

  /** Lowercasing leaves no ASCII capital, so it changes nothing the second time. */
  lemma LowerCaseIdempotent(s: string)
    ensures ToLowerCase(ToLowerCase(s)) == ToLowerCase(s)
  {
  }

  /** Lowercasing every element of a set of strings cannot enlarge it. */
  lemma {:induction false} ImageNoLarger(xs: set<string>)
    ensures |set x | x in xs :: ToLowerCase(x)| <= |xs|
    decreases |xs|
  {
    if xs != {} {
      var x :| x in xs;
      var rest := xs - {x};
      ImageNoLarger(rest);
      assert (set y | y in xs :: ToLowerCase(y)) == (set y | y in rest :: ToLowerCase(y)) + {ToLowerCase(x)};
    }
  }

  /** A sequence that is another one lowercased element by element has no more distinct elements. */
  lemma LoweredSeqNoMoreDistinct(ts: seq<string>, us: seq<string>)
    requires |us| == |ts|
    requires forall k :: 0 <= k < |ts| ==> us[k] == ToLowerCase(ts[k])
    ensures |set u | u in us| <= |set t | t in ts|
  {
    var distinct := set t | t in ts;
    var image := set t | t in distinct :: ToLowerCase(t);
    assert (set u | u in us) == image by {
      forall u | u in us ensures u in image {
        var k :| 0 <= k < |us| && us[k] == u;
        assert ts[k] in distinct;
      }
      forall u | u in image ensures u in us {
        var t :| t in distinct && ToLowerCase(t) == u;
        var k :| 0 <= k < |ts| && ts[k] == t;
        assert us[k] == u;
      }
    }
    ImageNoLarger(distinct);
  }

  /**
    Lowercasing first can only merge tokens: the case-insensitive unique count
    never exceeds the case-sensitive one.
   */
  lemma CaseInsensitiveAtMostSensitive(s: string)
    ensures UniqueWordCount(ToLowerCase(s)) <= UniqueWordCount(s)
  {
    LowerCaseTokens(s);
    LoweredSeqNoMoreDistinct(Tokens(s), Tokens(ToLowerCase(s)));
  }

  // ---------------------------------------------------------------------------
  // Character count

  /** The filter keeps every occurrence of a letter or digit and drops every other character. */
  lemma {:induction false} StripKeepsExactlyAlnum(s: string)
    ensures forall c :: multiset(StripNonAlnum(s))[c] == if IsAlnum(c) then multiset(s)[c] else 0
  {
    if s != [] {
      StripKeepsExactlyAlnum(s[1..]);
      assert s == [s[0]] + s[1..];
    }
  }

  /** One step of the filter: the first character is kept exactly when it is a letter or digit. */
  lemma StripStep(s: string)
    requires s != []
    ensures |StripNonAlnum(s)| == (if IsAlnum(s[0]) then 1 else 0) + |StripNonAlnum(s[1..])|
  {
  }

  /** The filter leaves nothing exactly when the text has no ASCII letter or digit. */
  lemma {:induction false} StripEmptyIffNoAlnum(s: string)
    ensures |StripNonAlnum(s)| == 0 <==> forall j :: 0 <= j < |s| ==> !IsAlnum(s[j])
  {
    if s != [] {
      StripStep(s);
      StripEmptyIffNoAlnum(s[1..]);
      assert forall j :: 1 <= j < |s| ==> s[j] == s[1..][j - 1];
    }
  }

  /** The filter keeps the whole text exactly when every character is an ASCII letter or digit. */
  lemma {:induction false} StripFullIffAllAlnum(s: string)
    ensures |StripNonAlnum(s)| == |s| <==> forall j :: 0 <= j < |s| ==> IsAlnum(s[j])
  {
    if s != [] {
      StripStep(s);
      StripFullIffAllAlnum(s[1..]);
      assert |StripNonAlnum(s[1..])| <= |s| - 1;
      assert forall j :: 1 <= j < |s| ==> s[j] == s[1..][j - 1];
    }
  }
}
