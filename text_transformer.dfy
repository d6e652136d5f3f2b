/**
  The replace half of the text analysis component:
  `text.replaceAll(new RegExp(`(${searchString})`, 'g'), `<mark>${replaceString}</mark>`)`
  for a search string that holds no regular-expression syntax character, so that
  the pattern matches the search string literally. The replacement string is an
  ECMAScript replacement template: `$$`, `$&`, `` $` ``, `$'` and the reference to
  the one capture group are expanded as `GetSubstitution` (section 22.1.3.19.1 of
  ECMA-262) prescribes.
 */
module TextTransformer {

  /** The SyntaxCharacter production of ECMAScript regular expressions. */
  predicate IsSyntaxChar(c: char) {
    c in "^$\\.*+?()[]{}|"
  }

  /** A search string that, put inside `(` and `)`, is a regular expression matching exactly itself. */
  predicate IsLiteralPattern(p: string) {
    forall j :: 0 <= j < |p| ==> !IsSyntaxChar(p[j])
  }

  /** The search string occurs in the text at index q. */
  predicate OccursAt(text: string, pat: string, q: nat) {
    q + |pat| <= |text| && text[q..q + |pat|] == pat
  }

  /**
    How far lastIndex moves after a match at some index: past the match, or by
    one character when the match is empty (AdvanceStringIndex).
   */
  function Advance(pat: string): (n: nat)
    ensures n >= 1 && n >= |pat|
  {
    if |pat| == 0 then 1 else |pat|
  }

  /**
    Indices from `from` on, each at least `width` after the one before and
    each leaving room for `width` characters before `len`.
   */
  predicate Spaced(hits: seq<nat>, width: nat, from: nat, len: nat)
    decreases |hits|
  {
    hits == [] || (from <= hits[0] && hits[0] + width <= len && Spaced(hits[1..], width, hits[0] + width, len))
  }

  /**
    The indices at which the global regular expression matches, scanning from
    lastIndex i: each index is tried in turn and a match moves lastIndex on by
    Advance(pat). The matches do not overlap, and empty matches are one
    character apart.
   */
  function MatchPositions(text: string, pat: string, i: nat): (r: seq<nat>)
    ensures AllOccur(text, pat, r)
    ensures Spaced(r, |pat|, i, |text|)
    ensures Spaced(r, Advance(pat), i, |text| + 1)
    decreases |text| + 1 - i
  {
    if i + |pat| > |text| then []
    else if OccursAt(text, pat, i) then [i] + MatchPositions(text, pat, i + Advance(pat))
    else MatchPositions(text, pat, i + 1)
  }

  /** The scan finds every occurrence: each one is a match or starts inside an earlier match. */
  lemma {:induction false} MatchPositionsComplete(text: string, pat: string, i: nat, q: nat)
    requires i <= q && OccursAt(text, pat, q)
    ensures exists k :: 0 <= k < |MatchPositions(text, pat, i)| &&
              MatchPositions(text, pat, i)[k] <= q < MatchPositions(text, pat, i)[k] + Advance(pat)
    decreases |text| + 1 - i
  {
    var r := MatchPositions(text, pat, i);
    if OccursAt(text, pat, i) {
      assert r[0] == i;
      if q < i + Advance(pat) {
      } else {
        var rest := MatchPositions(text, pat, i + Advance(pat));
        MatchPositionsComplete(text, pat, i + Advance(pat), q);
        var k :| 0 <= k < |rest| && rest[k] <= q < rest[k] + Advance(pat);
        assert r[k + 1] == rest[k];
      }
    } else {
      assert q != i;
      MatchPositionsComplete(text, pat, i + 1, q);
    }
  }

  /** There is no match at all exactly when the search string does not occur. */
  lemma NoMatchIffNoOccurrence(text: string, pat: string)
    ensures MatchPositions(text, pat, 0) == [] <==> forall q :: !OccursAt(text, pat, q)
  {
    var hits := MatchPositions(text, pat, 0);
    if exists q :: OccursAt(text, pat, q) {
      var q :| OccursAt(text, pat, q);
      MatchPositionsComplete(text, pat, 0, q);
    }
  }

  /**
    The length of the reference at the head of a replacement template, for a
    pattern with one capture group: `$$`, `$&`, `` $` ``, `$'` and `$1` are two
    characters long and `$01` three; a two-digit reference above the group
    count falls back to one digit, so `$1` followed by a digit is still `$1`.
    Anything else, a `$` included, is a reference of one character that stands
    for itself.
   */
  function RefLength(tmpl: string): (n: nat)
    requires tmpl != []
    ensures 1 <= n <= 3 && n <= |tmpl|
    ensures n > 1 ==> tmpl[0] == '$'
  {
    if |tmpl| >= 3 && tmpl[0] == '$' && tmpl[1] == '0' && tmpl[2] == '1' then 3
    else if |tmpl| >= 2 && tmpl[0] == '$' && IsRefSecond(tmpl[1]) then 2
    else 1
  }

  /** The characters that complete a two-character reference after `$`. */
  predicate IsRefSecond(c: char) {
    c == '$' || c == '&' || c == '`' || c == '\'' || c == '1'
  }

  /**
    What the reference at the head of a template stands for, given the whole
    text, the index of the match and the match.
   */
  function RefReplacement(tmpl: string, str: string, pos: nat, matched: string): string
    requires tmpl != []
  {
    if RefLength(tmpl) == 1 then [tmpl[0]]
    else if tmpl[1] == '$' then "$"
    else if tmpl[1] == '`' then str[..Min(pos, |str|)]
    else if tmpl[1] == '\'' then str[Min(pos + |matched|, |str|)..]
    else matched // `$&`, `$1` and `$01`
  }

  function Min(a: nat, b: nat): nat {
    if a <= b then a else b
  }

  /**
    GetSubstitution: the template with each reference replaced, from left to
    right. The empty template gives nothing, and a template of one character,
    a lone `$` included, stands for itself.
   */
  function Expand(tmpl: string, str: string, pos: nat, matched: string): (r: string)
    ensures tmpl == [] ==> r == []
    ensures |tmpl| == 1 ==> r == tmpl
    decreases |tmpl|
  {
    if tmpl == [] then ""
    else
      RefReplacement(tmpl, str, pos, matched) + Expand(tmpl[RefLength(tmpl)..], str, pos, matched)
  }

  /**
    The highlight template built by the template literal: the replacement
    string between the two tags, which hold no `$` of their own.
   */
  function Markup(rep: string): (r: string)
    ensures |r| == |rep| + 13 && r[6..6 + |rep|] == rep
    ensures forall j :: 0 <= j < |r| && r[j] == '$' ==> 6 <= j < 6 + |rep|
  {
    "<mark>" + rep + "</mark>"
  }

  /** The summed lengths of a list of strings. */
  function TotalLength(fills: seq<string>): nat
    decreases |fills|
  {
    if fills == [] then 0 else |fills[0]| + TotalLength(fills[1..])
  }

  /**
    The text from `from` on with the `width` characters at each of `hits`
    replaced by the corresponding element of `fills`; what lies between them
    is copied as it is.
   */
  function Splice(text: string, hits: seq<nat>, width: nat, fills: seq<string>, from: nat): (r: string)
    requires from <= |text| && |fills| == |hits| && Spaced(hits, width, from, |text|)
    ensures |r| + |hits| * width == |text| - from + TotalLength(fills)
    decreases |hits|
  {
    if hits == [] then text[from..]
    else text[from..hits[0]] + fills[0] + Splice(text, hits[1..], width, fills[1..], hits[0] + width)
  }

  /** The replacement text put at each match. */
  function Substitutions(text: string, pat: string, tmpl: string, hits: seq<nat>): (r: seq<string>)
    ensures |r| == |hits|
    ensures '$' !in tmpl ==> forall k :: 0 <= k < |r| ==> r[k] == tmpl
  {
    ExpandPlainAt(tmpl, text, pat, hits);
    seq(|hits|, k requires 0 <= k < |hits| => Expand(tmpl, text, hits[k], pat))
  }

  /** `text.replaceAll(/(search)/g, `<mark>${rep}</mark>`)` for a literal search string. */
  function ReplaceAllHighlighted(text: string, search: string, rep: string): (r: string)
    ensures (forall q :: !OccursAt(text, search, q)) ==> r == text
  {
    NoMatchIffNoOccurrence(text, search);
    var hits := MatchPositions(text, search, 0);
    Splice(text, hits, |search|, Substitutions(text, search, Markup(rep), hits), 0)
  }

  // ---------------------------------------------------------------------------
  // Replacement templates

  /** A template without `$` is copied as it is. */
  lemma {:induction false} ExpandPlain(tmpl: string, str: string, pos: nat, matched: string)
    requires '$' !in tmpl
    ensures Expand(tmpl, str, pos, matched) == tmpl
  {
    if tmpl != [] {
      assert tmpl[0] != '$';
      assert '$' !in tmpl[1..];
      ExpandPlain(tmpl[1..], str, pos, matched);
      assert tmpl == [tmpl[0]] + tmpl[1..];
    }
  }

  /**
    Each reference at the head of a template, whatever follows it: `$$` gives
    `$`, `$&` gives the match, `` $` `` the text before the match and `$'` the
    text after it.
   */
  lemma ExpandReferences(t: string, str: string, pos: nat, matched: string)
    ensures Expand("$$" + t, str, pos, matched) == "$" + Expand(t, str, pos, matched)
    ensures Expand("$&" + t, str, pos, matched) == matched + Expand(t, str, pos, matched)
    ensures Expand("$`" + t, str, pos, matched) == str[..Min(pos, |str|)] + Expand(t, str, pos, matched)
    ensures Expand("$'" + t, str, pos, matched) == str[Min(pos + |matched|, |str|)..] + Expand(t, str, pos, matched)
  {
    var e := Expand(t, str, pos, matched);
    assert Expand("$$" + t, str, pos, matched) == "$" + e by { ExpandTwoCharRef('$', t, str, pos, matched); }
    assert Expand("$&" + t, str, pos, matched) == matched + e by { ExpandTwoCharRef('&', t, str, pos, matched); }
    assert Expand("$`" + t, str, pos, matched) == str[..Min(pos, |str|)] + e by {
      ExpandTwoCharRef('`', t, str, pos, matched);
    }
    assert Expand("$'" + t, str, pos, matched) == str[Min(pos + |matched|, |str|)..] + e by {
      ExpandTwoCharRef('\'', t, str, pos, matched);
    }
  }

  /**
    The references to the one capture group, `$1` and `$01`, give the match
    whatever follows them; `$1` followed by a digit is still `$1`.
   */
  lemma ExpandGroupReferences(t: string, str: string, pos: nat, matched: string)
    ensures Expand("$1" + t, str, pos, matched) == matched + Expand(t, str, pos, matched)
    ensures Expand("$01" + t, str, pos, matched) == matched + Expand(t, str, pos, matched)
  {
    var e := Expand(t, str, pos, matched);
    assert Expand("$1" + t, str, pos, matched) == matched + e by { ExpandTwoCharRef('1', t, str, pos, matched); }
    assert Expand("$01" + t, str, pos, matched) == matched + e by {
      var x := "$01" + t;
      assert x[0] == '$' && x[1] == '0' && x[2] == '1';
      assert x[3..] == t;
    }
  }

  /**
    A `$` that starts no reference is copied: `$0` not followed by `1`, and a
    `$` followed by none of `$&`'0` and `1`.
   */
  lemma ExpandNonReferences(t: string, str: string, pos: nat, matched: string)
    ensures (t == [] || t[0] != '1') ==> Expand("$0" + t, str, pos, matched) == "$0" + Expand(t, str, pos, matched)
    ensures (t == [] || !(IsRefSecond(t[0]) || t[0] == '0')) ==>
              Expand("$" + t, str, pos, matched) == "$" + Expand(t, str, pos, matched)
  {
    var e := Expand(t, str, pos, matched);
    if t == [] || t[0] != '1' {
      var x, z := "$0" + t, "0" + t;
      assert RefLength(x) == 1 by {
        assert x[0] == '$' && x[1] == '0';
        if |x| >= 3 { assert x[2] == t[0]; }
      }
      assert x[1..] == z by { DropFirst("$0", t); }
      assert z[1..] == t by { DropFirst(z, []); }
      assert Expand(x, str, pos, matched) == "$" + ("0" + e);
      assert "$" + ("0" + e) == "$0" + e;
    }
    if t == [] || !(IsRefSecond(t[0]) || t[0] == '0') {
      var x := "$" + t;
      assert RefLength(x) == 1 by {
        if |x| >= 2 { assert x[1] == t[0]; }
      }
      assert x[1..] == t by { DropFirst("$", t); }
    }
  }

  /** Dropping the first character of a non-empty left part. */
  lemma DropFirst(a: string, t: string)
    requires a != []
    ensures (a + t)[1..] == a[1..] + t
  {
  }

  /** A two-character reference is read from the head of the template, whatever follows it. */
  lemma ExpandTwoCharRef(c: char, t: string, str: string, pos: nat, matched: string)
    requires IsRefSecond(c)
    ensures Expand(['$', c] + t, str, pos, matched)
         == RefReplacement(['$', c], str, pos, matched) + Expand(t, str, pos, matched)
  {
    assert (['$', c] + t)[2..] == t;
  }

  /** A template without `$` is copied as it is at every match. */
  lemma ExpandPlainAt(tmpl: string, text: string, pat: string, hits: seq<nat>)
    ensures '$' !in tmpl ==> forall k :: 0 <= k < |hits| ==> Expand(tmpl, text, hits[k], pat) == tmpl
  {
    if '$' !in tmpl {
      forall k | 0 <= k < |hits| ensures Expand(tmpl, text, hits[k], pat) == tmpl {
        ExpandPlain(tmpl, text, hits[k], pat);
      }
    }
  }

  /** A right part that starts with none of `$&`'01` cannot complete a reference begun on the left. */
  lemma RefAppend(a: string, b: string, str: string, pos: nat, matched: string)
    requires a != []
    requires b == [] || !(IsRefSecond(b[0]) || b[0] == '0')
    ensures RefLength(a + b) == RefLength(a)
    ensures RefReplacement(a + b, str, pos, matched) == RefReplacement(a, str, pos, matched)
  {
    var ab := a + b;
    assert ab[0] == a[0];
    if |a| >= 2 {
      assert ab[1] == a[1];
    } else if b != [] {
      assert ab[1] == b[0];
    }
    if |a| >= 3 {
      assert ab[2] == a[2];
    } else if |a| == 2 && b != [] {
      assert ab[2] == b[0];
    }
  }

  /** Expansion splits at a point where the right part cannot complete a reference begun on the left. */
  lemma {:induction false} ExpandAppend(a: string, b: string, str: string, pos: nat, matched: string)
    requires b == [] || !(IsRefSecond(b[0]) || b[0] == '0')
    ensures Expand(a + b, str, pos, matched) == Expand(a, str, pos, matched) + Expand(b, str, pos, matched)
    decreases |a|
  {
    if a == [] {
      assert a + b == b;
    } else {
      var n := RefLength(a);
      var r := RefReplacement(a, str, pos, matched);
      var x, y := Expand(a[n..], str, pos, matched), Expand(b, str, pos, matched);
      ExpandHeadAppend(a, b, str, pos, matched);
      ExpandAppend(a[n..], b, str, pos, matched);
      assert r + (x + y) == (r + x) + y;
    }
  }

  /** The first reference of a + b is the first reference of a, and the rest of a + b is the rest of a, then b. */
  lemma ExpandHeadAppend(a: string, b: string, str: string, pos: nat, matched: string)
    requires a != []
    requires b == [] || !(IsRefSecond(b[0]) || b[0] == '0')
    ensures Expand(a + b, str, pos, matched)
         == RefReplacement(a, str, pos, matched) + Expand(a[RefLength(a)..] + b, str, pos, matched)
  {
    RefAppend(a, b, str, pos, matched);
    assert (a + b)[RefLength(a)..] == a[RefLength(a)..] + b;
  }

  /** A template between two `$`-free parts, the right one not starting with a digit or `$&`'`, is expanded alone. */
  lemma ExpandBetween(pre: string, t: string, post: string, str: string, pos: nat, matched: string)
    requires '$' !in pre && '$' !in post
    requires post == [] || !(IsRefSecond(post[0]) || post[0] == '0')
    ensures Expand(pre + t + post, str, pos, matched) == pre + Expand(t, str, pos, matched) + post
  {
    assert pre + t + post == pre + (t + post);
    ExpandPrefix(pre, t + post, str, pos, matched);
    ExpandAppend(t, post, str, pos, matched);
    ExpandPlain(post, str, pos, matched);
  }

  /** The `<mark>` wrapper is copied and only the replacement string inside it is expanded. */
  lemma ExpandMarkup(rep: string, str: string, pos: nat, matched: string)
    ensures Expand(Markup(rep), str, pos, matched) == "<mark>" + Expand(rep, str, pos, matched) + "</mark>"
  {
    ExpandBetween("<mark>", rep, "</mark>", str, pos, matched);
  }

  /** A left part without `$` is copied as it is. */
  lemma {:induction false} ExpandPrefix(a: string, b: string, str: string, pos: nat, matched: string)
    requires '$' !in a
    ensures Expand(a + b, str, pos, matched) == a + Expand(b, str, pos, matched)
  {
    if a != [] {
      var ab := a + b;
      assert ab[0] == a[0] != '$';
      assert ab[1..] == a[1..] + b;
      assert '$' !in a[1..];
      ExpandPrefix(a[1..], b, str, pos, matched);
      calc {
        Expand(ab, str, pos, matched);
        [a[0]] + Expand(a[1..] + b, str, pos, matched);
        [a[0]] + (a[1..] + Expand(b, str, pos, matched));
        { assert a == [a[0]] + a[1..]; }
        a + Expand(b, str, pos, matched);
      }
    } else {
      assert a + b == b;
    }
  }

  // ---------------------------------------------------------------------------
  // Replace-all

  /** Every index in hits is an occurrence of pat. */
  predicate AllOccur(text: string, pat: string, hits: seq<nat>)
    decreases |hits|
  {
    hits == [] || (OccursAt(text, pat, hits[0]) && AllOccur(text, pat, hits[1..]))
  }

  /** Every element of xs is x. */
  ghost predicate AllAre<T>(xs: seq<T>, x: T)
    decreases |xs|
  {
    xs == [] || (xs[0] == x && AllAre(xs[1..], x))
  }

  lemma {:induction false} ConstantSeqAllAre<T>(xs: seq<T>, x: T)
    requires forall k :: 0 <= k < |xs| ==> xs[k] == x
    ensures AllAre(xs, x)
    decreases |xs|
  {
    if xs != [] {
      var rest := xs[1..];
      assert forall k :: 0 <= k < |rest| ==> rest[k] == xs[k + 1];
      ConstantSeqAllAre(rest, x);
    }
  }

  /** Putting the search string back in place of every replacement gives the original text. */
  lemma {:induction false} SpliceRestores(text: string, pat: string, hits: seq<nat>, fills: seq<string>, from: nat)
    requires from <= |text| && Spaced(hits, |pat|, from, |text|) && AllOccur(text, pat, hits)
    requires |fills| == |hits| && AllAre(fills, pat)
    ensures Splice(text, hits, |pat|, fills, from) == text[from..]
    decreases |hits|
  {
    if hits != [] {
      var h := hits[0];
      SpliceRestores(text, pat, hits[1..], fills[1..], h + |pat|);
      assert fills[0] == text[h..h + |pat|];
      SliceJoin(text, from, h, h + |pat|);
    }
  }

  lemma SliceJoin(text: string, a: nat, b: nat, c: nat)
    requires a <= b <= c <= |text|
    ensures text[a..b] + text[b..c] + text[c..] == text[a..]
  {
  }

  /**
    The result is the text with every match, taken left to right without
    overlap, replaced by `<mark>`, the expanded replacement string and
    `</mark>`; the text between matches is copied as it is, so there are as
    many wrappers as matches, and putting the search string back in place of
    each wrapper restores the text.
   */
  lemma ReplaceAllShape(text: string, search: string, rep: string)
    ensures var hits := MatchPositions(text, search, 0);
      var fills := seq(|hits|, k requires 0 <= k < |hits| =>
                         "<mark>" + Expand(rep, text, hits[k], search) + "</mark>");
      && ReplaceAllHighlighted(text, search, rep) == Splice(text, hits, |search|, fills, 0)
      && Splice(text, hits, |search|, seq(|hits|, _ => search), 0) == text
  {
    var hits := MatchPositions(text, search, 0);
    forall k | 0 <= k < |hits|
      ensures Expand(Markup(rep), text, hits[k], search) == "<mark>" + Expand(rep, text, hits[k], search) + "</mark>"
    {
      ExpandMarkup(rep, text, hits[k], search);
    }
    assert Substitutions(text, search, Markup(rep), hits) ==
      seq(|hits|, k requires 0 <= k < |hits| => "<mark>" + Expand(rep, text, hits[k], search) + "</mark>");
    ConstantSeqAllAre(seq(|hits|, _ => search), search);
    SpliceRestores(text, search, hits, seq(|hits|, _ => search), 0);
  }

  /** With a replacement string free of `$`, every wrapper holds exactly that string. */
  lemma ReplaceAllPlain(text: string, search: string, rep: string)
    requires '$' !in rep
    ensures var hits := MatchPositions(text, search, 0);
      ReplaceAllHighlighted(text, search, rep) == Splice(text, hits, |search|, seq(|hits|, _ => Markup(rep)), 0)
  {
    var hits := MatchPositions(text, search, 0);
    forall k | 0 <= k < |hits| ensures Expand(Markup(rep), text, hits[k], search) == Markup(rep) {
      ExpandMarkup(rep, text, hits[k], search);
      ExpandPlain(rep, text, hits[k], search);
    }
    assert Substitutions(text, search, Markup(rep), hits) == seq(|hits|, _ => Markup(rep));
  }

  /** n copies of one string have n times its length. */
  lemma {:induction false} TotalLengthCopies(x: string, n: nat)
    ensures TotalLength(seq(n, _ => x)) == n * |x|
  {
    if n > 0 {
      var xs := seq(n, _ => x);
      assert xs[1..] == seq(n - 1, _ => x);
      TotalLengthCopies(x, n - 1);
    }
  }

  /**
    With a replacement string free of `$`, each match costs its own length and
    adds a wrapper of the replacement string and the 13 characters of the two
    tags: the result is longer than the text by exactly that much per match.
   */
  lemma ReplaceAllPlainLength(text: string, search: string, rep: string)
    requires '$' !in rep
    ensures var n := |MatchPositions(text, search, 0)|;
      |ReplaceAllHighlighted(text, search, rep)| + n * |search| == |text| + n * (|rep| + 13)
  {
    var hits := MatchPositions(text, search, 0);
    ReplaceAllPlain(text, search, rep);
    TotalLengthCopies(Markup(rep), |hits|);
  }
}
