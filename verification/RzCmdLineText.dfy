/** What splitting and joining do to text, in plain characters. */
module CommandWords {
  import opened Common
  import opened CommandText
  import opened CommandLaws
  import RzCmdLine

  predicate IsWord(w: string) {
    w != "" && forall k :: 0 <= k < |w| ==> w[k] !in "\n\t \""
  }

  /** Nothing but newlines, tabs and spaces. */
  predicate IsGap(g: string) {
    forall k :: 0 <= k < |g| ==> g[k] in "\n\t "
  }

  lemma {:induction false} WordIsPlain(w: string)
    requires forall k :: 0 <= k < |w| ==> w[k] !in "\n\t \""
    ensures Blanks(w) == 0 && QuoteFree(w)
    decreases |w|
  {
    if w != "" { WordIsPlain(w[1..]); }
  }

  /** Words with gaps between them. */
  function Spread(words: seq<string>, gaps: seq<string>): string
    requires |words| == |gaps| + 1
  {
    if gaps == [] then words[0] else words[0] + gaps[0] + Spread(words[1..], gaps[1..])
  }

  ghost predicate WordsAndGaps(words: seq<string>, gaps: seq<string>) {
    && |words| == |gaps| + 1
    && (forall k :: 0 <= k < |words| ==> IsWord(words[k]))
    && (forall k :: 0 <= k < |gaps| ==> IsGap(gaps[k]) && gaps[k] != "")
  }

  lemma {:induction false} SpreadEnds(words: seq<string>, gaps: seq<string>)
    requires WordsAndGaps(words, gaps)
    ensures var s := Spread(words, gaps); s != "" && !Blank(s[0]) && !Blank(s[|s| - 1])
    decreases |words|
  {
    if gaps != [] { SpreadEnds(words[1..], gaps[1..]); }
  }

  lemma SkipGap(g: string, s: string)
    requires IsGap(g) && (s != "" ==> !Blank(s[0]))
    ensures SkipBlanks(g + s) == s
  {
    RzCmdLine.SkipIsThere(g + s, |g|);
    assert (g + s)[|g|..] == s;
  }

  lemma {:induction false} RTrimGap(s: string, g: string)
    requires IsGap(g) && (s != "" ==> !Blank(s[|s| - 1]))
    ensures RTrim(s + g) == s
    decreases |g|
  {
    if g == "" {
      assert s + g == s;
    } else {
      assert (s + g)[..|s + g| - 1] == s + g[..|g| - 1] && (s + g)[|s + g| - 1] == g[|g| - 1];
      RTrimGap(s, g[..|g| - 1]);
    }
  }

  lemma TrimGaps(lead: string, s: string, trail: string)
    requires IsGap(lead) && IsGap(trail) && s != "" && !Blank(s[0]) && !Blank(s[|s| - 1])
    ensures Trim(lead + s + trail) == s
  {
    hide SkipBlanks, RTrim;
    assert lead + s + trail == lead + (s + trail) && (s + trail)[0] == s[0];
    SkipGap(lead, s + trail);
    RTrimGap(s, trail);
  }

  lemma WordThenGap(w: string, gap: string, rest: string)
    requires IsWord(w) && IsGap(gap) && gap != "" && rest != "" && !Blank(rest[0])
    ensures Parts(w + gap + rest) == [w] + Parts(rest)
  {
    hide Tokens, SkipBlanks, IsWord, IsGap;
    var s := w + gap + rest;
    assert s == w + (gap + rest);
    WordCut(w, gap, rest);
    PartsOfMore(s);
    assert s[|w|..] == gap + rest && s[..|w|] == w;
    SkipGap(gap, rest);
  }

  lemma WordCut(w: string, gap: string, rest: string)
    requires IsWord(w) && IsGap(gap) && (gap != "" || rest == "")
    ensures Cut(w + (gap + rest), false) == |w| && Unquote(w) == w
  {
    WordIsPlain(w);
    CutWord(w, gap + rest, false);
    NoQuotes(w);
    if gap != "" { assert (gap + rest)[0] == gap[0]; } else { assert gap + rest == ""; }
  }

  lemma {:induction false} PartsOfSpread(words: seq<string>, gaps: seq<string>)
    requires WordsAndGaps(words, gaps)
    ensures Parts(Spread(words, gaps)) == words
    decreases |words|
  {
    hide Parts, Tokens, Cut, Unquote, IsWord, IsGap;
    var w := words[0];
    if gaps == [] {
      WordCut(w, "", "");
      assert w + ("" + "") == w && w[..|w|] == w;
      PartsOfMore(w);
    } else {
      var rest := Spread(words[1..], gaps[1..]);
      SpreadEnds(words[1..], gaps[1..]);
      WordThenGap(w, gaps[0], rest);
      PartsOfSpread(words[1..], gaps[1..]);
      assert words == [w] + words[1..];
    }
  }

  /** Text splits into its words, wherever newlines, tabs and spaces stand between and around them. */
  lemma SplitWords(lead: string, words: seq<string>, gaps: seq<string>, trail: string)
    requires WordsAndGaps(words, gaps) && IsGap(lead) && IsGap(trail)
    ensures Split(lead + Spread(words, gaps) + trail) == words
  {
    hide Spread, Parts, Trim, Split;
    SpreadEnds(words, gaps);
    TrimGaps(lead, Spread(words, gaps), trail);
    PartsOfSpread(words, gaps);
    SplitIsParts(lead + Spread(words, gaps) + trail);
  }

  /** One newline, tab or space between two words. */
  lemma SplitTwo(v: string, b: char, w: string)
    requires IsWord(v) && IsWord(w) && b in "\n\t "
    ensures Split(v + [b] + w) == [v, w]
  {
    hide Split, IsWord;
    assert [v, w][1..] == [w] && [[b]][1..] == [];
    SplitWords("", [v, w], [[b]], "");
    assert "" + Spread([v, w], [[b]]) + "" == v + [b] + w;
  }

  /** Text between two quotes is one argument, whatever else is in it. */
  lemma SplitQuoted(t: string)
    requires '"' !in t
    ensures Split(['"'] + t + ['"']) == [t]
  {
    hide Parts, Trim, Split;
    var s: string := ['"'] + t + ['"'];
    assert "" + s + "" == s;
    TrimGaps("", s, "");
    SplitIsParts(s);
    QuotedCut(t);
    PartsOfMore(s);
    assert s[..|s|] == s && s[1..|s| - 1] == t;
  }

  /** A quote by itself is an empty argument, and so is no text at all. */
  lemma SplitLoneQuote()
    ensures Split(['"']) == [""] && Split("") == [""]
  {
    hide Parts, Trim, Split;
    var q: string := ['"'];
    assert "" + q + "" == q && q + "" == q;
    TrimGaps("", q, "");
    SplitIsParts(q);
    CutOne(q, '"', "", false);
    NothingCut();
    PartsOfMore(q);
    assert q[..1] == q && Join([""]) == "";
    NothingToSplit([""]);
  }

  /** A quote that is not closed takes the rest of the text, and stays. */
  lemma SplitOpenQuote(t: string)
    requires t != "" && '"' !in t && t[|t| - 1] !in "\n\t "
    ensures Split(['"'] + t) == [['"'] + t]
  {
    hide Parts, Trim, Split, Cut;
    var s: string := ['"'] + t;
    assert "" + s + "" == s && t + "" == t;
    TrimGaps("", s, "");
    SplitIsParts(s);
    CutOne(s, '"', t, false);
    CutInside(t, "");
    NothingCutIn(true);
    PartsOfMore(s);
    assert s[..|s|] == s;
  }

  lemma NothingCutIn(inQuotes: bool)
    ensures Cut("", inQuotes) == 0
  {
  }

  lemma QuotedCut(t: string)
    requires '"' !in t
    ensures var s: string := ['"'] + t + ['"']; Cut(s, false) == |s|
  {
    hide Cut;
    var close: string := ['"'];
    var s := close + t + close;
    assert s == ['"'] + (t + close);
    CutOne(s, '"', t + close, false);
    CutInside(t, close);
    CutOne(close, '"', "", true);
    NothingCut();
  }

  lemma NothingCut()
    ensures Cut("", false) == 0
  {
  }

  // ----- Joining -----

  /** Two words come out with one space between. */
  lemma JoinWords(v: string, w: string)
    requires IsWord(v) && IsWord(w)
    ensures Join([v]) == v && Join([v, w]) == v + " " + w
  {
    WordIsPlain(v);
    WordIsPlain(w);
    assert "" + v + "" == v && "" + w + "" == w && [v, w][1..] == [w];
    assert Quoted(v) == v && Quoted(w) == w;
  }

  /** An argument with one newline, tab or space comes out between two quotes. */
  lemma JoinBlank(v: string, b: char, w: string)
    requires IsWord(v) && IsWord(w) && b in "\n\t "
    ensures Join([v + [b] + w]) == ['"'] + (v + [b] + w) + ['"']
  {
    OneBlank(v, b, w);
    assert Quotes(1) == ['"'];
  }

  lemma OneBlank(v: string, b: char, w: string)
    requires IsWord(v) && IsWord(w) && b in "\n\t "
    ensures Blanks(v + [b] + w) == 1
  {
    hide IsWord;
    WordsAreBlankFree(v, w);
    BlanksAdd(v, [b]);
    BlanksAdd(v + [b], w);
    assert [b][1..] == "";
    assert Blanks([b]) == 1;
  }

  lemma WordsAreBlankFree(v: string, w: string)
    requires IsWord(v) && IsWord(w)
    ensures Blanks(v) == 0 && Blanks(w) == 0
  {
    WordIsPlain(v);
    WordIsPlain(w);
  }

  /** With two of them there are two quotes in front. */
  lemma JoinTwoBlanks(u: string, b: char, v: string, c: char, w: string)
    requires IsWord(u) && IsWord(v) && IsWord(w) && b in "\n\t " && c in "\n\t "
    ensures Join([u + [b] + v + [c] + w]) == ['"', '"'] + (u + [b] + v + [c] + w) + ['"']
  {
    hide IsWord, Blanks;
    OneBlank(u, b, v);
    WordsAreBlankFree(u, w);
    BlanksAdd(u + [b] + v, [c]);
    BlanksAdd(u + [b] + v + [c], w);
    SingleBlank(c);
    assert Quotes(2) == ['"', '"'];
  }

  lemma SingleBlank(c: char)
    requires c in "\n\t "
    ensures Blanks([c]) == 1
  {
    assert [c][1..] == "";
  }
}
