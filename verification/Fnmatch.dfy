/** Filename matching: what a glob pattern means, and the single-backtrack loop
    that decides it.

    `Glob` gives the meaning.  A pattern is read into tokens, and a token list
    matches a string when the string can be cut into one piece per token.
    `Fnmatch` models the loop, which remembers only the last `*` it met. */
module Glob {

  import opened CStrings

  datatype Flags = Flags(noEscape: bool, pathname: bool, period: bool, leadingDir: bool, caseFold: bool)

  /** One member of a bracket expression. */
  datatype Item = One(c: char) | Range(lo: char, hi: char)

  datatype Token =
    | Star
    | Any
    | Lit(c: char)
    | Set(negate: bool, items: seq<Item>)
    | Never

  /** Lower-casing in the C locale. */
  function Lower(c: char): (l: char)
    ensures l == EOS <==> c == EOS
    ensures l == '/' <==> c == '/'
  {
    if 'A' <= c <= 'Z' then (c as int + 32) as char else c
  }

  function Fold(c: char, fl: Flags): char {
    if fl.caseFold then Lower(c) else c
  }

  predicate Equal(c: char, d: char, fl: Flags) {
    c == d || (fl.caseFold && Lower(c) == Lower(d))
  }

  // ----- Reading a pattern -----

  /** What a bracket expression turns out to be.  `next` is the index after `]`. */
  datatype Bracket =
    | Unterminated
    | HitsSlash
    | Closed(items: seq<Item>, next: nat)

  predicate Escapes(pat: CString, q: nat, fl: Flags) {
    At(pat, q) == '\\' && !fl.noEscape
  }

  /** `-` is a range operator unless it is the last character or stands before `]`. */
  predicate RangeFollows(pat: CString, q: nat) {
    At(pat, q) == '-' && At(pat, q + 1) != EOS && At(pat, q + 1) != ']'
  }

  /** One step through a bracket list: either it ends, or it has another item. */
  datatype Step = Stop(b: Bracket) | More(item: Item, next: nat)

  /** The item at q; a `]` at `first` is an ordinary member. */
  function ReadItem(pat: CString, q: nat, first: nat, fl: Flags): (r: Step)
    requires first <= q <= |pat|
    ensures r.More? ==> q < r.next <= |pat|
    ensures r.Stop? && r.b.Closed? ==> r.b == Closed([], q + 1) && q < |pat|
  {
    if q == |pat| then Stop(Unterminated)
    else if pat[q] == ']' && q > first then Stop(Closed([], q + 1))
    else if pat[q] == '/' && fl.pathname then Stop(HitsSlash)
    else
      var q1 := if Escapes(pat, q, fl) then q + 1 else q;
      if q1 == |pat| then Stop(Unterminated)
      else if RangeFollows(pat, q1 + 1) then
        var q2 := if Escapes(pat, q1 + 2, fl) then q1 + 3 else q1 + 2;
        if q2 == |pat| then Stop(Unterminated)
        else More(Range(Fold(pat[q1], fl), Fold(pat[q2], fl)), q2 + 1)
      else More(One(Fold(pat[q1], fl)), q1 + 1)
  }

  function AddItem(item: Item, b: Bracket): Bracket {
    if b.Closed? then b.(items := [item] + b.items) else b
  }

  /** The list of a bracket expression from q on. */
  function ReadItems(pat: CString, q: nat, first: nat, fl: Flags): (b: Bracket)
    requires first <= q <= |pat|
    ensures b.Closed? ==> q < b.next <= |pat|
    decreases |pat| - q
  {
    match ReadItem(pat, q, first, fl)
    case Stop(b) => b
    case More(item, next) => AddItem(item, ReadItems(pat, next, first, fl))
  }

  predicate Negated(pat: CString, p: nat) {
    At(pat, p) == '!' || At(pat, p) == '^'
  }

  /** The index where the list of the bracket expression opened before `p` begins. */
  function ListStart(pat: CString, p: nat): nat {
    if Negated(pat, p) then p + 1 else p
  }

  /** The tokens of the pattern from `p` on.  A `[` with no closing bracket is an
      ordinary character; a bracket that meets `/` in pathname mode, and a backslash
      that ends the pattern, match nothing. */
  function Tokens(pat: CString, p: nat, fl: Flags): seq<Token>
    requires p <= |pat|
    decreases |pat| - p
  {
    if p == |pat| then []
    else if pat[p] == '?' then [Any] + Tokens(pat, p + 1, fl)
    else if pat[p] == '*' then [Star] + Tokens(pat, p + 1, fl)
    else if pat[p] == '[' then
      var start := ListStart(pat, p + 1);
      match ReadItems(pat, start, start, fl)
      case Unterminated => [Lit('[')] + Tokens(pat, p + 1, fl)
      case HitsSlash => [Never]
      case Closed(items, next) => [Set(Negated(pat, p + 1), items)] + Tokens(pat, next, fl)
    else if Escapes(pat, p, fl) then
      if p + 1 == |pat| then [Never]
      else [Lit(pat[p + 1])] + Tokens(pat, p + 2, fl)
    else [Lit(pat[p])] + Tokens(pat, p + 1, fl)
  }

  // ----- The meaning of a token list -----

  predicate Contains(item: Item, c: char) {
    match item
    case One(d) => c == d
    case Range(lo, hi) => lo <= c <= hi
  }

  predicate AnyContains(items: seq<Item>, c: char) {
    exists k :: 0 <= k < |items| && Contains(items[k], c)
  }

  /** A period that only a literal period may match. */
  predicate LeadingPeriod(s: CString, i: nat, fl: Flags) {
    fl.period && At(s, i) == '.' && (i == 0 || (fl.pathname && At(s, i - 1) == '/'))
  }

  /** In pathname mode, s[i..j] has no slash; otherwise no restriction. */
  predicate Crossable(s: CString, i: nat, j: nat, fl: Flags)
    requires i <= j <= |s|
  {
    fl.pathname ==> forall k :: i <= k < j ==> s[k] != '/'
  }

  /** What a wildcard other than `*` asks of the character at i. */
  predicate Wild(s: CString, i: nat, fl: Flags)
    requires i < |s|
  {
    !(s[i] == '/' && fl.pathname) && !LeadingPeriod(s, i, fl)
  }

  /** Token t stands for s[i..j]. */
  predicate Piece(t: Token, s: CString, i: nat, j: nat, fl: Flags)
    requires i <= j <= |s|
  {
    match t
    case Star => !LeadingPeriod(s, i, fl) && Crossable(s, i, j, fl)
    case Any => j == i + 1 && Wild(s, i, fl)
    case Lit(c) => j == i + 1 && Equal(c, s[i], fl)
    case Set(negate, items) => j == i + 1 && Wild(s, i, fl) && AnyContains(items, Fold(s[i], fl)) != negate
    case Never => false
  }

  /** Where a match may end: at the end, or before a slash if only a leading
      directory has to match. */
  predicate MayEnd(s: CString, i: nat, fl: Flags) {
    i == |s| || (fl.leadingDir && At(s, i) == '/')
  }

  /** cuts[k] is where the piece of token k begins, and the last cut is where the match ends. */
  ghost predicate Alignment(toks: seq<Token>, s: CString, cuts: seq<nat>, fl: Flags) {
    && |cuts| == |toks| + 1
    && (forall k :: 0 <= k < |cuts| ==> cuts[k] <= |s|)
    && (forall k :: 0 <= k < |toks| ==> cuts[k] <= cuts[k + 1] && Piece(toks[k], s, cuts[k], cuts[k + 1], fl))
    && MayEnd(s, cuts[|toks|], fl)
  }

  /** The tokens match all of s from i: the meaning of a pattern. */
  ghost predicate MatchesFrom(toks: seq<Token>, s: CString, i: nat, fl: Flags) {
    exists cuts :: Alignment(toks, s, cuts, fl) && cuts[0] == i
  }

  ghost predicate PatternMatches(pat: CString, s: CString, fl: Flags) {
    MatchesFrom(Tokens(pat, 0, fl), s, 0, fl)
  }
}

/** Facts about glob matching that do not depend on any algorithm. */
module GlobLaws {
  import opened CStrings
  import opened Glob

  /** Matching one token at a time. */
  lemma MatchesCons(t: Token, rest: seq<Token>, s: CString, i: nat, fl: Flags)
    ensures MatchesFrom([t] + rest, s, i, fl)
       <==> exists j: nat :: i <= j <= |s| && Piece(t, s, i, j, fl) && MatchesFrom(rest, s, j, fl)
  {
    hide Piece, MayEnd;
    var toks := [t] + rest;
    if MatchesFrom(toks, s, i, fl) {
      var cuts :| Alignment(toks, s, cuts, fl) && cuts[0] == i;
      CutFirst(t, rest, s, cuts, fl);
    }
    if j: nat :| i <= j <= |s| && Piece(t, s, i, j, fl) && MatchesFrom(rest, s, j, fl) {
      var tail :| Alignment(rest, s, tail, fl) && tail[0] == j;
      AddFirst(t, rest, s, i, tail, fl);
    }
  }

  lemma CutFirst(t: Token, rest: seq<Token>, s: CString, cuts: seq<nat>, fl: Flags)
    requires Alignment([t] + rest, s, cuts, fl)
    ensures |cuts| >= 2 && cuts[0] <= cuts[1] <= |s| && Piece(t, s, cuts[0], cuts[1], fl)
    ensures Alignment(rest, s, cuts[1..], fl) && cuts[1..][0] == cuts[1]
  {
    hide Piece, MayEnd;
    var toks := [t] + rest;
    assert Piece(toks[0], s, cuts[0], cuts[1], fl);
    assert forall k :: 0 <= k < |rest| ==> toks[k + 1] == rest[k];
  }

  lemma AddFirst(t: Token, rest: seq<Token>, s: CString, i: nat, tail: seq<nat>, fl: Flags)
    requires Alignment(rest, s, tail, fl) && i <= tail[0] && tail[0] <= |s| && Piece(t, s, i, tail[0], fl)
    ensures Alignment([t] + rest, s, [i] + tail, fl)
  {
    hide Piece, MayEnd;
    var toks, cuts := [t] + rest, [i] + tail;
    assert forall k :: 0 < k < |toks| ==> toks[k] == rest[k - 1] && cuts[k] == tail[k - 1] && cuts[k + 1] == tail[k];
  }

  lemma MatchesNil(s: CString, i: nat, fl: Flags)
    requires i <= |s|
    ensures MatchesFrom([], s, i, fl) <==> MayEnd(s, i, fl)
  {
    if MayEnd(s, i, fl) {
      assert Alignment([], s, [i], fl);
    }
  }

  lemma MatchesSingle(t: Token, rest: seq<Token>, s: CString, i: nat, fl: Flags)
    requires i <= |s| && !t.Star?
    ensures MatchesFrom([t] + rest, s, i, fl)
       <==> i < |s| && Piece(t, s, i, i + 1, fl) && MatchesFrom(rest, s, i + 1, fl)
  {
    MatchesCons(t, rest, s, i, fl);
  }

  /** Two stars in a row mean what one does. */
  lemma StarStar(rest: seq<Token>, s: CString, i: nat, fl: Flags)
    requires i <= |s|
    ensures MatchesFrom([Star] + ([Star] + rest), s, i, fl) <==> MatchesFrom([Star] + rest, s, i, fl)
  {
    MatchesCons(Star, [Star] + rest, s, i, fl);
    MatchesCons(Star, rest, s, i, fl);
    if MatchesFrom([Star] + ([Star] + rest), s, i, fl) {
      var j: nat :| i <= j <= |s| && Piece(Star, s, i, j, fl) && MatchesFrom([Star] + rest, s, j, fl);
      MatchesCons(Star, rest, s, j, fl);
      var k: nat :| j <= k <= |s| && Piece(Star, s, j, k, fl) && MatchesFrom(rest, s, k, fl);
      assert Piece(Star, s, i, k, fl);
    }
    if MatchesFrom([Star] + rest, s, i, fl) {
      assert Piece(Star, s, i, i, fl);
    }
  }

  // ----- Why the last star is enough -----

  /** Letting the star before `toks` take one character or more beyond b. */
  ghost predicate Later(toks: seq<Token>, s: CString, b: nat, fl: Flags) {
    exists k: nat :: b < k <= |s| && Crossable(s, b, k, fl) && MatchesFrom(toks, s, k, fl)
  }

  /** A match that begins at i or further on, with no slash skipped in pathname mode. */
  ghost predicate FromHereOn(toks: seq<Token>, s: CString, i: nat, fl: Flags) {
    exists k: nat :: i <= k <= |s| && Crossable(s, i, k, fl) && MatchesFrom(toks, s, k, fl)
  }

  /** A token other than `*` moves both views of the match one character on. */
  lemma Consume(t: Token, rest: seq<Token>, s: CString, i: nat, fl: Flags)
    requires i < |s| && !t.Star? && Piece(t, s, i, i + 1, fl)
    ensures MatchesFrom([t] + rest, s, i, fl) <==> MatchesFrom(rest, s, i + 1, fl)
    ensures FromHereOn([t] + rest, s, i, fl) ==> FromHereOn(rest, s, i + 1, fl)
  {
    MatchesSingle(t, rest, s, i, fl);
    if FromHereOn([t] + rest, s, i, fl) {
      var k: nat :| i <= k <= |s| && Crossable(s, i, k, fl) && MatchesFrom([t] + rest, s, k, fl);
      MatchesSingle(t, rest, s, k, fl);
      assert Crossable(s, i + 1, k + 1, fl);
    }
  }

  lemma NothingLeft(t: Token, rest: seq<Token>, s: CString, fl: Flags)
    requires !t.Star?
    ensures !FromHereOn([t] + rest, s, |s|, fl)
    ensures !MatchesFrom([t] + rest, s, |s|, fl)
  {
    MatchesSingle(t, rest, s, |s|, fl);
  }

  lemma NeverMatches(rest: seq<Token>, s: CString, i: nat, fl: Flags)
    requires i <= |s|
    ensures !MatchesFrom([Never] + rest, s, i, fl) && !FromHereOn([Never] + rest, s, i, fl)
  {
    forall k: nat | i <= k <= |s| ensures !MatchesFrom([Never] + rest, s, k, fl) {
      MatchesSingle(Never, rest, s, k, fl);
    }
  }

  lemma StarBlocked(rest: seq<Token>, s: CString, i: nat, fl: Flags)
    requires i <= |s| && LeadingPeriod(s, i, fl)
    ensures !MatchesFrom([Star] + rest, s, i, fl)
  {
    MatchesCons(Star, rest, s, i, fl);
  }

  /** The greedy step: reaching a star early is at least as good as reaching it late. */
  lemma StarAbsorbs(rest: seq<Token>, s: CString, i: nat, fl: Flags)
    requires i <= |s| && !LeadingPeriod(s, i, fl)
    ensures FromHereOn([Star] + rest, s, i, fl) ==> MatchesFrom([Star] + rest, s, i, fl)
    ensures MatchesFrom([Star] + rest, s, i, fl) <==> MatchesFrom(rest, s, i, fl) || Later(rest, s, i, fl)
  {
    MatchesCons(Star, rest, s, i, fl);
    if FromHereOn([Star] + rest, s, i, fl) {
      var k: nat :| i <= k <= |s| && Crossable(s, i, k, fl) && MatchesFrom([Star] + rest, s, k, fl);
      MatchesCons(Star, rest, s, k, fl);
      var j: nat :| k <= j <= |s| && Piece(Star, s, k, j, fl) && MatchesFrom(rest, s, j, fl);
      assert Piece(Star, s, i, j, fl);
    }
    if MatchesFrom(rest, s, i, fl) {
      assert Piece(Star, s, i, i, fl);
    }
    if Later(rest, s, i, fl) {
      var k: nat :| i < k <= |s| && Crossable(s, i, k, fl) && MatchesFrom(rest, s, k, fl);
      assert Piece(Star, s, i, k, fl);
    }
  }

  /** The first slash at or after i, or the length of s when there is none. */
  function FirstSlash(s: CString, i: nat): (k: nat)
    requires i <= |s|
    ensures i <= k <= |s|
    ensures k < |s| ==> s[k] == '/'
    ensures forall j :: i <= j < k ==> s[j] != '/'
    decreases |s| - i
  {
    if i == |s| || s[i] == '/' then i else FirstSlash(s, i + 1)
  }

  lemma StarLast(s: CString, i: nat, fl: Flags)
    requires i <= |s| && !LeadingPeriod(s, i, fl)
    ensures MatchesFrom([Star] + [], s, i, fl) <==> !fl.pathname || fl.leadingDir || FirstSlash(s, i) == |s|
  {
    MatchesCons(Star, [], s, i, fl);
    var k := if fl.pathname then FirstSlash(s, i) else |s|;
    assert Piece(Star, s, i, k, fl);
    MatchesNil(s, k, fl);
    forall j: nat | i <= j <= |s| ensures MatchesFrom([], s, j, fl) <==> MayEnd(s, j, fl) {
      MatchesNil(s, j, fl);
    }
  }

  /** In pathname mode a star before a slash must reach exactly to the next slash. */
  lemma StarThenSlash(rest: seq<Token>, s: CString, i: nat, fl: Flags)
    requires i <= |s| && fl.pathname && !LeadingPeriod(s, i, fl)
    ensures var k := FirstSlash(s, i);
      MatchesFrom([Star] + ([Lit('/')] + rest), s, i, fl)
      <==> k < |s| && MatchesFrom([Lit('/')] + rest, s, k, fl)
  {
    var k := FirstSlash(s, i);
    var toks := [Lit('/')] + rest;
    MatchesCons(Star, toks, s, i, fl);
    assert Piece(Star, s, i, k, fl);
    if MatchesFrom([Star] + toks, s, i, fl) {
      var j: nat :| i <= j <= |s| && Piece(Star, s, i, j, fl) && MatchesFrom(toks, s, j, fl);
      MatchesSingle(Lit('/'), rest, s, j, fl);
      assert s[j] == '/';
    }
  }

  /** Giving the remembered star one more character. */
  lemma Retry(toks: seq<Token>, s: CString, b: nat, fl: Flags)
    requires b <= |s|
    ensures Later(toks, s, b, fl)
       <==> b < |s| && !(s[b] == '/' && fl.pathname)
            && (MatchesFrom(toks, s, b + 1, fl) || Later(toks, s, b + 1, fl))
  {
    if b < |s| && !(s[b] == '/' && fl.pathname) {
      if MatchesFrom(toks, s, b + 1, fl) {
        assert Crossable(s, b, b + 1, fl);
      }
      if k: nat :| b + 1 < k <= |s| && Crossable(s, b + 1, k, fl) && MatchesFrom(toks, s, k, fl) {
        assert Crossable(s, b, k, fl);
      }
      if k: nat :| b < k <= |s| && Crossable(s, b, k, fl) && MatchesFrom(toks, s, k, fl) {
        assert k == b + 1 || Crossable(s, b + 1, k, fl);
      }
    }
  }

  // ----- Consequences of the meaning -----

  /** In pathname mode the slashes of the matched text are exactly the characters that the
      pattern's literal slashes stand for, one for one and in order. */
  lemma SlashesAlign(toks: seq<Token>, s: CString, cuts: seq<nat>, fl: Flags, x: nat)
    requires fl.pathname && Alignment(toks, s, cuts, fl) && cuts[0] <= x < cuts[|toks|]
    ensures s[x] == '/' <==> exists k :: 0 <= k < |toks| && cuts[k] == x && toks[k] == Lit('/')
    ensures forall k, l :: 0 <= k < l < |toks| && toks[k] == Lit('/') ==> cuts[k] < cuts[l]
  {
    var k := 0;
    while cuts[k + 1] <= x
      invariant 0 <= k < |toks| && cuts[k] <= x
      decreases |toks| - k
    {
      k := k + 1;
    }
    assert Piece(toks[k], s, cuts[k], cuts[k + 1], fl);
    if l :| 0 <= l < |toks| && cuts[l] == x && toks[l] == Lit('/') {
      assert Piece(toks[l], s, x, cuts[l + 1], fl);
    }
    forall a, b | 0 <= a < b < |toks| && toks[a] == Lit('/') ensures cuts[a] < cuts[b] {
      assert Piece(toks[a], s, cuts[a], cuts[a + 1], fl);
      CutsOrdered(toks, s, cuts, fl, a + 1, b);
    }
  }

  lemma {:induction false} CutsOrdered(toks: seq<Token>, s: CString, cuts: seq<nat>, fl: Flags, a: nat, b: nat)
    requires Alignment(toks, s, cuts, fl) && a <= b <= |toks|
    ensures cuts[a] <= cuts[b]
    decreases b - a
  {
    if a < b {
      CutsOrdered(toks, s, cuts, fl, a + 1, b);
    }
  }

  /** A text with a backslash before every character. */
  function Quote(t: CString): (q: CString)
    ensures |q| == 2 * |t|
  {
    if t == "" then "" else ['\\', t[0]] + Quote(t[1..])
  }

  lemma {:induction false} QuoteAt(t: CString, k: nat)
    requires k < |t|
    ensures Quote(t)[2 * k] == '\\' && Quote(t)[2 * k + 1] == t[k]
  {
    if k > 0 {
      QuoteAt(t[1..], k - 1);
    }
  }

  lemma {:induction false} QuotedMatchesFrom(t: CString, k: nat, s: CString, i: nat, fl: Flags)
    requires k <= |t| && i <= |s|
    requires !fl.noEscape && !fl.caseFold && !fl.leadingDir
    ensures MatchesFrom(Tokens(Quote(t), 2 * k, fl), s, i, fl) <==> t[k..] == s[i..]
    decreases |t| - k
  {
    hide MatchesFrom, Quote;
    if k == |t| {
      MatchesNil(s, i, fl);
    } else {
      QuoteAt(t, k);
      var rest := Tokens(Quote(t), 2 * (k + 1), fl);
      assert Tokens(Quote(t), 2 * k, fl) == [Lit(t[k])] + rest;
      MatchesSingle(Lit(t[k]), rest, s, i, fl);
      if i < |s| {
        QuotedMatchesFrom(t, k + 1, s, i + 1, fl);
        assert t[k..] == [t[k]] + t[k + 1..] && s[i..] == [s[i]] + s[i + 1..];
      }
    }
  }

  /** A fully quoted text, as a pattern, matches that text and nothing else. */
  lemma QuotedMatchesItself(t: CString, s: CString, fl: Flags)
    requires !fl.noEscape && !fl.caseFold && !fl.leadingDir
    ensures PatternMatches(Quote(t), s, fl) <==> s == t
  {
    QuotedMatchesFrom(t, 0, s, 0, fl);
    assert t[0..] == t && s[0..] == s;
  }
}

/** The loop of fnmatch1 and the bracket scanner it calls. */
module Fnmatch {
  import opened CStrings
  import opened Glob
  import opened GlobLaws

  const FNM_NOMATCH := 1

  datatype RangeResult = RANGE_ERROR | RANGE_NOMATCH | RANGE_MATCH

  /** What the scanner answers once `b` is read, `ok` telling whether an earlier item held test. */
  function Outcome(b: Bracket, test: char, ok: bool, negate: bool): RangeResult {
    match b
    case Unterminated => RANGE_ERROR
    case HitsSlash => RANGE_NOMATCH
    case Closed(items, _) => if (ok || AnyContains(items, test)) == negate then RANGE_NOMATCH else RANGE_MATCH
  }

  /** Bracket b with ok answers as bracket d with okd, and both end at the same place. */
  predicate SameAnswer(b: Bracket, okb: bool, d: Bracket, okd: bool, test: char, negate: bool) {
    && Outcome(b, test, okb, negate) == Outcome(d, test, okd, negate)
    && (b.Closed? <==> d.Closed?)
    && (b.Closed? ==> b.next == d.next)
  }

  lemma OutcomeOfItem(item: Item, b: Bracket, test: char, ok: bool, negate: bool)
    ensures Outcome(AddItem(item, b), test, ok, negate) == Outcome(b, test, ok || Contains(item, test), negate)
  {
    if b.Closed? {
      var all := [item] + b.items;
      assert all[0] == item;
      assert forall k :: 0 <= k < |b.items| ==> all[k + 1] == b.items[k];
      assert AnyContains(all, test) <==> Contains(item, test) || AnyContains(b.items, test) by {
        if k :| 0 <= k < |b.items| && Contains(b.items[k], test) {
          assert Contains(all[k + 1], test);
        }
      }
    }
  }

  /** Where a list ends, or a slash breaks it off. */
  lemma ListStops(pat: CString, q: nat, first: nat, fl: Flags)
    requires first <= q <= |pat|
    ensures ghost var b := ReadItems(pat, q, first, fl);
      if At(pat, q) == ']' && q > first then b == Closed([], q + 1) && q < |pat|
      else if At(pat, q) == EOS then b == Unterminated && q == |pat|
      else if At(pat, q) == '/' && fl.pathname then b == HitsSlash
      else q < |pat|
  {
  }

  lemma ListGoesOn(pat: CString, q: nat, first: nat, fl: Flags)
    requires first <= q <= |pat|
    ensures ghost var b, step := ReadItems(pat, q, first, fl), ReadItem(pat, q, first, fl);
      (step.Stop? ==> b == step.b) &&
      (step.More? ==> b == AddItem(step.item, ReadItems(pat, step.next, first, fl)))
  {
    hide ReadItem;
  }

  lemma NothingMore(ok: bool, test: char, negate: bool, next: nat)
    ensures Outcome(Closed([], next), test, ok, negate) == if ok == negate then RANGE_NOMATCH else RANGE_MATCH
  {
  }

  /** The body of the scanner's loop once the list is known not to end at q: one character
      or one range, and whether it holds test. */
  method ScanItem(pat: CString, q: nat, first: nat, test: char, fl: Flags) returns (broken: bool, next: nat, hit: bool)
    requires first <= q < |pat| && !(pat[q] == ']' && q > first) && !(pat[q] == '/' && fl.pathname)
    ensures var step := ReadItem(pat, q, first, fl);
      if broken then step == Stop(Unterminated) else step.More? && next == step.next && hit == Contains(step.item, test)
  {
    broken, next, hit := false, q, false;
    if At(pat, next) == '\\' && !fl.noEscape {
      next := next + 1;
    }
    var c := At(pat, next);
    if c == EOS {
      return true, next, false;
    }
    next := next + 1;
    c := Fold(c, fl);
    if At(pat, next) == '-' && At(pat, next + 1) != EOS && At(pat, next + 1) != ']' {
      next := next + 1;
      if At(pat, next) == '\\' && !fl.noEscape {
        next := next + 1;
      }
      var c2 := At(pat, next);
      if c2 == EOS {
        return true, next, false;
      }
      next := next + 1;
      c2 := Fold(c2, fl);
      if c <= test && test <= c2 {
        hit := true;
      }
    } else if c == test {
      hit := true;
    }
  }

  /** The list of a bracket, from behind its opening. */
  function BracketAt(pat: CString, p: nat, fl: Flags): Bracket
    requires p <= |pat|
  {
    ReadItems(pat, ListStart(pat, p), ListStart(pat, p), fl)
  }

  /** Scans the bracket expression that opened before p. */
  method RangeMatch(pat: CString, p: nat, test0: char, fl: Flags) returns (r: RangeResult, newp: nat)
    requires p <= |pat|
    ensures var b := BracketAt(pat, p, fl);
      && r == Outcome(b, Fold(test0, fl), false, Negated(pat, p))
      && (b.Closed? ==> newp == b.next)
  {
    hide ReadItem, ReadItems, AnyContains, Fold;
    var pattern := p;
    var negate := At(pat, pattern) == '!' || At(pat, pattern) == '^';
    if negate {
      pattern := pattern + 1;
    }
    var test := Fold(test0, fl);
    var ok := false;
    var origpat := pattern;
    newp := p;
    ghost var all := ReadItems(pat, origpat, origpat, fl);
    while true
      invariant origpat <= pattern <= |pat|
      invariant SameAnswer(all, false, ReadItems(pat, pattern, origpat, fl), ok, test, negate)
      decreases |pat| - pattern
    {
      ListStops(pat, pattern, origpat, fl);
      ListGoesOn(pat, pattern, origpat, fl);
      if At(pat, pattern) == ']' && pattern > origpat {
        pattern := pattern + 1;
        NothingMore(ok, test, negate, pattern);
        break;
      } else if At(pat, pattern) == EOS {
        return RANGE_ERROR, newp;
      } else if At(pat, pattern) == '/' && fl.pathname {
        return RANGE_NOMATCH, newp;
      }
      var broken, next, hit := ScanItem(pat, pattern, origpat, test, fl);
      if broken {
        return RANGE_ERROR, newp;
      }
      OutcomeOfItem(ReadItem(pat, pattern, origpat, fl).item, ReadItems(pat, next, origpat, fl), test, ok, negate);
      pattern := next;
      ok := ok || hit;
    }
    newp := pattern;
    r := if ok == negate then RANGE_NOMATCH else RANGE_MATCH;
  }

  // ----- What the loop keeps -----

  /** The last `*` with a character left to give: the pattern after it and the place in the string. */
  datatype Saved = NoStar | LastStar(pattern: nat, at: nat)

  ghost predicate CanRetry(pat: CString, s: CString, bt: Saved, fl: Flags) {
    bt.LastStar? && bt.pattern <= |pat| && Later(Tokens(pat, bt.pattern, fl), s, bt.at, fl)
  }

  /** The whole pattern matches exactly when the rest does from here, or the last star can
      take more; and in the second case the rest also matches from here or further on. */
  ghost predicate OnTrack(want: bool, cur: seq<Token>, s: CString, i: nat, retry: bool, fl: Flags) {
    && (want <==> MatchesFrom(cur, s, i, fl) || retry)
    && (retry ==> FromHereOn(cur, s, i, fl))
  }

  lemma TrackDead(want: bool, cur: seq<Token>, s: CString, i: nat, retry: bool, fl: Flags)
    requires i <= |s| && OnTrack(want, cur, s, i, retry, fl)
    requires !FromHereOn(cur, s, i, fl)
    ensures !want
  {
    assert Crossable(s, i, i, fl);
  }

  lemma TrackStar(want: bool, rest: seq<Token>, s: CString, i: nat, retry: bool, fl: Flags)
    requires i <= |s| && !LeadingPeriod(s, i, fl) && OnTrack(want, [Star] + rest, s, i, retry, fl)
    ensures want <==> MatchesFrom([Star] + rest, s, i, fl)
    ensures OnTrack(want, rest, s, i, Later(rest, s, i, fl), fl)
  {
    StarAbsorbs(rest, s, i, fl);
  }

  lemma TrackRetry(pat: CString, s: CString, bt: Saved, fl: Flags)
    requires bt.LastStar? && bt.pattern <= |pat| && bt.at <= |s|
    ensures var b, toks := bt.at, Tokens(pat, bt.pattern, fl);
      if b == |s| || (s[b] == '/' && fl.pathname) then !CanRetry(pat, s, bt, fl)
      else OnTrack(CanRetry(pat, s, bt, fl), toks, s, b + 1, CanRetry(pat, s, bt.(at := b + 1), fl), fl)
  {
    Retry(Tokens(pat, bt.pattern, fl), s, bt.at, fl);
  }

  lemma StarRun(pat: CString, p: nat, q: nat, s: CString, fl: Flags)
    requires p <= q <= |pat| && forall k :: p <= k < q ==> pat[k] == '*'
    ensures forall i: nat :: i <= |s| ==>
      (MatchesFrom([Star] + Tokens(pat, p, fl), s, i, fl) <==> MatchesFrom([Star] + Tokens(pat, q, fl), s, i, fl))
    decreases q - p
  {
    if p < q {
      StarRun(pat, p + 1, q, s, fl);
      forall i: nat | i <= |s|
        ensures MatchesFrom([Star] + Tokens(pat, p, fl), s, i, fl)
           <==> MatchesFrom([Star] + Tokens(pat, p + 1, fl), s, i, fl)
      {
        StarStar(Tokens(pat, p + 1, fl), s, i, fl);
      }
    }
  }

  lemma TrackStarRun(want: bool, pat: CString, p: nat, q: nat, s: CString, i: nat, retry: bool, fl: Flags)
    requires p <= q <= |pat| && forall k :: p <= k < q ==> pat[k] == '*'
    requires i <= |s| && OnTrack(want, [Star] + Tokens(pat, p, fl), s, i, retry, fl)
    ensures OnTrack(want, [Star] + Tokens(pat, q, fl), s, i, retry, fl)
  {
    StarRun(pat, p, q, s, fl);
  }

  /** What one round of the loop decides: the answer, a mismatch, or a new place to go on from. */
  datatype Round =
    | Answer(r: int)
    | Mismatch
    | GoOn(pattern: nat, at: nat, bt: Saved)

  ghost predicate Sound(round: Round, want: bool, pat: CString, p: nat, s: CString, bt: Saved, fl: Flags) {
    match round
    case Answer(r) => (r == 0 && want) || (r == FNM_NOMATCH && !want)
    case Mismatch => want <==> CanRetry(pat, s, bt, fl)
    case GoOn(q, j, saved) =>
      && p < q <= |pat| && j <= |s| && (saved == bt || saved == LastStar(q, j))
      && OnTrack(want, Tokens(pat, q, fl), s, j, CanRetry(pat, s, saved, fl), fl)
  }

  /** The loop of fnmatch1: zero exactly when the pattern matches. */
  method Fnmatch1(pat: CString, s: CString, fl: Flags) returns (r: int)
    ensures r == 0 || r == FNM_NOMATCH
    ensures r == 0 <==> PatternMatches(pat, s, fl)
  {
    var pattern: nat, at: nat, bt := 0, 0, NoStar;
    ghost var want := PatternMatches(pat, s, fl);
    while true
      invariant pattern <= |pat| && at <= |s|
      invariant bt.LastStar? ==> 0 < bt.pattern <= pattern && bt.at <= |s|
      invariant OnTrack(want, Tokens(pat, pattern, fl), s, at, CanRetry(pat, s, bt, fl), fl)
      decreases |pat| - (if bt.LastStar? then bt.pattern else 0),
                |s| - (if bt.LastStar? then bt.at else 0),
                |pat| - pattern
    {
      var round := OneRound(pat, pattern, s, at, bt, fl, want);
      match round {
        case Answer(a) =>
          return a;
        case GoOn(p, i, saved) =>
          pattern, at, bt := p, i, saved;
        case Mismatch =>
          // goto backtrack
          if bt.NoStar? {
            return FNM_NOMATCH;
          }
          TrackRetry(pat, s, bt, fl);
          var sc := At(s, bt.at);
          if sc == EOS {
            return FNM_NOMATCH;
          }
          if sc == '/' && fl.pathname {
            return FNM_NOMATCH;
          }
          bt := bt.(at := bt.at + 1);
          pattern := bt.pattern;
          at := bt.at;
      }
    }
  }

  /** The switch on the next pattern character. */
  method OneRound(pat: CString, p: nat, s: CString, i: nat, bt: Saved, fl: Flags, ghost want: bool)
      returns (round: Round)
    requires p <= |pat| && i <= |s|
    requires bt.LastStar? ==> 0 < bt.pattern <= p && bt.at <= |s|
    requires OnTrack(want, Tokens(pat, p, fl), s, i, CanRetry(pat, s, bt, fl), fl)
    ensures Sound(round, want, pat, p, s, bt, fl)
  {
    var pc := At(pat, p);
    if pc == EOS {
      round := EndRound(pat, p, s, i, bt, fl, want);
    } else if pc == '?' {
      round := AnyRound(pat, p, s, i, bt, fl, want);
    } else if pc == '*' {
      round := StarRound(pat, p, s, i, bt, fl, want);
    } else if pc == '[' {
      round := BracketRound(pat, p, s, i, bt, fl, want);
    } else if pc == '\\' && !fl.noEscape {
      if p + 1 == |pat| {
        NeverMatches([], s, i, fl);
        assert Tokens(pat, p, fl) == [Never] + [];
        TrackDead(want, [Never] + [], s, i, CanRetry(pat, s, bt, fl), fl);
        return Answer(FNM_NOMATCH);
      }
      round := LiteralRound(pat, p, pat[p + 1], p + 2, s, i, bt, fl, want);
    } else {
      round := LiteralRound(pat, p, pc, p + 1, s, i, bt, fl, want);
    }
  }

  method EndRound(pat: CString, p: nat, s: CString, i: nat, bt: Saved, fl: Flags, ghost want: bool)
      returns (round: Round)
    requires p == |pat| && i <= |s|
    requires OnTrack(want, Tokens(pat, p, fl), s, i, CanRetry(pat, s, bt, fl), fl)
    ensures Sound(round, want, pat, p, s, bt, fl)
  {
    var sc := At(s, i);
    MatchesNil(s, i, fl);
    if fl.leadingDir && sc == '/' {
      return Answer(0);
    }
    if sc == EOS {
      return Answer(0);
    }
    return Mismatch;
  }

  method AnyRound(pat: CString, p: nat, s: CString, i: nat, bt: Saved, fl: Flags, ghost want: bool)
      returns (round: Round)
    requires p < |pat| && i <= |s| && pat[p] == '?'
    requires OnTrack(want, Tokens(pat, p, fl), s, i, CanRetry(pat, s, bt, fl), fl)
    ensures Sound(round, want, pat, p, s, bt, fl)
  {
    var sc := At(s, i);
    ghost var rest := Tokens(pat, p + 1, fl);
    if sc == EOS {
      NothingLeft(Any, rest, s, fl);
      TrackDead(want, [Any] + rest, s, i, CanRetry(pat, s, bt, fl), fl);
      return Answer(FNM_NOMATCH);
    }
    MatchesSingle(Any, rest, s, i, fl);
    if sc == '/' && fl.pathname {
      return Mismatch;
    }
    if sc == '.' && fl.period && (i == 0 || (fl.pathname && s[i - 1] == '/')) {
      return Mismatch;
    }
    Consume(Any, rest, s, i, fl);
    return GoOn(p + 1, i + 1, bt);
  }

  /** The label norm: compare one character. */
  method LiteralRound(pat: CString, p: nat, c: char, next: nat, s: CString, i: nat, bt: Saved, fl: Flags,
      ghost want: bool)
    returns (round: Round)
    requires p < next <= |pat| && i <= |s| && c != EOS
    requires Tokens(pat, p, fl) == [Lit(c)] + Tokens(pat, next, fl)
    requires OnTrack(want, Tokens(pat, p, fl), s, i, CanRetry(pat, s, bt, fl), fl)
    ensures Sound(round, want, pat, p, s, bt, fl)
  {
    var sc := At(s, i);
    ghost var rest := Tokens(pat, next, fl);
    MatchesSingle(Lit(c), rest, s, i, fl);
    if c == sc || (fl.caseFold && Lower(c) == Lower(sc)) {
      Consume(Lit(c), rest, s, i, fl);
      return GoOn(next, i + 1, bt);
    }
    return Mismatch;
  }

  method StarRound(pat: CString, p: nat, s: CString, i: nat, bt: Saved, fl: Flags, ghost want: bool)
      returns (round: Round)
    requires p < |pat| && i <= |s| && pat[p] == '*'
    requires OnTrack(want, Tokens(pat, p, fl), s, i, CanRetry(pat, s, bt, fl), fl)
    ensures Sound(round, want, pat, p, s, bt, fl)
  {
    var q := p + 1;
    while At(pat, q) == '*'
      invariant p < q <= |pat| && forall k :: p < k < q ==> pat[k] == '*'
      decreases |pat| - q
    {
      q := q + 1;
    }
    ghost var retry, rest := CanRetry(pat, s, bt, fl), Tokens(pat, q, fl);
    TrackStarRun(want, pat, p + 1, q, s, i, retry, fl);
    if At(s, i) == '.' && fl.period && (i == 0 || (fl.pathname && s[i - 1] == '/')) {
      StarBlocked(rest, s, i, fl);
      return Mismatch;
    }
    TrackStar(want, rest, s, i, retry, fl);
    if At(pat, q) == EOS {
      StarLast(s, i, fl);
      if fl.pathname {
        return Answer(if fl.leadingDir || FirstSlash(s, i) == |s| then 0 else FNM_NOMATCH);
      } else {
        return Answer(0);
      }
    } else if At(pat, q) == '/' && fl.pathname {
      StarThenSlash(Tokens(pat, q + 1, fl), s, i, fl);
      var at := FirstSlash(s, i);
      if at == |s| {
        return Answer(FNM_NOMATCH);
      }
      assert Crossable(s, at, at, fl);
      return GoOn(q, at, bt);
    }
    return GoOn(q, i, LastStar(q, i));
  }

  /** What a bracket stands for, as its list is read. */
  ghost predicate IsBracket(pat: CString, p: nat, b: Bracket, t: Token, rest: seq<Token>, fl: Flags)
    requires p < |pat|
  {
    match b
    case Unterminated => t == Lit('[') && rest == Tokens(pat, p + 1, fl)
    case HitsSlash => t == Never && rest == []
    case Closed(items, next) =>
      t == Set(Negated(pat, p + 1), items) && p < next <= |pat| && rest == Tokens(pat, next, fl)
  }

  lemma BracketParts(pat: CString, p: nat, fl: Flags) returns (t: Token, rest: seq<Token>)
    requires p < |pat| && pat[p] == '['
    ensures !t.Star? && Tokens(pat, p, fl) == [t] + rest && IsBracket(pat, p, BracketAt(pat, p + 1, fl), t, rest, fl)
  {
    hide ReadItems;
    var b := BracketAt(pat, p + 1, fl);
    match b {
      case Unterminated => t, rest := Lit('['), Tokens(pat, p + 1, fl);
      case HitsSlash => t, rest := Never, [];
      case Closed(items, next) => t, rest := Set(Negated(pat, p + 1), items), Tokens(pat, next, fl);
    }
  }

  /** A guarded slash or dot is not taken, whatever the list says. */
  lemma BracketGuarded(pat: CString, p: nat, b: Bracket, t: Token, rest: seq<Token>, s: CString, i: nat, fl: Flags)
    requires p < |pat| && IsBracket(pat, p, b, t, rest, fl) && i < |s| && !Wild(s, i, fl)
    ensures !Piece(t, s, i, i + 1, fl)
  {
    hide Tokens, Negated;
  }

  /** Otherwise the scanner's answer decides. */
  lemma BracketDecides(pat: CString, p: nat, b: Bracket, t: Token, rest: seq<Token>, s: CString, i: nat, fl: Flags)
    requires p < |pat| && IsBracket(pat, p, b, t, rest, fl) && i < |s| && Wild(s, i, fl)
    ensures var r := Outcome(b, Fold(s[i], fl), false, Negated(pat, p + 1));
      && (r == RANGE_ERROR ==> t == Lit('[') && rest == Tokens(pat, p + 1, fl))
      && (r == RANGE_MATCH ==>
            Piece(t, s, i, i + 1, fl) && b.Closed? && p < b.next <= |pat| && rest == Tokens(pat, b.next, fl))
      && (r == RANGE_NOMATCH ==> !Piece(t, s, i, i + 1, fl))
  {
    hide Tokens, Negated, Wild, Fold;
  }

  method BracketRound(pat: CString, p: nat, s: CString, i: nat, bt: Saved, fl: Flags, ghost want: bool)
      returns (round: Round)
    requires p < |pat| && i <= |s| && pat[p] == '['
    requires OnTrack(want, Tokens(pat, p, fl), s, i, CanRetry(pat, s, bt, fl), fl)
    ensures Sound(round, want, pat, p, s, bt, fl)
  {
    hide Tokens, MatchesFrom, CanRetry, ReadItems, FromHereOn, IsBracket, BracketAt, Piece;
    ghost var t, rest := BracketParts(pat, p, fl);
    ghost var b := BracketAt(pat, p + 1, fl);
    var sc := At(s, i);
    if sc == EOS {
      NothingLeft(t, rest, s, fl);
      TrackDead(want, [t] + rest, s, i, CanRetry(pat, s, bt, fl), fl);
      return Answer(FNM_NOMATCH);
    }
    MatchesSingle(t, rest, s, i, fl);
    if sc == '/' && fl.pathname {
      BracketGuarded(pat, p, b, t, rest, s, i, fl);
      return Mismatch;
    }
    if sc == '.' && fl.period && (i == 0 || (fl.pathname && s[i - 1] == '/')) {
      BracketGuarded(pat, p, b, t, rest, s, i, fl);
      return Mismatch;
    }
    BracketDecides(pat, p, b, t, rest, s, i, fl);
    var m, newp := RangeMatch(pat, p + 1, sc, fl);
    match m {
      case RANGE_ERROR =>
        round := LiteralRound(pat, p, '[', p + 1, s, i, bt, fl, want);
      case RANGE_MATCH =>
        Consume(t, rest, s, i, fl);
        round := GoOn(newp, i + 1, bt);
      case RANGE_NOMATCH =>
        round := Mismatch;
    }
  }

  /** fnmatch: zero exactly when the string can be cut into one piece per token of the pattern. */
  method FnMatch(pattern: CString, text: CString, fl: Flags) returns (r: int)
    ensures r == 0 || r == FNM_NOMATCH
    ensures r == 0 <==> PatternMatches(pattern, text, fl)
  {
    r := Fnmatch1(pattern, text, fl);
  }
}
