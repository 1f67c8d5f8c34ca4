/** What patterns match, read off their text: the meaning of `Glob` in plain characters. */
module GlobText {
  import opened CStrings
  import opened Glob
  import opened GlobLaws

  // ----- The rest of a pattern, and of a string, by itself -----

  function Moved(b: Bracket, d: nat): Bracket {
    if b.Closed? then b.(next := b.next + d) else b
  }

  /** t is what stands in pat from d on. */
  ghost predicate Tail(pat: CString, d: nat, t: CString) {
    |pat| == d + |t| && forall k: nat :: At(pat, d + k) == At(t, k)
  }

  lemma ItemMoved(pat: CString, d: nat, t: CString, q: nat, first: nat, fl: Flags)
    requires Tail(pat, d, t) && first <= q <= |t|
    ensures var r, m := ReadItem(t, q, first, fl), ReadItem(pat, d + q, d + first, fl);
      m == if r.Stop? then Stop(Moved(r.b, d)) else More(r.item, r.next + d)
  {
    hide Fold;
    var q1 := if Escapes(t, q, fl) then q + 1 else q;
    assert At(pat, d + q) == At(t, q) && At(pat, d + q1) == At(t, q1);
    assert At(pat, d + (q1 + 1)) == At(t, q1 + 1) && At(pat, d + (q1 + 2)) == At(t, q1 + 2);
    assert At(pat, d + (q1 + 3)) == At(t, q1 + 3);
  }

  lemma {:induction false} ItemsMoved(pat: CString, d: nat, t: CString, q: nat, first: nat, fl: Flags)
    requires Tail(pat, d, t) && first <= q <= |t|
    ensures ReadItems(pat, d + q, d + first, fl) == Moved(ReadItems(t, q, first, fl), d)
    decreases |t| - q
  {
    hide ReadItem, Tail;
    assert |pat| == d + |t| by { TailLength(pat, d, t); }
    ItemMoved(pat, d, t, q, first, fl);
    var r := ReadItem(t, q, first, fl);
    if r.More? { ItemsMoved(pat, d, t, r.next, first, fl); }
  }

  lemma TailLength(pat: CString, d: nat, t: CString)
    requires Tail(pat, d, t)
    ensures |pat| == d + |t|
  {
  }

  /** A token that is no bracket, and the ones after it. */
  lemma PlainStep(pat: CString, p: nat, fl: Flags) returns (t: Token, next: nat)
    requires p < |pat| && pat[p] != '['
    ensures p < next <= |pat|
    ensures t == (if pat[p] == '?' then Any else if pat[p] == '*' then Star
                  else if !Escapes(pat, p, fl) then Lit(pat[p])
                  else if p + 1 < |pat| then Lit(pat[p + 1]) else Never)
    ensures next == if Escapes(pat, p, fl) && p + 1 < |pat| then p + 2 else p + 1
    ensures Tokens(pat, p, fl) == [t] + Tokens(pat, next, fl)
  {
    if pat[p] == '?' { t, next := Any, p + 1; }
    else if pat[p] == '*' { t, next := Star, p + 1; }
    else if !Escapes(pat, p, fl) { t, next := Lit(pat[p]), p + 1; }
    else if p + 1 < |pat| { t, next := Lit(pat[p + 1]), p + 2; }
    else { t, next := Never, p + 1; }
  }

  lemma BracketStep(pat: CString, p: nat, fl: Flags)
    requires p < |pat| && pat[p] == '['
    ensures ListStart(pat, p + 1) <= |pat|
    ensures var start := ListStart(pat, p + 1);
      Tokens(pat, p, fl) == match ReadItems(pat, start, start, fl)
        case Unterminated => [Lit('[')] + Tokens(pat, p + 1, fl)
        case HitsSlash => [Never]
        case Closed(items, next) => [Set(Negated(pat, p + 1), items)] + Tokens(pat, next, fl)
  {
    hide ReadItems;
  }

  lemma TailAt(pat: CString, d: nat, t: CString, q: nat)
    requires Tail(pat, d, t) && q < |t|
    ensures d + q < |pat| && pat[d + q] == t[q] && At(pat, d + q + 1) == At(t, q + 1)
  {
    assert At(pat, d + q) == At(t, q) && At(pat, d + (q + 1)) == At(t, q + 1);
  }

  lemma ListStartMoved(pat: CString, d: nat, t: CString, q: nat)
    requires Tail(pat, d, t) && q < |t|
    ensures q < ListStart(t, q + 1) <= |t| && ListStart(pat, d + q + 1) == d + ListStart(t, q + 1)
    ensures Negated(pat, d + q + 1) == Negated(t, q + 1)
  {
    TailAt(pat, d, t, q);
  }

  lemma PlainMoved(pat: CString, d: nat, t: CString, q: nat, fl: Flags) returns (n: nat)
    requires Tail(pat, d, t) && q < |t| && t[q] != '['
    ensures q < n <= |t| && d + n <= |pat|
    ensures Tokens(pat, d + n, fl) == Tokens(t, n, fl) ==> Tokens(pat, d + q, fl) == Tokens(t, q, fl)
  {
    hide Tokens;
    TailAt(pat, d, t, q);
    var x, m := PlainStep(pat, d + q, fl);
    var y, k := PlainStep(t, q, fl);
    n := k;
  }

  lemma BracketMoved(pat: CString, d: nat, t: CString, q: nat, fl: Flags) returns (n: nat)
    requires Tail(pat, d, t) && q < |t| && t[q] == '['
    ensures q < n <= |t| && d + n <= |pat|
    ensures Tokens(pat, d + n, fl) == Tokens(t, n, fl) ==> Tokens(pat, d + q, fl) == Tokens(t, q, fl)
  {
    hide Tail, ReadItems, At, ListStart, Negated, Tokens;
    TailLength(pat, d, t);
    TailAt(pat, d, t, q);
    ListStartMoved(pat, d, t, q);
    BracketStep(pat, d + q, fl);
    BracketStep(t, q, fl);
    var start := ListStart(t, q + 1);
    ItemsMoved(pat, d, t, start, start, fl);
    var b := ReadItems(t, start, start, fl);
    n := if b.Closed? then b.next else q + 1;
  }

  /** The tokens from a place in the pattern on are those of the rest of it. */
  lemma {:induction false} TokensMoved(pat: CString, d: nat, t: CString, q: nat, fl: Flags)
    requires Tail(pat, d, t) && q <= |t|
    ensures d + q <= |pat| && Tokens(pat, d + q, fl) == Tokens(t, q, fl)
    decreases |t| - q
  {
    hide Tail;
    TailLength(pat, d, t);
    if q < |t| {
      hide Tokens;
      var n;
      if t[q] == '[' { n := BracketMoved(pat, d, t, q, fl); } else { n := PlainMoved(pat, d, t, q, fl); }
      TokensMoved(pat, d, t, n, fl);
    }
  }

  /** A dot where the rest begins leads by itself exactly if it leads in the whole. */
  predicate SameLead(s: CString, d: nat, fl: Flags) {
    fl.period && At(s, d) == '.' ==> d == 0 || (fl.pathname && At(s, d - 1) == '/')
  }

  lemma LeadMoved(s: CString, d: nat, u: CString, i: nat, fl: Flags)
    requires Tail(s, d, u) && SameLead(s, d, fl)
    ensures LeadingPeriod(s, d + i, fl) == LeadingPeriod(u, i, fl)
  {
    assert At(s, d + i) == At(u, i) && At(s, d + 0) == At(u, 0);
    if i > 0 { assert At(s, d + (i - 1)) == At(u, i - 1); }
  }

  lemma PieceMoved(t: Token, s: CString, d: nat, u: CString, i: nat, j: nat, fl: Flags)
    requires Tail(s, d, u) && SameLead(s, d, fl) && i <= j <= |u|
    ensures d + j <= |s| && Piece(t, s, d + i, d + j, fl) == Piece(t, u, i, j, fl)
  {
    hide LeadingPeriod, AnyContains, Fold, Equal, SameLead;
    LeadMoved(s, d, u, i, fl);
    forall k: nat | i <= k < j ensures d + k < |s| && s[d + k] == u[k] {
      assert At(s, d + k) == At(u, k);
    }
    if k :| d + i <= k < d + j && s[k] == '/' { assert u[k - d] == s[d + (k - d)]; }
  }

  /** So is a match of it. */
  lemma {:induction false} MatchMoved(toks: seq<Token>, s: CString, d: nat, u: CString, i: nat, fl: Flags)
    requires Tail(s, d, u) && SameLead(s, d, fl) && i <= |u|
    ensures MatchesFrom(toks, s, d + i, fl) <==> MatchesFrom(toks, u, i, fl)
    decreases |toks|
  {
    hide Piece, MatchesFrom, SameLead;
    TailLength(s, d, u);
    if toks == [] {
      MatchesNil(s, d + i, fl);
      MatchesNil(u, i, fl);
      assert At(s, d + i) == At(u, i);
    } else {
      hide Tail;
      var t, rest := toks[0], toks[1..];
      assert toks == [t] + rest;
      MatchesCons(t, rest, s, d + i, fl);
      MatchesCons(t, rest, u, i, fl);
      forall j: nat | i <= j <= |u|
        ensures Piece(t, s, d + i, d + j, fl) == Piece(t, u, i, j, fl)
        ensures MatchesFrom(rest, s, d + j, fl) <==> MatchesFrom(rest, u, j, fl)
      {
        PieceMoved(t, s, d, u, i, j, fl);
        MatchMoved(rest, s, d, u, j, fl);
      }
      if k: nat :| d + i <= k <= |s| && Piece(t, s, d + i, k, fl) && MatchesFrom(rest, s, k, fl) {
        assert Piece(t, u, i, k - d, fl) && MatchesFrom(rest, u, k - d, fl);
      }
    }
  }

  lemma SliceIsTail(s: CString, d: nat)
    requires d <= |s|
    ensures Tail(s, d, s[d..])
  {
  }

  /** A token that takes one character, and the rest of the pattern against the rest of the string. */
  lemma TokenFirst(pat: CString, n: nat, t: Token, s: CString, fl: Flags)
    requires n <= |pat| && Tokens(pat, 0, fl) == [t] + Tokens(pat, n, fl) && !t.Star? && SameLead(s, 1, fl)
    ensures PatternMatches(pat, s, fl)
      <==> s != "" && Piece(t, s, 0, 1, fl) && PatternMatches(pat[n..], s[1..], fl)
  {
    hide Tokens, Piece, MatchesFrom, Tail, SameLead;
    MatchesSingle(t, Tokens(pat, n, fl), s, 0, fl);
    if s != "" {
      SliceIsTail(pat, n);
      TokensMoved(pat, n, pat[n..], 0, fl);
      SliceIsTail(s, 1);
      MatchMoved(Tokens(pat, n, fl), s, 1, s[1..], 0, fl);
    }
  }

  // ----- What each character of a pattern asks for -----

  predicate CapitalOf(a: char, b: char) {
    'A' <= a <= 'Z' && b as int == a as int + 32
  }

  /** The same character or, where case is folded, one of the 26 letters in its other case. */
  predicate SameLetter(a: char, b: char, fl: Flags) {
    a == b || (fl.caseFold && (CapitalOf(a, b) || CapitalOf(b, a)))
  }

  lemma EqualIsSameLetter(a: char, b: char, fl: Flags)
    ensures Equal(a, b, fl) <==> SameLetter(a, b, fl)
  {
  }

  /** The first character is there for a wildcard to take. */
  predicate Open(s: CString, fl: Flags) {
    s != "" && !(s[0] == '/' && fl.pathname) && !(s[0] == '.' && fl.period)
  }

  /** The empty pattern matches the empty string, and where only a leading directory need match, the
      front of anything that begins with a slash. */
  lemma EmptyText(s: CString, fl: Flags)
    ensures PatternMatches("", s, fl) <==> s == "" || (fl.leadingDir && s[0] == '/')
  {
    MatchesNil(s, 0, fl);
  }

  /** An ordinary character matches itself, in either case where case is folded. */
  lemma LiteralFirst(c: char, rest: CString, s: CString, fl: Flags)
    requires c !in "?*[" && c != EOS && (c == '\\' ==> fl.noEscape) && SameLead(s, 1, fl)
    ensures PatternMatches([c] + rest, s, fl)
      <==> s != "" && SameLetter(c, s[0], fl) && PatternMatches(rest, s[1..], fl)
  {
    hide PatternMatches, Lower;
    var pat: CString := [c] + rest;
    assert pat[1..] == rest;
    var t, n := PlainStep(pat, 0, fl);
    TokenFirst(pat, 1, Lit(c), s, fl);
    if s != "" { EqualIsSameLetter(c, s[0], fl); }
  }

  /** So does any character behind a backslash. */
  lemma EscapedFirst(c: char, rest: CString, s: CString, fl: Flags)
    requires c != EOS && !fl.noEscape && SameLead(s, 1, fl)
    ensures PatternMatches(['\\', c] + rest, s, fl)
      <==> s != "" && SameLetter(c, s[0], fl) && PatternMatches(rest, s[1..], fl)
  {
    hide PatternMatches, Lower;
    var pat: CString := ['\\', c] + rest;
    assert pat[2..] == rest;
    var t, n := PlainStep(pat, 0, fl);
    TokenFirst(pat, 2, Lit(c), s, fl);
    if s != "" { EqualIsSameLetter(c, s[0], fl); }
  }

  /** A backslash with nothing behind it matches nothing. */
  lemma LoneBackslash(s: CString, fl: Flags)
    requires !fl.noEscape
    ensures !PatternMatches("\\", s, fl)
  {
    NeverMatches([], s, 0, fl);
  }

  lemma QuestionFirst(rest: CString, s: CString, fl: Flags)
    requires SameLead(s, 1, fl)
    ensures PatternMatches("?" + rest, s, fl) <==> Open(s, fl) && PatternMatches(rest, s[1..], fl)
  {
    hide PatternMatches;
    var pat: CString := "?" + rest;
    assert pat[1..] == rest;
    var t, n := PlainStep(pat, 0, fl);
    TokenFirst(pat, 1, Any, s, fl);
  }

  /** A star matches any stretch, but no slash in pathname mode. */
  lemma StarFirst(rest: CString, s: CString, fl: Flags)
    requires !fl.period
    ensures PatternMatches("*" + rest, s, fl)
      <==> exists k: nat :: k <= |s| && (fl.pathname ==> '/' !in s[..k]) && PatternMatches(rest, s[k..], fl)
  {
    hide MatchesFrom, Tail, Tokens;
    var pat: CString := "*" + rest;
    assert pat[1..] == rest;
    var t, n := PlainStep(pat, 0, fl);
    var toks := Tokens(rest, 0, fl);
    SliceIsTail(pat, 1);
    TokensMoved(pat, 1, rest, 0, fl);
    MatchesCons(Star, toks, s, 0, fl);
    forall k: nat | k <= |s|
      ensures MatchesFrom(toks, s, k, fl) <==> PatternMatches(rest, s[k..], fl)
      ensures Piece(Star, s, 0, k, fl) <==> (fl.pathname ==> '/' !in s[..k])
    {
      SliceIsTail(s, k);
      MatchMoved(toks, s, k, s[k..], 0, fl);
    }
  }

  /** A dot in front, where it must be matched by a dot, is not for a wildcard. */
  lemma DotIsKept(rest: CString, s: CString, fl: Flags)
    requires fl.period && s != "" && s[0] == '.'
    ensures !PatternMatches("?" + rest, s, fl) && !PatternMatches("*" + rest, s, fl)
  {
    hide MatchesFrom, Tokens;
    var q: CString, w: CString := "?" + rest, "*" + rest;
    var t, n := PlainStep(q, 0, fl);
    var x, m := PlainStep(w, 0, fl);
    MatchesSingle(Any, Tokens(q, 1, fl), s, 0, fl);
    StarBlocked(Tokens(w, 1, fl), s, 0, fl);
  }

  // ----- Brackets -----

  /** A character that means itself in a list. */
  predicate Member(c: char) {
    c !in "-]\\/" && c != EOS
  }

  predicate Members(items: seq<Item>) {
    forall k :: 0 <= k < |items| ==>
      match items[k] case One(c) => Member(c) case Range(lo, hi) => Member(lo) && Member(hi)
  }

  function Written(item: Item): string {
    match item case One(c) => [c] case Range(lo, hi) => [lo, '-', hi]
  }

  function Spelled(items: seq<Item>): (s: CString)
    requires Members(items)
  {
    if items == [] then "" else Written(items[0]) + Spelled(items[1..])
  }

  /** The place of a character in its order, capitals with the small letters where case is folded. */
  function Place(c: char, fl: Flags): int {
    if fl.caseFold && 'A' <= c <= 'Z' then c as int + 32 else c as int
  }

  predicate Holds(item: Item, c: char, fl: Flags) {
    match item
    case One(d) => SameLetter(d, c, fl)
    case Range(lo, hi) => Place(lo, fl) <= Place(c, fl) <= Place(hi, fl)
  }

  function Folded(item: Item, fl: Flags): Item {
    match item
    case One(c) => One(Fold(c, fl))
    case Range(lo, hi) => Range(Fold(lo, fl), Fold(hi, fl))
  }

  lemma FoldedContains(item: Item, c: char, fl: Flags)
    ensures Contains(Folded(item, fl), Fold(c, fl)) <==> Holds(item, c, fl)
  {
  }

  function AllFolded(items: seq<Item>, fl: Flags): (r: seq<Item>)
    ensures |r| == |items| && forall k :: 0 <= k < |items| ==> r[k] == Folded(items[k], fl)
  {
    if items == [] then [] else [Folded(items[0], fl)] + AllFolded(items[1..], fl)
  }

  lemma AnyHolds(items: seq<Item>, c: char, fl: Flags)
    ensures AnyContains(AllFolded(items, fl), Fold(c, fl)) <==> exists k :: 0 <= k < |items| && Holds(items[k], c, fl)
  {
    hide Contains, Holds, Fold, Folded;
    var all := AllFolded(items, fl);
    forall k | 0 <= k < |items|
      ensures Contains(all[k], Fold(c, fl)) <==> Holds(items[k], c, fl)
    {
      FoldedContains(items[k], c, fl);
    }
  }

  /** The rest of the pattern begins with these items and a closing bracket. */
  ghost predicate ListAt(pat: CString, q: nat, items: seq<Item>) {
    Members(items) && q <= |pat| && Spelled(items) + "]" <= pat[q..]
  }

  lemma SpelledStep(items: seq<Item>)
    requires items != [] && Members(items)
    ensures Members(items[1..])
    ensures Spelled(items) + "]" == Written(items[0]) + (Spelled(items[1..]) + "]")
    ensures |Spelled(items)| == |Written(items[0])| + |Spelled(items[1..])|
  {
  }

  lemma ReadOne(pat: CString, q: nat, first: nat, items: seq<Item>, fl: Flags) returns (next: nat)
    requires first <= q && ListAt(pat, q, items) && items != []
    ensures next <= |pat| && ReadItem(pat, q, first, fl) == More(Folded(items[0], fl), next)
    ensures q < next && ListAt(pat, next, items[1..]) && next + |Spelled(items[1..])| == q + |Spelled(items)|
  {
    hide ReadItem, Folded, Spelled;
    SpelledStep(items);
    NextInList(items[1..]);
    OnText(pat, q, Written(items[0]), Spelled(items[1..]) + "]");
    match items[0] {
      case One(c) =>
        next := q + 1;
        ReadsOne(pat, q, first, c, fl);
      case Range(lo, hi) =>
        next := q + 3;
        ReadsRange(pat, q, first, lo, hi, fl);
    }
  }

  lemma OnText(pat: CString, q: nat, a: string, b: string)
    requires q <= |pat| && a + b <= pat[q..] && b != ""
    ensures q + |a| < |pat| && b <= pat[q + |a|..] && pat[q + |a|] == b[0]
    ensures forall k :: 0 <= k < |a| ==> pat[q + k] == a[k]
  {
    var t := a + b;
    assert forall k :: 0 <= k < |t| ==> pat[q + k] == pat[q..][k] == t[k];
    assert forall k :: 0 <= k < |b| ==> b[k] == t[|a| + k];
    assert pat[q + |a|..][..|b|] == b;
  }

  lemma ReadsOne(pat: CString, q: nat, first: nat, c: char, fl: Flags)
    requires first <= q && q + 1 < |pat| && pat[q] == c && pat[q + 1] != '-' && Member(c)
    ensures ReadItem(pat, q, first, fl) == More(Folded(One(c), fl), q + 1)
  {
    hide Fold;
  }

  lemma ReadsRange(pat: CString, q: nat, first: nat, lo: char, hi: char, fl: Flags)
    requires first <= q && q + 2 < |pat| && pat[q] == lo && pat[q + 1] == '-' && pat[q + 2] == hi
    requires Member(lo) && Member(hi)
    ensures ReadItem(pat, q, first, fl) == More(Folded(Range(lo, hi), fl), q + 3)
  {
    hide Fold;
  }

  lemma NextInList(items: seq<Item>)
    requires Members(items)
    ensures (Spelled(items) + "]")[0] != '-'
  {
  }

  lemma {:induction false} ReadSpelled(pat: CString, q: nat, first: nat, items: seq<Item>, fl: Flags)
    requires first <= q && ListAt(pat, q, items) && (items != [] || first < q)
    ensures ReadItems(pat, q, first, fl) == Closed(AllFolded(items, fl), q + |Spelled(items)| + 1)
    decreases |items|
  {
    hide ReadItem, Folded;
    if items == [] {
      assert pat[q] == pat[q..][0] == ']';
      ClosesHere(pat, q, first, fl);
    } else {
      hide ListAt, Spelled;
      var next := ReadOne(pat, q, first, items, fl);
      ReadSpelled(pat, next, first, items[1..], fl);
    }
  }

  lemma ClosesHere(pat: CString, q: nat, first: nat, fl: Flags)
    requires first < q < |pat| && pat[q] == ']'
    ensures ReadItem(pat, q, first, fl) == Stop(Closed([], q + 1))
  {
  }

  lemma SetTakes(negate: bool, items: seq<Item>, s: CString, fl: Flags)
    requires s != ""
    ensures Piece(Set(negate, items), s, 0, 1, fl) <==> Open(s, fl) && AnyContains(items, Fold(s[0], fl)) != negate
  {
    hide AnyContains, Fold;
  }

  lemma NotOpen(fl: Flags)
    ensures !Open("", fl)
  {
  }

  /** A list in brackets takes a character that one of its members holds; with `!` or `^` in front,
      one that none does. */
  lemma BracketFirst(neg: CString, items: seq<Item>, rest: CString, s: CString, fl: Flags)
    requires neg in ["", "!", "^"] && items != [] && Members(items) && SameLead(s, 1, fl)
    requires neg == "" ==> Spelled(items)[0] !in "!^"
    ensures PatternMatches("[" + neg + Spelled(items) + "]" + rest, s, fl)
      <==> Open(s, fl) && PatternMatches(rest, s[1..], fl)
           && ((exists k :: 0 <= k < |items| && Holds(items[k], s[0], fl)) <==> neg == "")
  {
    hide PatternMatches, Spelled, Holds, AnyContains, ReadItems, Tokens, Fold, SameLead, Members, Piece, Open;
    var pat: CString := "[" + neg + Spelled(items) + "]" + rest;
    var first := 1 + |neg|;
    SpelledFilled(items);
    ListInText(neg, items, rest);
    ReadSpelled(pat, first, first, items, fl);
    BracketStep(pat, 0, fl);
    var next := first + |Spelled(items)| + 1;
    var t := Set(neg != "", AllFolded(items, fl));
    assert pat[next..] == rest;
    TokenFirst(pat, next, t, s, fl);
    if s != "" {
      SetTakes(neg != "", AllFolded(items, fl), s, fl);
      AnyHolds(items, s[0], fl);
    } else {
      NotOpen(fl);
    }
  }

  lemma SpelledFilled(items: seq<Item>)
    requires items != [] && Members(items)
    ensures Spelled(items) != ""
  {
  }

  lemma ListInText(neg: CString, items: seq<Item>, rest: CString)
    requires neg in ["", "!", "^"] && items != [] && Members(items)
    requires Spelled(items) != "" && (neg == "" ==> Spelled(items)[0] !in "!^")
    ensures var pat: CString := "[" + neg + Spelled(items) + "]" + rest;
      && Negated(pat, 1) == (neg != "") && ListStart(pat, 1) == 1 + |neg| && ListAt(pat, 1 + |neg|, items)
  {
    hide Members, Spelled;
    var pat: CString := "[" + neg + Spelled(items) + "]" + rest;
    var list := Spelled(items) + "]";
    assert pat == "[" + neg + (list + rest);
    assert pat[1 + |neg|..] == list + rest;
    assert pat[1] == if neg == "" then Spelled(items)[0] else neg[0];
  }

  // ----- One character -----

  /** A wildcard may take the character when it is the whole string. */
  predicate Taken(c: char, fl: Flags) {
    !(c == '/' && fl.pathname) && !(c == '.' && fl.period)
  }

  lemma NothingAfter(c: char, fl: Flags)
    requires c != EOS
    ensures SameLead([c], 1, fl) && PatternMatches("", [c][1..], fl) && (Open([c], fl) <==> Taken(c, fl))
  {
    EmptyText([c][1..], fl);
  }

  /** A pattern of one character matches it, and where case is folded the letters that differ from
      it in case alone. */
  lemma OneCharacter(a: char, c: char, fl: Flags)
    requires a !in "?*[" && a != EOS && (a == '\\' ==> fl.noEscape) && c != EOS
    ensures PatternMatches([a], [c], fl)
      <==> a == c || (fl.caseFold && (('A' <= a <= 'Z' && c as int == a as int + 32)
                                      || ('A' <= c <= 'Z' && a as int == c as int + 32)))
  {
    hide PatternMatches;
    assert [a] + "" == [a];
    NothingAfter(c, fl);
    LiteralFirst(a, "", [c], fl);
  }

  lemma ListText(neg: CString, items: seq<Item>, c: char, fl: Flags)
    requires neg in ["", "!", "^"] && items != [] && Members(items) && c != EOS
    requires neg == "" ==> Spelled(items)[0] !in "!^"
    ensures PatternMatches("[" + neg + Spelled(items) + "]", [c], fl)
      <==> Taken(c, fl) && ((exists k :: 0 <= k < |items| && Holds(items[k], c, fl)) <==> neg == "")
  {
    hide PatternMatches, Spelled, Holds;
    NothingAfter(c, fl);
    BracketFirst(neg, items, "", [c], fl);
    assert "[" + neg + Spelled(items) + "]" + "" == "[" + neg + Spelled(items) + "]";
  }

  lemma SpelledOne(item: Item)
    requires Members([item])
    ensures Spelled([item]) == Written(item)
  {
    assert [item][0] == item && [item][1..] == [];
  }

  lemma SpelledTwo(a: Item, b: Item)
    requires Members([a, b])
    ensures Members([a]) && Members([b]) && Spelled([a, b]) == Spelled([a]) + Spelled([b])
    ensures Spelled([a]) == Written(a)
    ensures Spelled([b]) == Written(b)
  {
    assert [a, b][0] == a && [a, b][1] == b && [a, b][1..] == [b];
    assert [a][0] == a && [b][0] == b;
    SpelledOne(a);
    SpelledOne(b);
  }

  lemma OneHolds(item: Item, c: char, fl: Flags)
    ensures (exists k :: 0 <= k < |[item]| && Holds([item][k], c, fl)) <==> Holds(item, c, fl)
  {
    assert [item][0] == item;
  }

  lemma TwoHold(a: Item, b: Item, c: char, fl: Flags)
    ensures (exists k :: 0 <= k < |[a, b]| && Holds([a, b][k], c, fl)) <==> Holds(a, c, fl) || Holds(b, c, fl)
  {
    assert [a, b][0] == a && [a, b][1] == b;
  }

  /** A range holds its ends and what is between them. */
  lemma RangeText(lo: char, hi: char, c: char, fl: Flags)
    requires Member(lo) && Member(hi) && lo !in "!^" && c != EOS && !fl.caseFold
    ensures PatternMatches(['[', lo, '-', hi, ']'], [c], fl) <==> lo <= c <= hi && Taken(c, fl)
  {
    hide PatternMatches;
    var items := [Range(lo, hi)];
    SpelledOne(items[0]);
    ListText("", items, c, fl);
    OneHolds(items[0], c, fl);
    assert "[" + "" + Spelled(items) + "]" == ['[', lo, '-', hi, ']'];
  }

  /** With case folded, a range between small letters holds the capitals of its letters too. */
  lemma FoldedRangeText(lo: char, hi: char, c: char, fl: Flags)
    requires 'a' <= lo <= 'z' && 'a' <= hi <= 'z' && c != EOS && fl.caseFold
    ensures PatternMatches(['[', lo, '-', hi, ']'], [c], fl)
      <==> Taken(c, fl) && (lo <= c <= hi || ('A' <= c <= 'Z' && lo as int <= c as int + 32 <= hi as int))
  {
    hide PatternMatches;
    var items := [Range(lo, hi)];
    SpelledOne(items[0]);
    ListText("", items, c, fl);
    OneHolds(items[0], c, fl);
    assert "[" + "" + Spelled(items) + "]" == ['[', lo, '-', hi, ']'];
  }

  lemma MemberText(a: char, c: char, fl: Flags)
    requires Member(a) && a !in "!^" && c != EOS
    ensures PatternMatches(['[', a, ']'], [c], fl) <==> SameLetter(a, c, fl) && Taken(c, fl)
  {
    hide PatternMatches;
    var items := [One(a)];
    SpelledOne(items[0]);
    ListText("", items, c, fl);
    OneHolds(items[0], c, fl);
    assert "[" + "" + Spelled(items) + "]" == ['[', a, ']'];
  }

  lemma TwoMembersText(a: char, b: char, c: char, fl: Flags)
    requires Member(a) && a !in "!^" && Member(b) && c != EOS
    ensures PatternMatches(['[', a, b, ']'], [c], fl)
      <==> (SameLetter(a, c, fl) || SameLetter(b, c, fl)) && Taken(c, fl)
  {
    hide PatternMatches;
    var items := [One(a), One(b)];
    SpelledTwo(One(a), One(b));
    ListText("", items, c, fl);
    TwoHold(One(a), One(b), c, fl);
    assert "[" + "" + Spelled(items) + "]" == ['[', a, b, ']'];
  }

  /** Two ranges, or a range and one more. */
  lemma TwoRangesText(lo: char, hi: char, lo2: char, hi2: char, c: char, fl: Flags)
    requires Member(lo) && Member(hi) && Member(lo2) && Member(hi2) && lo !in "!^" && c != EOS && !fl.caseFold
    ensures PatternMatches(['[', lo, '-', hi, lo2, '-', hi2, ']'], [c], fl)
      <==> (lo <= c <= hi || lo2 <= c <= hi2) && Taken(c, fl)
  {
    hide PatternMatches, Spelled;
    var first, more := Range(lo, hi), Range(lo2, hi2);
    SpelledTwo(first, more);
    ListText("", [first, more], c, fl);
    TwoHold(first, more, c, fl);
    assert "[" + "" + Spelled([first, more]) + "]" == ['[', lo, '-', hi, lo2, '-', hi2, ']'];
  }

  lemma RangeAndMemberText(lo: char, hi: char, a: char, c: char, fl: Flags)
    requires Member(lo) && Member(hi) && Member(a) && lo !in "!^" && c != EOS && !fl.caseFold
    ensures PatternMatches(['[', lo, '-', hi, a, ']'], [c], fl) <==> (lo <= c <= hi || c == a) && Taken(c, fl)
  {
    hide PatternMatches, Spelled;
    var first, one := Range(lo, hi), One(a);
    SpelledTwo(first, one);
    ListText("", [first, one], c, fl);
    TwoHold(first, one, c, fl);
    assert "[" + "" + Spelled([first, one]) + "]" == ['[', lo, '-', hi, a, ']'];
  }

  /** With `!` or `^` in front, what is not held, but still no guarded slash or dot. */
  lemma NegatedText(neg: char, lo: char, hi: char, c: char, fl: Flags)
    requires neg in "!^" && Member(lo) && Member(hi) && c != EOS && !fl.caseFold
    ensures PatternMatches(['[', neg, lo, '-', hi, ']'], [c], fl) <==> !(lo <= c <= hi) && Taken(c, fl)
    ensures PatternMatches(['[', neg, lo, ']'], [c], fl) <==> c != lo && Taken(c, fl)
  {
    hide PatternMatches;
    var range, one := Range(lo, hi), One(lo);
    SpelledOne(range);
    SpelledOne(one);
    ListText([neg], [range], c, fl);
    ListText([neg], [one], c, fl);
    OneHolds(range, c, fl);
    OneHolds(one, c, fl);
    assert "[" + [neg] + Spelled([range]) + "]" == ['[', neg, lo, '-', hi, ']'];
    assert "[" + [neg] + Spelled([one]) + "]" == ['[', neg, lo, ']'];
  }

  // ----- The edges of a list -----

  lemma ItemsText(pat: CString, items: seq<Item>, c: char, fl: Flags)
    requires |pat| >= 3 && pat[0] == '[' && pat[1] !in "!^" && c != EOS
    requires ReadItems(pat, 1, 1, fl) == Closed(AllFolded(items, fl), |pat|)
    ensures PatternMatches(pat, [c], fl) <==> (exists k :: 0 <= k < |items| && Holds(items[k], c, fl)) && Taken(c, fl)
  {
    hide PatternMatches, Holds, ReadItems, Tokens, AllFolded, Fold, AnyContains, Piece, Taken, Open, SameLead;
    NothingAfter(c, fl);
    BracketStep(pat, 0, fl);
    assert pat[|pat|..] == "";
    TokenFirst(pat, |pat|, Set(false, AllFolded(items, fl)), [c], fl);
    SetTakes(false, AllFolded(items, fl), [c], fl);
    AnyHolds(items, c, fl);
  }

  lemma OneItem(pat: CString, item: Item, c: char, fl: Flags)
    requires |pat| >= 3 && pat[0] == '[' && pat[1] !in "!^" && c != EOS && pat[|pat| - 1] == ']'
    requires ReadItem(pat, 1, 1, fl) == More(Folded(item, fl), |pat| - 1)
    ensures PatternMatches(pat, [c], fl) <==> Holds(item, c, fl) && Taken(c, fl)
  {
    hide PatternMatches, Holds, ReadItem, Folded;
    ListEnds(pat, |pat| - 1, 1, fl);
    assert [item][1..] == [] && AllFolded([item], fl) == [Folded(item, fl)] + AllFolded([], fl);
    ItemsText(pat, [item], c, fl);
    OneHolds(item, c, fl);
  }

  lemma TwoItems(pat: CString, q: nat, a: Item, b: Item, c: char, fl: Flags)
    requires |pat| >= 3 && pat[0] == '[' && pat[1] !in "!^" && c != EOS && pat[|pat| - 1] == ']' && 1 < q < |pat| - 1
    requires ReadItem(pat, 1, 1, fl) == More(Folded(a, fl), q)
    requires ReadItem(pat, q, 1, fl) == More(Folded(b, fl), |pat| - 1)
    ensures PatternMatches(pat, [c], fl) <==> (Holds(a, c, fl) || Holds(b, c, fl)) && Taken(c, fl)
  {
    hide PatternMatches, Holds, ReadItem, Folded;
    ListEnds(pat, |pat| - 1, 1, fl);
    assert [a, b][1..] == [b] && [b][1..] == [];
    assert AllFolded([b], fl) == [Folded(b, fl)] + AllFolded([], fl);
    assert AllFolded([a, b], fl) == [Folded(a, fl)] + AllFolded([b], fl);
    assert ReadItems(pat, q, 1, fl) == Closed(AllFolded([b], fl), |pat|);
    ItemsText(pat, [a, b], c, fl);
    TwoHold(a, b, c, fl);
  }

  /** A closing bracket that comes first is a member. */
  lemma CloserFirst(c: char, fl: Flags)
    requires c != EOS
    ensures PatternMatches("[]]", [c], fl) <==> c == ']'
  {
    hide PatternMatches;
    assert ReadItem("[]]", 1, 1, fl) == More(Folded(One(']'), fl), 2);
    OneItem("[]]", One(']'), c, fl);
  }

  /** So is a minus that comes last. */
  lemma MinusLast(a: char, c: char, fl: Flags)
    requires Member(a) && a !in "!^" && c != EOS
    ensures PatternMatches(['[', a, '-', ']'], [c], fl) <==> (SameLetter(a, c, fl) || c == '-') && Taken(c, fl)
  {
    hide PatternMatches;
    var pat: CString := ['[', a, '-', ']'];
    assert ReadItem(pat, 1, 1, fl) == More(Folded(One(a), fl), 2);
    assert ReadItem(pat, 2, 1, fl) == More(Folded(One('-'), fl), 3);
    TwoItems(pat, 2, One(a), One('-'), c, fl);
  }

  /** A backslash makes any character a member, unless backslashes are members themselves. */
  lemma EscapedMember(a: char, c: char, fl: Flags)
    requires a != EOS && c != EOS && (fl.noEscape ==> Member(a))
    ensures PatternMatches(['[', '\\', a, ']'], [c], fl)
      <==> (SameLetter(a, c, fl) || (fl.noEscape && c == '\\')) && Taken(c, fl)
  {
    hide PatternMatches;
    var pat: CString := ['[', '\\', a, ']'];
    if fl.noEscape {
      assert ReadItem(pat, 1, 1, fl) == More(Folded(One('\\'), fl), 2);
      assert ReadItem(pat, 2, 1, fl) == More(Folded(One(a), fl), 3);
      TwoItems(pat, 2, One('\\'), One(a), c, fl);
    } else {
      assert ReadItem(pat, 1, 1, fl) == More(Folded(One(a), fl), 3);
      OneItem(pat, One(a), c, fl);
    }
  }

  /** And either end of a range. */
  lemma EscapedRange(lo: char, hi: char, c: char, fl: Flags)
    requires lo != EOS && hi != EOS && c != EOS && !fl.noEscape && !fl.caseFold
    ensures PatternMatches(['[', '\\', lo, '-', '\\', hi, ']'], [c], fl) <==> lo <= c <= hi && Taken(c, fl)
  {
    hide PatternMatches;
    var pat: CString := ['[', '\\', lo, '-', '\\', hi, ']'];
    assert ReadItem(pat, 1, 1, fl) == More(Folded(Range(lo, hi), fl), 6);
    OneItem(pat, Range(lo, hi), c, fl);
  }

  lemma ListEnds(pat: CString, q: nat, first: nat, fl: Flags)
    requires first < q < |pat| && pat[q] == ']'
    ensures ReadItems(pat, q, first, fl) == Closed([], q + 1)
  {
  }

  /** A list that is not closed: its bracket is an ordinary character. */
  lemma UnclosedText(a: char, s: CString, fl: Flags)
    requires Member(a) && a !in "?*[" && SameLead(s, 1, fl)
    ensures PatternMatches(['[', a], s, fl) <==> s != "" && s[0] == '[' && PatternMatches([a], s[1..], fl)
  {
    hide PatternMatches;
    var pat: CString := ['[', a];
    assert ReadItem(pat, 1, 1, fl) == More(Folded(One(a), fl), 2) && ReadItem(pat, 2, 1, fl) == Stop(Unterminated);
    assert ReadItems(pat, 2, 1, fl) == Unterminated;
    BracketStep(pat, 0, fl);
    assert pat[1..] == [a];
    TokenFirst(pat, 1, Lit('['), s, fl);
    if s != "" { EqualIsSameLetter('[', s[0], fl); }
  }

  /** In pathname mode a slash in a list makes a pattern that matches nothing. */
  lemma SlashInList(a: char, b: char, s: CString, fl: Flags)
    requires Member(a) && a !in "!^" && b != EOS && fl.pathname
    ensures !PatternMatches(['[', a, '/', b, ']'], s, fl)
  {
    hide MatchesFrom;
    var pat: CString := ['[', a, '/', b, ']'];
    assert ReadItem(pat, 1, 1, fl) == More(Folded(One(a), fl), 2);
    assert ReadItem(pat, 2, 1, fl) == Stop(HitsSlash) && ReadItems(pat, 2, 1, fl) == HitsSlash;
    BracketStep(pat, 0, fl);
    assert Tokens(pat, 0, fl) == [Never] + [];
    NeverMatches([], s, 0, fl);
  }

  /** A dot further on is an ordinary character, but not behind a slash in pathname mode. */
  lemma DotsInside(fl: Flags)
    requires fl.period
    ensures PatternMatches("a*", "a.", fl)
    ensures PatternMatches("/*", "/.", fl) <==> !fl.pathname
  {
    hide MatchesFrom;
    StarAtEnd("a*", 'a', fl);
    StarAtEnd("/*", '/', fl);
    DotAtEnd("a.", fl);
    DotAtEnd("/.", fl);
  }

  lemma StarAtEnd(pat: CString, c: char, fl: Flags)
    requires |pat| == 2 && pat[0] == c && pat[1] == '*' && c !in "?*[\\"
    ensures Tokens(pat, 0, fl) == [Lit(c)] + ([Star] + [])
  {
    var t, n := PlainStep(pat, 0, fl);
    var star, m := PlainStep(pat, 1, fl);
    assert Tokens(pat, 2, fl) == [];
  }

  lemma DotAtEnd(s: CString, fl: Flags)
    requires |s| == 2 && s[0] in "a/" && s[1] == '.' && fl.period
    ensures MatchesFrom([Lit(s[0])] + ([Star] + []), s, 0, fl) <==> !(s[0] == '/' && fl.pathname)
  {
    hide MatchesFrom;
    MatchesSingle(Lit(s[0]), [Star] + [], s, 0, fl);
    if s[0] == '/' && fl.pathname {
      StarBlocked([], s, 1, fl);
    } else {
      StarLast(s, 1, fl);
      assert FirstSlash(s, 1) == 2;
    }
  }
}
