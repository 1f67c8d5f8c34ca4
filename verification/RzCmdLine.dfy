/** Argument lists as one line of text. */
module CommandText {

  const QUOTE: char := '"'

  predicate Blank(c: char) {
    c == '\n' || c == '\t' || c == ' '
  }

  // ----- Joining -----

  function Blanks(s: string): nat {
    if s == "" then 0 else (if Blank(s[0]) then 1 else 0) + Blanks(s[1..])
  }

  function Quotes(n: nat): (r: string)
    ensures |r| == n && forall k :: 0 <= k < n ==> r[k] == QUOTE
  {
    seq(n, _ => QUOTE)
  }

  /** An argument as it is joined: one quote in front for every blank in it, and one behind. */
  function Quoted(arg: string): string {
    Quotes(Blanks(arg)) + arg + (if Blanks(arg) > 0 then [QUOTE] else "")
  }

  function Join(args: seq<string>): string {
    if args == [] then ""
    else if |args| == 1 then Quoted(args[0])
    else Quoted(args[0]) + " " + Join(args[1..])
  }

  // ----- Splitting -----

  function SkipBlanks(s: string): (r: string)
    ensures |r| <= |s| && (r != "" ==> !Blank(r[0]))
    ensures s != "" && Blank(s[0]) ==> |r| < |s|
  {
    if s != "" && Blank(s[0]) then SkipBlanks(s[1..]) else s
  }

  function RTrim(s: string): (r: string)
    ensures r != "" ==> !Blank(r[|r| - 1])
  {
    if s != "" && Blank(s[|s| - 1]) then RTrim(s[..|s| - 1]) else s
  }

  function Trim(s: string): string {
    RTrim(SkipBlanks(s))
  }

  /** How far it is to the first blank outside quotes. */
  function Cut(s: string, inQuotes: bool): (n: nat)
    ensures n <= |s|
    ensures s != "" && !Blank(s[0]) ==> n > 0
  {
    if s == "" || (Blank(s[0]) && !inQuotes) then 0
    else 1 + Cut(s[1..], if s[0] == QUOTE then !inQuotes else inQuotes)
  }

  function Tokens(s: string): seq<string>
    decreases |s|
  {
    var n := Cut(s, false);
    if n == |s| then [s] else [s[..n]] + Tokens(SkipBlanks(s[n..]))
  }

  /** Quotes are taken off where one stands at each end; a quote by itself is both. */
  function Unquote(t: string): string {
    if t != "" && t[0] == QUOTE && t[|t| - 1] == QUOTE then
      (if |t| == 1 then "" else t[1..|t| - 1])
    else t
  }

  function UnquoteAll(ts: seq<string>): seq<string> {
    if ts == [] then [] else [Unquote(ts[0])] + UnquoteAll(ts[1..])
  }

  function Split(s: string): seq<string> {
    UnquoteAll(Tokens(Trim(s)))
  }
}

/** When a joined list splits into itself again. */
module CommandLaws {
  import opened Common
  import opened CommandText

  predicate QuoteFree(s: string) {
    forall k :: 0 <= k < |s| ==> s[k] != QUOTE
  }

  predicate AllQuoteFree(args: seq<string>) {
    args == [] || (QuoteFree(args[0]) && AllQuoteFree(args[1..]))
  }

  /** At most one blank in each argument. */
  predicate Plain(args: seq<string>) {
    args == [] || (Blanks(args[0]) <= 1 && Plain(args[1..]))
  }

  predicate AllFilled(args: seq<string>) {
    args == [] || (args[0] != "" && AllFilled(args[1..]))
  }

  function Filled(args: seq<string>): seq<string> {
    if args == [] then [] else (if args[0] == "" then [] else [args[0]]) + Filled(args[1..])
  }

  lemma {:induction false} NoBlanks(s: string, k: nat)
    requires Blanks(s) == 0 && k < |s|
    ensures !Blank(s[k])
    decreases |s|
  {
    if k > 0 { NoBlanks(s[1..], k - 1); }
  }

  function QuoteCount(s: string): nat {
    if s == "" then 0 else (if s[0] == QUOTE then 1 else 0) + QuoteCount(s[1..])
  }

  lemma {:induction false} NoQuotes(s: string)
    requires QuoteFree(s)
    ensures QuoteCount(s) == 0
    decreases |s|
  {
    if s != "" { NoQuotes(s[1..]); }
  }

  lemma CutOne(s: string, c: char, rest: string, inQuotes: bool)
    requires s == [c] + rest
    ensures Cut(s, inQuotes)
         == if Blank(c) && !inQuotes then 0 else 1 + Cut(rest, if c == QUOTE then !inQuotes else inQuotes)
  {
    assert s[1..] == rest;
  }

  /** Every quote of a word turns the state. */
  lemma {:induction false} CutWord(s: string, rest: string, inQuotes: bool)
    requires Blanks(s) == 0
    ensures Cut(s + rest, inQuotes) == |s| + Cut(rest, if QuoteCount(s) % 2 == 0 then inQuotes else !inQuotes)
    decreases |s|
  {
    if s == "" {
      assert s + rest == rest;
    } else {
      hide Cut;
      assert s + rest == [s[0]] + (s[1..] + rest);
      CutOne(s + rest, s[0], s[1..] + rest, inQuotes);
      CutWord(s[1..], rest, if s[0] == QUOTE then !inQuotes else inQuotes);
    }
  }

  lemma {:induction false} CutInside(s: string, rest: string)
    requires QuoteFree(s)
    ensures Cut(s + rest, true) == |s| + Cut(rest, true)
    decreases |s|
  {
    if s == "" {
      assert s + rest == rest;
    } else {
      assert (s + rest)[1..] == s[1..] + rest;
      CutInside(s[1..], rest);
    }
  }

  lemma {:induction false} CutQuotes(n: nat, rest: string, inQuotes: bool)
    ensures Cut(Quotes(n) + rest, inQuotes) == n + Cut(rest, if n % 2 == 0 then inQuotes else !inQuotes)
    decreases n
  {
    if n == 0 {
      assert Quotes(0) + rest == rest;
    } else {
      assert (Quotes(n) + rest)[1..] == Quotes(n - 1) + rest;
      CutQuotes(n - 1, rest, !inQuotes);
    }
  }

  /** What may follow an argument: nothing, or the blank before the next. */
  predicate Follows(rest: string) {
    rest == "" || rest[0] == ' '
  }

  /** How far it is to the first blank. */
  function Word(s: string): (n: nat)
    ensures n <= |s|
  {
    if s == "" || Blank(s[0]) then 0 else 1 + Word(s[1..])
  }

  lemma {:induction false} WordSplits(s: string)
    requires Blanks(s) >= 1
    ensures var n := Word(s);
      && n < |s| && Blank(s[n]) && Blanks(s[..n]) == 0 && Blanks(s[n + 1..]) == Blanks(s) - 1
      && QuoteCount(s) == QuoteCount(s[..n]) + QuoteCount(s[n + 1..])
    decreases |s|
  {
    if !Blank(s[0]) {
      var n := Word(s[1..]);
      WordSplits(s[1..]);
      assert s[1..][..n] == s[..n + 1][1..] && s[1..][n + 1..] == s[n + 2..];
    }
  }

  predicate Clasped(s: string) {
    s != "" && s[0] == QUOTE && s[|s| - 1] == QUOTE
  }

  /** An argument that its text gives back: a word without a quote at both ends, or two words, the
      first with an even number of quotes; and an even number in all, unless it is the last. */
  predicate Whole(a: string, last: bool) {
    && (Blanks(a) == 0 ==> !Clasped(a))
    && (Blanks(a) >= 1 ==> Blanks(a) == 1 && QuoteCount(a[..Word(a)]) % 2 == 0)
    && (last || QuoteCount(a) % 2 == 0)
  }

  lemma CutFollowing(rest: string, inQuotes: bool)
    requires Follows(rest)
    ensures Cut(rest, inQuotes) == 0 <==> rest == "" || !inQuotes
    ensures |rest| >= 2 && inQuotes ==> Cut(rest, inQuotes) >= 2
  {
    if |rest| >= 2 && inQuotes {
      assert Cut(rest, true) == 1 + Cut(rest[1..], true);
    }
  }

  /** How much of the text a word with a blank after it takes, in its quotes. */
  lemma CutTwoWords(a: string, rest: string)
    requires Blanks(a) == 1
    ensures var n, even := Word(a), QuoteCount(a[..Word(a)]) % 2 == 0;
      Cut(Quoted(a) + rest, false)
      == if even then |a| + 2 + Cut(rest, QuoteCount(a) % 2 == 1) else 1 + n
  {
    hide Cut;
    WordSplits(a);
    var n := Word(a);
    var v, w, tail := a[..n], a[n + 1..], [QUOTE] + rest;
    assert Quoted(a) + rest == Quotes(1) + (v + ([a[n]] + (w + tail)));
    CutQuotes(1, v + ([a[n]] + (w + tail)), false);
    CutWord(v, [a[n]] + (w + tail), true);
    CutOne([a[n]] + (w + tail), a[n], w + tail, QuoteCount(v) % 2 == 0);
    CutWord(w, tail, true);
    CutOne(tail, QUOTE, rest, QuoteCount(w) % 2 == 0);
  }

  /** Such an argument is one token, which unquotes to it. */
  lemma WholeIsOneToken(a: string, rest: string)
    requires a != "" && Whole(a, rest == "") && Follows(rest)
    ensures Cut(Quoted(a) + rest, false) == |Quoted(a)| && Unquote(Quoted(a)) == a
  {
    hide Cut, Follows;
    if Blanks(a) == 0 {
      assert Quoted(a) == a;
      CutWord(a, rest, false);
      CutFollowing(rest, QuoteCount(a) % 2 == 1);
    } else {
      CutTwoWords(a, rest);
      CutFollowing(rest, QuoteCount(a) % 2 == 1);
    }
  }

  /** No other does. */
  lemma BrokenIsSeen(a: string, rest: string)
    requires a != "" && !Whole(a, rest == "") && Follows(rest) && |rest| != 1
    ensures ghost var s := Quoted(a) + rest; Unquote(s[..Cut(s, false)]) != a
  {
    hide Cut, Follows, Quoted;
    var s := Quoted(a) + rest;
    var n, odd := Cut(s, false), QuoteCount(a) % 2 == 1;
    CutFollowing(rest, odd);
    if Blanks(a) == 0 {
      UnquotedWord(a);
      CutWord(a, rest, false);
      WordIsNotMore(a, rest, n);
    } else if Unquote(s[..n]) == a {
      QuotedPrefix(a, rest, n);
      CutTwoWords(a, rest);
      QuotedLength(a);
    }
  }

  lemma QuotedLength(a: string)
    requires Blanks(a) == 1
    ensures |Quoted(a)| == |a| + 2
  {
  }

  lemma UnquotedWord(a: string)
    requires Blanks(a) == 0
    ensures Quoted(a) == a
  {
  }

  /** A token longer than a word has a blank in it, even with its quotes taken off. */
  lemma WordIsNotMore(a: string, rest: string, n: nat)
    requires a != "" && Blanks(a) == 0 && Follows(rest) && (n == |a| || |a| + 2 <= n) && n <= |a + rest|
    requires n == |a| ==> Clasped(a)
    ensures Unquote((a + rest)[..n]) != a
  {
    var t := (a + rest)[..n];
    if n == |a| {
      assert t == a;
    } else {
      assert t[|a|] == ' ';
      NoBlanks(a, |a| - 1);
    }
  }

  /** Behind k quotes stands the argument. */
  predicate Behind(s: string, k: nat, a: string, j: nat) {
    j < |s| && (if j < k then s[j] == QUOTE else j - k < |a| && s[j] == a[j - k])
  }

  lemma {:induction false} AllQuotes(a: string, k: nat, i: nat)
    requires k >= 1 && i < |a| && forall j: nat :: j < |a| ==> Behind(a, k, a, j)
    ensures a[i] == QUOTE
    decreases i
  {
    assert Behind(a, k, a, i);
    if i >= k { AllQuotes(a, k, i - k); }
  }

  /** A text of k quotes and an argument in front does not begin with the argument, nor with the
      argument once the first quote is dropped, unless it is the only one. */
  lemma FrontIsQuotes(a: string, s: string, k: nat, from: nat, i: nat)
    requires from < k && i < |a| && |a| + k <= |s| && forall j: nat :: j < k + |a| ==> Behind(s, k, a, j)
    requires a == s[from..from + |a|]
    ensures a[i] == QUOTE
  {
    var m := k - from;
    forall j: nat | j < |a| ensures Behind(a, m, a, j) { assert Behind(s, k, a, from + j); }
    AllQuotes(a, m, i);
  }

  /** The only front part of the text that unquotes to an argument with blanks is the whole of it
      in its two quotes. */
  lemma QuotedPrefix(a: string, rest: string, n: nat)
    requires a != "" && Blanks(a) >= 1 && n <= |Quoted(a) + rest| && Unquote((Quoted(a) + rest)[..n]) == a
    ensures Blanks(a) == 1 && n == |Quoted(a)|
  {
    hide Blanks, Quoted, Unquote;
    var k, s := Blanks(a), Quoted(a) + rest;
    WordSplits(a);
    QuotedAt(a, rest);
    UnquotedAt(s, n);
    if n == |a| {
      FrontIsQuotes(a, s, k, 0, Word(a));
    } else if k > 1 {
      FrontIsQuotes(a, s, k, 1, Word(a));
    }
  }

  lemma QuotedAt(a: string, rest: string)
    requires Blanks(a) >= 1
    ensures ghost var k, s := Blanks(a), Quoted(a) + rest;
      && |Quoted(a)| == k + |a| + 1 && forall j: nat :: j < k + |a| ==> Behind(s, k, a, j)
  {
    hide Blanks;
  }

  lemma UnquotedAt(s: string, n: nat)
    requires n <= |s| && Unquote(s[..n]) != ""
    ensures ghost var a := Unquote(s[..n]);
      (n == |a| && a == s[0..|a|]) || (n == |a| + 2 && a == s[1..1 + |a|])
  {
    assert s[..n] == s[0..n];
    if n > 1 { assert s[..n][1..n - 1] == s[1..n - 1]; }
  }

  /** An argument without quotes and with at most one blank is one token, which unquotes to it. */
  lemma PlainIsOneToken(a: string, rest: string)
    requires a != "" && QuoteFree(a) && Blanks(a) <= 1 && Follows(rest)
    ensures Cut(Quoted(a) + rest, false) == |Quoted(a)| && Unquote(Quoted(a)) == a
  {
    hide Cut, Quoted;
    PlainIsWhole(a);
    WholeIsOneToken(a, rest);
  }

  lemma PlainIsWhole(a: string)
    requires a != "" && QuoteFree(a) && Blanks(a) <= 1
    ensures Whole(a, false) && Whole(a, true)
  {
    NoQuotes(a);
    NoQuotes(a[..Word(a)]);
  }

  lemma QuotedEnds(a: string)
    requires a != ""
    ensures Quoted(a) != "" && !Blank(Quoted(a)[0]) && !Blank(Quoted(a)[|Quoted(a)| - 1])
  {
    if Blanks(a) == 0 {
      NoBlanks(a, 0);
      NoBlanks(a, |a| - 1);
    }
  }

  lemma TokensOfOne(s: string)
    requires Cut(s, false) == |s|
    ensures Tokens(s) == [s]
  {
  }

  lemma TokensOfMore(q: string, rest: string)
    requires Cut(q + (" " + rest), false) == |q|
    ensures Tokens(q + (" " + rest)) == [q] + Tokens(SkipBlanks(rest))
  {
    var s := q + (" " + rest);
    assert s[|q|..] == " " + rest && s[..|q|] == q;
    assert (" " + rest)[1..] == rest;
  }

  lemma UnquoteFirst(t: string, ts: seq<string>)
    ensures UnquoteAll([t] + ts) == [Unquote(t)] + UnquoteAll(ts)
  {
    assert ([t] + ts)[1..] == ts;
  }

  /** Blanks in a row count as one: the empty arguments between are passed over. */
  lemma {:induction false} TokensOfJoin(args: seq<string>)
    requires args != [] && args[|args| - 1] != "" && AllQuoteFree(args) && Plain(args)
    ensures UnquoteAll(Tokens(SkipBlanks(Join(args)))) == Filled(args)
    decreases |args|
  {
    hide Quoted, Tokens, Cut, Unquote;
    var a, rest := args[0], args[1..];
    if a != "" {
      QuotedEnds(a);
      PlainIsOneToken(a, "");
      assert Quoted(a) + "" == Quoted(a);
    }
    if rest == [] {
      TokensOfOne(Quoted(a));
      UnquoteFirst(Quoted(a), []);
    } else {
      TokensOfJoin(rest);
      var s := " " + Join(rest);
      Assoc(Quoted(a), " ", Join(rest));
      if a == "" {
        EmptyInFront(Join(rest));
      } else {
        PlainIsOneToken(a, s);
        TokensOfMore(Quoted(a), Join(rest));
        UnquoteFirst(Quoted(a), Tokens(SkipBlanks(Join(rest))));
      }
    }
  }

  lemma EmptyInFront(s: string)
    ensures Quoted("") == "" && "" + (" " + s) == " " + s && SkipBlanks(" " + s) == SkipBlanks(s)
  {
    assert (" " + s)[1..] == s;
  }

  // ----- Empty arguments at the ends -----

  lemma {:induction false} RTrimBlank(s: string)
    ensures RTrim(s + " ") == RTrim(s)
  {
    assert (s + " ")[..|s|] == s;
  }

  lemma {:induction false} TrimBlankAfter(s: string)
    ensures Trim(s + " ") == Trim(s)
    decreases |s|
  {
    if s == "" {
      assert s + " " == " " && " "[1..] == "";
    } else if Blank(s[0]) {
      assert (s + " ")[1..] == s[1..] + " ";
      TrimBlankAfter(s[1..]);
    } else {
      RTrimBlank(s);
    }
  }

  lemma TrimBlankBefore(s: string)
    ensures Trim(" " + s) == Trim(s)
  {
    assert (" " + s)[1..] == s;
  }

  lemma {:induction false} JoinLast(args: seq<string>, last: string)
    requires args != []
    ensures Join(args + [last]) == Join(args) + (" " + Quoted(last))
    decreases |args|
  {
    hide Quoted;
    if |args| == 1 {
      assert (args + [last])[1..] == [last];
      Assoc(Quoted(args[0]), " ", Quoted(last));
    } else {
      assert (args + [last])[1..] == args[1..] + [last];
      JoinLast(args[1..], last);
      Assoc(Quoted(args[0]) + " ", Join(args[1..]), " " + Quoted(last));
    }
  }

  lemma {:induction false} AppendAll(args: seq<string>, last: string)
    ensures Filled(args + [last]) == Filled(args) + Filled([last])
    ensures AllQuoteFree(args + [last]) == (AllQuoteFree(args) && QuoteFree(last))
    ensures Plain(args + [last]) == (Plain(args) && Blanks(last) <= 1)
    decreases |args|
  {
    hide QuoteFree, Blanks;
    if args == [] {
      assert args + [last] == [last];
    } else {
      assert (args + [last])[1..] == args[1..] + [last];
      AppendAll(args[1..], last);
    }
  }

  /** A joined list whose ends are not empty has nothing to trim. */
  lemma {:induction false} JoinEnds(args: seq<string>)
    requires args != [] && args[0] != "" && args[|args| - 1] != ""
    ensures Trim(Join(args)) == SkipBlanks(Join(args)) == Join(args)
  {
    hide Quoted;
    QuotedEnds(args[0]);
    QuotedEnds(args[|args| - 1]);
    var last := args[|args| - 1];
    if |args| > 1 {
      var init := args[..|args| - 1];
      assert args == init + [last];
      JoinLast(init, last);
      var s := Join(args);
      assert s[|s| - 1] == Quoted(last)[|Quoted(last)| - 1];
      assert s[0] == Quoted(args[0])[0];
    }
  }

  /** For arguments with at most one blank each, splitting gives back the ones that are not empty,
      or a single empty argument where there are none. */
  lemma {:induction false} SplitOfPlain(args: seq<string>)
    requires AllQuoteFree(args) && Plain(args)
    ensures Split(Join(args)) == if Filled(args) == [] then [""] else Filled(args)
    decreases |args|
  {
    hide Quoted, Tokens, Cut, Unquote, Trim, SkipBlanks;
    if |args| <= 1 && (args == [] || args[0] == "") {
      NothingToSplit(args);
    } else if args[0] == "" {
      SplitOfPlain(args[1..]);
      EmptyInFront(Join(args[1..]));
      assert Join(args) == " " + Join(args[1..]);
      TrimBlankBefore(Join(args[1..]));
    } else if args[|args| - 1] == "" {
      var init := args[..|args| - 1];
      assert args == init + [""];
      AppendAll(init, "");
      JoinLast(init, "");
      EmptyInFront("");
      assert " " + Quoted("") == " ";
      TrimBlankAfter(Join(init));
      SplitOfPlain(init);
    } else {
      JoinEnds(args);
      TokensOfJoin(args);
      assert Filled(args) != [];
    }
  }

  lemma NothingToSplit(args: seq<string>)
    requires args == [] || args == [""]
    ensures Split(Join(args)) == [""] && Filled(args) == []
  {
    assert Join(args) == "";
    assert Tokens("") == [""];
  }

  lemma {:induction false} AllFilledIsFilled(args: seq<string>)
    ensures |Filled(args)| <= |args|
    ensures Filled(args) == args <==> AllFilled(args)
    decreases |args|
  {
    if args != [] {
      AllFilledIsFilled(args[1..]);
      assert args == [args[0]] + args[1..];
    }
  }

  // ----- Lists without an empty argument -----

  lemma FirstToken(s: string)
    ensures Tokens(s) != [] && Tokens(s)[0] == s[..Cut(s, false)]
    ensures UnquoteAll(Tokens(s)) != [] && UnquoteAll(Tokens(s))[0] == Unquote(s[..Cut(s, false)])
  {
    assert s[..|s|] == s;
  }

  /** What the splitter makes of text with nothing to trim after it. */
  function Parts(s: string): seq<string> {
    UnquoteAll(Tokens(s))
  }

  lemma PartsOfMore(s: string)
    ensures Parts(s) != [] && Parts(s)[0] == Unquote(s[..Cut(s, false)])
    ensures Cut(s, false) < |s| ==> Parts(s)[1..] == Parts(SkipBlanks(s[Cut(s, false)..]))
    ensures Cut(s, false) == |s| ==> |Parts(s)| == 1
  {
    FirstToken(s);
  }

  lemma SplitIsParts(s: string)
    ensures Split(s) == Parts(Trim(s))
  {
  }

  /** The rest of the text after an argument: nothing, or a blank and more. */
  function Further(args: seq<string>): string {
    if args == [] then "" else " " + Join(args)
  }

  lemma JoinIsFirst(args: seq<string>)
    requires args != []
    ensures Join(args) == Quoted(args[0]) + Further(args[1..])
  {
    hide Quoted;
    if |args| > 1 {
      Assoc(Quoted(args[0]), " ", Join(args[1..]));
    } else {
      assert Quoted(args[0]) + "" == Quoted(args[0]);
    }
  }

  lemma JoinBegins(args: seq<string>)
    requires args != [] && AllFilled(args)
    ensures SkipBlanks(Join(args)) == Join(args) != ""
  {
    QuotedEnds(args[0]);
    assert Join(args)[0] == Quoted(args[0])[0];
  }

  /** Every argument is given back by its text; only the last may leave a quote open. */
  predicate AllWhole(args: seq<string>) {
    args == [] || (Whole(args[0], |args| == 1) && AllWhole(args[1..]))
  }

  lemma {:induction false} WholeComesBack(args: seq<string>)
    requires args != [] && AllFilled(args)
    ensures Parts(Join(args)) == args <==> AllWhole(args)
    decreases |args|
  {
    hide Quoted, Tokens, Cut, Unquote, Join, Whole;
    var a, rest := args[0], args[1..];
    var s := Further(rest);
    JoinIsFirst(args);
    PartsOfMore(Quoted(a) + s);
    if rest != [] { JoinBegins(rest); }
    if !Whole(a, rest == []) {
      BrokenIsSeen(a, s);
    } else {
      WholeIsOneToken(a, s);
      assert (Quoted(a) + s)[..|Quoted(a)|] == Quoted(a);
      if rest != [] {
        WholeComesBack(rest);
        TokensOfMore(Quoted(a), Join(rest));
        UnquoteFirst(Quoted(a), Tokens(Join(rest)));
        assert args == [a] + rest;
      }
    }
  }

  // ----- Counting blanks -----

  lemma {:induction false} BlanksAdd(a: string, b: string)
    ensures Blanks(a + b) == Blanks(a) + Blanks(b)
    decreases |a|
  {
    if a == "" {
      assert a + b == b;
    } else {
      assert (a + b)[1..] == a[1..] + b;
      BlanksAdd(a[1..], b);
    }
  }

  lemma {:induction false} QuotesNotBlank(n: nat)
    ensures Blanks(Quotes(n)) == 0
    decreases n
  {
    if n > 0 {
      assert Quotes(n)[1..] == Quotes(n - 1);
      QuotesNotBlank(n - 1);
    }
  }

  lemma QuotedBlanks(a: string)
    ensures Blanks(Quoted(a)) == Blanks(a)
  {
    var close: string := if Blanks(a) > 0 then [QUOTE] else "";
    QuotesNotBlank(Blanks(a));
    BlanksAdd(Quotes(Blanks(a)), a);
    BlanksAdd(Quotes(Blanks(a)) + a, close);
  }

  lemma UnquotedBlanks(t: string)
    ensures Blanks(Unquote(t)) == Blanks(t)
  {
    if |t| > 1 && Clasped(t) {
      var inner := t[1..|t| - 1];
      assert t == [QUOTE] + inner + [QUOTE];
      BlanksAdd([QUOTE], inner);
      BlanksAdd([QUOTE] + inner, [QUOTE]);
    }
  }

  lemma {:induction false} SkippedBlanks(s: string)
    ensures Blanks(SkipBlanks(s)) <= Blanks(s)
    ensures s != "" && Blank(s[0]) ==> Blanks(SkipBlanks(s)) < Blanks(s)
    decreases |s|
  {
    if s != "" && Blank(s[0]) { SkippedBlanks(s[1..]); }
  }

  lemma {:induction false} TrimmedBlanks(s: string)
    ensures Blanks(RTrim(s)) <= Blanks(s)
    decreases |s|
  {
    if s != "" && Blank(s[|s| - 1]) {
      TrimmedBlanks(s[..|s| - 1]);
      BlanksAdd(s[..|s| - 1], s[|s| - 1..]);
      assert s == s[..|s| - 1] + s[|s| - 1..];
    }
  }

  /** The blanks of a list as it is joined: its own, and one between two arguments. */
  function Spaces(args: seq<string>): int {
    if args == [] then -1 else Blanks(args[0]) + 1 + Spaces(args[1..])
  }

  lemma {:induction false} JoinSpaces(args: seq<string>)
    requires args != []
    ensures Blanks(Join(args)) == Spaces(args)
    decreases |args|
  {
    hide Quoted, Join;
    var rest := args[1..];
    JoinIsFirst(args);
    QuotedBlanks(args[0]);
    BlanksAdd(Quoted(args[0]), Further(rest));
    if rest != [] {
      BlanksAdd(" ", Join(rest));
      JoinSpaces(rest);
    }
  }

  /** Text is cut at blanks: it has at least as many as its parts when they are joined. */
  lemma {:induction false} PartsSpaces(s: string)
    ensures Spaces(Parts(s)) <= Blanks(s)
    decreases |s|
  {
    hide Cut, Unquote, Tokens;
    var n := Cut(s, false);
    var t, more := s[..n], s[n..];
    PartsOfMore(s);
    UnquotedBlanks(t);
    assert s == t + more;
    BlanksAdd(t, more);
    if n < |s| {
      CutStops(s);
      SkippedBlanks(more);
      PartsSpaces(SkipBlanks(more));
      assert Parts(s) == [Unquote(t)] + Parts(SkipBlanks(more));
    }
  }

  lemma {:induction false} CutStops(s: string)
    ensures Cut(s, false) < |s| ==> Blank(s[Cut(s, false)])
  {
    CutStopsIn(s, false);
  }

  lemma {:induction false} CutStopsIn(s: string, inQuotes: bool)
    ensures Cut(s, inQuotes) < |s| ==> Blank(s[Cut(s, inQuotes)])
    decreases |s|
  {
    if s != "" && !(Blank(s[0]) && !inQuotes) { CutStopsIn(s[1..], if s[0] == QUOTE then !inQuotes else inQuotes); }
  }

  // ----- Every list -----

  lemma {:induction false} SkipKeepsEnd(s: string)
    requires s != "" && !Blank(s[|s| - 1])
    ensures SkipBlanks(s) != "" && SkipBlanks(s)[|SkipBlanks(s)| - 1] == s[|s| - 1]
    decreases |s|
  {
    if Blank(s[0]) { SkipKeepsEnd(s[1..]); }
  }

  lemma JoinEndsInLast(core: seq<string>)
    requires core != [] && core[|core| - 1] != ""
    ensures Join(core) != "" && !Blank(Join(core)[|Join(core)| - 1])
  {
    hide Quoted;
    var init, last := core[..|core| - 1], core[|core| - 1];
    QuotedEnds(last);
    if init != [] {
      hide Join;
      assert core == init + [last];
      JoinLast(init, last);
      assert (Join(init) + (" " + Quoted(last)))[|Join(core)| - 1] == Quoted(last)[|Quoted(last)| - 1];
    } else {
      assert core == [last];
    }
  }

  lemma TrimOfJoin(core: seq<string>)
    requires core != [] && core[|core| - 1] != ""
    ensures Trim(Join(core)) == SkipBlanks(Join(core))
  {
    hide Join, SkipBlanks;
    JoinEndsInLast(core);
    SkipKeepsEnd(Join(core));
  }

  /** A list that ends in an argument comes back only if none is empty and each is given back: at
      an empty one two blanks are passed over at once, and then there are too few for the rest. */
  lemma {:induction false} BackIsWhole(args: seq<string>)
    requires args != [] && args[|args| - 1] != "" && Parts(SkipBlanks(Join(args))) == args
    ensures AllFilled(args) && AllWhole(args)
    decreases |args|
  {
    hide Quoted, Join, Parts, Whole, SkipBlanks;
    var a, rest := args[0], args[1..];
    JoinIsFirst(args);
    if a == "" {
      EmptyInFront(Join(rest));
      JoinSpaces(args);
      SkippedBlanks(Join(args));
      PartsSpaces(SkipBlanks(Join(args)));
    } else {
      FirstIsWhole(args);
      if rest != [] {
        RestComesBack(args);
        BackIsWhole(rest);
      }
    }
  }

  lemma FirstIsWhole(args: seq<string>)
    requires args != [] && args[0] != "" && args[|args| - 1] != "" && Parts(SkipBlanks(Join(args))) == args
    ensures Whole(args[0], |args| == 1)
  {
    hide Quoted, Join, Parts, Whole;
    var a, rest := args[0], args[1..];
    var s := Further(rest);
    JoinIsFirst(args);
    QuotedEnds(a);
    PartsOfMore(Quoted(a) + s);
    if rest != [] { JoinEndsInLast(rest); }
    assert (s == "") == (|args| == 1);
    if !Whole(a, s == "") { BrokenIsSeen(a, s); }
  }

  lemma RestComesBack(args: seq<string>)
    requires |args| > 1 && args[0] != "" && Whole(args[0], false) && Parts(SkipBlanks(Join(args))) == args
    ensures Parts(SkipBlanks(Join(args[1..]))) == args[1..]
  {
    hide Quoted, Join, Whole, Tokens, Cut, Unquote;
    var a, rest := args[0], args[1..];
    JoinIsFirst(args);
    QuotedEnds(a);
    WholeIsOneToken(a, Further(rest));
    TokensOfMore(Quoted(a), Join(rest));
    UnquoteFirst(Quoted(a), Tokens(SkipBlanks(Join(rest))));
  }

  /** Nor does a longer list that ends in an empty argument: the blank before it is trimmed. */
  lemma EmptyLastNeverBack(args: seq<string>)
    requires |args| > 1 && args[|args| - 1] == ""
    ensures Parts(Trim(Join(args))) != args
  {
    hide Quoted, Join, Parts;
    var init := args[..|args| - 1];
    assert args == init + [""];
    JoinLast(init, "");
    EmptyInFront("");
    assert " " + Quoted("") == " ";
    TrimBlankAfter(Join(init));
    BlanksAdd(Join(init), " ");
    JoinSpaces(args);
    SkippedBlanks(Join(init));
    TrimmedBlanks(SkipBlanks(Join(init)));
    PartsSpaces(Trim(Join(args)));
  }

  lemma {:induction false} LastIsFilled(args: seq<string>)
    requires args != [] && args[|args| - 1] == ""
    ensures !AllFilled(args)
    decreases |args|
  {
    if |args| > 1 { LastIsFilled(args[1..]); }
  }

  /** A list of arguments, with quotes and blanks in them or not, comes back from its own text
      exactly when it is one empty argument, or it has an argument, none is empty, and each is given
      back by its text. */
  lemma ComesBackExactly(args: seq<string>)
    ensures Split(Join(args)) == args <==> args == [""] || (args != [] && AllFilled(args) && AllWhole(args))
  {
    hide Join, Parts, Trim, Split;
    SplitIsParts(Join(args));
    PartsOfMore(Trim(Join(args)));
    if |args| <= 1 && (args == [] || args[0] == "") {
      NothingToSplit(args);
    } else if args[|args| - 1] == "" {
      EmptyLastNeverBack(args);
      LastIsFilled(args);
    } else {
      TrimOfJoin(args);
      if AllFilled(args) {
        JoinBegins(args);
        WholeComesBack(args);
      } else if Parts(SkipBlanks(Join(args))) == args {
        BackIsWhole(args);
      }
    }
  }

  /** Without quotes: exactly when it is one empty argument, or none is empty and none has more than
      one blank. */
  lemma QuoteFreeComesBackExactly(args: seq<string>)
    requires AllQuoteFree(args)
    ensures Split(Join(args)) == args <==> args == [""] || (args != [] && AllFilled(args) && Plain(args))
  {
    hide Split, Join;
    ComesBackExactly(args);
    if AllFilled(args) { QuoteFreeWhole(args); }
  }

  lemma {:induction false} QuoteFreeWhole(args: seq<string>)
    requires AllQuoteFree(args) && AllFilled(args)
    ensures AllWhole(args) <==> Plain(args)
    decreases |args|
  {
    hide Clasped, QuoteCount, QuoteFree;
    if args != [] {
      QuoteFreeWhole(args[1..]);
      if Blanks(args[0]) <= 1 { PlainIsWhole(args[0]); }
    }
  }

  /** Words, with quotes in them or not: a quote by itself is at both ends. */
  lemma {:induction false} WordsComeBackExactly(args: seq<string>)
    requires args != [] && AllFilled(args) && forall k :: 0 <= k < |args| ==> Blanks(args[k]) == 0
    ensures Split(Join(args)) == args
      <==> forall k :: 0 <= k < |args| ==> !Clasped(args[k]) && (k == |args| - 1 || QuoteCount(args[k]) % 2 == 0)
  {
    hide Split, Join, Clasped, QuoteCount;
    ComesBackExactly(args);
    WholeWords(args);
  }

  lemma {:induction false} WholeWords(args: seq<string>)
    requires forall k :: 0 <= k < |args| ==> Blanks(args[k]) == 0
    ensures AllWhole(args)
      <==> forall k :: 0 <= k < |args| ==> !Clasped(args[k]) && (k == |args| - 1 || QuoteCount(args[k]) % 2 == 0)
    decreases |args|
  {
    hide Clasped, QuoteCount, Blanks;
    if args != [] {
      var rest := args[1..];
      WholeWords(rest);
      assert forall k :: 1 <= k < |args| ==> args[k] == rest[k - 1];
      assert forall k :: 0 <= k < |rest| ==> rest[k] == args[k + 1];
    }
  }
}

/** cRZCmdLine: the list and its text. */
module RzCmdLine {
  import opened Common
  import opened CommandText
  import opened CommandLaws

  /** The arguments as one string. */
  method JoinArguments(args: seq<string>) returns (text: string)
    ensures text == Join(args)
  {
    text := "";
    ghost var whole := Join(args);
    assert args[0..] == args && text + whole == whole;
    var i := 0;
    while i < |args|
      invariant i <= |args| && whole == text + Join(args[i..])
    {
      hide Quoted;
      var quoted := QuoteArgument(args[i]);
      ghost var rest := args[i + 1..];
      assert args[i..][0] == args[i] && args[i..][1..] == rest;
      ghost var before := text;
      text := text + quoted;
      if i + 1 < |args| { text := text + " "; }
      OneMore(before, args[i..], text);
      i := i + 1;
    }
    assert args[i..] == [] && text + "" == text;
  }

  lemma OneMore(before: string, args: seq<string>, text: string)
    requires args != [] && text == before + Quoted(args[0]) + (if |args| > 1 then " " else "")
    ensures before + Join(args) == text + Join(args[1..])
  {
    hide Quoted;
    if |args| > 1 {
      Assoc(Quoted(args[0]), " ", Join(args[1..]));
      Assoc(before, Quoted(args[0]), " " + Join(args[1..]));
      Assoc(before + Quoted(args[0]), " ", Join(args[1..]));
    }
  }

  /** One quote for each blank, the argument, and a closing quote if it had any. */
  method QuoteArgument(arg: string) returns (text: string)
    ensures text == Quoted(arg)
  {
    text := "";
    var needsQuotes := false;
    assert arg[0..] == arg;
    for i := 0 to |arg|
      invariant text == Quotes(|text|) && |text| + Blanks(arg[i..]) == Blanks(arg)
      invariant needsQuotes == (|text| > 0)
    {
      assert arg[i..][1..] == arg[i + 1..];
      if Blank(arg[i]) {
        needsQuotes := true;
        text := text + [QUOTE];
      }
    }
    text := text + arg;
    if needsQuotes { text := text + [QUOTE]; }
  }

  method StripQuotes(sub: string) returns (arg: string)
    ensures arg == Unquote(sub)
  {
    arg := sub;
    if arg != "" && arg[0] == QUOTE && arg[|arg| - 1] == QUOTE {
      arg := arg[..|arg| - 1];
      if arg != "" { arg := arg[1..]; }
    }
  }

  lemma {:induction false} UnquoteLast(ts: seq<string>, t: string)
    ensures UnquoteAll(ts + [t]) == UnquoteAll(ts) + [Unquote(t)]
    decreases |ts|
  {
    hide Unquote;
    if ts == [] {
      assert ts + [t] == [t];
    } else {
      assert (ts + [t])[1..] == ts[1..] + [t];
      UnquoteLast(ts[1..], t);
    }
  }

  lemma {:induction false} SkipIsThere(s: string, n: nat)
    requires n <= |s| && (forall k :: 0 <= k < n ==> Blank(s[k])) && (n < |s| ==> !Blank(s[n]))
    ensures SkipBlanks(s) == s[n..]
    decreases n
  {
    if n > 0 {
      SkipIsThere(s[1..], n - 1);
      assert s[1..][n - 1..] == s[n..];
    }
  }

  lemma {:induction false} RTrimKeepsFirst(s: string)
    requires s != "" && !Blank(s[0])
    ensures RTrim(s) != "" && RTrim(s)[0] == s[0]
    decreases |s|
  {
    if Blank(s[|s| - 1]) { RTrimKeepsFirst(s[..|s| - 1]); }
  }

  lemma TrimmedEnds(s: string)
    ensures Trim(s) != "" ==> !Blank(Trim(s)[0]) && !Blank(Trim(s)[|Trim(s)| - 1])
  {
    if SkipBlanks(s) != "" { RTrimKeepsFirst(SkipBlanks(s)); }
  }

  /** Over the blanks at it; the text ends in something else. */
  method PassBlanks(text: string, it: nat) returns (next: nat)
    requires it < |text| && Blank(text[it]) && !Blank(text[|text| - 1])
    ensures it < next < |text| && !Blank(text[next]) && SkipBlanks(text[it..]) == text[next..]
  {
    next := it;
    while Blank(text[next])
      invariant it <= next < |text| && forall k :: it <= k < next ==> Blank(text[k])
      decreases |text| - next
    {
      next := next + 1;
    }
    SkipIsThere(text[it..], next - it);
    assert text[it..][next - it..] == text[next..];
  }

  /** The text cut up into arguments. */
  method SplitText(source: string) returns (args: seq<string>)
    ensures args == Split(source)
  {
    hide Cut, Tokens, Unquote, Trim, SkipBlanks;
    var text := Trim(source);
    TrimmedEnds(source);
    args := [];
    var begin, it, inQuotes := 0, 0, false;
    ghost var raw: seq<string> := [];
    assert text[0..] == text && raw + Tokens(text) == Tokens(text);
    while it < |text|
      invariant begin <= it <= |text|
      invariant raw + Tokens(text[begin..]) == Tokens(text) && args == UnquoteAll(raw)
      invariant Cut(text[begin..], false) == it - begin + Cut(text[it..], inQuotes)
      invariant it == begin ==> !inQuotes && (it < |text| ==> !Blank(text[it]))
      decreases |text| - it
    {
      CutAt(text, it, inQuotes);
      if Blank(text[it]) && !inQuotes {
        CutToken(text, begin, it);
        var arg := StripQuotes(text[begin..it]);
        UnquoteLast(raw, text[begin..it]);
        args := args + [arg];
        raw := raw + [text[begin..it]];
        it := PassBlanks(text, it);
        begin := it;
        CutAt(text, it, false);
        inQuotes := text[it] == QUOTE;
      } else if text[it] == QUOTE {
        inQuotes := !inQuotes;
      }
      it := it + 1;
    }
    assert text[it..] == "";
    CutNone(inQuotes);
    TokensOfOne(text[begin..]);
    var arg := StripQuotes(text[begin..]);
    UnquoteLast(raw, text[begin..]);
    args := args + [arg];
  }

  lemma CutNone(inQuotes: bool)
    ensures Cut("", inQuotes) == 0
  {
  }

  lemma CutAt(text: string, it: nat, inQuotes: bool)
    requires it < |text|
    ensures Cut(text[it..], inQuotes)
         == if Blank(text[it]) && !inQuotes then 0
            else 1 + Cut(text[it + 1..], if text[it] == QUOTE then !inQuotes else inQuotes)
  {
    hide Cut;
    assert text[it..] == [text[it]] + text[it + 1..];
    CutOne(text[it..], text[it], text[it + 1..], inQuotes);
  }

  lemma CutToken(text: string, begin: nat, it: nat)
    requires begin <= it < |text| && Cut(text[begin..], false) == it - begin
    ensures Tokens(text[begin..]) == [text[begin..it]] + Tokens(SkipBlanks(text[it..]))
  {
    var s := text[begin..];
    assert s[..it - begin] == text[begin..it] && s[it - begin..] == text[it..];
  }

  class CmdLine {
    var arguments: seq<string>
    var text: string

    constructor FromText(cmdline: string)
      ensures text == cmdline && arguments == Split(cmdline)
    {
      text := cmdline;
      arguments := [];
      new;
      arguments := SplitText(cmdline);
    }

    constructor FromArguments(argv: seq<string>)
      ensures arguments == argv && text == Join(argv)
    {
      arguments := argv;
      text := "";
      new;
      text := JoinArguments(argv);
    }

    /** A negative place, or any place in an empty list, is the front; one past the end is the end. */
    method InsertArgument(arg: string, index: int) returns (done: bool)
      modifies this
      ensures done
      ensures ghost var n := if index < 0 then 0 else if index > old(|arguments|) then old(|arguments|) else index;
        arguments == old(arguments[..n]) + [arg] + old(arguments[n..])
      ensures text == Join(arguments)
    {
      var n := 0;
      if |arguments| != 0 && index >= 0 {
        n := if index > |arguments| then |arguments| else index;
      }
      arguments := arguments[..n] + [arg] + arguments[n..];
      text := JoinArguments(arguments);
      done := true;
    }

    method EraseArgument(index: nat) returns (done: bool)
      requires index < |arguments|
      modifies this
      ensures !done
      ensures arguments == old(arguments[..index]) + old(arguments[index + 1..])
      ensures text == Join(arguments)
    {
      arguments := arguments[..index] + arguments[index + 1..];
      text := JoinArguments(arguments);
      done := false;
    }
  }

  /** A command line made from arguments and read again from its text. */
  method Reread(args: seq<string>) returns (again: CmdLine)
    ensures fresh(again)
    ensures again.arguments == args <==> args == [""] || (args != [] && AllFilled(args) && AllWhole(args))
  {
    var first := new CmdLine.FromArguments(args);
    ComesBackExactly(args);
    again := new CmdLine.FromText(first.text);
  }
}
