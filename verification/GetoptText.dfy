/** What the text of the option letters and of the command line makes of the next call. */
module GetoptText {
  import opened CStrings
  import opened Common
  import opened GetoptSpec

  /** c stands among the letters at the end of `front`, and first there. */
  predicate Listed(letters: Arg, front: Arg, c: char, post: Arg) {
    c != EOS && c !in ":-" && c !in front && letters == front + [c] + post
  }

  lemma {:induction false} FoundBehind(front: Arg, c: char, post: Arg)
    requires c !in front
    ensures Find(front + [c] + post, c) == |front|
    decreases |front|
  {
    var s := front + [c] + post;
    if front != "" {
      assert s[1..] == front[1..] + [c] + post;
      FoundBehind(front[1..], c, post);
    }
  }

  lemma {:induction false} NotFound(s: Arg, c: char)
    requires c !in s
    ensures Find(s, c) == |s|
    decreases |s|
  {
    if s != "" { NotFound(s[1..], c); }
  }

  lemma KindInText(letters: Arg, front: Arg, c: char, post: Arg)
    requires Listed(letters, front, c, post)
    ensures At(post, 0) != ':' ==> Kind(letters, c) == Some(NoArgument)
    ensures At(post, 0) == ':' && At(post, 1) != ':' ==> Kind(letters, c) == Some(RequiredArgument)
    ensures At(post, 0) == ':' && At(post, 1) == ':' ==> Kind(letters, c) == Some(OptionalArgument)
  {
    FoundBehind(front, c, post);
    assert At(letters, |front| + 1) == At(post, 0) && At(letters, |front| + 2) == At(post, 1);
  }

  lemma KindUnlisted(letters: Arg, c: char)
    requires c !in letters
    ensures Kind(letters, c) == None
  {
    NotFound(letters, c);
  }

  /** The letter at w, and the text behind it. */
  lemma Behind(arg: Arg, front: Arg, c: char, text: Arg)
    requires arg == front + [c] + text
    ensures At(arg, |front|) == c && At(arg, |front| + 1) == At(text, 0)
    ensures Attached(arg, |front|) == if text != "" && text[0] == '=' then text[1..] else text
  {
    assert arg[|front| + 1..] == text;
    if text != "" { assert arg[|front| + 2..] == text[1..]; }
  }

  function Here(st: State): nat {
    if st.optind == 0 then 1 else st.optind
  }

  /** The next call comes to letter c of an element: front, which begins with a dash, c and text.  It
      is the very first call, or one at the start of an element, or one further inside. */
  predicate Comes(st: State, front: Arg, c: char, text: Arg) {
    var i := Here(st);
    && i < |st.argv| && st.argv[0] != "--" && st.argv[i] == front + [c] + text && st.argv[i] != "--"
    && front != "" && front[0] == '-' && c != EOS && (text != "" ==> text[0] != EOS)
    && (if st.optind == 0 then |front| == 1 else st.optwhere == |front|)
  }

  lemma CallParses(st: State, cfg: Config, front: Arg, c: char, text: Arg)
    requires Comes(st, front, c, text)
    ensures Decide(st, cfg) == Parse(st, cfg, Here(st), Here(st), |front|)
  {
    hide Parse;
    var i := Here(st);
    assert At(st.argv[i], 0) == '-';
    assert NextOption(st.argv, i) == i;
    if st.optind == 0 { ParseByArgv(st.(optind := 1, optwhere := 1), st, cfg, 1, 1, 1); }
  }

  // ----- A letter with one colon after it -----

  /** The rest of the element is its argument, less a `=` in front. */
  lemma RequiredAttached(st: State, cfg: Config, pre: Arg, post: Arg, front: Arg, c: char, text: Arg)
    requires Comes(st, front, c, text) && Listed(cfg.shortopts, pre, c, ":" + post) && At(post, 0) != ':'
    requires text != "" && text != "="
    ensures text[0] != '=' ==> Decide(st, cfg) == Effect(NoSwap, Here(st) + 1, 1, Some(text), Letter(c))
    ensures text[0] == '=' ==> Decide(st, cfg) == Effect(NoSwap, Here(st) + 1, 1, Some(text[1..]), Letter(c))
  {
    hide Kind, Attached;
    CallParses(st, cfg, front, c, text);
    KindInText(cfg.shortopts, pre, c, ":" + post);
    Behind(st.argv[Here(st)], front, c, text);
  }

  /** With nothing there the next argument is, and is passed with the element. */
  lemma RequiredSeparate(st: State, cfg: Config, pre: Arg, post: Arg, front: Arg, c: char, text: Arg)
    requires Comes(st, front, c, text) && Listed(cfg.shortopts, pre, c, ":" + post) && At(post, 0) != ':'
    requires text in ["", "="] && Here(st) + 1 < |st.argv|
    ensures Decide(st, cfg) == Effect(NoSwap, Here(st) + 2, 1, Some(st.argv[Here(st) + 1]), Letter(c))
  {
    hide Kind, Attached;
    CallParses(st, cfg, front, c, text);
    KindInText(cfg.shortopts, pre, c, ":" + post);
    Behind(st.argv[Here(st)], front, c, text);
  }

  /** With no next argument it is missing. */
  lemma RequiredMissing(st: State, cfg: Config, pre: Arg, post: Arg, front: Arg, c: char, text: Arg)
    requires Comes(st, front, c, text) && Listed(cfg.shortopts, pre, c, ":" + post) && At(post, 0) != ':'
    requires text in ["", "="] && Here(st) + 1 == |st.argv|
    ensures Decide(st, cfg) == Effect(NoSwap, Here(st) + 1, |front|, st.optarg, Missing)
  {
    hide Kind, Attached;
    CallParses(st, cfg, front, c, text);
    KindInText(cfg.shortopts, pre, c, ":" + post);
    Behind(st.argv[Here(st)], front, c, text);
  }

  // ----- A letter with two colons after it -----

  /** Only the rest of the element can be its argument; past the first letter of an element and with
      nothing there, the call does not move on. */
  lemma OptionalLetter(st: State, cfg: Config, pre: Arg, post: Arg, front: Arg, c: char, text: Arg)
    requires Comes(st, front, c, text) && Listed(cfg.shortopts, pre, c, "::" + post)
    ensures text !in ["", "="] && text[0] != '=' ==>
      Decide(st, cfg) == Effect(NoSwap, Here(st) + 1, 1, Some(text), Letter(c))
    ensures text !in ["", "="] && text[0] == '=' ==>
      Decide(st, cfg) == Effect(NoSwap, Here(st) + 1, 1, Some(text[1..]), Letter(c))
    ensures text in ["", "="] ==>
      Decide(st, cfg) == Effect(NoSwap, if |front| == 1 then Here(st) + 1 else Here(st), |front|, None, Letter(c))
  {
    hide Kind, Attached;
    CallParses(st, cfg, front, c, text);
    KindInText(cfg.shortopts, pre, c, "::" + post);
    assert |text| == 1 && text[0] == '=' ==> text == "=";
    Behind(st.argv[Here(st)], front, c, text);
  }

  // ----- Other letters -----

  /** A letter with no colon after it: the call goes on to the next letter, or past the element. */
  lemma PlainLetter(st: State, cfg: Config, pre: Arg, post: Arg, front: Arg, c: char, text: Arg)
    requires Comes(st, front, c, text) && Listed(cfg.shortopts, pre, c, post) && At(post, 0) != ':'
    ensures Decide(st, cfg) == if text == "" then Effect(NoSwap, Here(st) + 1, 1, None, Letter(c))
                               else Effect(NoSwap, Here(st), |front| + 1, None, Letter(c))
  {
    hide Kind, Attached;
    CallParses(st, cfg, front, c, text);
    KindInText(cfg.shortopts, pre, c, post);
    Behind(st.argv[Here(st)], front, c, text);
  }

  /** A character that is not among the letters: the same, but unknown, and the argument last found
      stays. */
  lemma UnlistedLetter(st: State, cfg: Config, front: Arg, c: char, text: Arg)
    requires Comes(st, front, c, text) && c !in cfg.shortopts
    ensures Decide(st, cfg) == if text == "" then Effect(NoSwap, Here(st) + 1, 1, st.optarg, Unknown)
                               else Effect(NoSwap, Here(st), |front| + 1, st.optarg, Unknown)
  {
    hide Kind, Attached;
    CallParses(st, cfg, front, c, text);
    KindUnlisted(cfg.shortopts, c);
    Behind(st.argv[Here(st)], front, c, text);
  }

  // ----- First calls on whole command lines -----

  lemma FirstComes(name: Arg, c: char, text: Arg, more: seq<Arg>, optarg: Option<Arg>)
    requires name != "--" && c !in "-" && c != EOS && (text != "" ==> text[0] != EOS)
    ensures Comes(State([name, "-" + [c] + text] + more, 0, 0, optarg), "-", c, text)
  {
    var arg := "-" + [c] + text;
    assert arg[1] == c && ([name, arg] + more)[1] == arg;
  }

  /** name -c text, with a colon after c: text is its argument, whatever it looks like. */
  lemma SeparateArgument(name: Arg, letters: Arg, ordering: Ordering, pre: Arg, c: char, post: Arg, text: Arg)
    requires name != "--" && Listed(letters, pre, c, ":" + post) && At(post, 0) != ':'
    ensures Decide(State([name, "-" + [c], text], 0, 0, None), Config(letters, ordering))
         == Effect(NoSwap, 3, 1, Some(text), Letter(c))
  {
    FirstComes(name, c, "", [text], None);
    var st := State([name, "-" + [c], text], 0, 0, None);
    assert "-" + [c] + "" == "-" + [c];
    assert [name, "-" + [c] + ""] + [text] == st.argv;
    RequiredSeparate(st, Config(letters, ordering), pre, post, "-", c, "");
  }

  /** name -c alone: the argument is missing. */
  lemma NoArgumentLeft(name: Arg, letters: Arg, ordering: Ordering, pre: Arg, c: char, post: Arg)
    requires name != "--" && Listed(letters, pre, c, ":" + post) && At(post, 0) != ':'
    ensures Decide(State([name, "-" + [c]], 0, 0, None), Config(letters, ordering)).answer == Missing
  {
    FirstComes(name, c, "", [], None);
    var st := State([name, "-" + [c]], 0, 0, None);
    assert "-" + [c] + "" == "-" + [c];
    assert [name, "-" + [c] + ""] + [] == st.argv;
    RequiredMissing(st, Config(letters, ordering), pre, post, "-", c, "");
  }

  /** name -ctext and name -c=text. */
  lemma AttachedArgument(name: Arg, letters: Arg, ordering: Ordering, pre: Arg, c: char, post: Arg, text: Arg)
    requires name != "--" && Listed(letters, pre, c, ":" + post) && At(post, 0) != ':' && text != "" && text[0] != EOS
    ensures var cfg := Config(letters, ordering);
      && (text[0] != '=' ==>
            Decide(State([name, "-" + [c] + text], 0, 0, None), cfg) == Effect(NoSwap, 2, 1, Some(text), Letter(c)))
      && Decide(State([name, "-" + [c] + ("=" + text)], 0, 0, None), cfg) == Effect(NoSwap, 2, 1, Some(text), Letter(c))
  {
    var cfg, equals := Config(letters, ordering), "=" + text;
    assert equals[1..] == text;
    FirstComes(name, c, text, [], None);
    FirstComes(name, c, equals, [], None);
    var st, st2 := State([name, "-" + [c] + text], 0, 0, None), State([name, "-" + [c] + equals], 0, 0, None);
    assert st.argv + [] == st.argv && st2.argv + [] == st2.argv;
    if text[0] != '=' { RequiredAttached(st, cfg, pre, post, "-", c, text); }
    RequiredAttached(st2, cfg, pre, post, "-", c, equals);
  }

  /** name -c text, with two colons after c: text is no argument of it. */
  lemma NoSeparateArgument(name: Arg, letters: Arg, ordering: Ordering, pre: Arg, c: char, post: Arg, text: Arg)
    requires name != "--" && Listed(letters, pre, c, "::" + post)
    ensures Decide(State([name, "-" + [c], text], 0, 0, None), Config(letters, ordering))
         == Effect(NoSwap, 2, 1, None, Letter(c))
  {
    FirstComes(name, c, "", [text], None);
    var st := State([name, "-" + [c], text], 0, 0, None);
    assert "-" + [c] + "" == "-" + [c];
    assert [name, "-" + [c] + ""] + [text] == st.argv;
    OptionalLetter(st, Config(letters, ordering), pre, post, "-", c, "");
  }

  // ----- Which ordering -----

  /** An ordinary argument in the first place: letters that begin with `-` have it answered itself,
      `+` or the environment ends the options there, and otherwise the search goes past it. */
  lemma OrdinaryFirst(name: Arg, letters: Arg, posixlyCorrect: bool, x: Arg, more: seq<Arg>)
    requires name != "--" && At(x, 0) != '-'
    ensures var st, e := State([name, x] + more, 0, 0, None),
                         Decide(State([name, x] + more, 0, 0, None), Configure(letters, posixlyCorrect));
      if At(letters, 0) == '-' then e == Effect(NoSwap, 2, 1, Some(x), NonOption)
      else if At(letters, 0) == '+' || posixlyCorrect then e == Effect(NoSwap, 1, 1, None, EndOfOptions)
      else more == [] ==> e == Effect(NoSwap, 1, 1, None, EndOfOptions)
  {
    var argv := [name, x] + more;
    assert argv[1] == x && argv[0] == name;
    if more == [] { assert NextOption(argv, 1) == 2; }
  }

  /** name x -c, where the search goes past x: c is found, and its element moves in front of x. */
  lemma OptionPassesOrdinary(name: Arg, letters: Arg, pre: Arg, c: char, post: Arg, x: Arg)
    requires name != "--" && At(x, 0) != '-' && At(letters, 0) !in "-+"
    requires Listed(letters, pre, c, post) && At(post, 0) != ':'
    ensures var st, cfg := State([name, x, "-" + [c]], 0, 0, None), Configure(letters, false);
      Decide(st, cfg).answer == Letter(c)
      && Call(st, cfg).argv == [name, "-" + [c], x] && Call(st, cfg).optind == 2
  {
    hide Kind, Attached;
    var st, cfg := State([name, x, "-" + [c]], 0, 0, None), Configure(letters, false);
    KindInText(letters, pre, c, post);
    assert NextOption(st.argv, 1) == 2;
    Behind(st.argv[2], "-", c, "");
    DecideFits(st, cfg);
    assert Swapped(st.argv, 1, 1, 1) == [name, "-" + [c], x];
  }

  /** name x -c text, with a colon after c: the element and its argument both move in front of x. */
  lemma ArgumentPassesOrdinary(name: Arg, letters: Arg, pre: Arg, c: char, post: Arg, x: Arg, text: Arg)
    requires name != "--" && At(x, 0) != '-' && At(letters, 0) !in "-+"
    requires Listed(letters, pre, c, ":" + post) && At(post, 0) != ':'
    ensures var st, cfg := State([name, x, "-" + [c], text], 0, 0, None), Configure(letters, false);
      Decide(st, cfg).answer == Letter(c) && Call(st, cfg).optarg == Some(text)
      && Call(st, cfg).argv == [name, "-" + [c], text, x] && Call(st, cfg).optind == 3
  {
    hide Kind, Attached;
    var st, cfg := State([name, x, "-" + [c], text], 0, 0, None), Configure(letters, false);
    KindInText(letters, pre, c, ":" + post);
    assert NextOption(st.argv, 1) == 2;
    Behind(st.argv[2], "-", c, "");
    DecideFits(st, cfg);
    assert Swapped(st.argv, 1, 1, 2) == [name, "-" + [c], text, x];
  }
}
