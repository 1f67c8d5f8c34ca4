/** getopt as a state machine: what one call does to the argument vector and the indices. */
module GetoptSpec {
  import opened CStrings
  import opened Common

  /** An argument, up to its terminator. */
  type Arg = string

  datatype Ordering = PERMUTE | RETURN_IN_ORDER | REQUIRE_ORDER

  /** Whether an option letter takes an argument. */
  datatype HasArg = NoArgument | RequiredArgument | OptionalArgument

  datatype Config = Config(shortopts: Arg, ordering: Ordering)

  /** argv without its closing null pointer, the two indices, and the argument last found. */
  datatype State = State(argv: seq<Arg>, optind: nat, optwhere: nat, optarg: Option<Arg>)

  /** Fault stands for a read through the null pointer or past the end of the option letters. */
  datatype Answer = Letter(c: char) | NonOption | Unknown | Missing | EndOfOptions | Fault

  /** A leading `-` or `+` of the option letters chooses the ordering. */
  function Configure(optstring: Arg, posixlyCorrect: bool): Config {
    if At(optstring, 0) == '-' then Config(optstring[1..], RETURN_IN_ORDER)
    else if At(optstring, 0) == '+' then Config(optstring[1..], REQUIRE_ORDER)
    else Config(optstring, if posixlyCorrect then REQUIRE_ORDER else PERMUTE)
  }

  function Find(s: Arg, c: char): (k: nat)
    ensures k <= |s|
    ensures k < |s| ==> s[k] == c
    ensures forall j :: 0 <= j < k ==> s[j] != c
  {
    if s == "" then 0 else if s[0] == c then 0 else 1 + Find(s[1..], c)
  }

  function Kind(shortopts: Arg, c: char): Option<HasArg> {
    var k := Find(shortopts, c);
    if k == |shortopts| then None
    else if At(shortopts, k + 1) != ':' then Some(NoArgument)
    else if At(shortopts, k + 2) == ':' then Some(OptionalArgument)
    else Some(RequiredArgument)
  }

  predicate IsOption(arg: Arg) {
    At(arg, 0) == '-'
  }

  /** The first option at or after i, or the number of arguments. */
  function NextOption(argv: seq<Arg>, i: nat): (k: nat)
    requires i <= |argv|
    ensures i <= k <= |argv|
    ensures forall j :: i <= j < k ==> !IsOption(argv[j])
    ensures k < |argv| ==> IsOption(argv[k])
    decreases |argv| - i
  {
    if i == |argv| || IsOption(argv[i]) then i else NextOption(argv, i + 1)
  }

  /** Two neighbouring blocks change places. */
  function Swapped<T>(argv: seq<T>, from: nat, len1: nat, len2: nat): (r: seq<T>)
    requires from + len1 + len2 <= |argv|
    ensures |r| == |argv|
  {
    var mid, to := from + len1, from + len1 + len2;
    argv[..from] + argv[mid..to] + argv[from..mid] + argv[to..]
  }

  /** The text after a letter, less a `=` in front. */
  function Attached(arg: Arg, w: nat): Arg {
    if w + 1 >= |arg| then ""
    else if arg[w + 1] == '=' then arg[w + 2..] else arg[w + 1..]
  }

  /** What a call does: the blocks it swaps, if any, the new indices and argument, the answer. */
  datatype Effect = Effect(swap: Swap, optind: nat, optwhere: nat, optarg: Option<Arg>, answer: Answer)

  /** The arguments [from..from + skipped] go behind the `moved` ones after them. */
  datatype Swap = NoSwap | Swap(from: nat, skipped: nat, moved: nat)

  /** Moving on from the option at i, which took `extra` arguments more; once the whole element
      is done, the arguments skipped before it go behind it. */
  function Advance(cfg: Config, from: nat, i: nat, w: nat, extra: nat, optarg: Option<Arg>, c: char): Effect
    requires from <= i
  {
    if w != 1 then Effect(NoSwap, i, w, optarg, Letter(c))
    else if cfg.ordering == PERMUTE && from < i then
      Effect(Swap(from, i - from, 1 + extra), from + 1 + extra, 1, optarg, Letter(c))
    else Effect(NoSwap, i + 1 + extra, 1, optarg, Letter(c))
  }

  /** Parsing letter w of the option at i, when the arguments from `from` to i have been skipped. */
  function Parse(st: State, cfg: Config, from: nat, i: nat, w: nat): Effect
    requires from <= i < |st.argv|
  {
    var arg := st.argv[i];
    var c := At(arg, w);
    if c == EOS then Effect(NoSwap, i, w, st.optarg, Fault)
    else
      var ends := At(arg, w + 1) == EOS;
      var text := Attached(arg, w);
      match Kind(cfg.shortopts, c)
      case None => Effect(NoSwap, if ends then i + 1 else i, if ends then 1 else w + 1, st.optarg, Unknown)
      case Some(NoArgument) => Advance(cfg, from, i, if ends then 1 else w + 1, 0, None, c)
      case Some(OptionalArgument) =>
        if text != "" then Advance(cfg, from, i, 1, 0, Some(text), c)
        else Advance(cfg, from, i, w, 0, None, c)
      case Some(RequiredArgument) =>
        if text != "" then Advance(cfg, from, i, 1, 0, Some(text), c)
        else if i + 1 >= |st.argv| then Effect(NoSwap, i + 1, w, st.optarg, Missing)
        else Advance(cfg, from, i, 1, 1, Some(st.argv[i + 1]), c)
  }

  /** Parsing looks at the arguments, not at the index the call began with. */
  lemma ParseByArgv(st: State, st2: State, cfg: Config, from: nat, i: nat, w: nat)
    requires from <= i < |st.argv| && st.argv == st2.argv && st.optarg == st2.optarg
    ensures Parse(st, cfg, from, i, w) == Parse(st2, cfg, from, i, w)
  {
  }

  /** A call once the first-time settings are made. */
  function Continue(st: State, cfg: Config): Effect
    requires 0 < st.optind <= |st.argv|
  {
    var i, argc := st.optind, |st.argv|;
    if st.optwhere != 1 then
      if i == argc then Stay(st, Fault) else Parse(st, cfg, i, i, st.optwhere)
    else
      match cfg.ordering
      case PERMUTE =>
        var k := NextOption(st.argv, i);
        if k == argc then Stay(st, EndOfOptions)
        else if st.argv[k] == "--" then Effect(Swap(i, k - i, 1), i + 1, 1, st.optarg, EndOfOptions)
        else Parse(st, cfg, i, k, 1)
      case RETURN_IN_ORDER =>
        if i == argc then Stay(st, Fault)
        else if !IsOption(st.argv[i]) then Effect(NoSwap, i + 1, 1, Some(st.argv[i]), NonOption)
        else Parse(st, cfg, i, i, 1)
      case REQUIRE_ORDER =>
        if i == argc then Stay(st, Fault)
        else if !IsOption(st.argv[i]) then Stay(st, EndOfOptions)
        else Parse(st, cfg, i, i, 1)
  }

  function Stay(st: State, answer: Answer): Effect {
    Effect(NoSwap, st.optind, st.optwhere, st.optarg, answer)
  }

  /** One call of getopt. */
  function Decide(st: State, cfg: Config): Effect {
    if |st.argv| == 0 then Stay(st, Unknown)
    else if st.optind >= |st.argv| then Stay(st, EndOfOptions)
    else if st.argv[st.optind] == "--" then Stay(st.(optind := st.optind + 1), EndOfOptions)
    else Continue(if st.optind == 0 then st.(optind := 1, optwhere := 1) else st, cfg)
  }

  predicate BareDash(arg: Arg) {
    IsOption(arg) && At(arg, 1) == EOS
  }

  /** Where a call reads what it must not: a letter past the end of its element, the letter after a
      bare dash, or the null pointer at the end of argv. */
  predicate ReadsAmiss(st: State, cfg: Config) {
    var argc := |st.argv|;
    st.optind < argc && st.argv[st.optind] != "--" &&
    var i, w := if st.optind == 0 then 1 else st.optind, if st.optind == 0 then 1 else st.optwhere;
    if w != 1 then At(st.argv[i], w) == EOS
    else if cfg.ordering == PERMUTE then NextOption(st.argv, i) < argc && BareDash(st.argv[NextOption(st.argv, i)])
    else i == argc || BareDash(st.argv[i])
  }

  /** Those are the calls that end in a fault. */
  lemma FaultsExactly(st: State, cfg: Config)
    ensures Decide(st, cfg).answer == Fault <==> ReadsAmiss(st, cfg)
  {
    hide Attached, Kind, Swapped;
  }

  predicate Fits(swap: Swap, argc: nat) {
    swap.Swap? ==> swap.from + swap.skipped + swap.moved <= argc
  }

  lemma ParseFits(st: State, cfg: Config, from: nat, i: nat, w: nat)
    requires from <= i < |st.argv|
    ensures Fits(Parse(st, cfg, from, i, w).swap, |st.argv|) && Parse(st, cfg, from, i, w).optind <= |st.argv|
  {
    hide Attached, Kind;
  }

  lemma DecideFits(st: State, cfg: Config)
    ensures Fits(Decide(st, cfg).swap, |st.argv|)
    ensures st.optind <= |st.argv| ==> Decide(st, cfg).optind <= |st.argv|
  {
    hide Parse;
    var st1 := if st.optind == 0 then st.(optind := 1, optwhere := 1) else st;
    var i := st1.optind;
    if i < |st.argv| {
      ParseFits(st1, cfg, i, i, st1.optwhere);
      var k := NextOption(st.argv, i);
      if k < |st.argv| { ParseFits(st1, cfg, i, k, 1); }
    }
  }

  function Rearranged(argv: seq<Arg>, swap: Swap): seq<Arg>
    requires Fits(swap, |argv|)
  {
    if swap.NoSwap? then argv else Swapped(argv, swap.from, swap.skipped, swap.moved)
  }

  function Call(st: State, cfg: Config): State {
    DecideFits(st, cfg);
    var e := Decide(st, cfg);
    State(Rearranged(st.argv, e.swap), e.optind, e.optwhere, e.optarg)
  }
}

/** Repeating a step and collecting its answers. */
module Runs {
  function Iterate<S, A>(step: S -> (S, A), st: S, n: nat): (r: (S, seq<A>))
    ensures |r.1| == n
    decreases n
  {
    if n == 0 then (st, [])
    else
      var (next, a) := step(st);
      var (fin, more) := Iterate(step, next, n - 1);
      (fin, [a] + more)
  }

  lemma {:induction false} IterateAdd<S, A>(step: S -> (S, A), st: S, m: nat, n: nat)
    ensures var (mid, first) := Iterate(step, st, m);
      var (fin, more) := Iterate(step, mid, n);
      Iterate(step, st, m + n) == (fin, first + more)
    decreases m
  {
    if m == 0 {
      assert 0 + n == n && [] + Iterate(step, st, n).1 == Iterate(step, st, n).1;
    } else {
      var (next, a) := step(st);
      IterateAdd(step, next, m - 1, n);
      var (mid, first) := Iterate(step, next, m - 1);
      var (fin, more) := Iterate(step, mid, n);
      assert Iterate(step, next, m + n - 1) == (fin, first + more);
      assert [a] + (first + more) == ([a] + first) + more;
    }
  }

  lemma Compose<S, A>(step: S -> (S, A), st: S, m: nat, xs: seq<A>, n: nat, ys: seq<A>, k: nat)
    requires k == m + n && Iterate(step, st, m).1 == xs && Iterate(step, Iterate(step, st, m).0, n).1 == ys
    ensures Iterate(step, st, k).0 == Iterate(step, Iterate(step, st, m).0, n).0
    ensures Iterate(step, st, k).1 == xs + ys
  {
    IterateAdd(step, st, m, n);
  }

  lemma IterateOne<S, A>(step: S -> (S, A), st: S)
    ensures Iterate(step, st, 1) == (step(st).0, [step(st).1])
  {
    assert Iterate(step, step(st).0, 0) == (step(st).0, []);
    assert [step(st).1] + [] == [step(st).1];
  }
}

/** Facts about every run. */
module GetoptLaws {
  import opened Common
  import opened GetoptSpec
  import opened Runs

  lemma SwappedKeepsAll<T>(argv: seq<T>, from: nat, len1: nat, len2: nat)
    requires from + len1 + len2 <= |argv|
    ensures multiset(Swapped(argv, from, len1, len2)) == multiset(argv)
  {
    var mid, to := from + len1, from + len1 + len2;
    var a, b, c, d := argv[..from], argv[from..mid], argv[mid..to], argv[to..];
    CutInFour(argv, from, mid, to);
    FourBlocks(a, b, c, d);
    FourBlocks(a, c, b, d);
  }

  lemma CutInTwo<T>(s: seq<T>, i: nat, j: nat)
    requires i <= j <= |s|
    ensures s[..j] == s[..i] + s[i..j]
  {
  }

  lemma CutInFour<T>(s: seq<T>, i: nat, j: nat, k: nat)
    requires i <= j <= k <= |s|
    ensures s == s[..i] + s[i..j] + s[j..k] + s[k..]
  {
    CutInTwo(s, i, j);
    CutInTwo(s, j, k);
    CutInTwo(s, k, |s|);
    assert s[..|s|] == s && s[k..|s|] == s[k..];
  }

  lemma FourBlocks<T>(a: seq<T>, b: seq<T>, c: seq<T>, d: seq<T>)
    ensures multiset(a + b + c + d) == multiset(a) + multiset(b) + multiset(c) + multiset(d)
  {
  }

  /** No call loses or invents an argument, in any ordering and from any state. */
  lemma CallKeepsAll(st: State, cfg: Config)
    ensures multiset(Call(st, cfg).argv) == multiset(st.argv)
  {
    DecideFits(st, cfg);
    var swap := Decide(st, cfg).swap;
    if swap.Swap? {
      SwappedKeepsAll(st.argv, swap.from, swap.skipped, swap.moved);
    }
  }

  /** A call as a step: the new state, and the answer with the argument found. */
  function CallStep(cfg: Config): State -> (State, (Answer, Option<Arg>)) {
    st => (Call(st, cfg), (Decide(st, cfg).answer, Call(st, cfg).optarg))
  }

  /** The state after n calls. */
  function After(st: State, cfg: Config, n: nat): State {
    Iterate(CallStep(cfg), st, n).0
  }

  /** The answers and arguments of n calls. */
  function Trace(st: State, cfg: Config, n: nat): seq<(Answer, Option<Arg>)> {
    Iterate(CallStep(cfg), st, n).1
  }

  /** Over a whole run, argv stays a rearrangement of what it was. */
  lemma {:induction false} RunKeepsAll(st: State, cfg: Config, n: nat)
    ensures multiset(After(st, cfg, n).argv) == multiset(st.argv)
    decreases n
  {
    hide Call, After;
    AfterCalls(st, cfg, n);
    if n > 0 {
      CallKeepsAll(st, cfg);
      RunKeepsAll(Call(st, cfg), cfg, n - 1);
    }
  }

  /** The first of n calls, and the others. */
  lemma AfterCalls(st: State, cfg: Config, n: nat)
    ensures After(st, cfg, n) == if n == 0 then st else After(Call(st, cfg), cfg, n - 1)
  {
    hide Call, Decide;
  }
}

/** Runs that never read amiss. */
module GetoptSafety {
  import opened CStrings
  import opened Common
  import opened GetoptSpec
  import opened GetoptLaws
  import opened Runs

  /** No argument after the program's name is a bare dash. */
  predicate NoBareDash(argv: seq<Arg>) {
    forall k :: 1 <= k < |argv| ==> !BareDash(argv[k])
  }

  /** A command line on which getopt can be started. */
  predicate CanStart(argv: seq<Arg>, cfg: Config) {
    && NoBareDash(argv)
    && (argv != [] ==> argv[0] != "--")
    && (|argv| == 1 ==> cfg.ordering == PERMUTE)
  }

  /** Between calls: not begun, or at the start of an element, or at a letter of one, or past the end. */
  predicate Sound(st: State, cfg: Config) {
    && NoBareDash(st.argv)
    && (st.optind == 0 ==> CanStart(st.argv, cfg))
    && (0 < st.optind < |st.argv| ==>
          st.optwhere == 1 || (st.optwhere > 1 && At(st.argv[st.optind], st.optwhere) != EOS))
  }

  lemma SoundDoesNotFault(st: State, cfg: Config)
    requires Sound(st, cfg)
    ensures Decide(st, cfg).answer != Fault
  {
    hide Decide;
    FaultsExactly(st, cfg);
  }

  lemma SwappedNoBareDash(argv: seq<Arg>, from: nat, len1: nat, len2: nat)
    requires 1 <= from && from + len1 + len2 <= |argv| && NoBareDash(argv)
    ensures NoBareDash(Swapped(argv, from, len1, len2))
  {
    hide BareDash;
    var s := Swapped(argv, from, len1, len2);
    forall k | 1 <= k < |s|
      ensures !BareDash(s[k])
    {
      if from <= k < from + len2 {
        assert s[k] == argv[k + len1];
      } else if from + len2 <= k < from + len1 + len2 {
        assert s[k] == argv[k - len2];
      } else {
        assert s[k] == argv[k];
      }
    }
  }

  /** Past the program's name, at the start of an element, or at a letter of the one named. */
  predicate InPlace(e: Effect, argv: seq<Arg>) {
    && (e.swap.Swap? ==> e.swap.from >= 1 && e.optwhere == 1)
    && e.optind > 0
    && (e.optind < |argv| ==>
          e.optwhere == 1 || (e.optwhere > 1 && At(argv[e.optind], e.optwhere) != EOS))
  }

  lemma ParseInPlace(st: State, cfg: Config, from: nat, i: nat, w: nat)
    requires 1 <= from <= i < |st.argv| && w >= 1 && Parse(st, cfg, from, i, w).answer != Fault
    ensures InPlace(Parse(st, cfg, from, i, w), st.argv)
  {
    hide Attached, Kind;
  }

  lemma ContinueInPlace(st: State, cfg: Config)
    requires 0 < st.optind <= |st.argv| && Continue(st, cfg).answer != Fault
    requires st.optind < |st.argv| ==> st.optwhere >= 1
    ensures InPlace(Continue(st, cfg), st.argv)
  {
    hide Parse;
    var i := st.optind;
    if i < |st.argv| {
      var k := if st.optwhere == 1 && cfg.ordering == PERMUTE then NextOption(st.argv, i) else i;
      if k < |st.argv| {
        var e := Parse(st, cfg, i, k, st.optwhere);
        if e.answer != Fault { ParseInPlace(st, cfg, i, k, st.optwhere); }
      }
    }
  }

  lemma DecidesInPlace(st: State, cfg: Config)
    requires Sound(st, cfg)
    ensures st.argv == [] || InPlace(Decide(st, cfg), st.argv)
    ensures st.argv == [] ==> Decide(st, cfg) == Stay(st, Unknown)
  {
    hide Continue;
    SoundDoesNotFault(st, cfg);
    if st.optind < |st.argv| && st.argv[st.optind] != "--" {
      ContinueInPlace(if st.optind == 0 then st.(optind := 1, optwhere := 1) else st, cfg);
    }
  }

  lemma CallKeepsSound(st: State, cfg: Config)
    requires Sound(st, cfg)
    ensures Sound(Call(st, cfg), cfg)
  {
    hide Decide;
    DecideFits(st, cfg);
    DecidesInPlace(st, cfg);
    var swap := Decide(st, cfg).swap;
    if swap.Swap? { SwappedNoBareDash(st.argv, swap.from, swap.skipped, swap.moved); }
  }

  lemma {:induction false} SoundAfter(st: State, cfg: Config, n: nat)
    requires Sound(st, cfg)
    ensures Sound(After(st, cfg, n), cfg)
    decreases n
  {
    hide Sound, Call, Decide;
    if n > 0 {
      CallKeepsSound(st, cfg);
      SoundAfter(Call(st, cfg), cfg, n - 1);
    }
  }

  /** A run from the beginning reads nothing amiss, however long it is, when no argument is a bare
      dash, the program is not called by a double dash, and there is an argument or the ordering
      permutes. */
  lemma NoRunFaults(argv: seq<Arg>, cfg: Config, optarg: Option<Arg>, n: nat)
    requires CanStart(argv, cfg)
    ensures Decide(After(State(argv, 0, 0, optarg), cfg, n), cfg).answer != Fault
  {
    hide Decide;
    var st := State(argv, 0, 0, optarg);
    SoundAfter(st, cfg, n);
    SoundDoesNotFault(After(st, cfg, n), cfg);
  }

  /** Started on a program's name alone, an ordering that does not permute reads through the null
      pointer. */
  lemma LoneNameFaults(name: Arg, cfg: Config)
    requires name != "--"
    ensures Decide(State([name], 0, 0, None), cfg).answer == Fault <==> cfg.ordering != PERMUTE
  {
    FaultsExactly(State([name], 0, 0, None), cfg);
  }
}

/** Whole runs in the permuting order, on command lines whose options are all in order. */
module GetoptRuns {
  import opened CStrings
  import opened Common
  import opened GetoptSpec
  import opened GetoptLaws
  import opened Runs

  /** A letter that was found, with its argument. */
  type Found = (char, Option<Arg>)

  /** A piece of the command line: an ordinary argument, or an option element, followed by a
      second element when its last letter takes that one as its argument. */
  datatype Item = Plain(arg: Arg) | Opt(elems: seq<Arg>)

  predicate GoodPlain(arg: Arg) {
    !IsOption(arg)
  }

  /** From letter w on, the element consists of known letters, each with the argument it needs.
      An optional argument that is not there is allowed only for a letter on its own. */
  predicate GoodFrom(cfg: Config, elems: seq<Arg>, w: nat)
    requires elems != []
    decreases |elems[0]| - w
  {
    var arg := elems[0];
    var c := At(arg, w);
    c != EOS &&
    match Kind(cfg.shortopts, c)
    case None => false
    case Some(NoArgument) => if At(arg, w + 1) == EOS then |elems| == 1 else GoodFrom(cfg, elems, w + 1)
    case Some(OptionalArgument) => |elems| == 1 && (Attached(arg, w) != "" || w == 1)
    case Some(RequiredArgument) => |elems| == if Attached(arg, w) != "" then 1 else 2
  }

  predicate GoodItem(cfg: Config, item: Item) {
    match item
    case Plain(arg) => GoodPlain(arg)
    case Opt(elems) => elems != [] && IsOption(elems[0]) && elems[0] != "--" && GoodFrom(cfg, elems, 1)
  }

  predicate Good(cfg: Config, items: seq<Item>) {
    forall k :: 0 <= k < |items| ==> GoodItem(cfg, items[k])
  }

  /** The letters of an element from w on. */
  function LettersFrom(cfg: Config, elems: seq<Arg>, w: nat): (r: seq<Found>)
    requires elems != [] && GoodFrom(cfg, elems, w)
    ensures r != []
    decreases |elems[0]| - w
  {
    var arg := elems[0];
    var c, text := At(arg, w), Attached(arg, w);
    match Kind(cfg.shortopts, c).value
    case NoArgument => [(c, None)] + (if At(arg, w + 1) == EOS then [] else LettersFrom(cfg, elems, w + 1))
    case OptionalArgument => [(c, if text != "" then Some(text) else None)]
    case RequiredArgument => [(c, Some(if text != "" then text else elems[1]))]
  }

  function Letters(cfg: Config, items: seq<Item>): seq<Found>
    requires Good(cfg, items)
  {
    if items == [] then []
    else (if items[0].Opt? then LettersFrom(cfg, items[0].elems, 1) else []) + Letters(cfg, items[1..])
  }

  /** An element that takes more than one call: several letters in one. */
  predicate Cluster(cfg: Config, item: Item)
    requires GoodItem(cfg, item)
  {
    item.Opt? && |LettersFrom(cfg, item.elems, 1)| > 1
  }

  function Elements(item: Item): seq<Arg> {
    match item case Plain(arg) => [arg] case Opt(elems) => elems
  }

  function CommandLine(items: seq<Item>): seq<Arg> {
    if items == [] then [] else Elements(items[0]) + CommandLine(items[1..])
  }

  function Options(items: seq<Item>): seq<Arg> {
    if items == [] then []
    else (if items[0].Opt? then items[0].elems else []) + Options(items[1..])
  }

  function Plains(items: seq<Item>): seq<Arg> {
    if items == [] then []
    else (if items[0].Plain? then [items[0].arg] else []) + Plains(items[1..])
  }

  /** Where the arguments end up: `done` before optind, `skipped` after it.  A single option
      goes in front of what was skipped; a cluster leaves it where it is, and passes it. */
  function Placed(cfg: Config, done: seq<Arg>, skipped: seq<Arg>, items: seq<Item>): (seq<Arg>, seq<Arg>)
    requires Good(cfg, items)
    decreases items
  {
    if items == [] then (done, skipped)
    else
      match items[0]
      case Plain(arg) => Placed(cfg, done, skipped + [arg], items[1..])
      case Opt(elems) =>
        if Cluster(cfg, items[0]) then Placed(cfg, done + skipped + elems, [], items[1..])
        else Placed(cfg, done + elems, skipped, items[1..])
  }

  /** Between two elements of the command line: what is done, what was skipped, what is to come. */
  ghost predicate Ready(st: State, done: seq<Arg>, skipped: seq<Arg>, rest: seq<Arg>) {
    && st.argv == done + skipped + rest
    && 0 < st.optind == |done| && st.optwhere == 1
    && forall k :: 0 <= k < |skipped| ==> GoodPlain(skipped[k])
  }

  /** In the middle of a cluster, at letter w of the first element to come. */
  ghost predicate Inside(st: State, before: seq<Arg>, rest: seq<Arg>, w: nat) {
    st.argv == before + rest && 0 < st.optind == |before| && st.optwhere == w && w > 1 && rest != [] && rest[0] != "--"
  }

  lemma SwapBlocks(done: seq<Arg>, skipped: seq<Arg>, elems: seq<Arg>, rest: seq<Arg>)
    ensures Swapped(done + skipped + (elems + rest), |done|, |skipped|, |elems|) == done + elems + skipped + rest
  {
    var argv := done + skipped + (elems + rest);
    assert argv[..|done|] == done;
    assert argv[|done|..|done| + |skipped|] == skipped;
    assert argv[|done| + |skipped|..|done| + |skipped| + |elems|] == elems;
    assert argv[|done| + |skipped| + |elems|..] == rest;
  }

  /** What is found by the next call at letter w. */
  lemma ParseGood(st: State, cfg: Config, from: nat, i: nat, w: nat, elems: seq<Arg>)
    requires from <= i && i + |elems| <= |st.argv| && elems != [] && st.argv[i..i + |elems|] == elems
    requires GoodFrom(cfg, elems, w) && w >= 1
    ensures var found := LettersFrom(cfg, elems, w);
      var e := Parse(st, cfg, from, i, w);
      && e == Advance(cfg, from, i, if |found| == 1 then 1 else w + 1, |elems| - 1, found[0].1, found[0].0)
      && (|found| > 1 ==> |elems| >= 1 && GoodFrom(cfg, elems, w + 1) && LettersFrom(cfg, elems, w + 1) == found[1..])
  {
    assert elems[0] == st.argv[i];
    if |elems| == 2 {
      assert elems[1] == st.argv[i + 1];
    }
  }

  /** The element at the front of what is to come is the next option. */
  lemma NextIsFirst(argv: seq<Arg>, done: seq<Arg>, skipped: seq<Arg>, rest: seq<Arg>)
    requires argv == done + skipped + rest && (rest == [] || IsOption(rest[0]))
    requires forall k :: 0 <= k < |skipped| ==> GoodPlain(skipped[k])
    ensures NextOption(argv, |done|) == |done| + |skipped|
  {
    forall j | |done| <= j < |done| + |skipped| ensures !IsOption(argv[j]) {
      assert argv[j] == skipped[j - |done|];
    }
    if rest != [] {
      assert argv[|done| + |skipped|] == rest[0];
    }
  }

  lemma Slices(before: seq<Arg>, elems: seq<Arg>, rest: seq<Arg>)
    ensures (before + (elems + rest))[|before|..|before| + |elems|] == elems
    ensures elems != [] ==> (before + (elems + rest))[|before|] == elems[0]
  {
  }

  /** The call that meets the option at the front of what is to come. */
  lemma DecideFirst(st: State, cfg: Config, done: seq<Arg>, skipped: seq<Arg>, elems: seq<Arg>, rest: seq<Arg>)
    requires (cfg.ordering == PERMUTE || skipped == []) && Ready(st, done, skipped, elems + rest)
    requires GoodItem(cfg, Opt(elems))
    ensures var found, i := LettersFrom(cfg, elems, 1), |done| + |skipped|;
      Decide(st, cfg) == Advance(cfg, |done|, i, if |found| == 1 then 1 else 2, |elems| - 1, found[0].1, found[0].0)
  {
    NextIsFirst(st.argv, done, skipped, elems + rest);
    Slices(done + skipped, elems, rest);
    if skipped != [] {
      assert st.argv[|done|] == skipped[0];
    }
    ParseGood(st, cfg, |done|, |done| + |skipped|, 1, elems);
  }

  lemma CallSingle(st: State, cfg: Config, done: seq<Arg>, skipped: seq<Arg>, elems: seq<Arg>, rest: seq<Arg>)
    requires (cfg.ordering == PERMUTE || skipped == []) && Ready(st, done, skipped, elems + rest)
    requires GoodItem(cfg, Opt(elems)) && !Cluster(cfg, Opt(elems))
    ensures var found := LettersFrom(cfg, elems, 1)[0];
      && Ready(Call(st, cfg), done + elems, skipped, rest)
      && Decide(st, cfg).answer == Letter(found.0) && Call(st, cfg).optarg == found.1
  {
    hide Decide, LettersFrom, Swapped;
    DecideFirst(st, cfg, done, skipped, elems, rest);
    DecideFits(st, cfg);
    SwapBlocks(done, skipped, elems, rest);
    if skipped == [] {
      assert st.argv == done + elems + skipped + rest;
    }
  }

  lemma CallCluster(st: State, cfg: Config, done: seq<Arg>, skipped: seq<Arg>, elems: seq<Arg>, rest: seq<Arg>)
    requires (cfg.ordering == PERMUTE || skipped == []) && Ready(st, done, skipped, elems + rest)
    requires GoodItem(cfg, Opt(elems)) && Cluster(cfg, Opt(elems))
    ensures var found := LettersFrom(cfg, elems, 1);
      && Inside(Call(st, cfg), done + skipped, elems + rest, 2)
      && GoodFrom(cfg, elems, 2) && LettersFrom(cfg, elems, 2) == found[1..]
      && Decide(st, cfg).answer == Letter(found[0].0) && Call(st, cfg).optarg == found[0].1
  {
    DecideFirst(st, cfg, done, skipped, elems, rest);
    Slices(done + skipped, elems, rest);
    ParseGood(st, cfg, |done|, |done| + |skipped|, 1, elems);
  }

  lemma CallInside(st: State, cfg: Config, before: seq<Arg>, elems: seq<Arg>, rest: seq<Arg>, w: nat)
    requires Inside(st, before, elems + rest, w) && elems != [] && GoodFrom(cfg, elems, w)
    ensures var found := LettersFrom(cfg, elems, w);
      && Decide(st, cfg).answer == Letter(found[0].0) && Call(st, cfg).optarg == found[0].1
      && (if |found| == 1 then Ready(Call(st, cfg), before + elems, [], rest)
          else Inside(Call(st, cfg), before, elems + rest, w + 1) && GoodFrom(cfg, elems, w + 1)
               && LettersFrom(cfg, elems, w + 1) == found[1..])
  {
    Slices(before, elems, rest);
    ParseGood(st, cfg, |before|, |before|, w, elems);
    assert before + (elems + rest) == before + elems + [] + rest;
  }

  // ----- Runs -----

  function Answered(found: seq<Found>): seq<(Answer, Option<Arg>)> {
    if found == [] then [] else [(Letter(found[0].0), found[0].1)] + Answered(found[1..])
  }

  lemma {:induction false} AnsweredAppend(a: seq<Found>, b: seq<Found>)
    ensures Answered(a + b) == Answered(a) + Answered(b)
  {
    if a == [] {
      assert a + b == b;
    } else {
      AnsweredAppend(a[1..], b);
      assert (a + b)[1..] == a[1..] + b && (a + b)[0] == a[0];
      Assoc([(Letter(a[0].0), a[0].1)], Answered(a[1..]), Answered(b));
    }
  }

  lemma {:induction false} RunInside(st: State, cfg: Config, before: seq<Arg>, elems: seq<Arg>, rest: seq<Arg>, w: nat)
    requires Inside(st, before, elems + rest, w) && elems != [] && GoodFrom(cfg, elems, w)
    ensures var found := LettersFrom(cfg, elems, w);
      Ready(After(st, cfg, |found|), before + elems, [], rest) && Trace(st, cfg, |found|) == Answered(found)
    decreases |LettersFrom(cfg, elems, w)|
  {
    CallInside(st, cfg, before, elems, rest, w);
    var found := LettersFrom(cfg, elems, w);
    if |found| > 1 {
      RunInside(Call(st, cfg), cfg, before, elems, rest, w + 1);
    }
    OneThenMore(st, cfg, found);
  }

  /** A call that answers with the first letter, and then those that answer with the others. */
  lemma OneThenMore(st: State, cfg: Config, found: seq<Found>)
    requires found != []
    requires Decide(st, cfg).answer == Letter(found[0].0) && Call(st, cfg).optarg == found[0].1
    requires Trace(Call(st, cfg), cfg, |found| - 1) == Answered(found[1..])
    ensures After(st, cfg, |found|) == After(Call(st, cfg), cfg, |found| - 1)
    ensures Trace(st, cfg, |found|) == Answered(found)
  {
    IterateAdd(CallStep(cfg), st, 1, |found| - 1);
    IterateOne(CallStep(cfg), st);
  }

  /** The calls one option element takes. */
  lemma RunElement(st: State, cfg: Config, done: seq<Arg>, skipped: seq<Arg>, elems: seq<Arg>, rest: seq<Arg>)
    requires (cfg.ordering == PERMUTE || skipped == []) && Ready(st, done, skipped, elems + rest)
    requires GoodItem(cfg, Opt(elems))
    ensures var found := LettersFrom(cfg, elems, 1);
      var fin := After(st, cfg, |found|);
      && Trace(st, cfg, |found|) == Answered(found)
      && (if Cluster(cfg, Opt(elems)) then Ready(fin, done + skipped + elems, [], rest)
          else Ready(fin, done + elems, skipped, rest))
  {
    var found := LettersFrom(cfg, elems, 1);
    if Cluster(cfg, Opt(elems)) {
      CallCluster(st, cfg, done, skipped, elems, rest);
      RunInside(Call(st, cfg), cfg, done + skipped, elems, rest, 2);
    } else {
      CallSingle(st, cfg, done, skipped, elems, rest);
    }
    OneThenMore(st, cfg, found);
  }

  lemma RunThenMore(step: State -> (State, (Answer, Option<Arg>)), st: State, a: seq<Found>, b: seq<Found>)
    requires Iterate(step, st, |a|).1 == Answered(a)
    requires Iterate(step, Iterate(step, st, |a|).0, |b|).1 == Answered(b)
    ensures Iterate(step, st, |a + b|).0 == Iterate(step, Iterate(step, st, |a|).0, |b|).0
    ensures Iterate(step, st, |a + b|).1 == Answered(a + b)
  {
    Compose(step, st, |a|, Answered(a), |b|, Answered(b), |a + b|);
    AnsweredAppend(a, b);
  }

  lemma CommandLineStep(items: seq<Item>, tail: seq<Arg>)
    requires items != []
    ensures CommandLine(items) + tail == Elements(items[0]) + (CommandLine(items[1..]) + tail)
  {
    Assoc(Elements(items[0]), CommandLine(items[1..]), tail);
  }

  /** A run over the options: the letters come out in the order of the command line, and the
      arguments end up where Placed says. */
  lemma {:induction false} RunItems(st: State, cfg: Config, done: seq<Arg>, skipped: seq<Arg>, items: seq<Item>,
      tail: seq<Arg>)
    requires cfg.ordering == PERMUTE && Good(cfg, items)
    requires Ready(st, done, skipped, CommandLine(items) + tail)
    ensures var n, (d, s) := |Letters(cfg, items)|, Placed(cfg, done, skipped, items);
      Ready(After(st, cfg, n), d, s, tail) && Trace(st, cfg, n) == Answered(Letters(cfg, items))
    decreases |items|
  {
    hide Cluster, LettersFrom;
    if items == [] {
      assert CommandLine(items) + tail == tail;
    } else {
      var more := items[1..];
      var rest := CommandLine(more) + tail;
      CommandLineStep(items, tail);
      match items[0] {
        case Plain(arg) =>
          Assoc(done, skipped, [arg] + rest);
          Assoc(skipped, [arg], rest);
          Assoc(done, skipped + [arg], rest);
          assert Letters(cfg, items) == Letters(cfg, more);
          RunItems(st, cfg, done, skipped + [arg], more, tail);
        case Opt(elems) =>
          var found := LettersFrom(cfg, elems, 1);
          RunElement(st, cfg, done, skipped, elems, rest);
          if Cluster(cfg, items[0]) {
            RunItems(After(st, cfg, |found|), cfg, done + skipped + elems, [], more, tail);
          } else {
            RunItems(After(st, cfg, |found|), cfg, done + elems, skipped, more, tail);
          }
          RunThenMore(CallStep(cfg), st, found, Letters(cfg, more));
      }
    }
  }

  /** How the options end: with the command line, or at a double dash. */
  predicate GoodTail(tail: seq<Arg>) {
    tail == [] || tail[0] == "--"
  }

  function AfterDashes(tail: seq<Arg>): seq<Arg> {
    if tail == [] then [] else tail[1..]
  }

  /** The call that finds no more options puts the double dash in front of what was skipped. */
  lemma LastCall(st: State, cfg: Config, done: seq<Arg>, skipped: seq<Arg>, tail: seq<Arg>)
    requires cfg.ordering == PERMUTE && Ready(st, done, skipped, tail) && GoodTail(tail)
    ensures var fin, dashes := Call(st, cfg), tail[..|tail| - |AfterDashes(tail)|];
      && Decide(st, cfg).answer == EndOfOptions
      && fin.argv == done + dashes + skipped + AfterDashes(tail) && fin.optind == |done| + |dashes|
  {
    hide Swapped;
    NextIsFirst(st.argv, done, skipped, tail);
    DecideFits(st, cfg);
    if skipped != [] {
      assert st.argv[|done|] == skipped[0];
    }
    if tail == [] {
      assert done + [] + skipped + [] == done + skipped + tail;
    } else {
      assert tail == ["--"] + AfterDashes(tail) && tail[..1] == ["--"];
      assert st.argv[|done| + |skipped|] == "--";
      SwapBlocks(done, skipped, ["--"], AfterDashes(tail));
      assert skipped == [] ==>
        done + ["--"] + skipped + AfterDashes(tail) == done + skipped + (["--"] + AfterDashes(tail));
    }
  }

  /** The first call settles the indices; from there on it is an ordinary one. */
  lemma FirstCall(st: State, cfg: Config)
    requires cfg.ordering == PERMUTE && st.argv != [] && st.optind == 0 && st.argv[0] != "--"
    ensures var ready := st.(optind := 1, optwhere := 1);
      Call(st, cfg) == Call(ready, cfg) && Decide(st, cfg).answer == Decide(ready, cfg).answer
  {
    if |st.argv| > 1 && st.argv[1] == "--" {
      assert NextOption(st.argv, 1) == 1;
      assert Swapped(st.argv, 1, 0, 1) == st.argv;
    }
  }

  lemma SameFirstStep<S, A>(step: S -> (S, A), a: S, b: S, n: nat)
    requires step(a) == step(b) && n > 0
    ensures Iterate(step, a, n) == Iterate(step, b, n)
  {
  }

  /** Calls from the very start until the one that finds no more options: every letter is
      answered, in order, and argv and optind end as Placed says. */
  lemma WholeRun(st: State, cfg: Config, name: Arg, items: seq<Item>, tail: seq<Arg>)
    requires cfg.ordering == PERMUTE && Good(cfg, items) && GoodTail(tail) && name != "--"
    requires st.argv == [name] + CommandLine(items) + tail && st.optind == 0
    ensures var n, (d, s) := |Letters(cfg, items)|, Placed(cfg, [name], [], items);
      var last, dashes := After(st, cfg, n), tail[..|tail| - |AfterDashes(tail)|];
      && Trace(st, cfg, n) == Answered(Letters(cfg, items))
      && Decide(last, cfg).answer == EndOfOptions
      && Call(last, cfg).argv == d + dashes + s + AfterDashes(tail)
      && Call(last, cfg).optind == |d| + |dashes|
  {
    var ready := st.(optind := 1, optwhere := 1);
    var n := |Letters(cfg, items)|;
    var (d, s) := Placed(cfg, [name], [], items);
    FirstCall(st, cfg);
    assert [name] + [] == [name];
    Assoc([name], CommandLine(items), tail);
    RunItems(ready, cfg, [name], [], items, tail);
    LastCall(After(ready, cfg, n), cfg, d, s, tail);
    if n > 0 {
      SameFirstStep(CallStep(cfg), st, ready, n);
    }
  }

  // ----- When the run sorts the arguments -----

  /** No cluster comes after an ordinary argument. */
  predicate InOrder(cfg: Config, skipped: bool, items: seq<Item>)
    requires Good(cfg, items)
    decreases |items|
  {
    items == [] ||
    match items[0]
    case Plain(_) => InOrder(cfg, true, items[1..])
    case Opt(_) => !(skipped && Cluster(cfg, items[0])) && InOrder(cfg, skipped, items[1..])
  }

  lemma {:induction false} PlacedIsPartition(cfg: Config, done: seq<Arg>, skipped: seq<Arg>, items: seq<Item>)
    requires Good(cfg, items)
    ensures var (d, s) := Placed(cfg, done, skipped, items);
      && (InOrder(cfg, skipped != [], items) ==> d == done + Options(items) && s == skipped + Plains(items))
      && |d| >= |done| + |Options(items)|
      && (!InOrder(cfg, skipped != [], items) ==> |d| > |done| + |Options(items)|)
    decreases |items|
  {
    hide Cluster, GoodItem;
    if items != [] {
      match items[0] {
        case Plain(arg) =>
          Assoc(skipped, [arg], Plains(items[1..]));
          PlacedIsPartition(cfg, done, skipped + [arg], items[1..]);
        case Opt(elems) =>
          Assoc(done, elems, Options(items[1..]));
          if Cluster(cfg, items[0]) {
            assert skipped == [] ==> done + skipped + elems == done + elems;
            PlacedIsPartition(cfg, done + skipped + elems, [], items[1..]);
          } else {
            PlacedIsPartition(cfg, done + elems, skipped, items[1..]);
          }
      }
    } else {
      assert done + [] == done && skipped + [] == skipped;
    }
  }

  /** After a whole run argv holds the options with their arguments, then the rest, both in their
      original order, and optind stands between them: exactly when no cluster of letters comes
      after an ordinary argument. */
  lemma RunIsStablePartition(st: State, cfg: Config, name: Arg, items: seq<Item>, tail: seq<Arg>)
    requires cfg.ordering == PERMUTE && Good(cfg, items) && GoodTail(tail) && name != "--"
    requires st.argv == [name] + CommandLine(items) + tail && st.optind == 0
    ensures var fin := Call(After(st, cfg, |Letters(cfg, items)|), cfg);
      var dashes := tail[..|tail| - |AfterDashes(tail)|];
      InOrder(cfg, false, items)
      <==> fin.argv == [name] + Options(items) + dashes + Plains(items) + AfterDashes(tail)
           && fin.optind == 1 + |Options(items)| + |dashes|
  {
    WholeRun(st, cfg, name, items, tail);
    PlacedIsPartition(cfg, [name], [], items);
    assert [] + Plains(items) == Plains(items);
  }

  /** In particular when every option has an element of its own. */
  lemma {:induction false} SinglesAreInOrder(cfg: Config, skipped: bool, items: seq<Item>)
    requires Good(cfg, items) && forall k :: 0 <= k < |items| ==> !Cluster(cfg, items[k])
    ensures InOrder(cfg, skipped, items)
    decreases |items|
  {
    if items != [] {
      SinglesAreInOrder(cfg, skipped || items[0].Plain?, items[1..]);
    }
  }

  /** prog x -ab: the cluster passes x, which ends up before optind and is never seen. */
  lemma ClusterLosesArgument()
    ensures var cfg := Config("ab", PERMUTE);
      var fin := After(State(["prog", "x", "-ab"], 0, 0, None), cfg, 3);
      fin.argv == ["prog", "x", "-ab"] && fin.optind == 3
  {
    var cfg := Config("ab", PERMUTE);
    var s0 := State(["prog", "x", "-ab"], 0, 0, None);
    assert Kind("ab", 'a') == Some(NoArgument) && Kind("ab", 'b') == Some(NoArgument);
    assert NextOption(s0.argv, 1) == 2;
    var s1, s2 := s0.(optind := 2, optwhere := 2), s0.(optind := 3, optwhere := 1);
    assert Call(s0, cfg) == s1;
    assert Call(s1, cfg) == s2;
    assert Call(s2, cfg) == s2;
    assert After(s2, cfg, 0) == s2;
    assert After(s2, cfg, 1) == After(Call(s2, cfg), cfg, 0);
    assert After(s1, cfg, 2) == After(Call(s1, cfg), cfg, 1);
    assert After(s0, cfg, 3) == After(Call(s0, cfg), cfg, 2);
  }

  /** A double dash in the next place ends the options in every ordering, except that the very
      first call sees to it only when it permutes. */
  lemma DoubleDashEndsOptions(st: State, cfg: Config)
    requires var i := if st.optind == 0 then 1 else st.optind; i < |st.argv| && st.argv[i] == "--"
    requires st.argv[0] != "--"
    ensures Decide(st, cfg).answer == EndOfOptions <==> st.optind > 0 || cfg.ordering == PERMUTE
  {
    if st.optind == 0 {
      assert NextOption(st.argv, 1) == 1;
    }
  }
}

/** Which runs come to an end. */
module GetoptEnds {
  import opened CStrings
  import opened Common
  import opened GetoptSpec
  import opened GetoptLaws
  import opened GetoptRuns
  import opened GetoptSafety
  import opened Runs

  ghost predicate EndsAt(st: State, cfg: Config, n: nat) {
    Decide(After(st, cfg, n), cfg).answer == EndOfOptions
  }

  /** Some call answers that there are no more options. */
  ghost predicate Ends(st: State, cfg: Config) {
    exists n: nat :: EndsAt(st, cfg, n)
  }

  // ----- A call that changes nothing -----

  /** A letter past the first of its element, whose optional argument is not there. */
  predicate Lacks(cfg: Config, arg: Arg, w: nat) {
    w != 1 && At(arg, w) != EOS && Kind(cfg.shortopts, At(arg, w)) == Some(OptionalArgument) && Attached(arg, w) == ""
  }

  /** Inside an element, at such a letter. */
  predicate Repeats(st: State, cfg: Config) {
    && 0 < st.optind < |st.argv| && st.argv[st.optind] != "--" && st.optarg == None
    && Lacks(cfg, st.argv[st.optind], st.optwhere)
  }

  /** A letter is answered and nothing moves exactly there. */
  lemma RepeatsExactly(st: State, cfg: Config)
    ensures Decide(st, cfg).answer.Letter? && Call(st, cfg) == st <==> Repeats(st, cfg)
  {
    hide Attached, Kind, Swapped;
  }

  lemma {:induction false} SameForEver(st: State, cfg: Config, n: nat)
    requires Call(st, cfg) == st
    ensures After(st, cfg, n) == st
    decreases n
  {
    hide Call;
    if n > 0 { SameForEver(st, cfg, n - 1); }
  }

  /** From there on every call answers the same letter. */
  lemma RepeatsForEver(st: State, cfg: Config, n: nat)
    requires Repeats(st, cfg)
    ensures After(st, cfg, n) == st
    ensures Decide(After(st, cfg, n), cfg).answer == Letter(At(st.argv[st.optind], st.optwhere))
  {
    RepeatsExactly(st, cfg);
    SameForEver(st, cfg, n);
  }

  lemma KindsOfAB()
    ensures Kind("ab::", 'a') == Some(NoArgument) && Kind("ab::", 'b') == Some(OptionalArgument)
  {
  }

  lemma FirstOfCluster(ordering: Ordering)
    ensures var s0, cfg := State(["prog", "-ab"], 0, 0, None), Config("ab::", ordering);
      Call(s0, cfg) == s0.(optind := 1, optwhere := 2) && Repeats(s0.(optind := 1, optwhere := 2), cfg)
  {
    hide Kind, Swapped;
    KindsOfAB();
    var argv := ["prog", "-ab"];
    assert NextOption(argv, 1) == 1;
    assert argv[1] == "-ab" && At("-ab", 1) == 'a' && At("-ab", 2) == 'b';
  }

  /** prog -ab with an optional argument to b: in every ordering, every call after the first
      answers b. */
  lemma ClusterNeverEnds(ordering: Ordering, n: nat)
    requires n > 0
    ensures var s0, cfg := State(["prog", "-ab"], 0, 0, None), Config("ab::", ordering);
      Decide(After(s0, cfg, n), cfg).answer == Letter('b')
  {
    hide Call, Decide, Repeats;
    var s0, cfg := State(["prog", "-ab"], 0, 0, None), Config("ab::", ordering);
    FirstOfCluster(ordering);
    RepeatsForEver(Call(s0, cfg), cfg, n - 1);
    assert After(s0, cfg, n) == After(Call(s0, cfg), cfg, n - 1);
  }

  // ----- Where a run gets stuck -----

  /** The arguments to come lead to a letter past the first of its element whose optional argument
      is not there. */
  predicate Meets(cfg: Config, args: seq<Arg>)
    decreases |args|, 1, 0
  {
    args != [] && args[0] != "--" &&
    if IsOption(args[0]) then MeetsFrom(cfg, args, 1) else cfg.ordering != REQUIRE_ORDER && Meets(cfg, args[1..])
  }

  /** The same from letter w of the first of them on. */
  predicate MeetsFrom(cfg: Config, args: seq<Arg>, w: nat)
    requires args != []
    decreases |args|, 0, |args[0]| - w
  {
    var arg := args[0];
    At(arg, w) != EOS &&
    match Kind(cfg.shortopts, At(arg, w))
    case None => OnFrom(cfg, args, w)
    case Some(NoArgument) => OnFrom(cfg, args, w)
    case Some(OptionalArgument) => if Attached(arg, w) == "" && w != 1 then true else Meets(cfg, args[1..])
    case Some(RequiredArgument) =>
      if Attached(arg, w) != "" then Meets(cfg, args[1..]) else |args| > 1 && Meets(cfg, args[2..])
  }

  predicate OnFrom(cfg: Config, args: seq<Arg>, w: nat)
    requires args != [] && w < |args[0]|
    decreases |args|, 0, |args[0]| - w, 0
  {
    if At(args[0], w + 1) == EOS then Meets(cfg, args[1..]) else MeetsFrom(cfg, args, w + 1)
  }

  /** The calls to come lead there.  A double dash ends them before that, except in the very first
      place under an ordering that does not permute. */
  predicate Stuck(st: State, cfg: Config) {
    var argv, i := st.argv, st.optind;
    if i == 0 then
      argv == [] ||
      (if |argv| > 1 && argv[1] == "--" && cfg.ordering != PERMUTE then MeetsFrom(cfg, argv[1..], 1)
       else Meets(cfg, argv[1..]))
    else argv == [] || StuckAt(argv, cfg, i, st.optwhere)
  }

  predicate StuckAt(argv: seq<Arg>, cfg: Config, i: nat, w: nat) {
    i < |argv| && argv[i] != "--" && Leads(argv, cfg, i, w)
  }

  /** From letter w of the element at i, or from its start. */
  predicate Leads(argv: seq<Arg>, cfg: Config, i: nat, w: nat) {
    i < |argv| && if w == 1 then Meets(cfg, argv[i..]) else MeetsFrom(cfg, argv[i..], w)
  }

  predicate AllPlain(args: seq<Arg>) {
    forall k :: 0 <= k < |args| ==> !IsOption(args[k])
  }

  /** Where the calls permute, ordinary arguments in front make no difference. */
  lemma {:induction false} PlainsPassed(cfg: Config, plains: seq<Arg>, rest: seq<Arg>)
    requires cfg.ordering == PERMUTE && AllPlain(plains)
    ensures Meets(cfg, plains + rest) <==> Meets(cfg, rest)
    decreases |plains|
  {
    hide MeetsFrom;
    if plains == [] {
      assert plains + rest == rest;
    } else {
      assert (plains + rest)[1..] == plains[1..] + rest;
      PlainsPassed(cfg, plains[1..], rest);
    }
  }

  lemma AfterSwap<T>(argv: seq<T>, from: nat, len1: nat, len2: nat)
    requires from + len1 + len2 <= |argv|
    ensures Swapped(argv, from, len1, len2)[from + len2..] == argv[from..from + len1] + argv[from + len1 + len2..]
  {
  }

  /** Going on past the option at i leads where the arguments after it do, though those skipped
      before it now stand in front of them. */
  lemma AdvanceLeads(argv: seq<Arg>, cfg: Config, from: nat, i: nat, extra: nat, optarg: Option<Arg>, c: char)
    requires from <= i && i + 1 + extra <= |argv| && AllPlain(argv[from..i]) && (cfg.ordering == PERMUTE || from == i)
    ensures var e := Advance(cfg, from, i, 1, extra, optarg, c);
      && Fits(e.swap, |argv|) && e.optwhere == 1
      && (Leads(Rearranged(argv, e.swap), cfg, e.optind, 1) <==> Meets(cfg, argv[i + 1 + extra..]))
  {
    hide MeetsFrom, Swapped;
    if from < i {
      AfterSwap(argv, from, i - from, 1 + extra);
      PlainsPassed(cfg, argv[from..i], argv[i + 1 + extra..]);
    }
  }

  /** Where a decision leads, in the argv it leaves. */
  predicate LeadsOn(e: Effect, argv: seq<Arg>, cfg: Config)
    requires Fits(e.swap, |argv|)
  {
    Leads(Rearranged(argv, e.swap), cfg, e.optind, e.optwhere)
  }

  /** Going on from a letter without an argument. */
  lemma OnLeads(argv: seq<Arg>, cfg: Config, i: nat, w: nat)
    requires i < |argv| && 1 <= w < |argv[i]|
    ensures OnFrom(cfg, argv[i..], w)
      <==> if At(argv[i], w + 1) == EOS then Leads(argv, cfg, i + 1, 1) else Leads(argv, cfg, i, w + 1)
  {
    hide MeetsFrom;
    assert argv[i..][0] == argv[i] && argv[i..][1..] == argv[i + 1..];
  }

  /** A letter at which a call can be parsing, and what was skipped before its element. */
  predicate Parsing(st: State, cfg: Config, from: nat, i: nat, w: nat) {
    && 1 <= from <= i < |st.argv| && w >= 1 && At(st.argv[i], w) != EOS
    && AllPlain(st.argv[from..i]) && (cfg.ordering == PERMUTE || from == i)
  }

  lemma NoArgumentLeads(st: State, cfg: Config, from: nat, i: nat, w: nat)
    requires Parsing(st, cfg, from, i, w)
    requires Kind(cfg.shortopts, At(st.argv[i], w)) in [None, Some(NoArgument)]
    ensures var e := Parse(st, cfg, from, i, w);
      Fits(e.swap, |st.argv|) && (OnFrom(cfg, st.argv[i..], w) <==> LeadsOn(e, st.argv, cfg))
  {
    hide Kind, Attached, Swapped, OnFrom, Leads;
    OnLeads(st.argv, cfg, i, w);
    AdvanceLeads(st.argv, cfg, from, i, 0, None, At(st.argv[i], w));
    PastLeads(st.argv, cfg, i, 1);
  }

  lemma PastLeads(argv: seq<Arg>, cfg: Config, i: nat, n: nat)
    requires i + n <= |argv|
    ensures Leads(argv, cfg, i + n, 1) <==> Meets(cfg, argv[i..][n..])
    ensures argv[i..][n..] == argv[i + n..]
  {
  }

  lemma OptionalLeads(st: State, cfg: Config, from: nat, i: nat, w: nat)
    requires Parsing(st, cfg, from, i, w)
    requires Kind(cfg.shortopts, At(st.argv[i], w)) == Some(OptionalArgument)
    ensures var e := Parse(st, cfg, from, i, w);
      Fits(e.swap, |st.argv|) && (MeetsFrom(cfg, st.argv[i..], w) <==> LeadsOn(e, st.argv, cfg))
  {
    hide Kind, Attached, Swapped, Meets;
    var c, text := At(st.argv[i], w), Attached(st.argv[i], w);
    PastLeads(st.argv, cfg, i, 1);
    AdvanceLeads(st.argv, cfg, from, i, 0, if text == "" then None else Some(text), c);
  }

  lemma RequiredLeads(st: State, cfg: Config, from: nat, i: nat, w: nat)
    requires Parsing(st, cfg, from, i, w)
    requires Kind(cfg.shortopts, At(st.argv[i], w)) == Some(RequiredArgument)
    ensures var e := Parse(st, cfg, from, i, w);
      Fits(e.swap, |st.argv|) && (MeetsFrom(cfg, st.argv[i..], w) <==> LeadsOn(e, st.argv, cfg))
  {
    hide Kind, Attached, Swapped, Meets, Advance;
    var c, text := At(st.argv[i], w), Attached(st.argv[i], w);
    PastLeads(st.argv, cfg, i, 1);
    if text != "" {
      AdvanceLeads(st.argv, cfg, from, i, 0, Some(text), c);
    } else if i + 1 < |st.argv| {
      PastLeads(st.argv, cfg, i, 2);
      AdvanceLeads(st.argv, cfg, from, i, 1, Some(st.argv[i + 1]), c);
    }
  }

  /** Parsing a letter leads where the letter does. */
  lemma ParseLeads(st: State, cfg: Config, from: nat, i: nat, w: nat)
    requires Parsing(st, cfg, from, i, w)
    ensures var e := Parse(st, cfg, from, i, w);
      Fits(e.swap, |st.argv|) && (MeetsFrom(cfg, st.argv[i..], w) <==> LeadsOn(e, st.argv, cfg))
  {
    hide Kind, Parse, Attached, Swapped, Meets, OnFrom, LeadsOn, Fits, AllPlain;
    assert st.argv[i..][0] == st.argv[i];
    match Kind(cfg.shortopts, At(st.argv[i], w))
    case None => NoArgumentLeads(st, cfg, from, i, w);
    case Some(NoArgument) => NoArgumentLeads(st, cfg, from, i, w);
    case Some(OptionalArgument) => OptionalLeads(st, cfg, from, i, w);
    case Some(RequiredArgument) => RequiredLeads(st, cfg, from, i, w);
  }

  /** The arguments skipped in search of the next option. */
  lemma SkippedArePlain(argv: seq<Arg>, cfg: Config, i: nat)
    requires i <= |argv|
    ensures AllPlain(argv[i..NextOption(argv, i)])
    ensures cfg.ordering == PERMUTE ==> (Meets(cfg, argv[i..]) <==> Meets(cfg, argv[NextOption(argv, i)..]))
  {
    hide Meets;
    var k := NextOption(argv, i);
    assert argv[i..k] + argv[k..] == argv[i..];
    if cfg.ordering == PERMUTE { PlainsPassed(cfg, argv[i..k], argv[k..]); }
  }

  /** A call that is not the last leads where the arguments to come do; the last one is where they
      lead to nothing. */
  lemma ContinueLeads(st: State, cfg: Config)
    requires 0 < st.optind < |st.argv| && st.optwhere >= 1 && Continue(st, cfg).answer != Fault
    requires st.argv[st.optind] == "--" ==> cfg.ordering == PERMUTE && st.optwhere == 1
    ensures var e := Continue(st, cfg);
      && Fits(e.swap, |st.argv|)
      && (Leads(st.argv, cfg, st.optind, st.optwhere) <==> e.answer != EndOfOptions && LeadsOn(e, st.argv, cfg))
  {
    hide Parse, Swapped, MeetsFrom;
    var i, argv := st.optind, st.argv;
    assert argv[i..i] == [] && argv[i..][0] == argv[i];
    if st.optwhere != 1 {
      NotEnd(st, cfg, i, i, st.optwhere);
    } else if cfg.ordering == PERMUTE {
      var k := NextOption(argv, i);
      SkippedArePlain(argv, cfg, i);
      if k < |argv| {
        assert argv[k..][0] == argv[k];
        if argv[k] == "--" { DecideFits(st, cfg); } else { NotEnd(st, cfg, i, k, 1); }
      }
    } else if IsOption(argv[i]) {
      NotEnd(st, cfg, i, i, 1);
    } else {
      PastLeads(argv, cfg, i, 1);
    }
  }

  lemma NotEnd(st: State, cfg: Config, from: nat, i: nat, w: nat)
    requires 1 <= from <= i < |st.argv| && w >= 1 && Parse(st, cfg, from, i, w).answer != Fault
    requires AllPlain(st.argv[from..i]) && (cfg.ordering == PERMUTE || from == i)
    ensures var e := Parse(st, cfg, from, i, w);
      && e.answer != EndOfOptions
      && Fits(e.swap, |st.argv|) && (MeetsFrom(cfg, st.argv[i..], w) <==> LeadsOn(e, st.argv, cfg))
  {
    hide Kind, Attached, Swapped, MeetsFrom, LeadsOn, AllPlain, Fits;
    ParseLeads(st, cfg, from, i, w);
  }

  /** A call that stays inside an element is at one that is no double dash, and it has moved on to
      a later letter unless it met the one that repeats. */
  lemma ParseMoves(st: State, cfg: Config, from: nat, i: nat, w: nat)
    requires Parsing(st, cfg, from, i, w) && (st.argv[i] == "--" ==> w == 1)
    ensures var e := Parse(st, cfg, from, i, w);
      && (e.optwhere != 1 && e.optind < |st.argv| ==> e.swap == NoSwap && e.optind == i && st.argv[i] != "--")
      && (e.optind > from
          || (e.optind == from == i && e.swap == NoSwap
              && (e.optwhere > w || (Lacks(cfg, st.argv[i], w) && e.optwhere == w && e.optarg == None))))
  {
    hide Attached, Kind;
  }

  lemma ContinueMoves(st: State, cfg: Config)
    requires 0 < st.optind < |st.argv| && st.optwhere >= 1
    requires Continue(st, cfg).answer !in [Fault, EndOfOptions] && (st.argv[st.optind] == "--" ==> st.optwhere == 1)
    ensures var e, i, w := Continue(st, cfg), st.optind, st.optwhere;
      && (e.optwhere != 1 && e.optind < |st.argv| ==> e.swap == NoSwap && st.argv[e.optind] != "--")
      && (e.optind > i
          || (e.optind == i && e.swap == NoSwap
              && (e.optwhere > w || (Lacks(cfg, st.argv[i], w) && e.optwhere == w && e.optarg == None))))
  {
    hide Parse, Lacks;
    var i, argv := st.optind, st.argv;
    assert argv[i..i] == [];
    var k := if st.optwhere == 1 && cfg.ordering == PERMUTE then NextOption(argv, i) else i;
    if k < |argv| && (st.optwhere != 1 || IsOption(argv[k])) && Parse(st, cfg, i, k, st.optwhere).answer != Fault {
      NotFault(st, cfg, i, k, st.optwhere);
      ParseMoves(st, cfg, i, k, st.optwhere);
    }
  }

  lemma NotFault(st: State, cfg: Config, from: nat, i: nat, w: nat)
    requires from <= i < |st.argv| && Parse(st, cfg, from, i, w).answer != Fault
    ensures At(st.argv[i], w) != EOS
  {
  }

  lemma NoDoubleDash(argv: seq<Arg>, cfg: Config, i: nat, w: nat)
    requires w != 1 && i < |argv| ==> argv[i] != "--"
    ensures StuckAt(argv, cfg, i, w) <==> Leads(argv, cfg, i, w)
  {
    hide MeetsFrom;
  }

  predicate GoesOn(e: Effect, argv: seq<Arg>, cfg: Config)
    requires Fits(e.swap, |argv|)
  {
    e.answer != EndOfOptions && StuckAt(Rearranged(argv, e.swap), cfg, e.optind, e.optwhere)
  }

  lemma ContinueStuck(st: State, cfg: Config)
    requires 0 < st.optind < |st.argv| && st.optwhere >= 1 && Continue(st, cfg).answer != Fault
    requires st.argv[st.optind] == "--" ==> cfg.ordering == PERMUTE && st.optwhere == 1
    ensures var e := Continue(st, cfg);
      Fits(e.swap, |st.argv|) && (Leads(st.argv, cfg, st.optind, st.optwhere) <==> GoesOn(e, st.argv, cfg))
  {
    hide Continue, Leads, Swapped, StuckAt;
    var e := Continue(st, cfg);
    ContinueLeads(st, cfg);
    if e.answer != EndOfOptions {
      ContinueMoves(st, cfg);
      NoDoubleDash(Rearranged(st.argv, e.swap), cfg, e.optind, e.optwhere);
    }
  }

  /** The very first call does not see to a double dash where it does not permute. */
  lemma FirstDashesStuck(st: State, cfg: Config)
    requires st.optind == st.optwhere == 1 && |st.argv| > 1 && st.argv[1] == "--" && cfg.ordering != PERMUTE
    ensures var e := Continue(st, cfg);
      Fits(e.swap, |st.argv|) && (MeetsFrom(cfg, st.argv[1..], 1) <==> GoesOn(e, st.argv, cfg))
  {
    hide Parse, Leads, Swapped, StuckAt, MeetsFrom;
    assert st.argv[1..1] == [] && At("--", 1) == '-';
    var e := Parse(st, cfg, 1, 1, 1);
    ParseLeads(st, cfg, 1, 1, 1);
    ParseMoves(st, cfg, 1, 1, 1);
    ParseOfLetter(st, cfg, 1, 1, 1);
    NoDoubleDash(Rearranged(st.argv, e.swap), cfg, e.optind, e.optwhere);
  }

  lemma ParseOfLetter(st: State, cfg: Config, from: nat, i: nat, w: nat)
    requires from <= i < |st.argv| && At(st.argv[i], w) != EOS
    ensures Parse(st, cfg, from, i, w).answer !in [Fault, EndOfOptions]
  {
    hide Attached, Kind;
  }

  /** In every sound state: a run is stuck exactly when the next call is not the last and the run
      is stuck after it. */
  lemma CallLeads(st: State, cfg: Config)
    requires Sound(st, cfg) && st.argv != []
    ensures Stuck(st, cfg) <==> Decide(st, cfg).answer != EndOfOptions && Stuck(Call(st, cfg), cfg)
  {
    hide Continue, Swapped, MeetsFrom, Leads;
    var argv := st.argv;
    SoundDoesNotFault(st, cfg);
    DecideFits(st, cfg);
    DecidesInPlace(st, cfg);
    if st.optind < |argv| && argv[st.optind] != "--" {
      var st1 := if st.optind == 0 then st.(optind := 1, optwhere := 1) else st;
      if st1.optind < |argv| {
        if argv[st1.optind] == "--" && cfg.ordering != PERMUTE {
          FirstDashesStuck(st1, cfg);
        } else {
          ContinueStuck(st1, cfg);
          AtStart(argv, cfg);
        }
      } else {
        LoneName(st1, cfg);
      }
    }
  }

  lemma AtStart(argv: seq<Arg>, cfg: Config)
    requires |argv| > 1
    ensures Leads(argv, cfg, 1, 1) <==> Meets(cfg, argv[1..])
  {
  }

  lemma LoneName(st: State, cfg: Config)
    requires st.optind == st.optwhere == |st.argv| == 1 && cfg.ordering == PERMUTE
    ensures Continue(st, cfg).answer == EndOfOptions && !Meets(cfg, st.argv[1..])
  {
  }

  /** A call that is not the last gets on, to a later argument or to a later letter, or has come
      to a letter that repeats. */
  lemma CallMoves(st: State, cfg: Config)
    requires Sound(st, cfg) && st.argv != [] && Decide(st, cfg).answer != EndOfOptions
    ensures var next := Call(st, cfg);
      st.optind < |st.argv| &&
      (next.optind > st.optind
       || (next.optind == st.optind && next.argv == st.argv && st.optwhere < next.optwhere <= |st.argv[st.optind]|)
       || (Stuck(st, cfg) && Repeats(next, cfg)))
  {
    hide Continue, Swapped, MeetsFrom, Lacks;
    SoundDoesNotFault(st, cfg);
    DecideFits(st, cfg);
    DecidesInPlace(st, cfg);
    if 0 < st.optind {
      ContinueMoves(st, cfg);
      LackingIsMet(cfg, st.argv, st.optind, st.optwhere);
    }
  }

  lemma LackingIsMet(cfg: Config, argv: seq<Arg>, i: nat, w: nat)
    requires i < |argv|
    ensures Lacks(cfg, argv[i], w) ==> w != 1 && MeetsFrom(cfg, argv[i..], w)
  {
    hide Kind, Attached, Meets, OnFrom;
    assert argv[i..][0] == argv[i];
  }

  lemma {:induction false} EndsUnlessStuck(st: State, cfg: Config)
    requires Sound(st, cfg) && !Stuck(st, cfg)
    ensures Ends(st, cfg)
    decreases |st.argv| - st.optind, if st.optind < |st.argv| then |st.argv[st.optind]| - st.optwhere else 0
  {
    hide Sound, Decide, Call, Stuck;
    NotEmpty(st, cfg);
    if Decide(st, cfg).answer == EndOfOptions {
      assert After(st, cfg, 0) == st;
      assert EndsAt(st, cfg, 0);
    } else {
      CallLeads(st, cfg);
      CallMoves(st, cfg);
      CallKeepsSound(st, cfg);
      SameLength(st, cfg);
      EndsUnlessStuck(Call(st, cfg), cfg);
      var n: nat :| EndsAt(Call(st, cfg), cfg, n);
      assert After(st, cfg, n + 1) == After(Call(st, cfg), cfg, n);
      assert EndsAt(st, cfg, n + 1);
    }
  }

  lemma NotEmpty(st: State, cfg: Config)
    requires !Stuck(st, cfg)
    ensures st.argv != []
  {
  }

  lemma SameLength(st: State, cfg: Config)
    ensures |Call(st, cfg).argv| == |st.argv|
  {
    hide Decide;
    DecideFits(st, cfg);
  }

  lemma {:induction false} StuckNeverEnds(st: State, cfg: Config, n: nat)
    requires Sound(st, cfg) && Stuck(st, cfg)
    ensures !EndsAt(st, cfg, n)
    decreases n
  {
    hide Sound, Call, Stuck, Decide;
    if st.argv == [] {
      EmptyNeverEnds(st, cfg, n);
    } else {
      CallLeads(st, cfg);
      if n > 0 {
        CallKeepsSound(st, cfg);
        StuckNeverEnds(Call(st, cfg), cfg, n - 1);
        assert After(st, cfg, n) == After(Call(st, cfg), cfg, n - 1);
      }
    }
  }

  /** A run that is stuck comes to a letter that repeats. */
  lemma {:induction false} StuckRepeats(st: State, cfg: Config)
    requires Sound(st, cfg) && Stuck(st, cfg) && st.argv != []
    ensures exists n: nat :: Repeats(After(st, cfg, n), cfg)
    decreases |st.argv| - st.optind, if st.optind < |st.argv| then |st.argv[st.optind]| - st.optwhere else 0
  {
    hide Sound, Decide, Call, Stuck, Repeats;
    var next := Call(st, cfg);
    CallLeads(st, cfg);
    CallMoves(st, cfg);
    CallKeepsSound(st, cfg);
    SameLength(st, cfg);
    if Repeats(next, cfg) {
      assert After(st, cfg, 1) == After(next, cfg, 0) == next;
    } else {
      StuckRepeats(next, cfg);
      var n: nat :| Repeats(After(next, cfg, n), cfg);
      assert After(st, cfg, n + 1) == After(next, cfg, n);
    }
  }

  lemma EmptyNeverEnds(st: State, cfg: Config, n: nat)
    requires st.argv == []
    ensures !EndsAt(st, cfg, n)
  {
    SameForEver(st, cfg, n);
  }

  /** In every ordering and from every sound state, a run comes to an end exactly when it is not
      stuck: when the arguments to come do not lead to an optional argument that is not there, of a
      letter past the first of its element. */
  lemma RunEndsExactly(st: State, cfg: Config)
    requires Sound(st, cfg)
    ensures Ends(st, cfg) <==> !Stuck(st, cfg)
  {
    hide Sound, Stuck, EndsAt;
    if Stuck(st, cfg) {
      forall n: nat ensures !EndsAt(st, cfg, n) { StuckNeverEnds(st, cfg, n); }
    } else {
      EndsUnlessStuck(st, cfg);
    }
  }

  // ----- Command lines -----

  /** From letter w on there are letters without an argument and unknown ones, and then, past the
      first place, one whose optional argument is not there. */
  predicate StallsFrom(cfg: Config, arg: Arg, w: nat)
    decreases |arg| - w
  {
    At(arg, w) != EOS &&
    match Kind(cfg.shortopts, At(arg, w))
    case None => StallsFrom(cfg, arg, w + 1)
    case Some(NoArgument) => StallsFrom(cfg, arg, w + 1)
    case Some(OptionalArgument) => w != 1 && Attached(arg, w) == ""
    case Some(RequiredArgument) => false
  }

  predicate Stalling(cfg: Config, item: Item) {
    item.Opt? && |item.elems| == 1 &&
    var arg := item.elems[0];
    IsOption(arg) && arg != "--" && StallsFrom(cfg, arg, 1)
  }

  /** A stalling element comes, and where the options end at an ordinary argument, before any. */
  predicate MeetsStalling(cfg: Config, items: seq<Item>) {
    items != [] &&
    (Stalling(cfg, items[0]) ||
     (!(items[0].Plain? && cfg.ordering == REQUIRE_ORDER) && MeetsStalling(cfg, items[1..])))
  }

  /** Without a stalling element nothing to come is met. */
  lemma {:induction false} NoneStallsNoneMet(cfg: Config, args: seq<Arg>)
    requires forall k :: 0 <= k < |args| && IsOption(args[k]) ==> !StallsFrom(cfg, args[k], 1)
    ensures !Meets(cfg, args)
    decreases |args|, 1, 0
  {
    hide MeetsFrom, StallsFrom;
    if args != [] && args[0] != "--" {
      if IsOption(args[0]) { NoneStallsFrom(cfg, args, 1); } else { NoneStallsNoneMet(cfg, args[1..]); }
    }
  }

  lemma {:induction false} NoneStallsFrom(cfg: Config, args: seq<Arg>, w: nat)
    requires args != [] && !StallsFrom(cfg, args[0], w)
    requires forall k :: 1 <= k < |args| && IsOption(args[k]) ==> !StallsFrom(cfg, args[k], 1)
    ensures !MeetsFrom(cfg, args, w)
    decreases |args|, 0, |args[0]| - w
  {
    hide Meets, Kind, Attached;
    NoneStallsNoneMet(cfg, args[1..]);
    if |args| > 1 { NoneStallsNoneMet(cfg, args[2..]); }
    if w < |args[0]| && !StallsFrom(cfg, args[0], w + 1) { NoneStallsFrom(cfg, args, w + 1); }
  }

  /** From every sound state, with no stalling element to come, a run ends. */
  lemma NoStallEnds(st: State, cfg: Config)
    requires Sound(st, cfg) && st.argv != []
    requires forall k ::
      1 <= k < |st.argv| && k >= st.optind && IsOption(st.argv[k]) ==> !StallsFrom(cfg, st.argv[k], 1)
    requires 0 < st.optind < |st.argv| && st.optwhere > 1 ==> !StallsFrom(cfg, st.argv[st.optind], st.optwhere)
    ensures Ends(st, cfg)
  {
    hide MeetsFrom, StallsFrom, BareDash;
    RunEndsExactly(st, cfg);
    var i := if st.optind == 0 then 1 else st.optind;
    if i < |st.argv| {
      var args := st.argv[i..];
      assert args[0] == st.argv[i];
      NoneStallsNoneMet(cfg, args);
      if st.optind > 0 && st.optwhere > 1 {
        NoneStallsFrom(cfg, args, st.optwhere);
      } else if args[0] == "--" {
        NoneStallsFrom(cfg, args, 1);
      }
    }
  }

  lemma {:induction false} GoodLeads(cfg: Config, elems: seq<Arg>, rest: seq<Arg>, w: nat)
    requires elems != [] && w >= 1 && GoodFrom(cfg, elems, w)
    ensures MeetsFrom(cfg, elems + rest, w) <==> Meets(cfg, rest)
    decreases |elems[0]| - w
  {
    hide Meets, Kind, Attached;
    var args := elems + rest;
    assert args[0] == elems[0] && args[|elems|..] == rest;
    if Kind(cfg.shortopts, At(elems[0], w)) == Some(NoArgument) && At(elems[0], w + 1) != EOS {
      GoodLeads(cfg, elems, rest, w + 1);
    }
  }

  lemma {:induction false} StallingLeads(cfg: Config, args: seq<Arg>, w: nat)
    requires args != [] && StallsFrom(cfg, args[0], w)
    ensures MeetsFrom(cfg, args, w)
    decreases |args[0]| - w
  {
    hide Meets, Kind, Attached;
    if !Kind(cfg.shortopts, At(args[0], w)).Some? || Kind(cfg.shortopts, At(args[0], w)).value.NoArgument? {
      StallingLeads(cfg, args, w + 1);
    }
  }

  lemma {:induction false} ItemsLead(cfg: Config, items: seq<Item>, tail: seq<Arg>)
    requires forall k :: 0 <= k < |items| ==> GoodItem(cfg, items[k]) || Stalling(cfg, items[k])
    requires GoodTail(tail)
    ensures Meets(cfg, CommandLine(items) + tail) <==> MeetsStalling(cfg, items)
    decreases |items|
  {
    hide GoodFrom, MeetsFrom, StallsFrom;
    if items == [] {
      assert CommandLine(items) + tail == tail;
    } else {
      var rest := CommandLine(items[1..]) + tail;
      CommandLineStep(items, tail);
      ItemsLead(cfg, items[1..], tail);
      match items[0]
      case Plain(arg) => assert ([arg] + rest)[1..] == rest;
      case Opt(elems) =>
        assert (elems + rest)[0] == elems[0];
        if Stalling(cfg, items[0]) { StallingLeads(cfg, elems + rest, 1); } else { GoodLeads(cfg, elems, rest, 1); }
    }
  }

  /** On a command line of options in order and of stalling elements, a run from the beginning ends
      exactly when no stalling element comes, or an ordinary argument ends the options before it. */
  lemma ItemsEndExactly(cfg: Config, name: Arg, items: seq<Item>, tail: seq<Arg>, optarg: Option<Arg>)
    requires forall k :: 0 <= k < |items| ==> GoodItem(cfg, items[k]) || Stalling(cfg, items[k])
    requires GoodTail(tail) && CanStart([name] + CommandLine(items) + tail, cfg)
    requires items != [] || cfg.ordering == PERMUTE
    ensures Ends(State([name] + CommandLine(items) + tail, 0, 0, optarg), cfg) <==> !MeetsStalling(cfg, items)
  {
    hide Meets, MeetsFrom, GoodItem, Stalling, CommandLine, MeetsStalling;
    var argv := [name] + CommandLine(items) + tail;
    assert argv[1..] == CommandLine(items) + tail;
    RunEndsExactly(State(argv, 0, 0, optarg), cfg);
    ItemsLead(cfg, items, tail);
    if items != [] { FirstIsNoDash(cfg, items, tail); }
  }

  lemma FirstIsNoDash(cfg: Config, items: seq<Item>, tail: seq<Arg>)
    requires items != [] && (GoodItem(cfg, items[0]) || Stalling(cfg, items[0]))
    ensures CommandLine(items) + tail != [] && (CommandLine(items) + tail)[0] != "--"
  {
    hide GoodFrom, StallsFrom;
    CommandLineStep(items, tail);
  }
}

/** The imperative getopt. */
module Getopt {
  import opened CStrings
  import opened Common
  import opened GetoptSpec

  /** s with the num elements from `from` on turned round. */
  function Turned<T>(s: seq<T>, from: nat, num: nat): (r: seq<T>)
    requires from + num <= |s|
    ensures |r| == |s|
  {
    seq(|s|, k requires 0 <= k < |s| => if from <= k < from + num then s[from + from + num - 1 - k] else s[k])
  }

  /** Turning round a block, then it and the next together, then the new first one, swaps the two. */
  lemma ThreeTurnsSwap<T>(s: seq<T>, from: nat, len1: nat, len2: nat)
    requires from + len1 + len2 <= |s|
    ensures Turned(Turned(Turned(s, from, len1), from, len1 + len2), from, len2) == Swapped(s, from, len1, len2)
  {
    forall k | 0 <= k < |s|
      ensures Turned(Turned(Turned(s, from, len1), from, len1 + len2), from, len2)[k] == Swapped(s, from, len1, len2)[k]
    {
      SwappedAt(s, from, len1, len2, k);
      ThreeTurnsAt(s, from, len1, len2, k);
    }
  }

  lemma TurnsAreASwap<T>(s0: seq<T>, s1: seq<T>, s2: seq<T>, s3: seq<T>, from: nat, len1: nat, len2: nat)
    requires from + len1 + len2 <= |s0| == |s1| == |s2|
    requires s1 == Turned(s0, from, len1) && s2 == Turned(s1, from, len1 + len2) && s3 == Turned(s2, from, len2)
    ensures s3 == Swapped(s0, from, len1, len2)
  {
    ThreeTurnsSwap(s0, from, len1, len2);
  }

  lemma TurnedAt<T>(s: seq<T>, from: nat, num: nat, k: nat)
    requires from + num <= |s| && k < |s|
    ensures Turned(s, from, num)[k] == if from <= k < from + num then s[from + from + num - 1 - k] else s[k]
  {
  }

  lemma ThreeTurnsAt<T>(s: seq<T>, from: nat, len1: nat, len2: nat, k: nat)
    requires from + len1 + len2 <= |s| && k < |s|
    ensures Turned(Turned(Turned(s, from, len1), from, len1 + len2), from, len2)[k] ==
      if from <= k < from + len2 then s[k + len1]
      else if from + len2 <= k < from + len1 + len2 then s[k - len2]
      else s[k]
  {
    var t1 := Turned(s, from, len1);
    var t2 := Turned(t1, from, len1 + len2);
    var j := if from <= k < from + len2 then from + from + len2 - 1 - k else k;
    var i := if from <= j < from + len1 + len2 then from + from + len1 + len2 - 1 - j else j;
    TurnedAt(t2, from, len2, k);
    TurnedAt(t1, from, len1 + len2, j);
    TurnedAt(s, from, len1, i);
  }

  lemma SwappedAt<T>(s: seq<T>, from: nat, len1: nat, len2: nat, k: nat)
    requires from + len1 + len2 <= |s| && k < |s|
    ensures Swapped(s, from, len1, len2)[k] ==
      if from <= k < from + len2 then s[k + len1]
      else if from + len2 <= k < from + len1 + len2 then s[k - len2]
      else s[k]
  {
  }

  class Parser {
    const argv: array<Arg>
    var optind: nat
    var optwhere: nat
    var optarg: Option<Arg>

    function View(): State
      reads this, argv
    {
      State(argv[..], optind, optwhere, optarg)
    }

    constructor (argv: array<Arg>)
      ensures this.argv == argv && View() == State(argv[..], 0, 0, None)
    {
      this.argv := argv;
      optind, optwhere, optarg := 0, 0, None;
    }

    /** reverse_argv_elements on argv[from..from + num] */
    method ReverseArgvElements(from: nat, num: nat)
      requires from + num <= argv.Length
      modifies argv
      ensures argv[..] == Turned(old(argv[..]), from, num)
    {
      var i := 0;
      while i < num / 2
        invariant 0 <= i <= num / 2
        invariant forall k :: 0 <= k < argv.Length ==>
          (argv[k] == if from <= k < from + i || from + num - i <= k < from + num
            then old(argv[from + from + num - 1 - k]) else old(argv[k]))
      {
        argv[from + i], argv[from + (num - i - 1)] := argv[from + (num - i - 1)], argv[from + i];
        i := i + 1;
      }
    }

    /** permute: two neighbouring blocks change places. */
    method Permute(from: nat, len1: nat, len2: nat)
      requires from + len1 + len2 <= argv.Length
      modifies argv
      ensures argv[..] == Swapped(old(argv[..]), from, len1, len2)
    {
      hide Turned, Swapped;
      ghost var s0 := argv[..];
      ReverseArgvElements(from, len1);
      ghost var s1 := argv[..];
      ReverseArgvElements(from, len1 + len2);
      ghost var s2 := argv[..];
      ReverseArgvElements(from, len2);
      TurnsAreASwap(s0, s1, s2, argv[..], from, len1, len2);
    }

    /** One call: argv and the indices end as the state machine says.  Where the source reads amiss
        the answer is Fault. */
    method GetoptInternal(cfg: Config) returns (answer: Answer)
      modifies this, argv
      ensures View() == Call(old(View()), cfg) && answer == Decide(old(View()), cfg).answer
    {
      DecideFits(View(), cfg);
      if argv.Length == 0 {
        return Unknown;
      }
      if optind >= argv.Length {
        return EndOfOptions;
      }
      if argv[optind] == "--" {
        optind := optind + 1;
        return EndOfOptions;
      }
      // the first time through
      if optind == 0 {
        optind := 1;
        optwhere := 1;
      }
      if optwhere != 1 {
        answer := ParseLetter(cfg, optind);
      } else {
        match cfg.ordering {
          case PERMUTE =>
            answer := PermutingCall(cfg);
          case RETURN_IN_ORDER =>
            if optind == argv.Length {
              return Fault;
            }
            if !IsOption(argv[optind]) {
              optarg := Some(argv[optind]);
              optind := optind + 1;
              return NonOption;
            }
            answer := ParseLetter(cfg, optind);
          case REQUIRE_ORDER =>
            if optind == argv.Length {
              return Fault;
            }
            if !IsOption(argv[optind]) {
              return EndOfOptions;
            }
            answer := ParseLetter(cfg, optind);
        }
      }
    }

    /** getopt: the option letters say which ordering holds. */
    method GetoptWith(optstring: Arg, posixlyCorrect: bool) returns (answer: Answer)
      modifies this, argv
      ensures View() == Call(old(View()), Configure(optstring, posixlyCorrect))
      ensures answer == Decide(old(View()), Configure(optstring, posixlyCorrect)).answer
    {
      hide Call, Decide;
      var shortopts, ordering := optstring, PERMUTE;
      if optstring != "" && (optstring[0] == '-' || optstring[0] == '+') {
        ordering := if optstring[0] == '-' then RETURN_IN_ORDER else REQUIRE_ORDER;
        shortopts := optstring[1..];
      } else {
        ordering := if posixlyCorrect then REQUIRE_ORDER else PERMUTE;
      }
      answer := GetoptInternal(Config(shortopts, ordering));
    }

    /** Looks for the next option, past arguments that are none. */
    method PermutingCall(cfg: Config) returns (answer: Answer)
      requires 0 < optind <= argv.Length && optwhere == 1 && cfg.ordering == PERMUTE
      requires Fits(Continue(View(), cfg).swap, argv.Length)
      modifies this, argv
      ensures Did(old(View()), Continue(old(View()), cfg), View(), answer)
    {
      hide Parse;
      var permuteFrom := optind;
      while optind < argv.Length && !IsOption(argv[optind])
        invariant permuteFrom <= optind <= argv.Length
        invariant NextOption(argv[..], optind) == NextOption(argv[..], permuteFrom)
        invariant optwhere == 1 && optarg == old(optarg) && argv[..] == old(argv[..])
        decreases argv.Length - optind
      {
        optind := optind + 1;
      }
      if optind == argv.Length {
        optind := permuteFrom;
        return EndOfOptions;
      } else if argv[optind] == "--" {
        Permute(permuteFrom, optind - permuteFrom, 1);
        optind := permuteFrom + 1;
        return EndOfOptions;
      }
      ParseByArgv(old(View()), View(), cfg, permuteFrom, optind, 1);
      answer := ParseLetter(cfg, permuteFrom);
    }

    /** The new view is the old one after effect e, and e's answer is given. */
    ghost predicate Did(was: State, e: Effect, now: State, answer: Answer) {
      && Fits(e.swap, |was.argv|)
      && now == State(GetoptSpec.Rearranged(was.argv, e.swap), e.optind, e.optwhere, e.optarg)
      && answer == e.answer
    }

    /** Parses the letter at optwhere of the option at optind, after the arguments from permuteFrom on
        were skipped. */
    method ParseLetter(cfg: Config, permuteFrom: nat) returns (answer: Answer)
      requires permuteFrom <= optind < argv.Length
      modifies this, argv
      ensures Did(old(View()), Parse(old(View()), cfg, permuteFrom, old(optind), old(optwhere)), View(), answer)
    {
      var arg := argv[optind];
      var c := At(arg, optwhere);
      if c == EOS {
        return Fault;
      }
      var cp := Kind(cfg.shortopts, c);
      if cp == None {
        optwhere := optwhere + 1;
        if At(arg, optwhere) == EOS {
          optind := optind + 1;
          optwhere := 1;
        }
        return Unknown;
      }
      var possibleArg := Attached(arg, optwhere);
      var argNext := 0;
      match cp.value {
        case OptionalArgument =>
          if possibleArg != "" {
            optarg := Some(possibleArg);
            optwhere := 1;
          } else {
            optarg := None;
          }
        case RequiredArgument =>
          if possibleArg != "" {
            optarg := Some(possibleArg);
            optwhere := 1;
          } else if optind + 1 >= argv.Length {
            optind := optind + 1;
            return Missing;
          } else {
            optarg := Some(argv[optind + 1]);
            argNext := 1;
            optwhere := 1;
          }
        case NoArgument =>
          optwhere := optwhere + 1;
          if At(arg, optwhere) == EOS {
            optwhere := 1;
          }
          optarg := None;
      }
      answer := Letter(c);
      MoveOn(cfg, permuteFrom, argNext);
    }

    /** Permutes, or moves optind, once an element is done. */
    method MoveOn(cfg: Config, permuteFrom: nat, argNext: nat)
      requires permuteFrom <= optind && optind + argNext < argv.Length
      modifies this`optind, argv
      ensures forall c :: var e := Advance(cfg, permuteFrom, old(optind), optwhere, argNext, optarg, c);
        argv[..] == GetoptSpec.Rearranged(old(argv[..]), e.swap) && optind == e.optind
    {
      var numNonopts := optind - permuteFrom;
      if cfg.ordering == PERMUTE && optwhere == 1 && numNonopts != 0 {
        Permute(permuteFrom, numNonopts, 1 + argNext);
        optind := permuteFrom + 1 + argNext;
      } else if optwhere == 1 {
        optind := optind + 1 + argNext;
      }
    }
  }
}
