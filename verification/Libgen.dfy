/** Path names: separators, components, and what basename and dirname return. */
module PathSpec {
  import opened CStrings

  predicate Sep(c: char) {
    c == '/' || c == '\\'
  }

  predicate AllSep(s: string) {
    forall k :: 0 <= k < |s| ==> Sep(s[k])
  }

  predicate NoSep(s: string) {
    forall k :: 0 <= k < |s| ==> !Sep(s[k])
  }

  /** The stretches between separators, in order. */
  function Components(s: string): (r: seq<string>)
    ensures s != "" && !Sep(s[0]) ==> r != []
  {
    if s == "" then []
    else if Sep(s[0]) then Components(s[1..])
    else if |s| == 1 || Sep(s[1]) then [[s[0]]] + Components(s[1..])
    else
      var r := Components(s[1..]);
      [[s[0]] + r[0]] + r[1..]
  }

  /** The length without the separators at the end. */
  function End(p: string): (e: nat)
    ensures e <= |p| && (e > 0 ==> !Sep(p[e - 1])) && AllSep(p[e..])
  {
    if p != "" && Sep(p[|p| - 1]) then
      var e := End(p[..|p| - 1]);
      assert p[e..] == p[..|p| - 1][e..] + [p[|p| - 1]];
      e
    else |p|
  }

  /** Where the last stretch without separators begins. */
  function Start(p: string): (n: nat)
    ensures n <= |p| && (n > 0 ==> Sep(p[n - 1])) && NoSep(p[n..])
  {
    if p != "" && !Sep(p[|p| - 1]) then
      var n := Start(p[..|p| - 1]);
      assert p[n..] == p[..|p| - 1][n..] + [p[|p| - 1]];
      n
    else |p|
  }

  /** Where the last component begins. */
  function NameStart(p: string): (n: nat)
    ensures n <= End(p) && NoSep(p[n..End(p)]) && (n > 0 ==> Sep(p[n - 1]))
    ensures n == End(p) ==> n == 0
  {
    var n := Start(p[..End(p)]);
    assert p[..End(p)][n..] == p[n..End(p)];
    n
  }

  /** basename takes any two characters with a colon second for a drive. */
  function Basename(path: string): string {
    var p := if |path| > 1 && path[1] == ':' then path[2..] else path;
    if p == "" then "."
    else if End(p) == 0 then "/"
    else p[NameStart(p)..End(p)]
  }

  function Leading(s: string): (n: nat)
    ensures n <= |s| && AllSep(s[..n]) && (n < |s| ==> !Sep(s[n]))
  {
    if s != "" && Sep(s[0]) then
      var n := Leading(s[1..]);
      assert s[..n + 1] == [s[0]] + s[1..][..n];
      n + 1
    else 0
  }

  /** The first separator of each run of separators is kept. */
  function Squeeze(s: string): string
    decreases |s|
  {
    if s == "" then ""
    else if Sep(s[0]) then [s[0]] + Squeeze(s[1..][Leading(s[1..])..])
    else [s[0]] + Squeeze(s[1..])
  }

  /** Exactly two separators at the front are kept if they are alike. */
  function Tidy(s: string): string
    requires s != ""
  {
    if Leading(s) > 2 || |s| == 1 || s[1] != s[0] then Squeeze(s)
    else s[..Leading(s)] + Squeeze(s[Leading(s)..])
  }

  /** How much of a path is its directory, before it is tidied. */
  function Kept(p: string): (n: nat)
    requires NameStart(p) > 0
    ensures 1 <= n <= NameStart(p)
  {
    var d := End(p[..NameStart(p)]);
    if d > 0 then d
    else if NameStart(p) > 1 && p[1] == p[0] && !Sep(p[2]) then 2
    else 1
  }

  /** dirname looks for a drive only where the path does not begin with a separator. */
  function DriveLength(path: string): (n: nat)
    ensures n <= |path|
  {
    if |path| > 1 && !Sep(path[0]) && path[1] == ':' then 2 else 0
  }

  predicate TwoAlike(path: string) {
    |path| == 2 && Sep(path[0]) && path[1] == path[0]
  }

  function Dirname(path: string): string {
    var base := DriveLength(path);
    var drive, p := path[..base], path[base..];
    if TwoAlike(path) then path
    else if p == "" then "."
    else if NameStart(p) > 0 then Tidy(drive + p[..Kept(p)])
    else drive + (if Sep(p[0]) then [p[0]] else ".")
  }

  /** Whether a separator stands before the last component. */
  predicate HasDirectory(path: string) {
    NameStart(path[DriveLength(path)..]) > 0
  }
}

/** What dirname and basename keep of a path between them. */
module PathLaws {
  import Common
  import opened PathSpec

  /** The components of a text from those of what follows its first character. */
  function Longer(c: char, rest: string, r: seq<string>): seq<string>
    requires rest != "" && !Sep(rest[0]) ==> r != []
  {
    if Sep(c) then r else if rest == "" || Sep(rest[0]) then [[c]] + r else [[c] + r[0]] + r[1..]
  }

  lemma ComponentsStep(s: string, c: char, rest: string)
    requires s == [c] + rest
    ensures Components(s) == Longer(c, rest, Components(rest))
  {
    assert s[1..] == rest;
  }

  lemma LongerJoin(c: char, a: string, b: string, first: seq<string>, more: seq<string>)
    requires a != "" && !Sep(a[0]) ==> first != []
    requires b != "" && !Sep(b[0]) ==> more != []
    requires a == "" ==> first == [] && (Sep(c) || b == "" || Sep(b[0]))
    ensures Longer(c, a + b, first + more) == Longer(c, a, first) + more
  {
    if Sep(c) {
    } else if a == "" || Sep(a[0]) {
      assert a == "" ==> a + b == b;
      Common.Assoc([[c]], first, more);
    } else {
      assert (first + more)[1..] == first[1..] + more;
      Common.Assoc([[c] + first[0]], first[1..], more);
    }
  }

  lemma {:induction false} ComponentsJoin(a: string, b: string)
    requires a == "" || b == "" || Sep(a[|a| - 1]) || Sep(b[0])
    ensures Components(a + b) == Components(a) + Components(b)
    decreases |a|
  {
    if a == "" {
      assert a + b == b;
    } else {
      hide Components, Longer;
      var rest := a[1..];
      assert a == [a[0]] + rest && a + b == [a[0]] + (rest + b);
      ComponentsStep(a, a[0], rest);
      ComponentsStep(a + b, a[0], rest + b);
      ComponentsJoin(rest, b);
      if rest == "" { NoComponents(rest); }
      LongerJoin(a[0], rest, b, Components(rest), Components(b));
    }
  }

  lemma {:induction false} NoComponents(s: string)
    requires AllSep(s)
    ensures Components(s) == []
    decreases |s|
  {
    if s != "" { NoComponents(s[1..]); }
  }

  lemma {:induction false} OneComponent(s: string)
    requires s != "" && NoSep(s)
    ensures Components(s) == [s]
    decreases |s|
  {
    if |s| > 1 {
      OneComponent(s[1..]);
      assert s == [s[0]] + s[1..];
    } else {
      assert s == [s[0]] && s[1..] == "";
    }
  }

  /** From the start of the last component on there is that component alone. */
  lemma LastAlone(p: string)
    requires End(p) > 0
    ensures Components(p[NameStart(p)..]) == [p[NameStart(p)..End(p)]]
  {
    hide Components, Start;
    var n, e := NameStart(p), End(p);
    assert p[n..] == p[n..e] + p[e..];
    ComponentsJoin(p[n..e], p[e..]);
    NoComponents(p[e..]);
    OneComponent(p[n..e]);
  }

  /** A path is what comes before its last component, the component, and separators; so it is with
      a drive in front, where a separator comes before that component. */
  lemma LastComponent(drive: string, p: string)
    requires End(p) > 0 && (drive == "" || NameStart(p) > 0)
    ensures Components(drive + p) == Components(drive + p[..NameStart(p)]) + [p[NameStart(p)..End(p)]]
  {
    hide Components, Start, End;
    var n := NameStart(p);
    var front := drive + p[..n];
    assert front + p[n..] == drive + p;
    assert n > 0 ==> front[|front| - 1] == p[n - 1];
    LastAlone(p);
    ComponentsJoin(front, p[n..]);
  }

  lemma SameFirst(c: char, s: string, t: string)
    requires Components(s) == Components(t)
    requires s == "" <==> t == ""
    requires s != "" ==> s[0] == t[0]
    ensures Components([c] + s) == Components([c] + t)
  {
    assert ([c] + s)[1..] == s && ([c] + t)[1..] == t;
  }

  lemma {:induction false} SqueezeKeepsComponents(s: string)
    ensures Components(Squeeze(s)) == Components(s)
    ensures Squeeze(s) == "" <==> s == ""
    ensures s != "" ==> Squeeze(s)[0] == s[0]
    decreases |s|
  {
    if s != "" {
      var rest := s[1..];
      assert s == [s[0]] + rest;
      if Sep(s[0]) {
        var n := Leading(rest);
        SqueezeKeepsComponents(rest[n..]);
        DropLeading(rest);
        assert ([s[0]] + Squeeze(rest[n..]))[1..] == Squeeze(rest[n..]);
      } else {
        SqueezeKeepsComponents(rest);
        SameFirst(s[0], Squeeze(rest), rest);
      }
    }
  }

  lemma DropLeading(s: string)
    ensures Components(s[Leading(s)..]) == Components(s)
  {
    var n := Leading(s);
    assert s == s[..n] + s[n..];
    ComponentsJoin(s[..n], s[n..]);
    NoComponents(s[..n]);
  }

  lemma TidyKeepsComponents(s: string)
    requires s != ""
    ensures Components(Tidy(s)) == Components(s)
  {
    var n := Leading(s);
    SqueezeKeepsComponents(s);
    SqueezeKeepsComponents(s[n..]);
    DropLeading(s);
    NoComponents(s[..n]);
    ComponentsJoin(s[..n], Squeeze(s[n..]));
  }

  /** The separators before the last component go without a trace. */
  lemma KeptIsDirectory(p: string)
    requires NameStart(p) > 0
    ensures Components(p[..Kept(p)]) == Components(p[..NameStart(p)])
  {
    hide Components, End;
    var dir := p[..NameStart(p)];
    var d := End(dir);
    assert dir == dir[..d] + dir[d..];
    assert dir[..d] == p[..d];
    ComponentsJoin(dir[..d], dir[d..]);
    NoComponents(dir[d..]);
    if d == 0 {
      assert dir[0..] == dir;
      NoComponents(dir);
      NoComponents(p[..Kept(p)]);
    }
  }

  /** A drive in front of a path becomes part of its first component, on both sides alike. */
  lemma DriveInFront(drive: string, a: string, b: string)
    requires |drive| == 2 && a != "" && b != "" && a[0] == b[0]
    requires Components(a) == Components(b)
    ensures Components(drive + a) == Components(drive + b)
  {
    hide Components;
    var c, d := drive[0], drive[1];
    SameFirst(d, a, b);
    var a1, b1 := [d] + a, [d] + b;
    OneByOne(drive, c, d, a, a1);
    OneByOne(drive, c, d, b, b1);
    assert a1[0] == b1[0];
    SameFirst(c, a1, b1);
  }

  lemma OneByOne(drive: string, c: char, d: char, s: string, s1: string)
    requires drive == [c, d] && s1 == [d] + s
    ensures drive + s == [c] + s1
  {
  }

  /** The whole path, drive and all, up to where its last component begins. */
  lemma DirnameComponents(path: string)
    requires HasDirectory(path)
    ensures ghost var base := DriveLength(path);
      Components(Dirname(path)) == Components(path[..base + NameStart(path[base..])])
  {
    hide Components, Tidy;
    var base := DriveLength(path);
    var drive, p := path[..base], path[base..];
    var n, k := NameStart(p), Kept(p);
    KeptIsDirectory(p);
    TidyKeepsComponents(drive + p[..k]);
    assert path[..base + n] == drive + p[..n];
    if TwoAlike(path) { TwoAlikeIsBare(path); }
    if base == 0 {
      assert drive + p[..k] == p[..k];
      assert drive + p[..n] == p[..n];
    } else {
      DriveInFront(drive, p[..k], p[..n]);
    }
  }

  lemma TwoAlikeIsBare(path: string)
    requires TwoAlike(path)
    ensures !HasDirectory(path)
  {
    assert path[DriveLength(path)..] == path;
    assert path[..1][..0] == "";
    assert End(path) == 0;
  }

  /** A path such as `/:x`, which basename takes for a drive and dirname for a directory. */
  predicate ColonAfterSeparator(path: string) {
    |path| > 1 && Sep(path[0]) && path[1] == ':' && |Components(path)| == 1
  }

  lemma LastOfWhole(path: string)
    requires HasDirectory(path)
    ensures ghost var base := DriveLength(path);
      ghost var p := path[base..];
      Components(path) == Components(path[..base + NameStart(p)]) + [p[NameStart(p)..End(p)]]
  {
    hide Components, NameStart, DriveLength;
    var base := DriveLength(path);
    var p := path[base..];
    LastComponent(path[..base], p);
    assert path[..base] + p == path && path[..base] + p[..NameStart(p)] == path[..base + NameStart(p)];
  }

  lemma {:induction false} EndIsThere(p: string, e: nat)
    requires e <= |p| && AllSep(p[e..]) && (e > 0 ==> !Sep(p[e - 1]))
    ensures End(p) == e
    decreases |p|
  {
    if e < |p| {
      assert p[|p| - 1] == p[e..][|p| - 1 - e];
      var q := p[..|p| - 1];
      assert forall k :: e <= k < |q| ==> q[k] == p[e..][k - e];
      EndIsThere(q, e);
    }
  }

  lemma {:induction false} StartIsThere(p: string, n: nat)
    requires n <= |p| && NoSep(p[n..]) && (n > 0 ==> Sep(p[n - 1]))
    ensures Start(p) == n
    decreases |p|
  {
    if n < |p| {
      assert p[|p| - 1] == p[n..][|p| - 1 - n];
      var q := p[..|p| - 1];
      assert forall k :: n <= k < |q| ==> q[k] == p[n..][k - n];
      StartIsThere(q, n);
    }
  }

  /** The place of the last component is settled by what stands around it. */
  lemma NameIsThere(p: string, n: nat, e: nat)
    requires n <= e <= |p| && AllSep(p[e..]) && (e > 0 ==> !Sep(p[e - 1]))
    requires NoSep(p[n..e]) && (n > 0 ==> Sep(p[n - 1]))
    ensures End(p) == e && NameStart(p) == n
  {
    hide End, Start;
    EndIsThere(p, e);
    assert p[..e][n..] == p[n..e];
    StartIsThere(p[..e], n);
  }

  /** Without the odd prefix, basename is the last component. */
  lemma BasenameIsLast(path: string)
    requires HasDirectory(path) && !(|path| > 1 && Sep(path[0]) && path[1] == ':')
    ensures ghost var p := path[DriveLength(path)..];
      Basename(path) == p[NameStart(p)..End(p)]
  {
    assert path[0..] == path;
  }

  lemma LaterAfterColon(path: string, q: string)
    requires |path| > 1 && Sep(path[0]) && path[1] == ':' && q == path[2..] && NameStart(path) > 1
    ensures Basename(path) == path[NameStart(path)..End(path)]
  {
    hide End, NameStart;
    var n, e := NameStart(path), End(path);
    assert n - 1 != 1;
    assert q[e - 2..] == path[e..];
    assert q[n - 2..e - 2] == path[n..e];
    NameIsThere(q, n - 2, e - 2);
  }

  lemma AtColon(path: string, q: string)
    requires |path| > 1 && Sep(path[0]) && path[1] == ':' && q == path[2..] && NameStart(path) == 1
    ensures Basename(path) != path[1..End(path)]
  {
    hide End, NameStart;
    var e := End(path);
    var name := path[1..e];
    assert name[0] == ':';
    assert q[e - 2..] == path[e..];
    if e > 2 {
      assert q[0..e - 2] == name[1..];
      assert NoSep(q[0..e - 2]);
      assert path[e - 1] == q[e - 3];
      NameIsThere(q, 0, e - 2);
      assert |Basename(path)| == |name| - 1;
    } else {
      EndIsThere(q, 0);
      assert Basename(path) == "." || Basename(path) == "/";
    }
  }

  /** With it, basename looks two characters further on. */
  lemma BasenameAfterColon(path: string)
    requires HasDirectory(path) && |path| > 1 && Sep(path[0]) && path[1] == ':'
    ensures Basename(path) == path[NameStart(path)..End(path)] <==> NameStart(path) > 1
  {
    hide End, Basename;
    assert path[0..] == path;
    if NameStart(path) > 1 {
      LaterAfterColon(path, path[2..]);
    } else {
      AtColon(path, path[2..]);
    }
  }

  lemma FirstComponentAfterSeparator(path: string)
    requires HasDirectory(path) && |path| > 1 && Sep(path[0]) && path[1] == ':'
    ensures NameStart(path) > 1 <==> |Components(path)| > 1
  {
    hide Components, NameStart, End;
    assert path[0..] == path;
    var n := NameStart(path);
    LastOfWhole(path);
    if n == 1 {
      assert AllSep(path[..1]);
      NoComponents(path[..1]);
    } else {
      var front := path[1..n];
      assert path[..n] == path[..1] + front;
      ComponentsJoin(path[..1], front);
      FirstIsThere(front);
    }
  }

  lemma FirstIsThere(s: string)
    requires s != "" && !Sep(s[0])
    ensures |Components(s)| > 0
  {
  }

  /** dirname and basename split a path with a directory between them, losing no component: always,
      but for a path of one component that begins with a separator and has a colon next. */
  lemma DirnameAndBasename(path: string)
    requires HasDirectory(path)
    ensures Components(Dirname(path)) + [Basename(path)] == Components(path) <==> !ColonAfterSeparator(path)
  {
    hide Components, Dirname, Basename, NameStart, End;
    var base := DriveLength(path);
    var p := path[base..];
    var name := p[NameStart(p)..End(p)];
    DirnameComponents(path);
    LastOfWhole(path);
    SameLast(Components(Dirname(path)), Basename(path), name);
    if |path| > 1 && Sep(path[0]) && path[1] == ':' {
      assert p == path;
      BasenameAfterColon(path);
      FirstComponentAfterSeparator(path);
    } else {
      BasenameIsLast(path);
    }
  }

  lemma SameLast<T>(s: seq<T>, x: T, y: T)
    ensures s + [x] == s + [y] <==> x == y
  {
    assert (s + [x])[|s|] == x && (s + [y])[|s|] == y;
  }

  // ----- The form of a directory -----

  /** No two separators side by side. */
  predicate NoDoubles(s: string) {
    forall k :: 0 <= k < |s| - 1 ==> !(Sep(s[k]) && Sep(s[k + 1]))
  }

  lemma {:induction false} SqueezeHasNoDoubles(s: string)
    ensures NoDoubles(Squeeze(s))
    decreases |s|
  {
    if s != "" {
      var rest := if Sep(s[0]) then s[1..][Leading(s[1..])..] else s[1..];
      SqueezeHasNoDoubles(rest);
      SqueezeKeepsComponents(rest);
      assert Squeeze(s) == [s[0]] + Squeeze(rest);
    }
  }

  lemma TwoInFront(c: char, rest: string)
    requires Sep(c) && NoDoubles(rest) && (rest != "" ==> !Sep(rest[0]))
    ensures NoDoubles(([c, c] + rest)[1..]) && !NoDoubles([c, c] + rest)
  {
    var s := [c, c] + rest;
    assert s[1..] == [c] + rest;
    assert Sep(s[0]) && Sep(s[0 + 1]);
  }

  /** Two separators alike, and no more, stand at the front. */
  predicate TwoLeading(s: string) {
    Leading(s) == 2 && s[1] == s[0]
  }

  lemma TidyParts(s: string)
    requires s != ""
    ensures TwoLeading(s) ==> Tidy(s) == [s[0], s[0]] + Squeeze(s[2..])
    ensures !TwoLeading(s) ==> Tidy(s) == Squeeze(s)
  {
    hide Squeeze;
    if TwoLeading(s) {
      assert s[..2] == [s[0], s[0]];
    } else if Leading(s) == 0 {
      assert s[0..] == s && s[..0] == "";
    } else if Leading(s) == 1 && |s| > 1 {
      assert s[1] != s[0];
    }
  }

  /** Separators do not come together in a tidied path, except two alike at the front, and those
      are there exactly when just those two stood at the front before. */
  lemma TidyForm(s: string)
    requires s != ""
    ensures Tidy(s) != "" && NoDoubles(Tidy(s)[1..])
    ensures NoDoubles(Tidy(s)) <==> !TwoLeading(s)
    ensures TwoLeading(s) ==> Tidy(s)[..2] == s[..2]
  {
    hide Tidy, Squeeze;
    TidyParts(s);
    if TwoLeading(s) {
      SqueezeHasNoDoubles(s[2..]);
      SqueezeKeepsComponents(s[2..]);
      TwoInFront(s[0], Squeeze(s[2..]));
      assert s[..2] == [s[0], s[0]];
    } else {
      SqueezeHasNoDoubles(s);
      SqueezeKeepsComponents(s);
    }
  }

  predicate EndsInSep(s: string) {
    s != "" && Sep(s[|s| - 1])
  }

  lemma EndAfter(s: string, t: string)
    ensures t != "" ==> EndsInSep(s + t) == EndsInSep(t)
    ensures t == "" && s != "" && AllSep(s) ==> EndsInSep(s + t)
  {
    if t != "" { assert (s + t)[|s + t| - 1] == t[|t| - 1]; }
  }

  lemma {:induction false} SqueezeEnd(s: string)
    ensures EndsInSep(Squeeze(s)) == EndsInSep(s)
    decreases |s|
  {
    hide EndsInSep;
    if s != "" {
      var n := if Sep(s[0]) then 1 + Leading(s[1..]) else 1;
      var rest := s[n..];
      assert Sep(s[0]) ==> rest == s[1..][n - 1..];
      SqueezeEnd(rest);
      SqueezeKeepsComponents(rest);
      assert s == s[..n] + rest && s[..n] == [s[0]] + s[1..][..n - 1];
      EndAfter(s[..n], rest);
      EndAfter([s[0]], Squeeze(rest));
      if rest == "" && !Sep(s[0]) { assert s[..n] + rest == [s[0]] + Squeeze(rest); }
    }
  }

  lemma {:induction false} LeadingIsThere(s: string, n: nat)
    requires n <= |s| && AllSep(s[..n]) && (n < |s| ==> !Sep(s[n]))
    ensures Leading(s) == n
    decreases |s|
  {
    if n > 0 {
      assert s[0] == s[..n][0];
      var front := s[1..][..n - 1];
      forall k | 0 <= k < n - 1
        ensures Sep(front[k])
      {
        assert front[k] == s[..n][k + 1];
      }
      LeadingIsThere(s[1..], n - 1);
    }
  }

  /** The part kept has just the two separators in front that the path had. */
  lemma KeptLeads(p: string)
    requires NameStart(p) > 0
    ensures TwoLeading(p[..Kept(p)]) <==> TwoLeading(p)
  {
    hide End;
    var k, l := Kept(p), Leading(p);
    var dir := p[..NameStart(p)];
    var d := End(dir);
    assert d > 0 ==> dir[d - 1] == p[d - 1];
    if l < k {
      assert p[..k][..l] == p[..l];
      LeadingIsThere(p[..k], l);
    } else {
      assert p[..k] == p[..l][..k];
      LeadingIsThere(p[..k], k);
      assert dir[0..] == dir;
      NameAfterSeparators(p);
    }
  }

  /** If only separators stand before the last component, they are all of them. */
  lemma NameAfterSeparators(p: string)
    requires NameStart(p) > 0 && AllSep(p[..NameStart(p)])
    ensures Leading(p) == NameStart(p)
  {
    var n := NameStart(p);
    assert p[n] == p[n..End(p)][0];
    LeadingIsThere(p, n);
  }

  /** A directory has no doubled separators but two alike at its front, which are there exactly
      when just those two begin a path without a drive; and it ends in a separator only when
      nothing but separators follows the drive. */
  lemma DirnameForm(path: string)
    requires HasDirectory(path)
    ensures ghost var base, d := DriveLength(path), Dirname(path);
      d != "" && NoDoubles(d[1..]) &&
      (NoDoubles(d) <==> base > 0 || !TwoLeading(path)) &&
      (TwoLeading(path) && base == 0 ==> d[..2] == path[..2]) &&
      (EndsInSep(d) ==> AllSep(path[base..][..Kept(path[base..])]))
  {
    hide Tidy, Kept, TwoLeading, Dirname, NoDoubles, EndsInSep, Leading;
    DirnameIsTidied(path);
    var base := DriveLength(path);
    var p := path[base..];
    var k := Kept(p);
    var s := path[..base] + p[..k];
    TidyForm(s);
    TidyEnd(s);
    KeptEnd(p);
    KeptLeads(p);
    EndAfter(path[..base], p[..k]);
    if base == 0 {
      assert s == p[..k] && p == path;
      if TwoLeading(p[..k]) { KeptFront(p); }
    } else {
      DriveLeads(s);
    }
  }

  lemma DirnameIsTidied(path: string)
    requires HasDirectory(path)
    ensures ghost var base := DriveLength(path);
      ghost var p := path[base..];
      Dirname(path) == Tidy(path[..base] + p[..Kept(p)])
  {
    if TwoAlike(path) { TwoAlikeIsBare(path); }
  }

  lemma DriveLeads(s: string)
    requires s != "" && !Sep(s[0])
    ensures !TwoLeading(s)
  {
  }

  lemma KeptFront(p: string)
    requires NameStart(p) > 0 && TwoLeading(p[..Kept(p)])
    ensures p[..Kept(p)][..2] == p[..2]
  {
  }

  lemma KeptEnd(p: string)
    requires NameStart(p) > 0
    ensures EndsInSep(p[..Kept(p)]) ==> AllSep(p[..Kept(p)])
  {
    hide End;
    var dir := p[..NameStart(p)];
    var d := End(dir);
    if d > 0 {
      assert p[d - 1] == dir[d - 1];
    } else {
      assert dir[0..] == dir;
    }
  }

  lemma TidyEnd(s: string)
    requires s != ""
    ensures EndsInSep(Tidy(s)) == EndsInSep(s)
  {
    hide Squeeze, Leading;
    TidyParts(s);
    SqueezeEnd(s);
    if TwoLeading(s) {
      SqueezeEnd(s[2..]);
      SqueezeKeepsComponents(s[2..]);
    }
  }

  lemma {:induction false} SqueezeIsShorter(s: string)
    ensures |Squeeze(s)| <= |s|
    decreases |s|
  {
    if s != "" {
      SqueezeIsShorter(if Sep(s[0]) then s[1..][Leading(s[1..])..] else s[1..]);
    }
  }

  /** Each step up to a directory is a step to a shorter path. */
  lemma DirnameIsShorter(path: string)
    requires HasDirectory(path)
    ensures |Dirname(path)| < |path|
  {
    var base := DriveLength(path);
    var p := path[base..];
    var s := path[..base] + p[..Kept(p)];
    if TwoAlike(path) { TwoAlikeIsBare(path); }
    SqueezeIsShorter(s);
    SqueezeIsShorter(s[Leading(s)..]);
  }
}

/** The loops of libgen over its copy of the path, which ends with a terminator. */
module Libgen {
  import opened Common
  import opened CStrings
  import opened PathSpec
  import opened PathLaws

  method CopyOf(path: CString) returns (a: array<char>)
    ensures fresh(a) && a.Length == |path| + 1 && a[..|path|] == path && a[|path|] == EOS
  {
    a := new char[|path| + 1](i => if 0 <= i < |path| then path[i] else EOS);
    assert a[..|path|] == path;
  }

  /** The string that begins at from; its terminator is at end. */
  method TextAt(a: array<char>, from: nat, ghost end: nat) returns (s: string)
    requires from <= end < a.Length && a[end] == EOS
    requires forall k :: from <= k < end ==> a[k] != EOS
    ensures s == a[from..end]
  {
    var i := from;
    while a[i] != EOS
      invariant from <= i <= end
      decreases end - i
    {
      i := i + 1;
    }
    s := a[from..i];
  }

  /** Everything before i has been scanned, and the last component found begins at name. */
  ghost predicate Scanned(p: string, i: nat, name: nat) {
    name <= i <= |p| && NoSep(p[name..i]) && (name > 0 ==> Sep(p[name - 1])) && (i > 0 ==> !Sep(p[i - 1]))
  }

  lemma ScannedOne(p: string, i: nat, name: nat)
    requires Scanned(p, i, name) && i < |p| && !Sep(p[i])
    ensures Scanned(p, i + 1, name)
  {
    assert p[name..i + 1] == p[name..i] + [p[i]];
  }

  lemma ScannedNew(p: string, i: nat)
    requires 0 < i < |p| && Sep(p[i - 1]) && !Sep(p[i])
    ensures Scanned(p, i + 1, i)
  {
    assert p[i..i + 1] == [p[i]];
  }

  /** When only separators follow, the scan has found the last component. */
  lemma ScanIsDone(p: string, i: nat, name: nat)
    requires Scanned(p, i, name) && AllSep(p[i..])
    ensures End(p) == i && NameStart(p) == name
  {
    NameIsThere(p, name, i);
  }

  /** Over the separators from i. */
  method SkipSeparators(a: array<char>, base: nat, ghost p: CString, i: nat) returns (j: nat)
    requires base + |p| + 1 == a.Length && a[base..base + |p|] == p && a[base + |p|] == EOS && i <= |p|
    ensures i <= j <= |p| && AllSep(p[i..j]) && (j < |p| ==> !Sep(p[j]))
    ensures i < |p| && Sep(p[i]) ==> i < j && Sep(p[j - 1])
    ensures a[base + j] == EOS <==> j == |p|
  {
    j := i;
    while Sep(a[base + j])
      invariant i <= j <= |p| && AllSep(p[i..j]) && (j > i ==> Sep(p[j - 1]))
      decreases |p| - j
    {
      assert a[base + j] == a[base..base + |p|][j];
      assert p[i..j + 1] == p[i..j] + [p[j]];
      j := j + 1;
    }
    assert j < |p| ==> a[base + j] == a[base..base + |p|][j];
  }

  /** Blanks out the separators at the end, back to the component at name. */
  method StripEnd(a: array<char>, base: nat, ghost p: string, name: nat, ghost i: nat, last: nat) returns (end: nat)
    requires base + |p| + 1 == a.Length && a[base..base + |p|] == p && a[base + |p|] == EOS
    requires Scanned(p, i, name) && i < last == |p| && AllSep(p[i..])
    modifies a
    ensures end == if i == 0 then 1 else i
    ensures a[..base + i] == old(a[..base + i])
    ensures forall k :: base + i <= k < a.Length ==> a[k] == EOS
  {
    ghost var was := a[..base + |p|];
    assert was[base..] == p;
    end := last;
    var more := true;
    while more && end > name
      invariant (if i == 0 then 0 else i - 1) <= end <= |p|
      invariant more ==> i <= end
      invariant !more ==> end + 1 == i
      invariant a[..base + i] == was[..base + i]
      invariant forall k :: base + end <= k < base + i ==> a[k] == was[k]
      invariant forall k :: base + end <= k < base + |p| && base + i <= k ==> a[k] == EOS
      invariant forall k :: base + i <= k < base + end ==> a[k] == was[k]
      invariant a[base + |p|] == EOS
      decreases more, end
    {
      end := end - 1;
      assert a[base + end] == was[base + end] == p[end];
      assert end >= i ==> p[end] == p[i..][end - i];
      more := Sep(a[base + end]);
      if more { a[base + end] := EOS; }
    }
    end := end + 1;
  }

  /** What the scan of basename leaves: the last component from name to e, and nothing after it. */
  ghost predicate Found(a: seq<char>, base: nat, p: string, name: nat) {
    var e := End(p);
    |a| == base + |p| + 1 && NameStart(p) == name && a[base..base + e] == p[..e] &&
    forall k :: base + e <= k < |a| ==> a[k] == EOS
  }

  lemma FoundAtEnd(a: seq<char>, base: nat, p: string, name: nat)
    requires |a| == base + |p| + 1 && a[base..base + |p|] == p && a[base + |p|] == EOS
    requires Scanned(p, |p|, name)
    ensures Found(a, base, p, name)
  {
    ScanIsDone(p, |p|, name);
    assert p[..|p|] == p;
  }

  lemma FoundStripped(was: seq<char>, a: seq<char>, base: nat, p: string, i: nat, name: nat)
    requires |was| == |a| == base + |p| + 1 && was[base..base + |p|] == p
    requires Scanned(p, i, name) && AllSep(p[i..]) && a[..base + i] == was[..base + i]
    requires forall k :: base + i <= k < |a| ==> a[k] == EOS
    ensures Found(a, base, p, name)
  {
    ScanIsDone(p, i, name);
    assert a[base..base + i] == a[..base + i][base..] == was[..base + i][base..] == was[base..base + |p|][..i];
  }

  /** The scan of basename, from the left, ending with the separators at the end blanked out. */
  method ScanBasename(a: array<char>, base: nat, ghost p: CString) returns (name: nat)
    requires base + |p| + 1 == a.Length && a[base..base + |p|] == p && a[base + |p|] == EOS
    modifies a
    ensures Found(a[..], base, p, name)
    ensures a[..base] == old(a[..base])
  {
    hide Found;
    ghost var was := a[..];
    var refpath := 0;
    name := 0;
    ghost var done := false;
    while a[base + refpath] != EOS
      invariant refpath <= |p| + 1 && base + refpath < a.Length
      invariant !done ==> refpath <= |p| && a[..] == was && Scanned(p, refpath, name)
      invariant done ==> a[base + refpath] == EOS && Found(a[..], base, p, name)
      invariant a[..base] == was[..base]
      decreases !done, |p| + 1 - refpath
    {
      assert was[base + refpath] == was[base..base + |p|][refpath];
      if Sep(a[base + refpath]) {
        ghost var i := refpath;
        refpath := SkipSeparators(a, base, p, refpath);
        if a[base + refpath] != EOS {
          ScannedNew(p, refpath);
          name := refpath;
          refpath := refpath + 1;
        } else {
          assert p[i..] == p[i..refpath];
          refpath := StripEnd(a, base, p, name, i, refpath);
          FoundStripped(was, a[..], base, p, i, name);
          assert a[..base] == a[..base + i][..base];
          done := true;
        }
      } else {
        ScannedOne(p, refpath, name);
        refpath := refpath + 1;
      }
    }
    if !done {
      assert refpath == |p|;
      FoundAtEnd(a[..], base, p, name);
    }
  }

  lemma TailIsCString(path: CString, n: nat) returns (p: CString)
    requires n <= |path|
    ensures p == path[n..]
  {
    p := path[n..];
  }

  /** The component found, or a separator if there was none. */
  method NameAt(a: array<char>, base: nat, ghost p: CString, refname: nat) returns (name: string)
    requires p != "" && Found(a[..], base, p, refname)
    ensures name == if End(p) == 0 then "/" else p[NameStart(p)..End(p)]
  {
    hide End, NameStart;
    ghost var e := End(p);
    CharsOf(a, base, base + e, p[..e]);
    if a[base + refname] != EOS {
      name := TextAt(a, base + refname, base + e);
      assert a[base + refname..base + e] == p[..e][refname..] == p[refname..e];
    } else {
      name := "/";
    }
  }

  lemma CharsOf(a: array<char>, lo: nat, hi: nat, s: string)
    requires lo <= hi <= a.Length && a[lo..hi] == s
    ensures forall k :: lo <= k < hi ==> a[k] == s[k - lo]
  {
  }

  method BasenameOf(path: CString) returns (name: string)
    ensures name == Basename(path)
  {
    hide End, NameStart, Found;
    if path != "" {
      var a := CopyOf(path);
      CharsOf(a, 0, |path|, path);
      var base := 0;
      if |path| > 1 && a[1] == ':' { base := 2; }
      ghost var p := TailIsCString(path, base);
      assert path[0..] == path;
      assert a[base..base + |p|] == p;
      if a[base] != EOS {
        var refname := ScanBasename(a, base, p);
        name := NameAt(a, base, p, refname);
        return;
      }
    }
    name := ".";
  }

  /** The scan of dirname changes nothing. */
  method ScanDirname(a: array<char>, base: nat, ghost p: CString) returns (name: nat)
    requires base + |p| + 1 == a.Length && a[base..base + |p|] == p && a[base + |p|] == EOS
    ensures name == NameStart(p)
  {
    var refpath := 0;
    name := 0;
    while a[base + refpath] != EOS
      invariant refpath <= |p| && Scanned(p, refpath, name)
      decreases |p| - refpath
    {
      assert refpath < |p| ==> a[base + refpath] == a[base..base + |p|][refpath];
      if Sep(a[base + refpath]) {
        ghost var i := refpath;
        refpath := SkipSeparators(a, base, p, refpath);
        if a[base + refpath] == EOS {
          assert p[i..] == p[i..refpath];
          ScanIsDone(p, i, name);
          return;
        }
        ScannedNew(p, refpath);
        name := refpath;
        refpath := refpath + 1;
      } else {
        ScannedOne(p, refpath, name);
        refpath := refpath + 1;
      }
    }
    assert refpath == |p|;
    ScanIsDone(p, refpath, name);
  }

  /** Back from the last component over the separators before it, to where the directory ends. */
  method Backtrack(a: array<char>, base: nat, ghost p: CString, name: nat) returns (end: nat)
    requires base + |p| + 1 == a.Length && a[base..base + |p|] == p && a[base + |p|] == EOS
    requires name == NameStart(p) > 0
    ensures end == Kept(p)
  {
    hide End, NameStart;
    ghost var dir := p[..name];
    var back := name - 1;
    assert a[base + back] == p[back] by { CharsOf(a, base, base + |p|, p); }
    while back > 0 && Sep(a[base + back])
      invariant back < name && AllSep(dir[back + 1..]) && a[base + back] == dir[back]
      decreases back
    {
      assert dir[back..] == [dir[back]] + dir[back + 1..];
      back := back - 1;
      assert a[base + back] == p[back] by { CharsOf(a, base, base + |p|, p); }
    }
    BackAt(dir, back);
    CharsOf(a, base, base + |p|, p);
    assert p[name] == p[name..End(p)][0] && !Sep(p[name]);
    if back == 0 && Sep(a[base]) && a[base + 1] == a[base] && !Sep(a[base + 2]) { back := 1; }
    end := back + 1;
  }

  lemma BackAt(dir: string, back: nat)
    requires back < |dir| && AllSep(dir[back + 1..]) && (back > 0 ==> !Sep(dir[back]))
    ensures End(dir) == if Sep(dir[back]) then 0 else back + 1
  {
    if Sep(dir[back]) {
      assert dir[0..] == [dir[0]] + dir[1..];
      EndIsThere(dir, 0);
    } else {
      EndIsThere(dir, back + 1);
    }
  }

  lemma SqueezeStep(s: string, r: nat, next: nat)
    requires r < next <= |s|
    requires Sep(s[r]) ==> AllSep(s[r + 1..next]) && (next < |s| ==> !Sep(s[next]))
    requires !Sep(s[r]) ==> next == r + 1
    ensures Squeeze(s[r..]) == [s[r]] + Squeeze(s[next..])
  {
    assert s[r..][1..] == s[r + 1..];
    if Sep(s[r]) {
      var rest := s[r + 1..];
      assert rest[..next - r - 1] == s[r + 1..next];
      LeadingIsThere(rest, next - r - 1);
      assert rest[next - r - 1..] == s[next..];
    }
  }

  /** The character at refpath, and on over the separators that repeat it. */
  method NextKept(a: array<char>, r: nat, ghost s: CString) returns (next: nat)
    requires r < |s| < a.Length && a[r..|s|] == s[r..] && a[|s|] == EOS
    ensures r < next <= |s| && Squeeze(s[r..]) == [s[r]] + Squeeze(s[next..])
  {
    hide Squeeze;
    assert forall k :: r <= k < |s| ==> a[k] == a[r..|s|][k - r] == s[k];
    next := r;
    var skip := a[next] == '/';
    if !skip {
      skip := a[next] == '\\';
      next := next + 1;
    }
    if skip {
      while Sep(a[next])
        invariant r <= next <= |s|
        invariant next == r ==> Sep(s[r])
        invariant next > r ==> AllSep(s[r + 1..next])
        decreases |s| - next
      {
        if next > r { assert s[r + 1..next + 1] == s[r + 1..next] + [s[next]]; }
        next := next + 1;
      }
    }
    SqueezeStep(s, r, next);
  }

  /** Squeezes the text from `from` on, in place; the writing place never passes the reading place. */
  method Collapse(a: array<char>, from: nat, ghost s: CString) returns (end: nat)
    requires from <= |s| < a.Length && a[..|s|] == s && a[|s|] == EOS
    modifies a
    ensures end < a.Length && a[end] == EOS && a[..end] == s[..from] + Squeeze(s[from..])
  {
    hide Squeeze;
    ghost var goal := s[..from] + Squeeze(s[from..]);
    var refpath := from;
    var refname := from;
    while a[refpath] != EOS
      invariant from <= refname <= refpath <= |s| && a[|s|] == EOS
      invariant a[refpath..|s|] == s[refpath..]
      invariant a[..refname] + Squeeze(s[refpath..]) == goal
      decreases |s| - refpath
    {
      assert a[refpath] == a[refpath..|s|][0];
      ghost var before := a[..refname];
      ghost var r := refpath;
      var next := NextKept(a, refpath, s);
      a[refname] := a[refpath];
      refname := refname + 1;
      refpath := next;
      assert a[..refname] == before + [s[r]];
      Assoc(before, [s[r]], Squeeze(s[next..]));
      assert a[next..|s|] == s[r..][next - r..];
    }
    assert refpath == |s|;
    NothingToSqueeze(s[refpath..], a[..refname]);
    a[refname] := EOS;
    end := refname;
  }

  lemma NothingToSqueeze(s: string, a: string)
    requires s == ""
    ensures a + Squeeze(s) == a
  {
  }

  /** Where the collapsing of a directory starts: after two separators alike, or at the front. */
  method TidyFrom(a: array<char>, ghost s: CString) returns (from: nat)
    requires 0 < |s| < a.Length && a[..|s|] == s && a[|s|] == EOS
    ensures from <= |s| && s[..from] + Squeeze(s[from..]) == Tidy(s)
  {
    assert forall k :: 0 <= k < |s| ==> a[k] == a[..|s|][k] == s[k];
    from := 0;
    while Sep(a[from])
      invariant from <= |s| && AllSep(s[..from])
      decreases |s| - from
    {
      assert s[..from + 1] == s[..from] + [s[from]];
      from := from + 1;
    }
    LeadingIsThere(s, from);
    if from > 2 || a[1] != a[0] { from := 0; }
    assert s[0..] == s && s[..0] == "";
  }

  lemma FrontIsCString(path: CString, n: nat) returns (s: CString)
    requires n <= |path|
    ensures s == path[..n]
  {
    s := path[..n];
  }

  method DirnameOf(path: CString) returns (dir: string)
    ensures dir == Dirname(path)
  {
    if path == "" { return "."; }
    var a := CopyOf(path);
    assert forall k :: 0 <= k < |path| ==> a[k] == a[..|path|][k] == path[k];
    var base := 0;
    if |path| > 1 && Sep(a[0]) {
      if a[1] == a[0] && a[2] == EOS { return path; }
    } else if |path| > 1 && a[1] == ':' {
      base := 2;
    }
    ghost var p := TailIsCString(path, base);
    assert a[base..base + |p|] == a[..|path|][base..];
    if a[base] == EOS { return "."; }
    var name := ScanDirname(a, base, p);
    if name > 0 {
      dir := DirectoryOf(a, base, path, p, name);
    } else {
      dir := Bare(a, base, path);
    }
  }

  /** The directory before a last component. */
  method DirectoryOf(a: array<char>, base: nat, ghost path: CString, ghost p: CString, name: nat) returns (dir: string)
    requires a.Length == |path| + 1 && a[..|path|] == path && a[|path|] == EOS
    requires base <= |path| && p == path[base..] && name == NameStart(p) > 0
    modifies a
    ensures dir == Tidy(path[..base] + p[..Kept(p)])
  {
    hide Tidy, Squeeze, Kept, NameStart;
    assert a[base..base + |p|] == a[..|path|][base..];
    var end := Backtrack(a, base, p, name);
    a[base + end] := EOS;
    ghost var s := FrontIsCString(path, base + end);
    assert s == path[..base] + p[..end];
    assert a[..|s|] == s;
    var from := TidyFrom(a, s);
    ghost var last;
    last := Collapse(a, from, s);
    TidyIsCString(s);
    dir := TextAt(a, 0, last);
    assert a[0..last] == a[..last];
  }

  lemma {:induction false} SqueezeIsCString(s: CString)
    ensures forall k :: 0 <= k < |Squeeze(s)| ==> Squeeze(s)[k] != EOS
    decreases |s|
  {
    if s != "" {
      SqueezeIsCString(if Sep(s[0]) then s[1..][Leading(s[1..])..] else s[1..]);
    }
  }

  lemma TidyIsCString(s: CString)
    requires s != ""
    ensures forall k :: 0 <= k < |Tidy(s)| ==> Tidy(s)[k] != EOS
  {
    SqueezeIsCString(s);
    SqueezeIsCString(s[Leading(s)..]);
  }

  /** One separator, or a dot, after the drive. */
  method Bare(a: array<char>, base: nat, ghost path: CString) returns (dir: string)
    requires a.Length == |path| + 1 && a[..|path|] == path && base < |path|
    modifies a
    ensures dir == path[..base] + (if Sep(path[base]) then [path[base]] else ".")
  {
    assert forall k :: 0 <= k < |path| ==> a[k] == a[..|path|][k] == path[k];
    if !Sep(a[base]) { a[base] := '.'; }
    a[base + 1] := EOS;
    assert a[..base + 1] == path[..base] + [a[base]];
    dir := TextAt(a, 0, base + 1);
    assert a[0..base + 1] == a[..base + 1];
  }
}
