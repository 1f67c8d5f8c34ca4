/** What basename and dirname make of a path, read off its text. */
module PathText {
  import opened PathSpec
  import opened PathLaws

  /** A name with no separator in it. */
  predicate IsName(s: string) {
    s != "" && '/' !in s && '\\' !in s
  }

  predicate OnlySeparators(s: string) {
    forall k :: 0 <= k < |s| ==> s[k] in "/\\"
  }

  /** Nothing, or something that ends in a separator. */
  predicate Opens(front: string) {
    front == "" || front[|front| - 1] in "/\\"
  }

  lemma NameHasNoSep(name: string)
    requires IsName(name)
    ensures NoSep(name) && !Sep(name[0]) && !Sep(name[|name| - 1])
  {
  }

  /** The last component of a text in three parts is the middle one. */
  lemma PartsStand(front: string, name: string, seps: string)
    requires Opens(front) && IsName(name) && OnlySeparators(seps)
    ensures var p := front + name + seps;
      NameStart(p) == |front| && End(p) == |front| + |name| && p[NameStart(p)..End(p)] == name
  {
    hide Start, End;
    var p := front + name + seps;
    var n, e := |front|, |front| + |name|;
    assert p[n..e] == name && p[e..] == seps;
    assert p[e - 1] == name[|name| - 1];
    assert n > 0 ==> p[n - 1] == front[n - 1];
    NameHasNoSep(name);
    NameIsThere(p, n, e);
  }

  lemma SeparatorsStand(seps: string)
    requires OnlySeparators(seps)
    ensures End(seps) == 0 && NameStart(seps) == 0
  {
    hide Start, End;
    NameIsThere(seps, 0, 0);
  }

  /** The two characters of a drive, or none. */
  predicate Drive(drive: string) {
    drive == "" || (|drive| == 2 && drive[1] == ':')
  }

  predicate NoColonSecond(s: string) {
    |s| > 1 ==> s[1] != ':'
  }

  lemma DriveAndRest(drive: string, rest: string)
    requires Drive(drive) && (drive == "" ==> NoColonSecond(rest))
    ensures Basename(drive + rest)
         == if rest == "" then "." else if End(rest) == 0 then "/" else rest[NameStart(rest)..End(rest)]
  {
    var path := drive + rest;
    if drive == "" {
      assert path == rest;
    } else {
      assert path[1] == ':' && path[2..] == rest;
    }
  }

  // ----- basename -----

  /** The name a path ends in, whatever stands in front of it and however many separators behind it;
      any two characters with a colon second are passed over. */
  lemma BasenameOfName(drive: string, front: string, name: string, seps: string)
    requires Drive(drive) && Opens(front) && IsName(name) && OnlySeparators(seps)
    requires drive == "" ==> NoColonSecond(front + name + seps)
    ensures Basename(drive + (front + name + seps)) == name
  {
    hide Basename, Start, End;
    PartsStand(front, name, seps);
    DriveAndRest(drive, front + name + seps);
  }

  lemma BasenameOfSeparators(drive: string, seps: string)
    requires Drive(drive) && OnlySeparators(seps) && seps != ""
    ensures Basename(drive + seps) == "/"
  {
    hide Basename, Start, End;
    SeparatorsStand(seps);
    DriveAndRest(drive, seps);
  }

  lemma BasenameOfNothing(drive: string)
    requires Drive(drive)
    ensures Basename(drive) == "."
  {
  }

  // ----- dirname -----

  /** For dirname a drive does not begin with a separator. */
  predicate OwnDrive(drive: string, rest: string) {
    Drive(drive) && (if drive == "" then |rest| > 1 && rest[1] == ':' ==> rest[0] in "/\\" else drive[0] !in "/\\")
  }

  lemma DriveLengthIs(drive: string, rest: string)
    requires OwnDrive(drive, rest)
    ensures DriveLength(drive + rest) == |drive|
    ensures (drive + rest)[..|drive|] == drive && (drive + rest)[|drive|..] == rest
  {
    if drive == "" { assert drive + rest == rest; }
  }

  /** A name with nothing in front but a drive is in the directory `.`, after that drive. */
  lemma DirnameOfName(drive: string, name: string, seps: string)
    requires OwnDrive(drive, name + seps) && IsName(name) && OnlySeparators(seps)
    ensures Dirname(drive + (name + seps)) == drive + "."
  {
    hide Start, End;
    var rest := name + seps;
    assert "" + name + seps == rest;
    PartsStand("", name, seps);
    DriveLengthIs(drive, rest);
    NameHasNoSep(name);
    assert rest[0] == name[0];
    assert drive != "" ==> (drive + rest)[0] == drive[0];
    assert drive == "" ==> drive + rest == rest;
  }

  /** Separators alone give one of them, except two alike, which stay. */
  lemma DirnameOfSeparators(drive: string, seps: string)
    requires OwnDrive(drive, seps) && OnlySeparators(seps) && seps != ""
    ensures Dirname(drive + seps)
         == if drive == "" && |seps| == 2 && seps[0] == seps[1] then seps else drive + [seps[0]]
  {
    hide Start, End;
    SeparatorsStand(seps);
    DriveLengthIs(drive, seps);
    assert drive == "" ==> drive + seps == seps;
    assert drive != "" ==> (drive + seps)[0] == drive[0];
  }

  lemma DirnameOfNothing(drive: string)
    requires OwnDrive(drive, "")
    ensures Dirname(drive) == "."
  {
    assert drive + "" == drive;
    DriveLengthIs(drive, "");
  }

  // ----- dirname of a path with a directory -----

  /** No separator next to another. */
  predicate Tidied(s: string) {
    forall k :: 0 <= k < |s| - 1 ==> !(s[k] in "/\\" && s[k + 1] in "/\\")
  }

  lemma TidiedTail(s: string)
    requires Tidied(s) && s != ""
    ensures Tidied(s[1..]) && (|s| > 1 && s[0] in "/\\" ==> s[1..][0] !in "/\\")
  {
    forall k | 0 <= k < |s| - 2 ensures !(s[1..][k] in "/\\" && s[1..][k + 1] in "/\\") {
      assert s[1..][k] == s[k + 1] && s[1..][k + 1] == s[k + 2];
    }
  }

  /** The first character of what is squeezed stays. */
  lemma SqueezeStep(s: string, c: char, rest: string)
    requires s == [c] + rest && (c in "/\\" && rest != "" ==> rest[0] !in "/\\")
    ensures Squeeze(s) == [c] + Squeeze(rest)
  {
    assert s[1..] == rest;
    if Sep(c) {
      LeadingIsThere(rest, 0);
      assert rest[0..] == rest;
    }
  }

  lemma {:induction false} SqueezeTidied(s: string)
    requires Tidied(s)
    ensures Squeeze(s) == s
    decreases |s|
  {
    if s != "" {
      hide Squeeze;
      TidiedTail(s);
      SqueezeTidied(s[1..]);
      assert s == [s[0]] + s[1..];
      assert s[0] in "/\\" && s[1..] != "" ==> s[1..][0] !in "/\\";
      SqueezeStep(s, s[0], s[1..]);
    } else {
      assert Squeeze(s) == s;
    }
  }

  lemma RunFirst(run: string, b: string)
    requires OnlySeparators(run) && run != "" && Tidied(b) && (b != "" ==> b[0] !in "/\\")
    ensures Squeeze(run + b) == [run[0]] + b
  {
    var s := run + b;
    var rest := s[1..];
    assert rest == run[1..] + b && s[0] == run[0];
    LeadingIsThere(rest, |run| - 1);
    assert rest[|run| - 1..] == b;
    SqueezeTidied(b);
  }

  lemma RunLater(a: string, run: string, b: string)
    requires Tidied(a) && a != "" && a[|a| - 1] !in "/\\"
    ensures var more := a[1..];
      && Tidied(more) && (more != "" ==> more[|more| - 1] !in "/\\")
      && a + run + b == [a[0]] + (more + run + b)
      && (a[0] in "/\\" ==> more + run + b != "" && (more + run + b)[0] !in "/\\")
  {
    TidiedTail(a);
    if |a| > 1 { assert (a[1..] + run + b)[0] == a[1]; }
  }

  /** A run of separators is squeezed into its first. */
  lemma {:induction false} SqueezeRun(a: string, run: string, b: string)
    requires Tidied(a) && (a != "" ==> a[|a| - 1] !in "/\\")
    requires OnlySeparators(run) && run != "" && Tidied(b) && (b != "" ==> b[0] !in "/\\")
    ensures Squeeze(a + run + b) == a + [run[0]] + b
    decreases |a|
  {
    hide Squeeze, Tidied;
    if a == "" {
      RunFirst(run, b);
      assert a + run == run && a + [run[0]] == [run[0]];
    } else {
      var more := a[1..];
      RunLater(a, run, b);
      SqueezeRun(more, run, b);
      SqueezeStep(a + run + b, a[0], more + run + b);
      assert a == [a[0]] + more;
    }
  }

  /** How much is kept in front of separators, a name and separators. */
  lemma KeptIs(dir: string, mid: string, name: string, seps: string)
    requires dir != "" && dir[|dir| - 1] !in "/\\" && OnlySeparators(mid) && mid != ""
    requires IsName(name) && OnlySeparators(seps)
    ensures var p := dir + mid + name + seps;
      NameStart(p) == |dir| + |mid| && Kept(p) == |dir| && p[..|dir|] == dir
  {
    hide Start, End;
    var p := dir + mid + name + seps;
    PartsStand(dir + mid, name, seps);
    assert p[..|dir| + |mid|] == dir + mid;
    assert (dir + mid)[|dir|..] == mid;
    EndIsThere(dir + mid, |dir|);
  }

  lemma DirnameIs(drive: string, p: string, kept: string)
    requires OwnDrive(drive, p) && NameStart(p) > 0 && kept == p[..Kept(p)]
    ensures Dirname(drive + p) == Tidy(drive + kept)
  {
    hide Start, End, Kept, Tidy;
    DriveLengthIs(drive, p);
    NameAfterStart(p);
    if drive == "" { assert drive + p == p; } else { assert (drive + p)[0] == drive[0]; }
  }

  lemma NameAfterStart(p: string)
    requires NameStart(p) > 0
    ensures p != "" && !(|p| == 2 && Sep(p[0]) && p[1] == p[0])
  {
    hide Start, End;
    assert NameStart(p) < End(p) && (End(p) > 0 ==> !Sep(p[End(p) - 1]));
  }

  /** The directory of a name is what stands in front, less the separators between them. */
  lemma DirnameOfPath(drive: string, dir: string, mid: string, name: string, seps: string)
    requires OwnDrive(drive, dir + mid + name + seps) && Tidied(dir) && dir != "" && dir[|dir| - 1] !in "/\\"
    requires OnlySeparators(mid) && mid != "" && IsName(name) && OnlySeparators(seps)
    ensures Dirname(drive + (dir + mid + name + seps)) == drive + dir
  {
    hide Start, End, Kept, Squeeze, Leading;
    var p := dir + mid + name + seps;
    KeptIs(dir, mid, name, seps);
    DirnameIs(drive, p, dir);
    TidyTidied(drive, dir);
  }

  lemma TidyTidied(drive: string, dir: string)
    requires Drive(drive) && (drive != "" ==> drive[0] !in "/\\") && Tidied(dir) && dir != ""
    ensures Tidy(drive + dir) == drive + dir
  {
    hide Squeeze;
    var s := drive + dir;
    assert Tidied(s) by {
      forall k | 0 <= k < |s| - 1 ensures !(s[k] in "/\\" && s[k + 1] in "/\\") {
        if k >= |drive| { assert s[k] == dir[k - |drive|] && s[k + 1] == dir[k + 1 - |drive|]; }
      }
    }
    SqueezeTidied(s);
    if |s| > 1 && s[1] == s[0] { LeadingIsThere(s, 0); assert s[0..] == s && s[..0] == ""; }
  }

  /** Separators next to each other in it become the first of them. */
  lemma DirnameSqueezes(drive: string, a: string, run: string, b: string, mid: string, name: string, seps: string)
    requires OwnDrive(drive, a + run + b + mid + name + seps) && Tidied(a) && Tidied(b) && a != "" && b != ""
    requires a[0] !in "/\\" && a[|a| - 1] !in "/\\" && b[0] !in "/\\" && b[|b| - 1] !in "/\\"
    requires OnlySeparators(run) && run != "" && OnlySeparators(mid) && mid != ""
    requires IsName(name) && OnlySeparators(seps)
    ensures Dirname(drive + (a + run + b + mid + name + seps)) == drive + a + [run[0]] + b
  {
    hide Start, End, Kept, Squeeze, Leading;
    var dir := a + run + b;
    assert dir[|dir| - 1] == b[|b| - 1];
    KeptIs(dir, mid, name, seps);
    DirnameIs(drive, dir + mid + name + seps, dir);
    SqueezeBehindDrive(drive, a, run, b);
  }

  lemma SqueezeBehindDrive(drive: string, a: string, run: string, b: string)
    requires Drive(drive) && (drive != "" ==> drive[0] !in "/\\") && Tidied(a) && Tidied(b) && a != "" && b != ""
    requires a[0] !in "/\\" && a[|a| - 1] !in "/\\" && b[0] !in "/\\" && OnlySeparators(run) && run != ""
    ensures Tidy(drive + (a + run + b)) == drive + a + [run[0]] + b
  {
    hide Squeeze;
    var front := drive + a;
    var s := front + run + b;
    assert s == drive + (a + run + b);
    assert Tidied(front) by {
      forall k | 0 <= k < |front| - 1 ensures !(front[k] in "/\\" && front[k + 1] in "/\\") {
        if k >= |drive| { assert front[k] == a[k - |drive|] && front[k + 1] == a[k + 1 - |drive|]; }
      }
    }
    assert front[|front| - 1] == a[|a| - 1];
    SqueezeRun(front, run, b);
    assert !Sep(s[0]);
    LeadingIsThere(s, 0);
    assert s[0..] == s && s[..0] == "";
  }

  /** A name behind separators alone: one of them is its directory, or two alike without a drive. */
  lemma DirnameOfRoot(drive: string, mid: string, name: string, seps: string)
    requires OwnDrive(drive, mid + name + seps) && OnlySeparators(mid) && mid != ""
    requires IsName(name) && OnlySeparators(seps)
    ensures Dirname(drive + (mid + name + seps))
         == if drive == "" && |mid| == 2 && mid[0] == mid[1] then mid else drive + [mid[0]]
  {
    hide Start, End, Squeeze, Leading;
    var p := mid + name + seps;
    PartsStand(mid, name, seps);
    assert p[..|mid|] == mid;
    SeparatorsStand(mid);
    NameHasNoSep(name);
    assert p[|mid|] == name[0];
    assert |mid| == 2 ==> p[2] == name[0];
    var two := |mid| == 2 && mid[0] == mid[1];
    var kept := if two then mid else [mid[0]];
    assert Kept(p) == |kept| && p[..|kept|] == kept;
    DirnameIs(drive, p, kept);
    TidyRoot(drive, kept);
  }

  lemma TidyRoot(drive: string, kept: string)
    requires Drive(drive) && (drive != "" ==> drive[0] !in "/\\") && OnlySeparators(kept)
    requires |kept| == 1 || (|kept| == 2 && kept[0] == kept[1])
    ensures Tidy(drive + kept) == if drive == "" then kept else drive + [kept[0]]
  {
    hide Squeeze;
    var s := drive + kept;
    if drive == "" {
      assert s == kept;
      LeadingIsThere(s, |s|);
      SqueezeTidied("");
      if |s| == 1 { SqueezeTidied(s); } else { assert s[2..] == "" && s[..2] == s; }
    } else {
      SqueezeRun(drive, kept, "");
      assert drive + kept + "" == s && drive + [kept[0]] + "" == drive + [kept[0]];
      assert !Sep(s[0]);
      LeadingIsThere(s, 0);
      assert s[0..] == s && s[..0] == "";
    }
  }

  /** Two separators alike in front of all the rest stay. */
  lemma DirnameOfShare(c: char, dir: string, mid: string, name: string, seps: string)
    requires c in "/\\" && Tidied(dir) && dir != "" && dir[0] !in "/\\" && dir[|dir| - 1] !in "/\\"
    requires OnlySeparators(mid) && mid != "" && IsName(name) && OnlySeparators(seps)
    ensures Dirname([c, c] + dir + mid + name + seps) == [c, c] + dir
  {
    var front := [c, c] + dir;
    var p := front + mid + name + seps;
    hide IsName, Tidied, Dirname, Tidy;
    assert front[|front| - 1] == dir[|dir| - 1];
    assert p[0] == front[0] == c && p[1] == front[1] == c;
    TidyShare(c, dir);
    DirnameTidied(front, mid, name, seps);
  }

  lemma DirnameTidied(front: string, mid: string, name: string, seps: string)
    requires OwnDrive("", front + mid + name + seps) && front != "" && Tidy(front) == front
    requires front[|front| - 1] !in "/\\" && OnlySeparators(mid) && mid != "" && IsName(name) && OnlySeparators(seps)
    ensures Dirname(front + mid + name + seps) == front
  {
    hide Start, End, Kept, Tidy, Dirname, OwnDrive, OnlySeparators, IsName;
    var p := front + mid + name + seps;
    KeptIs(front, mid, name, seps);
    assert "" + p == p && "" + front == front;
    DirnameIs("", p, front);
  }

  lemma TidyShare(c: char, dir: string)
    requires c in "/\\" && Tidied(dir) && dir != "" && dir[0] !in "/\\"
    ensures Tidy([c, c] + dir) == [c, c] + dir
  {
    hide Squeeze, Leading;
    var front := [c, c] + dir;
    LeadingIsThere(front, 2);
    SqueezeTidied(dir);
    assert front[2..] == dir && front[..2] == [c, c];
  }
}
