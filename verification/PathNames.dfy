/** DOS path normalisation (single-byte names): what it does to the text, and what that means for
    the list of components. */
module PathNames {
  predicate Separator(c: char) {
    c == '/' || c == '\\'
  }

  /** A character that can stand in a component; long names also admit the space. */
  predicate Acceptable(c: char, lfn: bool) {
    (lfn && c == ' ') || (c >= '!' && !Separator(c))
  }

  // ---- the text ----

  /** Length of the leading run of acceptable characters. */
  function Run(t: string, lfn: bool): (n: nat)
    ensures n <= |t| && (n < |t| ==> !Acceptable(t[n], lfn))
    ensures forall i :: 0 <= i < n ==> Acceptable(t[i], lfn)
  {
    if t == "" || !Acceptable(t[0], lfn) then 0 else 1 + Run(t[1..], lfn)
  }

  /** The components of a path, empty ones included; a character that is neither acceptable nor a
      separator ends the path. */
  function Parts(t: string, lfn: bool): seq<string>
    decreases |t|
  {
    if t == "" then []
    else
      var n := Run(t, lfn);
      [t[..n]] + if n < |t| && Separator(t[n]) then Parts(t[n + 1..], lfn) else []
  }

  /** Without what follows the last separator. */
  function DropName(base: string): (r: string)
    ensures |r| <= |base| && r == base[..|r|]
  {
    if base == "" || Separator(base[|base| - 1]) then base else DropName(base[..|base| - 1])
  }

  function DropSeparators(base: string): (r: string)
    ensures |r| <= |base| && r == base[..|r|]
  {
    if base == "" || !Separator(base[|base| - 1]) then base else DropSeparators(base[..|base| - 1])
  }

  /** Up a directory. */
  function Up(base: string): (r: string)
    ensures |r| <= |base|
  {
    DropSeparators(DropName(base))
  }

  /** The base with the separator that comes before a new name. */
  function Opened(base: string): string {
    if base == "" then "" else base + "\\"
  }

  /** How much of a name fits behind p characters. */
  function Room(p: nat, name: string, max: nat): (k: nat)
    ensures k <= |name|
  {
    if p + 1 >= max then 0 else if |name| <= max - 1 - p then |name| else max - 1 - p
  }

  /** Adds a name, cutting it off at the size limit. */
  function Down(base: string, name: string, max: nat): (r: string)
    ensures |base| <= max ==> |r| <= max
  {
    if |base| >= max then base
    else Opened(base) + name[..Room(|Opened(base)|, name, max)]
  }

  function Step(base: string, part: string, max: nat): (r: string)
    ensures |base| <= max ==> |r| <= max
  {
    if part == ".." then Up(base)
    else if part == "" || part == "." then base
    else Down(base, part, max)
  }

  function Walk(base: string, parts: seq<string>, max: nat): (r: string)
    ensures |base| <= max ==> |r| <= max
    decreases |parts|
  {
    if parts == [] then base else Walk(Step(base, parts[0], max), parts[1..], max)
  }

  /** A drive letter and colon. */
  predicate Prefixed(t: string) {
    |t| >= 2 && t[1] == ':'
  }

  function DriveOf(t: string, current: nat): nat {
    if !Prefixed(t) then current
    else if 'A' <= t[0] <= 'Z' then (t[0] - 'A') as nat
    else if 'a' <= t[0] <= 'z' then (t[0] - 'a') as nat
    else current
  }

  function Rest(t: string): string {
    if Prefixed(t) then t[2..] else t
  }

  predicate Absolute(t: string) {
    t != "" && Separator(t[0])
  }

  /** Absolute paths start from nothing, the others from the drive's directory. */
  function Normal(t: string, cwd: string, max: nat, lfn: bool): string {
    Walk(if Absolute(Rest(t)) then "" else cwd, Parts(Rest(t), lfn), max)
  }

  /** The drive is the place of the letter in the alphabet, in either case, and the colon goes with it;
      what is not a letter leaves the current drive, and without a colon the text stays whole. */
  lemma DriveMeans(k: nat, x: char, rest: string, current: nat)
    requires k < 26
    ensures var upper, lower := 'A' + k as char, 'a' + k as char;
      DriveOf([upper, ':'] + rest, current) == DriveOf([lower, ':'] + rest, current) == k
    ensures !('A' <= x <= 'Z') && !('a' <= x <= 'z') ==> DriveOf([x, ':'] + rest, current) == current
    ensures Rest([x, ':'] + rest) == rest
    ensures |rest| < 2 || rest[1] != ':' ==> DriveOf(rest, current) == current && Rest(rest) == rest
  {
    assert ([x, ':'] + rest)[2..] == rest;
  }

  /** A name that does not fit is cut at the size limit, one character being kept for the terminator. */
  lemma DownCuts(base: string, name: string, max: nat)
    requires |base| + 1 < max
    ensures var whole := (if base == "" then "" else base + "\\") + name;
      Down(base, name, max) == if |whole| < max then whole else whole[..max - 1]
  {
    var p := Opened(base);
    assert (p + name)[..|p|] == p;
    if |p + name| < max {
      assert name[..|name|] == name;
    } else {
      assert (p + name)[..max - 1] == p + name[..max - 1 - |p|];
    }
  }

  // ---- the list of components ----

  /** A name that can stay in the list. */
  ghost predicate Clean(name: string) {
    name != "" && name != "." && name != ".." && forall c :: c in name ==> !Separator(c)
  }

  ghost predicate AllClean(st: seq<string>) {
    forall i :: 0 <= i < |st| ==> Clean(st[i])
  }

  function Join(st: seq<string>): string {
    if st == [] then ""
    else Opened(Join(st[..|st| - 1])) + st[|st| - 1]
  }

  function Shift(st: seq<string>, part: string): seq<string> {
    if part == ".." then (if st == [] then [] else st[..|st| - 1])
    else if part == "" || part == "." then st
    else st + [part]
  }

  function Stack(st: seq<string>, parts: seq<string>): seq<string>
    decreases |parts|
  {
    if parts == [] then st else Stack(Shift(st, parts[0]), parts[1..])
  }

  /** No list passed on the way is too long for the buffer. */
  ghost predicate Fits(st: seq<string>, parts: seq<string>, max: nat)
    decreases |parts|
  {
    |Join(st)| < max && (parts == [] || Fits(Shift(st, parts[0]), parts[1..], max))
  }

  lemma {:induction false} DropNameExact(base: string, name: string)
    requires forall c :: c in name ==> !Separator(c)
    requires base == "" || Separator(base[|base| - 1])
    ensures DropName(base + name) == base
    decreases |name|
  {
    if name == "" {
      assert base + name == base;
    } else {
      var whole := base + name;
      assert whole[..|whole| - 1] == base + name[..|name| - 1];
      assert whole[|whole| - 1] == name[|name| - 1];
      DropNameExact(base, name[..|name| - 1]);
    }
  }

  lemma JoinEnds(st: seq<string>)
    requires AllClean(st) && st != []
    ensures Join(st) != "" && !Separator(Join(st)[|Join(st)| - 1])
  {
    var name := st[|st| - 1];
    assert Clean(name) && name[|name| - 1] in name;
  }

  /** Going up removes exactly the last component. */
  lemma UpPops(st: seq<string>)
    requires AllClean(st)
    ensures Up(Join(st)) == Join(Shift(st, ".."))
  {
    if st != [] {
      var rest, name := st[..|st| - 1], st[|st| - 1];
      assert Clean(name);
      DropNameExact(Opened(Join(rest)), name);
      if rest != [] {
        JoinEnds(rest);
        DropOne(Join(rest));
      }
    }
  }

  lemma DropOne(base: string)
    requires base != "" && !Separator(base[|base| - 1])
    ensures DropSeparators(Opened(base)) == base
  {
    assert Opened(base)[..|base|] == base;
  }

  lemma DownPushes(st: seq<string>, name: string, max: nat)
    requires |Join(st)| < max && |Join(st + [name])| < max
    ensures Down(Join(st), name, max) == Join(st + [name])
  {
    assert (st + [name])[..|st|] == st;
    assert Join(st + [name]) == Opened(Join(st)) + name;
    assert name[..|name|] == name;
  }

  /** As long as everything fits, walking the text is walking the list of components. */
  lemma {:induction false} WalkIsStack(st: seq<string>, parts: seq<string>, max: nat)
    requires AllClean(st) && Fits(st, parts, max)
    requires forall i :: 0 <= i < |parts| ==> forall c :: c in parts[i] ==> !Separator(c)
    ensures Walk(Join(st), parts, max) == Join(Stack(st, parts)) && AllClean(Stack(st, parts))
    ensures |Join(Stack(st, parts))| < max
    decreases |parts|
  {
    if parts != [] {
      var part, next := parts[0], Shift(st, parts[0]);
      if part == ".." {
        UpPops(st);
      } else if part != "" && part != "." {
        DownPushes(st, part, max);
      }
      WalkIsStack(next, parts[1..], max);
    }
  }

  lemma {:induction false} PartsAcceptable(t: string, lfn: bool)
    ensures forall i, c :: 0 <= i < |Parts(t, lfn)| && c in Parts(t, lfn)[i] ==> Acceptable(c, lfn) && !Separator(c)
    decreases |t|
  {
    if t != "" {
      var n := Run(t, lfn);
      if n < |t| && Separator(t[n]) {
        PartsAcceptable(t[n + 1..], lfn);
      }
    }
  }

  /** Normalising is: start from the drive's directory, or from nothing for an absolute path; add
      names, skip "." and empty components, drop the last name on ".."; join by backslashes. */
  lemma NormalIsStack(t: string, cwd: seq<string>, max: nat, lfn: bool)
    requires AllClean(cwd) && Fits(if Absolute(Rest(t)) then [] else cwd, Parts(Rest(t), lfn), max)
    ensures Normal(t, Join(cwd), max, lfn) == Join(Stack(if Absolute(Rest(t)) then [] else cwd, Parts(Rest(t), lfn)))
  {
    PartsAcceptable(Rest(t), lfn);
    WalkIsStack(if Absolute(Rest(t)) then [] else cwd, Parts(Rest(t), lfn), max);
    assert Join([]) == "";
  }

  // ---- normalising twice ----

  ghost predicate AllAcceptable(st: seq<string>, lfn: bool) {
    forall i, c :: 0 <= i < |st| && c in st[i] ==> Acceptable(c, lfn)
  }

  lemma {:induction false} StackKeepsAcceptable(st: seq<string>, parts: seq<string>, lfn: bool)
    requires AllAcceptable(st, lfn) && AllAcceptable(parts, lfn)
    ensures AllAcceptable(Stack(st, parts), lfn)
    decreases |parts|
  {
    if parts != [] {
      StackKeepsAcceptable(Shift(st, parts[0]), parts[1..], lfn);
    }
  }

  lemma {:induction false} RunExact(name: string, rest: string, lfn: bool)
    requires forall c :: c in name ==> Acceptable(c, lfn)
    requires rest == "" || !Acceptable(rest[0], lfn)
    ensures Run(name + rest, lfn) == |name|
  {
    if name == "" {
      assert name + rest == rest;
    } else {
      assert (name + rest)[1..] == name[1..] + rest;
      assert name[0] in name;
      RunExact(name[1..], rest, lfn);
    }
  }

  lemma JoinSnoc(st: seq<string>, name: string)
    ensures Join(st + [name]) == Opened(Join(st)) + name
  {
    assert (st + [name])[..|st|] == st;
  }

  lemma JoinOne(name: string)
    ensures Join([name]) == name
  {
    JoinSnoc([], name);
    assert [] + [name] == [name] && "" + name == name;
  }

  lemma {:induction false} JoinFirst(name: string, st: seq<string>)
    requires Clean(name) && AllClean(st) && st != []
    ensures Join([name] + st) == name + "\\" + Join(st)
    decreases |st|
  {
    var rest, last := st[..|st| - 1], st[|st| - 1];
    assert [name] + st == ([name] + rest) + [last] && st == rest + [last];
    JoinSnoc([name] + rest, last);
    if rest == [] {
      assert [name] + rest == [name] && st == [last];
      JoinOne(name);
      JoinOne(last);
    } else {
      JoinFirst(name, rest);
      JoinEnds(rest);
      Regrouped(name, Join(rest), last);
    }
  }

  lemma Regrouped(a: string, b: string, c: string)
    ensures (a + "\\" + b) + "\\" + c == a + "\\" + (b + "\\" + c)
  {
  }

  /** A list written out with backslashes reads back as the same list. */
  lemma {:induction false} PartsOfJoin(st: seq<string>, lfn: bool)
    requires AllClean(st) && AllAcceptable(st, lfn)
    ensures Parts(Join(st), lfn) == st
    decreases |st|
  {
    if st != [] {
      var name, rest := st[0], st[1..];
      assert Clean(name) && st == [name] + rest;
      if rest == [] {
        JoinOne(name);
        OnePart(name, lfn);
      } else {
        JoinFirst(name, rest);
        JoinEnds(rest);
        PartsOfJoin(rest, lfn);
        FirstPart(name, Join(rest), lfn);
      }
    }
  }

  lemma OnePart(name: string, lfn: bool)
    requires name != "" && forall c :: c in name ==> Acceptable(c, lfn)
    ensures Parts(name, lfn) == [name]
  {
    assert name + "" == name;
    RunExact(name, "", lfn);
  }

  lemma FirstPart(name: string, rest: string, lfn: bool)
    requires forall c :: c in name ==> Acceptable(c, lfn)
    ensures Parts(name + "\\" + rest, lfn) == [name] + Parts(rest, lfn)
  {
    var t := name + ("\\" + rest);
    assert t == name + "\\" + rest;
    RunExact(name, "\\" + rest, lfn);
    assert t[..|name|] == name && t[|name| + 1..] == rest && t[|name|] == '\\';
  }

  lemma {:induction false} StackOfClean(st: seq<string>, more: seq<string>)
    requires AllClean(more)
    ensures Stack(st, more) == st + more
    decreases |more|
  {
    if more != [] {
      assert Clean(more[0]);
      StackOfClean(st + [more[0]], more[1..]);
    }
  }

  lemma {:induction false} JoinGrows(st: seq<string>, more: seq<string>)
    ensures |Join(st)| <= |Join(st + more)|
    decreases |more|
  {
    if more == [] {
      assert st + more == st;
    } else {
      var shorter := more[..|more| - 1];
      assert (st + more)[..|st + more| - 1] == st + shorter;
      JoinGrows(st, shorter);
    }
  }

  lemma {:induction false} CleanFits(st: seq<string>, more: seq<string>, max: nat)
    requires AllClean(more) && |Join(st + more)| < max
    ensures Fits(st, more, max)
    decreases |more|
  {
    JoinGrows(st, more);
    if more != [] {
      assert Clean(more[0]);
      assert st + [more[0]] + more[1..] == st + more;
      CleanFits(st + [more[0]], more[1..], max);
    }
  }

  /** Writing a normalised path as an absolute one and normalising again gives the same path. The
      one exception is a first name that starts with a colon, which is then taken for a drive. */
  lemma NormalTwice(st: seq<string>, cwd: string, max: nat, lfn: bool)
    requires AllClean(st) && AllAcceptable(st, lfn) && |Join(st)| < max
    requires Join(st) == "" || Join(st)[0] != ':'
    ensures Normal("\\" + Join(st), cwd, max, lfn) == Join(st)
  {
    hide Stack, Fits;
    var t := "\\" + Join(st);
    assert Rest(t) == t && Absolute(t);
    PartsOfJoin(st, lfn);
    assert "" + "\\" + Join(st) == t;
    FirstPart("", Join(st), lfn);
    SkipEmpty(st, max);
    CleanFits([], st, max);
    assert [] + st == st;
    StackOfClean([], st);
    WalkIsStack([], st, max);
    assert Join([]) == "";
  }

  lemma SkipEmpty(st: seq<string>, max: nat)
    ensures Walk("", [""] + st, max) == Walk("", st, max)
  {
    assert ([""] + st)[1..] == st;
  }

  lemma {:induction false} RunBounds(t: string, lfn: bool, base: string, max: nat)
    ensures |Walk(base, Parts(t, lfn), max)| <= if base == "" then |t| else |base| + 1 + |t|
    decreases |t|
  {
    if t != "" {
      var n := Run(t, lfn);
      var next := Step(base, t[..n], max);
      assert |next| <= if base == "" then n else |base| + 1 + n;
      if n < |t| && Separator(t[n]) {
        RunBounds(t[n + 1..], lfn, next, max);
        assert Walk(base, Parts(t, lfn), max) == Walk(next, Parts(t[n + 1..], lfn), max);
      } else {
        assert Parts(t, lfn) == [t[..n]];
        assert Walk(base, [t[..n]], max) == next;
      }
    }
  }

  /** From the root directory that exception is exact: the path comes back if and only if its first
      name does not start with a colon. */
  lemma NormalTwiceExact(st: seq<string>, max: nat, lfn: bool)
    requires AllClean(st) && AllAcceptable(st, lfn) && |Join(st)| < max
    ensures Normal("\\" + Join(st), "", max, lfn) == Join(st) <==> Join(st) == "" || Join(st)[0] != ':'
  {
    if Join(st) == "" || Join(st)[0] != ':' {
      NormalTwice(st, "", max, lfn);
    } else {
      var t := "\\" + Join(st);
      assert Prefixed(t);
      RunBounds(Rest(t), lfn, "", max);
    }
  }

  /** What a normalisation that fits returns is a list NormalTwice speaks of. */
  lemma NormalIsClean(t: string, cwd: seq<string>, max: nat, lfn: bool)
    requires AllClean(cwd) && AllAcceptable(cwd, lfn)
    requires Fits(if Absolute(Rest(t)) then [] else cwd, Parts(Rest(t), lfn), max)
    ensures var st := Stack(if Absolute(Rest(t)) then [] else cwd, Parts(Rest(t), lfn));
      AllClean(st) && AllAcceptable(st, lfn) && |Join(st)| < max
  {
    var base := if Absolute(Rest(t)) then [] else cwd;
    PartsAcceptable(Rest(t), lfn);
    WalkIsStack(base, Parts(Rest(t), lfn), max);
    StackKeepsAcceptable(base, Parts(Rest(t), lfn), lfn);
  }
}
