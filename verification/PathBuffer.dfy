/** The path normaliser as it runs: in place, on NUL-terminated buffers. */
module PathBuffer {
  import opened PathNames

  const NUL := '\0'

  /** The C string starting at i. */
  function Text(s: seq<char>, i: nat): (t: string)
    requires i <= |s|
    ensures i + |t| <= |s|
    decreases |s| - i
  {
    if i == |s| || s[i] == NUL then "" else [s[i]] + Text(s, i + 1)
  }

  /** The string at i is t, its terminator inside the buffer. */
  ghost predicate Reads(s: seq<char>, i: nat, t: string) {
    && i + |t| < |s| && s[i..i + |t|] == t && s[i + |t|] == NUL && NUL !in t
  }

  lemma {:induction false} ReadsText(s: seq<char>, i: nat, t: string)
    requires Reads(s, i, t)
    ensures Text(s, i) == t
    decreases |t|
  {
    if t != "" {
      assert s[i] == s[i..i + |t|][0] && t[0] in t;
      assert s[i + 1..i + 1 + |t[1..]|] == s[i..i + |t|][1..];
      ReadsText(s, i + 1, t[1..]);
    }
  }

  lemma {:induction false} TextReads(s: seq<char>, i: nat, last: nat)
    requires i <= last < |s| && s[last] == NUL
    ensures Reads(s, i, Text(s, i)) && i + |Text(s, i)| <= last
    decreases last - i
  {
    if s[i] != NUL {
      TextReads(s, i + 1, last);
      ReadsMore(s, i, Text(s, i + 1));
    }
  }

  lemma ReadsMore(s: seq<char>, i: nat, t: string)
    requires i < |s| && s[i] != NUL && Reads(s, i + 1, t)
    ensures Reads(s, i, [s[i]] + t)
  {
    var u := [s[i]] + t;
    assert s[i..i + |u|] == [s[i]] + s[i + 1..i + 1 + |t|];
  }

  lemma Characters(s: seq<char>, i: nat, t: string)
    requires Reads(s, i, t)
    ensures forall k :: i <= k < i + |t| ==> s[k] == t[k - i] != NUL
  {
    forall k | i <= k < i + |t| ensures s[k] == t[k - i] != NUL {
      assert s[i..i + |t|][k - i] == s[k];
      assert t[k - i] in t;
    }
  }

  // ---- the base: the directory so far ----

  method StrLen(a: array<char>, ghost t: string) returns (n: nat)
    requires Reads(a[..], 0, t)
    ensures n == |t|
  {
    Characters(a[..], 0, t);
    n := 0;
    while a[n] != NUL
      invariant n <= |t|
      decreases |t| - n
    {
      n := n + 1;
    }
  }

  /** ".." : back over the last name, then over the separators before it. */
  method GoUp(base: array<char>, ghost b: string)
    requires Reads(base[..], 0, b)
    modifies base
    ensures Reads(base[..], 0, Up(b))
  {
    Characters(base[..], 0, b);
    var n := StrLen(base, b);
    var e: int := n;
    e := e - 1;
    assert b[..n] == b;
    while e >= 0 && !Separator(base[e])
      invariant -1 <= e < |b| && DropName(b) == DropName(b[..e + 1])
    {
      assert b[..e + 1][..e] == b[..e];
      e := e - 1;
    }
    assert DropName(b) == b[..e + 1];
    while e >= 0 && Separator(base[e])
      invariant -1 <= e < |b| && Up(b) == DropSeparators(b[..e + 1])
    {
      assert b[..e + 1][..e] == b[..e];
      e := e - 1;
    }
    base[e + 1] := NUL;
    Shortened(old(base[..]), base[..], b, e + 1);
  }

  lemma Shortened(s: seq<char>, s': seq<char>, b: string, n: nat)
    requires Reads(s, 0, b) && n <= |b| && s' == s[n := NUL]
    ensures Reads(s', 0, b[..n])
  {
    assert s'[0..n] == s[0..|b|][..n];
  }

  /** A name: a backslash unless the base is empty, then as many characters as fit. */
  method AddName(base: array<char>, ghost b: string, max: nat, path: array<char>, beg: nat, ghost name: string)
    requires base != path && base.Length == max + 1
    requires Reads(base[..], 0, b) && Reads(path[..], beg, name)
    modifies base
    ensures Reads(base[..], 0, Down(b, name, max))
  {
    var e := StrLen(base, b);
    if e < max {
      if e > 0 {
        base[e] := '\\';
        e := e + 1;
      }
      assert base[..e] == Opened(b) by {
        assert b == old(base[..])[0..|b|] == base[..][..|b|];
      }
      Fill(base, e, Opened(b), max, path, beg, name);
    }
  }

  /** Copies characters behind those already there while there is room, and terminates. */
  method Fill(base: array<char>, at: nat, ghost before: string, max: nat,
              path: array<char>, beg: nat, ghost name: string)
    requires base != path && base.Length == max + 1 && at == |before| <= max && max > 0 && NUL !in before
    requires base[..|before|] == before && Reads(path[..], beg, name)
    modifies base
    ensures Reads(base[..], 0, before + name[..Room(|before|, name, max)])
  {
    Characters(path[..], beg, name);
    var e, p := at, beg;
    while e < max - 1 && path[p] != NUL
      invariant |before| <= e <= max && p - beg == e - |before| <= |name|
      invariant e == |before| || e <= max - 1
      invariant base[..e] == before + name[..p - beg]
    {
      base[e] := path[p];
      assert name[..p - beg + 1] == name[..p - beg] + [path[p]];
      assert base[..e + 1] == base[..e] + [path[p]];
      e, p := e + 1, p + 1;
    }
    base[e] := NUL;
    assert base[..][0..e] == base[..e] == before + name[..Room(|before|, name, max)];
  }

  // ---- the path ----

  /** The text from i on, nothing when i is past the last byte. */
  function Left(s: seq<char>, i: nat): string {
    if i < |s| then Text(s, i) else ""
  }

  /** What is left of the text after its first component. */
  function After(t: string, lfn: bool): string {
    var n := Run(t, lfn);
    if n < |t| && Separator(t[n]) then t[n + 1..] else ""
  }

  /** Ends the component that starts at beg, and the whole path where no separator follows. */
  method CutPart(path: array<char>, beg: nat, max: nat, lfn: bool, ghost t: string) returns (end: nat)
    requires max < path.Length && beg < max && path[max] == NUL && t != "" && Reads(path[..max + 1], beg, t)
    modifies path
    ensures end == beg + Run(t, lfn) <= max && path[max] == NUL
    ensures Reads(path[..max + 1], beg, t[..Run(t, lfn)]) && Left(path[..max + 1], end + 1) == After(t, lfn)
    ensures forall k :: max < k < path.Length ==> path[k] == old(path[k])
  {
    hide After, Reads, Left;
    end := PartEnd(path, beg, max, lfn, t);
    if path[end] != NUL && !Separator(path[end]) {
      path[end] := NUL;
    }
    if path[end] == NUL && end < max {
      path[end + 1] := NUL;
    }
    path[end] := NUL;
    CutReads(old(path[..max + 1]), path[..max + 1], beg, t, lfn);
  }

  /** The scan to the end of the component; the character there, when it is not the end of the text, is
      a separator or invalid. */
  method PartEnd(path: array<char>, beg: nat, max: nat, lfn: bool, ghost t: string) returns (end: nat)
    requires max < path.Length && beg < max && path[max] == NUL && t != "" && Reads(path[..max + 1], beg, t)
    ensures end == beg + Run(t, lfn) <= max
    ensures path[end] == if Run(t, lfn) < |t| then t[Run(t, lfn)] else NUL
    ensures Run(t, lfn) < |t| ==> path[end] != NUL
  {
    Characters(path[..max + 1], beg, t);
    end := beg;
    while Acceptable(path[end], lfn)
      invariant beg <= end <= beg + Run(t, lfn)
      decreases beg + |t| - end
    {
      end := end + 1;
    }
  }

  lemma CutReads(s: seq<char>, s': seq<char>, beg: nat, t: string, lfn: bool)
    requires Reads(s, beg, t) && |s'| == |s| && beg + Run(t, lfn) < |s|
    requires var n := Run(t, lfn);
      var end := beg + n;
      && s'[..end] == s[..end] && s'[end] == NUL
      && (n < |t| && Separator(t[n]) ==> s'[end + 1..] == s[end + 1..])
      && (!(n < |t| && Separator(t[n])) && end + 1 < |s| ==> s'[end + 1] == NUL)
    ensures Reads(s', beg, t[..Run(t, lfn)]) && Left(s', beg + Run(t, lfn) + 1) == After(t, lfn)
  {
    var n := Run(t, lfn);
    ReadsPrefix(s, s', beg, t, n);
    if n < |t| && Separator(t[n]) {
      ReadsSuffix(s, s', beg, t, n);
      ReadsText(s', beg + n + 1, t[n + 1..]);
    }
  }

  lemma ReadsPrefix(s: seq<char>, s': seq<char>, beg: nat, t: string, n: nat)
    requires Reads(s, beg, t) && n <= |t| && |s'| == |s| && s'[..beg + n] == s[..beg + n] && s'[beg + n] == NUL
    ensures Reads(s', beg, t[..n])
  {
    assert s'[beg..beg + n] == s'[..beg + n][beg..] == s[beg..beg + |t|][..n];
  }

  lemma ReadsSuffix(s: seq<char>, s': seq<char>, beg: nat, t: string, n: nat)
    requires Reads(s, beg, t) && n < |t| && |s'| == |s| && s'[beg + n + 1..] == s[beg + n + 1..]
    ensures Reads(s', beg + n + 1, t[n + 1..])
  {
    assert s'[beg + n + 1..beg + |t|] == s'[beg + n + 1..][..|t| - n - 1] == s[beg + n + 1..][..|t| - n - 1];
    assert s[beg + n + 1..][..|t| - n - 1] == s[beg..beg + |t|][n + 1..];
    assert s'[beg + |t|] == s'[beg + n + 1..][|t| - n - 1] == s[beg + n + 1..][|t| - n - 1];
  }

  /** Takes off a drive prefix. */
  method TakeDrive(path: array<char>, max: nat, current: nat, ghost t: string) returns (drive: nat)
    requires max < path.Length && Reads(path[..max + 1], 0, t) && path[max] == NUL
    modifies path
    ensures drive == DriveOf(t, current) && Reads(path[..max + 1], 0, Rest(t)) && path[max] == NUL
    ensures forall k :: max < k < path.Length ==> path[k] == old(path[k])
  {
    Characters(path[..max + 1], 0, t);
    drive := current;
    if path[0] != NUL && path[1] == ':' {
      if 'A' <= path[0] <= 'Z' {
        drive := (path[0] - 'A') as nat;
      } else if 'a' <= path[0] <= 'z' {
        drive := (path[0] - 'a') as nat;
      }
      ghost var before := path[..max + 1];
      PrefixGone(before, t, max);
      forall i | 0 <= i < max - 1 {
        path[i] := path[i + 2];
      }
      path[max - 1], path[max] := NUL, NUL;
      assert path[..max + 1] == before[2..] + [NUL, NUL];
    }
  }

  lemma PrefixGone(s: seq<char>, t: string, max: nat)
    requires |s| == max + 1 && |t| >= 2 && Reads(s, 0, t)
    ensures Reads(s[2..] + [NUL, NUL], 0, t[2..])
  {
    assert (s[2..] + [NUL, NUL])[0..|t| - 2] == s[0..|t|][2..];
  }

  /** The whole normaliser: every write is inside the max + 1 bytes of the two buffers, the result is
      the normalised path, cut off where it does not fit, and the drive comes back as a number. */
  method Normalize(path: array<char>, max: nat, lfn: bool, directories: seq<string>, current: nat) returns (drive: nat)
    requires max < path.Length && |directories| == 26 && current < 26
    requires forall d :: d in directories ==> |d| <= max && NUL !in d
    modifies path
    ensures var t := Text(old(path[..max]), 0);
      && drive == DriveOf(t, current) < 26
      && Reads(path[..max + 1], 0, Normal(t, directories[drive], max, lfn))
    ensures forall k :: max < k < path.Length ==> path[k] == old(path[k])
  {
    hide Text, Walk, Parts, Rest, Absolute, Reads;
    ghost var t := Text(path[..max], 0);
    path[max] := NUL;
    Terminated(old(path[..max]), path[..max + 1]);
    drive := TakeDrive(path, max, current, t);
    var base := Base(path, max, directories[drive], Rest(t));
    WalkPath(base, if Absolute(Rest(t)) then "" else directories[drive], path, max, lfn, Rest(t));
    ghost var result := base[..];
    forall i | 0 <= i <= max {
      path[i] := base[i];
    }
    assert path[..max + 1] == result;
  }

  /** One component of the path, applied to the base. */
  method TakePart(base: array<char>, ghost b: string, path: array<char>, beg: nat, max: nat, lfn: bool, ghost left: string)
    returns (next: nat)
    requires base != path && base.Length == max + 1 && max < path.Length && path[max] == NUL
    requires beg < max && path[beg] != NUL && Reads(base[..], 0, b) && left == Left(path[..max + 1], beg)
    modifies base, path
    ensures beg < next <= max + 1 && path[max] == NUL && left != ""
    ensures Reads(base[..], 0, Step(b, left[..Run(left, lfn)], max))
    ensures After(left, lfn) == Left(path[..max + 1], next)
    ensures forall k :: max < k < path.Length ==> path[k] == old(path[k])
  {
    TextReads(path[..max + 1], beg, max);
    var end := CutPart(path, beg, max, lfn, left);
    ghost var cut := path[..max + 1];
    Apply(base, b, max, path, beg, left[..Run(left, lfn)]);
    assert path[..max + 1] == cut;
    next := end + 1;
  }

  /** The loop over the components. */
  method WalkPath(base: array<char>, ghost b: string, path: array<char>, max: nat, lfn: bool, ghost t: string)
    requires base != path && base.Length == max + 1 && max < path.Length && path[max] == NUL
    requires Reads(base[..], 0, b) && Reads(path[..max + 1], 0, t)
    modifies base, path
    ensures Reads(base[..], 0, Walk(b, Parts(t, lfn), max))
    ensures forall k :: max < k < path.Length ==> path[k] == old(path[k])
  {
    var end := 0;
    ghost var b', left, goal := b, t, Walk(b, Parts(t, lfn), max);
    ReadsText(path[..max + 1], 0, t);
    while end < max && path[end] != NUL
      invariant end <= max + 1 && base.Length == max + 1 && path[max] == NUL && Reads(base[..], 0, b') && left == Left(path[..max + 1], end)
      invariant Walk(b', Parts(left, lfn), max) == goal
      invariant forall k :: max < k < path.Length ==> path[k] == old(path[k])
      decreases max + 1 - end
    {
      end := TakePart(base, b', path, end, max, lfn, left);
      FirstStep(b', left, max, lfn);
      b', left := Step(b', left[..Run(left, lfn)], max), After(left, lfn);
    }
    NothingLeft(path[..max + 1], end, max);
  }

  lemma NothingLeft(s: seq<char>, end: nat, max: nat)
    requires |s| == max + 1 && s[max] == NUL && end <= max + 1 && (end < max ==> s[end] == NUL)
    ensures Left(s, end) == ""
  {
  }

  /** The walk takes the first component, then the rest. */
  lemma FirstStep(b: string, left: string, max: nat, lfn: bool)
    requires left != ""
    ensures Walk(b, Parts(left, lfn), max) == Walk(Step(b, left[..Run(left, lfn)], max), Parts(After(left, lfn), lfn), max)
  {
    FirstOfParts(left, lfn);
    var parts := Parts(left, lfn);
    assert parts[0] == left[..Run(left, lfn)] && parts[1..] == Parts(After(left, lfn), lfn);
  }

  lemma FirstOfParts(left: string, lfn: bool)
    requires left != ""
    ensures Parts(left, lfn) == [left[..Run(left, lfn)]] + Parts(After(left, lfn), lfn)
  {
  }

  /** Cutting a buffer off at its last byte leaves the text before it. */
  lemma Terminated(s: seq<char>, s': seq<char>)
    requires s' == s + [NUL]
    ensures Reads(s', 0, Text(s, 0))
  {
    TextReads(s', 0, |s|);
    SameText(s, s', 0);
  }

  lemma {:induction false} SameText(s: seq<char>, s': seq<char>, i: nat)
    requires s' == s + [NUL] && i <= |s|
    ensures Text(s, i) == Text(s', i)
    decreases |s| - i
  {
    if i < |s| && s[i] != NUL {
      SameText(s, s', i + 1);
    }
  }

  /** The directory to start from. */
  method Base(path: array<char>, max: nat, directory: string, ghost t: string) returns (base: array<char>)
    requires max < path.Length && |directory| <= max && NUL !in directory && Reads(path[..max + 1], 0, t)
    ensures fresh(base) && base.Length == max + 1
    ensures Reads(base[..], 0, if Absolute(t) then "" else directory)
  {
    Characters(path[..max + 1], 0, t);
    base := new char[max + 1](i => if 0 <= i < |directory| then directory[i] else NUL);
    assert base[..][0..|directory|] == directory;
    if path[0] == '\\' || path[0] == '/' {
      forall i | 0 <= i <= max {
        base[i] := NUL;
      }
    }
  }

  /** One component: "..", "." or nothing, or a name. */
  method Apply(base: array<char>, ghost b: string, max: nat, path: array<char>, beg: nat, ghost part: string)
    requires base != path && base.Length == max + 1 && max < path.Length
    requires Reads(base[..], 0, b) && Reads(path[..max + 1], beg, part)
    modifies base
    ensures Reads(base[..], 0, Step(b, part, max))
  {
    PartShape(path[..max + 1], beg, part);
    hide Reads, Up, Down;
    if path[beg] == '.' && path[beg + 1] == '.' && path[beg + 2] == NUL {
      GoUp(base, b);
    } else if path[beg] != NUL && !(path[beg] == '.' && path[beg + 1] == NUL) {
      AddName(base, b, max, path, beg, part);
    }
  }

  /** The tests on characters recognise "", "." and "..". */
  lemma PartShape(s: seq<char>, i: nat, part: string)
    requires Reads(s, i, part)
    ensures i < |s| && (s[i] == NUL <==> part == "")
    ensures part != "" ==> i + 1 < |s| && (s[i] == '.' && s[i + 1] == NUL <==> part == ".")
    ensures |part| >= 2 ==> i + 2 < |s| && (s[i] == '.' && s[i + 1] == '.' && s[i + 2] == NUL <==> part == "..")
    ensures |part| == 1 ==> s[i + 1] == NUL
  {
    Characters(s, i, part);
  }
}
