/** The 8.3 names of a directory listing: a name already taken gets a tilde and a counter before its dot. */
module UniqueNames {
  import opened Words

  /** Names in a listing are at most 8 + 1 + 3 characters. */
  const NAME_SIZE := 13

  /** A converted name: `dot` characters, then nothing or an extension with its dot. */
  predicate WellFormed(name: string, dot: nat) {
    && 1 <= dot <= 8 && dot <= |name| < NAME_SIZE && '\0' !in name
    && name[0] != '.' && (|name| > dot ==> name[dot] == '.')
  }

  function Power10(n: nat): (p: nat)
    ensures p > 0
  {
    if n == 0 then 1 else 10 * Power10(n - 1)
  }

  function Digit(d: nat): char
    requires d < 10
  {
    '0' + d as char
  }

  /** The last w decimal digits of n. */
  function Digits(n: nat, w: nat): (s: string)
    ensures |s| == w
  {
    if w == 0 then "" else Digits(n / 10, w - 1) + [Digit(n % 10)]
  }

  /** Level 0 is the name itself; level l puts a tilde and l - 1 digits before the dot. */
  function Candidate(name: string, dot: nat, level: nat, n: nat): string
    requires level <= dot <= |name|
  {
    if level == 0 then name else name[..dot - level] + "~" + Digits(n, level - 1) + name[dot..]
  }

  /** Numbers tried at a level. */
  function Tries(level: nat): nat {
    if level == 0 then 1 else Power10(level - 1)
  }

  /** Candidate (l, n) comes before (level, count). */
  predicate Earlier(l: nat, n: nat, level: nat, count: nat) {
    n < Tries(l) && (l < level || (l == level && n < count))
  }

  /** Every candidate before (level, count) is taken. */
  ghost predicate Exhausted(names: seq<string>, name: string, dot: nat, level: nat, count: nat)
    requires level <= dot <= |name|
  {
    forall l: nat, n: nat :: Earlier(l, n, level, count) ==> Candidate(name, dot, l, n) in names
  }

  /** Only what is before the dot changes, and never the first character. */
  lemma CandidateShape(name: string, dot: nat, level: nat, n: nat)
    requires WellFormed(name, dot) && level < dot
    ensures var c := Candidate(name, dot, level, n);
      |c| == |name| && c[dot..] == name[dot..] && c[..dot - level] == name[..dot - level] && c[0] == name[0]
  {
    if level > 0 {
      var c := Candidate(name, dot, level, n);
      assert c[0] == name[..dot - level][0];
    }
  }

  // ---- the candidates are different names ----

  lemma {:induction false} DigitsInjective(a: nat, b: nat, w: nat)
    requires a < Power10(w) && b < Power10(w) && Digits(a, w) == Digits(b, w)
    ensures a == b
  {
    if w > 0 {
      var p, q := Digits(a / 10, w - 1), Digits(b / 10, w - 1);
      assert Digits(a, w)[..w - 1] == p && Digits(b, w)[..w - 1] == q;
      assert Digits(a, w)[w - 1] == Digit(a % 10) && Digits(b, w)[w - 1] == Digit(b % 10);
      DigitsInjective(a / 10, b / 10, w - 1);
    }
  }

  /** The number a string of decimal digits stands for. */
  function Number(s: string): int {
    if s == "" then 0 else 10 * Number(s[..|s| - 1]) + (s[|s| - 1] as int - '0' as int)
  }

  /** The digits read back as the number. */
  lemma {:induction false} DigitsMean(n: nat, w: nat)
    requires n < Power10(w)
    ensures Number(Digits(n, w)) == n
  {
    if w > 0 {
      var s := Digits(n, w);
      assert s[..w - 1] == Digits(n / 10, w - 1) && s[w - 1] == Digit(n % 10);
      DigitsMean(n / 10, w - 1);
    }
  }

  lemma {:induction false} DigitsAreDigits(n: nat, w: nat)
    ensures forall c :: c in Digits(n, w) ==> '0' <= c <= '9'
  {
    if w > 0 {
      DigitsAreDigits(n / 10, w - 1);
    }
  }

  lemma NoTilde(n: nat, w: nat, i: nat)
    requires i < w
    ensures Digits(n, w)[i] != '~'
  {
    DigitsAreDigits(n, w);
    assert Digits(n, w)[i] in Digits(n, w);
  }

  lemma CandidateParts(name: string, dot: nat, level: nat, n: nat)
    requires 0 < level <= dot <= |name|
    ensures var c := Candidate(name, dot, level, n);
      |c| == |name| && c[dot - level] == '~' && c[dot - level + 1..dot] == Digits(n, level - 1)
  {
  }

  lemma CandidatesDiffer(name: string, dot: nat, l: nat, n: nat, l': nat, n': nat)
    requires 0 < l <= l' <= dot <= |name| && n < Tries(l) && n' < Tries(l')
    requires Candidate(name, dot, l, n) == Candidate(name, dot, l', n')
    ensures l == l' && n == n'
  {
    CandidateParts(name, dot, l, n);
    CandidateParts(name, dot, l', n');
    if l < l' {
      NoTilde(n', l' - 1, l' - 1 - l);
      assert false;
    }
    DigitsInjective(n, n', l - 1);
  }

  /** Candidates of levels 1 to level. */
  function Total(level: nat): nat {
    if level == 0 then 0 else Total(level - 1) + Tries(level)
  }

  lemma {:induction false} TotalClosed(level: nat)
    ensures 9 * Total(level) == Power10(level) - 1
  {
    if level > 0 {
      TotalClosed(level - 1);
    }
  }

  /** The candidates of levels 1 to level, and the first count ones of the next. */
  ghost function Tried(name: string, dot: nat, level: nat, count: nat): (r: set<string>)
    requires level <= dot <= |name| && (count > 0 ==> level < dot)
    decreases level, count
  {
    if count > 0 then Tried(name, dot, level, count - 1) + {Candidate(name, dot, level + 1, count - 1)}
    else if level == 0 then {}
    else Tried(name, dot, level - 1, Tries(level))
  }

  lemma {:induction false} TriedMembers(name: string, dot: nat, level: nat, count: nat, c: string)
    requires level <= dot <= |name| && (count > 0 ==> level < dot) && count <= Tries(level + 1)
    requires c in Tried(name, dot, level, count)
    ensures exists l: nat, n: nat :: 0 < l <= dot && Earlier(l, n, level + 1, count) && c == Candidate(name, dot, l, n)
    decreases level, count
  {
    if count > 0 {
      if c == Candidate(name, dot, level + 1, count - 1) {
        assert Earlier(level + 1, count - 1, level + 1, count);
      } else {
        TriedMembers(name, dot, level, count - 1, c);
        var l: nat, n: nat :| 0 < l <= dot && Earlier(l, n, level + 1, count - 1) && c == Candidate(name, dot, l, n);
        assert Earlier(l, n, level + 1, count);
      }
    } else if level > 0 {
      TriedMembers(name, dot, level - 1, Tries(level), c);
      var l: nat, n: nat :| 0 < l <= dot && Earlier(l, n, level, Tries(level)) && c == Candidate(name, dot, l, n);
      assert Earlier(l, n, level + 1, count);
    }
  }

  lemma {:induction false} TriedSize(name: string, dot: nat, level: nat, count: nat)
    requires level <= dot <= |name| && (count > 0 ==> level < dot) && count <= Tries(level + 1)
    ensures |Tried(name, dot, level, count)| == Total(level) + count
    decreases level, count
  {
    if count > 0 {
      TriedSize(name, dot, level, count - 1);
      var c := Candidate(name, dot, level + 1, count - 1);
      if c in Tried(name, dot, level, count - 1) {
        TriedMembers(name, dot, level, count - 1, c);
        var l: nat, n: nat :| 0 < l <= dot && Earlier(l, n, level + 1, count - 1) && c == Candidate(name, dot, l, n);
        CandidatesDiffer(name, dot, l, n, level + 1, count - 1);
        assert false;
      }
    } else if level > 0 {
      TriedSize(name, dot, level - 1, Tries(level));
    }
  }

  function Members(s: seq<string>): set<string> {
    set x | x in s
  }

  lemma {:induction false} MembersSize(s: seq<string>)
    ensures |Members(s)| <= |s|
  {
    if s == [] {
      assert Members(s) == {};
    } else {
      MembersSize(s[1..]);
      assert Members(s) == {s[0]} + Members(s[1..]);
    }
  }

  lemma {:induction false} SubsetSize(a: set<string>, b: set<string>)
    requires a <= b
    ensures |a| <= |b|
  {
    if a != {} {
      var x :| x in a;
      SubsetSize(a - {x}, b - {x});
    }
  }

  /** A file can only be left out of the listing when (10^(dot-1) - 1) / 9 names are already in it. */
  lemma DroppedOnlyWhenFull(names: seq<string>, name: string, dot: nat)
    requires WellFormed(name, dot) && Exhausted(names, name, dot, dot, 0)
    ensures 9 * |names| >= Power10(dot - 1) - 1
  {
    var tried := Tried(name, dot, dot - 1, 0);
    forall c | c in tried ensures c in Members(names) {
      TriedMembers(name, dot, dot - 1, 0, c);
      var l: nat, n: nat :| 0 < l <= dot && Earlier(l, n, dot, 0) && c == Candidate(name, dot, l, n);
      assert Earlier(l, n, dot, 0);
    }
    TriedSize(name, dot, dot - 1, 0);
    SubsetSize(tried, Members(names));
    MembersSize(names);
    TotalClosed(dot - 1);
  }

  // ---- the loop ----

  /** The buffer holds the name, terminated. */
  ghost predicate Holds(s: seq<char>, name: string) {
    |s| == NAME_SIZE && |name| < NAME_SIZE && s[..|name|] == name && s[|name|] == '\0' && '\0' !in name
  }

  method Taken(names: seq<string>, buffer: array<char>, ghost name: string) returns (found: bool)
    requires Holds(buffer[..], name) && forall x :: x in names ==> |x| < NAME_SIZE && '\0' !in x
    ensures found <==> name in names
  {
    var i := 0;
    while i < |names|
      invariant i <= |names| && name !in names[..i]
    {
      var same := Same(names[i], buffer, name);
      if same {
        return true;
      }
      i := i + 1;
    }
    return false;
  }

  /** Compares up to the terminator. */
  method Same(x: string, buffer: array<char>, ghost name: string) returns (same: bool)
    requires Holds(buffer[..], name) && |x| < NAME_SIZE && '\0' !in x
    ensures same <==> x == name
  {
    assert forall k :: 0 <= k < |name| ==> buffer[k] == buffer[..][..|name|][k] == name[k] && name[k] in name;
    var k := 0;
    while k < |x|
      invariant k <= |x| && k <= |name| && x[..k] == name[..k]
    {
      if buffer[k] != x[k] {
        assert k < |name| ==> x[k] != name[k];
        assert x != name;
        return false;
      }
      assert x[k] in x;
      k := k + 1;
    }
    assert x[..k] == x && name[..|name|] == name;
    return buffer[k] == '\0';
  }

  /** Rewrites the name in place until it is free; false when the tilde reaches the first character.
      level and index name the candidate the buffer is left with. */
  method MakeUnique(names: seq<string>, buffer: array<char>, dot: nat, ghost name: string)
    returns (kept: bool, ghost level: nat, ghost index: nat)
    requires Holds(buffer[..], name) && WellFormed(name, dot)
    requires forall x :: x in names ==> |x| < NAME_SIZE && '\0' !in x
    modifies buffer
    ensures level <= dot && index < Tries(level) && Holds(buffer[..], Candidate(name, dot, level, index))
    ensures Exhausted(names, name, dot, level, index)
    ensures if kept then level < dot && Candidate(name, dot, level, index) !in names else level == dot && index == 0
  {
    var pos, n, max := dot, 0, 0;
    level, index := 0, 0;
    while true
      invariant level <= dot && index < Tries(level) && At(pos, n, max, dot, level, index)
      invariant level == dot ==> index == 0
      invariant Holds(buffer[..], Candidate(name, dot, level, index))
      invariant Exhausted(names, name, dot, level, index)
      decreases pos, max - n
    {
      if pos == 0 {
        return false, level, index;
      }
      var found := Taken(names, buffer, Candidate(name, dot, level, index));
      if !found {
        return true, level, index;
      }
      ghost var l, i := level, index;
      pos, n, max, level, index := Rename(buffer, pos, n, max, dot, l, i, name);
      TakenToo(names, name, dot, l, i, level, index);
    }
  }

  /** How the loop's variables stand at a candidate. */
  predicate At(pos: nat, n: nat, max: nat, dot: nat, level: nat, index: nat) {
    && level <= dot && pos == dot - level
    && if level == 0 then n == max == 0 else max == Tries(level) && n == index + 1
  }

  /** The loop body: the next number at this level, or the first of the next one. */
  method Rename(buffer: array<char>, pos0: nat, n0: nat, max0: nat, dot: nat,
                ghost level: nat, ghost index: nat, ghost name: string)
    returns (pos: nat, n: nat, max: nat, ghost level': nat, ghost index': nat)
    requires WellFormed(name, dot) && level < dot && index < Tries(level) && At(pos0, n0, max0, dot, level, index)
    requires Holds(buffer[..], Candidate(name, dot, level, index))
    modifies buffer
    ensures Follows(level, index, level', index') && index' < Tries(level') && At(pos, n, max, dot, level', index')
    ensures pos < pos0 || max - n < max0 - n0
    ensures Holds(buffer[..], Candidate(name, dot, level', index'))
  {
    CandidateShape(name, dot, level, index);
    BufferParts(buffer[..], Candidate(name, dot, level, index), dot - level, dot);
    pos, n, max := pos0, n0, max0;
    if n >= max {
      pos := pos - 1;
      max := max * 10;
      if max == 0 {
        max := 1;
      }
      n := 0;
      buffer[pos] := '~';
    } else {
      CandidateParts(name, dot, level, index);
    }
    level', index' := dot - pos, n;
    WriteDigits(buffer, pos, dot, n, max, level', name);
    n := n + 1;
  }

  lemma BufferParts(s: seq<char>, c: string, i: nat, dot: nat)
    requires Holds(s, c) && i <= dot <= |c|
    ensures s[..i] == c[..i] && s[dot..|c|] == c[dot..] && (i < |c| ==> s[i] == c[i])
  {
    assert s[..i] == s[..|c|][..i] && s[dot..|c|] == s[..|c|][dot..];
  }

  /** The order in which candidates are tried. */
  predicate Follows(level: nat, index: nat, level': nat, index': nat) {
    if index + 1 < Tries(level) then level' == level && index' == index + 1 else level' == level + 1 && index' == 0
  }

  /** One more candidate is taken. */
  lemma TakenToo(names: seq<string>, name: string, dot: nat, level: nat, index: nat, level': nat, index': nat)
    requires level < dot <= |name| && index < Tries(level) && Exhausted(names, name, dot, level, index)
    requires Candidate(name, dot, level, index) in names && Follows(level, index, level', index')
    ensures Exhausted(names, name, dot, level', index')
  {
    forall l: nat, n: nat | Earlier(l, n, level', index') ensures Candidate(name, dot, l, n) in names {
      if l == level && n == index {
      } else {
        assert Earlier(l, n, level, index);
      }
    }
  }

  /** n without its last k digits. */
  function High(n: nat, k: nat): nat {
    if k == 0 then n else High(n, k - 1) / 10
  }

  lemma {:induction false} HighDivides(n: nat, k: nat)
    ensures High(n, k) == n / Power10(k)
  {
    if k > 0 {
      HighDivides(n, k - 1);
      TenTimes(n, Power10(k - 1));
    }
  }

  lemma TenTimes(n: nat, p: nat)
    requires p > 0
    ensures n / p / 10 == n / (10 * p)
  {
    var a, b := n / p, n % p;
    QuotientUnique(n, 10 * p, a / 10, a % 10 * p + b);
  }

  lemma DigitStep(n: nat, w: nat, j: nat, d: nat)
    requires j < w && d == Power10(w - j - 1)
    ensures Digits(High(n, w - j - 1), j + 1) == Digits(High(n, w - j), j) + [Digit(n / d % 10)]
    ensures d / 10 == if j + 1 < w then Power10(w - j - 2) else 0
  {
    HighDivides(n, w - j - 1);
  }

  /** Around the digits: the start of the name, the tilde, the extension, the terminator. */
  ghost predicate Framed(s: seq<char>, name: string, pos: nat, dot: nat) {
    && pos < dot <= |name| < |s| == NAME_SIZE
    && s[..pos] == name[..pos] && s[pos] == '~' && s[dot..|name|] == name[dot..] && s[|name|] == '\0'
  }

  lemma FrameKept(s: seq<char>, name: string, pos: nat, dot: nat, k: nat, c: char)
    requires Framed(s, name, pos, dot) && pos < k < dot
    ensures Framed(s[k := c], name, pos, dot)
  {
  }

  /** The digit loop, from the highest down: it stops short of the dot. */
  method WriteDigits(buffer: array<char>, pos: nat, dot: nat, n: nat, max: nat, ghost level: nat, ghost name: string)
    requires WellFormed(name, dot) && 0 < level <= dot && pos == dot - level && max == Tries(level)
    requires Framed(buffer[..], name, pos, dot)
    modifies buffer
    ensures Holds(buffer[..], Candidate(name, dot, level, n))
  {
    var k, d := pos + 1, max / 10;
    ghost var w, j: nat := level - 1, 0;
    while d > 0
      invariant j <= w && k == pos + 1 + j && d == if j < w then Power10(w - j - 1) else 0
      invariant buffer[pos + 1..k] == Digits(High(n, w - j), j)
      invariant Framed(buffer[..], name, pos, dot)
    {
      DigitStep(n, w, j, d);
      ghost var digits := buffer[pos + 1..k];
      FrameKept(buffer[..], name, pos, dot, k, Digit(n / d % 10));
      buffer[k] := Digit(n / d % 10);
      assert buffer[pos + 1..k + 1] == digits + [Digit(n / d % 10)];
      d := d / 10;
      k, j := k + 1, j + 1;
    }
    Assembled(buffer[..], name, dot, level, n);
  }

  lemma Assembled(s: seq<char>, name: string, dot: nat, level: nat, n: nat)
    requires WellFormed(name, dot) && 0 < level <= dot
    requires Framed(s, name, dot - level, dot) && s[dot - level + 1..dot] == Digits(n, level - 1)
    ensures Holds(s, Candidate(name, dot, level, n))
  {
    var pos := dot - level;
    DigitsAreDigits(n, level - 1);
    assert s[..|name|] == s[..pos] + [s[pos]] + s[pos + 1..dot] + s[dot..|name|];
  }

  // ---- the listing ----

  /** A directory entry: "." or "..", or a file with its converted name (dot 0 when nothing is left of it). */
  datatype Entry = Dots(name: string) | File(name: string, dot: nat)

  predicate Sensible(e: Entry) {
    match e
    case Dots(name) => name == "." || name == ".."
    case File(name, dot) => dot == 0 || WellFormed(name, dot)
  }

  ghost predicate Distinct(names: seq<string>) {
    forall i, j :: 0 <= i < j < |names| ==> names[i] != names[j]
  }

  /** A name of the listing: one of the two dot entries among those read, or one that does not begin with a dot. */
  ghost predicate Listed(read: seq<Entry>, x: string) {
    && 0 < |x| < NAME_SIZE && '\0' !in x
    && (x[0] == '.' ==> Dots(x) in read)
  }

  const LABEL := "DISK LABEL"

  /** The names of a directory listing are pairwise distinct, whatever the files are called. */
  method ReadDir(entries: seq<Entry>, withLabel: bool, full: bool) returns (names: seq<string>)
    requires forall e :: e in entries ==> Sensible(e)
    requires forall i, j :: 0 <= i < j < |entries| && entries[i].Dots? ==> entries[i] != entries[j]
    ensures Distinct(names)
    ensures withLabel ==> names != [] && names[0] == LABEL
    ensures forall e :: e in entries && e.Dots? && full ==> e.name in names
  {
    names := if withLabel then [LABEL] else [];
    var i := 0;
    while i < |entries|
      invariant i <= |entries| && Distinct(names) && (withLabel ==> names != [] && names[0] == LABEL)
      invariant forall x :: x in names ==> Listed(entries[..i], x)
      invariant forall e :: e in entries[..i] && e.Dots? && full ==> e.name in names
    {
      var added := Entered(names, entries[i], full, entries[..i]);
      Extend(names, entries[..i], entries[i], added);
      assert entries[..i + 1] == entries[..i] + [entries[i]];
      names := names + added;
      i := i + 1;
    }
    assert entries[..i] == entries;
  }

  lemma Extend(names: seq<string>, read: seq<Entry>, e: Entry, added: seq<string>)
    requires Distinct(names) && (forall x :: x in names ==> Listed(read, x))
    requires |added| <= 1 && forall x :: x in added ==> Listed(read + [e], x) && x !in names
    ensures Distinct(names + added) && forall x :: x in names + added ==> Listed(read + [e], x)
  {
    var all := names + added;
    forall x | x in all ensures Listed(read + [e], x) {
      assert x in names ==> Listed(read, x);
    }
    forall i, j | 0 <= i < j < |all| ensures all[i] != all[j] {
      if j == |names| {
        assert all[j] == added[0] && added[0] in added && all[i] in names;
      }
    }
  }

  /** What one directory entry adds to the listing. A file is left out only if its name is empty or
      every way to change it is taken. */
  method Entered(names: seq<string>, e: Entry, full: bool, ghost read: seq<Entry>) returns (added: seq<string>)
    requires Sensible(e) && (e.Dots? ==> e !in read) && forall x :: x in names ==> Listed(read, x)
    ensures |added| <= 1 && forall x :: x in added ==> Listed(read + [e], x) && x !in names
    ensures e.Dots? ==> added == if full then [e.name] else []
    ensures e.File? && added == [] ==> e.dot == 0 || Exhausted(names, e.name, e.dot, e.dot, 0)
  {
    match e
    case Dots(name) =>
      return if full then [name] else [];
    case File(name, dot) =>
      if dot == 0 {
        return [];
      }
      var buffer := new char[NAME_SIZE](i => if 0 <= i < |name| then name[i] else '\0');
      assert buffer[..][..|name|] == name;
      var kept, level, index := MakeUnique(names, buffer, dot, name);
      if kept {
        CandidateShape(name, dot, level, index);
        NameHeld(buffer[..], 0, Candidate(name, dot, level, index));
        added := [NameIn(buffer[..], 0)];
      } else {
        added := [];
      }
  }

  /** The name in the buffer. */
  function NameIn(s: seq<char>, i: nat): string
    requires i <= |s|
    decreases |s| - i
  {
    if i == |s| || s[i] == '\0' then "" else [s[i]] + NameIn(s, i + 1)
  }

  lemma {:induction false} NameHeld(s: seq<char>, i: nat, name: string)
    requires Holds(s, name) && i <= |name|
    ensures NameIn(s, i) == name[i..]
    decreases |name| - i
  {
    if i < |name| {
      assert s[i] == s[..|name|][i] == name[i] && name[i] in name;
      NameHeld(s, i + 1, name);
    }
  }
}
