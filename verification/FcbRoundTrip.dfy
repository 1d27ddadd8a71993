/** Two file names written out on a command line are read back into the two blocks. */
module FcbRoundTrip {
  import opened Words
  import opened FcbParse

  /** drive is the letter, 0 for none; ext comes without its dot; a star ends the name or the extension. */
  datatype Name = Name(drive: byte, name: seq<byte>, star: bool, ext: seq<byte>, extStar: bool)

  ghost predicate AllValid(w: seq<byte>) {
    forall c :: c in w ==> Valid(c)
  }

  ghost predicate Writable(f: Name) {
    && (f.drive == 0 || Valid(f.drive)) && |f.name| <= 8 && |f.ext| <= 3 && AllValid(f.name) && AllValid(f.ext)
  }

  function ShowDrive(f: Name): seq<byte> {
    if f.drive == 0 then [] else [f.drive, COLON]
  }

  function Starred(star: bool): seq<byte> {
    if star then [STAR] else []
  }

  predicate HasExt(f: Name) {
    f.ext != [] || f.extStar
  }

  function ShowExt(f: Name): seq<byte> {
    if HasExt(f) then [DOT] + f.ext + Starred(f.extStar) else []
  }

  function Show(f: Name): seq<byte> {
    ShowDrive(f) + f.name + Starred(f.star) + ShowExt(f)
  }

  /** Nothing but a star. */
  predicate Bare(f: Name) {
    f.drive == 0 && f.name == [] && f.star && !HasExt(f)
  }

  /** Letters are told apart by their place in the alphabet only; drive A is 1. */
  lemma LettersMean(k: nat, c: byte)
    requires k < 26
    ensures Upper(0x41 + k) == Upper(0x61 + k) == 0x41 + k && Drive(0x41 + k) == Drive(0x61 + k) == k + 1
    ensures !(0x61 <= c <= 0x7A) ==> Upper(c) == c
  {
  }

  function Uppered(w: seq<byte>): (r: seq<byte>)
    ensures |r| == |w|
  {
    seq(|w|, i requires 0 <= i < |w| => Upper(w[i]))
  }

  /** In capitals, filled up with spaces, or with question marks for a star. */
  function Padded(w: seq<byte>, n: nat, star: bool): (r: seq<byte>)
    requires |w| <= n
    ensures |r| == n
  {
    Uppered(w) + seq(n - |w|, _ => if star then QUERY else SPACE)
  }

  function DriveByte(f: Name): byte {
    if f.drive == 0 then 0 else Drive(f.drive)
  }

  /** The block a name stands for: drive number, name, extension. */
  function Encoded(f: Name): seq<byte>
    requires |f.name| <= 8 && |f.ext| <= 3
  {
    [DriveByte(f)] + Padded(f.name, 8, f.star) + Padded(f.ext, 3, f.extStar)
  }

  /** The line has w at i. */
  ghost predicate Has(line: seq<byte>, i: nat, w: seq<byte>) {
    i + |w| <= |line| && line[i..i + |w|] == w
  }

  lemma HasBoth(line: seq<byte>, i: nat, a: seq<byte>, b: seq<byte>)
    requires Has(line, i, a + b)
    ensures Has(line, i, a) && Has(line, i + |a|, b)
  {
    assert line[i..i + |a|] == (a + b)[..|a|];
    assert line[i + |a|..i + |a| + |b|] == (a + b)[|a|..];
  }

  // ---- reading on ----

  function Written(s: seq<byte>, at: nat, w: seq<byte>): (r: seq<byte>)
    requires at + |w| <= |s|
    ensures |r| == |s|
  {
    s[..at] + Uppered(w) + s[at + |w|..]
  }

  function Limit(m: Mode): nat {
    if m in {Name1, Name2} then 9 else 12
  }

  /** The block being filled. */
  function Block(c: Config): seq<byte> {
    if InFirst(c.mode) then c.one else c.two
  }

  function WithBlock(c: Config, s: seq<byte>): Config {
    if InFirst(c.mode) then c.(one := s) else c.(two := s)
  }

  /** After reading w in a name or extension with room for it. */
  function Fed(c: Config, w: seq<byte>): Config
    requires c.at + |w| <= |Block(c)|
  {
    WithBlock(c, Written(Block(c), c.at, w)).(i := c.i + |w|, at := c.at + |w|)
  }

  lemma {:induction false} Feed(line: seq<byte>, c: Config, w: seq<byte>)
    requires Inv(line, c) && c.mode in {Name1, Ext1, Name2, Ext2} && Has(line, c.i, w) && AllValid(w)
    requires c.at + |w| <= Limit(c.mode)
    ensures Inv(line, Fed(c, w)) && Run(line, c) == Run(line, Fed(c, w))
    decreases |w|
  {
    hide Run;
    if w == [] {
      assert Written(Block(c), c.at, w) == Block(c);
    } else {
      assert w == [w[0]] + w[1..] && w[0] in w;
      HasBoth(line, c.i, [w[0]], w[1..]);
      var d := FeedOne(line, c, w[0]);
      Feed(line, d, w[1..]);
      FedTwice(c, w);
    }
  }

  lemma FeedOne(line: seq<byte>, c: Config, x: byte) returns (d: Config)
    requires Inv(line, c) && c.mode in {Name1, Ext1, Name2, Ext2} && Has(line, c.i, [x]) && Valid(x)
    requires c.at < Limit(c.mode)
    ensures Inv(line, d) && d == Fed(c, [x]) && Run(line, c) == Run(line, d)
    ensures d.mode == c.mode && d.at == c.at + 1 && d.i == c.i + 1
  {
    assert line[c.i] == line[c.i..c.i + 1][0];
    d := Next(Put(c, Upper(x)));
    assert Step(line, c) == d by {
      hide Run, Fed, Written, Inv;
    }
    hide Step;
    assert Block(d) == Written(Block(c), c.at, [x]);
  }

  lemma FedTwice(c: Config, w: seq<byte>)
    requires w != [] && c.at + |w| <= |Block(c)|
    ensures Fed(Fed(c, [w[0]]), w[1..]) == Fed(c, w)
  {
    var s := Block(c);
    assert Written(Written(s, c.at, [w[0]]), c.at + 1, w[1..]) == Written(s, c.at, w);
  }

  // ---- one name ----

  /** Before a name: the first or the second block, still blank. */
  ghost predicate Ready(line: seq<byte>, c: Config) {
    Inv(line, c) && c.mode in {Init, Sep} && c.at == 1 && Block(c) == Blank()
  }

  /** What stays: the other block, and which block is being filled. */
  ghost predicate SameSide(c: Config, d: Config) {
    && InFirst(c.mode) == InFirst(d.mode)
    && if InFirst(c.mode) then d.two == c.two else d.one == c.one
  }

  /** No colon can follow, so the first character is not a drive. */
  ghost predicate Closed(line: seq<byte>, i: nat) {
    i < |line| ==> line[i] != COLON
  }

  /** The drive, or the first character, then the rest of the name. */
  lemma ReadName(line: seq<byte>, c: Config, f: Name) returns (d: Config)
    requires Ready(line, c) && Writable(f)
    requires Has(line, c.i, ShowDrive(f) + f.name) && Closed(line, c.i + |ShowDrive(f) + f.name|)
    ensures Inv(line, d) && Run(line, c) == Run(line, d) && SameSide(c, d)
    ensures d.i == c.i + |ShowDrive(f) + f.name| && d.at == 1 + |f.name|
    ensures Block(d) == [DriveByte(f)] + Padded(f.name, 8, false) + Padded([], 3, false)
    ensures if f.drive == 0 && f.name == [] then d == c else d.mode in {Name1, Name2}
  {
    if f.drive != 0 {
      d := ReadAfterDrive(line, c, f);
    } else if f.name != [] {
      assert ShowDrive(f) + f.name == f.name;
      d := ReadPlain(line, c, f.name);
    } else {
      d := c;
      DriveThenName(0, []);
      assert Written(Blank()[0 := 0], 1, []) == Blank();
    }
  }

  lemma ReadAfterDrive(line: seq<byte>, c: Config, f: Name) returns (d: Config)
    requires Ready(line, c) && Writable(f) && f.drive != 0 && Has(line, c.i, ShowDrive(f) + f.name)
    ensures Inv(line, d) && Run(line, c) == Run(line, d) && SameSide(c, d) && d.mode in {Name1, Name2}
    ensures d.i == c.i + 2 + |f.name| && d.at == 1 + |f.name|
    ensures Block(d) == [Drive(f.drive)] + Padded(f.name, 8, false) + Padded([], 3, false)
  {
    HasBoth(line, c.i, ShowDrive(f), f.name);
    d := ReadDrive(line, c, f.drive);
    d := ReadRest(line, d, f.name);
    DriveThenName(Drive(f.drive), f.name);
  }

  lemma ReadPlain(line: seq<byte>, c: Config, w: seq<byte>) returns (d: Config)
    requires Ready(line, c) && 0 < |w| <= 8 && AllValid(w) && Has(line, c.i, w) && Closed(line, c.i + |w|)
    ensures Inv(line, d) && Run(line, c) == Run(line, d) && SameSide(c, d) && d.mode in {Name1, Name2}
    ensures d.i == c.i + |w| && d.at == 1 + |w|
    ensures Block(d) == [0] + Padded(w, 8, false) + Padded([], 3, false)
  {
    assert w == [w[0]] + w[1..];
    HasBoth(line, c.i, [w[0]], w[1..]);
    d := ReadFirst(line, c, w);
    d := ReadRest(line, d, w[1..]);
    FirstThenName(w);
  }

  lemma DriveThenName(x: byte, w: seq<byte>)
    requires |w| <= 8
    ensures Written(Blank()[0 := x], 1, w) == [x] + Padded(w, 8, false) + Padded([], 3, false)
  {
  }

  lemma FirstThenName(w: seq<byte>)
    requires 0 < |w| <= 8
    ensures Written(Blank()[1 := Upper(w[0])], 2, w[1..]) == [0] + Padded(w, 8, false) + Padded([], 3, false)
  {
  }

  lemma NameThenExt(x: byte, w: seq<byte>, star: bool, e: seq<byte>)
    requires |w| <= 8 && |e| <= 3
    ensures Written([x] + Padded(w, 8, star) + Padded([], 3, false), 9, e) == [x] + Padded(w, 8, star) + Padded(e, 3, false)
  {
  }

  lemma NameThenStar(x: byte, w: seq<byte>)
    requires |w| <= 8
    ensures Marked([x] + Padded(w, 8, false) + Padded([], 3, false), 1 + |w|, 9) == [x] + Padded(w, 8, true) + Padded([], 3, false)
  {
  }

  lemma ExtThenStar(x: byte, w: seq<byte>, star: bool, e: seq<byte>)
    requires |w| <= 8 && |e| <= 3
    ensures Marked([x] + Padded(w, 8, star) + Padded(e, 3, false), 9 + |e|, 12) == [x] + Padded(w, 8, star) + Padded(e, 3, true)
  {
  }

  /** Question marks from one place to another. */
  function Marked(s: seq<byte>, from: nat, to: nat): (r: seq<byte>)
    requires from <= to <= |s|
    ensures |r| == |s|
  {
    s[..from] + seq(to - from, _ => QUERY) + s[to..]
  }

  lemma MarkedStep(b: seq<byte>, at: nat, end: nat)
    requires at < end <= |b|
    ensures Marked(b[at := QUERY], at + 1, end) == Marked(b, at, end)
  {
  }

  lemma {:induction false} FillMarks(c: Config, end: nat)
    requires |c.one| == |c.two| == FIELD && c.at <= end <= FIELD
    ensures Block(FillTo(c, end)) == Marked(Block(c), c.at, end) && SameSide(c, FillTo(c, end))
    decreases end - c.at
  {
    if c.at < end {
      var d := Put(c, QUERY);
      FillMarks(d, end);
      assert Block(d) == Block(c)[c.at := QUERY] && d.at == c.at + 1;
      MarkedStep(Block(c), c.at, end);
    } else {
      assert Marked(Block(c), c.at, end) == Block(c);
    }
  }

  /** The star after the name, or in place of it. */
  lemma ReadStar(line: seq<byte>, c: Config, f: Name) returns (d: Config)
    requires Inv(line, c) && c.mode in {Init, Name1, Sep, Name2} && Writable(f) && Has(line, c.i, Starred(f.star))
    requires c.at == 1 + |f.name| && (c.mode in {Init, Sep} ==> f.name == [])
    requires Block(c) == [DriveByte(f)] + Padded(f.name, 8, false) + Padded([], 3, false)
    ensures Inv(line, d) && Run(line, c) == Run(line, d) && SameSide(c, d) && d.mode == c.mode
    ensures d.i == c.i + |Starred(f.star)|
    ensures Block(d) == [DriveByte(f)] + Padded(f.name, 8, f.star) + Padded([], 3, false)
  {
    d := c;
    if f.star {
      assert line[c.i] == line[c.i..c.i + 1][0];
      NameThenStar(DriveByte(f), f.name);
      if c.mode in {Name1, Name2} {
        FillMarks(c, 9);
        d := Next(FillTo(c, 9));
      } else {
        assert Questions(Block(c)) == Marked(Block(c), 1, 9);
        d := if c.mode == Init then Next(c.(one := Questions(c.one), at := 9)) else Next(c.(two := Questions(c.two)));
      }
      assert Step(line, c) == d;
    }
  }

  /** The star after the extension; in the second block it ends the parse. */
  lemma ReadExtStar(line: seq<byte>, c: Config, f: Name) returns (d: Config)
    requires Inv(line, c) && Writable(f) && Has(line, c.i, Starred(f.extStar))
    requires f.extStar ==> c.mode in {Ext1, Ext2} && c.at == 9 + |f.ext|
    requires Block(c) == [DriveByte(f)] + Padded(f.name, 8, f.star) + Padded(f.ext, 3, false)
    ensures Inv(line, d) && Run(line, c) == Run(line, d) && SameSide(c, d)
    ensures d.mode == c.mode || (c.mode == Ext2 && d.mode == Exit)
    ensures d.mode != Exit ==> d.i == c.i + |Starred(f.extStar)|
    ensures Block(d) == Encoded(f)
  {
    d := c;
    if f.extStar {
      assert line[c.i] == line[c.i..c.i + 1][0];
      ExtThenStar(DriveByte(f), f.name, f.star, f.ext);
      FillMarks(c, 12);
      d := if c.mode == Ext1 then Next(FillTo(c, 12)) else FillTo(c, 12).(mode := Exit);
      assert Step(line, c) == d;
    }
  }

  lemma ReadRest(line: seq<byte>, c: Config, w: seq<byte>) returns (d: Config)
    requires Inv(line, c) && c.mode in {Name1, Name2} && Has(line, c.i, w) && AllValid(w) && c.at + |w| <= 9
    ensures Inv(line, d) && Run(line, c) == Run(line, d) && SameSide(c, d) && d.mode == c.mode
    ensures d.i == c.i + |w| && d.at == c.at + |w| && Block(d) == Written(Block(c), c.at, w)
  {
    Feed(line, c, w);
    d := Fed(c, w);
  }

  lemma ReadDrive(line: seq<byte>, c: Config, x: byte) returns (d: Config)
    requires Ready(line, c) && Has(line, c.i, [x, COLON]) && Valid(x)
    ensures Inv(line, d) && Run(line, c) == Run(line, d) && SameSide(c, d) && d.mode in {Name1, Name2}
    ensures d.i == c.i + 2 && d.at == 1 && Block(d) == Blank()[0 := Drive(x)]
  {
    assert line[c.i] == line[c.i..c.i + 2][0] && line[c.i + 1] == line[c.i..c.i + 2][1];
    d := Begin(line, c);
    assert Step(line, c) == d;
  }

  lemma ReadFirst(line: seq<byte>, c: Config, w: seq<byte>) returns (d: Config)
    requires Ready(line, c) && w != [] && Has(line, c.i, w) && AllValid(w) && Closed(line, c.i + |w|)
    ensures Inv(line, d) && Run(line, c) == Run(line, d) && SameSide(c, d) && d.mode in {Name1, Name2}
    ensures d.i == c.i + 1 && d.at == 2 && Block(d) == Blank()[1 := Upper(w[0])]
  {
    assert line[c.i] == line[c.i..c.i + |w|][0] && w[0] in w;
    if |w| > 1 {
      assert line[c.i + 1] == line[c.i..c.i + |w|][1] && w[1] in w;
    }
    d := Begin(line, c);
    assert Step(line, c) == d;
  }

  /** The extension, if there is one, up to its star. */
  lemma ReadExt(line: seq<byte>, c: Config, f: Name) returns (d: Config)
    requires Inv(line, c) && c.mode in {Init, Name1, Sep, Name2} && Writable(f)
    requires HasExt(f) ==> Has(line, c.i, [DOT] + f.ext)
    ensures Inv(line, d) && Run(line, c) == Run(line, d) && SameSide(c, d)
    ensures !HasExt(f) ==> d == c
    ensures HasExt(f) ==> d.mode == (if InFirst(c.mode) then Ext1 else Ext2) && d.at == 9 + |f.ext| && d.i == c.i + 1 + |f.ext|
    ensures HasExt(f) ==> Block(d) == Written(Block(c), 9, f.ext)
  {
    d := c;
    if HasExt(f) {
      HasBoth(line, c.i, [DOT], f.ext);
      assert line[c.i] == line[c.i..c.i + 1][0];
      d := Next(c.(mode := if InFirst(c.mode) then Ext1 else Ext2, at := 9));
      assert Step(line, c) == d;
      Feed(line, d, f.ext);
      d := Fed(d, f.ext);
    }
  }

  lemma ShowParts(line: seq<byte>, i: nat, f: Name)
    requires Has(line, i, Show(f)) && Closed(line, i + |Show(f)|)
    ensures var head := ShowDrive(f) + f.name;
      && Has(line, i, head) && Closed(line, i + |head|)
      && Has(line, i + |head|, Starred(f.star))
      && (HasExt(f) ==> Has(line, i + |head| + |Starred(f.star)|, [DOT] + f.ext))
      && Has(line, i + |head| + |Starred(f.star)| + (if HasExt(f) then 1 + |f.ext| else 0), Starred(f.extStar))
      && |Show(f)| == |head| + |Starred(f.star)| + |ShowExt(f)|
  {
    var head, star, ext := ShowDrive(f) + f.name, Starred(f.star), ShowExt(f);
    var at := i + |head + star|;
    HasBoth(line, i, head + star, ext);
    HasBoth(line, i, head, star);
    ShowTail(line, at, f);
    FirstCloses(line, i + |head|, star, at);
  }

  /** The extension, or what closes the name when there is none. */
  lemma ShowTail(line: seq<byte>, at: nat, f: Name)
    requires Has(line, at, ShowExt(f)) && Closed(line, at + |ShowExt(f)|)
    ensures HasExt(f) ==> Has(line, at, [DOT] + f.ext)
    ensures Has(line, at + (if HasExt(f) then 1 + |f.ext| else 0), Starred(f.extStar))
    ensures Closed(line, at)
  {
    if HasExt(f) {
      HasBoth(line, at, [DOT] + f.ext, Starred(f.extStar));
      assert line[at] == line[at..at + |[DOT] + f.ext|][0];
    }
  }

  /** A star closes a name, and so does what comes after no star. */
  lemma FirstCloses(line: seq<byte>, i: nat, star: seq<byte>, at: nat)
    requires Has(line, i, star) && at == i + |star| && Closed(line, at) && star in {[], [STAR]}
    ensures Closed(line, i)
  {
    if star != [] {
      assert line[i] == line[i..i + 1][0];
    }
  }

  /** A name that is written out fills its block exactly. */
  lemma ReadField(line: seq<byte>, c: Config, f: Name) returns (d: Config)
    requires Ready(line, c) && Writable(f) && Has(line, c.i, Show(f)) && Closed(line, c.i + |Show(f)|)
    ensures Inv(line, d) && Run(line, c) == Run(line, d) && SameSide(c, d) && Block(d) == Encoded(f)
    ensures d.mode == Exit || d.i == c.i + |Show(f)|
    ensures c.mode == Init ==> if Show(f) == [] || Bare(f) then d.mode == Init else d.mode in {Name1, Ext1}
  {
    hide Show, Padded, Inv, Run;
    ShowParts(line, c.i, f);
    d := ReadHead(line, c, f);
    d := ReadTail(line, d, f);
  }

  lemma ReadHead(line: seq<byte>, c: Config, f: Name) returns (d: Config)
    requires Ready(line, c) && Writable(f)
    requires var head := ShowDrive(f) + f.name;
      Has(line, c.i, head) && Closed(line, c.i + |head|) && Has(line, c.i + |head|, Starred(f.star))
    ensures Inv(line, d) && Run(line, c) == Run(line, d) && SameSide(c, d) && d.mode in {Init, Name1, Sep, Name2}
    ensures d.i == c.i + |ShowDrive(f) + f.name| + |Starred(f.star)|
    ensures Block(d) == [DriveByte(f)] + Padded(f.name, 8, f.star) + Padded([], 3, false)
    ensures c.mode == Init ==> d.mode == if f.drive == 0 && f.name == [] then Init else Name1
  {
    hide Run, Padded, Inv;
    d := ReadName(line, c, f);
    d := ReadStar(line, d, f);
  }

  lemma ReadTail(line: seq<byte>, c: Config, f: Name) returns (d: Config)
    requires Inv(line, c) && c.mode in {Init, Name1, Sep, Name2} && Writable(f)
    requires HasExt(f) ==> Has(line, c.i, [DOT] + f.ext)
    requires Has(line, c.i + (if HasExt(f) then 1 + |f.ext| else 0), Starred(f.extStar))
    requires Block(c) == [DriveByte(f)] + Padded(f.name, 8, f.star) + Padded([], 3, false)
    ensures Inv(line, d) && Run(line, c) == Run(line, d) && SameSide(c, d) && Block(d) == Encoded(f)
    ensures d.mode == Exit || d.i == c.i + |ShowExt(f)|
    ensures InFirst(c.mode) ==> d.mode == if HasExt(f) then Ext1 else c.mode
  {
    d := ReadExt(line, c, f);
    NameThenExt(DriveByte(f), f.name, f.star, f.ext);
    assert !HasExt(f) ==> Padded(f.ext, 3, false) == Padded([], 3, false);
    d := ReadExtStar(line, d, f);
  }

  // ---- the whole line ----

  lemma {:induction false} SkipSeparators(line: seq<byte>, c: Config, end: nat) returns (d: Config)
    requires Inv(line, c) && c.mode in {Init, Sep} && c.i <= end <= |line|
    requires forall k :: c.i <= k < end ==> Separator(line[k])
    ensures d == c.(i := end) && Inv(line, d) && Run(line, c) == Run(line, d)
    decreases end - c.i
  {
    d := c;
    if c.i < end {
      assert Step(line, c) == Next(c);
      d := SkipSeparators(line, Next(c), end);
    }
  }

  lemma EndFirst(line: seq<byte>, c: Config) returns (d: Config)
    requires Inv(line, c) && c.mode in {Name1, Ext1} && c.i < |line| && Separator(line[c.i])
    ensures d == Next(ToSecond(c, Sep)) && Inv(line, d) && Run(line, c) == Run(line, d)
  {
    d := Next(ToSecond(c, Sep));
    assert Step(line, c) == d;
  }

  lemma Layout(before: seq<byte>, f: Name, between: seq<byte>, g: Name)
    requires forall c :: c in before + between ==> Separator(c)
    ensures var line, i := before + Show(f) + between + Show(g), |before|;
      var j := i + |Show(f)|;
      var k := j + |between|;
      && Has(line, i, Show(f)) && Has(line, k, Show(g)) && k + |Show(g)| == |line|
      && (forall x :: 0 <= x < i || j <= x < k ==> Separator(line[x]))
  {
    var line, i, j := before + Show(f) + between + Show(g), |before|, |before| + |Show(f)|;
    forall x | 0 <= x < i || j <= x < j + |between| ensures Separator(line[x]) {
      assert line[x] == (if x < i then before[x] else between[x - j]);
      assert line[x] in before + between;
    }
  }

  /** Any separators, a name, at least one separator, a second name: the two blocks hold the two
      names, unless the first name is nothing but a star. */
  lemma RoundTrip(before: seq<byte>, f: Name, between: seq<byte>, g: Name)
    requires Writable(f) && Writable(g) && Show(f) != [] && !Bare(f) && between != []
    requires forall c :: c in before + between ==> Separator(c)
    ensures var r := Parsed(before + Show(f) + between + Show(g)); r.one == Encoded(f) && r.two == Encoded(g)
  {
    var i := |before|;
    Layout(before, f, between, g);
    ReadLine(before + Show(f) + between + Show(g), i, i + |Show(f)|, i + |Show(f)| + |between|, f, g);
  }

  lemma ReadLine(line: seq<byte>, i: nat, j: nat, k: nat, f: Name, g: Name)
    requires Writable(f) && Writable(g) && Show(f) != [] && !Bare(f) && i + |Show(f)| == j < k == |line| - |Show(g)|
    requires Has(line, i, Show(f)) && Has(line, k, Show(g))
    requires forall x :: 0 <= x < i || j <= x < k ==> Separator(line[x])
    ensures Parsed(line).one == Encoded(f) && Parsed(line).two == Encoded(g)
  {
    var c := SkipSeparators(line, Config(0, Init, 1, Blank(), Blank()), i);
    c := ReadField(line, c, f);
    c := EndFirst(line, c);
    c := SkipSeparators(line, c, k);
    c := ReadField(line, c, g);
    assert Run(line, c) == c;
  }

  // ---- a bare star ----

  /** Without a separator the parse never gets to the second block. */
  lemma {:induction false} NoSeparator(line: seq<byte>, c: Config)
    requires Inv(line, c) && (InFirst(c.mode) || c.mode == Purge)
    requires forall x :: c.i <= x < |line| ==> !Separator(line[x])
    ensures Run(line, c).two == c.two
    decreases |line| - c.i, Rank(c.mode)
  {
    if c.i < |line| {
      var d := Step(line, c);
      StaysFirst(line, c);
      NoSeparator(line, d);
    }
  }

  lemma StaysFirst(line: seq<byte>, c: Config)
    requires Inv(line, c) && (InFirst(c.mode) || c.mode == Purge) && c.i < |line| && !Separator(line[c.i])
    ensures var d := Step(line, c); d.two == c.two && (InFirst(d.mode) || d.mode == Purge)
  {
    if c.mode in {Name1, Ext1} {
      FillMarks(c, if c.mode == Name1 then if c.at < 9 then 9 else c.at else 12);
    }
  }

  lemma NoneInName(f: Name, x: nat)
    requires Writable(f) && x < |Show(f)|
    ensures !Separator(Show(f)[x])
  {
    var y := Show(f)[x];
    assert y in ShowDrive(f) || y in f.name || y in Starred(f.star) || y in ShowExt(f);
    assert y in ShowExt(f) ==> y == DOT || y in f.ext || y == STAR;
  }

  /** After a first name that is only a star the parser still looks for the first name: the second
      one goes there too, and the second block stays blank. */
  lemma BareStar(before: seq<byte>, f: Name, between: seq<byte>, g: Name)
    requires Writable(f) && Writable(g) && Bare(f) && between != []
    requires forall c :: c in before + between ==> Separator(c)
    ensures Parsed(before + Show(f) + between + Show(g)).two == Blank()
  {
    var i := |before|;
    Layout(before, f, between, g);
    ReadBare(before + Show(f) + between + Show(g), i, i + |Show(f)|, i + |Show(f)| + |between|, f, g);
  }

  lemma ReadBare(line: seq<byte>, i: nat, j: nat, k: nat, f: Name, g: Name)
    requires Writable(f) && Writable(g) && Bare(f) && i + |Show(f)| == j < k == |line| - |Show(g)|
    requires Has(line, i, Show(f)) && Has(line, k, Show(g))
    requires forall x :: 0 <= x < i || j <= x < k ==> Separator(line[x])
    ensures Parsed(line).two == Blank()
  {
    forall x | k <= x < |line| ensures !Separator(line[x]) {
      assert line[x] == line[k..k + |Show(g)|][x - k];
      NoneInName(g, x - k);
    }
    var c := SkipSeparators(line, Config(0, Init, 1, Blank(), Blank()), i);
    c := ReadField(line, c, f);
    c := SkipSeparators(line, c, k);
    NoSeparator(line, c);
  }

  /** So the round trip holds if and only if the first name is more than a star, for every second
      name that leaves something in its block. */
  lemma RoundTripExact(before: seq<byte>, f: Name, between: seq<byte>, g: Name)
    requires Writable(f) && Writable(g) && Show(f) != [] && between != [] && Encoded(g) != Blank()
    requires forall c :: c in before + between ==> Separator(c)
    ensures var r := Parsed(before + Show(f) + between + Show(g));
      (r.one == Encoded(f) && r.two == Encoded(g)) <==> !Bare(f)
  {
    if Bare(f) {
      BareStar(before, f, between, g);
    } else {
      RoundTrip(before, f, between, g);
    }
  }
}
