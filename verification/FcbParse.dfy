/** The command line read into two file control blocks (DOS 3 rules): a state machine with two
    transitions that read a character again. */
module FcbParse {
  import opened Words

  const DOT := 0x2E
  const PLUS := 0x2B
  const STAR := 0x2A
  const COLON := 0x3A
  const QUERY: byte := 0x3F
  const SPACE: byte := 0x20

  const FIELD := 12

  predicate Space(c: byte) {
    c == 0x20 || 0x09 <= c <= 0x0D
  }

  /** Space, comma, equals, semicolon, slash. */
  predicate Separator(c: byte) {
    Space(c) || c in {0x2C, 0x3D, 0x3B, 0x2F}
  }

  predicate Letter(c: byte) {
    0x41 <= c <= 0x5A || 0x61 <= c <= 0x7A
  }

  /** Letters, digits and !#$%&'()-@^_`{}~?<>; characters from 128 up are negative here, so never valid. */
  predicate Valid(c: byte) {
    || Letter(c) || 0x30 <= c <= 0x39
    || c == 0x21 || 0x23 <= c <= 0x29 || c in {0x2D, 0x3C, 0x3E, 0x3F, 0x40, 0x7B, 0x7D, 0x7E}
    || 0x5E <= c <= 0x60
  }

  function Upper(c: byte): byte {
    if 0x61 <= c <= 0x7A then c - 0x20 else c
  }

  /** Drive byte of a letter; other valid characters wrap to eight bits. */
  function Drive(c: byte): byte {
    (Upper(c) - 0x40) % 0x100
  }

  datatype Mode = Init | InitPlus | Name1 | Ext1 | Purge | Sep | SepPlus | Name2 | Ext2 | Exit

  /** Place in the line, mode, where the next character goes, and the two blocks. `at` counts in the
      first block up to mode Ext1 and in the second one from there on. */
  datatype Config = Config(i: nat, mode: Mode, at: nat, one: seq<byte>, two: seq<byte>)

  predicate InFirst(m: Mode) {
    m in {Init, InitPlus, Name1, Ext1}
  }

  /** Where the output pointer can stand in each mode. */
  predicate PlaceOk(m: Mode, at: nat) {
    match m
    case Init | InitPlus => at == 1 || at == 9
    case Name1 => 1 <= at <= 10
    case Ext1 | Ext2 => 9 <= at <= 12
    case Purge | Sep | SepPlus => at == 1
    case Name2 => 1 <= at <= 9
    case Exit => true
  }

  ghost predicate Inv(line: seq<byte>, c: Config) {
    c.i <= |line| && |c.one| == |c.two| == FIELD && PlaceOk(c.mode, c.at)
  }

  /** Puts v at the output pointer, which moves on. */
  function Put(c: Config, v: byte): Config
    requires |c.one| == |c.two| == FIELD && c.at < FIELD
  {
    if InFirst(c.mode) then c.(one := c.one[c.at := v], at := c.at + 1)
    else c.(two := c.two[c.at := v], at := c.at + 1)
  }

  /** Question marks up to (not at) a place. */
  function FillTo(c: Config, end: nat): (r: Config)
    requires |c.one| == |c.two| == FIELD && end <= FIELD
    ensures |r.one| == |r.two| == FIELD && r.mode == c.mode && r.i == c.i
    ensures r.at == if c.at < end then end else c.at
    decreases end - c.at
  {
    if c.at < end then FillTo(Put(c, QUERY), end) else c
  }

  function Questions(s: seq<byte>): (r: seq<byte>)
    requires |s| == FIELD
    ensures |r| == FIELD
  {
    s[..1] + seq(8, _ => QUERY) + s[9..]
  }

  /** On to the next character. */
  function Next(c: Config): Config {
    c.(i := c.i + 1)
  }

  function ToSecond(c: Config, m: Mode): Config {
    c.(mode := m, at := 1)
  }

  /** The first valid character of a name, or a drive when a colon follows. */
  function Begin(line: seq<byte>, c: Config): (r: Config)
    requires Inv(line, c) && c.i < |line| && c.mode in {Init, InitPlus, Sep, SepPlus}
    ensures c.i < r.i && Inv(line, r)
  {
    var first := InFirst(c.mode);
    var mode := if first then Name1 else Name2;
    if c.i + 1 < |line| && line[c.i + 1] == COLON then
      var d := c.(i := c.i + 2, mode := mode);
      if first then d.(one := d.one[0 := Drive(line[c.i])]) else d.(two := d.two[0 := Drive(line[c.i])])
    else Next(Put(c, Upper(line[c.i])).(mode := mode))
  }

  function StepInit(line: seq<byte>, c: Config): (r: Config)
    requires Inv(line, c) && c.i < |line| && c.mode in {Init, InitPlus}
    ensures Inv(line, r) && Before(line, r, c)
  {
    var x := line[c.i];
    if x == DOT then Next(c.(mode := Ext1, at := 9))
    else if x == PLUS then
      if c.mode == Init then Next(c.(mode := InitPlus)) else Next(ToSecond(c, Purge))
    else if x == STAR then Next(c.(one := Questions(c.one), at := 9))
    else if Separator(x) then
      if c.mode == InitPlus then ToSecond(c, Purge) else Next(c)
    else if Valid(x) then Begin(line, c)
    else Next(ToSecond(c, Purge))
  }

  function StepName1(line: seq<byte>, c: Config): (r: Config)
    requires Inv(line, c) && c.i < |line| && c.mode == Name1
    ensures Inv(line, r) && Before(line, r, c)
  {
    var x := line[c.i];
    if x == DOT then Next(c.(mode := Ext1, at := 9))
    else if x == STAR then Next(FillTo(c, 9))
    else if Separator(x) then Next(ToSecond(c, Sep))
    else if !Valid(x) then Next(ToSecond(c, Purge))
    else if c.at < 9 then Next(Put(c, Upper(x)))
    else Next(c)
  }

  function StepExt1(line: seq<byte>, c: Config): (r: Config)
    requires Inv(line, c) && c.i < |line| && c.mode == Ext1
    ensures Inv(line, r) && Before(line, r, c)
  {
    var x := line[c.i];
    if x == DOT then Next(ToSecond(c, Purge))
    else if x == STAR then Next(FillTo(c, 12))
    else if Separator(x) then Next(ToSecond(c, Sep))
    else if !Valid(x) then Next(ToSecond(c, Purge))
    else if c.at < 12 then Next(Put(c, Upper(x)))
    else Next(c)
  }

  function StepSep(line: seq<byte>, c: Config): (r: Config)
    requires Inv(line, c) && c.i < |line| && c.mode in {Sep, SepPlus}
    ensures Inv(line, r) && Before(line, r, c)
  {
    var x := line[c.i];
    if x == DOT then Next(c.(mode := Ext2, at := 9))
    else if x == PLUS then
      if c.mode == Sep then Next(c.(mode := SepPlus)) else c.(mode := Exit)
    else if x == STAR then Next(c.(two := Questions(c.two)))
    else if Separator(x) then
      if c.mode == SepPlus then c.(mode := Exit) else Next(c)
    else if Valid(x) then Begin(line, c)
    else c.(mode := Exit)
  }

  function StepName2(line: seq<byte>, c: Config): (r: Config)
    requires Inv(line, c) && c.i < |line| && c.mode == Name2
    ensures Inv(line, r) && Before(line, r, c)
  {
    var x := line[c.i];
    if x == DOT then Next(c.(mode := Ext2, at := 9))
    else if x == STAR then Next(FillTo(c, 9))
    else if !Valid(x) then c.(mode := Exit)
    else if c.at < 9 then Next(Put(c, Upper(x)))
    else Next(c)
  }

  function StepExt2(line: seq<byte>, c: Config): (r: Config)
    requires Inv(line, c) && c.i < |line| && c.mode == Ext2
    ensures Inv(line, r) && Before(line, r, c)
  {
    var x := line[c.i];
    if x == STAR then FillTo(c, 12).(mode := Exit)
    else if !Valid(x) then c.(mode := Exit)
    else if c.at < 12 then Next(Put(c, Upper(x)))
    else Next(c)
  }

  /** One turn of the parser's loop. A separator in mode Purge is read again in mode Sep. */
  function Step(line: seq<byte>, c: Config): (r: Config)
    requires Inv(line, c) && c.i < |line| && c.mode != Exit
    ensures Inv(line, r) && Before(line, r, c)
  {
    match c.mode
    case Init | InitPlus => StepInit(line, c)
    case Name1 => StepName1(line, c)
    case Ext1 => StepExt1(line, c)
    case Purge => if Separator(line[c.i]) then c.(mode := Sep) else Next(c)
    case Sep | SepPlus => StepSep(line, c)
    case Name2 => StepName2(line, c)
    case Ext2 => StepExt2(line, c)
    case Exit => c
  }

  /** Second component of the measure: the modes that may read a character again come first. */
  function Rank(m: Mode): nat {
    match m
    case InitPlus => 2
    case Purge => 1
    case _ => 0
  }

  /** A turn reads on, or keeps its place and goes down in rank, or leaves the loop. */
  predicate Before(line: seq<byte>, r: Config, c: Config) {
    r.mode == Exit || c.i < r.i || (c.i == r.i && Rank(r.mode) < Rank(c.mode))
  }

  /** The loop to its end. */
  function Run(line: seq<byte>, c: Config): (r: Config)
    requires Inv(line, c)
    ensures Inv(line, r) && (r.mode == Exit || r.i == |line|)
    decreases if c.mode == Exit then 0 else |line| - c.i + 1, Rank(c.mode)
  {
    if c.mode == Exit || c.i == |line| then c else Run(line, Step(line, c))
  }

  /** Both blocks before the first character. */
  function Blank(): seq<byte> {
    [0] + seq(11, _ => SPACE)
  }

  function Parsed(line: seq<byte>): Config {
    Run(line, Config(0, Init, 1, Blank(), Blank()))
  }
}
