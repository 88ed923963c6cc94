/** Model of args.c: the stty-style character notation decoder (parse_char) and
    the left-to-right option scanner (parse_args) that edits a terminal
    configuration, a device name and the attach flag. */
module Args {

  datatype Option<T> = None | Some(value: T)

  // ---------------------------------------------------------------------------
  // Command-line arguments and C characters
  // ---------------------------------------------------------------------------

  /** A command-line argument is a C string: bytes 1..255, never NUL. */
  predicate IsArg(s: string) {
    forall k :: 0 <= k < |s| ==> 0 < s[k] as int < 0x100
  }

  predicate IsAscii(s: string) {
    forall k :: 0 <= k < |s| ==> 0 < s[k] as int < 0x80
  }

  predicate AllArgs(argv: seq<string>) {
    forall k :: 0 <= k < |argv| ==> IsArg(argv[k])
  }

  /** The value of a `char` copied into an `int`: where `char` is signed,
      the bytes 0x80..0xFF become negative. */
  function CharValue(c: char, signed: bool): int
    requires 0 < c as int < 0x100
  {
    if signed && c as int >= 0x80 then c as int - 0x100 else c as int
  }

  // ---------------------------------------------------------------------------
  // parse_char
  // ---------------------------------------------------------------------------

  /** The error result of parse_char. */
  const Invalid: int := -1

  predicate HasMetaPrefix(s: string) {
    |s| >= 2 && s[0] == 'M' && s[1] == '-'
  }

  /** The `^X` control notation: `^?` is DEL, `^@`..`^_` are 0x00..0x1F. */
  function Control(chr: int): Option<int> {
    if chr == '?' as int then Some(0x7F)
    else if chr - 0x40 < 0 || chr - 0x40 >= 32 then None
    else Some(chr - 0x40)
  }

  /** The character denoted by what follows the optional `M-` prefix
      (None when parse_char rejects it). */
  function Unmeta(t: string, signed: bool): Option<int>
    requires IsArg(t) && |t| > 0
  {
    if t[0] == '^' then
      if |t| == 1 then Some('^' as int)
      else if |t| > 2 then None
      else Control(CharValue(t[1], signed))
    else if |t| > 1 then None
    else Some(CharValue(t[0], signed))
  }

  /** parse_char: the byte value a notation denotes, or Invalid. A result of
      Invalid is also what a signed-char platform yields for the byte 0xFF. */
  function ParseChar(s: string, signed: bool): (r: int)
    requires IsArg(s) && |s| > 0
    ensures r == Invalid || -0x80 <= r < 0x100
    ensures !signed ==> r == Invalid || 0 <= r
  {
    if HasMetaPrefix(s) then
      if |s| == 2 then Invalid
      else match Unmeta(s[2..], signed)
        case None => Invalid
        case Some(chr) => if chr >= 0x80 then Invalid else chr + 0x80
    else match Unmeta(s, signed)
      case None => Invalid
      case Some(chr) => chr
  }

  /** What is left of a notation after the optional `M-` and `^` prefixes. */
  function Payload(s: string): string {
    var t := if HasMetaPrefix(s) then s[2..] else s;
    if |t| > 0 && t[0] == '^' then t[1..] else t
  }

  /** A lone `M-` is rejected. */
  lemma MetaAloneRejected(signed: bool)
    ensures ParseChar("M-", signed) == Invalid
  {
  }

  /** `^c`: DEL for `?`, c - 0x40 for c in 0x40..0x5F, rejected otherwise;
      a lone `^` is the caret itself. Holds for every byte c on either
      signedness. */
  lemma CaretNotation(c: char, signed: bool)
    requires 0 < c as int < 0x100
    ensures ParseChar(['^', c], signed) ==
      if c == '?' then 0x7F
      else if 0x40 <= c as int < 0x60 then c as int - 0x40
      else Invalid
    ensures ParseChar("^", signed) == '^' as int
  {
  }

  /** More than one character after the prefixes is rejected. */
  lemma TooManyCharacters(s: string, signed: bool)
    requires IsArg(s) && |s| > 0 && |Payload(s)| > 1
    ensures ParseChar(s, signed) == Invalid
  {
  }

  /** A single character without prefix stands for itself, read as a C
      char: on signed char the bytes 0x80..0xFF are negative. */
  lemma PlainCharacter(c: char, signed: bool)
    requires 0 < c as int < 0x100 && c != '^'
    ensures ParseChar([c], signed) == CharValue(c, signed)
  {
  }

  /** `M-` adds 0x80 to a value below 0x80 and rejects anything else. The
      one exception is the byte 0xFF given literally on signed char: alone it
      reads as -1, the error result, while `M-` accepts it (0x7F). */
  lemma MetaAddsHighBit(t: string, signed: bool)
    requires IsArg(t) && |t| > 0 && !HasMetaPrefix(t)
    requires !signed || t != [0xFF as char]
    ensures IsArg("M-" + t)
    ensures ParseChar("M-" + t, signed) ==
      var v := ParseChar(t, signed);
      if v == Invalid || v >= 0x80 then Invalid else v + 0x80
  {
    var s := "M-" + t;
    assert s[2..] == t;
    assert HasMetaPrefix(s) && |s| > 2;
  }

  /** Results on ASCII input (and on any input where char is unsigned) are
      bytes; for ASCII input the high bit is set exactly by the `M-` prefix. */
  lemma ResultRange(s: string, signed: bool)
    requires IsArg(s) && |s| > 0
    ensures var r := ParseChar(s, signed);
      (!signed || IsAscii(s)) && r != Invalid ==>
        0 <= r < 0x100 && (HasMetaPrefix(s) ==> 0x80 <= r)
    ensures var r := ParseChar(s, signed);
      IsAscii(s) && r != Invalid ==> (0x80 <= r <==> HasMetaPrefix(s))
  {
    var t := if HasMetaPrefix(s) then s[2..] else s;
    if IsAscii(s) && |t| > 0 {
      assert 0 < t[0] as int < 0x80;
      assert |t| > 1 ==> 0 < t[1] as int < 0x80;
    }
  }

  /** ASCII notations mean the same whatever the signedness of char. */
  lemma SignednessIrrelevantForAscii(s: string)
    requires IsAscii(s) && |s| > 0
    ensures ParseChar(s, true) == ParseChar(s, false)
  {
    var t := if HasMetaPrefix(s) then s[2..] else s;
    if |t| > 0 {
      assert 0 < t[0] as int < 0x80;
      assert |t| > 1 ==> 0 < t[1] as int < 0x80;
    }
  }

  /** On a signed-char platform `M-` followed by a byte >= 0x80 is accepted
      and yields that byte minus 0x80; unsigned, it is rejected. A lone 0xFF
      is indistinguishable from the error result when char is signed. */
  lemma SignednessMatters()
    ensures ParseChar(['M', '-', 0xE9 as char], true) == 0x69
    ensures ParseChar(['M', '-', 0xE9 as char], false) == Invalid
    ensures ParseChar([0xFF as char], true) == Invalid
    ensures ParseChar([0xFF as char], false) == 0xFF
  {
  }

  /** The stty-style notation of a byte: the inverse of parse_char. */
  function Notation(v: int): (s: string)
    requires 0 <= v < 0x100
    decreases v
  {
    if v >= 0x80 then "M-" + Notation(v - 0x80)
    else if v == 0x7F then "^?"
    else if v < 0x20 then ['^', (v + 0x40) as char]
    else [v as char]
  }

  lemma UnmetaNotation(v: int, signed: bool)
    requires 0 <= v < 0x80
    ensures IsAscii(Notation(v)) && |Notation(v)| > 0 && !HasMetaPrefix(Notation(v))
    ensures Unmeta(Notation(v), signed) == Some(v)
  {
  }

  /** Every byte value has a notation, written in ASCII, that parse_char
      reads back to exactly that byte on either signedness. */
  lemma {:induction false} NotationRoundTrip(v: int, signed: bool)
    requires 0 <= v < 0x100
    ensures IsAscii(Notation(v)) && IsArg(Notation(v)) && |Notation(v)| > 0
    ensures ParseChar(Notation(v), signed) == v
  {
    if v >= 0x80 {
      UnmetaNotation(v - 0x80, signed);
      var t := Notation(v - 0x80);
      assert Notation(v) == "M-" + t;
      assert Notation(v)[2..] == t;
    } else {
      UnmetaNotation(v, signed);
    }
  }

  // ---------------------------------------------------------------------------
  // The terminal configuration and the name tables
  // ---------------------------------------------------------------------------

  /** The mode-flag words of struct termios that parse_args can address. */
  datatype Field = IFlag | OFlag | LFlag

  /** The control-character slots of c_cc that have a name. */
  datatype Slot = VEOF | VERASE | VINTR | VKILL | VLNEXT | VQUIT | VSUSP | VSTOP | VSTART

  /** A tcflag_t word as the set of positions of its one bits: `|` is
      union, `& ~` is difference and `&` is intersection. */
  type Bits = set<nat>

  /** A cc_t value: an unsigned char. */
  newtype Byte = x: int | 0 <= x < 0x100

  datatype Termios = Termios(iflag: Bits, oflag: Bits, cflag: Bits, lflag: Bits, cc: map<Slot, Byte>)

  // Mask values as on Linux (INLCR is 0x40, bit 6, and so on); the model
  // relies only on the tables below.
  const INLCR: Bits := {6}
  const IGNCR: Bits := {7}
  const ICRNL: Bits := {8}
  const IUCLC: Bits := {9}
  const IXON: Bits := {10}
  const IXOFF: Bits := {12}
  const OLCUC: Bits := {1}
  const ONLCR: Bits := {2}
  const OCRNL: Bits := {3}
  const ISIG: Bits := {0}
  const ICANON: Bits := {1}
  const ECHO: Bits := {3}
  const ECHOK: Bits := {5}
  const TOSTOP: Bits := {8}
  const ECHOCTL: Bits := {9}
  const IEXTEN: Bits := {15}

  /** _POSIX_VDISABLE as on Linux. */
  const VDisable: Byte := 0

  const IFlags: seq<(string, Bits)> := [
    ("inlcr", INLCR), ("icrnl", ICRNL), ("igncr", IGNCR), ("iuclc", IUCLC),
    ("ixon", IXON), ("ixoff", IXOFF), ("ixoff", IXOFF)]

  const OFlags: seq<(string, Bits)> := [("olcuc", OLCUC), ("onlcr", ONLCR), ("ocrnl", OCRNL)]

  const LFlags: seq<(string, Bits)> := [
    ("isig", ISIG), ("icanon", ICANON), ("iexten", IEXTEN), ("echo", ECHO),
    ("echok", ECHOK), ("echoctl", ECHOCTL), ("tostop", TOSTOP)]

  const Ccs: seq<(string, Slot)> := [
    ("veof", VEOF), ("verase", VERASE), ("vintr", VINTR), ("vkill", VKILL),
    ("vlnext", VLNEXT), ("vquit", VQUIT), ("vsusp", VSUSP), ("vstop", VSTOP),
    ("vstart", VSTART)]

  /** The index of the first row named `name`, or |table| when none is. */
  function FirstMatch<V>(table: seq<(string, V)>, name: string): nat {
    if table == [] then 0
    else if table[0].0 == name then 0
    else 1 + FirstMatch(table[1..], name)
  }

  /** FirstMatch finds the first row with that name, if there is one. */
  lemma {:induction false} FirstMatchSpec<V>(table: seq<(string, V)>, name: string)
    ensures var k := FirstMatch(table, name);
            k <= |table| && (k < |table| ==> table[k].0 == name) &&
            forall j :: 0 <= j < k ==> table[j].0 != name
  {
    if table != [] && table[0].0 != name {
      FirstMatchSpec(table[1..], name);
      var k := FirstMatch(table[1..], name);
      forall j | 0 <= j < k + 1 ensures table[j].0 != name {
        if j > 0 { assert table[j] == table[1..][j - 1]; }
      }
    }
  }

  /** The value of the first row named `name`. */
  function Lookup<V>(table: seq<(string, V)>, name: string): Option<V> {
    var k := FirstMatch(table, name);
    if k < |table| then Some(table[k].1) else None
  }

  /** A lookup fails exactly when no row has the name, and a value found
      belongs to a row with that name. */
  lemma LookupSpec<V>(table: seq<(string, V)>, name: string)
    ensures Lookup(table, name).None? <==> forall k :: 0 <= k < |table| ==> table[k].0 != name
    ensures Lookup(table, name).Some? ==> (name, Lookup(table, name).value) in table
  {
    FirstMatchSpec(table, name);
  }

  /** A scan of a name table that stops at the first match. */
  method Search<V>(table: seq<(string, V)>, name: string) returns (r: Option<V>)
    ensures r == Lookup(table, name)
  {
    FirstMatchSpec(table, name);
    var j := 0;
    while j < |table|
      invariant 0 <= j <= |table|
      invariant forall i :: 0 <= i < j ==> table[i].0 != name
    {
      if table[j].0 == name {
        return Some(table[j].1);
      }
      j := j + 1;
    }
    return None;
  }

  /** The field and mask a flag name selects. The tables are searched in the
      order i, o, l, and a later match overrides an earlier one. */
  function FlagLookup(name: string): Option<(Field, Bits)> {
    match Lookup(LFlags, name)
    case Some(m) => Some((LFlag, m))
    case None =>
      match Lookup(OFlags, name)
      case Some(m) => Some((OFlag, m))
      case None =>
        match Lookup(IFlags, name)
        case Some(m) => Some((IFlag, m))
        case None => None
  }

  /** The three flag-table scans of parse_args, each match overriding the
      field and value an earlier one chose. */
  method FindFlag(name: string) returns (field: Option<Field>, value: Bits)
    ensures FlagLookup(name) == if field.Some? then Some((field.value, value)) else None
  {
    field, value := None, {};
    var found := Search(IFlags, name);
    if found.Some? {
      field, value := Some(IFlag), found.value;
    }
    found := Search(OFlags, name);
    if found.Some? {
      field, value := Some(OFlag), found.value;
    }
    found := Search(LFlags, name);
    if found.Some? {
      field, value := Some(LFlag), found.value;
    }
  }

  /** Every name in a table has at least four letters and starts with one
      of `initials`. */
  predicate NameShape<V>(table: seq<(string, V)>, initials: string) {
    forall k :: 0 <= k < |table| ==> |table[k].0| >= 4 && table[k].0[0] in initials
  }

  /** A name found in a table of that shape has that shape too. */
  lemma ShapedLookup<V>(table: seq<(string, V)>, initials: string, name: string)
    requires NameShape(table, initials)
    ensures Lookup(table, name).Some? ==> |name| >= 4 && name[0] in initials
  {
    LookupSpec(table, name);
    if Lookup(table, name).Some? {
      var k :| 0 <= k < |table| && table[k] == (name, Lookup(table, name).value);
    }
  }

  /** Flag names start with e, i, o or t and control-character names with v,
      so no name is in both kinds of table and none is `attach`. */
  lemma NameShapes(name: string)
    ensures FlagLookup(name).Some? ==> |name| >= 4 && name[0] in "eiot"
    ensures Lookup(Ccs, name).Some? ==> |name| >= 4 && name[0] == 'v'
  {
    assert NameShape(IFlags, "i");
    assert NameShape(OFlags, "o");
    assert NameShape(LFlags, "eit");
    assert NameShape(Ccs, "v");
    ShapedLookup(IFlags, "i", name);
    ShapedLookup(OFlags, "o", name);
    ShapedLookup(LFlags, "eit", name);
    ShapedLookup(Ccs, "v", name);
  }

  /** A name too short, or with the wrong initial, for either table names
      nothing: `attach`, for one, is not a flag or a control character. */
  lemma NoSuchName(name: string)
    requires |name| < 4 || name[0] !in "eiotv"
    ensures FlagLookup(name) == None && Lookup(Ccs, name) == None
  {
    NameShapes(name);
  }

  /** The control-character table names each slot once, so a scan of it
      without a `break` acts on at most one row. */
  lemma CcNamesDistinct()
    ensures forall j, k :: 0 <= j < k < |Ccs| ==> Ccs[j].0 != Ccs[k].0
  {
  }

  function Get(t: Termios, f: Field): Bits {
    match f
    case IFlag => t.iflag
    case OFlag => t.oflag
    case LFlag => t.lflag
  }

  /** The configuration with field f replaced by v. */
  function Put(t: Termios, f: Field, v: Bits): (r: Termios)
    ensures Get(r, f) == v
    ensures forall g :: g != f ==> Get(r, g) == Get(t, g)
    ensures r.cflag == t.cflag && r.cc == t.cc
  {
    match f
    case IFlag => t.(iflag := v)
    case OFlag => t.(oflag := v)
    case LFlag => t.(lflag := v)
  }

  /** `v |= m` (on) or `v &= ~m` (off): afterwards the mask's bits are all
      set (on) or all clear (off) and every other bit is as it was. */
  function Update(v: Bits, m: Bits, on: bool): (w: Bits)
    ensures w * m == if on then m else {}
    ensures w - m == v - m
  {
    if on then v + m else v - m
  }

  /** Of two directives for the same mask, the later one decides. */
  lemma UpdateLastWins(v: Bits, m: Bits, first: bool, second: bool)
    ensures Update(Update(v, m, first), m, second) == Update(v, m, second)
  {
  }

  /** The flag directive's effect on the configuration: Update on the
      selected field. */
  function SetFlag(t: Termios, f: Field, m: Bits, on: bool): Termios {
    Put(t, f, Update(Get(t, f), m, on))
  }

  /** SetFlag sets or clears the mask's bits in the selected field and
      touches nothing else: the field's other bits, the other two flag
      fields, cflag and the control characters are as they were. */
  lemma SetFlagEffect(t: Termios, f: Field, m: Bits, on: bool)
    ensures var r := SetFlag(t, f, m, on);
      Get(r, f) * m == (if on then m else {}) && Get(r, f) - m == Get(t, f) - m
    ensures var r := SetFlag(t, f, m, on);
      (forall g :: g != f ==> Get(r, g) == Get(t, g)) && r.cflag == t.cflag && r.cc == t.cc
  {
  }

  /** The cc_t byte stored from parse_char's int result. */
  function CcByte(c: int): (b: Byte)
    ensures 0 <= c < 0x100 ==> b as int == c
    ensures -0x80 <= c < 0 ==> b as int == c + 0x100
  {
    (c % 0x100) as Byte
  }

  // ---------------------------------------------------------------------------
  // parse_args
  // ---------------------------------------------------------------------------

  /** What parse_args has built so far: *T, *tty, *attach and end_of_options. */
  datatype ScanState = ScanState(t: Termios, tty: Option<string>, attach: bool, endOfOptions: bool)

  /** One pass of the loop body: continue at `next`, or `return -1`. */
  datatype Progress = Next(next: nat, st: ScanState) | Stop(st: ScanState)

  datatype Scan = Scan(ok: bool, st: ScanState)

  /** The outcome of parse_args: its return value and its three outputs. */
  datatype Parsed = Parsed(rc: int, t: Termios, tty: Option<string>, attach: bool)

  predicate IsOptionLike(arg: string) {
    |arg| > 0 && (arg[0] == '+' || arg[0] == '-')
  }

  /** A filename argument: accepted only while no filename has been seen. */
  function TakeFile(st: ScanState, arg: string, i: nat): (p: Progress)
    ensures p.Next? <==> st.tty.None?
    ensures p.Stop? ==> p.st == st
    ensures p.Next? ==> p.next == i + 1 && p.st == st.(tty := Some(arg))
  {
    if st.tty.Some? then Stop(st) else Next(i + 1, st.(tty := Some(arg)))
  }

  /** The loop body of parse_args for argv[i]. */
  function ArgStep(argv: seq<string>, i: nat, st: ScanState, signed: bool): (p: Progress)
    requires AllArgs(argv) && 1 <= i < |argv|
    ensures p.Next? ==> i < p.next <= |argv|
    ensures p.st.tty == st.tty || p.st.tty == Some(argv[i])
    ensures p.st.attach ==> st.attach || argv[i] == "-attach"
    ensures p.st.t.cflag == st.t.cflag
  {
    var arg := argv[i];
    if st.endOfOptions then TakeFile(st, arg, i)
    else if arg == "--" then Next(i + 1, st.(endOfOptions := true))
    else if IsOptionLike(arg) then OptionStep(argv, i, st, signed)
    else TakeFile(st, arg, i)
  }

  /** An argument starting with `+` or `-`: a mode flag, else a control
      character, else `-attach`, else an error. */
  function OptionStep(argv: seq<string>, i: nat, st: ScanState, signed: bool): (p: Progress)
    requires AllArgs(argv) && 1 <= i < |argv| && IsOptionLike(argv[i])
    ensures p.Next? ==> i < p.next <= |argv|
    ensures p.st.tty == st.tty && p.st.endOfOptions == st.endOfOptions
    ensures p.st.attach ==> st.attach || argv[i] == "-attach"
    ensures p.st.t.cflag == st.t.cflag
  {
    var arg := argv[i];
    match FlagLookup(arg[1..])
    case Some((f, m)) => Next(i + 1, st.(t := SetFlag(st.t, f, m, arg[0] == '+')))
    case None =>
      match Lookup(Ccs, arg[1..])
      case Some(slot) => CcStep(argv, i, st, signed, slot)
      case None =>
        if arg == "-attach" then Next(i + 1, st.(attach := true)) else Stop(st)
  }

  /** `-vname` disables the slot; `+vname X` sets it from the next argument. */
  function CcStep(argv: seq<string>, i: nat, st: ScanState, signed: bool, slot: Slot): (p: Progress)
    requires AllArgs(argv) && 1 <= i < |argv| && IsOptionLike(argv[i])
    ensures p.Next? ==> i < p.next <= |argv|
    ensures p.Stop? ==> p.st == st
    ensures p.Next? ==> slot in p.st.t.cc && p.st == st.(t := st.t.(cc := st.t.cc[slot := p.st.t.cc[slot]]))
    ensures p.Next? && argv[i][0] == '-' ==> p.next == i + 1 && p.st.t.cc[slot] == VDisable
    ensures p.Next? && argv[i][0] == '+' ==> p.next == i + 2
  {
    if argv[i][0] == '-' then Next(i + 1, st.(t := st.t.(cc := st.t.cc[slot := VDisable])))
    else if i + 1 == |argv| then Stop(st)
    else if |argv[i + 1]| == 0 then Stop(st)
    else
      var c := ParseChar(argv[i + 1], signed);
      if c == Invalid then Stop(st)
      else Next(i + 2, st.(t := st.t.(cc := st.t.cc[slot := CcByte(c)])))
  }

  /** The rest of the loop from argv[i] on. No directive names cflag, so
      the scan never changes it. */
  function ScanFrom(argv: seq<string>, i: nat, st: ScanState, signed: bool): (r: Scan)
    requires AllArgs(argv) && 1 <= i
    ensures r.st.t.cflag == st.t.cflag
    decreases |argv| - i
  {
    if i >= |argv| then Scan(true, st)
    else match ArgStep(argv, i, st, signed)
      case Stop(s) => Scan(false, s)
      case Next(j, s) => ScanFrom(argv, j, s, signed)
  }

  function Start(t0: Termios): ScanState {
    ScanState(t0, None, false, false)
  }

  function Run(argv: seq<string>, t0: Termios, signed: bool): (r: Scan)
    requires AllArgs(argv)
    ensures r.st.t.cflag == t0.cflag
  {
    ScanFrom(argv, 1, Start(t0), signed)
  }

  function Parse(argv: seq<string>, t0: Termios, signed: bool): (r: Parsed)
    requires AllArgs(argv)
    ensures r.rc == 0 || r.rc == -1
    ensures r.t.cflag == t0.cflag
  {
    var r := Run(argv, t0, signed);
    Parsed(if r.ok then 0 else -1, r.st.t, r.st.tty, r.st.attach)
  }

  /** The `+name`/`-name` branch of the loop body of parse_args: a mode
      flag, else a control character (consuming the next argument for
      `+vname`), else `-attach`, else failure. */
  method ParseOption(argv: seq<string>, i: nat, st: ScanState, signed: bool) returns (p: Progress)
    requires AllArgs(argv) && 1 <= i < |argv| && IsOptionLike(argv[i])
    ensures p == OptionStep(argv, i, st, signed)
  {
    var arg := argv[i];
    var t := st.t;
    var name := arg[1..];
    var field, value := FindFlag(name);
    if field.Some? {
      t := SetFlag(t, field.value, value, arg[0] == '+');
      return Next(i + 1, st.(t := t));
    }
    var slot := Search(Ccs, name);
    if slot.Some? {
      if arg[0] == '-' {
        t := t.(cc := t.cc[slot.value := VDisable]);
        return Next(i + 1, st.(t := t));
      } else if i + 1 == |argv| {
        return Stop(st);
      }
      var c := if |argv[i + 1]| == 0 then Invalid else ParseChar(argv[i + 1], signed);
      if c == Invalid {
        return Stop(st);
      }
      t := t.(cc := t.cc[slot.value := CcByte(c)]);
      return Next(i + 2, st.(t := t));
    }
    if arg == "-attach" {
      return Next(i + 1, st.(attach := true));
    }
    return Stop(st);
  }

  /** parse_args: scans argv[1..] left to right, editing t (a copy of *T),
      tty and attach; on failure the edits made so far remain. */
  method ParseArgs(argv: seq<string>, t0: Termios, signed: bool)
    returns (rc: int, t: Termios, tty: Option<string>, attach: bool)
    requires AllArgs(argv)
    ensures Parsed(rc, t, tty, attach) == Parse(argv, t0, signed)
  {
    attach := false;
    tty := None;
    t := t0;
    var endOfOptions := false;
    var i := 1;
    while i < |argv|
      invariant 1 <= i
      invariant Run(argv, t0, signed) == ScanFrom(argv, i, ScanState(t, tty, attach, endOfOptions), signed)
      decreases |argv| - i
    {
      var arg := argv[i];
      ghost var i0, st0 := i, ScanState(t, tty, attach, endOfOptions);
      if endOfOptions {
        if tty.Some? {
          assert ArgStep(argv, i0, st0, signed) == Stop(st0);
          return -1, t, tty, attach;
        }
        tty := Some(arg);
      } else if arg == "--" {
        endOfOptions := true;
      } else if IsOptionLike(arg) {
        var p := ParseOption(argv, i, ScanState(t, tty, attach, endOfOptions), signed);
        if p.Stop? {
          assert ArgStep(argv, i0, st0, signed) == Stop(st0);
          return -1, t, tty, attach;
        }
        t, attach := p.st.t, p.st.attach;
        i := p.next - 1;
      } else {
        if tty.Some? {
          assert ArgStep(argv, i0, st0, signed) == Stop(st0);
          return -1, t, tty, attach;
        }
        tty := Some(arg);
      }
      i := i + 1;
      assert ArgStep(argv, i0, st0, signed) == Next(i, ScanState(t, tty, attach, endOfOptions));
    }
    return 0, t, tty, attach;
  }

  // ---------------------------------------------------------------------------
  // Properties of parse_args
  // ---------------------------------------------------------------------------

  /** With no arguments after the program name nothing changes and the
      result is success with no device and no attach. */
  lemma NoArguments(argv: seq<string>, t0: Termios, signed: bool)
    requires AllArgs(argv) && |argv| <= 1
    ensures Parse(argv, t0, signed) == Parsed(0, t0, None, false)
  {
  }

  lemma AllArgsAppend(a: seq<string>, b: seq<string>)
    requires AllArgs(a) && AllArgs(b)
    ensures AllArgs(a + b)
  {
    forall k | 0 <= k < |a + b| ensures IsArg((a + b)[k]) {
      if k < |a| { assert (a + b)[k] == a[k]; } else { assert (a + b)[k] == b[k - |a|]; }
    }
  }

  /** A step that succeeds on argv reads nothing beyond it, so it is the
      same step on any extension of argv. */
  lemma StepExtends(a: seq<string>, b: seq<string>, i: nat, st: ScanState, signed: bool)
    requires AllArgs(a) && AllArgs(b) && 1 <= i < |a|
    requires ArgStep(a, i, st, signed).Next?
    ensures AllArgs(a + b)
    ensures ArgStep(a + b, i, st, signed) == ArgStep(a, i, st, signed)
  {
    AllArgsAppend(a, b);
    assert (a + b)[i] == a[i];
    if i + 1 < |a| {
      assert (a + b)[i + 1] == a[i + 1];
    }
  }

  /** Inside a scan of argv that succeeds, the step at i moves on, and both
      argv and any extension of it continue from where that step leaves. */
  lemma StepOnExtension(a: seq<string>, b: seq<string>, i: nat, st: ScanState, signed: bool) returns (p: Progress)
    requires AllArgs(a) && AllArgs(b) && 1 <= i < |a|
    requires ScanFrom(a, i, st, signed).ok
    ensures AllArgs(a + b)
    ensures p.Next? && i < p.next <= |a| && p == ArgStep(a, i, st, signed)
    ensures ScanFrom(a, i, st, signed) == ScanFrom(a, p.next, p.st, signed)
    ensures ScanFrom(a + b, i, st, signed) == ScanFrom(a + b, p.next, p.st, signed)
  {
    p := ArgStep(a, i, st, signed);
    StepExtends(a, b, i, st, signed);
  }

  /** A scan of argv that succeeds leaves the scan of argv + b exactly at the
      end of argv, in the state the scan of argv ended in. */
  lemma {:induction false} ScanAppend(a: seq<string>, b: seq<string>, i: nat, st: ScanState, signed: bool)
    requires AllArgs(a) && AllArgs(b) && 1 <= i <= |a|
    requires ScanFrom(a, i, st, signed).ok
    ensures AllArgs(a + b)
    ensures ScanFrom(a + b, i, st, signed) == ScanFrom(a + b, |a|, ScanFrom(a, i, st, signed).st, signed)
    decreases |a| - i
  {
    AllArgsAppend(a, b);
    if i < |a| {
      var p := StepOnExtension(a, b, i, st, signed);
      ScanAppend(a, b, p.next, p.st, signed);
    }
  }

  lemma RunAppend(a: seq<string>, b: seq<string>, t0: Termios, signed: bool)
    requires AllArgs(a) && AllArgs(b) && |a| >= 1
    requires Run(a, t0, signed).ok
    ensures AllArgs(a + b)
    ensures Run(a + b, t0, signed) == ScanFrom(a + b, |a|, Run(a, t0, signed).st, signed)
  {
    ScanAppend(a, b, 1, Start(t0), signed);
  }

  // Each directive below is stated at an arbitrary position i of argv and
  // an arbitrary scan state: the scan from argv[i] is the scan from the
  // next unconsumed argument in the updated state, or fails there with the
  // state unchanged. With ScanAppend this covers a directive following any
  // successful prefix.

  /** `+name` sets and `-name` clears a mode flag's mask in exactly its
      field (SetFlag, SetFlagEffect) and the scan goes on. */
  lemma FlagDirective(argv: seq<string>, i: nat, st: ScanState, signed: bool, f: Field, m: Bits)
    requires AllArgs(argv) && 1 <= i < |argv| && !st.endOfOptions
    requires IsOptionLike(argv[i]) && FlagLookup(argv[i][1..]) == Some((f, m))
    ensures ScanFrom(argv, i, st, signed) ==
            ScanFrom(argv, i + 1, st.(t := SetFlag(st.t, f, m, argv[i][0] == '+')), signed)
  {
    if |argv[i]| == 2 {
      NoSuchName(argv[i][1..]);
    }
    var p := Next(i + 1, st.(t := SetFlag(st.t, f, m, argv[i][0] == '+')));
    assert OptionStep(argv, i, st, signed) == p;
    assert ArgStep(argv, i, st, signed) == p;
  }

  /** argv[k] names a mode flag of field f whose mask shares a bit with m. */
  predicate Touches(argv: seq<string>, k: nat, f: Field, m: Bits)
    requires k < |argv|
  {
    IsOptionLike(argv[k]) && FlagLookup(argv[k][1..]).Some? &&
    FlagLookup(argv[k][1..]).value.0 == f && FlagLookup(argv[k][1..]).value.1 * m != {}
  }

  /** Bits outside a mask n are kept by an update of n. */
  lemma DisjointBitsKept(v: Bits, w: Bits, n: Bits, m: Bits)
    requires n * m == {} && w - n == v - n
    ensures w * m == v * m
  {
    forall b | b in m
      ensures b in w <==> b in v
    {
      assert b !in n * m;
      assert b in w - n <==> b in v - n;
    }
  }

  /** An option argument that names no flag sharing a bit with m in field f
      leaves those bits of f as they were. */
  lemma OptionKeepsBits(argv: seq<string>, i: nat, st: ScanState, signed: bool, f: Field, m: Bits)
    requires AllArgs(argv) && 1 <= i < |argv| && IsOptionLike(argv[i]) && !Touches(argv, i, f, m)
    ensures Get(OptionStep(argv, i, st, signed).st.t, f) * m == Get(st.t, f) * m
  {
    match FlagLookup(argv[i][1..])
    case Some((g, n)) =>
      var on := argv[i][0] == '+';
      SetFlagEffect(st.t, g, n, on);
      if g == f {
        DisjointBitsKept(Get(st.t, f), Get(SetFlag(st.t, g, n, on), f), n, m);
      }
    case None =>
  }

  /** One pass over an argument that names no flag sharing a bit with m in
      field f leaves those bits of f as they were. */
  lemma StepKeepsBits(argv: seq<string>, i: nat, st: ScanState, signed: bool, f: Field, m: Bits)
    requires AllArgs(argv) && 1 <= i < |argv| && !Touches(argv, i, f, m)
    ensures Get(ArgStep(argv, i, st, signed).st.t, f) * m == Get(st.t, f) * m
  {
    if !st.endOfOptions && argv[i] != "--" && IsOptionLike(argv[i]) {
      assert ArgStep(argv, i, st, signed) == OptionStep(argv, i, st, signed);
      OptionKeepsBits(argv, i, st, signed, f, m);
    }
  }

  /** The rest of the scan leaves the bits m of field f as they were when no
      argument from argv[i] on names a flag sharing a bit with them. */
  lemma {:induction false} LaterArgsKeepBits(argv: seq<string>, i: nat, st: ScanState, signed: bool, f: Field, m: Bits)
    requires AllArgs(argv) && 1 <= i
    requires forall k :: i <= k < |argv| ==> !Touches(argv, k, f, m)
    ensures Get(ScanFrom(argv, i, st, signed).st.t, f) * m == Get(st.t, f) * m
    decreases |argv| - i
  {
    if i < |argv| {
      StepKeepsBits(argv, i, st, signed, f, m);
      match ArgStep(argv, i, st, signed)
      case Stop(_) =>
      case Next(j, s) => LaterArgsKeepBits(argv, j, s, signed, f, m);
    }
  }

  /** Directives are applied in argv order, so the last one that names a
      bit decides it: after `+name` (or `-name`) for the mask m of field f,
      with no later argument naming a flag that shares a bit with m, the
      final configuration has all of m set (or all of m clear), whatever
      comes in between and whether or not the scan succeeds. */
  lemma LastFlagDirectiveWins(argv: seq<string>, i: nat, st: ScanState, signed: bool, f: Field, m: Bits)
    requires AllArgs(argv) && 1 <= i < |argv| && !st.endOfOptions
    requires IsOptionLike(argv[i]) && FlagLookup(argv[i][1..]) == Some((f, m))
    requires forall k :: i < k < |argv| ==> !Touches(argv, k, f, m)
    ensures Get(ScanFrom(argv, i, st, signed).st.t, f) * m == if argv[i][0] == '+' then m else {}
  {
    var on := argv[i][0] == '+';
    FlagDirective(argv, i, st, signed, f, m);
    SetFlagEffect(st.t, f, m, on);
    LaterArgsKeepBits(argv, i + 1, st.(t := SetFlag(st.t, f, m, on)), signed, f, m);
  }

  /** `-vname` disables that control character and the scan goes on. */
  lemma DisableDirective(argv: seq<string>, i: nat, st: ScanState, signed: bool, slot: Slot)
    requires AllArgs(argv) && 1 <= i < |argv| && !st.endOfOptions
    requires IsOptionLike(argv[i]) && argv[i][0] == '-'
    requires FlagLookup(argv[i][1..]) == None && Lookup(Ccs, argv[i][1..]) == Some(slot)
    ensures ScanFrom(argv, i, st, signed) ==
            ScanFrom(argv, i + 1, st.(t := st.t.(cc := st.t.cc[slot := VDisable])), signed)
  {
    NameShapes(argv[i][1..]);
    assert argv[i] != "--";
  }

  /** `+vname X` fails, changing nothing, when X is empty or not a notation
      parse_char accepts; otherwise it stores the decoded byte in that slot
      and the scan goes on after X, which is never taken as the device. */
  lemma AssignDirective(argv: seq<string>, i: nat, st: ScanState, signed: bool, slot: Slot)
    requires AllArgs(argv) && 1 <= i && i + 1 < |argv| && !st.endOfOptions
    requires IsOptionLike(argv[i]) && argv[i][0] == '+'
    requires FlagLookup(argv[i][1..]) == None && Lookup(Ccs, argv[i][1..]) == Some(slot)
    ensures var x := argv[i + 1];
            ScanFrom(argv, i, st, signed) ==
            if |x| > 0 && ParseChar(x, signed) != Invalid
            then ScanFrom(argv, i + 2, st.(t := st.t.(cc := st.t.cc[slot := CcByte(ParseChar(x, signed))])), signed)
            else Scan(false, st)
  {
    NameShapes(argv[i][1..]);
    assert argv[i] != "--";
  }

  /** `+vname` as the last argument fails: its value is missing. */
  lemma AssignMissingValue(argv: seq<string>, st: ScanState, signed: bool)
    requires AllArgs(argv) && 2 <= |argv| && !st.endOfOptions
    requires var d := argv[|argv| - 1];
             IsOptionLike(d) && d[0] == '+' && FlagLookup(d[1..]) == None && Lookup(Ccs, d[1..]).Some?
    ensures ScanFrom(argv, |argv| - 1, st, signed) == Scan(false, st)
  {
    NameShapes(argv[|argv| - 1][1..]);
    assert argv[|argv| - 1] != "--";
  }

  /** `--` ends option processing and changes nothing else. */
  lemma EndOfOptions(argv: seq<string>, i: nat, st: ScanState, signed: bool)
    requires AllArgs(argv) && 1 <= i < |argv| && !st.endOfOptions && argv[i] == "--"
    ensures ScanFrom(argv, i, st, signed) == ScanFrom(argv, i + 1, st.(endOfOptions := true), signed)
  {
  }

  /** At most one device name: a filename, or any argument at all after
      `--` (even one starting with `-`), is accepted iff none was given yet. */
  lemma FilenameArgument(argv: seq<string>, i: nat, st: ScanState, signed: bool)
    requires AllArgs(argv) && 1 <= i < |argv|
    requires st.endOfOptions || (!IsOptionLike(argv[i]) && argv[i] != "--")
    ensures ScanFrom(argv, i, st, signed) ==
            if st.tty.None? then ScanFrom(argv, i + 1, st.(tty := Some(argv[i])), signed)
            else Scan(false, st)
  {
  }

  /** `-attach` sets the attach flag and nothing else. */
  lemma AttachDirective(argv: seq<string>, i: nat, st: ScanState, signed: bool)
    requires AllArgs(argv) && 1 <= i < |argv| && !st.endOfOptions && argv[i] == "-attach"
    ensures ScanFrom(argv, i, st, signed) == ScanFrom(argv, i + 1, st.(attach := true), signed)
  {
    assert argv[i][1..] == "attach";
    NoSuchName(argv[i][1..]);
  }

  /** Any other argument starting with `+` or `-` (other than `--`) that names
      no flag and no control character fails, leaving the state as it was. */
  lemma UnrecognisedOption(argv: seq<string>, i: nat, st: ScanState, signed: bool)
    requires AllArgs(argv) && 1 <= i < |argv| && !st.endOfOptions
    requires IsOptionLike(argv[i]) && argv[i] != "--" && argv[i] != "-attach"
    requires FlagLookup(argv[i][1..]) == None && Lookup(Ccs, argv[i][1..]) == None
    ensures ScanFrom(argv, i, st, signed) == Scan(false, st)
  {
  }

  /** `+attach` is an unrecognised option: only `-attach` attaches. */
  lemma PlusAttachRejected(argv: seq<string>, i: nat, st: ScanState, signed: bool)
    requires AllArgs(argv) && 1 <= i < |argv| && !st.endOfOptions && argv[i] == "+attach"
    ensures ScanFrom(argv, i, st, signed) == Scan(false, st)
  {
    assert argv[i][1..] == "attach" && argv[i] != "-attach";
    NoSuchName(argv[i][1..]);
    UnrecognisedOption(argv, i, st, signed);
  }

  /** A lone `-` or `+` is an unrecognised option, not a filename. */
  lemma LoneSignRejected(argv: seq<string>, i: nat, st: ScanState, signed: bool)
    requires AllArgs(argv) && 1 <= i < |argv| && !st.endOfOptions
    requires argv[i] == "-" || argv[i] == "+"
    ensures ScanFrom(argv, i, st, signed) == Scan(false, st)
  {
    assert argv[i][1..] == "";
    NoSuchName(argv[i][1..]);
    UnrecognisedOption(argv, i, st, signed);
  }

  /** Whatever parse_args returns, the device name is one of the arguments
      and attach is set only if `-attach` is one of them. */
  lemma {:induction false} OutputsComeFromArgv(argv: seq<string>, i: nat, st: ScanState, signed: bool)
    requires AllArgs(argv) && 1 <= i && |argv| >= 1
    requires st.tty.Some? ==> st.tty.value in argv[1..]
    requires st.attach ==> "-attach" in argv[1..]
    ensures var r := ScanFrom(argv, i, st, signed).st;
            (r.tty.Some? ==> r.tty.value in argv[1..]) && (r.attach ==> "-attach" in argv[1..])
    decreases |argv| - i
  {
    if i < |argv| {
      assert argv[i] == argv[1..][i - 1];
      match ArgStep(argv, i, st, signed)
      case Stop(s) =>
      case Next(j, s) =>
        OutputsComeFromArgv(argv, j, s, signed);
    }
  }

  lemma ParseOutputs(argv: seq<string>, t0: Termios, signed: bool)
    requires AllArgs(argv) && |argv| >= 1
    ensures var p := Parse(argv, t0, signed);
            (p.rc == 0 || p.rc == -1) &&
            (p.tty.Some? ==> p.tty.value in argv[1..]) &&
            (p.attach ==> "-attach" in argv[1..])
  {
    OutputsComeFromArgv(argv, 1, Start(t0), signed);
  }
}
