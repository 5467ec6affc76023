/** The configuration file: a state machine over lines that fills in the boot entry (LoadBootEntry). */
module BootConfig {
  import opened Bytes
  import opened Uefi

  // ---------------------------------------------------------------------------
  // Strings
  // ---------------------------------------------------------------------------

  /** A string of CHAR16 characters. */
  type Text = seq<u16>

  const NUL: u16 := 0
  const LF: u16 := 0x0a
  const CR: u16 := 0x0d
  const COLON: u16 := 0x3a
  const EQUALS: u16 := 0x3d

  /** L"...": a literal in CHAR16 characters. */
  function L(s: string): Text {
    seq(|s|, k requires 0 <= k < |s| => s[k] as int % 0x1_0000)
  }

  /** Character `k` of a C string: NUL past the end. */
  function At(s: Text, k: nat): u16 {
    if k < |s| then s[k] else NUL
  }

  /** StrnCmp on the rest of two strings from `k` on, with `n` characters left to compare. */
  function StrnCmp(a: Text, b: Text, k: nat, n: nat): int
    decreases n
  {
    if n == 0 then 0
    else if At(a, k) != 0 && At(b, k) != 0 && At(a, k) == At(b, k) && n > 1 then StrnCmp(a, b, k + 1, n - 1)
    else At(a, k) - At(b, k)
  }

  predicate NoNul(s: Text) {
    NUL !in s
  }

  /** Comparing as many characters as the second string has is a prefix test. */
  lemma {:induction false} StrnCmpPrefix(a: Text, b: Text, k: nat)
    requires NoNul(a) && NoNul(b) && k <= |b| && k <= |a|
    ensures StrnCmp(a, b, k, |b| - k) == 0 <==> b[k..] <= a[k..]
    decreases |b| - k
  {
    if k < |b| {
      assert b[k..] == [b[k]] + b[k + 1..];
      if k < |a| {
        assert a[k..] == [a[k]] + a[k + 1..];
        assert a[k] in a && b[k] in b;
        if a[k] == b[k] {
          StrnCmpPrefix(a, b, k + 1);
        }
      } else {
        assert b[k] in b;
      }
    }
  }

  /** CHECK_OPTION: as many characters as the key and its '=' have. */
  predicate CheckOption(line: Text, key: Text) {
    StrnCmp(line, key + [EQUALS], 0, |key| + 1) == 0
  }

  /** An option is recognised exactly by its key followed by '='. */
  lemma CheckOptionExact(line: Text, key: Text)
    requires NoNul(line) && NoNul(key)
    ensures CheckOption(line, key) <==> key + [EQUALS] <= line
  {
    StrnCmpPrefix(line, key + [EQUALS], 0);
  }

  /** StrStr(line, L"=") + 1: what follows the first '='. */
  function Value(line: Text): Text {
    if line == [] then [] else if line[0] == EQUALS then line[1..] else Value(line[1..])
  }

  /** The first '=' ends the key, so a value may contain '=' itself. */
  lemma {:induction false} ValueAfterKey(key: Text, value: Text)
    requires EQUALS !in key
    ensures Value(key + [EQUALS] + value) == value
  {
    if key == [] {
      assert (key + [EQUALS] + value)[1..] == value;
    } else {
      assert (key + [EQUALS] + value)[1..] == key[1..] + [EQUALS] + value;
      ValueAfterKey(key[1..], value);
    }
  }

  // ---------------------------------------------------------------------------
  // Lines
  // ---------------------------------------------------------------------------

  /** The characters up to `stop`. */
  function Upto(text: Text, stop: u16): (s: Text)
    ensures |s| <= |text| && stop !in s
    ensures |s| < |text| ==> text[|s|] == stop
    ensures s == text[..|s|]
  {
    if text == [] || text[0] == stop then [] else [text[0]] + Upto(text[1..], stop)
  }

  function DropReturns(s: Text): (r: Text)
    ensures |r| <= |s|
  {
    if s == [] then [] else if s[0] == CR then DropReturns(s[1..]) else [s[0]] + DropReturns(s[1..])
  }

  /** The line buffer takes 255 bytes: 126 two-byte characters and a NUL. */
  predicate TooLong(s: Text) {
    (|s| + 1) * 2 > 255
  }

  /** The first line of what is left to read, as the loop sees it: a C string. */
  function LineOf(rest: Text): (line: Text)
    ensures NoNul(line)
  {
    Upto(DropReturns(Upto(rest, LF)), NUL)
  }

  predicate Fails(rest: Text) {
    TooLong(DropReturns(Upto(rest, LF)))
  }

  /** The characters of UCS-2 text. A byte left over at the end is a character of its own. */
  function Units(b: seq<u8>): (u: Text)
    ensures |u| == (|b| + 1) / 2
  {
    if |b| == 0 then [] else if |b| == 1 then [b[0]] else [b[0] as int + 0x100 * b[1] as int] + Units(b[2..])
  }

  /** The file begins with the UCS-2 byte order mark. */
  predicate Tagged(bytes: seq<u8>) {
    |bytes| >= 2 && bytes[0] == 0xff && bytes[1] == 0xfe
  }

  /** The mark is looked for at the start of the file, and what was found is forgotten with the line: the loop
      declares everything else to be ASCII. */
  predicate WideAt(bytes: seq<u8>, position: nat) {
    position == 0 && Tagged(bytes)
  }

  /** The characters from a position on. */
  function Rest(bytes: seq<u8>, position: nat): Text
    requires position <= |bytes|
  {
    if WideAt(bytes, position) then Units(bytes[2..]) else bytes[position..]
  }

  /** How many characters one read consumes: a line and its line feed. */
  function Taken(rest: Text): (n: nat)
    ensures n <= |rest| && (rest != [] ==> n > 0)
  {
    if |Upto(rest, LF)| < |rest| then |Upto(rest, LF)| + 1 else |rest|
  }

  /** The position after reading a line. */
  function Next(bytes: seq<u8>, position: nat): (next: nat)
    requires position <= |bytes|
    ensures next <= |bytes| && (position < |bytes| ==> position < next)
  {
    var n := Taken(Rest(bytes, position));
    if !WideAt(bytes, position) then position + n else if 2 + 2 * n <= |bytes| then 2 + 2 * n else |bytes|
  }

  /** The lines read until the end of the file or until a line does not fit, and whether all did. */
  datatype Reading = Reading(lines: seq<Text>, complete: bool)

  function LinesFrom(bytes: seq<u8>, position: nat): Reading
    requires position <= |bytes|
    decreases |bytes| - position
  {
    if position == |bytes| then Reading([], true)
    else if Fails(Rest(bytes, position)) then Reading([], false)
    else
      var rest := LinesFrom(bytes, Next(bytes, position));
      Reading([LineOf(Rest(bytes, position))] + rest.lines, rest.complete)
  }

  function Lines(bytes: seq<u8>): Reading {
    LinesFrom(bytes, 0)
  }

  class ConfigFile {
    const bytes: seq<u8>
    var position: nat

    constructor (bytes: seq<u8>)
      ensures Valid() && this.bytes == bytes && position == 0
    {
      this.bytes := bytes;
      position := 0;
    }

    predicate Valid()
      reads this
    {
      position <= |bytes|
    }

    /** FileHandleReadLine: a line that does not fit leaves the position alone. */
    method ReadLine() returns (line: Text, status: Status)
      requires Valid()
      modifies this
      ensures Valid()
      ensures status == if Fails(Rest(bytes, old(position))) then BufferTooSmall else Success
      ensures position == if status.Success? then Next(bytes, old(position)) else old(position)
      ensures status.Success? ==> line == LineOf(Rest(bytes, old(position)))
    {
      if Fails(Rest(bytes, position)) {
        return [], BufferTooSmall;
      }
      line := LineOf(Rest(bytes, position));
      position := Next(bytes, position);
      status := Success;
    }
  }

  // ---------------------------------------------------------------------------
  // The boot entry
  // ---------------------------------------------------------------------------

  datatype Settings = Settings(
    name: Option<Text>, fs: Option<nat>, path: Option<Text>, cmdline: Option<Text>, tracing: bool)

  /** What a line says. */
  datatype Line = Title(name: Text) | Path(value: Text) | Cmdline(value: Text) | Tracing(on: bool) | Other

  function Classify(line: Text): Line {
    if At(line, 0) == COLON then Title(line[1..])
    else if CheckOption(line, L("PATH")) || CheckOption(line, L("KERNEL_PATH")) then Path(Value(line))
    else if CheckOption(line, L("CMDLINE")) || CheckOption(line, L("KERNEL_CMDLINE")) then Cmdline(Value(line))
    else if CheckOption(line, L("TRACING")) || CheckOption(line, L("BOOT_TRACING")) then
      Tracing(StrnCmp(Value(line), L("yes"), 0, 3) == 0)
    else Other
  }

  /** One iteration. Options before the first title are skipped. */
  function Apply(fs: nat, line: Text, s: Settings): Settings {
    match Classify(line)
    case Title(name) => s.(fs := Some(fs), name := Some(name), cmdline := Some([]))
    case Path(value) => if s.name.None? then s else s.(path := Some(value))
    case Cmdline(value) => if s.name.None? then s else s.(cmdline := Some(value))
    case Tracing(on) => if s.name.None? || !on then s else s.(tracing := true)
    case Other => s
  }

  function Parse(fs: nat, lines: seq<Text>, s: Settings): Settings {
    if lines == [] then s else Apply(fs, lines[|lines| - 1], Parse(fs, lines[..|lines| - 1], s))
  }

  class BootEntry {
    var name: Option<Text>
    var fs: Option<nat>
    var path: Option<Text>
    var cmdline: Option<Text>
    var tracing: bool

    constructor ()
      ensures Value() == Settings(None, None, None, None, false)
    {
      name, fs, path, cmdline, tracing := None, None, None, None, false;
    }

    function Value(): Settings
      reads this
    {
      Settings(name, fs, path, cmdline, tracing)
    }
  }

  /** What the loop does with one line. */
  method ApplyLine(fs: nat, line: Text, entry: BootEntry)
    modifies entry
    ensures entry.Value() == Apply(fs, line, old(entry.Value()))
  {
    hide CheckOption, Value, StrnCmp;
    if At(line, 0) == COLON {
      entry.fs := Some(fs);
      entry.name := Some(line[1..]);
      entry.cmdline := Some([]);
    } else {
      if entry.name.None? {
        return;
      }
      if CheckOption(line, L("PATH")) || CheckOption(line, L("KERNEL_PATH")) {
        entry.path := Some(Value(line));
      } else if CheckOption(line, L("CMDLINE")) || CheckOption(line, L("KERNEL_CMDLINE")) {
        entry.cmdline := Some(Value(line));
      } else if CheckOption(line, L("TRACING")) || CheckOption(line, L("BOOT_TRACING")) {
        if StrnCmp(Value(line), L("yes"), 0, 3) == 0 {
          entry.tracing := true;
        }
      }
    }
  }

  lemma ParseSnoc(fs: nat, lines: seq<Text>, line: Text, s: Settings)
    ensures Parse(fs, lines + [line], s) == Apply(fs, line, Parse(fs, lines, s))
  {
    assert (lines + [line])[..|lines|] == lines;
  }

  /** At `position` the lines `done` have been read, and the rest are still to come. */
  ghost predicate ReadSoFar(bytes: seq<u8>, position: nat, done: seq<Text>) {
    && position <= |bytes|
    && Lines(bytes) == Reading(done + LinesFrom(bytes, position).lines, LinesFrom(bytes, position).complete)
  }

  lemma NothingRead(bytes: seq<u8>)
    ensures ReadSoFar(bytes, 0, [])
  {
    hide LinesFrom;
  }

  lemma NextLine(bytes: seq<u8>, position: nat, done: seq<Text>)
    requires ReadSoFar(bytes, position, done) && position < |bytes| && !Fails(Rest(bytes, position))
    ensures ReadSoFar(bytes, Next(bytes, position), done + [LineOf(Rest(bytes, position))])
  {
    hide Lines, Rest, Next, LineOf, Fails;
    var line, next := LineOf(Rest(bytes, position)), LinesFrom(bytes, Next(bytes, position)).lines;
    assert done + ([line] + next) == (done + [line]) + next;
  }

  lemma NoMoreLines(bytes: seq<u8>, position: nat, done: seq<Text>)
    requires ReadSoFar(bytes, position, done) && (position < |bytes| ==> Fails(Rest(bytes, position)))
    ensures Lines(bytes) == Reading(done, position == |bytes|)
  {
    hide Lines, Rest, Fails;
    assert done + [] == done;
  }

  method LoadBootEntry(fs: nat, file: ConfigFile, entry: BootEntry) returns (status: Status)
    requires file.Valid() && file.position == 0
    modifies file, entry
    ensures entry.Value() == Parse(fs, Lines(file.bytes).lines, old(entry.Value()))
    ensures status == if Lines(file.bytes).complete then Success else BufferTooSmall
  {
    hide Apply, Parse, LineOf, Rest, Next, Fails, Lines, LinesFrom, ReadSoFar;
    ghost var start := entry.Value();
    ghost var done: seq<Text> := [];
    ParseNothing(fs, start);
    NothingRead(file.bytes);
    while true
      invariant file.Valid() && ReadSoFar(file.bytes, file.position, done)
      invariant entry.Value() == Parse(fs, done, start)
      decreases |file.bytes| - file.position
    {
      ghost var position := file.position;
      if file.position == |file.bytes| {
        NoMoreLines(file.bytes, position, done);
        return Success;
      }
      var line;
      line, status := file.ReadLine();
      if !status.Success? {
        NoMoreLines(file.bytes, position, done);
        return;
      }
      NextLine(file.bytes, position, done);
      ApplyLine(fs, line, entry);
      ParseSnoc(fs, done, line, start);
      done := done + [line];
    }
  }

  lemma ParseNothing(fs: nat, s: Settings)
    ensures Parse(fs, [], s) == s
  {
  }

  // ---------------------------------------------------------------------------
  // Closed form
  // ---------------------------------------------------------------------------

  /** Line `j` is under some title, or the entry had a name to begin with. */
  ghost predicate Enabled(lines: seq<Text>, s: Settings, j: nat) {
    s.name.Some? || exists i :: 0 <= i < j && i < |lines| && Classify(lines[i]).Title?
  }

  /** What a line assigns to each field, if anything. */
  function NameEvent(line: Text): Option<Option<Text>> {
    if Classify(line).Title? then Some(Some(Classify(line).name)) else None
  }

  function FsEvent(fs: nat, line: Text): Option<Option<nat>> {
    if Classify(line).Title? then Some(Some(fs)) else None
  }

  function PathEvent(line: Text, enabled: bool): Option<Option<Text>> {
    if enabled && Classify(line).Path? then Some(Some(Classify(line).value)) else None
  }

  function CmdlineEvent(line: Text, enabled: bool): Option<Option<Text>> {
    match Classify(line)
    case Title(_) => Some(Some([]))
    case Cmdline(value) => if enabled then Some(Some(value)) else None
    case _ => None
  }

  function TracingEvent(line: Text, enabled: bool): Option<bool> {
    if enabled && Classify(line) == Tracing(true) then Some(true) else None
  }

  /** `v` is what the last event assigns, or `start` when there is no event. */
  ghost predicate LastAssigned<V>(events: seq<Option<V>>, start: V, v: V) {
    || (v == start && forall j :: 0 <= j < |events| ==> events[j] == None)
    || (exists j :: 0 <= j < |events| && events[j] == Some(v) && forall k :: j < k < |events| ==> events[k] == None)
  }

  lemma LastAssignedSnoc<V>(events: seq<Option<V>>, start: V, v: V, e: Option<V>)
    requires LastAssigned(events, start, v)
    ensures LastAssigned(events + [e], start, if e.Some? then e.value else v)
  {
    var all := events + [e];
    if e.Some? {
      assert all[|events|] == e;
    } else if j :| 0 <= j < |events| && events[j] == Some(v) && forall k :: j < k < |events| ==> events[k] == None {
      assert all[j] == Some(v);
    }
  }

  ghost function NameEvents(lines: seq<Text>): seq<Option<Option<Text>>> {
    seq(|lines|, j requires 0 <= j < |lines| => NameEvent(lines[j]))
  }

  ghost function FsEvents(fs: nat, lines: seq<Text>): seq<Option<Option<nat>>> {
    seq(|lines|, j requires 0 <= j < |lines| => FsEvent(fs, lines[j]))
  }

  ghost function PathEvents(lines: seq<Text>, s: Settings): seq<Option<Option<Text>>> {
    seq(|lines|, j requires 0 <= j < |lines| => PathEvent(lines[j], Enabled(lines, s, j)))
  }

  ghost function CmdlineEvents(lines: seq<Text>, s: Settings): seq<Option<Option<Text>>> {
    seq(|lines|, j requires 0 <= j < |lines| => CmdlineEvent(lines[j], Enabled(lines, s, j)))
  }

  ghost function TracingEvents(lines: seq<Text>, s: Settings): seq<Option<bool>> {
    seq(|lines|, j requires 0 <= j < |lines| => TracingEvent(lines[j], Enabled(lines, s, j)))
  }

  /** The result of the loop, field by field: each field is what the last line to assign it says. A title assigns
      the name, the file system and an empty command line; options assign only below a title; tracing is only ever
      switched on; a path outlives the title it was given under. */
  ghost predicate ClosedForm(fs: nat, lines: seq<Text>, s: Settings, r: Settings) {
    && LastAssigned(NameEvents(lines), s.name, r.name)
    && LastAssigned(FsEvents(fs, lines), s.fs, r.fs)
    && LastAssigned(PathEvents(lines, s), s.path, r.path)
    && LastAssigned(CmdlineEvents(lines, s), s.cmdline, r.cmdline)
    && LastAssigned(TracingEvents(lines, s), s.tracing, r.tracing)
  }

  lemma EventsSnoc(fs: nat, lines: seq<Text>, line: Text, s: Settings)
    ensures var enabled := Enabled(lines, s, |lines|);
      && NameEvents(lines + [line]) == NameEvents(lines) + [NameEvent(line)]
      && FsEvents(fs, lines + [line]) == FsEvents(fs, lines) + [FsEvent(fs, line)]
      && PathEvents(lines + [line], s) == PathEvents(lines, s) + [PathEvent(line, enabled)]
      && CmdlineEvents(lines + [line], s) == CmdlineEvents(lines, s) + [CmdlineEvent(line, enabled)]
      && TracingEvents(lines + [line], s) == TracingEvents(lines, s) + [TracingEvent(line, enabled)]
  {
    hide Classify, PathEvent, CmdlineEvent, TracingEvent, NameEvent, FsEvent;
    var all := lines + [line];
    forall j | 0 <= j <= |lines| ensures Enabled(all, s, j) == Enabled(lines, s, j) {
      if i :| 0 <= i < j && i < |lines| && Classify(lines[i]).Title? {
        assert all[i] == lines[i];
      }
    }
  }

  lemma {:induction false} NameMeansEnabled(fs: nat, lines: seq<Text>, s: Settings)
    ensures Parse(fs, lines, s).name.Some? <==> Enabled(lines, s, |lines|)
  {
    hide Classify;
    if lines != [] {
      var init := lines[..|lines| - 1];
      NameMeansEnabled(fs, init, s);
      if i :| 0 <= i < |init| && Classify(init[i]).Title? {
        assert lines[i] == init[i];
      }
      if Classify(lines[|lines| - 1]).Title? {
        assert Enabled(lines, s, |lines|);
      }
      if i :| 0 <= i < |lines| - 1 && Classify(lines[i]).Title? {
        assert init[i] == lines[i];
      }
    }
  }

  /** For any lines and any entry to start from. */
  lemma {:induction false} ParseClosedForm(fs: nat, lines: seq<Text>, s: Settings)
    ensures ClosedForm(fs, lines, s, Parse(fs, lines, s))
  {
    hide Classify, LastAssigned;
    if lines == [] {
      NothingAssigned(fs, s);
    } else {
      hide NameEvents, FsEvents, PathEvents, CmdlineEvents, TracingEvents, Enabled;
      var init, line := lines[..|lines| - 1], lines[|lines| - 1];
      var r := Parse(fs, init, s);
      ParseClosedForm(fs, init, s);
      NameMeansEnabled(fs, init, s);
      EventsSnoc(fs, init, line, s);
      assert lines == init + [line];
      var enabled := Enabled(init, s, |init|);
      LastAssignedSnoc(NameEvents(init), s.name, r.name, NameEvent(line));
      LastAssignedSnoc(FsEvents(fs, init), s.fs, r.fs, FsEvent(fs, line));
      LastAssignedSnoc(PathEvents(init, s), s.path, r.path, PathEvent(line, enabled));
      LastAssignedSnoc(CmdlineEvents(init, s), s.cmdline, r.cmdline, CmdlineEvent(line, enabled));
      LastAssignedSnoc(TracingEvents(init, s), s.tracing, r.tracing, TracingEvent(line, enabled));
    }
  }

  lemma NothingAssigned(fs: nat, s: Settings)
    ensures ClosedForm(fs, [], s, s)
  {
  }

  // ---------------------------------------------------------------------------
  // Round trip
  // ---------------------------------------------------------------------------

  /** A line that sets an option. */
  function OptionLine(key: Text, value: Text): Text {
    key + [EQUALS] + value
  }

  /** Lines that write a configuration: the title at `t`, the path at `p` and the command line at `c` below it, in
      any order, under either spelling of their keys. The other lines below the title are neither titles nor paths
      nor command lines; above it anything may stand. */
  ghost predicate Writes(lines: seq<Text>, t: nat, p: nat, c: nat, name: Text, path: Text, cmdline: Text) {
    && t < p < |lines| && t < c < |lines|
    && lines[t] == [COLON] + name
    && (lines[p] == OptionLine(L("PATH"), path) || lines[p] == OptionLine(L("KERNEL_PATH"), path))
    && (lines[c] == OptionLine(L("CMDLINE"), cmdline) || lines[c] == OptionLine(L("KERNEL_CMDLINE"), cmdline))
    && (forall k :: t < k < |lines| && k != p && k != c ==> Unrelated(lines[k]))
    && NoNul(lines[p]) && NoNul(lines[c])
  }

  predicate Unrelated(line: Text) {
    Classify(line).Other? || Classify(line).Tracing?
  }

  lemma {:induction false} UptoKey(key: Text, value: Text)
    requires EQUALS !in key
    ensures Upto(key + [EQUALS] + value, EQUALS) == key
  {
    if key != [] {
      assert (key + [EQUALS] + value)[1..] == key[1..] + [EQUALS] + value;
      UptoKey(key[1..], value);
    }
  }

  /** A key is recognised for itself and for no other, and its value is what follows. */
  lemma OptionRoundTrip(key: Text, value: Text, other: Text)
    requires NoNul(key + [EQUALS] + value) && NoNul(other) && EQUALS !in key && EQUALS !in other
    ensures CheckOption(key + [EQUALS] + value, other) <==> key == other
    ensures Value(key + [EQUALS] + value) == value
  {
    var line := key + [EQUALS] + value;
    CheckOptionExact(line, other);
    ValueAfterKey(key, value);
    UptoKey(key, value);
    if other + [EQUALS] <= line {
      assert line == other + [EQUALS] + line[|other| + 1..];
      UptoKey(other, line[|other| + 1..]);
    }
  }

  predicate Key(key: Text) {
    key != [] && NoNul(key) && EQUALS !in key && COLON !in key && forall c :: c in key ==> c < 0x100
  }

  /** The keys are words without '='; those for different fields are different. */
  lemma Keys()
    ensures Key(L("PATH")) && Key(L("KERNEL_PATH")) && Key(L("CMDLINE")) && Key(L("KERNEL_CMDLINE"))
    ensures Key(L("TRACING")) && Key(L("BOOT_TRACING")) && NoNul(L("yes")) && |L("yes")| == 3
    ensures L("PATH") != L("CMDLINE") && L("PATH") != L("KERNEL_CMDLINE")
    ensures L("PATH") != L("TRACING") && L("PATH") != L("BOOT_TRACING")
    ensures L("KERNEL_PATH") != L("CMDLINE") && L("KERNEL_PATH") != L("KERNEL_CMDLINE")
    ensures L("KERNEL_PATH") != L("TRACING") && L("KERNEL_PATH") != L("BOOT_TRACING")
    ensures L("CMDLINE") != L("TRACING") && L("CMDLINE") != L("BOOT_TRACING")
    ensures L("KERNEL_CMDLINE") != L("TRACING") && L("KERNEL_CMDLINE") != L("BOOT_TRACING")
    ensures L("TRACING") != L("BOOT_TRACING")
  {
    hide Key;
    Short("PATH");
    Short("KERNEL_PATH");
    Short("CMDLINE");
    Short("KERNEL_CMDLINE");
    Short("TRACING");
    Short("BOOT_TRACING");
    assert L("TRACING")[0] != L("CMDLINE")[0];
  }

  lemma Short(key: string)
    requires key != []
    requires forall k :: 0 <= k < |key| ==> key[k] != '=' && key[k] != ':' && key[k] != '\0' && key[k] as int < 0x100
    ensures Key(L(key))
  {
  }

  lemma KeyIs(key: Text, value: Text, other: Text)
    requires Key(key) && Key(other) && NoNul(OptionLine(key, value))
    ensures var line := OptionLine(key, value);
      At(line, 0) != COLON && Value(line) == value && NoNul(value) && (CheckOption(line, other) <==> key == other)
  {
    hide CheckOption, Value;
    OptionRoundTrip(key, value, other);
    assert forall c :: c in value ==> c in key + [EQUALS] + value;
    assert (key + [EQUALS] + value)[0] == key[0] && key[0] in key;
  }

  lemma PathWritten(line: Text, path: Text)
    requires line == OptionLine(L("PATH"), path) || line == OptionLine(L("KERNEL_PATH"), path)
    requires NoNul(line)
    ensures Classify(line) == Path(path)
  {
    hide CheckOption, Value, L, Key, OptionLine;
    Keys();
    var key := if line == OptionLine(L("PATH"), path) then L("PATH") else L("KERNEL_PATH");
    KeyIs(key, path, key);
  }

  lemma CmdlineWritten(line: Text, cmdline: Text)
    requires line == OptionLine(L("CMDLINE"), cmdline) || line == OptionLine(L("KERNEL_CMDLINE"), cmdline)
    requires NoNul(line)
    ensures Classify(line) == Cmdline(cmdline)
  {
    hide CheckOption, Value, L, Key, OptionLine;
    Keys();
    var key := if line == OptionLine(L("CMDLINE"), cmdline) then L("CMDLINE") else L("KERNEL_CMDLINE");
    KeyIs(key, cmdline, L("PATH"));
    KeyIs(key, cmdline, L("KERNEL_PATH"));
    KeyIs(key, cmdline, key);
  }

  lemma TracingWritten(key: Text, value: Text)
    requires (key == L("TRACING") || key == L("BOOT_TRACING")) && NoNul(OptionLine(key, value))
    ensures Classify(OptionLine(key, value)) == Tracing(StrnCmp(value, L("yes"), 0, 3) == 0)
    ensures NoNul(value)
  {
    hide CheckOption, Value, StrnCmp, L, Key, OptionLine;
    Keys();
    KeyIs(key, value, L("PATH"));
    KeyIs(key, value, L("KERNEL_PATH"));
    KeyIs(key, value, L("CMDLINE"));
    KeyIs(key, value, L("KERNEL_CMDLINE"));
    KeyIs(key, value, key);
  }

  lemma TracingLine(key: Text, line: Text)
    requires (key == L("TRACING") || key == L("BOOT_TRACING")) && NoNul(line) && key + [EQUALS] <= line
    ensures Classify(line) == Tracing(OptionLine(key, L("yes")) <= line)
  {
    hide Classify, StrnCmp, L;
    Keys();
    var value := line[|key| + 1..];
    assert line == OptionLine(key, value);
    TracingWritten(key, value);
    YesPrefix(value);
    SamePrefix(key + [EQUALS], L("yes"), value);
  }

  lemma SamePrefix(k: Text, a: Text, b: Text)
    ensures k + a <= k + b <==> a <= b
  {
    assert k + a <= k + b ==> (k + a)[|k|..] <= (k + b)[|k|..];
    assert (k + a)[|k|..] == a && (k + b)[|k|..] == b;
  }

  /** Tracing is switched on by exactly these lines. */
  lemma TracingExact(line: Text)
    requires NoNul(line)
    ensures Classify(line) == Tracing(true) <==>
      OptionLine(L("TRACING"), L("yes")) <= line || OptionLine(L("BOOT_TRACING"), L("yes")) <= line
  {
    hide CheckOption, Value, StrnCmp, L;
    Keys();
    CheckOptionExact(line, L("TRACING"));
    CheckOptionExact(line, L("BOOT_TRACING"));
    if L("TRACING") + [EQUALS] <= line {
      TracingLine(L("TRACING"), line);
      OneKey(L("TRACING"), L("BOOT_TRACING"), line);
    } else if L("BOOT_TRACING") + [EQUALS] <= line {
      TracingLine(L("BOOT_TRACING"), line);
    }
  }

  /** What every line says. Its beginning decides, and at most one of these beginnings is its own. */
  lemma ClassifyExact(line: Text)
    requires NoNul(line)
    ensures line != [] && line[0] == COLON ==> Classify(line) == Title(line[1..])
    ensures forall v :: line == OptionLine(L("PATH"), v) || line == OptionLine(L("KERNEL_PATH"), v) ==>
      Classify(line) == Path(v)
    ensures forall v :: line == OptionLine(L("CMDLINE"), v) || line == OptionLine(L("KERNEL_CMDLINE"), v) ==>
      Classify(line) == Cmdline(v)
    ensures forall v :: line == OptionLine(L("TRACING"), v) || line == OptionLine(L("BOOT_TRACING"), v) ==>
      Classify(line) == Tracing(L("yes") <= v)
    ensures !Begins(line) ==> Classify(line) == Other
  {
    Titles(line);
    if !Begins(line) {
      Nothing(line);
    }
    hide Classify, L, OptionLine, Begins;
    forall v | line == OptionLine(L("PATH"), v) || line == OptionLine(L("KERNEL_PATH"), v)
      ensures Classify(line) == Path(v)
    {
      PathWritten(line, v);
    }
    forall v | line == OptionLine(L("CMDLINE"), v) || line == OptionLine(L("KERNEL_CMDLINE"), v)
      ensures Classify(line) == Cmdline(v)
    {
      CmdlineWritten(line, v);
    }
    forall v | line == OptionLine(L("TRACING"), v) || line == OptionLine(L("BOOT_TRACING"), v)
      ensures Classify(line) == Tracing(L("yes") <= v)
    {
      TracingWritten(if line == OptionLine(L("TRACING"), v) then L("TRACING") else L("BOOT_TRACING"), v);
      YesPrefix(v);
    }
  }

  /** The line begins like a title or an option. */
  predicate Begins(line: Text) {
    || [COLON] <= line
    || L("PATH") + [EQUALS] <= line || L("KERNEL_PATH") + [EQUALS] <= line
    || L("CMDLINE") + [EQUALS] <= line || L("KERNEL_CMDLINE") + [EQUALS] <= line
    || L("TRACING") + [EQUALS] <= line || L("BOOT_TRACING") + [EQUALS] <= line
  }

  lemma Titles(line: Text)
    ensures line != [] && line[0] == COLON ==> Classify(line) == Title(line[1..])
  {
    hide CheckOption, Value, L;
  }

  lemma Nothing(line: Text)
    requires NoNul(line) && !Begins(line)
    ensures Classify(line) == Other
  {
    hide CheckOption, Value, L;
    KeysNoNul();
    CheckOptionExact(line, L("PATH"));
    CheckOptionExact(line, L("KERNEL_PATH"));
    CheckOptionExact(line, L("CMDLINE"));
    CheckOptionExact(line, L("KERNEL_CMDLINE"));
    CheckOptionExact(line, L("TRACING"));
    CheckOptionExact(line, L("BOOT_TRACING"));
  }

  lemma KeysNoNul()
    ensures NoNul(L("PATH")) && NoNul(L("KERNEL_PATH")) && NoNul(L("CMDLINE")) && NoNul(L("KERNEL_CMDLINE"))
    ensures NoNul(L("TRACING")) && NoNul(L("BOOT_TRACING"))
  {
    hide L;
    Keys();
  }

  lemma YesPrefix(v: Text)
    requires NoNul(v)
    ensures StrnCmp(v, L("yes"), 0, 3) == 0 <==> L("yes") <= v
  {
    hide StrnCmp, L;
    Keys();
    StrnCmpPrefix(v, L("yes"), 0);
    assert v[0..] == v && L("yes")[0..] == L("yes");
  }

  /** The characters of a literal, and those that are written as numbers here. */
  lemma LiteralIs(s: string)
    ensures NUL == '\0' as int && LF == '\n' as int && CR == '\r' as int && COLON == ':' as int && EQUALS == '=' as int
    ensures |L(s)| == |s| && forall k :: 0 <= k < |s| && s[k] as int < 0x1_0000 ==> L(s)[k] == s[k] as int
  {
    forall k | 0 <= k < |s| && s[k] as int < 0x1_0000 ensures L(s)[k] == s[k] as int {
      DivMod(s[k] as int, 0x1_0000, 0, s[k] as int);
    }
  }

  lemma OneKey(key: Text, other: Text, line: Text)
    requires Key(key) && Key(other) && key != other && NoNul(line) && key + [EQUALS] <= line
    ensures !(other + [EQUALS] <= line)
  {
    var value := line[|key| + 1..];
    assert line == OptionLine(key, value);
    KeyIs(key, value, other);
    CheckOptionExact(line, other);
  }

  /** Event `j` assigns something, and no later one does. */
  ghost predicate LastAt<V>(events: seq<Option<V>>, j: nat) {
    j < |events| && events[j].Some? && forall k :: j < k < |events| ==> events[k] == None
  }

  /** The last event decides. */
  lemma LastIs<V>(events: seq<Option<V>>, start: V, v: V, j: nat)
    requires LastAssigned(events, start, v)
    requires LastAt(events, j)
    ensures v == events[j].value
  {
  }

  /** Which lines are the last to assign name, file system, path and command line, and what. */
  lemma LastEvents(fs: nat, lines: seq<Text>, t: nat, p: nat, c: nat,
                   name: Text, path: Text, cmdline: Text, s: Settings)
    requires Writes(lines, t, p, c, name, path, cmdline)
    ensures LastAt(NameEvents(lines), t) && NameEvents(lines)[t].value == Some(name)
    ensures LastAt(FsEvents(fs, lines), t) && FsEvents(fs, lines)[t].value == Some(fs)
    ensures LastAt(PathEvents(lines, s), p) && PathEvents(lines, s)[p].value == Some(path)
    ensures LastAt(CmdlineEvents(lines, s), c) && CmdlineEvents(lines, s)[c].value == Some(cmdline)
  {
    LinesSay(lines, t, p, c, name, path, cmdline);
    hide Classify, Writes, NoNul, OptionLine, L;
    assert Enabled(lines, s, p) && Enabled(lines, s, c);
  }

  lemma LinesSay(lines: seq<Text>, t: nat, p: nat, c: nat, name: Text, path: Text, cmdline: Text)
    requires Writes(lines, t, p, c, name, path, cmdline)
    ensures t < p < |lines| && t < c < |lines|
    ensures Classify(lines[t]) == Title(name)
    ensures Classify(lines[p]) == Path(path) && Classify(lines[c]) == Cmdline(cmdline)
    ensures forall k :: t < k < |lines| && k != p && k != c ==> Unrelated(lines[k])
  {
    hide Classify, Unrelated;
    PathWritten(lines[p], path);
    CmdlineWritten(lines[c], cmdline);
    TitleWritten(lines[t], name);
  }

  lemma TitleWritten(line: Text, name: Text)
    requires line == [COLON] + name
    ensures Classify(line) == Title(name)
  {
    hide CheckOption, Value;
    assert line[1..] == name;
  }

  /** Whatever the entry was before, parsing gives back the name, path and command line that were written. */
  lemma RoundTrip(fs: nat, lines: seq<Text>, t: nat, p: nat, c: nat, name: Text, path: Text, cmdline: Text, s: Settings)
    requires Writes(lines, t, p, c, name, path, cmdline)
    ensures Written(fs, name, path, cmdline, Parse(fs, lines, s))
  {
    hide Parse, Writes, LastAssigned, NameEvents, FsEvents, PathEvents, CmdlineEvents, TracingEvents;
    ParseClosedForm(fs, lines, s);
    LastEvents(fs, lines, t, p, c, name, path, cmdline, s);
    var r := Parse(fs, lines, s);
    LastIs(NameEvents(lines), s.name, r.name, t);
    LastIs(FsEvents(fs, lines), s.fs, r.fs, t);
    LastIs(PathEvents(lines, s), s.path, r.path, p);
    LastIs(CmdlineEvents(lines, s), s.cmdline, r.cmdline, c);
  }

  /** The entry holds what was written. */
  predicate Written(fs: nat, name: Text, path: Text, cmdline: Text, r: Settings) {
    r.name == Some(name) && r.fs == Some(fs) && r.path == Some(path) && r.cmdline == Some(cmdline)
  }

  // ---------------------------------------------------------------------------
  // Round trip through the bytes of the file
  // ---------------------------------------------------------------------------

  /** A line that can stand in a file: single-byte characters, none of them special to the reader, and not too many. */
  predicate Plain(line: Text) {
    |line| <= 126 && forall k :: 0 <= k < |line| ==> line[k] < 0x100 && line[k] != LF && line[k] != CR && line[k] != NUL
  }

  function Narrow(line: Text): (b: seq<u8>)
    requires Plain(line)
    ensures b == line
  {
    seq(|line|, k requires 0 <= k < |line| => line[k])
  }

  function LineEnd(crlf: bool): seq<u8> {
    if crlf then [CR, LF] else [LF]
  }

  ghost predicate AllPlain(lines: seq<Text>) {
    forall i :: 0 <= i < |lines| ==> Plain(lines[i])
  }

  /** The bytes of a file, its lines ended by line feeds, with a carriage return before each or not. */
  function Join(lines: seq<Text>, crlf: bool): seq<u8>
    requires AllPlain(lines)
  {
    if lines == [] then [] else Narrow(lines[0]) + LineEnd(crlf) + Join(lines[1..], crlf)
  }

  lemma {:induction false} UptoStop(s: Text, stop: u16, rest: Text)
    requires stop !in s
    ensures Upto(s + [stop] + rest, stop) == s && Upto(s, stop) == s
  {
    if s != [] {
      assert (s + [stop] + rest)[1..] == s[1..] + [stop] + rest;
      UptoStop(s[1..], stop, rest);
    }
  }

  lemma {:induction false} NoReturns(s: Text)
    requires CR !in s
    ensures DropReturns(s) == s && DropReturns(s + [CR]) == s
  {
    if s != [] {
      assert (s + [CR])[1..] == s[1..] + [CR];
      NoReturns(s[1..]);
    } else {
      assert [CR][1..] == [];
    }
  }

  lemma PlainFacts(line: Text)
    requires Plain(line)
    ensures LF !in line && CR !in line && NUL !in line && |line| <= 126
  {
  }

  /** What is kept of a plain line is the line. */
  lemma KeptOf(line: Text, crlf: bool)
    requires Plain(line)
    ensures var raw := if crlf then line + [CR] else line;
      LF !in raw && DropReturns(raw) == line && Upto(line, NUL) == line
  {
    PlainFacts(line);
    hide Plain;
    NoReturns(line);
    UptoStop(line, NUL, []);
  }

  lemma FirstLine(line: Text, crlf: bool, rest: Text)
    requires Plain(line)
    ensures var text := line + LineEnd(crlf) + rest;
      text != [] && !Fails(text) && LineOf(text) == line && text[Taken(text)..] == rest
  {
    KeptOf(line, crlf);
    PlainFacts(line);
    hide Plain, Upto, DropReturns;
    RawLine(line, crlf, rest);
    hide LineEnd;
    UptoStop(if crlf then line + [CR] else line, LF, rest);
  }

  lemma RawLine(line: Text, crlf: bool, rest: Text)
    ensures var text, raw := line + LineEnd(crlf) + rest, if crlf then line + [CR] else line;
      text == raw + [LF] + rest && |text| > |raw| && text[|raw| + 1..] == rest
  {
    if crlf {
      assert line + LineEnd(crlf) == line + [CR] + [LF];
    }
  }

  lemma FirstJoined(bytes: seq<u8>, position: nat, line: Text, crlf: bool, rest: seq<u8>)
    requires Plain(line) && position <= |bytes| && !WideAt(bytes, position)
    requires bytes[position..] == Narrow(line) + LineEnd(crlf) + rest
    ensures position < |bytes| && !Fails(Rest(bytes, position)) && LineOf(Rest(bytes, position)) == line
    ensures Next(bytes, position) > 0 && bytes[Next(bytes, position)..] == rest
  {
    hide Plain, Fails, LineOf, Taken;
    FirstLine(line, crlf, rest);
    assert Rest(bytes, position) == line + LineEnd(crlf) + rest;
    assert bytes[Next(bytes, position)..] == bytes[position..][Taken(Rest(bytes, position))..];
  }

  lemma LinesStep(bytes: seq<u8>, position: nat)
    requires position < |bytes| && !Fails(Rest(bytes, position))
    ensures LinesFrom(bytes, position) ==
      var rest := LinesFrom(bytes, Next(bytes, position));
      Reading([LineOf(Rest(bytes, position))] + rest.lines, rest.complete)
  {
  }

  /** The last line of a file need not end in a line feed; an empty one is no line. */
  function LastLine(last: Text): seq<Text> {
    if last == [] then [] else [last]
  }

  /** The bytes of a file of these lines, the last of which, if not empty, has no line end. */
  function TextFile(lines: seq<Text>, crlf: bool, last: Text): seq<u8>
    requires AllPlain(lines) && Plain(last)
  {
    Join(lines, crlf) + Narrow(last)
  }

  lemma OnlyLast(bytes: seq<u8>, position: nat, last: Text)
    requires Plain(last) && position <= |bytes| && !WideAt(bytes, position) && bytes[position..] == last
    ensures LinesFrom(bytes, position) == Reading(LastLine(last), true)
  {
    if last != [] {
      UptoStop(last, LF, []);
      NoReturns(last);
      UptoStop(last, NUL, []);
      assert Rest(bytes, position) == last;
      hide Upto, DropReturns, Rest;
      assert LinesFrom(bytes, |bytes|) == Reading([], true);
    }
  }

  lemma TextFileStep(lines: seq<Text>, crlf: bool, last: Text)
    requires AllPlain(lines) && Plain(last) && lines != []
    ensures TextFile(lines, crlf, last) == Narrow(lines[0]) + LineEnd(crlf) + TextFile(lines[1..], crlf, last)
    ensures lines + LastLine(last) == [lines[0]] + (lines[1..] + LastLine(last))
  {
    hide Plain, Narrow, LineEnd;
  }

  lemma NoLines(crlf: bool, last: Text)
    requires Plain(last)
    ensures TextFile([], crlf, last) == last && [] + LastLine(last) == LastLine(last)
  {
  }

  lemma {:induction false} JoinedFrom(bytes: seq<u8>, position: nat, lines: seq<Text>, crlf: bool, last: Text)
    requires AllPlain(lines) && Plain(last) && position <= |bytes| && !WideAt(bytes, position)
    requires bytes[position..] == TextFile(lines, crlf, last)
    ensures LinesFrom(bytes, position) == Reading(lines + LastLine(last), true)
    decreases |lines|
  {
    hide Plain, Fails, LineOf, Rest, Next, LineEnd, Narrow, Join, LinesFrom, TextFile, LastLine;
    if lines == [] {
      NoLines(crlf, last);
      OnlyLast(bytes, position, last);
    } else {
      TextFileStep(lines, crlf, last);
      FirstJoined(bytes, position, lines[0], crlf, TextFile(lines[1..], crlf, last));
      JoinedFrom(bytes, Next(bytes, position), lines[1..], crlf, last);
      LinesStep(bytes, position);
    }
  }

  /** No byte of such a file is zero. */
  lemma {:induction false} JoinBytes(lines: seq<Text>, crlf: bool)
    requires AllPlain(lines)
    ensures forall k :: 0 <= k < |Join(lines, crlf)| ==> Join(lines, crlf)[k] != 0
  {
    if lines != [] {
      JoinBytes(lines[1..], crlf);
    }
  }

  lemma {:induction false} HoldsLine(lines: seq<Text>, crlf: bool, last: Text, i: nat)
    requires AllPlain(lines) && Plain(last) && i < |lines + LastLine(last)|
    ensures |TextFile(lines, crlf, last)| >= |(lines + LastLine(last))[i]|
    decreases |lines|
  {
    if lines != [] && i > 0 {
      assert (lines + LastLine(last))[i] == (lines[1..] + LastLine(last))[i - 1];
      HoldsLine(lines[1..], crlf, last, i - 1);
    }
  }

  lemma HoldsTwoLines(lines: seq<Text>, crlf: bool, last: Text, i: nat)
    requires AllPlain(lines) && Plain(last) && 0 < i < |lines + LastLine(last)|
    ensures |TextFile(lines, crlf, last)| >= |(lines + LastLine(last))[0]| + |(lines + LastLine(last))[i]|
  {
    assert (lines + LastLine(last))[i] == (lines[1..] + LastLine(last))[i - 1];
    HoldsLine(lines[1..], crlf, last, i - 1);
  }

  /** The first line begins with the UCS-2 mark. */
  predicate BeginsTagged(all: seq<Text>) {
    all != [] && [0xff, 0xfe] <= all[0]
  }

  lemma TaggedFile(lines: seq<Text>, crlf: bool, last: Text)
    requires AllPlain(lines) && Plain(last)
    ensures Tagged(TextFile(lines, crlf, last)) <==> BeginsTagged(lines + LastLine(last))
  {
    var b, all := TextFile(lines, crlf, last), lines + LastLine(last);
    if all != [] {
      assert |all[0]| >= 1 ==> b[0] == all[0][0];
      assert |all[0]| >= 2 ==> b[1] == all[0][1];
    }
  }

  /** The characters of text without zero bytes, taken as UCS-2: none is a single-byte one, except a last odd byte. */
  lemma {:induction false} UnitsOfBytes(b: seq<u8>)
    requires forall k :: 0 <= k < |b| ==> b[k] != 0
    ensures forall k :: 0 <= k < |Units(b)| ==>
      Units(b)[k] >= 0x100 || (k == |Units(b)| - 1 && Units(b)[k] == b[|b| - 1])
  {
    if |b| >= 2 {
      UnitsOfBytes(b[2..]);
    }
  }

  /** A line of at most one character, or that begins with a character beyond 255, sets no option. */
  predicate Meaningless(line: Text) {
    NoNul(line) && (|line| <= 1 || line[0] >= 0x100)
  }

  lemma NotOption(line: Text, key: Text)
    requires Meaningless(line) && Key(key)
    ensures !CheckOption(line, key)
  {
    hide CheckOption;
    CheckOptionExact(line, key);
    assert (key + [EQUALS])[0] == key[0] && key[0] in key;
  }

  lemma NoOption(line: Text)
    requires Meaningless(line)
    ensures Classify(line) == if line != [] && line[0] == COLON then Title(line[1..]) else Other
  {
    hide CheckOption, Value, Meaningless, L, Key;
    Keys();
    NotOption(line, L("PATH"));
    NotOption(line, L("KERNEL_PATH"));
    NotOption(line, L("CMDLINE"));
    NotOption(line, L("KERNEL_CMDLINE"));
    NotOption(line, L("TRACING"));
    NotOption(line, L("BOOT_TRACING"));
  }

  /** Taken for UCS-2, the whole file is one line that means nothing to the loop. */
  lemma MistakenLine(rest: Text)
    requires forall k :: 0 <= k < |rest| ==> rest[k] != NUL && (k < |rest| - 1 ==> rest[k] >= 0x100)
    ensures Taken(rest) == |rest| && (|LineOf(rest)| <= 1 || LineOf(rest)[0] >= 0x100)
    ensures |rest| >= 2 ==> Classify(LineOf(rest)) == Other
  {
    hide Classify;
    var line := LineOf(rest);
    if |rest| >= 2 {
      var raw := Upto(rest, LF);
      assert raw[0] == rest[0];
      assert DropReturns(raw) == [raw[0]] + DropReturns(raw[1..]);
      NoOption(line);
    }
  }

  lemma MistakenFile(fs: nat, bytes: seq<u8>, s: Settings)
    requires Tagged(bytes) && forall k :: 0 <= k < |bytes| ==> bytes[k] != 0
    ensures |bytes| >= 5 ==> Parse(fs, Lines(bytes).lines, s) == s
    ensures |Lines(bytes).lines| <= |[bytes]|
    ensures Lines(bytes).lines != [] ==> |Lines(bytes).lines[0]| <= 1 || Lines(bytes).lines[0][0] >= 0x100
    ensures !(Lines(bytes).lines == [] && Lines(bytes).complete)
  {
    hide CheckOption, Value, Fails, LineOf, Taken, Units, Upto, Classify;
    var rest := Units(bytes[2..]);
    UnitsOfBytes(bytes[2..]);
    UnitsNotZero(bytes[2..]);
    MistakenLine(rest);
    assert Next(bytes, 0) == |bytes|;
    assert LinesFrom(bytes, |bytes|) == Reading([], true);
    if !Fails(rest) {
      assert Lines(bytes).lines == [LineOf(rest)];
      assert [LineOf(rest)][..0] == [];
    }
  }

  lemma {:induction false} UnitsNotZero(b: seq<u8>)
    requires forall k :: 0 <= k < |b| ==> b[k] != 0
    ensures forall k :: 0 <= k < |Units(b)| ==> Units(b)[k] != 0
  {
    if |b| >= 2 {
      UnitsNotZero(b[2..]);
    }
  }

  /** The lines written to a file are the lines read, the last of them with or without a line end, if and only if the
      file does not begin like UCS-2 text. */
  lemma LinesOfJoin(lines: seq<Text>, crlf: bool, last: Text)
    requires AllPlain(lines) && Plain(last)
    ensures Lines(TextFile(lines, crlf, last)) == Reading(lines + LastLine(last), true) <==>
      !BeginsTagged(lines + LastLine(last))
  {
    hide Lines, LinesFrom, Parse, Plain;
    var b, all := TextFile(lines, crlf, last), lines + LastLine(last);
    TaggedFile(lines, crlf, last);
    if Tagged(b) {
      FileNotZero(lines, crlf, last);
      MistakenFile(0, b, Settings(None, None, None, None, false));
      assert |all[0]| >= 2 && all[0][0] == 0xff;
    } else {
      JoinedBegin(b, lines, crlf, last);
    }
  }

  lemma FileNotZero(lines: seq<Text>, crlf: bool, last: Text)
    requires AllPlain(lines) && Plain(last)
    ensures forall k :: 0 <= k < |TextFile(lines, crlf, last)| ==> TextFile(lines, crlf, last)[k] != 0
  {
    JoinBytes(lines, crlf);
  }

  lemma JoinedBegin(b: seq<u8>, lines: seq<Text>, crlf: bool, last: Text)
    requires AllPlain(lines) && Plain(last) && b == TextFile(lines, crlf, last) && !Tagged(b)
    ensures Lines(b) == Reading(lines + LastLine(last), true)
  {
    assert b[0..] == b;
    JoinedFrom(b, 0, lines, crlf, last);
  }

  /** From the bytes of a file to the entry: what was written is what is loaded, and loading succeeds, if the file
      does not begin like UCS-2 text; if it does, nothing at all is loaded. */
  lemma FileRoundTrip(fs: nat, lines: seq<Text>, crlf: bool, last: Text, t: nat, p: nat, c: nat,
                      name: Text, path: Text, cmdline: Text, s: Settings)
    requires AllPlain(lines) && Plain(last)
    requires Writes(lines + LastLine(last), t, p, c, name, path, cmdline)
    ensures var reading := Lines(TextFile(lines, crlf, last)); var r := Parse(fs, reading.lines, s);
      if BeginsTagged(lines + LastLine(last)) then r == s else reading.complete && Written(fs, name, path, cmdline, r)
  {
    var all := lines + LastLine(last);
    if BeginsTagged(all) {
      TaggedLong(all, t, p, c, name, path, cmdline);
      hide Lines, Parse, Plain, Written, Unrelated, OptionLine, L;
      TaggedFile(lines, crlf, last);
      FileNotZero(lines, crlf, last);
      HoldsTwoLines(lines, crlf, last, p);
      MistakenFile(fs, TextFile(lines, crlf, last), s);
    } else {
      hide Lines, Parse, Plain, Written, Unrelated, OptionLine, L;
      LinesOfJoin(lines, crlf, last);
      RoundTrip(fs, all, t, p, c, name, path, cmdline, s);
    }
  }

  lemma TaggedLong(all: seq<Text>, t: nat, p: nat, c: nat, name: Text, path: Text, cmdline: Text)
    requires Writes(all, t, p, c, name, path, cmdline) && BeginsTagged(all)
    ensures p > 0 && |all[0]| + |all[p]| >= 5
  {
    Keys();
    assert |L("PATH")| == 4 && |L("KERNEL_PATH")| == 11;
  }

  // ---------------------------------------------------------------------------
  // Any file
  // ---------------------------------------------------------------------------

  /** The characters that are kept of a line. */
  function CString(raw: Text): Text {
    Upto(DropReturns(raw), NUL)
  }

  /** A carriage return is dropped, and text without one is kept. */
  lemma ReturnsAre(a: Text)
    ensures DropReturns([CR]) == [] && (CR !in a ==> DropReturns(a) == a)
  {
    assert [CR][1..] == [];
    if CR !in a {
      NoReturns(a);
    }
  }

  lemma Regroup(a: Text, b: Text, c: Text)
    ensures (a + b) + c == a + (b + c)
  {
  }

  /** So it is in any text, piece by piece. */
  lemma {:induction false} ReturnsDropped(a: Text, b: Text)
    ensures DropReturns(a + b) == DropReturns(a) + DropReturns(b)
  {
    if a == [] {
      assert a + b == b;
    } else {
      hide DropReturns;
      var c, rest := a[0], a[1..];
      assert a == [c] + rest;
      ReturnsDropped(rest, b);
      Regroup([c], rest, b);
      FirstKept(c, rest + b);
      FirstKept(c, rest);
      Regroup([c], DropReturns(rest), DropReturns(b));
    }
  }

  lemma FirstKept(c: u16, s: Text)
    ensures DropReturns([c] + s) == if c == CR then DropReturns(s) else [c] + DropReturns(s)
  {
    assert ([c] + s)[1..] == s;
  }

  /** Lines, each followed by a line feed. */
  function Glue(raws: seq<Text>): Text {
    if raws == [] then [] else raws[0] + [LF] + Glue(raws[1..])
  }

  ghost predicate NoFeeds(raws: seq<Text>) {
    forall i :: 0 <= i < |raws| ==> LF !in raws[i]
  }

  /** What is read of these lines: the strings of all that come before the first that keeps more than 126 characters;
      reading is complete when there is none. */
  ghost predicate ReadsAs(raws: seq<Text>, r: Reading) {
    && |r.lines| <= |raws| && (r.complete <==> |r.lines| == |raws|)
    && (forall k :: 0 <= k < |r.lines| ==> |DropReturns(raws[k])| <= 126 && r.lines[k] == CString(raws[k]))
    && (|r.lines| < |raws| ==> |DropReturns(raws[|r.lines|])| > 126)
  }

  lemma FirstRaw(bytes: seq<u8>, position: nat, raw: Text, rest: Text)
    requires LF !in raw && position <= |bytes| && Rest(bytes, position) == raw + [LF] + rest
    ensures Fails(Rest(bytes, position)) <==> |DropReturns(raw)| > 126
    ensures LineOf(Rest(bytes, position)) == CString(raw) && Taken(Rest(bytes, position)) == |raw| + 1
  {
    UptoStop(raw, LF, rest);
  }

  lemma LastRaw(bytes: seq<u8>, position: nat, raw: Text)
    requires LF !in raw && position <= |bytes| && Rest(bytes, position) == raw
    ensures Fails(Rest(bytes, position)) <==> |DropReturns(raw)| > 126
    ensures LineOf(Rest(bytes, position)) == CString(raw) && Taken(Rest(bytes, position)) == |raw|
  {
    UptoStop(raw, LF, []);
  }

  /** What one read adds. */
  lemma ReadsMore(raw: Text, raws: seq<Text>, r: Reading)
    requires ReadsAs(raws, r) && |DropReturns(raw)| <= 126
    ensures ReadsAs([raw] + raws, Reading([CString(raw)] + r.lines, r.complete))
  {
    hide DropReturns, CString;
  }

  lemma FirstAscii(bytes: seq<u8>, position: nat, raw: Text, tail: Text)
    requires position <= |bytes| && !WideAt(bytes, position) && LF !in raw && bytes[position..] == raw + [LF] + tail
    ensures position < |bytes| && (Fails(Rest(bytes, position)) <==> |DropReturns(raw)| > 126)
    ensures LineOf(Rest(bytes, position)) == CString(raw)
    ensures Next(bytes, position) > 0 && bytes[Next(bytes, position)..] == tail
  {
    FirstRaw(bytes, position, raw, tail);
    hide DropReturns, CString, LineOf, Fails, Taken;
    assert bytes[Next(bytes, position)..] == bytes[position..][|raw| + 1..];
  }

  lemma LastAscii(bytes: seq<u8>, position: nat, last: Text)
    requires position <= |bytes| && !WideAt(bytes, position) && LF !in last && bytes[position..] == last
    ensures ReadsAs(LastLine(last), LinesFrom(bytes, position))
  {
    if last != [] {
      LastRaw(bytes, position, last);
      hide DropReturns, CString, LineOf, Fails, Taken;
      assert Next(bytes, position) == |bytes|;
      assert LinesFrom(bytes, |bytes|) == Reading([], true);
      hide Rest, Next;
    }
  }

  lemma GlueStep(raws: seq<Text>, last: Text)
    requires raws != []
    ensures Glue(raws) + last == raws[0] + [LF] + (Glue(raws[1..]) + last)
    ensures raws + LastLine(last) == [raws[0]] + (raws[1..] + LastLine(last))
  {
    Regroup(raws[0] + [LF], Glue(raws[1..]), last);
    hide Glue, LastLine;
    assert raws == [raws[0]] + raws[1..];
  }

  lemma NoRaws(last: Text)
    ensures Glue([]) + last == last && [] + LastLine(last) == LastLine(last)
  {
  }

  /** Any single-byte text is read as its lines are. */
  lemma {:induction false} AsciiExact(bytes: seq<u8>, position: nat, raws: seq<Text>, last: Text)
    requires position <= |bytes| && !WideAt(bytes, position) && NoFeeds(raws) && LF !in last
    requires bytes[position..] == Glue(raws) + last
    ensures ReadsAs(raws + LastLine(last), LinesFrom(bytes, position))
    decreases |raws|
  {
    hide DropReturns, CString, LineOf, Fails, Taken, Rest, Next, Glue, LinesFrom, ReadsAs, LastLine;
    if raws == [] {
      NoRaws(last);
      LastAscii(bytes, position, last);
    } else {
      GlueStep(raws, last);
      FirstAscii(bytes, position, raws[0], Glue(raws[1..]) + last);
      AsciiExact(bytes, Next(bytes, position), raws[1..], last);
      AddsLine(bytes, position, raws[0], raws[1..] + LastLine(last));
    }
  }

  /** The reading from a position on is the reading of its line and that from the next. */
  lemma AddsLine(bytes: seq<u8>, position: nat, raw: Text, raws: seq<Text>)
    requires position < |bytes| && (Fails(Rest(bytes, position)) <==> |DropReturns(raw)| > 126)
    requires LineOf(Rest(bytes, position)) == CString(raw) && ReadsAs(raws, LinesFrom(bytes, Next(bytes, position)))
    ensures ReadsAs([raw] + raws, LinesFrom(bytes, position))
  {
    hide DropReturns, CString, LineOf, Fails, Rest, Next;
    if |DropReturns(raw)| <= 126 {
      ReadsMore(raw, raws, LinesFrom(bytes, Next(bytes, position)));
    }
  }

  /** A CHAR16 character as UCS-2 bytes, low byte first. */
  function Pair(c: u16): (b: seq<u8>)
    ensures |b| == 2 && b[0] as int + 0x100 * b[1] as int == c
  {
    [c % 0x100, c / 0x100]
  }

  function Encode(line: Text): (b: seq<u8>)
    ensures |b| == 2 * |line|
  {
    if line == [] then [] else Pair(line[0]) + Encode(line[1..])
  }

  lemma UnitsOfPair(c: u16, rest: seq<u8>)
    ensures Units(Pair(c) + rest) == [c] + Units(rest)
  {
    assert (Pair(c) + rest)[2..] == rest;
    hide Pair;
  }

  lemma EncodeStep(line: Text, rest: seq<u8>)
    requires line != []
    ensures Encode(line) + rest == Pair(line[0]) + (Encode(line[1..]) + rest)
  {
    hide Pair;
  }

  lemma FirstOf(line: Text, rest: Text)
    requires line != []
    ensures [line[0]] + (line[1..] + rest) == line + rest
  {
  }

  lemma {:induction false} UnitsOfEncoded(line: Text, rest: seq<u8>)
    ensures Units(Encode(line) + rest) == line + Units(rest)
  {
    if line == [] {
      assert Encode(line) + rest == rest;
    } else {
      EncodeStep(line, rest);
      hide Units, Pair, Encode;
      UnitsOfEncoded(line[1..], rest);
      UnitsOfPair(line[0], Encode(line[1..]) + rest);
      FirstOf(line, Units(rest));
    }
  }

  /** The bytes of a file that begins with the UCS-2 mark and one encoded line. */
  function MarkedFile(line: Text, rest: seq<u8>): seq<u8> {
    [0xff, 0xfe] + Encode(line + [LF]) + rest
  }

  /** Of such a file the first line is read as UCS-2, and whatever follows as single-byte text. */
  lemma MarkedExact(line: Text, rest: seq<u8>, raws: seq<Text>, last: Text)
    requires LF !in line && NoFeeds(raws) && LF !in last && rest == Glue(raws) + last
    ensures ReadsAs([line] + (raws + LastLine(last)), Lines(MarkedFile(line, rest)))
  {
    var bytes := MarkedFile(line, rest);
    assert bytes[2..] == Encode(line + [LF]) + rest;
    UnitsOfEncoded(line + [LF], rest);
    FirstRaw(bytes, 0, line, Units(rest));
    assert Next(bytes, 0) == 2 + 2 * (|line| + 1) && bytes[Next(bytes, 0)..] == rest;
    hide DropReturns, CString, LineOf, Fails, Taken, Rest, Next, Glue, Units, ReadsAs, LinesFrom;
    AsciiExact(bytes, Next(bytes, 0), raws, last);
    AddsLine(bytes, 0, line, raws + LastLine(last));
  }

  // ---------------------------------------------------------------------------
  // UCS-2 files
  // ---------------------------------------------------------------------------

  /** A file of UCS-2 text with characters below 256: the mark, then every other byte zero. */
  predicate WideFile(bytes: seq<u8>) {
    Tagged(bytes) && forall k :: 2 <= k < |bytes| && k % 2 == 1 ==> bytes[k] == 0
  }

  predicate EndsEarly(s: Text) {
    |s| <= 1 || s[0] == NUL || s[1] == NUL
  }

  lemma UptoShort(s: Text)
    requires EndsEarly(s)
    ensures |Upto(s, NUL)| <= 1
  {
    if |s| > 1 && s[0] != NUL {
      assert s[1..][0] == NUL;
    }
  }

  lemma UptoEndsEarly(s: Text, stop: u16)
    requires EndsEarly(s)
    ensures EndsEarly(Upto(s, stop))
  {
    var u := Upto(s, stop);
    assert |u| >= 2 ==> u[0] == s[0] && u[1] == s[1];
  }

  lemma DropEndsEarly(s: Text)
    requires EndsEarly(s)
    ensures EndsEarly(DropReturns(s))
  {
    if |s| >= 2 {
      assert s[1..][0] == s[1];
      assert DropReturns(s[1..]) != [] || s[1] == CR;
    }
  }

  lemma ShortLine(rest: Text)
    requires EndsEarly(rest)
    ensures |LineOf(rest)| <= 1
  {
    hide Upto, DropReturns, EndsEarly;
    UptoEndsEarly(rest, LF);
    DropEndsEarly(Upto(rest, LF));
    UptoShort(DropReturns(Upto(rest, LF)));
  }

  /** Only the first line of such a file is read as UCS-2. In the others a zero byte comes first or second. */
  lemma {:induction false} WideLinesFrom(bytes: seq<u8>, position: nat)
    requires WideFile(bytes) && 2 <= position <= |bytes|
    ensures forall i :: 0 <= i < |LinesFrom(bytes, position).lines| ==>
      var line := LinesFrom(bytes, position).lines[i]; NoNul(line) && |line| <= 1
    decreases |bytes| - position
  {
    hide LineOf, Fails, Taken;
    if position < |bytes| {
      ShortLine(Rest(bytes, position));
      WideLinesFrom(bytes, Next(bytes, position));
    }
  }

  lemma ShortSaysNothing(line: Text)
    requires NoNul(line) && |line| <= 1
    ensures Classify(line) == Other || Classify(line) == Title([])
  {
    hide Classify;
    NoOption(line);
    assert |line| == 1 ==> line[1..] == [];
  }

  /** No options are set, so far. */
  predicate NoOptions(s: Settings, r: Settings) {
    r.path == s.path && r.tracing == s.tracing && (r.cmdline == s.cmdline || r.cmdline == Some([]))
  }

  lemma {:induction false} ShortLinesSayNothing(fs: nat, lines: seq<Text>, s: Settings)
    requires s.name.None? && forall i :: 0 < i < |lines| ==> NoNul(lines[i]) && |lines[i]| <= 1
    ensures NoOptions(s, Parse(fs, lines, s))
  {
    hide Classify;
    if lines != [] {
      var init := lines[..|lines| - 1];
      ShortLinesSayNothing(fs, init, s);
      if |lines| > 1 {
        ShortSaysNothing(lines[|lines| - 1]);
      } else {
        assert init == [] && Parse(fs, init, s) == s;
      }
    }
  }

  /** A UCS-2 file is of no use: whatever it says, an entry without a name gets no path from it, no command line
      but the empty one, and no tracing. */
  lemma WideFileUseless(fs: nat, bytes: seq<u8>, s: Settings)
    requires WideFile(bytes) && s.name.None?
    ensures NoOptions(s, Parse(fs, Lines(bytes).lines, s))
  {
    hide Parse, NoOptions, Fails, LineOf, Taken, Units;
    var lines := Lines(bytes).lines;
    var next := Next(bytes, 0);
    WideLinesFrom(bytes, next);
    assert lines != [] ==> lines[1..] == LinesFrom(bytes, next).lines;
    forall i | 0 < i < |lines| ensures NoNul(lines[i]) && |lines[i]| <= 1 {
      assert lines[i] == lines[1..][i - 1];
    }
    ShortLinesSayNothing(fs, lines, s);
  }
}
