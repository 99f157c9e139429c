/** The maintenance prompt and the settings in RAM, next to the copy in battery-backed memory. */
module Maintenance {
  import opened Words
  import opened Nvram

  const LINE_CAP := 129

  // ---------- Lines and commands ----------

  /** Line editing: what has been typed so far is `buf`. */
  function EditLine(input: seq<u8>, buf: seq<u8>): (r: (Option<seq<u8>>, seq<u8>))
    ensures |r.1| <= |input| && (r.0.Some? ==> |r.1| < |input|)
    decreases |input|
  {
    if input == [] then (None, [])
    else
      var ch, rest := input[0], input[1..];
      if ch == 0x0d || ch == 0x0a then (Some(buf), rest)
      else if ch == 0x08 || ch == 0x7f then EditLine(rest, if buf == [] then [] else buf[..|buf| - 1])
      else if ch < 0x20 || ch >= 0x7f then EditLine(rest, buf)
      else EditLine(rest, if |buf| + 1 < LINE_CAP then buf + [ch] else buf)
  }

  lemma {:induction false} LinesAreText(input: seq<u8>, buf: seq<u8>)
    requires |buf| < LINE_CAP && NoNul(buf)
    ensures var line := EditLine(input, buf).0; line.Some? ==> |line.value| < LINE_CAP && NoNul(line.value)
    decreases |input|
  {
    if input != [] {
      var ch, rest := input[0], input[1..];
      if ch == 0x08 || ch == 0x7f {
        LinesAreText(rest, if buf == [] then [] else buf[..|buf| - 1]);
      } else if 0x20 <= ch < 0x7f && |buf| + 1 < LINE_CAP {
        LinesAreText(rest, buf + [ch]);
      } else {
        LinesAreText(rest, buf);
      }
    }
  }

  datatype Command = Nothing | Quit | Print | Reset | SetCmdline(text: seq<u8>) | SetPartition(ch: u8)
                   | SetFlag(bit: u8, ch: u8) | SetPriority(ch: u8)

  /** A letter, a blank and one more character. */
  predicate OneArgument(line: seq<u8>, letter: char) {
    |line| == 3 && line[0] == letter as int && line[1] == 0x20
  }

  function Parse(line: seq<u8>): Command {
    if line == [] then Nothing
    else if line == ['q' as int] then Quit
    else if line == ['p' as int] then Print
    else if line == ['d' as int] then Reset
    else if |line| >= 2 && line[0] == 'a' as int && line[1] == 0x20 then SetCmdline(line[2..])
    else if line == ['a' as int] then SetCmdline([])
    else if OneArgument(line, 'b') then SetPartition(line[2])
    else if OneArgument(line, 'm') then SetFlag(MEMTEST, line[2])
    else if OneArgument(line, 't') then SetFlag(RUN_TEST_BLOB, line[2])
    else if OneArgument(line, 's') then SetFlag(SERIAL_CONSOLE, line[2])
    else if OneArgument(line, 'v') then SetFlag(VESA, line[2])
    else if OneArgument(line, 'o') then SetPriority(line[2])
    else Nothing
  }

  const ZERO: u8 := 0x30
  const ONE: u8 := 0x31
  const TWO: u8 := 0x32

  predicate KnownBit(bit: u8) {
    bit in {MEMTEST, SERIAL_CONSOLE, VESA, RUN_TEST_BLOB}
  }

  function SetFlags(s: Settings, flags: u8): Settings {
    s.(flags0 := flags, memtest := HasBit(flags, MEMTEST), testBlob := HasBit(flags, RUN_TEST_BLOB))
  }

  /** What a command asks for. */
  function Apply(s: Settings, c: Command): Settings {
    match c
    case Reset => DEFAULTS
    case SetCmdline(text) => s.(cmdline := Cut(text))
    case SetPartition(ch) => if ch == ZERO || ch == ONE then s.(partition := ch - ZERO) else s
    case SetFlag(bit, ch) =>
      if (ch == ZERO || ch == ONE) && KnownBit(bit) then SetFlags(s, WithBit(s.flags0, bit, ch == ONE)) else s
    case SetPriority(ch) => if ZERO <= ch <= TWO then s.(priority := ch - ZERO) else s
    case _ => s
  }

  /** The settings after a stream of keystrokes; the prompt ends at `q`, or waits when the keys run out. */
  function Typed(s: Settings, input: seq<u8>): Settings
    decreases |input|
  {
    var (line, rest) := EditLine(input, []);
    if line.None? || Parse(line.value) == Quit then s else Typed(Apply(s, Parse(line.value)), rest)
  }

  // ---------- RAM and battery-backed memory agree ----------

  /** A fresh load would change nothing and return exactly `s`. */
  predicate Agree(s: Settings, cmos: seq<u8>) {
    |cmos| == SIZE && RepairedImage(cmos) == cmos && Decode(cmos) == s && SoundImage(cmos)
  }

  lemma AgreeIs(s: Settings, cmos: seq<u8>)
    requires |cmos| == SIZE
    ensures Agree(s, cmos) <==> SoundImage(cmos) && Decode(cmos) == s
  {
    hide SoundImage, Decode, RepairedImage;
    if SoundImage(cmos) {
      SoundUnchanged(cmos);
    }
  }

  lemma ByteAgrees(s: Settings, cmos: seq<u8>, at: nat, value: u8, s': Settings)
    requires Agree(s, cmos)
    requires (at == PARTITION_OFF && value < 2 && s' == s.(partition := value))
             || (at == FLAGS_OFF && value < FLAGS_LIMIT && s' == SetFlags(s, value))
             || (at == PRIORITY_OFF && value <= PRIORITY_MAX && s' == s.(priority := value))
    ensures Agree(s', cmos[at := value])
  {
    hide SoundImage, RepairedImage, HasBit, StoredCmdline;
    SavedByte(cmos, at, value);
    AgreeIs(s', cmos[at := value]);
  }

  lemma CmdlineAgrees(s: Settings, cmos: seq<u8>, text: seq<u8>)
    requires Agree(s, cmos) && |text| < CMDLINE_MAX && NoNul(text)
    ensures Agree(s.(cmdline := text), WithCmdline(cmos, text))
  {
    hide SoundImage, RepairedImage, Decode, WithCmdline;
    SavedCmdline(cmos, text);
    AgreeIs(s.(cmdline := text), WithCmdline(cmos, text));
  }

  lemma InitialAgrees()
    ensures Agree(DEFAULTS, InitialImage())
  {
    hide SoundImage, RepairedImage, Decode, InitialImage;
    InitialSound();
    AgreeIs(DEFAULTS, InitialImage());
  }

  lemma LoadAgrees(cmos: seq<u8>)
    requires |cmos| == SIZE
    ensures Agree(Decode(RepairedImage(cmos)), RepairedImage(cmos))
  {
    hide SoundImage, RepairedImage, Decode;
    RepairMakesSound(cmos);
    AgreeIs(Decode(RepairedImage(cmos)), RepairedImage(cmos));
  }

  // ---------- The firmware ----------

  class Firmware {
    /** Whether the extended CMOS is there at all. */
    const present: bool
    var cmos: seq<u8>
    var flags0: u8
    var priority: u8
    var partition: u8
    var memtest: bool
    var testBlob: bool
    /** The command line buffer, NUL-terminated. */
    var cmdline: seq<u8>
    var input: seq<u8>

    constructor (image: seq<u8>, hasCmos: bool, keys: seq<u8>)
      requires |image| == SIZE
      ensures cmos == image && present == hasCmos && input == keys && Sized()
    {
      present, cmos, input := hasCmos, image, keys;
      flags0, priority, partition, memtest, testBlob, cmdline := 0, 0, 0, false, false, Zeros(CMDLINE_MAX);
    }

    predicate Sized()
      reads this
    {
      |cmos| == SIZE && |cmdline| == CMDLINE_MAX
    }

    function Now(): Settings
      reads this
    {
      Settings(flags0, priority, partition, memtest, testBlob, CStr(cmdline))
    }

    method InitDefaults()
      requires Sized()
      modifies this`cmos
      ensures cmos == InitialImage()
    {
      cmos := cmos[0 := MAGIC % 0x100][1 := MAGIC / 0x100 % 0x100]
                  [2 := MAGIC / 0x1_0000 % 0x100][3 := MAGIC / 0x100_0000];
      cmos := cmos[PARTITION_OFF := 0][FLAGS_OFF := FLAGS_DEFAULT][PRIORITY_OFF := PRIORITY_DEFAULT];
      ghost var head := cmos[..CMDLINE_OFF];
      for i := CMDLINE_OFF to SIZE
        invariant |cmos| == SIZE && cmos[..i] == head + Zeros(i - CMDLINE_OFF)
      {
        ghost var before := cmos[..i];
        cmos := cmos[i := 0];
        assert cmos[..i + 1] == before + [0];
        assert Zeros(i - CMDLINE_OFF) + [0] == Zeros(i + 1 - CMDLINE_OFF);
      }
      assert cmos == cmos[..SIZE];
    }

    /** Copies the stored command line up to its NUL; without one it is dropped in both places. */
    method LoadCmdline()
      requires Sized()
      modifies this`cmdline, this`cmos
      ensures Sized() && cmos == CmdlineRepaired(old(cmos)) && CStr(cmdline) == StoredCmdline(old(cmos))
    {
      hide CStr;
      ghost var field := cmos[CMDLINE_OFF..];
      var i, terminated := 0, false;
      while i < CMDLINE_MAX && !terminated
        invariant i <= CMDLINE_MAX == |cmdline| && cmos == old(cmos)
        invariant cmdline[..i] == field[..i] && NoNul(field[..i])
        invariant terminated ==> i < CMDLINE_MAX && field[i] == 0 && cmdline[i] == 0
        decreases CMDLINE_MAX - i, if terminated then 0 else 1
      {
        var ch := cmos[CMDLINE_OFF + i];
        cmdline := cmdline[i := ch];
        if ch == 0 {
          terminated := true;
        } else {
          assert field[..i + 1] == field[..i] + [ch];
          i := i + 1;
        }
      }
      CStrEnds(field, i);
      if !terminated {
        cmdline := cmdline[0 := 0];
        cmos := cmos[CMDLINE_OFF := 0];
        i := 0;
      }
      CStrEnds(cmdline, i);
    }

    /** A stored byte, put back to `fallback` in place when it is `limit` or more. */
    method LoadByte(at: nat, limit: nat, fallback: u8) returns (v: u8)
      requires Sized() && at < CMDLINE_OFF
      modifies this`cmos
      ensures Sized() && cmos == Repaired(old(cmos), at, limit, fallback) && v == cmos[at]
    {
      v := cmos[at];
      if v >= limit {
        v := fallback;
        cmos := cmos[at := v];
      }
    }

    /** bios_nvram_load_settings. */
    method Load()
      requires Sized()
      modifies this`cmos, this`flags0, this`priority, this`partition, this`memtest, this`testBlob, this`cmdline
      ensures Sized()
      ensures present ==> cmos == RepairedImage(old(cmos)) && Now() == Decode(cmos)
      ensures !present ==> cmos == old(cmos) && Now() == DEFAULTS
    {
      hide CStr, InitialImage, HasBit, Le32, CmdlineRepaired, StoredCmdline;
      flags0, priority, partition, memtest, testBlob := FLAGS_DEFAULT, PRIORITY_DEFAULT, 0, false, false;
      cmdline := cmdline[0 := 0];
      CStrEnds(cmdline, 0);
      if !present {
        return;
      }
      if Le32(cmos, 0) != MAGIC {
        InitDefaults();
      }
      partition := LoadByte(PARTITION_OFF, 2, 0);
      flags0 := LoadByte(FLAGS_OFF, FLAGS_LIMIT, FLAGS_DEFAULT);
      memtest, testBlob := HasBit(flags0, MEMTEST), HasBit(flags0, RUN_TEST_BLOB);
      priority := LoadByte(PRIORITY_OFF, PRIORITY_MAX + 1, PRIORITY_DEFAULT);
      ghost var c3 := cmos;
      LoadCmdline();
      CmdlineRepairKeeps(c3);
    }

    /** bios_nvram_save_cmdline_suffix for the string in `text`. */
    method SaveCmdline(text: seq<u8>)
      requires Sized() && |CStr(text)| < |text|
      modifies this`cmos
      ensures cmos == if present then WithCmdline(old(cmos), Cut(CStr(text))) else old(cmos)
    {
      hide CStr;
      if !present {
        return;
      }
      CStrIs(text);
      ghost var line := CStr(text);
      var i := 0;
      while i < CMDLINE_MAX - 1 && text[i] != 0
        invariant i <= |line| && i < CMDLINE_MAX && |cmos| == SIZE
        invariant cmos[..CMDLINE_OFF] == old(cmos)[..CMDLINE_OFF] && cmos[CMDLINE_OFF..CMDLINE_OFF + i] == line[..i]
      {
        ghost var before := cmos[CMDLINE_OFF..CMDLINE_OFF + i];
        assert i < |line| && line[i] == text[i];
        cmos := cmos[CMDLINE_OFF + i := text[i]];
        assert cmos[CMDLINE_OFF..CMDLINE_OFF + i + 1] == before + [text[i]];
        i := i + 1;
      }
      assert i == |Cut(line)| && line[..i] == Cut(line);
      ghost var head := cmos[..CMDLINE_OFF + i];
      assert head == old(cmos)[..CMDLINE_OFF] + Cut(line);
      ZeroRest(i);
    }

    method ZeroRest(from: nat)
      requires Sized() && from < CMDLINE_MAX
      modifies this`cmos
      ensures cmos == old(cmos)[..CMDLINE_OFF + from] + Zeros(CMDLINE_MAX - from)
    {
      ghost var head := cmos[..CMDLINE_OFF + from];
      for i := from to CMDLINE_MAX
        invariant |cmos| == SIZE && cmos[..CMDLINE_OFF + i] == head + Zeros(i - from)
      {
        ghost var before := cmos[..CMDLINE_OFF + i];
        cmos := cmos[CMDLINE_OFF + i := 0];
        assert cmos[..CMDLINE_OFF + i + 1] == before + [0];
        assert Zeros(i - from) + [0] == Zeros(i + 1 - from);
      }
      assert cmos == cmos[..SIZE];
    }

    method SavePartition(part: u8)
      requires Sized()
      modifies this`cmos
      ensures cmos == if present then old(cmos)[PARTITION_OFF := part] else old(cmos)
    {
      if present {
        cmos := cmos[PARTITION_OFF := part];
      }
    }

    method SaveFlags0(flags: u8)
      requires Sized()
      modifies this`cmos
      ensures cmos == if present then old(cmos)[FLAGS_OFF := flags % FLAGS_LIMIT] else old(cmos)
    {
      if present {
        cmos := cmos[FLAGS_OFF := flags % FLAGS_LIMIT];
      }
    }

    method SavePriority(value: u8)
      requires Sized()
      modifies this`cmos
      ensures cmos == if present then old(cmos)[PRIORITY_OFF := value] else old(cmos)
    {
      if present {
        cmos := cmos[PRIORITY_OFF := value];
      }
    }

    // ---------- Commands ----------

    /** The string in RAM and the stored one are cut at the same place. */
    method ChangeCmdline(text: seq<u8>)
      requires Sized() && NoNul(text) && (present ==> Agree(Now(), cmos))
      modifies this`cmdline, this`cmos
      ensures Sized() && Now() == Apply(old(Now()), SetCmdline(text)) && (present ==> Agree(Now(), cmos))
    {
      hide CStr, Agree, WithCmdline;
      var i := 0;
      while i < CMDLINE_MAX - 1 && i < |text|
        invariant i <= |Cut(text)| && |cmdline| == CMDLINE_MAX && cmdline[..i] == text[..i] && cmos == old(cmos)
      {
        cmdline := cmdline[i := text[i]];
        i := i + 1;
      }
      cmdline := cmdline[i := 0];
      assert text[..i] == Cut(text);
      CutIsText(text);
      CStrEnds(cmdline, i);
      assert CStr(cmdline) == Cut(text);
      if present {
        CmdlineAgrees(old(Now()), cmos, Cut(text));
      }
      SaveCmdline(cmdline);
      assert Cut(CStr(cmdline)) == Cut(text);
    }

    method ChangePartition(ch: u8)
      requires Sized() && (present ==> Agree(Now(), cmos))
      modifies this`partition, this`cmos
      ensures Sized() && Now() == Apply(old(Now()), SetPartition(ch)) && (present ==> Agree(Now(), cmos))
    {
      hide CStr, Agree;
      if ch != ZERO && ch != ONE {
        return;
      }
      partition := ch - ZERO;
      if present {
        ByteAgrees(old(Now()), cmos, PARTITION_OFF, partition, Now());
      }
      SavePartition(partition);
    }

    method ChangeFlag(ch: u8, bit: u8)
      requires Sized() && KnownBit(bit) && (present ==> Agree(Now(), cmos))
      modifies this`flags0, this`memtest, this`testBlob, this`cmos
      ensures Sized() && Now() == Apply(old(Now()), SetFlag(bit, ch)) && (present ==> Agree(Now(), cmos))
    {
      hide CStr, Agree, HasBit, WithBit;
      if ch != ZERO && ch != ONE {
        return;
      }
      ghost var flags := flags0;
      flags0 := if ch == ONE then WithBit(flags0, bit, true) else WithBit(flags0, bit, false);
      memtest, testBlob := HasBit(flags0, MEMTEST), HasBit(flags0, RUN_TEST_BLOB);
      if present {
        AgreeFlags(old(Now()), cmos);
        WithBitKnown(flags, bit, ch == ONE, bit);
        ByteAgrees(old(Now()), cmos, FLAGS_OFF, flags0, Now());
      }
      SaveFlags0(flags0);
    }

    method ChangePriority(ch: u8)
      requires Sized() && (present ==> Agree(Now(), cmos))
      modifies this`priority, this`cmos
      ensures Sized() && Now() == Apply(old(Now()), SetPriority(ch)) && (present ==> Agree(Now(), cmos))
    {
      hide CStr, Agree;
      if ch < ZERO || ch > TWO {
        return;
      }
      priority := ch - ZERO;
      if present {
        ByteAgrees(old(Now()), cmos, PRIORITY_OFF, priority, Now());
      }
      SavePriority(priority);
    }

    method ResetDefaults()
      requires Sized()
      modifies this`cmos, this`flags0, this`priority, this`partition, this`memtest, this`testBlob, this`cmdline
      ensures Sized() && Now() == Apply(old(Now()), Reset) && (present ==> Agree(Now(), cmos))
    {
      hide CStr, Agree, InitialImage;
      if present {
        InitDefaults();
        InitialAgrees();
      }
      flags0, priority, partition, memtest, testBlob := FLAGS_DEFAULT, PRIORITY_DEFAULT, 0, false, false;
      cmdline := cmdline[0 := 0];
      CStrEnds(cmdline, 0);
    }

    /** One line of keystrokes; None when the keys run out first. */
    method ReadLine() returns (line: Option<seq<u8>>)
      modifies this`input
      ensures (line, input) == EditLine(old(input), [])
    {
      var buf := [];
      while input != []
        invariant EditLine(input, buf) == EditLine(old(input), [])
        decreases |input|
      {
        var ch := input[0];
        input := input[1..];
        if ch == 0x0d || ch == 0x0a {
          return Some(buf);
        }
        if ch == 0x08 || ch == 0x7f {
          if buf != [] {
            buf := buf[..|buf| - 1];
          }
        } else if ch >= 0x20 && ch < 0x7f && |buf| + 1 < LINE_CAP {
          buf := buf + [ch];
        }
      }
      return None;
    }

    method Execute(line: seq<u8>)
      requires Sized() && NoNul(line) && (present ==> Agree(Now(), cmos))
      modifies this
      ensures Sized() && Now() == Apply(old(Now()), Parse(line)) && (present ==> Agree(Now(), cmos))
              && input == old(input)
    {
      hide CStr, Agree;
      if line == [] {
        return;
      }
      if line == ['d' as int] {
        ResetDefaults();
      } else if |line| >= 2 && line[0] == 'a' as int && line[1] == 0x20 {
        ChangeCmdline(line[2..]);
      } else if line == ['a' as int] {
        ChangeCmdline([]);
      } else if OneArgument(line, 'b') {
        ChangePartition(line[2]);
      } else if OneArgument(line, 'm') {
        ChangeFlag(line[2], MEMTEST);
      } else if OneArgument(line, 't') {
        ChangeFlag(line[2], RUN_TEST_BLOB);
      } else if OneArgument(line, 's') {
        ChangeFlag(line[2], SERIAL_CONSOLE);
      } else if OneArgument(line, 'v') {
        ChangeFlag(line[2], VESA);
      } else if OneArgument(line, 'o') {
        ChangePriority(line[2]);
      }
    }

    /**
     * The prompt, for any stream of keystrokes: RAM ends as the commands say, and whether the prompt has been left
     * or still waits for a key, a fresh load would return exactly what RAM holds.
     */
    method Prompt() returns (left: bool)
      requires Sized() && (present ==> Agree(Now(), cmos))
      modifies this
      ensures Sized() && Now() == Typed(old(Now()), old(input)) && (present ==> Agree(Now(), cmos))
    {
      hide CStr, Agree, Apply, Parse, EditLine;
      while true
        invariant Sized() && (present ==> Agree(Now(), cmos))
        invariant Typed(Now(), input) == Typed(old(Now()), old(input))
        decreases |input|
      {
        LinesAreText(input, []);
        var line := ReadLine();
        if line.None? {
          return false;
        }
        if line.value == ['q' as int] {
          QuitParses();
          return true;
        }
        OnlyQuitQuits(line.value);
        Execute(line.value);
      }
    }

    // ---------- Other writers of settings ----------

    /** bios_settings_consume_test_blob_request: the request is answered once. */
    method ConsumeTestBlobRequest()
      requires Sized() && (present ==> Agree(Now(), cmos))
      modifies this`flags0, this`testBlob, this`cmos
      ensures Sized() && (present ==> Agree(Now(), cmos) && !testBlob)
      ensures flags0 == WithBit(old(flags0), RUN_TEST_BLOB, false)
    {
      hide CStr, Agree, HasBit, WithBit;
      WithBitIsOff(flags0);
      if present {
        AgreeFlags(Now(), cmos);
      }
      if !HasBit(flags0, RUN_TEST_BLOB) {
        return;
      }
      ghost var flags := flags0;
      flags0, testBlob := WithBit(flags0, RUN_TEST_BLOB, false), false;
      if present {
        WithBitKnown(flags, RUN_TEST_BLOB, false, RUN_TEST_BLOB);
        WithBitKnown(flags, RUN_TEST_BLOB, false, MEMTEST);
        ByteAgrees(old(Now()), cmos, FLAGS_OFF, flags0, Now());
      }
      SaveFlags0(flags0);
    }

    /** bios_settings_record_boot_success: an undecided priority learns the drive that booted. */
    method RecordBootSuccess(kind: u8)
      requires Sized() && (present ==> Agree(Now(), cmos))
      modifies this`priority, this`cmos
      ensures Sized() && (present ==> Agree(Now(), cmos))
      ensures priority == if old(priority) == 0 && (kind == 1 || kind == 2) then kind else old(priority)
    {
      hide CStr, Agree;
      if priority != 0 || (kind != 1 && kind != 2) {
        return;
      }
      priority := kind;
      if present {
        ByteAgrees(old(Now()), cmos, PRIORITY_OFF, kind, Now());
      }
      SavePriority(kind);
    }
  }

  lemma CutIsText(text: seq<u8>)
    requires NoNul(text)
    ensures NoNul(Cut(text)) && Cut(Cut(text)) == Cut(text)
  {
  }

  /** What agreement says about the flags in RAM. */
  lemma AgreeFlags(s: Settings, cmos: seq<u8>)
    requires Agree(s, cmos)
    ensures s.flags0 < FLAGS_LIMIT && s.memtest == HasBit(s.flags0, MEMTEST)
            && s.testBlob == HasBit(s.flags0, RUN_TEST_BLOB)
  {
    hide CStr, RepairedImage, HasBit;
  }

  lemma WithBitIsOff(flags: u8)
    ensures !HasBit(flags, RUN_TEST_BLOB) ==> WithBit(flags, RUN_TEST_BLOB, false) == flags
  {
    hide HasBit;
  }

  lemma QuitParses()
    ensures Parse(['q' as int]) == Quit
  {
  }

  lemma OnlyQuitQuits(line: seq<u8>)
    ensures Parse(line) == Quit ==> line == ['q' as int]
  {
  }

  /** Dropping an endless command line changes nothing else that is read. */
  lemma CmdlineRepairKeeps(cmos: seq<u8>)
    requires |cmos| == SIZE
    ensures StoredCmdline(CmdlineRepaired(cmos)) == StoredCmdline(cmos)
    ensures CmdlineRepaired(cmos)[..CMDLINE_OFF] == cmos[..CMDLINE_OFF]
    ensures forall i :: 0 <= i < CMDLINE_OFF ==> CmdlineRepaired(cmos)[i] == cmos[i]
  {
    hide CStr;
    if |CStr(cmos[CMDLINE_OFF..])| >= CMDLINE_MAX {
      CStrEnds(CmdlineRepaired(cmos)[CMDLINE_OFF..], 0);
    }
  }
}
