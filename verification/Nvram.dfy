/** The settings kept in battery-backed memory: their layout, how they are read, repaired and saved. */
module Nvram {
  import opened Words

  const MAGIC: u32 := 0x334e_5842
  const SIZE := 128
  const PARTITION_OFF := 4
  const FLAGS_OFF := 5
  const PRIORITY_OFF := 6
  const CMDLINE_OFF := 7
  const CMDLINE_MAX := 121

  const MEMTEST: u8 := 1
  const SERIAL_CONSOLE: u8 := 2
  const VESA: u8 := 4
  const RUN_TEST_BLOB: u8 := 8
  const FLAGS_LIMIT := 16
  const FLAGS_DEFAULT: u8 := 2
  const PRIORITY_DEFAULT: u8 := 0
  const PRIORITY_MAX: u8 := 2

  /** The settings as the rest of the firmware sees them; the command line as a C string without its NUL. */
  datatype Settings = Settings(flags0: u8, priority: u8, partition: u8, memtest: bool, testBlob: bool, cmdline: seq<u8>)

  // ---------- C strings and flag bits ----------

  function CStr(buf: seq<u8>): (r: seq<u8>)
    ensures |r| <= |buf|
    decreases |buf|
  {
    if buf == [] || buf[0] == 0 then [] else [buf[0]] + CStr(buf[1..])
  }

  predicate NoNul(s: seq<u8>) {
    0 !in s
  }

  lemma {:induction false} CStrEnds(buf: seq<u8>, n: nat)
    requires n <= |buf| && NoNul(buf[..n]) && (n == |buf| || buf[n] == 0)
    ensures CStr(buf) == buf[..n]
    decreases |buf|
  {
    if n > 0 {
      assert buf[0] == buf[..n][0];
      assert buf[1..][..n - 1] == buf[..n][1..];
      CStrEnds(buf[1..], n - 1);
      assert buf[..n] == [buf[0]] + buf[1..][..n - 1];
    }
  }

  lemma {:induction false} CStrIs(buf: seq<u8>)
    ensures NoNul(CStr(buf)) && CStr(buf) == buf[..|CStr(buf)|]
    ensures |CStr(buf)| < |buf| ==> buf[|CStr(buf)|] == 0
    decreases |buf|
  {
    if buf != [] && buf[0] != 0 {
      CStrIs(buf[1..]);
    }
  }

  predicate HasBit(flags: u8, bit: u8)
    requires bit > 0
  {
    flags / bit % 2 == 1
  }

  function WithBit(flags: u8, bit: u8, on: bool): u8
    requires bit in {MEMTEST, SERIAL_CONSOLE, VESA, RUN_TEST_BLOB}
  {
    if HasBit(flags, bit) == on then flags else if on then (flags + bit) % 0x100 else (flags - bit) % 0x100
  }

  /** Four flags written as a number. */
  function Flags(b0: bool, b1: bool, b2: bool, b3: bool): (r: u8)
    ensures r < FLAGS_LIMIT
  {
    (if b0 then 1 else 0) + (if b1 then 2 else 0) + (if b2 then 4 else 0) + if b3 then 8 else 0
  }

  lemma FlagsBits(b0: bool, b1: bool, b2: bool, b3: bool)
    ensures var f := Flags(b0, b1, b2, b3);
            HasBit(f, MEMTEST) == b0 && HasBit(f, SERIAL_CONSOLE) == b1 && HasBit(f, VESA) == b2
            && HasBit(f, RUN_TEST_BLOB) == b3
  {
    var f := Flags(b0, b1, b2, b3);
    DivModUnique(f, 2, f / 2, if b0 then 1 else 0);
    DivModUnique(f, 4, f / 4, (if b0 then 1 else 0) + if b1 then 2 else 0);
  }

  lemma FlagsOnto(f: u8)
    requires f < FLAGS_LIMIT
    ensures f == Flags(HasBit(f, MEMTEST), HasBit(f, SERIAL_CONSOLE), HasBit(f, VESA), HasBit(f, RUN_TEST_BLOB))
  {
  }

  /** Changing one flag of a known set sets exactly that flag. */
  lemma WithBitKnown(flags: u8, bit: u8, on: bool, other: u8)
    requires flags < FLAGS_LIMIT
    requires bit in {MEMTEST, SERIAL_CONSOLE, VESA, RUN_TEST_BLOB}
             && other in {MEMTEST, SERIAL_CONSOLE, VESA, RUN_TEST_BLOB}
    ensures WithBit(flags, bit, on) < FLAGS_LIMIT
    ensures HasBit(WithBit(flags, bit, on), other) == if other == bit then on else HasBit(flags, other)
  {
    hide HasBit;
    var b0, b1, b2, b3 :=
      HasBit(flags, MEMTEST), HasBit(flags, SERIAL_CONSOLE), HasBit(flags, VESA), HasBit(flags, RUN_TEST_BLOB);
    FlagsOnto(flags);
    var c0, c1 := if bit == MEMTEST then on else b0, if bit == SERIAL_CONSOLE then on else b1;
    var c2, c3 := if bit == VESA then on else b2, if bit == RUN_TEST_BLOB then on else b3;
    FlagsBits(c0, c1, c2, c3);
    assert WithBit(flags, bit, on) == Flags(c0, c1, c2, c3);
  }

  // ---------- What loading means ----------

  const DEFAULTS := Settings(FLAGS_DEFAULT, PRIORITY_DEFAULT, 0, false, false, [])

  function Zeros(n: nat): (r: seq<u8>)
    ensures |r| == n && forall i :: 0 <= i < n ==> r[i] == 0
  {
    seq(n, _ => 0)
  }

  function InitialImage(): (r: seq<u8>)
    ensures |r| == SIZE
  {
    [MAGIC % 0x100, MAGIC / 0x100 % 0x100, MAGIC / 0x1_0000 % 0x100, MAGIC / 0x100_0000, 0, FLAGS_DEFAULT,
     PRIORITY_DEFAULT]
    + Zeros(CMDLINE_MAX)
  }

  function Initialised(cmos: seq<u8>): (r: seq<u8>)
    requires |cmos| == SIZE
    ensures |r| == SIZE
  {
    if Le32(cmos, 0) == MAGIC then cmos else InitialImage()
  }

  /** One stored byte, repaired if it is out of range. */
  function Repaired(cmos: seq<u8>, at: nat, limit: nat, value: u8): (r: seq<u8>)
    requires at < |cmos| == SIZE
    ensures |r| == SIZE
  {
    if cmos[at] >= limit then cmos[at := value] else cmos
  }

  /** The stored command line, or nothing when it has no end. */
  function StoredCmdline(cmos: seq<u8>): seq<u8>
    requires |cmos| == SIZE
  {
    var text := CStr(cmos[CMDLINE_OFF..]);
    if |text| < CMDLINE_MAX then text else []
  }

  function CmdlineRepaired(cmos: seq<u8>): (r: seq<u8>)
    requires |cmos| == SIZE
    ensures |r| == SIZE
  {
    if |CStr(cmos[CMDLINE_OFF..])| < CMDLINE_MAX then cmos else cmos[CMDLINE_OFF := 0]
  }

  function RepairedImage(cmos: seq<u8>): (r: seq<u8>)
    requires |cmos| == SIZE
    ensures |r| == SIZE
  {
    var c0 := Initialised(cmos);
    var c1 := Repaired(c0, PARTITION_OFF, 2, 0);
    var c2 := Repaired(c1, FLAGS_OFF, FLAGS_LIMIT, FLAGS_DEFAULT);
    var c3 := Repaired(c2, PRIORITY_OFF, 3, PRIORITY_DEFAULT);
    CmdlineRepaired(c3)
  }

  /** The settings a sound image holds. */
  function Decode(cmos: seq<u8>): Settings
    requires |cmos| == SIZE
  {
    Settings(cmos[FLAGS_OFF], cmos[PRIORITY_OFF], cmos[PARTITION_OFF], HasBit(cmos[FLAGS_OFF], MEMTEST),
             HasBit(cmos[FLAGS_OFF], RUN_TEST_BLOB), StoredCmdline(cmos))
  }

  /** An image that loading leaves as it is. */
  predicate SoundImage(cmos: seq<u8>) {
    && |cmos| == SIZE && Le32(cmos, 0) == MAGIC
    && cmos[PARTITION_OFF] < 2 && cmos[FLAGS_OFF] < FLAGS_LIMIT && cmos[PRIORITY_OFF] <= PRIORITY_MAX
    && |CStr(cmos[CMDLINE_OFF..])| < CMDLINE_MAX
  }

  lemma InitialSound()
    ensures SoundImage(InitialImage()) && Decode(InitialImage()) == DEFAULTS
  {
    hide CStr, Le32, InitialImage;
    var c := InitialImage();
    InitialFields();
    CStrEnds(c[CMDLINE_OFF..], 0);
    assert c[CMDLINE_OFF..][..0] == [];
    assert !HasBit(FLAGS_DEFAULT, MEMTEST) && !HasBit(FLAGS_DEFAULT, RUN_TEST_BLOB);
  }

  lemma InitialFields()
    ensures var c := InitialImage();
            && Le32(c, 0) == MAGIC && c[PARTITION_OFF] == 0 && c[FLAGS_OFF] == FLAGS_DEFAULT
            && c[PRIORITY_OFF] == PRIORITY_DEFAULT && c[CMDLINE_OFF] == 0
  {
    var c := InitialImage();
    MagicBytes();
    hide LittleEndian;
    assert c[0..4] == [0x42, 0x58, 0x4e, 0x33];
  }

  lemma MagicBytes()
    ensures MAGIC % 0x100 == 0x42 && MAGIC / 0x100 % 0x100 == 0x58 && MAGIC / 0x1_0000 % 0x100 == 0x4e
            && MAGIC / 0x100_0000 == 0x33
    ensures LittleEndian([0x42, 0x58, 0x4e, 0x33]) == MAGIC
  {
    FourBytes([0x42, 0x58, 0x4e, 0x33]);
  }

  /** Whatever garbage the memory holds, loading makes it sound. */
  lemma RepairMakesSound(cmos: seq<u8>)
    requires |cmos| == SIZE
    ensures SoundImage(RepairedImage(cmos))
  {
    hide CStr, InitialImage;
    InitialSound();
    var c0 := Initialised(cmos);
    var c1 := Repaired(c0, PARTITION_OFF, 2, 0);
    var c2 := Repaired(c1, FLAGS_OFF, FLAGS_LIMIT, FLAGS_DEFAULT);
    var c3 := Repaired(c2, PRIORITY_OFF, 3, PRIORITY_DEFAULT);
    var c4 := CmdlineRepaired(c3);
    if |CStr(c3[CMDLINE_OFF..])| >= CMDLINE_MAX {
      CStrEnds(c4[CMDLINE_OFF..], 0);
    }
  }

  /** A sound image is loaded as it is: loading twice is loading once. */
  lemma SoundUnchanged(cmos: seq<u8>)
    requires SoundImage(cmos)
    ensures RepairedImage(cmos) == cmos
  {
    hide CStr, InitialImage;
  }

  lemma LoadTwice(cmos: seq<u8>)
    requires |cmos| == SIZE
    ensures RepairedImage(RepairedImage(cmos)) == RepairedImage(cmos)
  {
    hide RepairedImage;
    RepairMakesSound(cmos);
    SoundUnchanged(RepairedImage(cmos));
  }

  // ---------- What saving means ----------

  /** As much of a string as fits the stored field. */
  function Cut(text: seq<u8>): (r: seq<u8>)
    ensures |r| < CMDLINE_MAX && r <= text
  {
    if |text| < CMDLINE_MAX then text else text[..CMDLINE_MAX - 1]
  }

  function WithCmdline(cmos: seq<u8>, text: seq<u8>): (r: seq<u8>)
    requires |cmos| == SIZE && |text| < CMDLINE_MAX
    ensures |r| == SIZE
  {
    cmos[..CMDLINE_OFF] + text + Zeros(CMDLINE_MAX - |text|)
  }

  /** Saving one field and loading again gives that field back and the others unchanged. */
  lemma SavedByte(cmos: seq<u8>, at: nat, value: u8)
    requires SoundImage(cmos)
    requires (at == PARTITION_OFF && value < 2) || (at == FLAGS_OFF && value < FLAGS_LIMIT)
             || (at == PRIORITY_OFF && value <= PRIORITY_MAX)
    ensures SoundImage(cmos[at := value])
    ensures Decode(cmos[at := value]).cmdline == Decode(cmos).cmdline
  {
    hide CStr;
    assert cmos[at := value][CMDLINE_OFF..] == cmos[CMDLINE_OFF..];
  }

  lemma SavedCmdline(cmos: seq<u8>, text: seq<u8>)
    requires SoundImage(cmos) && |text| < CMDLINE_MAX && NoNul(text)
    ensures SoundImage(WithCmdline(cmos, text)) && Decode(WithCmdline(cmos, text)) == Decode(cmos).(cmdline := text)
  {
    hide CStr, HasBit;
    var c := WithCmdline(cmos, text);
    assert c[CMDLINE_OFF..] == text + Zeros(CMDLINE_MAX - |text|);
    CStrEnds(c[CMDLINE_OFF..], |text|);
    assert c[CMDLINE_OFF..][..|text|] == text;
    assert c[..CMDLINE_OFF] == cmos[..CMDLINE_OFF];
    assert forall i :: 0 <= i < CMDLINE_OFF ==> c[i] == c[..CMDLINE_OFF][i];
    SameBytesSameWord(cmos, c, 0);
  }
}
