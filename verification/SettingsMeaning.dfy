/** What is typed at the prompt and what is kept in the CMOS, letter by letter and byte by byte. */
module SettingsMeaning {
  import opened Words
  import opened Nvram
  import opened Maintenance

  // ---------- Commands ----------

  /** The keys of `text`. */
  predicate Reads(line: seq<u8>, text: string) {
    |line| == |text| && forall i :: 0 <= i < |text| ==> line[i] == text[i] as int
  }

  /** `line` is `letter`, a blank and a digit up to `last`. */
  predicate Sets(line: seq<u8>, letter: char, last: char) {
    |line| == 3 && line[0] == letter as int && line[1] == ' ' as int && '0' as int <= line[2] <= last as int
  }

  /** A flag of value `bit` is on or off, the other three are as they were, and memtest and test blob follow theirs. */
  predicate Switched(s: Settings, t: Settings, bit: u8, on: bool)
    requires bit > 0
  {
    && (t.flags0 / bit % 2 == 1 <==> on) && t.flags0 < 16
    && (bit != 1 ==> t.flags0 % 2 == s.flags0 % 2) && (bit != 2 ==> t.flags0 / 2 % 2 == s.flags0 / 2 % 2)
    && (bit != 4 ==> t.flags0 / 4 % 2 == s.flags0 / 4 % 2) && (bit != 8 ==> t.flags0 / 8 % 2 == s.flags0 / 8 % 2)
    && t == s.(flags0 := t.flags0, memtest := t.flags0 % 2 == 1, testBlob := t.flags0 / 8 % 2 == 1)
  }

  predicate BeginsCmdline(line: seq<u8>) {
    |line| >= 2 && line[0] == 'a' as int && line[1] == ' ' as int
  }

  /** m: memory test, s: serial console, v: VESA, t: test blob. */
  function FlagOf(line: seq<u8>): u8 {
    if Sets(line, 'm', '1') then 1
    else if Sets(line, 's', '1') then 2
    else if Sets(line, 'v', '1') then 4
    else if Sets(line, 't', '1') then 8
    else 0
  }

  /** The settings after a line, when they were `s` before it. */
  predicate Obeyed(s: Settings, line: seq<u8>, t: Settings) {
    if Reads(line, "d") then t == Settings(2, 0, 0, false, false, [])
    else if Sets(line, 'b', '1') then t == s.(partition := line[2] - 0x30)
    else if Sets(line, 'o', '2') then t == s.(priority := line[2] - 0x30)
    else if FlagOf(line) != 0 then Switched(s, t, FlagOf(line), line[2] == '1' as int)
    else if Reads(line, "a") then t == s.(cmdline := [])
    else if BeginsCmdline(line) then t == s.(cmdline := if |line| <= 122 then line[2..] else line[2..122])
    else t == s
  }

  lemma ReadsOne(line: seq<u8>, c: char)
    requires c < '\U{0100}'
    ensures Reads(line, [c]) <==> line == [c as int]
  {
    if Reads(line, [c]) {
      assert line[0] == [c][0] as int;
    }
  }

  lemma SwitchedIs(s: Settings, bit: u8, on: bool)
    requires s.flags0 < 16 && bit in {1, 2, 4, 8}
    ensures Switched(s, SetFlags(s, WithBit(s.flags0, bit, on)), bit, on)
  {
    var flags := WithBit(s.flags0, bit, on);
    WithBitKnown(s.flags0, bit, on, 1);
    WithBitKnown(s.flags0, bit, on, 2);
    WithBitKnown(s.flags0, bit, on, 4);
    WithBitKnown(s.flags0, bit, on, 8);
    BitIs(flags, 1);
    BitIs(flags, 2);
    BitIs(flags, 4);
    BitIs(flags, 8);
    hide WithBit;
  }

  lemma BitIs(flags: u8, bit: u8)
    requires bit > 0
    ensures HasBit(flags, bit) <==> flags / bit % 2 == 1
  {
  }

  /** Each command does what its letter says, with the digits it takes, and every other line changes nothing. */
  lemma CommandMeans(s: Settings, line: seq<u8>)
    requires s.flags0 < 16
    ensures Obeyed(s, line, Apply(s, Parse(line)))
    ensures Parse(line) == Quit <==> Reads(line, "q")
  {
    ReadsOne(line, 'd');
    ReadsOne(line, 'a');
    ReadsOne(line, 'q');
    if FlagOf(line) != 0 {
      SwitchedIs(s, FlagOf(line), line[2] == '1' as int);
    }
    hide Reads, Switched, SetFlags, WithBit;
  }

  // ---------- Keys ----------

  predicate Printable(c: u8) {
    0x20 <= c <= 0x7e
  }

  predicate AllPrintable(text: seq<u8>) {
    forall c :: c in text ==> Printable(c)
  }

  /** Characters are taken up to 128 of them. */
  lemma {:induction false} TypedText(text: seq<u8>, buf: seq<u8>, rest: seq<u8>)
    requires AllPrintable(text) && |buf| + |text| <= 128
    ensures EditLine(text + rest, buf) == EditLine(rest, buf + text)
    decreases |text|
  {
    if text == [] {
      assert text + rest == rest && buf + text == buf;
    } else {
      assert text[0] in text;
      assert (text + rest)[1..] == text[1..] + rest;
      TypedText(text[1..], buf + [text[0]], rest);
      assert buf + [text[0]] + text[1..] == buf + text;
    }
  }

  /** A printable text of up to 128 characters and an end of line are that line. */
  lemma LineTyped(text: seq<u8>, key: u8, rest: seq<u8>)
    requires AllPrintable(text) && |text| <= 128 && (key == 13 || key == 10)
    ensures EditLine(text + ([key] + rest), []) == (Some(text), rest)
  {
    TypedText(text, [], [key] + rest);
    assert [] + text == text;
    assert ([key] + rest)[1..] == rest;
  }

  /** Backspace and DEL take the last character back; other control characters do nothing, and neither does a 129th. */
  lemma KeysIgnored(buf: seq<u8>, c: u8, key: u8, rest: seq<u8>)
    requires |buf| < 128 && Printable(c) && (key == 8 || key == 0x7f)
    ensures EditLine([c, key] + rest, buf) == EditLine(rest, buf) && EditLine([key] + rest, []) == EditLine(rest, [])
  {
    hide EditLine;
    KeyTyped(buf, c, [key] + rest);
    assert [c, key] + rest == [c] + ([key] + rest);
    KeyErases(buf + [c], key, rest);
    KeyErases([], key, rest);
    assert (buf + [c])[..|buf + [c]| - 1] == buf;
  }

  lemma KeyTyped(buf: seq<u8>, c: u8, rest: seq<u8>)
    requires |buf| < 128 && Printable(c)
    ensures EditLine([c] + rest, buf) == EditLine(rest, buf + [c])
  {
    assert ([c] + rest)[1..] == rest;
  }

  lemma KeyErases(buf: seq<u8>, key: u8, rest: seq<u8>)
    requires key == 8 || key == 0x7f
    ensures EditLine([key] + rest, buf) == EditLine(rest, if buf == [] then [] else buf[..|buf| - 1])
  {
    assert ([key] + rest)[1..] == rest;
  }

  lemma KeyIgnored(buf: seq<u8>, c: u8, rest: seq<u8>)
    requires if Printable(c) then |buf| == 128 else c !in {8, 10, 13, 0x7f}
    ensures EditLine([c] + rest, buf) == EditLine(rest, buf)
  {
    assert ([c] + rest)[1..] == rest;
  }

  /** So a line typed at the prompt is obeyed, and `q` leaves the prompt with everything behind it unread. */
  lemma LineObeyed(s: Settings, text: seq<u8>, key: u8, rest: seq<u8>)
    requires AllPrintable(text) && |text| <= 128 && (key == 13 || key == 10)
    ensures Typed(s, text + ([key] + rest)) == if Reads(text, "q") then s else Typed(Apply(s, Parse(text)), rest)
  {
    LineTyped(text, key, rest);
    ReadsOne(text, 'q');
    hide EditLine, Apply, Reads;
  }

  // ---------- The CMOS ----------

  predicate HasMagic(cmos: seq<u8>)
    requires |cmos| == 128
  {
    cmos[0] == 0x42 && cmos[1] == 0x58 && cmos[2] == 0x4e && cmos[3] == 0x33
  }

  /** The image holds the settings. */
  predicate Stores(cmos: seq<u8>, s: Settings) {
    && |cmos| == 128 && HasMagic(cmos)
    && cmos[4] == s.partition && cmos[5] == s.flags0 && cmos[6] == s.priority
    && s.partition <= 1 && s.flags0 <= 15 && s.priority <= 2
    && s.memtest == (s.flags0 % 2 == 1) && s.testBlob == (s.flags0 / 8 % 2 == 1)
    && |s.cmdline| <= 120 && cmos[7..7 + |s.cmdline|] == s.cmdline && cmos[7 + |s.cmdline|] == 0 && 0 !in s.cmdline
  }

  lemma MagicIs(cmos: seq<u8>)
    requires |cmos| == 128
    ensures Le32(cmos, 0) == MAGIC <==> HasMagic(cmos)
  {
    var w := cmos[0..4];
    FourBytes(w);
    assert w[0] == cmos[0] && w[1] == cmos[1] && w[2] == cmos[2] && w[3] == cmos[3];
  }

  lemma CmdlineIs(cmos: seq<u8>, text: seq<u8>)
    requires |cmos| == 128
    ensures CStr(cmos[7..]) == text && |text| <= 120 <==>
            |text| <= 120 && cmos[7..7 + |text|] == text && cmos[7 + |text|] == 0 && 0 !in text
  {
    hide CStr;
    CStrIs(cmos[7..]);
    if |text| <= 120 {
      assert cmos[7..][..|text|] == cmos[7..7 + |text|];
      if cmos[7..7 + |text|] == text && cmos[7 + |text|] == 0 && 0 !in text {
        CStrEnds(cmos[7..], |text|);
      }
    }
  }

  /** RAM and CMOS agree if and only if the image stores the settings, field by field. */
  lemma AgreementIs(s: Settings, cmos: seq<u8>)
    requires |cmos| == 128
    ensures Agree(s, cmos) <==> Stores(cmos, s)
  {
    AgreeIs(s, cmos);
    MagicIs(cmos);
    CmdlineIs(cmos, s.cmdline);
    CmdlineIs(cmos, CStr(cmos[7..]));
    hide CStr, Le32, HasMagic;
  }

  /** What loading makes of any image. */
  predicate Mended(cmos: seq<u8>, r: seq<u8>)
    requires |cmos| == 128 && |r| == 128
  {
    if HasMagic(cmos) then
      && r[..4] == cmos[..4]
      && r[4] == (if cmos[4] <= 1 then cmos[4] else 0)
      && r[5] == (if cmos[5] <= 15 then cmos[5] else 2)
      && r[6] == (if cmos[6] <= 2 then cmos[6] else 0)
      && r[7] == (if 0 in cmos[7..] then cmos[7] else 0) && r[8..] == cmos[8..]
    else
      HasMagic(r) && r[4] == 0 && r[5] == 2 && r[6] == 0 && forall i :: 7 <= i < 128 ==> r[i] == 0
  }

  lemma EndsIff(buf: seq<u8>)
    ensures |CStr(buf)| < |buf| <==> 0 in buf
  {
    hide CStr;
    CStrIs(buf);
    if |CStr(buf)| >= |buf| {
      assert CStr(buf) == buf;
    }
  }

  lemma LoadingMends(cmos: seq<u8>)
    requires |cmos| == 128
    ensures Mended(cmos, RepairedImage(cmos))
  {
    MagicIs(cmos);
    MagicIs(InitialImage());
    InitialFields();
    hide CStr, Le32, MAGIC;
    var c0 := Initialised(cmos);
    var c1 := Repaired(c0, PARTITION_OFF, 2, 0);
    var c2 := Repaired(c1, FLAGS_OFF, FLAGS_LIMIT, FLAGS_DEFAULT);
    var c3 := Repaired(c2, PRIORITY_OFF, 3, PRIORITY_DEFAULT);
    assert c3[7..] == c0[7..];
    EndsIff(c3[7..]);
  }

  /** A command line is stored with zeros behind it, and no other byte changes. */
  lemma CmdlineStored(cmos: seq<u8>, text: seq<u8>)
    requires |cmos| == 128 && |text| <= 120
    ensures var r := WithCmdline(cmos, text);
            && |r| == 128 && r[..7] == cmos[..7] && r[7..7 + |text|] == text
            && forall i :: 7 + |text| <= i < 128 ==> r[i] == 0
  {
  }
}
