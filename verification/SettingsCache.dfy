/** The copy of the settings that one boot stage leaves for the next, so that it need not read the CMOS again. */
module SettingsCache {
  import opened Words
  import opened Nvram
  import opened Maintenance

  /** Copies a command line up to and including its NUL, and always ends the buffer with one. */
  method CopyCmdline(dst: seq<u8>, src: seq<u8>) returns (r: seq<u8>)
    requires |dst| == |src| == CMDLINE_MAX
    ensures |r| == CMDLINE_MAX && CStr(r) == Cut(CStr(src)) && |CStr(r)| < CMDLINE_MAX
  {
    hide CStr;
    CStrIs(src);
    r := dst;
    var i, stop := 0, false;
    while i < CMDLINE_MAX && !stop
      invariant i <= CMDLINE_MAX && |r| == CMDLINE_MAX
      invariant i <= |CStr(src)| && r[..i] == src[..i]
      invariant stop ==> i < CMDLINE_MAX && r[i] == 0 && i == |CStr(src)|
      decreases CMDLINE_MAX - i, if stop then 0 else 1
    {
      r := r[i := src[i]];
      if src[i] == 0 {
        EndsAtFirstNul(src, i);
        stop := true;
      } else {
        i := i + 1;
      }
    }
    r := r[CMDLINE_MAX - 1 := 0];
    var n := if i < CMDLINE_MAX then i else CMDLINE_MAX - 1;
    assert r[..n] == src[..n] == CStr(src)[..n];
    CStrEnds(r, n);
  }

  lemma EndsAtFirstNul(src: seq<u8>, i: nat)
    requires i < |src| && i <= |CStr(src)| && src[i] == 0
    ensures i == |CStr(src)|
  {
    hide CStr;
    CStrIs(src);
    assert src[..i] == CStr(src)[..i];
    CStrEnds(src, i);
  }

  class Cache {
    var magic: u32
    var flags0: u8
    var priority: u8
    var partition: u8
    var memtest: bool
    var testBlob: bool
    var cmdline: seq<u8>

    constructor ()
      ensures magic == 0 && Sized()
    {
      magic, flags0, priority, partition, memtest, testBlob, cmdline := 0, 0, 0, 0, false, false, Zeros(CMDLINE_MAX);
    }

    predicate Sized()
      reads this
    {
      |cmdline| == CMDLINE_MAX
    }

    function Value(): Settings
      reads this
    {
      Settings(flags0, priority, partition, memtest, testBlob, CStr(cmdline))
    }

    /** bios_settings_fill_shared_snapshot. */
    method Fill(f: Firmware)
      requires Sized() && f.Sized() && |f.Now().cmdline| < CMDLINE_MAX
      modifies this
      ensures Sized() && magic == MAGIC && Value() == f.Now()
    {
      hide CStr;
      magic, flags0, priority, partition, memtest, testBlob :=
        MAGIC, f.flags0, f.priority, f.partition, f.memtest, f.testBlob;
      cmdline := CopyCmdline(cmdline, f.cmdline);
    }

    /**
     * bios_settings_load: from the copy if there is one, otherwise from the CMOS, leaving a copy behind. Either way
     * settings and copy are the same afterwards, and a copy that agreed with the CMOS gives settings that do.
     */
    method Load(f: Firmware)
      requires Sized() && f.Sized() && (magic == MAGIC ==> |Value().cmdline| < CMDLINE_MAX)
      modifies this, f`cmos, f`flags0, f`priority, f`partition, f`memtest, f`testBlob, f`cmdline
      ensures Sized() && f.Sized() && magic == MAGIC && Value() == f.Now()
      ensures old(magic) == MAGIC ==> f.Now() == old(Value()) && f.cmos == old(f.cmos)
      ensures old(magic) != MAGIC && f.present ==> Agree(f.Now(), f.cmos)
      ensures old(magic) == MAGIC && Agree(old(Value()), f.cmos) ==> Agree(f.Now(), f.cmos)
    {
      hide CStr, Agree, RepairedImage, Decode;
      if magic == MAGIC {
        f.flags0, f.priority, f.partition, f.memtest, f.testBlob := flags0, priority, partition, memtest, testBlob;
        f.cmdline := CopyCmdline(f.cmdline, cmdline);
        return;
      }
      f.Load();
      LoadAgrees(old(f.cmos));
      LoadedIsShort(old(f.cmos));
      Fill(f);
    }
  }

  lemma LoadedIsShort(cmos: seq<u8>)
    requires |cmos| == SIZE
    ensures |Decode(RepairedImage(cmos)).cmdline| < CMDLINE_MAX && |DEFAULTS.cmdline| < CMDLINE_MAX
  {
    hide RepairedImage, HasBit, CStr;
  }
}
