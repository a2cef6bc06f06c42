/** The ESP32-C5 chip descriptor of esptool-js: the chip's constant data and the
    rules that decode its identity, eFuse key purposes, crystal and console port
    from 32-bit register words.

    The device is a register file, a function from address to word: every
    `loader.readReg(addr)` of the descriptor is an application of it. Messages the
    descriptor hands to `loader.info` are returned as a list, in order; a thrown
    Error is a `Failure` carrying its message. */
module Esp32c5 {
  import opened JsBits
  import opened JsArray
  import opened Decimal
  import opened Wrappers

  /** What `loader.readReg` returns for each address. */
  type RegisterFile = Word -> Word

  // ---------------------------------------------------------------------------
  // Identity and register addresses

  const CHIP_NAME: string := "ESP32-C5"
  const IMAGE_CHIP_ID := 23
  const BOOTLOADER_FLASH_OFFSET := 0x2000

  const EFUSE_BASE: Word := 0x600b4800
  const EFUSE_BLOCK1_ADDR: Word := EFUSE_BASE + 0x044
  const MAC_EFUSE_REG: Word := EFUSE_BASE + 0x044
  const UART_CLKDIV_REG: Word := 0x60000014

  /** Read base address of eFuse block 0. */
  const EFUSE_RD_REG_BASE: Word := EFUSE_BASE + 0x030

  const EFUSE_FORCE_USE_KEY_MANAGER_KEY_REG: Word := EFUSE_BASE + 0x34
  const EFUSE_FORCE_USE_KEY_MANAGER_KEY_SHIFT := 10
  const FORCE_USE_KEY_MANAGER_VAL_XTS_AES_KEY := 2

  const EFUSE_PURPOSE_KEY0_REG: Word := EFUSE_BASE + 0x34
  const EFUSE_PURPOSE_KEY0_SHIFT := 22
  const EFUSE_PURPOSE_KEY1_REG: Word := EFUSE_BASE + 0x34
  const EFUSE_PURPOSE_KEY1_SHIFT := 27
  const EFUSE_PURPOSE_KEY2_REG: Word := EFUSE_BASE + 0x38
  const EFUSE_PURPOSE_KEY2_SHIFT := 0
  const EFUSE_PURPOSE_KEY3_REG: Word := EFUSE_BASE + 0x38
  const EFUSE_PURPOSE_KEY3_SHIFT := 5
  const EFUSE_PURPOSE_KEY4_REG: Word := EFUSE_BASE + 0x38
  const EFUSE_PURPOSE_KEY4_SHIFT := 10
  const EFUSE_PURPOSE_KEY5_REG: Word := EFUSE_BASE + 0x38
  const EFUSE_PURPOSE_KEY5_SHIFT := 15

  const EFUSE_DIS_DOWNLOAD_MANUAL_ENCRYPT_REG: Word := EFUSE_RD_REG_BASE
  const EFUSE_DIS_DOWNLOAD_MANUAL_ENCRYPT: int := JsShl(1, 20)

  const EFUSE_SPI_BOOT_CRYPT_CNT_REG: Word := EFUSE_BASE + 0x034
  const EFUSE_SPI_BOOT_CRYPT_CNT_MASK: int := JsShl(0x7, 18)

  const EFUSE_SECURE_BOOT_EN_REG: Word := EFUSE_BASE + 0x038
  const EFUSE_SECURE_BOOT_EN_MASK: int := JsShl(1, 20)

  const IROM_MAP_START := 0x42000000
  const IROM_MAP_END := 0x44000000
  const DROM_MAP_START := 0x42000000
  const DROM_MAP_END := 0x44000000

  const PCR_SYSCLK_CONF_REG: Word := 0x60096110
  const PCR_SYSCLK_XTAL_FREQ_V: int := JsShl(0x7f, 24)
  const PCR_SYSCLK_XTAL_FREQ_S := 24

  const XTAL_CLK_DIVIDER := 1

  /** A variable in the ROM's .bss that holds the number of the console port in use. */
  const UARTDEV_BUF_NO: Word := 0x4085f514

  // ---------------------------------------------------------------------------
  // Tables

  /** The values of the chip-detect register that identify an ESP32-C5. */
  const CHIP_DETECT_MAGIC_VALUE: seq<Word> := [0x1101406f, 0x63e1406f, 0x5fd1406f]

  /** The flash-frequency code written into an image header, by frequency name. */
  const FLASH_FREQUENCY: map<string, nat> := map["80m" := 0xf, "40m" := 0x0, "20m" := 0x2]

  /** One `[start, end, kind]` triple of the memory map. */
  datatype MemoryMapEntry = MemoryMapEntry(start: int, end: int, kind: string)

  const MEMORY_MAP: seq<MemoryMapEntry> := [
    MemoryMapEntry(0x00000000, 0x00010000, "PADDING"),
    MemoryMapEntry(0x42000000, 0x44000000, "DROM"),
    MemoryMapEntry(0x40800000, 0x40860000, "DRAM"),
    MemoryMapEntry(0x40800000, 0x40860000, "BYTE_ACCESSIBLE"),
    MemoryMapEntry(0x4003a000, 0x40040000, "DROM_MASK"),
    MemoryMapEntry(0x40000000, 0x4003a000, "IROM_MASK"),
    MemoryMapEntry(0x42000000, 0x44000000, "IROM"),
    MemoryMapEntry(0x40800000, 0x40860000, "IRAM"),
    MemoryMapEntry(0x50000000, 0x50004000, "RTC_IRAM"),
    MemoryMapEntry(0x50000000, 0x50004000, "RTC_DRAM"),
    MemoryMapEntry(0x600fe000, 0x60100000, "MEM_INTERNAL2")
  ]

  const UF2_FAMILY_ID := 0xf71c0343

  const EFUSE_MAX_KEY := 5
  const PURPOSE_VAL_XTS_AES128_KEY := 4

  /** The name of each key purpose code an eFuse key block can carry. */
  const KEY_PURPOSES: map<nat, string> := map[
    0 := "USER/EMPTY",
    1 := "ECDSA_KEY",
    4 := "XTS_AES_128_KEY",
    5 := "HMAC_DOWN_ALL",
    6 := "HMAC_DOWN_JTAG",
    7 := "HMAC_DOWN_DIGITAL_SIGNATURE",
    8 := "HMAC_UP",
    9 := "SECURE_BOOT_DIGEST0",
    10 := "SECURE_BOOT_DIGEST1",
    11 := "SECURE_BOOT_DIGEST2",
    12 := "KM_INIT_KEY",
    15 := "XTS_AES_128_PSRAM_KEY",
    16 := "ECDSA_KEY_P192",
    17 := "ECDSA_KEY_P384_L",
    18 := "ECDSA_KEY_P384_H"
  ]

  /** The feature list reported for every ESP32-C5. */
  const CHIP_FEATURES: seq<string> := ["Wi-Fi 6 (dual-band)", "BT 5 (LE)", "IEEE802.15.4", "Single Core + LP Core", "240MHz"]

  /** Every memory-map entry is a non-empty range, and the IROM and DROM window
      constants are the extents of the map's IROM and DROM entries. */
  lemma MemoryMapWellFormed()
    ensures forall i | 0 <= i < |MEMORY_MAP| :: MEMORY_MAP[i].start < MEMORY_MAP[i].end
    ensures MEMORY_MAP[6] == MemoryMapEntry(IROM_MAP_START, IROM_MAP_END, "IROM")
    ensures MEMORY_MAP[1] == MemoryMapEntry(DROM_MAP_START, DROM_MAP_END, "DROM")
  {
  }

  /** The image-header flash-frequency codes are distinct 4-bit values. */
  lemma FlashFrequencyCodes()
    ensures forall f | f in FLASH_FREQUENCY :: FLASH_FREQUENCY[f] < 16
    ensures forall f, g | f in FLASH_FREQUENCY && g in FLASH_FREQUENCY && f != g :: FLASH_FREQUENCY[f] != FLASH_FREQUENCY[g]
  {
  }

  /** The three chip-detect magic values are distinct. */
  lemma MagicValuesDistinct()
    ensures forall i, j | 0 <= i < j < |CHIP_DETECT_MAGIC_VALUE| :: CHIP_DETECT_MAGIC_VALUE[i] != CHIP_DETECT_MAGIC_VALUE[j]
  {
  }

  /** The manual-encryption download disable flag is bit 20. */
  lemma DisDownloadManualEncryptMask()
    ensures EFUSE_DIS_DOWNLOAD_MANUAL_ENCRYPT == ShiftLeft(Pow2(1) - 1, 20)
  {
    FieldMask(1, 20, 1);
  }

  /** The secure-boot enable flag is bit 20. */
  lemma SecureBootEnMask()
    ensures EFUSE_SECURE_BOOT_EN_MASK == ShiftLeft(Pow2(1) - 1, 20)
  {
    FieldMask(1, 20, 1);
  }

  /** The SPI boot encryption counter is bits 18 to 20. */
  lemma SpiBootCryptCntMask()
    ensures EFUSE_SPI_BOOT_CRYPT_CNT_MASK == ShiftLeft(Pow2(3) - 1, 18)
  {
    FieldMask(3, 18, 7);
  }

  // ---------------------------------------------------------------------------
  // Package version and chip revision

  /** Block 1 word 2, which holds the package version and the chip revision. */
  const VERSION_WORD_ADDR: Word := EFUSE_BLOCK1_ADDR + 4 * 2

  /** The package version: bits 26 to 28 of the version word. */
  function PkgVersion(regs: RegisterFile): (r: nat)
    ensures r == Bits(regs(VERSION_WORD_ADDR), 26, 3) && r < 8
  {
    var w := regs(VERSION_WORD_ADDR);
    SarField(w, 26, 3, 0x07);
    JsAnd(JsSar(w, 26), 0x07)
  }

  /** The minor chip revision: bits 0 to 3 of the version word. */
  function MinorChipVersion(regs: RegisterFile): (r: nat)
    ensures r == Bits(regs(VERSION_WORD_ADDR), 0, 4) && r < 16
  {
    var w := regs(VERSION_WORD_ADDR);
    SarField(w, 0, 4, 0x0f);
    JsAnd(JsSar(w, 0), 0x0f)
  }

  /** The major chip revision: bits 4 and 5 of the version word. */
  function MajorChipVersion(regs: RegisterFile): (r: nat)
    ensures r == Bits(regs(VERSION_WORD_ADDR), 4, 2) && r < 4
  {
    var w := regs(VERSION_WORD_ADDR);
    SarField(w, 4, 2, 0x03);
    JsAnd(JsSar(w, 4), 0x03)
  }

  /** The version word holding package version pkg and revision major.minor, all other bits clear. */
  function VersionWord(pkg: nat, major: nat, minor: nat): Word
    requires pkg < 8 && major < 4 && minor < 16
  {
    assert ShiftLeft(pkg, 26) < ShiftLeft(8, 26) by {
      ShiftLeftMonotone(pkg, 8, 26);
    }
    assert ShiftLeft(8, 26) == 0x2000_0000 by {
      ShiftLeftPow2(3, 26);
      ShiftLeftPow2(29, 2);
      Pow2Words();
    }
    assert ShiftLeft(major, 4) < 64 by {
      ShiftLeftMonotone(major, 4, 4);
    }
    minor + ShiftLeft(major, 4) + ShiftLeft(pkg, 26)
  }

  lemma MinorOfVersionWord(pkg: nat, major: nat, minor: nat)
    requires pkg < 8 && major < 4 && minor < 16
    ensures Bits(VersionWord(pkg, major, minor), 0, 4) == minor
  {
    var w := VersionWord(pkg, major, minor);
    var above := major + ShiftLeft(pkg, 22);
    assert w == minor + ShiftLeft(above, 4) by {
      ShiftLeftAdd(major, ShiftLeft(pkg, 22), 4);
      ShiftLeftCompose(pkg, 22, 4);
    }
    assert minor < Pow2(4) by { Pow2Values(); }
    calc {
      Bits(w, 0, 4);
      LowBits(w, 4);
    == { LowBitsAddShiftedAt(w, minor, above, 4, 4); }
      LowBits(minor, 4);
    == { LowBitsOfSmall(minor, 4); }
      minor;
    }
  }

  lemma MajorOfVersionWord(pkg: nat, major: nat, minor: nat)
    requires pkg < 8 && major < 4 && minor < 16
    ensures Bits(VersionWord(pkg, major, minor), 4, 2) == major
  {
    var w := VersionWord(pkg, major, minor);
    var high := ShiftLeft(pkg, 20);
    assert w == minor + ShiftLeft(major, 4) + ShiftLeft(high, 6) by {
      ShiftLeftCompose(pkg, 20, 6);
    }
    Pow2Values();
    BitsOfComposed(w, minor, major, high, 4, 2);
  }

  /** The revision bits of a version word lie below bit 26. */
  lemma RevisionBitsBelowPkg(major: nat, minor: nat)
    requires major < 4 && minor < 16
    ensures minor + ShiftLeft(major, 4) < Pow2(26)
  {
    ShiftLeftMonotone(major, 4, 4);
    ShiftLeftPow2(2, 4);
    Pow2Values();
    Pow2Monotone(7, 26);
  }

  lemma PkgOfVersionWord(pkg: nat, major: nat, minor: nat)
    requires pkg < 8 && major < 4 && minor < 16
    ensures Bits(VersionWord(pkg, major, minor), 26, 3) == pkg
  {
    var low := minor + ShiftLeft(major, 4);
    RevisionBitsBelowPkg(major, minor);
    Pow2Values();
    BitsOfTopField(VersionWord(pkg, major, minor), low, pkg, 26, 3);
  }

  /** The three version readers are independent fields: a version word built from any
      package version and revision reads back as exactly those. */
  lemma VersionReadersInvertVersionWord(regs: RegisterFile, pkg: nat, major: nat, minor: nat)
    requires pkg < 8 && major < 4 && minor < 16
    requires regs(VERSION_WORD_ADDR) == VersionWord(pkg, major, minor)
    ensures PkgVersion(regs) == pkg
    ensures MajorChipVersion(regs) == major
    ensures MinorChipVersion(regs) == minor
  {
    PkgOfVersionWord(pkg, major, minor);
    MajorOfVersionWord(pkg, major, minor);
    MinorOfVersionWord(pkg, major, minor);
  }

  // ---------------------------------------------------------------------------
  // Chip description

  /** "ESP32-C5" for package version 0 and "unknown ESP32-C5" for any other, followed by
      " (revision v<major>.<minor>)". */
  function ChipDescription(regs: RegisterFile): string
  {
    var pkgVer := PkgVersion(regs);
    var desc := if pkgVer == 0 then "ESP32-C5" else "unknown ESP32-C5";
    var majorRev := MajorChipVersion(regs);
    var minorRev := MinorChipVersion(regs);
    desc + " (revision v" + NatToString(majorRev) + "." + NatToString(minorRev) + ")"
  }

  /** What a chip description states: whether the package is a known one, and the revision. */
  datatype ChipRevision = ChipRevision(knownPackage: bool, major: nat, minor: nat)

  const KNOWN_PREFIX: string := "ESP32-C5" + " (revision v"
  const UNKNOWN_PREFIX: string := "unknown ESP32-C5" + " (revision v"

  /** Reads a chip description back. */
  function ParseChipDescription(s: string): Option<ChipRevision>
  {
    if KNOWN_PREFIX <= s then ParseRevision(s[|KNOWN_PREFIX|..], true)
    else if UNKNOWN_PREFIX <= s then ParseRevision(s[|UNKNOWN_PREFIX|..], false)
    else None
  }

  /** Reads "<major>.<minor>)". */
  function ParseRevision(s: string, known: bool): Option<ChipRevision>
  {
    if |s| == 0 || s[|s| - 1] != ')' then None
    else
      var body := s[..|s| - 1];
      match IndexOf(body, '.')
      case None => None
      case Some(dot) =>
        match (ParseNat(body[..dot]), ParseNat(body[dot + 1..]))
        case (Some(major), Some(minor)) => Some(ChipRevision(known, major, minor))
        case _ => None
  }

  /** The position of the first c in s, if any. */
  function IndexOf(s: string, c: char): (r: Option<nat>)
    ensures r.Some? ==> r.value < |s| && s[r.value] == c && c !in s[..r.value]
    ensures r.None? ==> c !in s
  {
    if |s| == 0 then None
    else if s[0] == c then Some(0)
    else match IndexOf(s[1..], c)
      case None => None
      case Some(i) => assert s[..i + 1] == [s[0]] + s[1..][..i]; Some(i + 1)
  }

  lemma IndexOfDigitsThenDot(a: string, b: string)
    requires AllDigits(a)
    ensures IndexOf(a + "." + b, '.') == Some(|a|)
  {
    var s := a + "." + b;
    assert s[|a|] == '.';
    assert forall i | 0 <= i < |a| :: s[i] == a[i];
    assert forall n | |a| < n <= |s| :: s[..n][|a|] == '.';
  }

  lemma ParseRevisionRoundTrip(major: nat, minor: nat, known: bool)
    ensures ParseRevision(NatToString(major) + "." + NatToString(minor) + ")", known)
         == Some(ChipRevision(known, major, minor))
  {
    var a := NatToString(major);
    var b := NatToString(minor);
    var s := a + "." + b + ")";
    var body := a + "." + b;
    assert s[..|s| - 1] == body;
    IndexOfDigitsThenDot(a, b);
    assert body[..|a|] == a;
    assert body[|a| + 1..] == b;
    ParseNatToString(major);
    ParseNatToString(minor);
  }

  lemma PrefixAppend(p: string, t: string)
    ensures p <= p + t && (p + t)[|p|..] == t
  {
  }

  /** A chip description is one of the two prefixes followed by the revision text. */
  lemma ChipDescriptionShape(regs: RegisterFile)
    ensures ChipDescription(regs)
         == (if PkgVersion(regs) == 0 then KNOWN_PREFIX else UNKNOWN_PREFIX)
            + (NatToString(MajorChipVersion(regs)) + "." + NatToString(MinorChipVersion(regs)) + ")")
  {
    var desc := if PkgVersion(regs) == 0 then "ESP32-C5" else "unknown ESP32-C5";
    var a := NatToString(MajorChipVersion(regs));
    var b := NatToString(MinorChipVersion(regs));
    AppendAssociative4(desc + " (revision v", a, ".", b, ")");
  }

  lemma AppendAssociative4(p: string, a: string, dot: string, b: string, close: string)
    ensures p + a + dot + b + close == p + (a + dot + b + close)
  {
  }

  lemma ParsePrefixed(s: string, known: bool, revision: string)
    requires s == (if known then KNOWN_PREFIX else UNKNOWN_PREFIX) + revision
    ensures ParseChipDescription(s) == ParseRevision(revision, known)
  {
    if known {
      PrefixAppend(KNOWN_PREFIX, revision);
    } else {
      PrefixAppend(UNKNOWN_PREFIX, revision);
      assert s[0] != KNOWN_PREFIX[0];
    }
  }

  /** The description starts with "ESP32-C5 (revision v" exactly when the package version
      is 0, and with "unknown ESP32-C5 (revision v" exactly when it is not; what follows is
      "<major>.<minor>)". */
  lemma ChipDescriptionPrefix(regs: RegisterFile)
    ensures PkgVersion(regs) == 0 <==> KNOWN_PREFIX <= ChipDescription(regs)
    ensures PkgVersion(regs) != 0 <==> UNKNOWN_PREFIX <= ChipDescription(regs)
    ensures ChipDescription(regs)[|if PkgVersion(regs) == 0 then KNOWN_PREFIX else UNKNOWN_PREFIX|..]
         == NatToString(MajorChipVersion(regs)) + "." + NatToString(MinorChipVersion(regs)) + ")"
  {
    var s := ChipDescription(regs);
    var revision := NatToString(MajorChipVersion(regs)) + "." + NatToString(MinorChipVersion(regs)) + ")";
    ChipDescriptionShape(regs);
    if PkgVersion(regs) == 0 {
      PrefixAppend(KNOWN_PREFIX, revision);
      assert s[0] != UNKNOWN_PREFIX[0];
    } else {
      PrefixAppend(UNKNOWN_PREFIX, revision);
      assert s[0] != KNOWN_PREFIX[0];
    }
  }

  /** The description names the package as known exactly when the package version is 0,
      and states the major and minor revision, which read back as the numbers. */
  lemma ChipDescriptionRoundTrip(regs: RegisterFile)
    ensures ParseChipDescription(ChipDescription(regs))
         == Some(ChipRevision(PkgVersion(regs) == 0, MajorChipVersion(regs), MinorChipVersion(regs)))
  {
    var major := MajorChipVersion(regs);
    var minor := MinorChipVersion(regs);
    var revision := NatToString(major) + "." + NatToString(minor) + ")";
    ChipDescriptionShape(regs);
    ParsePrefixed(ChipDescription(regs), PkgVersion(regs) == 0, revision);
    ParseRevisionRoundTrip(major, minor, PkgVersion(regs) == 0);
  }

  // ---------------------------------------------------------------------------
  // Crystal

  /** The crystal frequency in MHz that the console's baud-rate divider implies:
      baudrate times divider, over one million, over XTAL_CLK_DIVIDER. */
  function EstimatedXtal(baudrate: nat, uartDiv: int): real
  {
    (baudrate * uartDiv) as real / 1000000.0 / XTAL_CLK_DIVIDER as real
  }

  /** The supported crystal an estimate stands for: 48 above 45 MHz, 40 above 33 MHz, else 26. */
  function NormalizedXtal(etsXtal: real): (r: nat)
    ensures r == 26 || r == 40 || r == 48
    ensures r == 48 <==> etsXtal > 45.0
    ensures r == 26 <==> etsXtal <= 33.0
  {
    if etsXtal > 45.0 then 48 else if etsXtal > 33.0 then 40 else 26
  }

  /** The estimate is more than 1 MHz away from the crystal it was normalised to. */
  predicate UnsupportedCrystal(etsXtal: real)
  {
    var d := NormalizedXtal(etsXtal) as real - etsXtal;
    d > 1.0 || -d > 1.0
  }

  const UNSUPPORTED_CRYSTAL_WARNING: string := "WARNING: Unsupported crystal in use"

  /** The console divider: the UART clock-divider register masked with the divider mask. */
  function UartDivider(regs: RegisterFile, uartClkdivMask: int): int
  {
    JsAnd(regs(UART_CLKDIV_REG), uartClkdivMask)
  }

  /** Detects the crystal frequency from the baud rate in use and the console divider,
      warning when the estimate is not within 1 MHz of a supported crystal. */
  method CrystalFreq(regs: RegisterFile, baudrate: nat, uartClkdivMask: int) returns (normXtal: nat, log: seq<string>)
    ensures normXtal == NormalizedXtal(EstimatedXtal(baudrate, UartDivider(regs, uartClkdivMask)))
    ensures log == if UnsupportedCrystal(EstimatedXtal(baudrate, UartDivider(regs, uartClkdivMask)))
                   then [UNSUPPORTED_CRYSTAL_WARNING] else []
  {
    var uartDiv := JsAnd(regs(UART_CLKDIV_REG), uartClkdivMask);
    var etsXtal := (baudrate * uartDiv) as real / 1000000.0 / XTAL_CLK_DIVIDER as real;
    if etsXtal > 45.0 {
      normXtal := 48;
    } else if etsXtal > 33.0 {
      normXtal := 40;
    } else {
      normXtal := 26;
    }
    log := [];
    var d := normXtal as real - etsXtal;
    if (if d < 0.0 then -d else d) > 1.0 {
      log := log + [UNSUPPORTED_CRYSTAL_WARNING];
    }
  }

  /** A larger estimate never selects a smaller crystal. */
  lemma NormalizedXtalMonotone(a: real, b: real)
    requires a <= b
    ensures NormalizedXtal(a) <= NormalizedXtal(b)
  {
  }

  /** An estimate within 1 MHz of a supported crystal (26, 40 or 48 MHz) is normalised to
      that crystal and draws no warning. */
  lemma SupportedCrystalRecognised(crystal: nat, etsXtal: real)
    requires crystal == 26 || crystal == 40 || crystal == 48
    requires crystal as real - 1.0 <= etsXtal <= crystal as real + 1.0
    ensures NormalizedXtal(etsXtal) == crystal
    ensures !UnsupportedCrystal(etsXtal)
  {
  }

  /** PCR_SYSCLK_XTAL_FREQ_V selects bits 24 to 30. */
  lemma XtalFreqMask()
    ensures PCR_SYSCLK_XTAL_FREQ_V == ShiftLeft(Pow2(7) - 1, 24)
  {
    FieldMask(7, 24, 0x7f);
  }

  lemma XtalFreqField(w: Word)
    ensures JsSar(JsAnd(w, PCR_SYSCLK_XTAL_FREQ_V), PCR_SYSCLK_XTAL_FREQ_S) == Bits(w, 24, 7)
  {
    XtalFreqMask();
    XtalFreqFieldAt(w, PCR_SYSCLK_XTAL_FREQ_V, PCR_SYSCLK_XTAL_FREQ_S);
  }

  /** XtalFreqField with the mask and the shift passed as values. */
  lemma XtalFreqFieldAt(w: Word, mask: int, s: nat)
    requires s == 24 && mask == ShiftLeft(Pow2(7) - 1, s)
    ensures JsSar(JsAnd(w, mask), s) == Bits(w, s, 7)
  {
    MaskThenSar(w, s, 7, mask);
  }

  /** The crystal frequency, in MHz, that the ROM was built for: bits 24 to 30 of the
      system-clock configuration register. */
  function CrystalFreqRomExpect(regs: RegisterFile): (r: nat)
    ensures r == Bits(regs(PCR_SYSCLK_CONF_REG), 24, 7) && r < 128
  {
    var w := regs(PCR_SYSCLK_CONF_REG);
    XtalFreqField(w);
    assert Bits(w, 24, 7) < 128 by { Pow2Values(); }
    JsSar(JsAnd(w, PCR_SYSCLK_XTAL_FREQ_V), PCR_SYSCLK_XTAL_FREQ_S)
  }

  // ---------------------------------------------------------------------------
  // eFuse key purposes

  /** The word each key block's purpose is read from: EFUSE_BASE + 0x34 for blocks 0
      and 1, EFUSE_BASE + 0x38 for blocks 2 to 5. */
  function KeyPurposeWord(k: nat): Word
  {
    if k < 2 then EFUSE_BASE + 0x34 else EFUSE_BASE + 0x38
  }

  /** The bit each key block's purpose field starts at: 22 + 5k for blocks 0 and 1,
      5(k - 2) for blocks 2 to 5. */
  function KeyPurposeShift(k: nat): nat
  {
    if k < 2 then 22 + 5 * k else 5 * (k - 2)
  }

  /** The 5-bit purpose field of key block k. */
  function KeyPurposeField(regs: RegisterFile, k: nat): nat
  {
    Bits(regs(KeyPurposeWord(k)), KeyPurposeShift(k), 5)
  }

  /** The register and shift of each key block's purpose field, by block number. */
  const KEY_PURPOSE_REG_SHIFT: seq<(Word, nat)> := [
    (EFUSE_PURPOSE_KEY0_REG, EFUSE_PURPOSE_KEY0_SHIFT),
    (EFUSE_PURPOSE_KEY1_REG, EFUSE_PURPOSE_KEY1_SHIFT),
    (EFUSE_PURPOSE_KEY2_REG, EFUSE_PURPOSE_KEY2_SHIFT),
    (EFUSE_PURPOSE_KEY3_REG, EFUSE_PURPOSE_KEY3_SHIFT),
    (EFUSE_PURPOSE_KEY4_REG, EFUSE_PURPOSE_KEY4_SHIFT),
    (EFUSE_PURPOSE_KEY5_REG, EFUSE_PURPOSE_KEY5_SHIFT)
  ]

  /** The register-and-shift table places the six purpose fields side by side without
      overlap: blocks 0 and 1 at bits 22 and 27 of one word, blocks 2 to 5 at bits 0, 5,
      10 and 15 of the next; the key-manager bit (bit 11 of the first word) lies outside
      them all. */
  lemma KeyPurposeLayout()
    ensures |KEY_PURPOSE_REG_SHIFT| == EFUSE_MAX_KEY + 1
    ensures forall k | 0 <= k <= EFUSE_MAX_KEY :: KEY_PURPOSE_REG_SHIFT[k] == (KeyPurposeWord(k), KeyPurposeShift(k))
    ensures forall k | 0 <= k < EFUSE_MAX_KEY :: KeyPurposeWord(k) == KeyPurposeWord(k + 1) ==>
      KeyPurposeShift(k) + 5 <= KeyPurposeShift(k + 1)
    ensures forall k | 0 <= k <= EFUSE_MAX_KEY :: KeyPurposeShift(k) + 5 <= 32
    ensures EFUSE_FORCE_USE_KEY_MANAGER_KEY_REG == KeyPurposeWord(0)
    ensures EFUSE_FORCE_USE_KEY_MANAGER_KEY_SHIFT + 1 < KeyPurposeShift(0)
  {
  }

  const KEY_BLOCK_RANGE_ERROR: string := "Valid key block numbers must be in range 0-5"

  /** The purpose code of a key block. Block numbers outside 0 to EFUSE_MAX_KEY fail with a
      message naming the range; otherwise the result is the block's 5-bit purpose field. */
  function KeyBlockPurpose(regs: RegisterFile, keyBlock: int): (r: Result<nat, string>)
    ensures r.Failure? <==> keyBlock < 0 || keyBlock > EFUSE_MAX_KEY
    ensures r.Failure? ==> r.error == KEY_BLOCK_RANGE_ERROR
    ensures r.Success? ==> r.value == KeyPurposeField(regs, keyBlock) && r.value < 32
  {
    if keyBlock < 0 || keyBlock > EFUSE_MAX_KEY then
      assert NatToString(EFUSE_MAX_KEY) == "5";
      Failure("Valid key block numbers must be in range 0-" + NatToString(EFUSE_MAX_KEY))
    else
      KeyPurposeLayout();
      var (reg, shift) := KEY_PURPOSE_REG_SHIFT[keyBlock];
      var registerValue := regs(reg);
      SarField(registerValue, shift, 5, 0x1f);
      var purpose: nat := JsAnd(JsSar(registerValue, shift), 0x1f);
      Success(purpose)
  }

  /** A key block's purpose depends on one register word only, and a block number out of
      range fails whatever the registers hold. */
  lemma KeyBlockPurposeFrame(regs: RegisterFile, other: RegisterFile, keyBlock: int)
    requires 0 <= keyBlock <= EFUSE_MAX_KEY ==> regs(KeyPurposeWord(keyBlock)) == other(KeyPurposeWord(keyBlock))
    ensures KeyBlockPurpose(regs, keyBlock) == KeyBlockPurpose(other, keyBlock)
  {
  }

  /** Every purpose code the 5-bit field can name fits it, and code 4 is the XTS-AES-128 key. */
  lemma KeyPurposeNames()
    ensures forall p | p in KEY_PURPOSES :: p < 32
    ensures KEY_PURPOSES[PURPOSE_VAL_XTS_AES128_KEY] == "XTS_AES_128_KEY"
  {
  }

  /** Flash encryption has a usable key when some key block is an XTS-AES-128 key, or when
      the key-manager field at bit 10 of the word at EFUSE_BASE + 0x34 has its XTS-AES
      bit (value 2, that is bit 11 of the word) set. */
  predicate FlashEncryptionKeyValid(regs: RegisterFile)
  {
    (exists k: nat | k <= EFUSE_MAX_KEY :: KeyPurposeField(regs, k) == PURPOSE_VAL_XTS_AES128_KEY)
    || Bits(regs(EFUSE_BASE + 0x34), 11, 1) == 1
  }

  /** Collects the purposes of key blocks 0 to EFUSE_MAX_KEY, then decides whether flash
      encryption has a usable key. */
  method IsFlashEncryptionKeyValid(regs: RegisterFile) returns (valid: bool)
    ensures valid <==> FlashEncryptionKeyValid(regs)
  {
    var purposes: seq<nat> := [];
    var i := 0;
    while i <= EFUSE_MAX_KEY
      invariant 0 <= i <= EFUSE_MAX_KEY + 1
      invariant purposes == KeyPurposes(regs, i)
    {
      var purpose := KeyBlockPurpose(regs, i);
      purposes := purposes + [purpose.value];
      i := i + 1;
    }
    XtsKeyAmongPurposes(regs);
    if Any(purposes, p => p == PURPOSE_VAL_XTS_AES128_KEY) {
      return true;
    }
    var registerValue := regs(EFUSE_FORCE_USE_KEY_MANAGER_KEY_REG);
    KeyManagerXtsBit(registerValue);
    valid := JsAnd(JsSar(registerValue, EFUSE_FORCE_USE_KEY_MANAGER_KEY_SHIFT), FORCE_USE_KEY_MANAGER_VAL_XTS_AES_KEY) != 0;
  }

  /** The purposes of key blocks 0 to n - 1, in block order. */
  ghost function KeyPurposes(regs: RegisterFile, n: nat): seq<nat>
  {
    if n == 0 then [] else KeyPurposes(regs, n - 1) + [KeyPurposeField(regs, n - 1)]
  }

  lemma {:induction false} KeyPurposesLength(regs: RegisterFile, n: nat)
    ensures |KeyPurposes(regs, n)| == n
  {
    if n > 0 {
      KeyPurposesLength(regs, n - 1);
    }
  }

  lemma {:induction false} KeyPurposesAt(regs: RegisterFile, n: nat, j: nat)
    requires j < n
    ensures |KeyPurposes(regs, n)| == n && KeyPurposes(regs, n)[j] == KeyPurposeField(regs, j)
  {
    KeyPurposesLength(regs, n);
    if j < n - 1 {
      KeyPurposesAt(regs, n - 1, j);
    }
  }

  /** The purposes of all key blocks hold an XTS-AES-128 key exactly when some key block
      has that purpose. */
  lemma XtsKeyAmongPurposes(regs: RegisterFile)
    ensures var purposes := KeyPurposes(regs, EFUSE_MAX_KEY + 1);
      (exists i | 0 <= i < |purposes| :: purposes[i] == PURPOSE_VAL_XTS_AES128_KEY)
      <==> exists k: nat | k <= EFUSE_MAX_KEY :: KeyPurposeField(regs, k) == PURPOSE_VAL_XTS_AES128_KEY
  {
    var purposes := KeyPurposes(regs, EFUSE_MAX_KEY + 1);
    KeyPurposesLength(regs, EFUSE_MAX_KEY + 1);
    if exists i | 0 <= i < |purposes| :: purposes[i] == PURPOSE_VAL_XTS_AES128_KEY {
      var i :| 0 <= i < |purposes| && purposes[i] == PURPOSE_VAL_XTS_AES128_KEY;
      KeyPurposesAt(regs, EFUSE_MAX_KEY + 1, i);
    }
    if exists k: nat | k <= EFUSE_MAX_KEY :: KeyPurposeField(regs, k) == PURPOSE_VAL_XTS_AES128_KEY {
      var k: nat :| k <= EFUSE_MAX_KEY && KeyPurposeField(regs, k) == PURPOSE_VAL_XTS_AES128_KEY;
      KeyPurposesAt(regs, EFUSE_MAX_KEY + 1, k);
    }
  }

  /** The source's test of the key-manager field, shifted right by 10 and masked with 2,
      reads bit 11 of the word. */
  lemma KeyManagerXtsBit(w: Word)
    ensures JsAnd(JsSar(w, EFUSE_FORCE_USE_KEY_MANAGER_KEY_SHIFT), FORCE_USE_KEY_MANAGER_VAL_XTS_AES_KEY) != 0
      <==> Bits(w, 11, 1) == 1
  {
    SarBitTest(w, EFUSE_FORCE_USE_KEY_MANAGER_KEY_SHIFT, 1, FORCE_USE_KEY_MANAGER_VAL_XTS_AES_KEY);
  }

  // ---------------------------------------------------------------------------
  // SPI flash pins and console port

  const SPI_PIN_RANGE_ERROR: string := "SPI Pin numbers must be in the range 0-28."
  const USB_JTAG_PIN_NOTICE: string :=
    "GPIO pins 13 and 14 are used by USB-Serial/JTAG, " + "consider using other pins for SPI flash connection."

  /** Checks the pins of an SPI flash connection: it fails unless every pin is a GPIO
      number from 0 to 28, and otherwise returns the messages it logs, a notice when a pin
      is 13 or 14. */
  function CheckSpiConnection(spiConnection: seq<int>): (r: Result<seq<string>, string>)
    ensures r.Failure? <==> exists i | 0 <= i < |spiConnection| :: spiConnection[i] < 0 || spiConnection[i] > 28
    ensures r.Failure? ==> r.error == SPI_PIN_RANGE_ERROR
    ensures r.Success? ==> (r.value == [USB_JTAG_PIN_NOTICE] <==>
      exists i | 0 <= i < |spiConnection| :: spiConnection[i] == 13 || spiConnection[i] == 14)
    ensures r.Success? ==> r.value == [] || r.value == [USB_JTAG_PIN_NOTICE]
  {
    if !Every(spiConnection, pin => pin >= 0 && pin <= 28) then
      Failure(SPI_PIN_RANGE_ERROR)
    else if Any(spiConnection, pin => pin == 13 || pin == 14) then
      Success([USB_JTAG_PIN_NOTICE])
    else
      Success([])
  }

  /** The console is the USB-Serial/JTAG port exactly when the low byte of the ROM's
      port-number variable is 3. */
  function UsesUsbJtagSerial(regs: RegisterFile): (r: bool)
    ensures r <==> regs(UARTDEV_BUF_NO) % 256 == 3
  {
    var w := regs(UARTDEV_BUF_NO);
    WordLowBits(w, 8, 0xff, 256);
    var uartNo := JsAnd(w, 0xff);
    uartNo == 3
  }

  // ---------------------------------------------------------------------------
  // Baud-rate change

  /** The detected crystal is 48 MHz where the ROM expects 40 MHz, or the other way round. */
  predicate CrystalMismatch(detected: nat, romExpect: nat)
  {
    (detected == 48 && romExpect == 40) || (detected == 40 && romExpect == 48)
  }

  const CRYSTAL_MISMATCH_NOTICE: string :=
    "Crystal frequency mismatch detected. " + "Baud rate adjustment may be needed but is not fully implemented in this version."

  function RomExpectMessage(romExpect: nat, detected: nat): string
  {
    "ROM expects crystal freq: " + NatToString(romExpect) + " MHz, " + "detected " + NatToString(detected) + " MHz."
  }

  /** The messages logged before the loader changes the baud rate. With the stub running
      nothing is logged; talking to the ROM, the crystal is detected (with its warning), the
      ROM's and the detected crystal frequency are reported, and a 40/48 MHz mismatch is
      noted. */
  method ChangeBaud(regs: RegisterFile, baudrate: nat, uartClkdivMask: int, isStub: bool) returns (log: seq<string>)
    ensures isStub ==> log == []
    ensures !isStub ==>
      var etsXtal := EstimatedXtal(baudrate, UartDivider(regs, uartClkdivMask));
      var detected := NormalizedXtal(etsXtal);
      var romExpect := CrystalFreqRomExpect(regs);
      log == (if UnsupportedCrystal(etsXtal) then [UNSUPPORTED_CRYSTAL_WARNING] else [])
             + [RomExpectMessage(romExpect, detected)]
             + (if CrystalMismatch(detected, romExpect) then [CRYSTAL_MISMATCH_NOTICE] else [])
    ensures CRYSTAL_MISMATCH_NOTICE in log <==>
      !isStub && CrystalMismatch(NormalizedXtal(EstimatedXtal(baudrate, UartDivider(regs, uartClkdivMask))), CrystalFreqRomExpect(regs))
  {
    log := [];
    if !isStub {
      var crystalFreqRomExpect := CrystalFreqRomExpect(regs);
      var crystalFreqDetect, crystalLog := CrystalFreq(regs, baudrate, uartClkdivMask);
      log := log + crystalLog;
      log := log + [RomExpectMessage(crystalFreqRomExpect, crystalFreqDetect)];
      if crystalFreqDetect == 48 && crystalFreqRomExpect == 40 {
        log := log + [CRYSTAL_MISMATCH_NOTICE];
      } else if crystalFreqDetect == 40 && crystalFreqRomExpect == 48 {
        log := log + [CRYSTAL_MISMATCH_NOTICE];
      }
      assert CRYSTAL_MISMATCH_NOTICE != UNSUPPORTED_CRYSTAL_WARNING;
      assert CRYSTAL_MISMATCH_NOTICE != RomExpectMessage(crystalFreqRomExpect, crystalFreqDetect) by {
        assert CRYSTAL_MISMATCH_NOTICE[0] != RomExpectMessage(crystalFreqRomExpect, crystalFreqDetect)[0];
      }
    }
  }
}
