# ESP32-C5 chip descriptor of esptool-js, in Dafny

This project models the ESP32-C5 target of esptool-js (`esptool-js/src/targets/esp32c5.ts`).
That is the chip descriptor the flasher consults once it has detected an ESP32-C5. It holds
the chip's constant data:

- the chip-detect magic values;
- eFuse register addresses, shifts and flag masks;
- the flash-frequency codes;
- the memory map;
- the key-purpose names.

It also holds the small rules that decode 32-bit register words:

- package version and chip revision, and the chip description built from them;
- crystal detection and the crystal the ROM expects;
- eFuse key-block purposes and the flash-encryption key test;
- SPI pin validation;
- USB-Serial/JTAG console detection;
- the messages logged before a baud-rate change.

The device is a register file, `Word -> Word`. Every `loader.readReg(addr)` in the
descriptor is an application of it. Messages passed to `loader.info` are returned as a list,
in order. A thrown `Error` is a `Failure` carrying its message.

Files:

- `jsbits.dfy` (module `JsBits`): the JavaScript operators the descriptor uses, on integers.
  - `ToInt32` and `ToUint32`.
  - `>>` (`JsSar`), a sign-propagating shift.
  - `&` (`JsAnd`), on the 32-bit two's-complement patterns.
  - `<<` (`JsShl`), wrapped to 32 bits.
  - Lemmas relating these to plain bit fields (`Bits(w, lo, n)`) of a register word.
- `jsarray.dfy` (module `JsArray`): `Array.prototype.every` and `some` over a sequence.
- `decimal.dfy` (module `Decimal`): the decimal text of a number, as a template literal writes it, and its parser.
- `wrappers.dfy` (module `Wrappers`): `Option` and `Result`.
- `esp32c5.dfy` (module `Esp32c5`): the descriptor.

Three operations are methods, each proved against a specification function or predicate:

- `isFlashEncryptionKeyValid` builds an array of purposes in a loop.
- `getCrystalFreq` assigns its result across branches and then logs.
- `changeBaud` logs its messages one after another.

`checkSpiConnection` is a function of the pin list. Every other operation is a function of
the register file.

## Model

| member | source | states |
|---|---|---|
| JsBits.SarField | esptool-js/src/targets/esp32c5.ts:103 | `(w >> s) & (2^k - 1)` on a register word is the unsigned k-bit field at bit s, whatever the sign bit |
| JsBits.SarBitTest | esptool-js/src/targets/esp32c5.ts:191 | `((w >> s) & 2^b) != 0` holds exactly when bit s + b of the word is set |
| JsBits.MaskThenSar | esptool-js/src/targets/esp32c5.ts:154 | `(w & ((2^k - 1) << s)) >> s` is the k-bit field at bit s |
| JsBits.WordLowBits | esptool-js/src/targets/esp32c5.ts:208 | `w & (2^k - 1)` is w modulo 2^k |
| JsArray.Every | esptool-js/src/targets/esp32c5.ts:196 | `every` is true exactly when the predicate holds for all elements, so it is true for an empty list |
| JsArray.Any | esptool-js/src/targets/esp32c5.ts:185 | `some` is true exactly when the predicate holds for some element |
| Decimal.NatToString | esptool-js/src/targets/esp32c5.ts:126 | the decimal text of a number is non-empty and all digits, with a leading zero only for 0 |
| Decimal.ParseNatToString | esptool-js/src/targets/esp32c5.ts:126 | the decimal text of every number parses back to that number |
| Esp32c5.MagicValuesDistinct | esptool-js/src/targets/esp32c5.ts:57 | the three chip-detect magic values are distinct |
| Esp32c5.FlashFrequencyCodes | esptool-js/src/targets/esp32c5.ts:59-63 | the flash-frequency codes for 80m, 40m and 20m are distinct 4-bit values |
| Esp32c5.MemoryMapWellFormed | esptool-js/src/targets/esp32c5.ts:43-77 | every memory-map range is non-empty, and the IROM and DROM entries span exactly the IROM/DROM window constants |
| Esp32c5.DisDownloadManualEncryptMask | esptool-js/src/targets/esp32c5.ts:35 | the manual-encryption download disable mask `1 << 20` is the one-bit field at bit 20 |
| Esp32c5.SpiBootCryptCntMask | esptool-js/src/targets/esp32c5.ts:38 | the SPI boot encryption counter mask `0x7 << 18` is the three-bit field at bit 18 |
| Esp32c5.SecureBootEnMask | esptool-js/src/targets/esp32c5.ts:41 | the secure-boot enable mask `1 << 20` is the one-bit field at bit 20 |
| Esp32c5.PkgVersion | esptool-js/src/targets/esp32c5.ts:101-104 | the package version is bits 26 to 28 of block 1 word 2, so it is below 8 |
| Esp32c5.MinorChipVersion | esptool-js/src/targets/esp32c5.ts:106-109 | the minor revision is bits 0 to 3 of the same word, below 16 |
| Esp32c5.MajorChipVersion | esptool-js/src/targets/esp32c5.ts:111-114 | the major revision is bits 4 and 5 of the same word, below 4 |
| Esp32c5.PkgOfVersionWord | esptool-js/src/targets/esp32c5.ts:103 | a word assembled from a package version and a revision has that package version at bits 26 to 28 |
| Esp32c5.MajorOfVersionWord | esptool-js/src/targets/esp32c5.ts:113 | such a word has its major revision at bits 4 and 5 |
| Esp32c5.MinorOfVersionWord | esptool-js/src/targets/esp32c5.ts:108 | such a word has its minor revision at bits 0 to 3 |
| Esp32c5.VersionReadersInvertVersionWord | esptool-js/src/targets/esp32c5.ts:101-114 | the three version readers are independent fields of one word: every package version below 8, major below 4 and minor below 16 stored in that word reads back exactly |
| Esp32c5.ChipDescriptionPrefix | esptool-js/src/targets/esp32c5.ts:116-127 | the description starts with "ESP32-C5 (revision v" exactly when the package version is 0, and with "unknown ESP32-C5 (revision v" exactly when it is not; the rest is "<major>.<minor>)" |
| Esp32c5.ParseRevisionRoundTrip | esptool-js/src/targets/esp32c5.ts:126 | the revision text "<major>.<minor>)" reads back as the two numbers |
| Esp32c5.ChipDescriptionRoundTrip | esptool-js/src/targets/esp32c5.ts:116-127 | the description read back says whether the package is known (version 0) and gives the major and minor revision the registers hold |
| Esp32c5.NormalizedXtal | esptool-js/src/targets/esp32c5.ts:138-145 | the detected crystal is 26, 40 or 48 MHz: 48 exactly when the estimate is above 45, 26 exactly when it is at most 33 |
| Esp32c5.CrystalFreq | esptool-js/src/targets/esp32c5.ts:133-150 | the result is the normalisation of baud rate times console divider over 10^6 over XTAL_CLK_DIVIDER, and the unsupported-crystal warning is logged exactly when it is more than 1 MHz from the estimate |
| Esp32c5.NormalizedXtalMonotone | esptool-js/src/targets/esp32c5.ts:139-145 | a larger estimate never selects a smaller crystal |
| Esp32c5.SupportedCrystalRecognised | esptool-js/src/targets/esp32c5.ts:139-148 | an estimate within 1 MHz of 26, 40 or 48 selects that crystal and draws no warning |
| Esp32c5.XtalFreqMask | esptool-js/src/targets/esp32c5.ts:49 | `0x7f << 24` is the seven-bit field at bit 24 |
| Esp32c5.XtalFreqField | esptool-js/src/targets/esp32c5.ts:152-156 | masking with that field and shifting right by 24 reads bits 24 to 30 of the word |
| Esp32c5.CrystalFreqRomExpect | esptool-js/src/targets/esp32c5.ts:152-156 | the crystal the ROM expects is bits 24 to 30 of the system-clock configuration word, below 128 |
| Esp32c5.KeyPurposeLayout | esptool-js/src/targets/esp32c5.ts:163-170 | the register/shift table gives blocks 0 and 1 the word at EFUSE_BASE + 0x34 at bits 22 and 27, and blocks 2 to 5 the word at EFUSE_BASE + 0x38 at bits 0, 5, 10 and 15; the 5-bit fields do not overlap and the key-manager bit lies outside them |
| Esp32c5.KeyBlockPurpose | esptool-js/src/targets/esp32c5.ts:158-175 | a block number below 0 or above 5 fails with "Valid key block numbers must be in range 0-5"; any other gives the block's 5-bit purpose field, below 32 |
| Esp32c5.KeyBlockPurposeFrame | esptool-js/src/targets/esp32c5.ts:158-173 | the purpose depends only on the block's own register word, and an out-of-range block fails whatever the registers hold |
| Esp32c5.KeyPurposeNames | esptool-js/src/targets/esp32c5.ts:81-99 | every named purpose code fits the 5-bit field, and code 4 is XTS_AES_128_KEY |
| Esp32c5.KeyPurposesAt | esptool-js/src/targets/esp32c5.ts:179-183 | entry j of the purposes collected for blocks 0 to n - 1 is block j's purpose |
| Esp32c5.XtsKeyAmongPurposes | esptool-js/src/targets/esp32c5.ts:185 | the collected purposes contain 4 exactly when some key block 0 to 5 has purpose 4 |
| Esp32c5.KeyManagerXtsBit | esptool-js/src/targets/esp32c5.ts:189-192 | `((w >> 10) & 2) != 0` tests bit 11 of the key-manager word |
| Esp32c5.IsFlashEncryptionKeyValid | esptool-js/src/targets/esp32c5.ts:177-193 | true exactly when some key block 0 to 5 has purpose XTS_AES_128_KEY, or bit 11 of the word at EFUSE_BASE + 0x34 is set |
| Esp32c5.CheckSpiConnection | esptool-js/src/targets/esp32c5.ts:195-204 | fails with the range message exactly when some pin is outside 0 to 28 (an empty list passes); otherwise logs the USB-Serial/JTAG notice exactly when some pin is 13 or 14, and nothing else |
| Esp32c5.UsesUsbJtagSerial | esptool-js/src/targets/esp32c5.ts:206-211 | true exactly when the low byte of the ROM's port-number word is 3 |
| Esp32c5.ChangeBaud | esptool-js/src/targets/esp32c5.ts:223-252 | with the stub nothing is logged; with the ROM the log is the crystal warning (if any), the ROM-expected and detected frequencies, then the mismatch notice exactly when the detected/expected pair is 48/40 or 40/48 |

## Left out

- `watchdogReset` (esptool-js/src/targets/esp32c5.ts:213-221) is a placeholder: it logs a notice and always throws. It has no logic to prove.
- `getChipFeatures` (esptool-js/src/targets/esp32c5.ts:129-131) is the constant `CHIP_FEATURES`.
- `loader.readReg` is the register-file parameter. Its transport, `loader.info`'s output and `loader.changeBaud` (esptool-js/src/targets/esp32c5.ts:251) belong to the loader. The loader (`esploader`, `rom`) is not part of this model.
- The parent class `ESP32C6ROM` is not part of this model. `UART_CLKDIV_MASK`, which it defines, is the parameter `uartClkdivMask`. Inherited members, and the lookup of members through the parent, are not modelled.
- `Esp32c5.CrystalFreq`: the estimate `baudrate * uartDiv / 1000000 / XTAL_CLK_DIVIDER` is an exact rational (Dafny `real`) rather than an IEEE double, so rounding near the 33 MHz and 45 MHz thresholds and the 1 MHz warning margin is not modelled.
- `Esp32c5.KeyBlockPurpose`, `Esp32c5.CheckSpiConnection`: block numbers and pins are integers. Fractional or non-numeric JavaScript values are not modelled.
- The asynchronous `await`s are modelled as plain reads of the register file. Reads are assumed not to change the device.
- `script.js` and `esptool-integration.js` are user-interface and serial-port wiring with no descriptor logic, and are not part of this model.
