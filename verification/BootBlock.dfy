// The boot block that a format writes and a mount checks (filesystem/FileSystem.cpp,
// filesystem/FileSystem.h).
module BootBlocks {
  import opened Sectors
  import opened Volumes

  const BOOT_SIGNATURE := 0x29
  const MEDIA_REMOVABLE := 0xF0
  const MEDIA_FIXED := 0xF8
  const BOOT_BLOCK_SIZE := 51

  // The packed fields, in their order; the volume label is left as bytes.
  datatype BootBlock = BootBlock(
    jump: seq<Byte>,
    media: int,
    sectorsPerTrack: int,
    heads: int,
    bytesPerSector: int,
    totalSectors: int,
    hiddenSectors: int,
    reservedSectors: int,
    tableSize: int,
    extFlags: int,
    version: int,
    info: int,
    bootSignature: int,
    volumeId: int,
    volumeLabel: seq<Byte>,
    usedSectors: int)
  {
    predicate Fits() {
      && |jump| == 3 && |volumeLabel| == 12
      && 0 <= media < 0x100 && 0 <= bootSignature < 0x100
      && 0 <= sectorsPerTrack < 0x1_0000 && 0 <= heads < 0x1_0000 && 0 <= bytesPerSector < 0x1_0000
      && 0 <= reservedSectors < 0x1_0000
      && 0 <= extFlags < 0x1_0000 && 0 <= version < 0x1_0000 && 0 <= info < 0x1_0000
      && 0 <= totalSectors < 0x1_0000_0000 && 0 <= hiddenSectors < 0x1_0000_0000
      && 0 <= tableSize < 0x1_0000_0000 && 0 <= volumeId < 0x1_0000_0000 && 0 <= usedSectors < 0x1_0000_0000
    }
  }

  // A little-endian number of n bytes.
  function Number(bytes: seq<Byte>): (n: nat) {
    if bytes == [] then 0 else bytes[0] + 0x100 * Number(bytes[1..])
  }

  function Digits(value: nat, n: nat): (bytes: seq<Byte>)
    ensures |bytes| == n
  {
    if n == 0 then [] else [value % 0x100] + Digits(value / 0x100, n - 1)
  }

  function Power(n: nat): (p: nat)
    ensures 0 < p
  {
    if n == 0 then 1 else 0x100 * Power(n - 1)
  }

  lemma {:induction false} DigitsRoundTrip(value: nat, n: nat)
    requires value < Power(n)
    ensures Number(Digits(value, n)) == value
  {
    if n > 0 {
      DigitsRoundTrip(value / 0x100, n - 1);
      assert Digits(value, n)[1..] == Digits(value / 0x100, n - 1);
    }
  }

  function Encoded(b: BootBlock): (bytes: seq<Byte>)
    requires b.Fits()
    ensures |bytes| == BOOT_BLOCK_SIZE
  {
    b.jump + Digits(b.media, 1) + Digits(b.sectorsPerTrack, 2) + Digits(b.heads, 2) + Digits(b.bytesPerSector, 2)
    + Digits(b.totalSectors, 4) + Digits(b.hiddenSectors, 4) + Digits(b.reservedSectors, 2) + Digits(b.tableSize, 4)
    + Digits(b.extFlags, 2) + Digits(b.version, 2) + Digits(b.info, 2) + Digits(b.bootSignature, 1)
    + Digits(b.volumeId, 4) + b.volumeLabel + Digits(b.usedSectors, 4)
  }

  function Decoded(s: Sector): BootBlock {
    BootBlock(s[0..3], Number(s[3..4]), Number(s[4..6]), Number(s[6..8]), Number(s[8..10]), Number(s[10..14]),
              Number(s[14..18]), Number(s[18..20]), Number(s[20..24]), Number(s[24..26]), Number(s[26..28]),
              Number(s[28..30]), Number(s[30..31]), Number(s[31..35]), s[35..47], Number(s[47..51]))
  }

  // The boot sector: the fields, whatever the buffer held behind them, and the signature.
  function BootSector(b: BootBlock, rest: Sector): (s: Sector)
    requires b.Fits()
  {
    Encoded(b) + rest[BOOT_BLOCK_SIZE..510] + [0x55, 0xAA]
  }

  lemma Powers()
    ensures Power(1) == 0x100 && Power(2) == 0x1_0000 && Power(4) == 0x1_0000_0000
  {
    assert Power(3) == 0x100_0000;
  }

  lemma SliceOfBoot(b: BootBlock, rest: Sector)
    requires b.Fits()
    ensures var s := BootSector(b, rest);
            && s[0..3] == b.jump && s[3..4] == Digits(b.media, 1) && s[4..6] == Digits(b.sectorsPerTrack, 2)
            && s[6..8] == Digits(b.heads, 2) && s[8..10] == Digits(b.bytesPerSector, 2)
            && s[10..14] == Digits(b.totalSectors, 4) && s[14..18] == Digits(b.hiddenSectors, 4)
            && s[18..20] == Digits(b.reservedSectors, 2) && s[20..24] == Digits(b.tableSize, 4)
            && s[24..26] == Digits(b.extFlags, 2) && s[26..28] == Digits(b.version, 2) && s[28..30] == Digits(b.info, 2)
            && s[30..31] == Digits(b.bootSignature, 1) && s[31..35] == Digits(b.volumeId, 4)
               && s[35..47] == b.volumeLabel
            && s[47..51] == Digits(b.usedSectors, 4) && s[510] == 0x55 && s[511] == 0xAA
  {
    hide Digits;
  }

  lemma BootRoundTrip(b: BootBlock, rest: Sector)
    requires b.Fits()
    ensures Decoded(BootSector(b, rest)) == b
  {
    hide Digits, Number, Power, BootSector;
    SliceOfBoot(b, rest);
    Powers();
    DigitsRoundTrip(b.media, 1);
    DigitsRoundTrip(b.sectorsPerTrack, 2);
    DigitsRoundTrip(b.heads, 2);
    DigitsRoundTrip(b.bytesPerSector, 2);
    DigitsRoundTrip(b.totalSectors, 4);
    DigitsRoundTrip(b.hiddenSectors, 4);
    DigitsRoundTrip(b.reservedSectors, 2);
    DigitsRoundTrip(b.tableSize, 4);
    DigitsRoundTrip(b.extFlags, 2);
    DigitsRoundTrip(b.version, 2);
    DigitsRoundTrip(b.info, 2);
    DigitsRoundTrip(b.bootSignature, 1);
    DigitsRoundTrip(b.volumeId, 4);
    DigitsRoundTrip(b.usedSectors, 4);
  }

  // What a format writes for a drive of this many sectors; the label's last byte is what the buffer
  // held.
  function Initial(totalSectors: int, sectorsPerTrack: int, heads: int, floppy: bool, last: Byte): (b: BootBlock)
    requires 0 <= totalSectors < 0x1_0000_0000 && 0 <= sectorsPerTrack < 0x1_0000 && 0 <= heads < 0x1_0000
    ensures b.Fits()
  {
    BootBlock([0xEB, 0xFE, 0x90], if floppy then MEDIA_REMOVABLE else MEDIA_FIXED, sectorsPerTrack, heads, 0x200,
              totalSectors, 0, RESERVED_SECTORS, TableSize(totalSectors), 0x0080, 0x0100, 1, BOOT_SIGNATURE, 1,
              [78, 111, 32, 78, 97, 109, 101, 32, 32, 32, 0, last], 1)
  }

  // The checks of a mount, on a drive of this size.
  predicate Accepts(s: Sector, sizeInSectors: int, floppy: bool) {
    var b := Decoded(s);
    && s[510] == 0x55 && s[511] == 0xAA && b.bootSignature == BOOT_SIGNATURE
    && b.totalSectors == sizeInSectors && b.tableSize != 0 && b.bytesPerSector == 0x200
    && b.jump == [0xEB, 0xFE, 0x90] && (floppy ==> b.media == MEDIA_REMOVABLE)
    && b.extFlags == 0x0080 && b.version == 0x0100 && b.info == 1 && b.volumeId == 1
  }

  // A formatted drive is accepted exactly if its table is not empty: from 132 sectors on, or with
  // fewer than three, where the table size wraps.
  lemma FormattedAcceptedIff(totalSectors: int, sectorsPerTrack: int, heads: int, floppy: bool, rest: Sector)
    requires 0 <= totalSectors < 0x1_0000_0000 && 0 <= sectorsPerTrack < 0x1_0000 && 0 <= heads < 0x1_0000
    ensures Accepts(BootSector(Initial(totalSectors, sectorsPerTrack, heads, floppy, rest[46]), rest), totalSectors,
              floppy)
            <==> totalSectors < 3 || 132 <= totalSectors
  {
    hide Digits, Number, Decoded, BootSector;
    var b := Initial(totalSectors, sectorsPerTrack, heads, floppy, rest[46]);
    BootRoundTrip(b, rest);
    SliceOfBoot(b, rest);
  }

  // The numbers of two and four bytes at a place of the sector, low byte first.
  function Short(s: Sector, at: int): int
    requires 0 <= at <= 510
  {
    s[at] as int + 0x100 * s[at + 1] as int
  }

  function Long(s: Sector, at: int): int
    requires 0 <= at <= 508
  {
    s[at] as int + 0x100 * s[at + 1] as int + 0x1_0000 * s[at + 2] as int + 0x100_0000 * s[at + 3] as int
  }

  lemma NumbersAt(s: Sector, at: int)
    requires 0 <= at <= 508
    ensures Number(s[at..at + 1]) == s[at] && Number(s[at..at + 2]) == Short(s, at)
    ensures Number(s[at..at + 4]) == Long(s, at)
  {
    assert s[at..at + 4][1..] == s[at + 1..at + 4] && s[at + 1..at + 4][1..] == s[at + 2..at + 4];
    assert s[at + 2..at + 4][1..] == s[at + 3..at + 4] && s[at..at + 2][1..] == s[at + 1..at + 2];
    SingleNumber(s, at);
    SingleNumber(s, at + 1);
    SingleNumber(s, at + 3);
    assert Number(s[at + 2..at + 4]) == s[at + 2] as int + 0x100 * s[at + 3] as int;
    assert Number(s[at + 1..at + 4]) == s[at + 1] as int + 0x100 * Number(s[at + 2..at + 4]);
  }

  lemma SingleNumber(s: Sector, at: int)
    requires 0 <= at < 512
    ensures Number(s[at..at + 1]) == s[at]
  {
    assert s[at..at + 1][1..] == [];
  }

  // The checks, on the bytes of the sector.
  predicate Checked(s: Sector, sizeInSectors: int, floppy: bool) {
    && s[510] == 0x55 && s[511] == 0xAA && s[30] == 0x29
    && Long(s, 10) == sizeInSectors && Long(s, 20) != 0 && Short(s, 8) == 512
    && s[0] == 0xEB && s[1] == 0xFE && s[2] == 0x90 && (floppy ==> s[3] == 0xF0)
    && Short(s, 24) == 0x80 && Short(s, 26) == 0x100 && Short(s, 28) == 1 && Long(s, 31) == 1
  }

  lemma AcceptsIff(s: Sector, sizeInSectors: int, floppy: bool)
    ensures Accepts(s, sizeInSectors, floppy) <==> Checked(s, sizeInSectors, floppy)
    ensures Decoded(s).tableSize == Long(s, 20) && Decoded(s).usedSectors == Long(s, 47)
  {
    hide Number, Short, Long;
    NumbersAt(s, 3);
    NumbersAt(s, 8);
    NumbersAt(s, 10);
    NumbersAt(s, 20);
    NumbersAt(s, 24);
    NumbersAt(s, 26);
    NumbersAt(s, 28);
    NumbersAt(s, 30);
    NumbersAt(s, 31);
    NumbersAt(s, 47);
    assert s[0..3] == [s[0], s[1], s[2]];
  }

  // Every byte of the sector that a format writes.
  ghost predicate BootBytes(s: Sector, totalSectors: int, sectorsPerTrack: int, heads: int, floppy: bool,
                            rest: Sector)
  {
    && s[0] == 0xEB && s[1] == 0xFE && s[2] == 0x90 && s[3] == (if floppy then 0xF0 else 0xF8)
    && Short(s, 4) == sectorsPerTrack && Short(s, 6) == heads && Short(s, 8) == 512 && Long(s, 10) == totalSectors
    && Long(s, 14) == 0 && Short(s, 18) == 2 && Long(s, 20) == (totalSectors - 3) % 0x1_0000_0000 / 129
    && Short(s, 24) == 0x80 && Short(s, 26) == 0x100 && Short(s, 28) == 1 && s[30] == 0x29 && Long(s, 31) == 1
    && s[35..46] == [78, 111, 32, 78, 97, 109, 101, 32, 32, 32, 0] && s[46] == rest[46] && Long(s, 47) == 1
    && s[51..510] == rest[51..510] && s[510] == 0x55 && s[511] == 0xAA
  }

  lemma FormatBytes(totalSectors: int, sectorsPerTrack: int, heads: int, floppy: bool, rest: Sector)
    requires 0 <= totalSectors < 0x1_0000_0000 && 0 <= sectorsPerTrack < 0x1_0000 && 0 <= heads < 0x1_0000
    ensures BootBytes(BootSector(Initial(totalSectors, sectorsPerTrack, heads, floppy, rest[46]), rest), totalSectors,
                      sectorsPerTrack, heads, floppy, rest)
  {
    hide Number, Short, Long, Digits, BootSector;
    var b := Initial(totalSectors, sectorsPerTrack, heads, floppy, rest[46]);
    var s := BootSector(b, rest);
    BootRoundTrip(b, rest);
    SliceOfBoot(b, rest);
    RestOfBoot(b, rest);
    NumbersAt(s, 3);
    NumbersAt(s, 4);
    NumbersAt(s, 6);
    NumbersAt(s, 8);
    NumbersAt(s, 10);
    NumbersAt(s, 14);
    NumbersAt(s, 18);
    NumbersAt(s, 20);
    NumbersAt(s, 24);
    NumbersAt(s, 26);
    NumbersAt(s, 28);
    NumbersAt(s, 30);
    NumbersAt(s, 31);
    NumbersAt(s, 47);
    assert s[0] == s[0..3][0] && s[1] == s[0..3][1] && s[2] == s[0..3][2];
    assert s[46] == s[35..47][11] && s[35..46] == s[35..47][..11];
  }

  lemma RestOfBoot(b: BootBlock, rest: Sector)
    requires b.Fits()
    ensures BootSector(b, rest)[51..510] == rest[51..510]
  {
  }
}
