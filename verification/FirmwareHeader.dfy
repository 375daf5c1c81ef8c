/** The headers that the image tools put before an application. SHA-256 and CRC-32 are parameters. */
module FirmwareHeader {
  import opened Division
  import opened StructPack

  const UINT32_LIMIT := 0x1_0000_0000
  const UINT64_LIMIT := 0x1_0000_0000_0000_0000

  const UPDATE_HEADER_MAGIC := 0x5a51_b3d4
  const UPDATE_HEADER_VERSION := 2
  const SIZEOF_SHA512 := 64
  const SIZEOF_GUID := 16
  const SIZEOF_SHA256 := 32
  const CRC_OFFSET := 108

  const FOTA_HEADER_MAGIC := 0x5c02_53a3
  const PACKAGE_MAGIC := 0x464F_5441

  type Checksum = seq<Byte> -> int

  /** hashlib.sha256(...).digest(): thirty-two bytes. */
  ghost predicate IsSha256(digest: seq<Byte> -> seq<Byte>) {
    forall s :: |digest(s)| == SIZEOF_SHA256
  }

  const UPDATE_FIELDS :=
    [Number(4), Number(4), Number(8), Number(8), Text(SIZEOF_SHA512), Text(SIZEOF_GUID), Number(4), Number(4)]

  const UPDATE_FORMAT := Format(true, UPDATE_FIELDS)

  function UpdateValues(version: int, size: int, digest: seq<Byte>, crc: int): seq<Value> {
    [Num(UPDATE_HEADER_MAGIC), Num(UPDATE_HEADER_VERSION), Num(version), Num(size), Data(digest), Data([0]),
     Num(0), Num(crc)]
  }

  /** create_header for the EVK-MIMXRT1060 and the RX65N: packed with a zero checksum, then with the checksum of
      everything before it. */
  function UpdateHeader(app: seq<Byte>, version: int, digest: seq<Byte> -> seq<Byte>, crc32: Checksum)
    : Result<seq<Byte>>
  {
    match Pack(UPDATE_FORMAT, UpdateValues(version, |app|, digest(app), 0))
    case StructError => StructError
    case Ok(draft) =>
      if |draft| < 4 then StructError
      else Pack(UPDATE_FORMAT, UpdateValues(version, |app|, digest(app), crc32(draft[..|draft| - 4]) % UINT32_LIMIT))
  }

  const FOTA_FORMAT := Format(false, [Number(4), Number(4), Number(8), Text(SIZEOF_SHA256)])

  /** create_header for the LPCXpresso54628. */
  function FotaHeader(app: seq<Byte>, version: int, digest: seq<Byte> -> seq<Byte>): Result<seq<Byte>> {
    Pack(FOTA_FORMAT, [Num(FOTA_HEADER_MAGIC), Num(|app|), Num(version), Data(digest(app))])
  }

  const PACKAGE_FORMAT := Format(true, [Number(4), Number(4), Number(8), Number(4), Text(SIZEOF_SHA256)])

  /** make_firmware_package */
  function FirmwarePackage(binary: seq<Byte>, version: int, digest: seq<Byte> -> seq<Byte>): Result<seq<Byte>> {
    var size := Size(PACKAGE_FORMAT.fields);
    match Pack(PACKAGE_FORMAT, [Num(PACKAGE_MAGIC), Num(size), Num(version), Num(|binary|), Data(digest(binary))])
    case StructError => StructError
    case Ok(meta) => Ok(meta + binary)
  }

  lemma Powers()
    ensures Power256(4) == UINT32_LIMIT && Power256(8) == UINT64_LIMIT
  {
    assert Power256(2) == 0x1_0000;
    assert Power256(4) == 256 * (256 * Power256(2));
    assert Power256(6) == 256 * (256 * Power256(4));
    assert Power256(8) == 256 * (256 * Power256(6));
  }

  lemma UpdateSizes()
    ensures Size(UPDATE_FIELDS) == CRC_OFFSET + 4 && Offset(UPDATE_FIELDS, 7) == CRC_OFFSET
  {
    assert UPDATE_FIELDS[..8] == UPDATE_FIELDS;
    SizeIsOffset(UPDATE_FIELDS, 8);
    assert Offset(UPDATE_FIELDS, 1) == 4;
    assert Offset(UPDATE_FIELDS, 2) == 8;
    assert Offset(UPDATE_FIELDS, 3) == 16;
    assert Offset(UPDATE_FIELDS, 4) == 24;
    assert Offset(UPDATE_FIELDS, 5) == 24 + SIZEOF_SHA512;
    assert Offset(UPDATE_FIELDS, 6) == 24 + SIZEOF_SHA512 + SIZEOF_GUID;
  }

  lemma FotaSize()
    ensures Size(FOTA_FORMAT.fields) == 48
  {
    var fs := FOTA_FORMAT.fields;
    assert fs[..4] == fs;
    SizeIsOffset(fs, 4);
    assert Offset(fs, 1) == 4;
    assert Offset(fs, 2) == 8;
    assert Offset(fs, 3) == 16;
  }

  lemma PackageSize()
    ensures Size(PACKAGE_FORMAT.fields) == 52
  {
    var fs := PACKAGE_FORMAT.fields;
    assert fs[..5] == fs;
    SizeIsOffset(fs, 5);
    assert Offset(fs, 1) == 4;
    assert Offset(fs, 2) == 8;
    assert Offset(fs, 3) == 16;
    assert Offset(fs, 4) == 20;
  }

  lemma UpdateFits(version: int, size: nat, digest: seq<Byte>, crc: int)
    requires 0 <= crc < UINT32_LIMIT
    ensures Fits(UPDATE_FIELDS, UpdateValues(version, size, digest, crc))
            <==> 0 <= version < UINT64_LIMIT && size < UINT64_LIMIT
  {
    hide Power256;
    Powers();
    var values := UpdateValues(version, size, digest, crc);
    assert FitsField(UPDATE_FIELDS[2], values[2]) <==> 0 <= version < UINT64_LIMIT;
    assert FitsField(UPDATE_FIELDS[3], values[3]) <==> size < UINT64_LIMIT;
  }

  lemma UpdateStored(version: int, size: nat, digest: seq<Byte>, crc: int)
    requires |digest| == SIZEOF_SHA256
    ensures Stored(UPDATE_FIELDS, UpdateValues(version, size, digest, crc)) ==
            [Num(UPDATE_HEADER_MAGIC), Num(UPDATE_HEADER_VERSION), Num(version), Num(size),
             Data(digest + seq(32, _ => 0)), Data(seq(16, _ => 0)), Num(0), Num(crc)]
  {
    assert Padded([0], SIZEOF_GUID) == seq(16, _ => 0);
    assert Padded(digest, SIZEOF_SHA512) == digest + seq(32, _ => 0);
  }

  /** The header exists exactly for versions and sizes of 64 bits. It then takes 112 bytes, unpacks to the fields of
      the metadata header with the digest and the campaign filled up by zeros, and the checksum it holds
      is that of its own first 108 bytes. */
  lemma UpdateHeaderReads(app: seq<Byte>, version: int, digest: seq<Byte> -> seq<Byte>, crc32: Checksum)
    requires IsSha256(digest)
    ensures var header := UpdateHeader(app, version, digest, crc32);
            && (header.Ok? <==> 0 <= version < UINT64_LIMIT && |app| < UINT64_LIMIT)
            && (header.Ok? ==>
                  && |header.value| == CRC_OFFSET + 4
                  && Pack(UPDATE_FORMAT, UpdateValues(version, |app|, digest(app),
                                                      crc32(header.value[..CRC_OFFSET]) % UINT32_LIMIT)) == header
                  && Unpack(UPDATE_FORMAT, header.value) ==
                     Ok([Num(UPDATE_HEADER_MAGIC), Num(UPDATE_HEADER_VERSION), Num(version), Num(|app|),
                         Data(digest(app) + seq(32, _ => 0)), Data(seq(16, _ => 0)), Num(0),
                         Num(crc32(header.value[..CRC_OFFSET]) % UINT32_LIMIT)]))
  {
    hide Fits, UpdateValues, Stored, PackFields, UnpackFields, Size, Offset;
    UpdateSizes();
    UpdateFits(version, |app|, digest(app), 0);
    var draftValues := UpdateValues(version, |app|, digest(app), 0);
    if Fits(UPDATE_FIELDS, draftValues) {
      var draft := PackFields(true, UPDATE_FIELDS, draftValues);
      var crc := crc32(draft[..CRC_OFFSET]) % UINT32_LIMIT;
      var values := UpdateValues(version, |app|, digest(app), crc);
      UpdateFits(version, |app|, digest(app), crc);
      SamePrefix(version, |app|, digest(app), crc);
      PackedInOrder(true, UPDATE_FIELDS, draftValues, values, 7);
      RoundTrip(UPDATE_FORMAT, values, []);
      UpdateStored(version, |app|, digest(app), crc);
    }
  }

  lemma UpdateOffsets()
    ensures Offset(UPDATE_FIELDS, 1) == 4 && Offset(UPDATE_FIELDS, 2) == 8 && Offset(UPDATE_FIELDS, 3) == 16
    ensures Offset(UPDATE_FIELDS, 4) == 24 && Offset(UPDATE_FIELDS, 5) == 88 && Offset(UPDATE_FIELDS, 6) == 104
    ensures Offset(UPDATE_FIELDS, 7) == 108 && Offset(UPDATE_FIELDS, 0) == 0
  {
    assert Offset(UPDATE_FIELDS, 1) == 4;
    assert Offset(UPDATE_FIELDS, 3) == 16;
    assert Offset(UPDATE_FIELDS, 5) == 88;
  }

  /** A number most significant byte first, digit by digit to base 256. */
  lemma BigBytes(n: int)
    requires 0 <= n < UINT32_LIMIT
    ensures Big(n, 4) == [n / 0x100_0000, n / 0x1_0000 % 256, n / 0x100 % 256, n % 256]
  {
    Nested(n, 256, 256);
    Nested(n, 256, 65536);
    Nested(n / 256, 256, 256);
    assert Big(n / 0x100_0000, 1) == [n / 0x100_0000 % 256] by {
      assert Big(n / 0x100_0000 / 256, 0) == [];
    }
    assert n / 0x100_0000 < 256;
    assert Big(n / 0x1_0000, 2) == Big(n / 0x1_0000 / 256, 1) + [n / 0x1_0000 % 256];
    assert Big(n / 256, 3) == Big(n / 256 / 256, 2) + [n / 256 % 256];
  }

  /** And least significant byte first. */
  lemma LittleBytes(n: int)
    requires 0 <= n < UINT32_LIMIT
    ensures Little(n, 4) == [n % 256, n / 0x100 % 256, n / 0x1_0000 % 256, n / 0x100_0000]
  {
    Nested(n, 256, 256);
    Nested(n, 256, 65536);
    Nested(n / 256, 256, 256);
    assert Little(n / 0x100_0000, 1) == [n / 0x100_0000 % 256] by {
      assert Little(n / 0x100_0000 / 256, 0) == [];
    }
    assert n / 0x100_0000 < 256;
    assert Little(n / 0x1_0000, 2) == [n / 0x1_0000 % 256] + Little(n / 0x1_0000 / 256, 1);
    assert Little(n / 256, 3) == [n / 256 % 256] + Little(n / 256 / 256, 2);
  }

  /** The header byte by byte: magic and version most significant first, then the version of the firmware and its size,
      the digest and the campaign with their zeros, no signature, and the checksum. */
  lemma UpdateHeaderBytes(app: seq<Byte>, version: int, digest: seq<Byte> -> seq<Byte>, crc32: Checksum)
    requires IsSha256(digest) && UpdateHeader(app, version, digest, crc32).Ok?
    ensures var h := UpdateHeader(app, version, digest, crc32).value;
            && |h| == 112
            && h[0..4] == [0x5a, 0x51, 0xb3, 0xd4] && h[4..8] == [0, 0, 0, 2]
            && BigValue(h[8..16]) == version && BigValue(h[16..24]) == |app|
            && h[24..56] == digest(app) && h[56..88] == seq(32, _ => 0) && h[88..104] == seq(16, _ => 0)
            && h[104..108] == [0, 0, 0, 0]
            && BigValue(h[108..112]) == crc32(h[..108]) % 0x1_0000_0000
  {
    hide Fits, PackFields, UnpackFields, Size, Offset, UpdateValues, UpdateHeader, Big, BigValue, Power256, Unpack;
    UpdateHeaderReads(app, version, digest, crc32);
    var h := UpdateHeader(app, version, digest, crc32).value;
    UpdateBytesOf(h, version, |app|, digest(app), crc32(h[..CRC_OFFSET]) % UINT32_LIMIT);
    assert h[24..56] == h[24..88][..32] && h[56..88] == h[24..88][32..];
  }

  lemma UpdateBytesOf(h: seq<Byte>, version: int, size: nat, digest: seq<Byte>, crc: int)
    requires |digest| == 32 && Pack(UPDATE_FORMAT, UpdateValues(version, size, digest, crc)) == Ok(h)
    ensures |h| == 112
    ensures h[0..4] == [0x5a, 0x51, 0xb3, 0xd4] && h[4..8] == [0, 0, 0, 2]
    ensures BigValue(h[8..16]) == version && BigValue(h[16..24]) == size
    ensures h[24..88] == digest + seq(32, _ => 0) && h[88..104] == seq(16, _ => 0)
    ensures h[104..108] == [0, 0, 0, 0] && BigValue(h[108..112]) == crc
  {
    hide PackFields, Size, Offset, Fits, Big, BigValue, Power256, UpdateValues;
    UpdateSizes();
    UpdateLiterals(h, version, size, digest, crc);
    UpdateNumbers(h, version, size, digest, crc);
    UpdateTexts(h, version, size, digest, crc);
  }

  lemma UpdateLiterals(h: seq<Byte>, version: int, size: nat, digest: seq<Byte>, crc: int)
    requires Pack(UPDATE_FORMAT, UpdateValues(version, size, digest, crc)) == Ok(h) && |h| == 112
    ensures h[0..4] == [0x5a, 0x51, 0xb3, 0xd4] && h[4..8] == [0, 0, 0, 2] && h[104..108] == [0, 0, 0, 0]
  {
    hide PackFields, Size, Offset, Fits, Big, Power256;
    var vs := UpdateValues(version, size, digest, crc);
    UpdateOffsets();
    PackedField(UPDATE_FORMAT, vs, h, 0);
    PackedField(UPDATE_FORMAT, vs, h, 1);
    PackedField(UPDATE_FORMAT, vs, h, 6);
    BigBytes(UPDATE_HEADER_MAGIC);
    BigBytes(UPDATE_HEADER_VERSION);
    BigBytes(0);
  }

  lemma UpdateNumbers(h: seq<Byte>, version: int, size: nat, digest: seq<Byte>, crc: int)
    requires Pack(UPDATE_FORMAT, UpdateValues(version, size, digest, crc)) == Ok(h) && |h| == 112
    ensures BigValue(h[8..16]) == version && BigValue(h[16..24]) == size && BigValue(h[108..112]) == crc
  {
    hide PackFields, Size, Offset, Fits, Big, BigValue, Power256;
    var vs := UpdateValues(version, size, digest, crc);
    UpdateOffsets();
    PackedField(UPDATE_FORMAT, vs, h, 2);
    PackedField(UPDATE_FORMAT, vs, h, 3);
    PackedField(UPDATE_FORMAT, vs, h, 7);
    BigRead(version, 8);
    BigRead(size, 8);
    BigRead(crc, 4);
  }

  lemma UpdateTexts(h: seq<Byte>, version: int, size: nat, digest: seq<Byte>, crc: int)
    requires Pack(UPDATE_FORMAT, UpdateValues(version, size, digest, crc)) == Ok(h) && |h| == 112 && |digest| == 32
    ensures h[24..88] == digest + seq(32, _ => 0) && h[88..104] == seq(16, _ => 0)
  {
    hide PackFields, Size, Offset, Fits, Big, Power256;
    var vs := UpdateValues(version, size, digest, crc);
    UpdateOffsets();
    PackedField(UPDATE_FORMAT, vs, h, 4);
    PackedField(UPDATE_FORMAT, vs, h, 5);
    assert Padded([0], 16) == seq(16, _ => 0);
    assert Padded(digest, 64) == digest + seq(32, _ => 0);
  }

  /** The header of the LPCXpresso54628 byte by byte, least significant first. */
  lemma FotaHeaderBytes(app: seq<Byte>, version: int, digest: seq<Byte> -> seq<Byte>)
    requires IsSha256(digest) && FotaHeader(app, version, digest).Ok?
    ensures var h := FotaHeader(app, version, digest).value;
            && |h| == 48
            && h[0..4] == [0xa3, 0x53, 0x02, 0x5c]
            && LittleValue(h[4..8]) == |app| && LittleValue(h[8..16]) == version && h[16..48] == digest(app)
  {
    hide PackFields, UnpackFields, Size, Offset, Little, LittleValue, Power256, Pack, Unpack;
    var h := FotaHeader(app, version, digest).value;
    var vs := [Num(FOTA_HEADER_MAGIC), Num(|app|), Num(version), Data(digest(app))];
    FotaHeaderReads(app, version, digest);
    FotaOffsets();
    PackedField(FOTA_FORMAT, vs, h, 0);
    PackedField(FOTA_FORMAT, vs, h, 1);
    PackedField(FOTA_FORMAT, vs, h, 2);
    PackedField(FOTA_FORMAT, vs, h, 3);
    LittleBytes(FOTA_HEADER_MAGIC);
    LittleRead(|app|, 4);
    LittleRead(version, 8);
    assert Padded(digest(app), 32) == digest(app);
  }

  lemma FotaOffsets()
    ensures var fs := FOTA_FORMAT.fields;
            Offset(fs, 0) == 0 && Offset(fs, 1) == 4 && Offset(fs, 2) == 8 && Offset(fs, 3) == 16
  {
    var fs := FOTA_FORMAT.fields;
    assert Offset(fs, 1) == 4;
    assert Offset(fs, 2) == 8;
  }

  /** The package byte by byte, most significant first. */
  lemma PackageBytes(binary: seq<Byte>, version: int, digest: seq<Byte> -> seq<Byte>)
    requires IsSha256(digest) && FirmwarePackage(binary, version, digest).Ok?
    ensures var h := FirmwarePackage(binary, version, digest).value;
            && |h| == 52 + |binary| && h[52..] == binary
            && h[0..4] == [0x46, 0x4f, 0x54, 0x41] && h[4..8] == [0, 0, 0, 52]
            && BigValue(h[8..16]) == version && BigValue(h[16..20]) == |binary| && h[20..52] == digest(binary)
  {
    hide PackFields, UnpackFields, Offset, Big, BigValue, Power256, Unpack, Fits;
    var vs := [Num(PACKAGE_MAGIC), Num(52), Num(version), Num(|binary|), Data(digest(binary))];
    PackageSplits(binary, version, digest);
    PackageSize();
    PackageMeta(binary, version, digest);
    var meta := Pack(PACKAGE_FORMAT, vs).value;
    PackageMetaBytes(meta, version, |binary|, digest(binary));
    hide FirmwarePackage, Pack;
    var h := FirmwarePackage(binary, version, digest).value;
    assert h[8..16] == meta[8..16] && h[16..20] == meta[16..20];
  }

  lemma PackageMeta(binary: seq<Byte>, version: int, digest: seq<Byte> -> seq<Byte>)
    requires FirmwarePackage(binary, version, digest).Ok?
    ensures var vs := [Num(PACKAGE_MAGIC), Num(52), Num(version), Num(|binary|), Data(digest(binary))];
            && Pack(PACKAGE_FORMAT, vs).Ok? && |Pack(PACKAGE_FORMAT, vs).value| == 52
            && FirmwarePackage(binary, version, digest).value == Pack(PACKAGE_FORMAT, vs).value + binary
  {
    hide PackFields, Fits;
    PackageSize();
  }

  lemma PackageMetaBytes(h: seq<Byte>, version: int, size: nat, digest: seq<Byte>)
    requires |digest| == 32 && |h| == 52
    requires Pack(PACKAGE_FORMAT, [Num(PACKAGE_MAGIC), Num(52), Num(version), Num(size), Data(digest)]) == Ok(h)
    ensures h[0..4] == [0x46, 0x4f, 0x54, 0x41] && h[4..8] == [0, 0, 0, 52]
    ensures BigValue(h[8..16]) == version && BigValue(h[16..20]) == size && h[20..52] == digest
  {
    hide PackFields, Size, Offset, Fits, Big, BigValue, Power256, Pack;
    var vs := [Num(PACKAGE_MAGIC), Num(52), Num(version), Num(size), Data(digest)];
    PackageOffsets();
    PackedField(PACKAGE_FORMAT, vs, h, 0);
    PackedField(PACKAGE_FORMAT, vs, h, 1);
    PackedField(PACKAGE_FORMAT, vs, h, 2);
    PackedField(PACKAGE_FORMAT, vs, h, 3);
    PackedField(PACKAGE_FORMAT, vs, h, 4);
    BigBytes(PACKAGE_MAGIC);
    BigBytes(52);
    BigRead(version, 8);
    BigRead(size, 4);
    assert Padded(digest, 32) == digest;
  }

  lemma PackageOffsets()
    ensures var fs := PACKAGE_FORMAT.fields;
            && Offset(fs, 0) == 0 && Offset(fs, 1) == 4 && Offset(fs, 2) == 8
            && Offset(fs, 3) == 16 && Offset(fs, 4) == 20
  {
    var fs := PACKAGE_FORMAT.fields;
    assert Offset(fs, 1) == 4;
    assert Offset(fs, 3) == 16;
  }

  lemma SamePrefix(version: int, size: nat, digest: seq<Byte>, crc: int)
    ensures UpdateValues(version, size, digest, crc)[..7] == UpdateValues(version, size, digest, 0)[..7]
  {
  }

  lemma FotaHeaderReads(app: seq<Byte>, version: int, digest: seq<Byte> -> seq<Byte>)
    requires IsSha256(digest)
    ensures var header := FotaHeader(app, version, digest);
            && (header.Ok? <==> 0 <= version < UINT64_LIMIT && |app| < UINT32_LIMIT)
            && (header.Ok? ==>
                  && |header.value| == 48
                  && Unpack(FOTA_FORMAT, header.value) ==
                     Ok([Num(FOTA_HEADER_MAGIC), Num(|app|), Num(version), Data(digest(app))]))
  {
    hide Size, PackFields, UnpackFields, Power256;
    Powers();
    FotaSize();
    var fields := FOTA_FORMAT.fields;
    var values := [Num(FOTA_HEADER_MAGIC), Num(|app|), Num(version), Data(digest(app))];
    assert Padded(digest(app), SIZEOF_SHA256) == digest(app);
    assert FitsField(fields[1], values[1]) <==> |app| < UINT32_LIMIT;
    assert FitsField(fields[2], values[2]) <==> 0 <= version < UINT64_LIMIT;
    RoundTrip(FOTA_FORMAT, values, []);
    assert Stored(fields, values) == values;
  }

  /** The package exists exactly for versions of 64 bits and payloads of 32-bit length; it splits into a 52-byte header
      that names its own size, and the payload. */
  lemma PackageSplits(binary: seq<Byte>, version: int, digest: seq<Byte> -> seq<Byte>)
    requires IsSha256(digest)
    ensures var package := FirmwarePackage(binary, version, digest);
            && (package.Ok? <==> 0 <= version < UINT64_LIMIT && |binary| < UINT32_LIMIT)
            && (package.Ok? ==>
                  && |package.value| == 52 + |binary| && package.value[52..] == binary
                  && Unpack(PACKAGE_FORMAT, package.value[..52]) ==
                     Ok([Num(PACKAGE_MAGIC), Num(52), Num(version), Num(|binary|), Data(digest(binary))]))
  {
    hide Size, PackFields, UnpackFields, Power256;
    Powers();
    PackageSize();
    var fields := PACKAGE_FORMAT.fields;
    var values := [Num(PACKAGE_MAGIC), Num(52), Num(version), Num(|binary|), Data(digest(binary))];
    assert Padded(digest(binary), SIZEOF_SHA256) == digest(binary);
    assert FitsField(fields[2], values[2]) <==> 0 <= version < UINT64_LIMIT;
    assert FitsField(fields[3], values[3]) <==> |binary| < UINT32_LIMIT;
    RoundTrip(PACKAGE_FORMAT, values, []);
    assert Stored(fields, values) == values;
  }
}
