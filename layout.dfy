/** The backup record of DeviceKeyHelperRK: the constants that fix its size and
    its sentinel, the record itself, and its image as bytes on a storage medium.

    The C struct is stored by copying its memory, so the byte image is the
    struct's in-memory layout on the device: a little-endian `magic` (4 bytes),
    `size` (2 bytes), `sum` (2 bytes), then the key bytes. Both key sizes are
    multiples of 4, so the struct has no padding. */
module Layout {

  type byte = x: int | 0 <= x < 0x100
  type uint16 = x: int | 0 <= x < 0x1_0000
  type uint32 = x: int | 0 <= x < 0x1_0000_0000

  /** Which key slot the firmware uses: the main slot on TCP (Wi-Fi) devices,
      the alternate slot on UDP (cellular) devices. */
  datatype Platform = WiFi | Cellular

  function PrivateKeySize(p: Platform): nat {
    match p
    case WiFi => 1216
    case Cellular => 192
  }

  function PublicKeySize(p: Platform): nat {
    match p
    case WiFi => 384
    case Cellular => 128
  }

  /** DEVICE_KEYS_HELPER_SIZE: the private key followed by the public key. */
  function KeySize(p: Platform): nat {
    PrivateKeySize(p) + PublicKeySize(p)
  }

  /** The platform the library is built for (a build-time choice). */
  const PLATFORM: Platform := WiFi

  const KEY_SIZE: nat := KeySize(PLATFORM)

  /** magic (4 bytes) + size (2 bytes) + sum (2 bytes) */
  const HEADER_SIZE: nat := 8

  /** sizeof(DeviceKeyHelperSavedData) */
  const RECORD_SIZE: nat := HEADER_SIZE + KEY_SIZE

  const DATA_HEADER_MAGIC: uint32 := 0x75a65c63

  /** The key field of a record: exactly KEY_SIZE bytes. */
  type KeyBlob = s: seq<byte> | |s| == KEY_SIZE witness seq(KEY_SIZE, _ => 0)

  /** DeviceKeyHelperSavedData. `size` holds the length of `keys`, not of the
      whole record; `sum` is the checksum of `keys` only. */
  datatype Record = Record(magic: uint32, size: uint16, sum: uint16, keys: KeyBlob)

  /** The record sizes the documentation gives for the two platforms, and the
      fact that the key length fits the 16-bit `size` field. */
  lemma RecordSizes()
    ensures HEADER_SIZE + KeySize(WiFi) == 1608
    ensures HEADER_SIZE + KeySize(Cellular) == 328
    ensures 0 < KEY_SIZE < 0x1_0000
  {
  }

  function Le16(x: uint16): seq<byte> {
    [x % 0x100, x / 0x100]
  }

  function FromLe16(b: seq<byte>): uint16
    requires |b| == 2
  {
    b[0] as int + 0x100 * (b[1] as int)
  }

  function Le32(x: uint32): seq<byte> {
    Le16(x % 0x1_0000) + Le16(x / 0x1_0000)
  }

  function FromLe32(b: seq<byte>): uint32
    requires |b| == 4
  {
    FromLe16(b[..2]) as int + 0x1_0000 * (FromLe16(b[2..]) as int)
  }

  lemma Le16RoundTrip(x: uint16)
    ensures |Le16(x)| == 2 && FromLe16(Le16(x)) == x
  {
  }

  lemma FromLe16RoundTrip(b: seq<byte>)
    requires |b| == 2
    ensures Le16(FromLe16(b)) == b
  {
  }

  lemma Le32RoundTrip(x: uint32)
    ensures |Le32(x)| == 4 && FromLe32(Le32(x)) == x
  {
  }

  lemma FromLe32RoundTrip(b: seq<byte>)
    requires |b| == 4
    ensures Le32(FromLe32(b)) == b
  {
  }

  /** The byte image of a record: the header fields at their offsets, then the keys. */
  function Encode(r: Record): (b: seq<byte>)
    ensures |b| == RECORD_SIZE
    ensures FromLe32(b[0..4]) == r.magic
    ensures FromLe16(b[4..6]) == r.size
    ensures FromLe16(b[6..8]) == r.sum
    ensures b[HEADER_SIZE..] == r.keys
  {
    Le32RoundTrip(r.magic);
    Le16RoundTrip(r.size);
    Le16RoundTrip(r.sum);
    var b := Le32(r.magic) + Le16(r.size) + Le16(r.sum) + r.keys;
    assert b[0..4] == Le32(r.magic);
    assert b[4..6] == Le16(r.size);
    assert b[6..8] == Le16(r.sum);
    b
  }

  /** Reading a full record image back into the struct. */
  function Decode(b: seq<byte>): Record
    requires |b| == RECORD_SIZE
  {
    Record(FromLe32(b[0..4]), FromLe16(b[4..6]), FromLe16(b[6..8]), b[HEADER_SIZE..])
  }

  /** Storing a record and reading it back gives the same record. */
  lemma DecodeEncode(r: Record)
    ensures Decode(Encode(r)) == r
  {
  }

  /** Every image of RECORD_SIZE bytes is the image of the record it decodes to. */
  lemma EncodeDecode(b: seq<byte>)
    requires |b| == RECORD_SIZE
    ensures Encode(Decode(b)) == b
  {
  }
}
