/** The record codec of DeviceKeyHelperRK: the 16-bit checksum of the key bytes,
    record validation, and the record that the save path builds from live keys. */
module Codec {
  import opened Layout

  /** The plain (unbounded) sum of the bytes of `s`. */
  function ByteSum(s: seq<byte>): nat {
    if s == [] then 0 else ByteSum(s[..|s| - 1]) + s[|s| - 1]
  }

  /** The checksum stored in `sum`: the byte sum reduced to 16 bits. */
  function Checksum(keys: seq<byte>): uint16 {
    ByteSum(keys) % 0x1_0000
  }

  /** Adding one byte to a 16-bit checksum with wrap-around gives the checksum
      of the longer sequence. */
  lemma ChecksumStep(s: seq<byte>, b: byte)
    ensures Checksum(s + [b]) == (Checksum(s) + b) % 0x1_0000
  {
  }

  /** calculateChecksum: a 16-bit accumulator to which every key byte is added
      in turn, wrapping on overflow. */
  method CalculateChecksum(keys: KeyBlob) returns (sum: uint16)
    ensures sum == Checksum(keys)
  {
    sum := 0;
    var ii := 0;
    while ii < KEY_SIZE
      invariant 0 <= ii <= KEY_SIZE
      invariant sum == Checksum(keys[..ii])
    {
      ChecksumStep(keys[..ii], keys[ii]);
      assert keys[..ii + 1] == keys[..ii] + [keys[ii]];
      sum := (sum + keys[ii]) % 0x1_0000;
      ii := ii + 1;
    }
    assert keys[..KEY_SIZE] == keys;
  }

  /** validateData: the magic, the size field and the checksum must all be right.
      A record that passes has a `size` equal to its key-field length and a
      stored image that starts with the magic bytes 63 5c a6 75. */
  predicate ValidateData(r: Record): (ok: bool)
    ensures ok ==> r.size == |r.keys|
    ensures ok ==> Encode(r)[..4] == [0x63, 0x5c, 0xa6, 0x75]
  {
    FromLe32RoundTrip(Encode(r)[..4]);
    assert Encode(r)[..4] == Encode(r)[0..4];
    r.magic == DATA_HEADER_MAGIC && r.size == KEY_SIZE && r.sum == Checksum(r.keys)
  }

  /** The record written on the save path: the live keys under a fresh header. */
  function Build(keys: KeyBlob): (r: Record)
    ensures r.keys == keys
    ensures ValidateData(r)
  {
    Record(DATA_HEADER_MAGIC, KEY_SIZE, Checksum(keys), keys)
  }

  /** A record passes validation exactly when it is the record built from its
      own keys: the header carries no information beyond the keys. */
  lemma ValidIffBuilt(r: Record)
    ensures ValidateData(r) <==> r == Build(r.keys)
  {
  }

  /** Replacing one byte changes the byte sum by exactly the difference. */
  lemma {:induction false} ByteSumUpdate(s: seq<byte>, i: nat, b: byte)
    requires i < |s|
    ensures ByteSum(s[i := b]) + s[i] == ByteSum(s) + b
  {
    var t := s[i := b];
    var n := |s| - 1;
    assert t[..n] == if i == n then s[..n] else s[..n][i := b];
    if i < n {
      ByteSumUpdate(s[..n], i, b);
    }
  }

  /** Changing any single key byte of a valid record without recomputing `sum`
      makes it invalid: the byte sum moves by a non-zero amount smaller than
      65536 in magnitude, so the 16-bit checksum moves too. */
  lemma SingleByteChangeDetected(r: Record, i: nat, b: byte)
    requires ValidateData(r)
    requires i < KEY_SIZE
    requires b != r.keys[i]
    ensures !ValidateData(r.(keys := r.keys[i := b]))
  {
    var before: int, after: int := ByteSum(r.keys), ByteSum(r.keys[i := b]);
    ByteSumUpdate(r.keys, i, b);
    assert after - before == b as int - r.keys[i] as int;
    assert 0 < after - before < 0x1_0000 || 0 < before - after < 0x1_0000;
    assert after % 0x1_0000 != before % 0x1_0000;
  }

  /** The byte sum of `n` copies of `c` is n * c. */
  lemma {:induction false} ByteSumConstant(n: nat, c: byte)
    ensures ByteSum(seq(n, _ => c)) == n * c
  {
    if n > 0 {
      assert seq(n, _ => c)[..n - 1] == seq(n - 1, _ => c);
      ByteSumConstant(n - 1, c);
    }
  }

  /** On either platform, keys that are all 0xFF sum past 16 bits, and the
      stored checksum is that sum modulo 65536: 408000 wraps to 14784 for the
      Wi-Fi key size, 81600 to 16064 for the cellular one. */
  lemma ChecksumWrapsOnAllOnes(p: Platform)
    ensures ByteSum(seq(KeySize(p), _ => 0xFF)) == KeySize(p) * 0xFF > 0xFFFF
    ensures Checksum(seq(KeySize(p), _ => 0xFF)) == (KeySize(p) * 0xFF) % 0x1_0000
    ensures Checksum(seq(KeySize(p), _ => 0xFF)) == if p == WiFi then 14784 else 16064
  {
    ByteSumConstant(KeySize(p), 0xFF);
  }
}
