/** The block interface of lz4.c: LZ4_compress_fast with room enough, and LZ4_decompress_safe. */
module Lz4 {
  import opened Bytes
  import opened Lz4Format
  import opened Lz4Match
  import C = Lz4Compress
  import D = Lz4Decompress

  const HASHLOG_ENTRIES: nat := 4096
  const ACCELERATION_DEFAULT: nat := 1
  const ACCELERATION_MAX: nat := 65537

  // LZ4_compress_fast: clamps the acceleration, clears the table and picks its width by size.
  method CompressFast(src: seq<byte>, dst: array<byte>, acceleration: int, hash: Hash) returns (result: nat)
    requires dst.Length >= C.CompressBound(|src|)
    modifies dst
    ensures result == 0 <==> |src| > 0x7E000000
    ensures result <= |src| + |src| / 255 + 16
    ensures result > 0 ==> Decode(dst[..result], 0, []) == Some(src)
    ensures result > 0 ==> forall cap: nat :: |src| <= cap ==> Acceptable(dst[..result], cap)
  {
    var accel := acceleration;
    if accel < 1 {
      accel := ACCELERATION_DEFAULT;
    }
    if accel > ACCELERATION_MAX {
      accel := ACCELERATION_MAX;
    }
    var tt := if |src| < LIMIT_64K then ByU16 else ByU32;
    var table := new nat[if tt == ByU16 then 2 * HASHLOG_ENTRIES else HASHLOG_ENTRIES](_ => 0);
    result := C.Compress(src, dst, table, tt, accel, hash);
  }

  // Decompressing what was compressed gives back the input, into any destination that can
  // hold it, whatever the hash function, the acceleration and the platform's loop.
  method RoundTrip(src: seq<byte>, dst: array<byte>, acceleration: int, hash: Hash, fastLoop: bool) returns (r: int)
    requires |src| <= C.MAX_INPUT_SIZE && |src| <= dst.Length
    modifies dst
    ensures r == |src| && dst[..r] == src
  {
    var code := new byte[C.CompressBound(|src|)](_ => 0);
    var n := CompressFast(src, code, acceleration, hash);
    r := D.Decompress(code[..n], dst, fastLoop);
  }
}
