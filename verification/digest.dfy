/** Size, CRC-32 (RFC 1952 section 8) and SHA-256 of a file, chunk by chunk. */
module Digest {

  const CHUNK: nat := 65536

  function ShiftOut(crc: bv32, bits: nat): bv32 {
    if bits == 0 then crc else
      var c := ShiftOut(crc, bits - 1);
      if c & 1 == 1 then (c >> 1) ^ 0xEDB88320 else c >> 1
  }

  function Feed(crc: bv32, byte: bv8): bv32 {
    ShiftOut(crc ^ (byte as bv32), 8)
  }

  function Flip(crc: bv32): bv32 {
    !crc
  }

  function Fold<W>(step: (W, bv8) -> W, crc: W, data: seq<bv8>): W {
    if data == [] then crc else step(Fold(step, crc, data[..|data| - 1]), data[|data| - 1])
  }

  /** The register is flipped before and after. */
  function Flipped<W>(flip: W -> W, step: (W, bv8) -> W, data: seq<bv8>, value: W): W {
    flip(Fold(step, flip(value), data))
  }

  /** zlib.crc32(data, value) */
  function Crc32(data: seq<bv8>, value: bv32): bv32 {
    Flipped(Flip, Feed, data, value)
  }

  lemma {:induction false} FoldConcat<W>(step: (W, bv8) -> W, crc: W, a: seq<bv8>, b: seq<bv8>)
    ensures Fold(step, crc, a + b) == Fold(step, Fold(step, crc, a), b)
  {
    if b == [] {
      assert a + b == a;
    } else {
      assert (a + b)[..|a + b| - 1] == a + b[..|b| - 1];
      FoldConcat(step, crc, a, b[..|b| - 1]);
    }
  }

  lemma Continues<W>(flip: W -> W, step: (W, bv8) -> W, a: seq<bv8>, b: seq<bv8>, value: W)
    requires forall x :: flip(flip(x)) == x
    ensures Flipped(flip, step, b, Flipped(flip, step, a, value)) == Flipped(flip, step, a + b, value)
  {
    var x := Fold(step, flip(value), a);
    assert flip(flip(x)) == x;
    FoldConcat(step, flip(value), a, b);
  }

  /** Continuing from the value of a part gives the value of the whole. */
  lemma CrcContinues(a: seq<bv8>, b: seq<bv8>, value: bv32)
    ensures Crc32(b, Crc32(a, value)) == Crc32(a + b, value)
  {
    Continues(Flip, Feed, a, b, value);
  }

  /** One byte in full: the CRC-32 of "a" is E8B7BE43. */
  lemma KnownByte()
    ensures Crc32([0x61], 0) == 0xE8B7BE43
  {
    assert [0x61 as bv8][..0] == [];
    var c := 0xFFFFFF9E as bv32;
    assert ShiftOut(c, 1) == 0x7FFFFFCF;
    assert ShiftOut(c, 2) == 0xD2477CC7;
    assert ShiftOut(c, 3) == 0x849B3D43;
    assert ShiftOut(c, 4) == 0xAFF51D81;
    assert ShiftOut(c, 5) == 0xBA420DE0;
    assert ShiftOut(c, 6) == 0x5D2106F0;
    assert ShiftOut(c, 7) == 0x2E908378;
    assert ShiftOut(c, 8) == 0x174841BC;
  }

  /** Two bytes: the CRC-32 of "ab" is 9E83486D. */
  lemma KnownText()
    ensures Crc32([0x61, 0x62], 0) == 0x9E83486D
  {
    KnownByte();
    CrcContinues([0x61], [0x62], 0);
    assert [0x61 as bv8] + [0x62] == [0x61, 0x62];
    assert [0x62 as bv8][..0] == [];
    var c := 0x174841DE as bv32;
    assert ShiftOut(c, 1) == 0x0BA420EF;
    assert ShiftOut(c, 2) == 0xE86A9357;
    assert ShiftOut(c, 3) == 0x998DCA8B;
    assert ShiftOut(c, 4) == 0xA17E6665;
    assert ShiftOut(c, 5) == 0xBD07B012;
    assert ShiftOut(c, 6) == 0x5E83D809;
    assert ShiftOut(c, 7) == 0xC2F96F24;
    assert ShiftOut(c, 8) == 0x617CB792;
  }

  /** The chunked loop computes what the device computes from the whole image;
      sha256 is the digest of everything fed to the running hash. */
  method HashFile(file: seq<bv8>, sha256: seq<bv8> -> string) returns (size: nat, crc: bv32, sha: string)
    ensures size == |file| && crc == Crc32(file, 0) && sha == sha256(file)
  {
    var fed: seq<bv8> := [];
    size, crc := 0, 0;
    while size < |file|
      invariant 0 <= size <= |file| && fed == file[..size] && crc == Crc32(fed, 0)
    {
      var end := if |file| - size < CHUNK then |file| else size + CHUNK;
      var chunk := file[size..end];
      assert fed + chunk == file[..end];
      CrcContinues(fed, chunk, 0);
      fed := fed + chunk;
      crc := Crc32(chunk, crc);
      size := size + |chunk|;
    }
    assert file[..|file|] == file;
    sha := sha256(fed);
    crc := crc & 0xFFFFFFFF;
  }
}
