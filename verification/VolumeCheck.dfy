/** The analyser's checks of the volume geometry. */
module VolumeCheck {
  import opened Bytes
  import opened Sections

  predicate PowerOfTwo(n: nat) {
    n == 1 || (n > 1 && n % 2 == 0 && PowerOfTwo(n / 2))
  }

  function Pow2(k: nat): nat {
    if k == 0 then 1 else 2 * Pow2(k - 1)
  }

  /** It holds of the powers of two, and of nothing else. */
  lemma {:induction false} PowerOfTwoIff(n: nat)
    ensures PowerOfTwo(n) <==> exists k: nat :: n == Pow2(k)
  {
    if PowerOfTwo(n) {
      if n == 1 {
        assert n == Pow2(0);
      } else {
        PowerOfTwoIff(n / 2);
        var k: nat :| n / 2 == Pow2(k);
        assert n == Pow2(k + 1);
      }
    }
    if k: nat :| n == Pow2(k) {
      Pow2IsPower(k);
    }
  }

  lemma {:induction false} Pow2IsPower(k: nat)
    ensures PowerOfTwo(Pow2(k))
  {
    if k > 0 {
      Pow2IsPower(k - 1);
      assert Pow2(k) / 2 == Pow2(k - 1) && Pow2(k) % 2 == 0;
    }
  }

  datatype VolumeIssue =
    | BytesPerSectorInvalid(bytesPerSector: U32)
    | ChunkSizeInvalid(sectorsPerChunk: U32, bytesPerSector: U32)
    | SectorCountMismatch(declared: U64, expected: U64)

  /** The volume whose body starts after the descriptor at `offset`, if its bytes are there. */
  function VolumeAt(data: Segment, offset: nat, size: U64): Option<Volume> {
    var start := SatAdd(offset, DESCRIPTOR_SIZE);
    if |data| < SatAdd(start, VOLUME_MIN) then None
    else ParseVolume(data[start..Min(SatAdd(start, SatSub(size, DESCRIPTOR_SIZE)), |data|)])
  }

  /** The geometry, and one issue for each check it fails. */
  method CheckVolume(data: Segment, offset: nat, size: U64) returns (volume: Option<Volume>, issues: seq<VolumeIssue>)
    ensures volume == VolumeAt(data, offset, size)
    ensures volume.None? ==> issues == []
    ensures volume.Some? ==>
      var v := volume.value;
      && (forall b: U32 :: BytesPerSectorInvalid(b) in issues <==> b == v.bytesPerSector && b != 512 && b != 4096)
      && (forall s: U32, b: U32 :: ChunkSizeInvalid(s, b) in issues <==>
           s == v.sectorsPerChunk && b == v.bytesPerSector && !PowerOfTwo(s))
      && (forall declared: U64, expected: U64 :: SectorCountMismatch(declared, expected) in issues <==>
           && declared == v.sectorCount && expected == v.chunkCount * v.sectorsPerChunk
           && PowerOfTwo(v.sectorsPerChunk) && !SectorsFit(v))
  {
    issues := [];
    volume := VolumeAt(data, offset, size);
    if volume.None? {
      return;
    }
    var v := volume.value;
    if v.bytesPerSector != 512 && v.bytesPerSector != 4096 {
      issues := issues + [BytesPerSectorInvalid(v.bytesPerSector)];
    }
    if v.sectorsPerChunk == 0 || !PowerOfTwo(v.sectorsPerChunk) {
      issues := issues + [ChunkSizeInvalid(v.sectorsPerChunk, v.bytesPerSector)];
    }
    MaxSectorsExact(v.chunkCount, v.sectorsPerChunk);
    var maxSectors := SatMul(v.chunkCount, v.sectorsPerChunk);
    var minSectors := SatSub(maxSectors, v.sectorsPerChunk);
    if PowerOfTwo(v.sectorsPerChunk) {
      if v.sectorCount > maxSectors || (v.chunkCount > 0 && v.sectorCount <= minSectors) {
        issues := issues + [SectorCountMismatch(v.sectorCount, maxSectors)];
      }
    }
  }

  lemma MaxSectorsExact(count: U32, spc: U32)
    ensures SatMul(count, spc) == count * spc
    ensures count > 0 ==> SatSub(count * spc, spc) == (count - 1) * spc
  {
    MulMonotone(count, U32_LIMIT - 1, spc);
    if count > 0 {
      assert count * spc == (count - 1) * spc + spc;
    }
  }

  /** The declared sectors need every declared chunk, and no more. */
  predicate SectorsFit(v: Volume) {
    && v.sectorCount <= v.chunkCount * v.sectorsPerChunk
    && (v.chunkCount > 0 ==> (v.chunkCount - 1) * v.sectorsPerChunk < v.sectorCount)
  }
}
