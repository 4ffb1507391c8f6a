/** What the operations of the occupancy map (src/fat_allocation_cache.cpp) accept and what they leave,
    field by field. */
module FatAllocationSteps {
  import opened Common
  import opened FatAllocation

  /** Neither valid nor being built: nothing is taken in or answered before the next prepare. */
  predicate Idle(c: Cache) {
    !c.building && !c.valid && !c.exactMap && c.rawOffset == 0 && c.freeClusters == 0
  }

  lemma InvalidatedIsIdle(c: Cache)
    ensures var d := Invalidated(c);
      Idle(d) && d == c.(building := d.building, valid := d.valid, exactMap := d.exactMap, rawOffset := d.rawOffset,
                         freeClusters := d.freeClusters)
  {
  }

  /** A volume is accepted exactly when the cache is enabled, the volume has clusters and FAT sectors, its
      FAT holds an entry of four bytes for each and for two more, a bit for each fits 512 KiB, and there
      is memory. The map starts empty; a refused one changes nothing, or loses its memory. */
  lemma PrepareAcceptedIff(c: Cache, totalClusters: Uint32, fatSectors: Uint32, serial: Uint32, activeFat: nat, memory: bool)
    ensures var (d, ok) := Prepared(c, totalClusters, fatSectors, serial, activeFat, memory);
      var wanted := (totalClusters + 7) / 8;
      var fits := c.enabled && totalClusters != 0 && fatSectors != 0
                  && (totalClusters + 2) * 4 <= fatSectors * 512 && wanted <= 524288;
      && (ok <==> fits && (|c.bits| == wanted || memory))
      && (!fits ==> d == c)
      && (fits && !ok ==> d == c.(bits := []))
      && (ok ==>
            && |d.bits| == wanted && (forall i :: 0 <= i < wanted ==> d.bits[i] == 0)
            && d.totalClusters == totalClusters && d.fatSectors == fatSectors && d.serial == serial && d.activeFat == activeFat
            && d.rawOffset == 0 && d.freeClusters == 0 && d.building && !d.valid && d.enabled)
  {
    var wanted := (totalClusters + 7) / 8;
    if wanted == 0 {
      assert totalClusters == 0;
    }
  }

  /** A chunk is taken in exactly when a map is being built and the chunk is the next one: not empty, at
      the offset reached so far, which is a multiple of 32, and within the FAT. Any other ends the map. */
  lemma ChunkAcceptedIff(c: Cache, rawOffset: Uint32, data: seq<bv8>)
    requires Mapped(c)
    ensures var (d, ok) := Ingested(c, rawOffset, data);
      && (ok <==> c.building && data != [] && rawOffset == c.rawOffset && rawOffset % 32 == 0
                  && |data| <= 134217727 && rawOffset + 32 * |data| <= c.fatSectors * 512)
      && (!ok ==> Idle(d))
      && (ok ==> d == c.(bits := d.bits, freeClusters := d.freeClusters, rawOffset := (rawOffset + 32 * |data|) % 0x1_0000_0000)
                 && |d.bits| == |c.bits|)
  {
    hide Extend, Bit;
  }

  /** Finishing succeeds exactly when a map is being built, every cluster was seen and the free count is
      possible; then the map is valid and exact. */
  lemma FinishAcceptedIff(c: Cache)
    ensures var (d, ok) := Finished(c);
      && (ok <==> c.building && (c.totalClusters + 2) * 4 <= c.rawOffset && c.freeClusters <= c.totalClusters)
      && (!ok ==> Idle(d))
      && (ok ==> d == c.(building := false, valid := true, exactMap := true))
  {
  }

  /** After a chunk or an end that was refused, everything is refused until the next prepare. */
  lemma IdleStaysIdle(c: Cache, rawOffset: Uint32, data: seq<bv8>, oldSize: Uint32, newSize: Uint32, bytesPerCluster: Uint32)
    requires Idle(c)
    ensures !Ingested(c, rawOffset, data).1 && Idle(Ingested(c, rawOffset, data).0)
    ensures !Finished(c).1 && Idle(Finished(c).0)
    ensures Resized(c, oldSize, newSize, bytesPerCluster) == c
    ensures forall cluster: nat :: !Allocated(c, cluster)
  {
    hide Extend, Bit;
  }

  /** matches(): the valid map is the one of this volume. */
  predicate Matches(c: Cache, totalClusters: Uint32, fatSectors: Uint32, serial: Uint32, activeFat: nat) {
    c.valid && c.totalClusters == totalClusters && c.fatSectors == fatSectors && c.serial == serial && c.activeFat == activeFat
  }

  /** A finished map matches exactly the volume it was prepared for. */
  lemma FinishedMatches(c: Cache, totalClusters: Uint32, fatSectors: Uint32, serial: Uint32, activeFat: nat,
                        memory: bool, chunks: seq<seq<bv8>>, t: Uint32, f: Uint32, s: Uint32, a: nat)
    requires Mapped(c) && Prepared(c, totalClusters, fatSectors, serial, activeFat, memory).1
    ensures PreparedKeepsMap(c, totalClusters, fatSectors, serial, activeFat, memory)
    ensures var d := IngestAll(Prepared(c, totalClusters, fatSectors, serial, activeFat, memory).0, chunks).0;
      Finished(d).1 ==>
        (Matches(Finished(d).0, t, f, s, a) <==> t == totalClusters && f == fatSectors && s == serial && a == activeFat)
  {
    hide Extend, Bit, IngestAll;
    PreparedIsBuilt(c, totalClusters, fatSectors, serial, activeFat, memory);
    VolumeStays(Prepared(c, totalClusters, fatSectors, serial, activeFat, memory).0, chunks);
  }

  predicate PreparedKeepsMap(c: Cache, totalClusters: Uint32, fatSectors: Uint32, serial: Uint32, activeFat: nat, memory: bool) {
    Mapped(Prepared(c, totalClusters, fatSectors, serial, activeFat, memory).0)
  }

  lemma {:induction false} VolumeStays(c: Cache, chunks: seq<seq<bv8>>)
    requires Mapped(c)
    ensures var d := IngestAll(c, chunks).0;
      d.totalClusters == c.totalClusters && d.fatSectors == c.fatSectors && d.serial == c.serial && d.activeFat == c.activeFat
    decreases |chunks|
  {
    hide Extend, Bit;
    if chunks == [] {
    } else {
      VolumeStays(c, chunks[..|chunks| - 1]);
    }
  }

  /** A size in clusters is rounded up. */
  lemma ClustersRoundUp(size: Uint32, bytesPerCluster: Uint32)
    requires 0 < bytesPerCluster
    ensures var n := Clusters(size, bytesPerCluster);
      size <= n * bytesPerCluster && (0 < n ==> (n - 1) * bytesPerCluster < size)
  {
    var q, r := (size + bytesPerCluster - 1) / bytesPerCluster, (size + bytesPerCluster - 1) % bytesPerCluster;
    assert size + bytesPerCluster - 1 == bytesPerCluster * q + r;
    assert (q - 1) * bytesPerCluster == bytesPerCluster * q - bytesPerCluster;
  }

  /** A change of size moves the free counter by the clusters taken or released, down to nothing at most
      and up to the whole volume at most, and the map counts as approximate from then on; without a valid
      map, or if the clusters stay as many, nothing changes. */
  lemma ResizeMeans(c: Cache, oldSize: Uint32, newSize: Uint32, bytesPerCluster: Uint32)
    requires c.freeClusters < 0x1_0000_0000
    ensures var d := Resized(c, oldSize, newSize, bytesPerCluster);
      if !c.valid || c.building || bytesPerCluster == 0
         || Clusters(oldSize, bytesPerCluster) == Clusters(newSize, bytesPerCluster) then d == c
      else
        var free := c.freeClusters + Clusters(oldSize, bytesPerCluster) - Clusters(newSize, bytesPerCluster);
        d == c.(exactMap := false, freeClusters := if free < 0 then 0
                                                   else if free > c.freeClusters && free > c.totalClusters then c.totalClusters
                                                   else free)
  {
    if 0 < bytesPerCluster {
      ClustersFit(oldSize, bytesPerCluster);
      ClustersFit(newSize, bytesPerCluster);
    }
  }

  lemma ClustersFit(size: Uint32, bytesPerCluster: Uint32)
    requires 0 < bytesPerCluster
    ensures 0 <= Clusters(size, bytesPerCluster) <= size
  {
    hide Clusters;
    ClustersRoundUp(size, bytesPerCluster);
    var n := Clusters(size, bytesPerCluster);
    if 0 < n {
      ProductAtLeast(n - 1, bytesPerCluster);
    }
  }

  lemma ProductAtLeast(a: nat, b: nat)
    requires 1 <= b
    ensures a <= a * b
  {
    assert a * b == a + a * (b - 1);
  }
}
