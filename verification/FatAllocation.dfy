/** The occupancy map of the active FAT (src/fat_allocation_cache.cpp): one bit a cluster, and a free
    counter that follows the resizing of files afterwards. */
module FatAllocation {
  import opened Common

  const MAXIMUM_BYTES: nat := 512 * 1024
  const WORD: nat := 0x1_0000_0000

  type Uint32 = x: int | 0 <= x < 0x1_0000_0000

  // ----- Bits -----

  /** 1 << bit */
  function Mask(bit: nat): bv8
    requires bit < 8
  {
    match bit
    case 0 => 0x01 case 1 => 0x02 case 2 => 0x04 case 3 => 0x08
    case 4 => 0x10 case 5 => 0x20 case 6 => 0x40 case _ => 0x80
  }

  predicate ByteBit(b: bv8, bit: nat)
    requires bit < 8
  {
    b & Mask(bit) != 0
  }

  predicate Bit(fat: seq<bv8>, i: nat)
    requires i < 8 * |fat|
  {
    ByteBit(fat[i / 8], i % 8)
  }

  function WithBit(fat: seq<bv8>, i: nat): (r: seq<bv8>)
    requires i < 8 * |fat|
    ensures |r| == |fat|
  {
    fat[i / 8 := fat[i / 8] | Mask(i % 8)]
  }

  lemma MaskedBit(b: bv8, i: nat, j: nat)
    requires i < 8 && j < 8
    ensures ByteBit(b | Mask(i), j) <==> i == j || ByteBit(b, j)
  {
  }

  lemma WithBitSets(fat: seq<bv8>, i: nat, j: nat)
    requires i < 8 * |fat| && j < 8 * |fat|
    ensures Bit(WithBit(fat, i), j) <==> i == j || Bit(fat, j)
  {
    hide ByteBit, Mask;
    if i / 8 == j / 8 { MaskedBit(fat[i / 8], i % 8, j % 8); }
  }

  lemma ZeroBit(j: nat)
    requires j < 8
    ensures !ByteBit(0, j)
  {
  }

  lemma BitOfConcat(a: seq<bv8>, b: seq<bv8>, k: nat)
    requires k < 8 * |b|
    ensures Bit(a + b, 8 * |a| + k) <==> Bit(b, k)
  {
    hide ByteBit;
    assert (8 * |a| + k) / 8 == |a| + k / 8 && (8 * |a| + k) % 8 == k % 8;
  }

  lemma BitOfPrefix(a: seq<bv8>, b: seq<bv8>, k: nat)
    requires k < 8 * |a|
    ensures Bit(a + b, k) <==> Bit(a, k)
  {
    hide ByteBit;
  }

  // ----- Taking in the map -----

  datatype Tally = Tally(bits: seq<bv8>, free: nat)

  predicate Holds(bits: seq<bv8>, total: nat) {
    total <= 8 * |bits|
  }

  /** The nested loop of ingestMap after n entries of a chunk that starts at entry first. */
  function Extend(t: Tally, total: nat, first: nat, data: seq<bv8>, n: nat): (r: Tally)
    requires Holds(t.bits, total) && n <= 8 * |data|
    ensures |r.bits| == |t.bits|
  {
    if n == 0 then t
    else
      var before := Extend(t, total, first, data, n - 1);
      var entry := first + n - 1;
      if entry < 2 || entry >= total + 2 then before
      else if !Bit(data, n - 1) then before.(free := before.free + 1)
      else before.(bits := WithBit(before.bits, entry - 2))
  }

  /** Two chunks in a row are one chunk: how the map is cut does not matter. */
  lemma {:induction false} ExtendIsStreaming(t: Tally, total: nat, first: nat, a: seq<bv8>, b: seq<bv8>, n: nat)
    requires Holds(t.bits, total) && n <= 8 * |b|
    ensures Extend(Extend(t, total, first, a, 8 * |a|), total, first + 8 * |a|, b, n)
      == Extend(t, total, first, a + b, 8 * |a| + n)
    decreases n
  {
    hide Bit, WithBit;
    if n == 0 {
      ExtendOfPrefix(t, total, first, a, b, 8 * |a|);
    } else {
      ExtendIsStreaming(t, total, first, a, b, n - 1);
      BitOfConcat(a, b, n - 1);
    }
  }

  lemma {:induction false} ExtendOfPrefix(t: Tally, total: nat, first: nat, a: seq<bv8>, b: seq<bv8>, n: nat)
    requires Holds(t.bits, total) && n <= 8 * |a|
    ensures Extend(t, total, first, a + b, n) == Extend(t, total, first, a, n)
    decreases n
  {
    hide Bit, WithBit;
    if n == 0 {
    } else {
      ExtendOfPrefix(t, total, first, a, b, n - 1);
      BitOfPrefix(a, b, n - 1);
    }
  }

  // ----- What the map says -----

  function Zeros(n: nat): (r: seq<bv8>)
    ensures |r| == n
  {
    seq(n, _ => 0)
  }

  /** The whole map taken in at once. */
  function Whole(total: nat, bytes: nat, fat: seq<bv8>): Tally
    requires total <= 8 * bytes
  {
    Extend(Tally(Zeros(bytes), 0), total, 0, fat, 8 * |fat|)
  }

  /** The free clusters among the first n entries of the map. */
  ghost function Free(total: nat, fat: seq<bv8>, n: nat): set<nat>
    requires n <= 8 * |fat|
  {
    set c: nat | 2 <= c < n && c < total + 2 && !Bit(fat, c)
  }

  lemma {:induction false} ExtendCounts(total: nat, bytes: nat, fat: seq<bv8>, n: nat)
    requires total <= 8 * bytes && n <= 8 * |fat|
    ensures Extend(Tally(Zeros(bytes), 0), total, 0, fat, n).free == |Free(total, fat, n)|
    decreases n
  {
    hide Bit, WithBit;
    if n == 0 {
      assert Free(total, fat, 0) == {};
    } else {
      ExtendCounts(total, bytes, fat, n - 1);
      if 2 <= n - 1 < total + 2 && !Bit(fat, n - 1) {
        assert Free(total, fat, n) == Free(total, fat, n - 1) + {n - 1};
      } else {
        assert Free(total, fat, n) == Free(total, fat, n - 1);
      }
    }
  }

  lemma {:induction false} ExtendMarks(total: nat, bytes: nat, fat: seq<bv8>, n: nat, i: nat)
    requires total <= 8 * bytes && n <= 8 * |fat| && i < total
    ensures Bit(Extend(Tally(Zeros(bytes), 0), total, 0, fat, n).bits, i) <==> i + 2 < n && Bit(fat, i + 2)
    decreases n
  {
    hide ByteBit, WithBit;
    if n == 0 {
      ZeroBit(i % 8);
    } else {
      ExtendMarks(total, bytes, fat, n - 1, i);
      var before := Extend(Tally(Zeros(bytes), 0), total, 0, fat, n - 1);
      if 2 <= n - 1 < total + 2 { WithBitSets(before.bits, n - 3, i); }
    }
  }

  lemma FreeFits(total: nat, fat: seq<bv8>, n: nat)
    requires n <= 8 * |fat|
    ensures |Free(total, fat, n)| <= total
  {
    hide Bit;
    RangeSize(total);
    SubsetSize(Free(total, fat, n), Range(total));
  }

  predicate IsCluster(c: nat, total: nat) {
    2 <= c < total + 2
  }

  ghost function Range(total: nat): set<nat> {
    set c: nat | 2 <= c < total + 2 && IsCluster(c, total)
  }

  lemma {:induction false} RangeSize(total: nat)
    ensures |Range(total)| == total
  {
    if total == 0 {
      assert Range(0) == {};
    } else {
      RangeSize(total - 1);
      assert Range(total) == Range(total - 1) + {total + 1};
    }
  }

  // ----- The cache as a value -----

  datatype Cache = Cache(
    bits: seq<bv8>, totalClusters: Uint32, fatSectors: Uint32, serial: Uint32, rawOffset: Uint32, freeClusters: nat,
    activeFat: nat, enabled: bool, building: bool, valid: bool, exactMap: bool)

  function Invalidated(c: Cache): Cache {
    c.(building := false, valid := false, exactMap := false, rawOffset := 0, freeClusters := 0)
  }

  predicate CanPrepare(c: Cache, totalClusters: Uint32, fatSectors: Uint32) {
    && c.enabled && totalClusters != 0 && fatSectors != 0
    && (totalClusters + 2) * 4 <= fatSectors * 512
    && 0 < (totalClusters + 7) / 8 <= MAXIMUM_BYTES
  }

  /** memory says whether a new map could be allocated when the old one has another size. */
  function Prepared(c: Cache, totalClusters: Uint32, fatSectors: Uint32, serial: Uint32, activeFat: nat, memory: bool): (Cache, bool) {
    var wanted := (totalClusters + 7) / 8;
    if !CanPrepare(c, totalClusters, fatSectors) then (c, false)
    else if |c.bits| != wanted && !memory then (c.(bits := []), false)
    else
      (c.(bits := Zeros(wanted), totalClusters := totalClusters, fatSectors := fatSectors, serial := serial,
          activeFat := activeFat, rawOffset := 0, freeClusters := 0, building := true, valid := false), true)
  }

  predicate CanIngest(c: Cache, rawOffset: Uint32, data: seq<bv8>) {
    && c.building && data != [] && rawOffset % 32 == 0 && rawOffset == c.rawOffset
    && |data| <= 0xFFFF_FFFF / 32
    && rawOffset + |data| * 32 <= c.fatSectors * 512
  }

  /** There is memory behind a map that may be read or filled. */
  predicate Mapped(c: Cache) {
    c.valid || c.building ==> Holds(c.bits, c.totalClusters)
  }

  function Ingested(c: Cache, rawOffset: Uint32, data: seq<bv8>): (Cache, bool)
    requires Mapped(c)
  {
    if !CanIngest(c, rawOffset, data) then (Invalidated(c), false)
    else
      var t := Extend(Tally(c.bits, c.freeClusters), c.totalClusters, rawOffset / 4, data, 8 * |data|);
      (c.(bits := t.bits, freeClusters := t.free, rawOffset := (rawOffset + |data| * 32) % WORD), true)
  }

  function Finished(c: Cache): (Cache, bool) {
    if !c.building || c.rawOffset < (c.totalClusters + 2) * 4 || c.freeClusters > c.totalClusters then
      (Invalidated(c), false)
    else (c.(building := false, valid := true, exactMap := true), true)
  }

  predicate Allocated(c: Cache, cluster: nat)
    requires Mapped(c)
  {
    c.valid && 2 <= cluster < c.totalClusters + 2 && Bit(c.bits, cluster - 2)
  }

  /** A cache that has taken in exactly the beginning map of the FAT. */
  ghost predicate Built(c: Cache, fat: seq<bv8>) {
    && c.building && Holds(c.bits, c.totalClusters) && c.rawOffset == 32 * |fat|
    && Tally(c.bits, c.freeClusters) == Whole(c.totalClusters, |c.bits|, fat)
  }

  lemma PreparedIsBuilt(c: Cache, totalClusters: Uint32, fatSectors: Uint32, serial: Uint32, activeFat: nat, memory: bool)
    requires Prepared(c, totalClusters, fatSectors, serial, activeFat, memory).1
    ensures Built(Prepared(c, totalClusters, fatSectors, serial, activeFat, memory).0, [])
  {
  }

  /** A chunk at the current offset is taken in whole, as long as the raw offset fits its 32 bits. */
  lemma IngestedIsBuilt(c: Cache, fat: seq<bv8>, data: seq<bv8>)
    requires Built(c, fat) && data != []
    requires 32 * (|fat| + |data|) <= c.fatSectors * 512 && 32 * (|fat| + |data|) < WORD
    ensures var (d, ok) := Ingested(c, 32 * |fat|, data);
      && ok && Built(d, fat + data) && d.totalClusters == c.totalClusters && d.fatSectors == c.fatSectors
  {
    hide Extend;
    assert (32 * |fat|) / 4 == 8 * |fat|;
    ExtendIsStreaming(Tally(Zeros(|c.bits|), 0), c.totalClusters, 0, fat, data, 8 * |data|);
  }

  function IngestAll(c: Cache, chunks: seq<seq<bv8>>): (r: (Cache, bool))
    requires Mapped(c)
    ensures Mapped(r.0)
  {
    if chunks == [] then (c, true)
    else
      var (d, ok) := IngestAll(c, chunks[..|chunks| - 1]);
      var (e, more) := Ingested(d, d.rawOffset, chunks[|chunks| - 1]);
      (e, ok && more)
  }

  function Concat(chunks: seq<seq<bv8>>): seq<bv8> {
    if chunks == [] then [] else Concat(chunks[..|chunks| - 1]) + chunks[|chunks| - 1]
  }

  lemma {:induction false} ChunksAreBuilt(c: Cache, chunks: seq<seq<bv8>>)
    requires Built(c, []) && (forall i :: 0 <= i < |chunks| ==> chunks[i] != [])
    requires 32 * |Concat(chunks)| <= c.fatSectors * 512 && 32 * |Concat(chunks)| < WORD
    ensures var (d, ok) := IngestAll(c, chunks);
      && ok && Built(d, Concat(chunks)) && d.totalClusters == c.totalClusters && d.fatSectors == c.fatSectors
    decreases |chunks|
  {
    hide Built, Ingested;
    BuiltOffset(c, []);
    if chunks == [] {
    } else {
      var front, last := chunks[..|chunks| - 1], chunks[|chunks| - 1];
      ChunksAreBuilt(c, front);
      BuiltOffset(IngestAll(c, front).0, Concat(front));
      IngestedIsBuilt(IngestAll(c, front).0, Concat(front), last);
    }
  }

  lemma BuiltOffset(c: Cache, fat: seq<bv8>)
    requires Built(c, fat)
    ensures c.rawOffset == 32 * |fat| && c.building && Holds(c.bits, c.totalClusters)
  {
  }

  /** After a successful prepare and for any split of the map into consecutive chunks, finish
      succeeds exactly when every cluster has been seen; then the free counter is the number of
      clear bits of clusters 2 to total + 1, and allocated(c) is bit c of the map. */
  lemma FinishedIsExact(c: Cache, totalClusters: Uint32, fatSectors: Uint32, serial: Uint32, activeFat: nat, memory: bool,
                        chunks: seq<seq<bv8>>)
    requires Prepared(c, totalClusters, fatSectors, serial, activeFat, memory).1
    requires forall i :: 0 <= i < |chunks| ==> chunks[i] != []
    requires 32 * |Concat(chunks)| <= fatSectors * 512 && 32 * |Concat(chunks)| < WORD
    ensures var start := Prepared(c, totalClusters, fatSectors, serial, activeFat, memory).0;
      var d := IngestAll(start, chunks).0;
      var fat := Concat(chunks);
      && (Finished(d).1 <==> totalClusters + 2 <= 8 * |fat|)
      && (Finished(d).1 ==>
          && Finished(d).0.freeClusters == |Free(totalClusters, fat, 8 * |fat|)|
          && Finished(d).0.valid && Mapped(Finished(d).0) && Finished(d).0.totalClusters == totalClusters
          && forall k :: 2 <= k < totalClusters + 2 ==> (Allocated(Finished(d).0, k) <==> Bit(fat, k)))
  {
    hide Bit, Extend, Free, IngestAll, Concat;
    PreparedIsBuilt(c, totalClusters, fatSectors, serial, activeFat, memory);
    var start := Prepared(c, totalClusters, fatSectors, serial, activeFat, memory).0;
    ChunksAreBuilt(start, chunks);
    var d, fat := IngestAll(start, chunks).0, Concat(chunks);
    ExtendCounts(totalClusters, |d.bits|, fat, 8 * |fat|);
    FreeFits(totalClusters, fat, 8 * |fat|);
    if totalClusters + 2 <= 8 * |fat| {
      forall k | 2 <= k < totalClusters + 2 ensures Allocated(Finished(d).0, k) <==> Bit(fat, k) {
        ExtendMarks(totalClusters, |d.bits|, fat, 8 * |fat|, k - 2);
      }
    }
  }

  // ----- The one way to lose the memory of a map -----

  /** A prepare that needs memory of another size and is refused it releases the old bits first,
      but leaves the flags of the old map as they were. */
  predicate LosesMap(c: Cache, totalClusters: Uint32, fatSectors: Uint32, memory: bool) {
    && (c.valid || c.building) && c.totalClusters != 0
    && CanPrepare(c, totalClusters, fatSectors) && |c.bits| != (totalClusters + 7) / 8 && !memory
  }

  /** Every other step keeps memory behind the map; this one loses it exactly under that condition. */
  lemma PreparedKeepsMapIff(c: Cache, totalClusters: Uint32, fatSectors: Uint32, serial: Uint32, activeFat: nat, memory: bool)
    requires Mapped(c)
    ensures Mapped(Prepared(c, totalClusters, fatSectors, serial, activeFat, memory).0)
      <==> !LosesMap(c, totalClusters, fatSectors, memory)
  {
  }

  lemma OtherStepsKeepMap(c: Cache, rawOffset: Uint32, data: seq<bv8>, oldSize: Uint32, newSize: Uint32, bytesPerCluster: Uint32)
    requires Mapped(c)
    ensures Mapped(Invalidated(c)) && Mapped(Ingested(c, rawOffset, data).0) && Mapped(Finished(c).0)
    ensures Mapped(Resized(c, oldSize, newSize, bytesPerCluster))
  {
    hide Bit, WithBit;
  }

  /** It happens: a finished map of eight clusters, then a volume of sixteen and no memory. The
      cache still calls itself valid, and its bits are gone. */
  lemma RefusedPrepareLosesMap(c: Cache)
    requires c == Cache([], 0, 0, 0, 0, 0, 0, true, false, false, false)
    ensures var first := Prepared(c, 8, 1, 7, 0, true).0;
      var built := Finished(IngestAll(first, [[0, 0]]).0).0;
      var after := Prepared(built, 16, 1, 8, 0, false).0;
      built.valid && Mapped(built) && after.valid && after.totalClusters == 8 && after.bits == []
  {
    hide Bit, Extend, Free, IngestAll;
    var chunks: seq<seq<bv8>> := [[0, 0]];
    var none: seq<seq<bv8>> := [];
    assert chunks[..0] == none && Concat(none) == [] && Concat(chunks) == [0, 0];
    FinishedIsExact(c, 8, 1, 7, 0, true, chunks);
    var first := Prepared(c, 8, 1, 7, 0, true).0;
    IngestKeepsShape(first, chunks);
  }

  lemma {:induction false} IngestKeepsShape(c: Cache, chunks: seq<seq<bv8>>)
    requires Mapped(c)
    ensures IngestAll(c, chunks).0.enabled == c.enabled && |IngestAll(c, chunks).0.bits| == |c.bits|
    decreases |chunks|
  {
    if chunks == [] {
    } else {
      IngestKeepsShape(c, chunks[..|chunks| - 1]);
    }
  }

  // ----- Resizing files afterwards -----

  function Clusters(size: nat, bytesPerCluster: nat): nat
    requires 0 < bytesPerCluster
  {
    (size + bytesPerCluster - 1) / bytesPerCluster
  }

  function Resized(c: Cache, oldSize: Uint32, newSize: Uint32, bytesPerCluster: Uint32): Cache {
    if !c.valid || c.building || bytesPerCluster == 0 || oldSize == newSize then c
    else
      var before, after := Clusters(oldSize, bytesPerCluster), Clusters(newSize, bytesPerCluster);
      if after == before then c
      else if after > before then
        c.(exactMap := false,
           freeClusters := if c.freeClusters > after - before then c.freeClusters - (after - before) else 0)
      else
        var free := (c.freeClusters + (before - after)) % WORD;
        c.(exactMap := false,
           freeClusters := if free < c.freeClusters || free > c.totalClusters then c.totalClusters else free)
  }

  function UsedBy(sizes: seq<Uint32>, bytesPerCluster: nat): nat
    requires 0 < bytesPerCluster
  {
    if sizes == [] then 0
    else UsedBy(sizes[..|sizes| - 1], bytesPerCluster) + Clusters(sizes[|sizes| - 1], bytesPerCluster)
  }

  datatype Resize = Resize(file: nat, size: Uint32)

  datatype Volume = Volume(cache: Cache, sizes: seq<Uint32>)

  function Apply(v: Volume, r: Resize, bytesPerCluster: Uint32): Volume {
    if r.file >= |v.sizes| then v
    else Volume(Resized(v.cache, v.sizes[r.file], r.size, bytesPerCluster), v.sizes[r.file := r.size])
  }

  function ApplyAll(v: Volume, resizes: seq<Resize>, bytesPerCluster: Uint32): Volume {
    if resizes == [] then v
    else Apply(ApplyAll(v, resizes[..|resizes| - 1], bytesPerCluster), resizes[|resizes| - 1], bytesPerCluster)
  }

  /** The volume has room for what the file grows by. */
  predicate FitsNow(v: Volume, r: Resize, bytesPerCluster: Uint32)
    requires 0 < bytesPerCluster
  {
    r.file < |v.sizes| ==>
      Clusters(r.size, bytesPerCluster) <= Clusters(v.sizes[r.file], bytesPerCluster) + v.cache.freeClusters
  }

  ghost predicate AllFit(v: Volume, resizes: seq<Resize>, bytesPerCluster: Uint32)
    requires 0 < bytesPerCluster
  {
    resizes == []
    || (&& AllFit(v, resizes[..|resizes| - 1], bytesPerCluster)
        && FitsNow(ApplyAll(v, resizes[..|resizes| - 1], bytesPerCluster), resizes[|resizes| - 1], bytesPerCluster))
  }

  /** The clusters of the known files and the free ones are all clusters of the volume. */
  ghost predicate Consistent(v: Volume, bytesPerCluster: Uint32)
    requires 0 < bytesPerCluster
  {
    && v.cache.valid && !v.cache.building
    && v.cache.freeClusters + UsedBy(v.sizes, bytesPerCluster) <= v.cache.totalClusters
  }

  lemma {:induction false} UsedByReplaced(sizes: seq<Uint32>, k: nat, size: Uint32, bytesPerCluster: nat)
    requires 0 < bytesPerCluster && k < |sizes|
    ensures UsedBy(sizes[k := size], bytesPerCluster) + Clusters(sizes[k], bytesPerCluster)
      == UsedBy(sizes, bytesPerCluster) + Clusters(size, bytesPerCluster)
    decreases |sizes|
  {
    hide Clusters;
    var n := |sizes| - 1;
    if k == n {
      assert sizes[k := size][..n] == sizes[..n];
    } else {
      assert sizes[k := size][..n] == sizes[..n][k := size];
      UsedByReplaced(sizes[..n], k, size, bytesPerCluster);
    }
  }

  /** One resize that fits moves clusters between the file and the free ones, and no clamp acts. */
  lemma ApplyConserves(v: Volume, r: Resize, bytesPerCluster: Uint32)
    requires 0 < bytesPerCluster && Consistent(v, bytesPerCluster) && FitsNow(v, r, bytesPerCluster)
    ensures var w := Apply(v, r, bytesPerCluster);
      && Consistent(w, bytesPerCluster)
      && w.cache.freeClusters + UsedBy(w.sizes, bytesPerCluster) == v.cache.freeClusters + UsedBy(v.sizes, bytesPerCluster)
      && (r.file < |v.sizes| ==>
          w.cache.freeClusters + Clusters(r.size, bytesPerCluster)
          == v.cache.freeClusters + Clusters(v.sizes[r.file], bytesPerCluster))
  {
    hide Clusters, UsedBy;
    if r.file < |v.sizes| { UsedByReplaced(v.sizes, r.file, r.size, bytesPerCluster); }
  }

  /** Over any run of resizes that fit, free clusters plus the clusters of all files stay constant. */
  lemma {:induction false} RunConserves(v: Volume, resizes: seq<Resize>, bytesPerCluster: Uint32)
    requires 0 < bytesPerCluster && Consistent(v, bytesPerCluster) && AllFit(v, resizes, bytesPerCluster)
    ensures var w := ApplyAll(v, resizes, bytesPerCluster);
      && Consistent(w, bytesPerCluster)
      && w.cache.freeClusters + UsedBy(w.sizes, bytesPerCluster) == v.cache.freeClusters + UsedBy(v.sizes, bytesPerCluster)
    decreases |resizes|
  {
    hide Apply, UsedBy, Consistent, FitsNow;
    if resizes == [] {
    } else {
      RunConserves(v, resizes[..|resizes| - 1], bytesPerCluster);
      ApplyConserves(ApplyAll(v, resizes[..|resizes| - 1], bytesPerCluster), resizes[|resizes| - 1], bytesPerCluster);
    }
  }

  /** A growth that does not fit is exactly what the clamp at zero hides. */
  lemma ClampActsIff(v: Volume, r: Resize, bytesPerCluster: Uint32)
    requires 0 < bytesPerCluster && Consistent(v, bytesPerCluster) && r.file < |v.sizes|
    ensures var w := Apply(v, r, bytesPerCluster);
      FitsNow(v, r, bytesPerCluster) <==>
        w.cache.freeClusters + Clusters(r.size, bytesPerCluster)
        == v.cache.freeClusters + Clusters(v.sizes[r.file], bytesPerCluster)
  {
    hide Clusters, UsedBy;
    UsedByReplaced(v.sizes, r.file, r.size, bytesPerCluster);
    UsedAtLeast(v.sizes, r.file, bytesPerCluster);
  }

  lemma {:induction false} UsedAtLeast(sizes: seq<Uint32>, k: nat, bytesPerCluster: nat)
    requires 0 < bytesPerCluster && k < |sizes|
    ensures Clusters(sizes[k], bytesPerCluster) <= UsedBy(sizes, bytesPerCluster)
    decreases |sizes|
  {
    hide Clusters;
    if k < |sizes| - 1 { UsedAtLeast(sizes[..|sizes| - 1], k, bytesPerCluster); }
  }

  // ----- The cache object -----

  class FatAllocationCache {
    var bits: array<bv8>
    var totalClusters: Uint32
    var fatSectors: Uint32
    var serial: Uint32
    var rawOffset: Uint32
    var freeClusters: nat
    var activeFat: nat
    var enabled: bool
    var building: bool
    var valid: bool
    var exactMap: bool

    function View(): Cache
      reads this, bits
    {
      Cache(bits[..], totalClusters, fatSectors, serial, rawOffset, freeClusters, activeFat, enabled, building, valid, exactMap)
    }

    constructor (enabled: bool)
      ensures View() == Cache([], 0, 0, 0, 0, 0, 0, enabled, false, false, false) && fresh(bits)
    {
      bits := new bv8[0];
      totalClusters, fatSectors, serial, rawOffset, freeClusters, activeFat := 0, 0, 0, 0, 0, 0;
      this.enabled := enabled;
      building, valid, exactMap := false, false, false;
    }

    method Invalidate()
      modifies this
      ensures View() == Invalidated(old(View())) && bits == old(bits)
    {
      building := false;
      valid := false;
      exactMap := false;
      rawOffset := 0;
      freeClusters := 0;
    }

    method Prepare(totalClusters: Uint32, fatSectors: Uint32, serial: Uint32, activeFat: nat, memory: bool) returns (ok: bool)
      modifies this, bits
      ensures (View(), ok) == Prepared(old(View()), totalClusters, fatSectors, serial, activeFat, memory)
      ensures bits == old(bits) || fresh(bits)
    {
      if !enabled || totalClusters == 0 || fatSectors == 0 {
        return false;
      }
      if (totalClusters + 2) * 4 > fatSectors * 512 {
        return false;
      }
      var wanted := (totalClusters + 7) / 8;
      if wanted == 0 || wanted > MAXIMUM_BYTES {
        return false;
      }
      if bits.Length != wanted {
        if !memory {
          bits := new bv8[0];
          assert bits[..] == [];
          return false;
        }
        bits := new bv8[wanted];
      }
      forall i | 0 <= i < bits.Length {
        bits[i] := 0;
      }
      assert bits[..] == Zeros(wanted);
      this.totalClusters := totalClusters;
      this.fatSectors := fatSectors;
      this.serial := serial;
      this.activeFat := activeFat;
      rawOffset := 0;
      freeClusters := 0;
      building := true;
      valid := false;
      return true;
    }

    /** The two nested loops over the bytes and the bits of a chunk. */
    method IngestEntries(first: nat, data: seq<bv8>)
      requires Holds(bits[..], totalClusters)
      modifies this`freeClusters, bits
      ensures Tally(bits[..], freeClusters) == Extend(old(Tally(bits[..], freeClusters)), totalClusters, first, data, 8 * |data|)
    {
      hide Bit, WithBit;
      ghost var t := Tally(bits[..], freeClusters);
      var entry := first;
      var offset := 0;
      while offset < |data|
        invariant 0 <= offset <= |data| && entry == first + 8 * offset && Holds(bits[..], totalClusters)
        invariant Tally(bits[..], freeClusters) == Extend(t, totalClusters, first, data, 8 * offset)
      {
        var bit := 0;
        while bit < 8
          invariant 0 <= bit <= 8 && entry == first + 8 * offset + bit && Holds(bits[..], totalClusters)
          invariant Tally(bits[..], freeClusters) == Extend(t, totalClusters, first, data, 8 * offset + bit)
        {
          if 2 <= entry < totalClusters + 2 {
            var clusterIndex := entry - 2;
            BitIsByteBit(data, offset, bit);
            if !ByteBit(data[offset], bit) {
              freeClusters := freeClusters + 1;
            } else {
              SetBit(clusterIndex);
            }
          }
          bit := bit + 1;
          entry := entry + 1;
        }
        offset := offset + 1;
      }
    }

    method SetBit(i: nat)
      requires i < 8 * bits.Length
      modifies bits
      ensures bits[..] == WithBit(old(bits[..]), i)
    {
      hide Mask;
      ghost var before := bits[..];
      bits[i / 8] := bits[i / 8] | Mask(i % 8);
      assert bits[..] == WithBit(before, i);
    }

    method IngestMap(offset: Uint32, data: seq<bv8>) returns (ok: bool)
      requires Mapped(View())
      modifies this, bits
      ensures (View(), ok) == Ingested(old(View()), offset, data)
    {
      hide Extend;
      if !building || |data| == 0 || offset % 32 != 0 || offset != rawOffset || |data| > 0xFFFF_FFFF / 32 {
        Invalidate();
        return false;
      }
      var nextOffset := offset + |data| * 32;
      if nextOffset > fatSectors * 512 {
        Invalidate();
        return false;
      }
      IngestEntries(offset / 4, data);
      rawOffset := nextOffset % WORD;
      return true;
    }

    method Finish() returns (ok: bool)
      modifies this
      ensures (View(), ok) == Finished(old(View())) && bits == old(bits)
    {
      if !building || rawOffset < (totalClusters + 2) * 4 || freeClusters > totalClusters {
        Invalidate();
        return false;
      }
      building := false;
      valid := true;
      exactMap := true;
      return true;
    }

    method NoteResize(oldSize: Uint32, newSize: Uint32, bytesPerCluster: Uint32)
      modifies this
      ensures View() == Resized(old(View()), oldSize, newSize, bytesPerCluster) && bits == old(bits)
    {
      if !valid || building || bytesPerCluster == 0 || oldSize == newSize {
        return;
      }
      var before := (oldSize + bytesPerCluster - 1) / bytesPerCluster;
      var after := (newSize + bytesPerCluster - 1) / bytesPerCluster;
      if after == before {
        return;
      }
      exactMap := false;
      if after > before {
        var taken := after - before;
        freeClusters := if freeClusters > taken then freeClusters - taken else 0;
        return;
      }
      var released := before - after;
      var free := (freeClusters + released) % WORD;
      freeClusters := if free < freeClusters || free > totalClusters then totalClusters else free;
    }

    /** allocated(): reads the map whenever the cache calls itself valid. */
    method IsAllocated(cluster: nat) returns (r: bool)
      requires Mapped(View())
      ensures r == Allocated(View(), cluster)
    {
      if !valid || cluster < 2 || cluster >= totalClusters + 2 {
        return false;
      }
      var index := cluster - 2;
      return ByteBit(bits[index / 8], index % 8);
    }
  }

  lemma BitIsByteBit(data: seq<bv8>, offset: nat, bit: nat)
    requires offset < |data| && bit < 8
    ensures Bit(data, 8 * offset + bit) <==> ByteBit(data[offset], bit)
  {
    hide ByteBit;
    assert (8 * offset + bit) / 8 == offset && (8 * offset + bit) % 8 == bit;
  }
}
