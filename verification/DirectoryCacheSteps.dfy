/** What the single steps of the listing cache (src/directory_cache.cpp) accept and how they move its
    stamps and its revision, told without the functions that decide it. */
module DirectoryCacheSteps {
  import opened AsciiText
  import opened Common
  import opened DirectoryCaches

  // ----- When memory is granted -----

  /** The bytes eviction cannot free: those of the snapshot under construction. */
  ghost function Pinned(list: seq<Snapshot>, building: nat): nat {
    if list == [] then 0
    else
      Pinned(list[..|list| - 1], building)
      + if list[|list| - 1].address == building then 22 + |list[|list| - 1].path| + 1 + EntryBytes(list[|list| - 1].nodes) else 0
  }

  /** An entry takes its header, its name and a terminator. */
  function EntryBytes(nodes: seq<Node>): nat {
    if nodes == [] then 0 else EntryBytes(nodes[..|nodes| - 1]) + (13 + |nodes[|nodes| - 1].item.name| + 1)
  }

  lemma {:induction false} EntryBytesAre(nodes: seq<Node>)
    ensures NodesBytes(nodes) == EntryBytes(nodes)
  {
    if nodes == [] {
    } else {
      EntryBytesAre(nodes[..|nodes| - 1]);
    }
  }

  lemma SnapshotBytesAre(s: Snapshot)
    ensures SnapshotBytes(s) == 22 + |s.path| + 1 + EntryBytes(s.nodes)
  {
    EntryBytesAre(s.nodes);
  }

  lemma {:induction false} PinnedWithout(list: seq<Snapshot>, k: nat, building: nat)
    requires k < |list| && list[k].address != building
    ensures Pinned(RemoveAt(list, k), building) == Pinned(list, building)
    decreases |list|
  {
    hide EntryBytes;
    var n := |list| - 1;
    var r := RemoveAt(list, k);
    if k == n {
      assert r == list[..n];
    } else {
      PinnedWithout(list[..n], k, building);
      assert r[..|r| - 1] == RemoveAt(list[..n], k);
    }
  }

  lemma {:induction false} AllPinned(list: seq<Snapshot>, building: nat)
    requires forall i :: 0 <= i < |list| ==> list[i].address == building
    ensures Bytes(list) == Pinned(list, building)
  {
    hide EntryBytes, SnapshotBytes;
    if list == [] {
    } else {
      AllPinned(list[..|list| - 1], building);
      SnapshotBytesAre(list[|list| - 1]);
    }
  }

  lemma {:induction false} PinnedIsPart(list: seq<Snapshot>, building: nat)
    ensures Pinned(list, building) <= Bytes(list)
  {
    hide EntryBytes, SnapshotBytes;
    if list == [] {
    } else {
      PinnedIsPart(list[..|list| - 1], building);
      SnapshotBytesAre(list[|list| - 1]);
    }
  }

  /** Room can be made exactly if the request fits beside what is under construction. */
  lemma {:induction false} RoomIffFits(c: Cache, bytes: nat)
    requires Inv(c) && bytes <= 524288
    ensures MakeRoom(c, bytes).1 <==> Pinned(c.snapshots, c.building) + bytes <= 524288
    decreases |c.snapshots|
  {
    hide Inv, Bytes, Pinned, VictimFrom, RemoveAt;
    InvBytes(c);
    InvExact(c);
    PinnedIsPart(c.snapshots, c.building);
    if bytes > MAXIMUM_BYTES - c.bytesUsed {
      var v := VictimFrom(c.snapshots, c.building, 0, -1);
      VictimIsLeastRecent(c.snapshots, c.building, 0, -1);
      EvictFacts(c);
      if Evict(c).1 {
        EvictKeepsInv(c);
        PinnedWithout(c.snapshots, v, c.building);
        RoomIffFits(Evict(c).0, bytes);
        assert MakeRoom(c, bytes) == MakeRoom(Evict(c).0, bytes);
        assert Evict(c).0.snapshots == RemoveAt(c.snapshots, v);
      } else {
        AllPinned(c.snapshots, c.building);
      }
    }
  }

  lemma GrantedIff(c: Cache, bytes: nat, memory: nat)
    requires Inv(c)
    ensures Allocate(c, bytes, memory).1
      <==> c.enabled && 0 < bytes && Pinned(c.snapshots, c.building) + bytes <= 524288 && memory != 0
  {
    hide Inv, MakeRoom, Pinned;
    if bytes <= 524288 {
      RoomIffFits(c, bytes);
    }
  }

  lemma {:induction false} NothingPinned(list: seq<Snapshot>)
    requires forall i :: 0 <= i < |list| ==> list[i].address != 0
    ensures Pinned(list, 0) == 0
  {
    hide EntryBytes;
    if list == [] {
    } else {
      NothingPinned(list[..|list| - 1]);
    }
  }

  // ----- What each operation accepts -----

  /** A listing is started, or a path marked uncacheable, exactly when the cache is enabled, the path
      begins with a slash, nothing is under construction, and the header fits the budget and is granted. */
  lemma StartAcceptedIff(c: Cache, path: string, memory: nat, uncacheable: bool)
    requires Inv(c)
    ensures Started(c, path, memory, uncacheable).1
      <==> c.enabled && path != "" && path[0] == '/' && c.building == 0 && 22 + |path| + 1 <= 524288 && memory != 0
  {
    hide Inv, Allocate, Invalidated, Pinned;
    if c.building == 0 {
      InvalidatedKeepsInv(c, ExactPath(path));
      var d := Invalidated(c, ExactPath(path));
      NoneBuilding(d);
      GrantedIff(d, PathBytes(path), memory);
    }
  }

  lemma NoneBuilding(c: Cache)
    requires Inv(c) && c.building == 0
    ensures Pinned(c.snapshots, 0) == 0
  {
    hide Bytes;
    NothingPinned(c.snapshots);
  }

  /** An entry is appended exactly when a listing is under construction, the name has 1 to 255 bytes, it
      fits the budget beside that listing, and memory is granted. Then it is the last entry of it. */
  lemma AppendAcceptedIff(c: Cache, item: Item, memory: nat)
    requires Inv(c)
    ensures Appended(c, item, memory).1
      <==> c.building != 0 && 1 <= |item.name| <= 255 && memory != 0
           && Pinned(c.snapshots, c.building) + (13 + |item.name| + 1) <= 524288
  {
    hide Bytes, Pinned, Allocate, IndexOf, ListOk;
    if c.building != 0 {
      GrantedIff(c, NodeBytes(Node(0, item)), memory);
      AllocateFacts(c, NodeBytes(Node(0, item)), memory);
      var d := Allocate(c, NodeBytes(Node(0, item)), memory).0;
      StillBuilding(d);
    }
  }

  lemma StillBuilding(d: Cache)
    requires Inv(d.(bytesUsed := Bytes(d.snapshots))) && d.building != 0
    ensures IndexOf(d.snapshots, d.building) < |d.snapshots|
  {
    hide Bytes, ListOk, ClockOk;
    BuildingIsIndexed(d.snapshots, d.building);
  }

  lemma FinishAcceptedIff(c: Cache, psram: bool, target: Target)
    requires Inv(c)
    ensures Finished(c).1 <==> c.building != 0
    ensures Aborted(c).building == 0 && Finished(c).0.building == 0
    ensures Step(c, Restart(psram)) == (Cache([], 0, 0, c.revision + 1, c.useCounter, psram), psram)
    ensures Step(c, Abort).1 && Step(c, Invalidate(target)).1
  {
    hide Bytes, ListOk, ClockOk, IndexOf, Invalidated;
    if c.building != 0 {
      BuildingIsIndexed(c.snapshots, c.building);
    }
  }

  /** A cursor that is closed, or from an older revision, or at its end reads nothing. */
  lemma NothingIsRead(c: Cache, cursor: Cursor)
    requires !cursor.isOpen || cursor.revision != c.revision || cursor.next == 0
    ensures Next(c, cursor) == Refused
  {
  }

  // ----- Recency -----

  /** A lookup that hits, and starting a listing, make that snapshot the most recently used. */
  lemma UsedIsMostRecent(c: Cache, path: string, memory: nat, uncacheable: bool)
    requires Inv(c)
    ensures var (d, k) := Found(c, path);
      k < |d.snapshots| ==>
        && d.snapshots == c.snapshots[k := c.snapshots[k].(lastUse := d.snapshots[k].lastUse)]
        && forall j :: 0 <= j < |d.snapshots| && j != k ==> d.snapshots[j].lastUse < d.snapshots[k].lastUse
    ensures var (d, ok) := Started(c, path, memory, uncacheable);
      ok ==>
        && d.snapshots != [] && d.snapshots[0].path == path && d.snapshots[0].nodes == []
        && forall j :: 0 < j < |d.snapshots| ==> d.snapshots[j].lastUse < d.snapshots[0].lastUse
  {
    hide Bytes, ListOk, BuildingOk, FindAny, Allocate, Invalidated;
    InvalidatedKeepsInv(c, ExactPath(path));
    AllocateFacts(Invalidated(c, ExactPath(path)), PathBytes(path), memory);
    var d := Allocate(Invalidated(c, ExactPath(path)), PathBytes(path), memory).0;
    assert forall j :: 0 <= j < |d.snapshots| ==> d.snapshots[j] in d.snapshots;
  }

  // ----- The revision -----

  lemma {:induction false} EvictionsMoveRevision(c: Cache, bytes: nat)
    ensures MakeRoom(c, bytes).0.revision == c.revision + |Victims(c, bytes)|
    decreases |c.snapshots|
  {
    hide VictimFrom, RemoveAt, SnapshotBytes;
    EvictFacts(c);
    if (c.bytesUsed > MAXIMUM_BYTES || bytes > MAXIMUM_BYTES - c.bytesUsed) && Evict(c).1 {
      EvictionsMoveRevision(Evict(c).0, bytes);
    }
  }

  lemma AllocationMovesRevision(c: Cache, bytes: nat, memory: nat)
    ensures Allocate(c, bytes, memory).0.revision == c.revision + |AllocationVictims(c, bytes)|
  {
    hide MakeRoom, Victims;
    EvictionsMoveRevision(c, bytes);
  }

  /** A snapshot that an invalidation drops. */
  predicate IsDropped(s: Snapshot, building: nat, target: Target) {
    s.address != building && Hit(target, s.path)
  }

  /** How far each event moves the revision on: one for every eviction, one if an invalidation drops
      anything, one for a finished listing and one for a restart; nothing else moves it. */
  lemma RevisionMoves(c: Cache, e: Event)
    requires Inv(c)
    ensures var after := Step(c, e).0.revision;
      var start := (e.Begin? || e.MarkUncacheable?) && StartsAt(c, e.path);
      var target := if e.Invalidate? then e.target else if e.Begin? || e.MarkUncacheable? then ExactPath(e.path) else ExactPath("");
      var dropped := exists s :: s in c.snapshots && IsDropped(s, c.building, target);
      after == c.revision + |EvictedBy(c, e)|
               + (if (e.Invalidate? || start) && dropped then 1 else 0)
               + (if (e.Finish? && c.building != 0) || e.Restart? then 1 else 0)
  {
    hide Bytes, ListOk, ClockOk, Allocate, AllocationVictims, IndexOf, Found, Kept, Hit;
    match e
    case Begin(path, memory) => InvalidationMovesRevision(c, ExactPath(path));
      AllocationMovesRevision(Invalidated(c, ExactPath(path)), PathBytes(path), memory);
    case MarkUncacheable(path, memory) => InvalidationMovesRevision(c, ExactPath(path));
      AllocationMovesRevision(Invalidated(c, ExactPath(path)), PathBytes(path), memory);
    case Append(item, memory) => AllocationMovesRevision(c, NodeBytes(Node(0, item)), memory);
    case Finish => FinishAcceptedIff(c, false, ExactPath(""));
    case Abort =>
    case Invalidate(target) => InvalidationMovesRevision(c, target);
    case Restart(_) =>
    case Touch(path) => FoundKeepsRevision(c, path);
    case Update(path, _, _) => FoundKeepsRevision(c, path);
  }

  lemma InvalidationMovesRevision(c: Cache, target: Target)
    requires Inv(c)
    ensures Invalidated(c, target).revision
      == c.revision + if exists s :: s in c.snapshots && IsDropped(s, c.building, target) then 1 else 0
  {
    hide Inv, Bytes, Kept, Hit;
    KeptElements(c.snapshots, c.building, target);
    KeptAllIff(c.snapshots, c.building, target);
  }

  lemma {:induction false} KeptAllIff(list: seq<Snapshot>, building: nat, target: Target)
    ensures |Kept(list, building, target)| <= |list|
    ensures |Kept(list, building, target)| < |list| <==> exists s :: s in list && IsDropped(s, building, target)
    decreases |list|
  {
    hide Hit;
    if list == [] {
    } else {
      var front, last := list[..|list| - 1], list[|list| - 1];
      KeptAllIff(front, building, target);
      assert list == front + [last];
      assert last in list;
      if s :| s in front && IsDropped(s, building, target) {
        assert s in list;
      }
    }
  }
}
