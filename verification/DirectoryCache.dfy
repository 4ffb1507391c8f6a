/** The cache of whole directory listings (src/directory_cache.cpp): least-recently-used snapshots
    under a byte budget, and cursors that a revision number protects from freed entries. */
module DirectoryCaches {
  import opened AsciiText
  import opened Common

  const MAXIMUM_BYTES: nat := 512 * 1024
  /** offsetof(Entry, name) and offsetof(Snapshot, path) with 32-bit pointers. */
  const ENTRY_HEADER: nat := 13
  const SNAPSHOT_HEADER: nat := 22

  datatype Item = Item(isDirectory: bool, name: string, size: nat, writeDate: nat, writeTime: nat)

  /** A list element and the address the allocator gave it; freed addresses may come back. */
  datatype Node = Node(address: nat, item: Item)

  datatype Snapshot = Snapshot(
    address: nat, path: string, nodes: seq<Node>, lastUse: nat, complete: bool, uncacheable: bool)

  datatype Cache = Cache(
    snapshots: seq<Snapshot>, building: nat, bytesUsed: nat, revision: nat, useCounter: nat, enabled: bool)

  datatype Target = ExactPath(path: string) | Subtree(root: string)

  // ----- Sizes and paths -----

  function NodeBytes(n: Node): nat { ENTRY_HEADER + |n.item.name| + 1 }

  function NodesBytes(nodes: seq<Node>): nat {
    if nodes == [] then 0 else NodesBytes(nodes[..|nodes| - 1]) + NodeBytes(nodes[|nodes| - 1])
  }

  function PathBytes(path: string): nat { SNAPSHOT_HEADER + |path| + 1 }

  function SnapshotBytes(s: Snapshot): nat { PathBytes(s.path) + NodesBytes(s.nodes) }

  function Bytes(list: seq<Snapshot>): nat {
    if list == [] then 0 else Bytes(list[..|list| - 1]) + SnapshotBytes(list[|list| - 1])
  }

  predicate InSubtree(value: string, root: string) {
    if root == "/" then value != "" && value[0] == '/'
    else
      && |root| <= |value| && SameIgnoringCase(value[..|root|], root)
      && (|value| == |root| || value[|root|] == '/')
  }

  predicate Hit(target: Target, path: string) {
    match target
    case ExactPath(p) => SameIgnoringCase(path, p)
    case Subtree(root) => InSubtree(path, root)
  }

  // ----- The steps of the cache -----

  function Minus(a: nat, b: nat): nat { if b <= a then a - b else 0 }

  function RemoveAt(list: seq<Snapshot>, k: nat): seq<Snapshot>
    requires k < |list|
  {
    list[..k] + list[k + 1..]
  }

  /** The scan of evictOldest from position i on, with the victim found so far. */
  function VictimFrom(list: seq<Snapshot>, building: nat, i: nat, best: int): int
    requires best < |list|
    decreases |list| - i
  {
    if i >= |list| then best
    else if list[i].address == building then VictimFrom(list, building, i + 1, best)
    else if best < 0 || list[i].lastUse < list[best].lastUse then VictimFrom(list, building, i + 1, i)
    else VictimFrom(list, building, i + 1, best)
  }

  function Evict(c: Cache): (Cache, bool) {
    var v := VictimFrom(c.snapshots, c.building, 0, -1);
    if 0 <= v < |c.snapshots| then
      (c.(snapshots := RemoveAt(c.snapshots, v), bytesUsed := Minus(c.bytesUsed, SnapshotBytes(c.snapshots[v])),
          revision := c.revision + 1), true)
    else (c, false)
  }

  function MakeRoom(c: Cache, bytes: nat): (r: (Cache, bool))
    decreases |c.snapshots|
  {
    if c.bytesUsed > MAXIMUM_BYTES || bytes > MAXIMUM_BYTES - c.bytesUsed then
      if Evict(c).1 then MakeRoom(Evict(c).0, bytes) else (c, false)
    else (c, true)
  }

  /** memory is the address malloc would return after the evictions, 0 when it fails. */
  function Allocate(c: Cache, bytes: nat, memory: nat): (Cache, bool) {
    if !c.enabled || bytes == 0 || bytes > MAXIMUM_BYTES then (c, false)
    else
      var (room, ok) := MakeRoom(c, bytes);
      if !ok || memory == 0 then (room, false) else (room.(bytesUsed := room.bytesUsed + bytes), true)
  }

  function Kept(list: seq<Snapshot>, building: nat, target: Target): seq<Snapshot> {
    if list == [] then []
    else
      var last := list[|list| - 1];
      var front := Kept(list[..|list| - 1], building, target);
      if last.address != building && Hit(target, last.path) then front else front + [last]
  }

  function Invalidated(c: Cache, target: Target): Cache {
    var kept := Kept(c.snapshots, c.building, target);
    c.(snapshots := kept, bytesUsed := Minus(c.bytesUsed, Minus(Bytes(c.snapshots), Bytes(kept))),
       revision := if |kept| < |c.snapshots| then c.revision + 1 else c.revision)
  }

  /** What beginSnapshot and markUncacheable share. */
  function Started(c: Cache, path: string, memory: nat, uncacheable: bool): (Cache, bool) {
    if !c.enabled || path == "" || path[0] != '/' || c.building != 0 then (c, false)
    else
      var (d, ok) := Allocate(Invalidated(c, ExactPath(path)), PathBytes(path), memory);
      if !ok then (d, false)
      else
        (d.(snapshots := [Snapshot(memory, path, [], d.useCounter + 1, uncacheable, uncacheable)] + d.snapshots,
            building := if uncacheable then 0 else memory, useCounter := d.useCounter + 1), true)
  }

  function IndexOf(list: seq<Snapshot>, address: nat): (k: nat)
    ensures k <= |list| && (k < |list| ==> list[k].address == address)
    ensures forall i :: 0 <= i < k ==> list[i].address != address
  {
    if list == [] || list[0].address == address then 0 else 1 + IndexOf(list[1..], address)
  }

  function Appended(c: Cache, item: Item, memory: nat): (Cache, bool) {
    if c.building == 0 || item.name == "" || |item.name| > 255 then (c, false)
    else
      var (d, ok) := Allocate(c, NodeBytes(Node(0, item)), memory);
      var k := IndexOf(d.snapshots, d.building);
      if !ok || k >= |d.snapshots| then (d, false)
      else
        var s := d.snapshots[k];
        (d.(snapshots := d.snapshots[k := s.(nodes := s.nodes + [Node(memory, item)])]), true)
  }

  function Finished(c: Cache): (Cache, bool) {
    var k := IndexOf(c.snapshots, c.building);
    if c.building == 0 || k >= |c.snapshots| then (c, false)
    else
      (c.(snapshots := c.snapshots[k := c.snapshots[k].(complete := true)], building := 0,
          revision := c.revision + 1), true)
  }

  function Aborted(c: Cache): Cache {
    var k := IndexOf(c.snapshots, c.building);
    if c.building == 0 || k >= |c.snapshots| then c
    else
      c.(snapshots := RemoveAt(c.snapshots, k), building := 0,
         bytesUsed := Minus(c.bytesUsed, SnapshotBytes(c.snapshots[k])))
  }

  function Restarted(c: Cache, psram: bool): Cache {
    Cache([], 0, 0, c.revision + 1, c.useCounter, psram)
  }

  predicate Complete(s: Snapshot, path: string) {
    s.complete && SameIgnoringCase(s.path, path)
  }

  function FindAny(list: seq<Snapshot>, path: string): (k: nat)
    ensures k <= |list| && (k < |list| ==> Complete(list[k], path))
    ensures forall i :: 0 <= i < k ==> !Complete(list[i], path)
  {
    if list == [] || Complete(list[0], path) then 0 else 1 + FindAny(list[1..], path)
  }

  /** findSnapshot: a hit refreshes the LRU stamp. */
  function Found(c: Cache, path: string): (Cache, nat) {
    var k := FindAny(c.snapshots, path);
    if !c.enabled || k == |c.snapshots| || c.snapshots[k].uncacheable then (c, |c.snapshots|)
    else
      (c.(snapshots := c.snapshots[k := c.snapshots[k].(lastUse := c.useCounter + 1)],
          useCounter := c.useCounter + 1), k)
  }

  datatype Change = NewSize(size: nat) | NewStamp(writeDate: nat, writeTime: nat)

  function Changed(item: Item, change: Change): Item {
    match change
    case NewSize(size) => item.(size := size)
    case NewStamp(date, time) => item.(writeDate := date, writeTime := time)
  }

  predicate IsFile(item: Item, name: string) {
    !item.isDirectory && SameIgnoringCase(item.name, name)
  }

  function FileIn(nodes: seq<Node>, name: string): (k: nat)
    ensures k <= |nodes| && (k < |nodes| ==> IsFile(nodes[k].item, name))
    ensures forall i :: 0 <= i < k ==> !IsFile(nodes[i].item, name)
  {
    if nodes == [] || IsFile(nodes[0].item, name) then 0 else 1 + FileIn(nodes[1..], name)
  }

  function ChangedNodes(nodes: seq<Node>, name: string, change: Change): seq<Node> {
    var k := FileIn(nodes, name);
    if k < |nodes| then nodes[k := nodes[k].(item := Changed(nodes[k].item, change))] else nodes
  }

  /** updateEntrySize and updateEntryStampAt: a date of zero changes nothing. */
  function Updated(c: Cache, path: string, name: string, change: Change): (Cache, bool) {
    if change.NewStamp? && change.writeDate == 0 then (c, false)
    else
      var (d, k) := Found(c, path);
      if k >= |d.snapshots| then (d, false)
      else
        var s := d.snapshots[k];
        (d.(snapshots := d.snapshots[k := s.(nodes := ChangedNodes(s.nodes, name, change))]),
         FileIn(s.nodes, name) < |s.nodes|)
  }

  // ----- The invariant -----

  predicate SnapshotOk(s: Snapshot) {
    && s.address != 0
    && (forall j, k :: 0 <= j < k < |s.nodes| ==> s.nodes[j].address != s.nodes[k].address)
    && (forall j :: 0 <= j < |s.nodes| ==> s.nodes[j].address != 0)
    && (s.uncacheable ==> s.complete)
  }

  predicate NodesApart(a: seq<Node>, b: seq<Node>) {
    forall j, k :: 0 <= j < |a| && 0 <= k < |b| ==> a[j].address != b[k].address
  }

  predicate Apart(s: Snapshot, t: Snapshot) {
    && s.address != t.address && Fold(s.path) != Fold(t.path) && s.lastUse != t.lastUse
    && NodesApart(s.nodes, t.nodes)
  }

  ghost predicate ListOk(list: seq<Snapshot>) {
    && (forall i :: 0 <= i < |list| ==> SnapshotOk(list[i]))
    && (forall i, j :: 0 <= i < j < |list| ==> Apart(list[i], list[j]))
  }

  /** Exactly the snapshot under construction is incomplete, and it is in the list. */
  ghost predicate BuildingOk(list: seq<Snapshot>, building: nat) {
    && (forall i :: 0 <= i < |list| ==> (list[i].complete <==> list[i].address != building))
    && (building != 0 ==> exists i :: 0 <= i < |list| && list[i].address == building)
  }

  ghost predicate ClockOk(list: seq<Snapshot>, useCounter: nat) {
    forall i :: 0 <= i < |list| ==> list[i].lastUse <= useCounter
  }

  ghost predicate Inv(c: Cache) {
    && ListOk(c.snapshots)
    && BuildingOk(c.snapshots, c.building)
    && ClockOk(c.snapshots, c.useCounter)
    && c.bytesUsed == Bytes(c.snapshots) <= MAXIMUM_BYTES
    && (!c.enabled ==> c.snapshots == [] && c.building == 0)
  }

  ghost predicate Fresh(list: seq<Snapshot>, memory: nat) {
    forall i :: 0 <= i < |list| ==> list[i].address != memory && NodesApart([Node(memory, Item(false, "", 0, 0, 0))], list[i].nodes)
  }

  // ----- Removing, adding and replacing one snapshot -----

  lemma {:induction false} BytesOfConcat(a: seq<Snapshot>, b: seq<Snapshot>)
    ensures Bytes(a + b) == Bytes(a) + Bytes(b)
    decreases |b|
  {
    if b == [] {
      assert a + b == a;
    } else {
      var ab := a + b;
      assert ab[..|ab| - 1] == a + b[..|b| - 1];
      BytesOfConcat(a, b[..|b| - 1]);
    }
  }

  lemma BytesOfOne(s: Snapshot)
    ensures Bytes([s]) == SnapshotBytes(s)
  {
    assert [s][..0] == [];
  }

  lemma BytesSplit(list: seq<Snapshot>, k: nat)
    requires k < |list|
    ensures Bytes(list) == Bytes(RemoveAt(list, k)) + SnapshotBytes(list[k])
  {
    hide Bytes;
    assert list == list[..k] + [list[k]] + list[k + 1..];
    BytesOfConcat(list[..k] + [list[k]], list[k + 1..]);
    BytesOfConcat(list[..k], [list[k]]);
    BytesOfConcat(list[..k], list[k + 1..]);
    BytesOfOne(list[k]);
  }

  lemma BytesReplaced(list: seq<Snapshot>, k: nat, s: Snapshot)
    requires k < |list|
    ensures Bytes(list[k := s]) == Bytes(list) - SnapshotBytes(list[k]) + SnapshotBytes(s)
  {
    hide Bytes, SnapshotBytes;
    BytesSplit(list, k);
    BytesSplit(list[k := s], k);
    assert RemoveAt(list[k := s], k) == RemoveAt(list, k);
  }

  lemma ApartIsSymmetric(s: Snapshot, t: Snapshot)
    requires Apart(s, t)
    ensures Apart(t, s)
  {
  }

  lemma ListOkAt(list: seq<Snapshot>, i: nat, j: nat)
    requires ListOk(list) && i < |list| && j < |list| && i != j
    ensures Apart(list[i], list[j])
  {
    if j < i { ApartIsSymmetric(list[j], list[i]); }
  }

  lemma RemovedOk(list: seq<Snapshot>, k: nat)
    requires ListOk(list) && k < |list|
    ensures ListOk(RemoveAt(list, k))
    ensures forall useCounter :: ClockOk(list, useCounter) ==> ClockOk(RemoveAt(list, k), useCounter)
    ensures forall building: nat :: BuildingOk(list, building) ==>
      BuildingOk(RemoveAt(list, k), if list[k].address == building then 0 else building)
  {
    hide Apart, SnapshotOk;
    var r := RemoveAt(list, k);
    assert forall i :: 0 <= i < |r| ==> r[i] == list[if i < k then i else i + 1];
    forall building: nat | BuildingOk(list, building)
      ensures BuildingOk(r, if list[k].address == building then 0 else building)
    {
      if list[k].address == building {
        forall i | 0 <= i < |r| ensures r[i].complete && r[i].address != 0 {
          var at := if i < k then i else i + 1;
          ListOkAt(list, at, k);
          ApartAddresses(list[at], list[k]);
          AddressNotNull(list[at]);
        }
      } else if building != 0 {
        var i :| 0 <= i < |list| && list[i].address == building;
        assert r[if i < k then i else i - 1] == list[i];
      }
    }
  }

  lemma ApartAddresses(s: Snapshot, t: Snapshot)
    requires Apart(s, t)
    ensures s.address != t.address
  {
  }

  lemma AddressNotNull(s: Snapshot)
    requires SnapshotOk(s)
    ensures s.address != 0
  {
  }

  lemma ReplacedOk(list: seq<Snapshot>, k: nat, s: Snapshot)
    requires ListOk(list) && k < |list| && SnapshotOk(s)
    requires forall i :: 0 <= i < |list| && i != k ==> Apart(list[i], s)
    ensures ListOk(list[k := s])
  {
    hide Apart, SnapshotOk;
    var r := list[k := s];
    forall i, j | 0 <= i < j < |r| ensures Apart(r[i], r[j]) {
      if i == k { ApartIsSymmetric(list[j], s); }
    }
  }

  lemma PrependedOk(list: seq<Snapshot>, s: Snapshot)
    requires ListOk(list) && SnapshotOk(s)
    requires forall i :: 0 <= i < |list| ==> Apart(s, list[i])
    ensures ListOk([s] + list)
  {
    hide Apart, SnapshotOk;
    var r := [s] + list;
    assert forall i :: 0 < i < |r| ==> r[i] == list[i - 1];
  }

  // ----- Eviction -----

  /** The victim is the least recently used snapshot that is not under construction. */
  lemma {:induction false} VictimIsLeastRecent(list: seq<Snapshot>, building: nat, i: nat, best: int)
    requires i <= |list| && -1 <= best < i
    requires best >= 0 ==> list[best].address != building
    requires forall j :: 0 <= j < i && list[j].address != building ==> best >= 0 && list[best].lastUse <= list[j].lastUse
    ensures var v := VictimFrom(list, building, i, best);
      && -1 <= v < |list|
      && (v >= 0 ==> list[v].address != building)
      && (forall j :: 0 <= j < |list| && list[j].address != building ==> v >= 0 && list[v].lastUse <= list[j].lastUse)
    decreases |list| - i
  {
    if i < |list| {
      if list[i].address == building {
        VictimIsLeastRecent(list, building, i + 1, best);
      } else if best < 0 || list[i].lastUse < list[best].lastUse {
        VictimIsLeastRecent(list, building, i + 1, i);
      } else {
        VictimIsLeastRecent(list, building, i + 1, best);
      }
    }
  }

  lemma EvictKeepsInv(c: Cache)
    requires Inv(c)
    ensures Inv(Evict(c).0)
    ensures Evict(c).1 ==> Evict(c).0.revision == c.revision + 1
  {
    hide ListOk, BuildingOk, ClockOk, Bytes, RemoveAt, SnapshotBytes, VictimFrom;
    VictimIsLeastRecent(c.snapshots, c.building, 0, -1);
    var v := VictimFrom(c.snapshots, c.building, 0, -1);
    if v >= 0 {
      RemovedOk(c.snapshots, v);
      BytesSplit(c.snapshots, v);
    }
  }

  /** Without an eviction nothing changes at all; every eviction moves the revision on. */
  lemma {:induction false} MakeRoomKeepsInv(c: Cache, bytes: nat)
    requires Inv(c)
    ensures var (d, ok) := MakeRoom(c, bytes);
      && Inv(d) && d.building == c.building && d.enabled == c.enabled && d.useCounter == c.useCounter
      && (ok ==> d.bytesUsed + bytes <= MAXIMUM_BYTES)
      && (d == c || d.revision > c.revision)
      && (!ok ==> forall i :: 0 <= i < |d.snapshots| ==> d.snapshots[i].address == d.building)
    decreases |c.snapshots|
  {
    hide Inv, Evict;
    EvictFacts(c);
    assert c.bytesUsed <= MAXIMUM_BYTES by { InvBytes(c); }
    if bytes > MAXIMUM_BYTES - c.bytesUsed && Evict(c).1 {
      EvictKeepsInv(c);
      MakeRoomKeepsInv(Evict(c).0, bytes);
    }
  }

  lemma InvBytes(c: Cache)
    requires Inv(c)
    ensures c.bytesUsed <= MAXIMUM_BYTES
  {
  }

  lemma EvictFacts(c: Cache)
    ensures var (d, ok) := Evict(c);
      && d.building == c.building && d.enabled == c.enabled && d.useCounter == c.useCounter
      && (ok ==> |d.snapshots| < |c.snapshots|)
      && (!ok ==> d == c && forall i :: 0 <= i < |c.snapshots| ==> c.snapshots[i].address == c.building)
  {
    hide VictimFrom;
    VictimIsLeastRecent(c.snapshots, c.building, 0, -1);
  }

  // ----- Invalidation -----

  lemma {:induction false} KeptElements(list: seq<Snapshot>, building: nat, target: Target)
    ensures forall s :: s in Kept(list, building, target) <==>
      s in list && (s.address == building || !Hit(target, s.path))
    decreases |list|
  {
    hide Hit;
    if list == [] {
    } else {
      var front, last := list[..|list| - 1], list[|list| - 1];
      KeptElements(front, building, target);
      assert list == front + [last];
    }
  }

  lemma {:induction false} KeptSize(list: seq<Snapshot>, building: nat, target: Target)
    ensures var r := Kept(list, building, target);
      |r| <= |list| && (|r| == |list| ==> r == list) && Bytes(r) <= Bytes(list)
    decreases |list|
  {
    hide Hit, SnapshotBytes;
    if list == [] {
    } else {
      var front, last := list[..|list| - 1], list[|list| - 1];
      KeptSize(front, building, target);
      var f, r := Kept(front, building, target), Kept(list, building, target);
      assert list == front + [last];
      if r != f { assert r[..|r| - 1] == f; }
    }
  }

  lemma LastIsApart(list: seq<Snapshot>, s: Snapshot)
    requires ListOk(list) && list != [] && s in list[..|list| - 1]
    ensures Apart(s, list[|list| - 1])
  {
    var k :| 0 <= k < |list| - 1 && list[..|list| - 1][k] == s;
    assert list[k] == s;
  }

  lemma ListOkSnoc(list: seq<Snapshot>, last: Snapshot)
    requires ListOk(list) && SnapshotOk(last) && (forall s :: s in list ==> Apart(s, last))
    ensures ListOk(list + [last])
  {
    hide Apart, SnapshotOk;
  }

  lemma {:induction false} KeptListOk(list: seq<Snapshot>, building: nat, target: Target)
    requires ListOk(list)
    ensures ListOk(Kept(list, building, target))
    decreases |list|
  {
    hide Hit, ListOk, Apart;
    if list == [] {
    } else {
      var front, last := list[..|list| - 1], list[|list| - 1];
      ListOkFront(list);
      KeptListOk(front, building, target);
      KeptElements(front, building, target);
      forall s | s in Kept(front, building, target) ensures Apart(s, last) { LastIsApart(list, s); }
      ListOkSnoc(Kept(front, building, target), last);
    }
  }

  lemma ListOkFront(list: seq<Snapshot>)
    requires ListOk(list) && list != []
    ensures ListOk(list[..|list| - 1]) && SnapshotOk(list[|list| - 1])
  {
  }

  lemma SubsetKeeps(kept: seq<Snapshot>, list: seq<Snapshot>, building: nat, useCounter: nat)
    requires BuildingOk(list, building) && ClockOk(list, useCounter)
    requires forall s :: s in kept ==> s in list
    requires forall s :: s in list && s.address == building ==> s in kept
    ensures BuildingOk(kept, building) && ClockOk(kept, useCounter)
  {
    forall i | 0 <= i < |kept|
      ensures (kept[i].complete <==> kept[i].address != building) && kept[i].lastUse <= useCounter
    {
      assert kept[i] in list;
      var j :| 0 <= j < |list| && list[j] == kept[i];
    }
    if building != 0 {
      var i :| 0 <= i < |list| && list[i].address == building;
      assert list[i] in kept;
    }
  }

  /** Invalidation removes exactly the complete snapshots of the target, with their bytes, and moves
      the revision on exactly when it removed something. */
  lemma InvalidatedKeepsInv(c: Cache, target: Target)
    requires Inv(c)
    ensures var d := Invalidated(c, target);
      && Inv(d) && d.building == c.building && d.useCounter == c.useCounter && d.enabled == c.enabled
      && (d == c || d.revision == c.revision + 1)
      && (forall s :: s in d.snapshots <==> s in c.snapshots && (s.address == c.building || !Hit(target, s.path)))
  {
    hide ListOk, BuildingOk, ClockOk, Bytes, Hit;
    KeptElements(c.snapshots, c.building, target);
    KeptSize(c.snapshots, c.building, target);
    KeptListOk(c.snapshots, c.building, target);
    SubsetKeeps(Kept(c.snapshots, c.building, target), c.snapshots, c.building, c.useCounter);
  }

  // ----- Allocation -----

  lemma EvictKeepsElements(c: Cache)
    ensures forall s :: s in Evict(c).0.snapshots ==> s in c.snapshots
  {
    hide VictimFrom;
  }

  lemma {:induction false} MakeRoomKeepsElements(c: Cache, bytes: nat)
    ensures forall s :: s in MakeRoom(c, bytes).0.snapshots ==> s in c.snapshots
    decreases |c.snapshots|
  {
    hide Evict;
    EvictFacts(c);
    if (c.bytesUsed > MAXIMUM_BYTES || bytes > MAXIMUM_BYTES - c.bytesUsed) && Evict(c).1 {
      EvictKeepsElements(c);
      MakeRoomKeepsElements(Evict(c).0, bytes);
    }
  }

  /** A successful allocation is paid for, and every survivor was there before. */
  lemma AllocateFacts(c: Cache, bytes: nat, memory: nat)
    requires Inv(c)
    ensures var (d, ok) := Allocate(c, bytes, memory);
      && d.building == c.building && d.useCounter == c.useCounter && d.enabled == c.enabled
      && Inv(d.(bytesUsed := Bytes(d.snapshots)))
      && d.bytesUsed == Bytes(d.snapshots) + (if ok then bytes else 0) <= MAXIMUM_BYTES
      && (d.revision > c.revision || (d.revision == c.revision && d.snapshots == c.snapshots))
      && (forall s :: s in d.snapshots ==> s in c.snapshots)
      && (ok ==> memory != 0 && c.enabled)
  {
    hide Bytes, ListOk, BuildingOk, ClockOk, MakeRoom;
    if c.enabled && 0 < bytes <= MAXIMUM_BYTES {
      MakeRoomKeepsInv(c, bytes);
      MakeRoomKeepsElements(c, bytes);
      var room := MakeRoom(c, bytes).0;
      assert room == room.(bytesUsed := Bytes(room.snapshots));
      var d := Allocate(c, bytes, memory).0;
      assert d.(bytesUsed := Bytes(d.snapshots)) == room;
    } else {
      assert c == c.(bytesUsed := Bytes(c.snapshots));
    }
  }

  // ----- The other steps -----

  lemma StartedKeepsInv(c: Cache, path: string, memory: nat, uncacheable: bool)
    requires Inv(c)
    requires Fresh(Allocate(Invalidated(c, ExactPath(path)), PathBytes(path), memory).0.snapshots, memory)
    ensures Inv(Started(c, path, memory, uncacheable).0)
  {
    hide ListOk, Bytes, Kept, Invalidated, Allocate, BuildingOk, ClockOk;
    if c.enabled && path != "" && path[0] == '/' && c.building == 0 {
      var e := Invalidated(c, ExactPath(path));
      InvalidatedKeepsInv(c, ExactPath(path));
      AllocateFacts(e, PathBytes(path), memory);
      var (d, ok) := Allocate(e, PathBytes(path), memory);
      if !ok {
        assert d == d.(bytesUsed := Bytes(d.snapshots));
      } else {
        var s := Snapshot(memory, path, [], d.useCounter + 1, uncacheable, uncacheable);
        NewSnapshotFits(e.snapshots, d.snapshots, s, d.useCounter, path);
        BytesOfConcat([s], d.snapshots);
        BytesOfOne(s);
        assert NodesBytes([]) == 0;
        PrependedBuilding(d.snapshots, s, memory, uncacheable);
        PrependedClock(d.snapshots, s, d.useCounter);
      }
    }
  }

  lemma NewSnapshotFits(kept: seq<Snapshot>, list: seq<Snapshot>, s: Snapshot, useCounter: nat, path: string)
    requires ListOk(list) && ClockOk(list, useCounter) && Fresh(list, s.address) && s.address != 0
    requires s.path == path && s.nodes == [] && s.lastUse == useCounter + 1 && (s.uncacheable ==> s.complete)
    requires BuildingOk(list, 0) && (forall t :: t in list ==> t in kept)
    requires forall t :: t in kept ==> t.address == 0 || !Hit(ExactPath(path), t.path)
    ensures ListOk([s] + list)
  {
    forall i | 0 <= i < |list| ensures Apart(s, list[i]) {
      assert list[i] in kept;
      AddressNotNull(list[i]);
    }
    PrependedOk(list, s);
  }

  lemma PrependedBuilding(list: seq<Snapshot>, s: Snapshot, memory: nat, uncacheable: bool)
    requires BuildingOk(list, 0) && ListOk(list) && Fresh(list, memory) && memory != 0
    requires s.address == memory && s.complete == uncacheable
    ensures BuildingOk([s] + list, if uncacheable then 0 else memory)
  {
    var r := [s] + list;
    assert r[0] == s;
    forall i | 0 <= i < |r| ensures r[i].complete <==> r[i].address != if uncacheable then 0 else memory {
      if i > 0 { AddressNotNull(list[i - 1]); }
    }
  }

  lemma PrependedClock(list: seq<Snapshot>, s: Snapshot, useCounter: nat)
    requires ClockOk(list, useCounter) && s.lastUse == useCounter + 1
    ensures ClockOk([s] + list, useCounter + 1)
  {
  }

  lemma NodesBytesSnoc(nodes: seq<Node>, n: Node)
    ensures NodesBytes(nodes + [n]) == NodesBytes(nodes) + NodeBytes(n)
  {
    assert (nodes + [n])[..|nodes|] == nodes;
  }

  lemma BuildingIsIndexed(list: seq<Snapshot>, building: nat)
    requires BuildingOk(list, building) && building != 0
    ensures IndexOf(list, building) < |list|
  {
    hide IndexOf;
    var i :| 0 <= i < |list| && list[i].address == building;
  }

  lemma GrownIsApart(s: Snapshot, t: Snapshot, n: Node)
    requires Apart(t, s) && NodesApart([n], t.nodes)
    ensures Apart(t, s.(nodes := s.nodes + [n]))
  {
    forall j, k | 0 <= j < |t.nodes| && 0 <= k < |s.nodes| + 1
      ensures t.nodes[j].address != (s.nodes + [n])[k].address
    {
      assert [n][0] == n;
    }
  }

  lemma FreshApart(memory: nat, item: Item, nodes: seq<Node>)
    requires NodesApart([Node(memory, Item(false, "", 0, 0, 0))], nodes)
    ensures NodesApart([Node(memory, item)], nodes)
  {
    assert [Node(memory, Item(false, "", 0, 0, 0))][0].address == memory;
  }

  lemma GrownIsOk(s: Snapshot, n: Node)
    requires SnapshotOk(s) && NodesApart([n], s.nodes) && n.address != 0
    ensures SnapshotOk(s.(nodes := s.nodes + [n]))
  {
    assert [n][0] == n;
  }

  lemma AppendedKeepsInv(c: Cache, item: Item, memory: nat)
    requires Inv(c)
    requires Fresh(Allocate(c, NodeBytes(Node(0, item)), memory).0.snapshots, memory)
    ensures Inv(Appended(c, item, memory).0)
  {
    hide ListOk, Bytes, Allocate, BuildingOk, ClockOk, Apart, SnapshotOk, NodesApart, NodesBytes, IndexOf;
    if c.building != 0 && item.name != "" && |item.name| <= 255 {
      var bytes := NodeBytes(Node(0, item));
      AllocateFacts(c, bytes, memory);
      var (d, ok) := Allocate(c, bytes, memory);
      BuildingIsIndexed(d.snapshots, d.building);
      var k := IndexOf(d.snapshots, d.building);
      if !ok {
        assert d == d.(bytesUsed := Bytes(d.snapshots));
      } else {
        var s, n := d.snapshots[k], Node(memory, item);
        var t := s.(nodes := s.nodes + [n]);
        ListOkMember(d.snapshots, k);
        forall i | 0 <= i < |d.snapshots| ensures NodesApart([n], d.snapshots[i].nodes) {
          FreshApart(memory, item, d.snapshots[i].nodes);
        }
        GrownIsOk(s, n);
        forall i | 0 <= i < |d.snapshots| && i != k ensures Apart(d.snapshots[i], t) {
          ListOkAt(d.snapshots, i, k);
          GrownIsApart(s, d.snapshots[i], n);
        }
        ReplacedOk(d.snapshots, k, t);
        BytesReplaced(d.snapshots, k, t);
        NodesBytesSnoc(s.nodes, n);
        ReplacedBuilding(d.snapshots, k, t, d.building);
        ClockAt(d.snapshots, k, d.useCounter);
        ReplacedClock(d.snapshots, k, t, d.useCounter);
      }
    }
  }

  lemma ListOkMember(list: seq<Snapshot>, k: nat)
    requires ListOk(list) && k < |list|
    ensures SnapshotOk(list[k])
  {
  }

  lemma ReplacedBuilding(list: seq<Snapshot>, k: nat, s: Snapshot, building: nat)
    requires BuildingOk(list, building) && k < |list| && s.address == list[k].address && s.complete == list[k].complete
    ensures BuildingOk(list[k := s], building)
  {
    if building != 0 {
      var i :| 0 <= i < |list| && list[i].address == building;
      assert list[k := s][i].address == building;
    }
  }

  lemma ReplacedClock(list: seq<Snapshot>, k: nat, s: Snapshot, useCounter: nat)
    requires ClockOk(list, useCounter) && k < |list| && s.lastUse <= useCounter
    ensures ClockOk(list[k := s], useCounter)
  {
  }

  lemma ClockAt(list: seq<Snapshot>, k: nat, useCounter: nat)
    requires ClockOk(list, useCounter) && k < |list|
    ensures list[k].lastUse <= useCounter
  {
  }

  lemma FinishedKeepsInv(c: Cache)
    requires Inv(c)
    ensures Inv(Finished(c).0)
  {
    hide ListOk, Bytes, ClockOk, IndexOf, NodesBytes, NodesApart;
    var k := IndexOf(c.snapshots, c.building);
    if c.building != 0 && k < |c.snapshots| {
      var s := c.snapshots[k].(complete := true);
      ListOkMember(c.snapshots, k);
      forall i | 0 <= i < |c.snapshots| && i != k ensures Apart(c.snapshots[i], s) { ListOkAt(c.snapshots, i, k); }
      ReplacedOk(c.snapshots, k, s);
      BytesReplaced(c.snapshots, k, s);
      ClockAt(c.snapshots, k, c.useCounter);
      ReplacedClock(c.snapshots, k, s, c.useCounter);
      FinishedBuilding(c.snapshots, k, c.building);
    }
  }

  lemma FinishedBuilding(list: seq<Snapshot>, k: nat, building: nat)
    requires ListOk(list) && BuildingOk(list, building) && k < |list| && list[k].address == building
    ensures BuildingOk(list[k := list[k].(complete := true)], 0)
  {
    var r := list[k := list[k].(complete := true)];
    forall i | 0 <= i < |r| ensures r[i].complete && r[i].address != 0 {
      AddressNotNull(list[i]);
      if i != k { ListOkAt(list, i, k); ApartAddresses(list[i], list[k]); }
    }
  }

  lemma AbortedKeepsInv(c: Cache)
    requires Inv(c)
    ensures Inv(Aborted(c))
  {
    hide ListOk, Bytes, ClockOk, BuildingOk, IndexOf, SnapshotBytes, RemoveAt;
    var k := IndexOf(c.snapshots, c.building);
    if c.building != 0 && k < |c.snapshots| {
      RemovedOk(c.snapshots, k);
      BytesSplit(c.snapshots, k);
    }
  }

  lemma FoundKeepsInv(c: Cache, path: string)
    requires Inv(c)
    ensures Inv(Found(c, path).0)
    ensures Found(c, path).1 <= |Found(c, path).0.snapshots|
  {
    hide ListOk, Bytes, ClockOk, BuildingOk, FindAny, NodesBytes, NodesApart;
    var k := FindAny(c.snapshots, path);
    if c.enabled && k < |c.snapshots| && !c.snapshots[k].uncacheable {
      var s := c.snapshots[k].(lastUse := c.useCounter + 1);
      ListOkMember(c.snapshots, k);
      forall i | 0 <= i < |c.snapshots| && i != k ensures Apart(c.snapshots[i], s) {
        ListOkAt(c.snapshots, i, k);
        ClockAt(c.snapshots, i, c.useCounter);
      }
      ReplacedOk(c.snapshots, k, s);
      BytesReplaced(c.snapshots, k, s);
      ReplacedBuilding(c.snapshots, k, s, c.building);
      assert ClockOk(c.snapshots[k := s], c.useCounter + 1) by { ClockTicks(c.snapshots, k, s, c.useCounter); }
    }
  }

  lemma ClockTicks(list: seq<Snapshot>, k: nat, s: Snapshot, useCounter: nat)
    requires ClockOk(list, useCounter) && k < |list| && s.lastUse <= useCounter + 1
    ensures ClockOk(list[k := s], useCounter + 1)
  {
  }

  predicate SameShape(a: Node, b: Node) {
    a.address == b.address && a.item.name == b.item.name && a.item.isDirectory == b.item.isDirectory
  }

  lemma ChangedShape(nodes: seq<Node>, name: string, change: Change)
    ensures var r := ChangedNodes(nodes, name, change);
      && |r| == |nodes|
      && (forall i :: 0 <= i < |r| ==> SameShape(r[i], nodes[i]))
  {
    hide FileIn, IsFile;
  }

  lemma {:induction false} SameNamesSameBytes(a: seq<Node>, b: seq<Node>)
    requires |a| == |b| && (forall i :: 0 <= i < |a| ==> a[i].item.name == b[i].item.name)
    ensures NodesBytes(a) == NodesBytes(b)
    decreases |a|
  {
    if a == [] {
    } else {
      SameNamesSameBytes(a[..|a| - 1], b[..|b| - 1]);
    }
  }

  lemma UpdatedKeepsInv(c: Cache, path: string, name: string, change: Change)
    requires Inv(c)
    ensures Inv(Updated(c, path, name, change).0)
  {
    hide ListOk, Bytes, ClockOk, BuildingOk, Found, ChangedNodes, NodesBytes;
    FoundKeepsInv(c, path);
    var (d, k) := Found(c, path);
    if !(change.NewStamp? && change.writeDate == 0) && k < |d.snapshots| {
      var s := d.snapshots[k];
      var t := s.(nodes := ChangedNodes(s.nodes, name, change));
      ChangedShape(s.nodes, name, change);
      SameNamesSameBytes(t.nodes, s.nodes);
      ListOkMember(d.snapshots, k);
      forall i | 0 <= i < |d.snapshots| && i != k ensures Apart(d.snapshots[i], t) { ListOkAt(d.snapshots, i, k); }
      ReplacedOk(d.snapshots, k, t);
      BytesReplaced(d.snapshots, k, t);
      ReplacedBuilding(d.snapshots, k, t, d.building);
      ClockAt(d.snapshots, k, d.useCounter);
      ReplacedClock(d.snapshots, k, t, d.useCounter);
    }
  }

  // ----- Whole runs -----

  datatype Event =
    | Begin(path: string, memory: nat)
    | Append(item: Item, memory: nat)
    | Finish
    | Abort
    | MarkUncacheable(path: string, memory: nat)
    | Invalidate(target: Target)
    | Restart(psram: bool)
    | Touch(path: string)
    | Update(path: string, name: string, change: Change)

  function Step(c: Cache, e: Event): (Cache, bool) {
    match e
    case Begin(path, memory) => Started(c, path, memory, false)
    case Append(item, memory) => Appended(c, item, memory)
    case Finish => Finished(c)
    case Abort => (Aborted(c), true)
    case MarkUncacheable(path, memory) => Started(c, path, memory, true)
    case Invalidate(target) => (Invalidated(c, target), true)
    case Restart(psram) => (Restarted(c, psram), psram)
    case Touch(path) => (Found(c, path).0, Found(c, path).1 < |Found(c, path).0.snapshots|)
    case Update(path, name, change) => Updated(c, path, name, change)
  }

  /** The allocator only returns addresses that are not in use. */
  ghost predicate MemoryIsFree(c: Cache, e: Event) {
    match e
    case Begin(path, memory) =>
      Fresh(Allocate(Invalidated(c, ExactPath(path)), PathBytes(path), memory).0.snapshots, memory)
    case MarkUncacheable(path, memory) =>
      Fresh(Allocate(Invalidated(c, ExactPath(path)), PathBytes(path), memory).0.snapshots, memory)
    case Append(item, memory) => Fresh(Allocate(c, NodeBytes(Node(0, item)), memory).0.snapshots, memory)
    case _ => true
  }

  /** The byte counter is exact and within the budget, and paths are pairwise distinct, after every step. */
  lemma StepKeepsInv(c: Cache, e: Event)
    requires Inv(c) && MemoryIsFree(c, e)
    ensures Inv(Step(c, e).0)
  {
    hide Inv, Started, Appended, Finished, Aborted, Invalidated, Found, Updated, Fresh, Allocate;
    match e
    case Begin(path, memory) => StartedKeepsInv(c, path, memory, false);
    case Append(item, memory) => AppendedKeepsInv(c, item, memory);
    case Finish => FinishedKeepsInv(c);
    case Abort => AbortedKeepsInv(c);
    case MarkUncacheable(path, memory) => StartedKeepsInv(c, path, memory, true);
    case Invalidate(target) => InvalidatedKeepsInv(c, target);
    case Restart(psram) => RestartedInv(c, psram);
    case Touch(path) => FoundKeepsInv(c, path);
    case Update(path, name, change) => UpdatedKeepsInv(c, path, name, change);
  }

  lemma RestartedInv(c: Cache, psram: bool)
    ensures Inv(Restarted(c, psram))
  {
  }

  // ----- The reference: a map from folded paths to the last finished listing -----

  datatype Draft = Draft(key: string, items: seq<Item>)

  datatype Reference = Reference(lists: map<string, seq<Item>>, draft: Option<Draft>, enabled: bool)

  function Items(nodes: seq<Node>): seq<Item> {
    seq(|nodes|, i requires 0 <= i < |nodes| => nodes[i].item)
  }

  function FileOf(items: seq<Item>, name: string): (k: nat)
    ensures k <= |items|
  {
    if items == [] || IsFile(items[0], name) then 0 else 1 + FileOf(items[1..], name)
  }

  function ChangedItems(items: seq<Item>, name: string, change: Change): seq<Item> {
    var k := FileOf(items, name);
    if k < |items| then items[k := Changed(items[k], change)] else items
  }

  predicate HitKey(target: Target, key: string) {
    match target
    case ExactPath(p) => key == Fold(p)
    case Subtree(root) => InSubtree(key, root)
  }

  predicate CanStart(r: Reference, path: string) {
    r.enabled && path != "" && path[0] == '/' && r.draft.None?
  }

  /** The reference knows nothing of budgets, addresses, revisions or recency: it is only told
      whether memory was granted. A refused start still drops the old listing of the path. */
  function ReferenceStep(r: Reference, e: Event, accepted: bool): Reference {
    match e
    case Begin(path, _) =>
      if !CanStart(r, path) then r
      else Reference(r.lists - {Fold(path)}, if accepted then Some(Draft(Fold(path), [])) else None, r.enabled)
    case Append(item, _) =>
      if accepted && r.draft.Some? then r.(draft := Some(r.draft.value.(items := r.draft.value.items + [item]))) else r
    case Finish =>
      if r.draft.Some? then r.(lists := r.lists[r.draft.value.key := r.draft.value.items], draft := None) else r
    case Abort => r.(draft := None)
    case MarkUncacheable(path, _) => if CanStart(r, path) then r.(lists := r.lists - {Fold(path)}) else r
    case Invalidate(target) => r.(lists := map k | k in r.lists && !HitKey(target, k) :: r.lists[k])
    case Restart(psram) => Reference(map[], None, psram)
    case Touch(_) => r
    case Update(path, name, change) =>
      if !(change.NewStamp? && change.writeDate == 0) && Fold(path) in r.lists
      then r.(lists := r.lists[Fold(path) := ChangedItems(r.lists[Fold(path)], name, change)]) else r
  }

  /** The snapshots evicted to make room, in order. */
  function Victims(c: Cache, bytes: nat): seq<Snapshot>
    decreases |c.snapshots|
  {
    var v := VictimFrom(c.snapshots, c.building, 0, -1);
    if (c.bytesUsed > MAXIMUM_BYTES || bytes > MAXIMUM_BYTES - c.bytesUsed) && 0 <= v < |c.snapshots|
    then [c.snapshots[v]] + Victims(Evict(c).0, bytes)
    else []
  }

  function AllocationVictims(c: Cache, bytes: nat): seq<Snapshot> {
    if !c.enabled || bytes == 0 || bytes > MAXIMUM_BYTES then [] else Victims(c, bytes)
  }

  /** The snapshots an event evicts: only starting a snapshot and appending to one allocate. */
  function EvictedBy(c: Cache, e: Event): seq<Snapshot> {
    match e
    case Begin(path, _) => StartVictims(c, path)
    case MarkUncacheable(path, _) => StartVictims(c, path)
    case Append(item, _) =>
      if c.building == 0 || item.name == "" || |item.name| > 255 then []
      else AllocationVictims(c, NodeBytes(Node(0, item)))
    case _ => []
  }

  function StartVictims(c: Cache, path: string): seq<Snapshot> {
    if !c.enabled || path == "" || path[0] != '/' || c.building != 0 then []
    else AllocationVictims(Invalidated(c, ExactPath(path)), PathBytes(path))
  }

  ghost function Keys(evicted: seq<Snapshot>): set<string> {
    set s | s in evicted :: Fold(s.path)
  }

  ghost function Forget(r: Reference, evicted: seq<Snapshot>): Reference {
    r.(lists := r.lists - Keys(evicted))
  }

  predicate Served(s: Snapshot) { s.complete && !s.uncacheable }

  ghost predicate IsServed(list: seq<Snapshot>, key: string) {
    exists s :: s in list && Served(s) && Fold(s.path) == key
  }

  predicate AgreesOne(s: Snapshot, building: nat, r: Reference) {
    && (Served(s) ==> Fold(s.path) in r.lists && r.lists[Fold(s.path)] == Items(s.nodes))
    && (building != 0 && s.address == building ==> r.draft == Some(Draft(Fold(s.path), Items(s.nodes))))
  }

  ghost predicate Agrees(list: seq<Snapshot>, building: nat, r: Reference) {
    forall s :: s in list ==> AgreesOne(s, building, r)
  }

  ghost predicate AllServed(list: seq<Snapshot>, r: Reference) {
    forall key :: key in r.lists ==> IsServed(list, key)
  }

  /** The cache serves exactly what the reference map holds, and builds what it drafts. */
  ghost predicate Mirrors(c: Cache, r: Reference) {
    && Agrees(c.snapshots, c.building, r)
    && AllServed(c.snapshots, r)
    && (r.draft.Some? <==> c.building != 0)
    && r.enabled == c.enabled
  }

  lemma {:induction false} FoldTwice(s: string)
    ensures Fold(Fold(s)) == Fold(s)
    decreases |s|
  {
    if s == "" {
    } else {
      FoldTwice(s[1..]);
    }
  }

  lemma SubtreeOfKey(value: string, root: string)
    ensures InSubtree(Fold(value), root) <==> InSubtree(value, root)
  {
    FoldTwice(value);
    if |root| <= |value| {
      assert Fold(value)[..|root|] == Fold(value[..|root|]);
      FoldTwice(value[..|root|]);
    }
  }

  lemma HitIsHitKey(target: Target, path: string)
    ensures HitKey(target, Fold(path)) <==> Hit(target, path)
  {
    if target.Subtree? { SubtreeOfKey(path, target.root); }
  }

  lemma AgreesAt(c: Cache, r: Reference, k: nat)
    requires Agrees(c.snapshots, c.building, r) && k < |c.snapshots|
    ensures AgreesOne(c.snapshots[k], c.building, r)
  {
  }

  lemma ElementIndex(list: seq<Snapshot>, s: Snapshot) returns (k: nat)
    requires s in list
    ensures k < |list| && list[k] == s
  {
    k :| 0 <= k < |list| && list[k] == s;
  }

  lemma ServedAt(list: seq<Snapshot>, key: string) returns (k: nat)
    requires IsServed(list, key)
    ensures k < |list| && Served(list[k]) && Fold(list[k].path) == key
  {
    var s :| s in list && Served(s) && Fold(s.path) == key;
    k := ElementIndex(list, s);
  }

  lemma ServedBy(list: seq<Snapshot>, k: nat)
    requires k < |list| && Served(list[k])
    ensures IsServed(list, Fold(list[k].path))
  {
    assert list[k] in list;
  }

  // ----- Evictions -----

  lemma RemovedElements(list: seq<Snapshot>, k: nat)
    requires ListOk(list) && k < |list|
    ensures forall s :: s in RemoveAt(list, k) <==> s in list && s != list[k]
  {
    hide SnapshotOk;
    var r := RemoveAt(list, k);
    assert forall i :: 0 <= i < |r| ==> r[i] == list[if i < k then i else i + 1];
    forall s | s in r ensures s in list && s != list[k] {
      var i := ElementIndex(r, s);
      ListOkAt(list, if i < k then i else i + 1, k);
    }
    forall s | s in list && s != list[k] ensures s in r {
      var i := ElementIndex(list, s);
      assert r[if i < k then i else i - 1] == s;
    }
  }

  /** Making room evicts nothing that was used after something it keeps, never the snapshot under
      construction, and no more than needed: with the last victim still there, the request would
      not fit. */
  lemma {:induction false} EvictionsAreLeastRecent(c: Cache, bytes: nat)
    requires Inv(c)
    ensures var d, gone := MakeRoom(c, bytes).0, Victims(c, bytes);
      && (forall s :: s in c.snapshots <==> s in d.snapshots || s in gone)
      && (forall v, s :: v in gone && s in d.snapshots ==> v != s)
      && (forall v :: v in gone ==> v.address != c.building)
      && (forall v, s :: v in gone && s in d.snapshots && s.address != c.building ==> v.lastUse <= s.lastUse)
      && (gone != [] ==> d.bytesUsed + SnapshotBytes(gone[|gone| - 1]) + bytes > MAXIMUM_BYTES)
    decreases |c.snapshots|
  {
    hide Inv, VictimFrom, SnapshotBytes, RemoveAt, ListOk;
    var v := VictimFrom(c.snapshots, c.building, 0, -1);
    VictimIsLeastRecent(c.snapshots, c.building, 0, -1);
    InvBytes(c);
    if bytes <= MAXIMUM_BYTES - c.bytesUsed || v < 0 {
      assert Victims(c, bytes) == [];
    } else {
      InvList(c);
      EvictKeepsInv(c);
      EvictFacts(c);
      VictimBytes(c);
      RemovedElements(c.snapshots, v);
      EvictionsAreLeastRecent(Evict(c).0, bytes);
      LeastRecentElement(c.snapshots, v, c.building);
      var rest := Victims(Evict(c).0, bytes);
      assert Victims(c, bytes) == [c.snapshots[v]] + rest;
      assert MakeRoom(c, bytes) == MakeRoom(Evict(c).0, bytes);
    }
  }

  lemma LeastRecentElement(list: seq<Snapshot>, v: nat, building: nat)
    requires v < |list|
    requires forall j :: 0 <= j < |list| && list[j].address != building ==> list[v].lastUse <= list[j].lastUse
    ensures forall s :: s in list && s.address != building ==> list[v].lastUse <= s.lastUse
  {
  }

  lemma VictimBytes(c: Cache)
    requires Inv(c) && Evict(c).1
    ensures var v := VictimFrom(c.snapshots, c.building, 0, -1);
      0 <= v < |c.snapshots| && c.bytesUsed == Evict(c).0.bytesUsed + SnapshotBytes(c.snapshots[v])
      && Evict(c).0.snapshots == RemoveAt(c.snapshots, v)
  {
    hide VictimFrom, Bytes, ListOk, BuildingOk, ClockOk, SnapshotBytes, RemoveAt;
    BytesSplit(c.snapshots, VictimFrom(c.snapshots, c.building, 0, -1));
  }

  /** Every survivor of an allocation was there before, and what went is exactly the victims. */
  lemma AllocateMirrors(c: Cache, bytes: nat, memory: nat, r: Reference)
    requires Inv(c) && Mirrors(c, r)
    ensures Mirrors(Allocate(c, bytes, memory).0, Forget(r, AllocationVictims(c, bytes)))
  {
    hide Inv, Victims, MakeRoom, AgreesOne, IsServed;
    if !c.enabled || bytes == 0 || bytes > MAXIMUM_BYTES {
      assert Keys([]) == {};
      assert Forget(r, []) == r;
    } else {
      EvictionsAreLeastRecent(c, bytes);
      MakeRoomKeepsInv(c, bytes);
      ForgottenMirrors(c, MakeRoom(c, bytes).0, Victims(c, bytes), r);
    }
  }

  lemma ForgottenMirrors(c: Cache, d: Cache, gone: seq<Snapshot>, r: Reference)
    requires Inv(c) && Mirrors(c, r)
    requires forall s :: s in c.snapshots <==> s in d.snapshots || s in gone
    requires forall v, s :: v in gone && s in d.snapshots ==> v != s
    requires d.building == c.building && d.enabled == c.enabled
    ensures Mirrors(d, Forget(r, gone))
  {
    hide Inv, SnapshotOk, Fold, Items;
    InvList(c);
    forall s | s in d.snapshots ensures AgreesOne(s, d.building, Forget(r, gone)) {
      if Fold(s.path) in Keys(gone) {
        var v :| v in gone && Fold(v.path) == Fold(s.path);
        PathsDiffer(c.snapshots, s, v);
        assert false;
      }
    }
    forall key | key in Forget(r, gone).lists ensures IsServed(d.snapshots, key) {
      var k := ServedAt(c.snapshots, key);
      assert c.snapshots[k] in d.snapshots;
    }
  }

  lemma PathsDiffer(list: seq<Snapshot>, s: Snapshot, t: Snapshot)
    requires ListOk(list) && s in list && t in list && s != t
    ensures Fold(s.path) != Fold(t.path) && s.address != t.address
  {
    hide SnapshotOk;
    var i := ElementIndex(list, s);
    var j := ElementIndex(list, t);
    ListOkAt(list, i, j);
  }

  // ----- Every step mirrors the reference -----

  lemma InvalidatedMirrors(c: Cache, target: Target, r: Reference)
    requires Inv(c) && Mirrors(c, r)
    ensures Mirrors(Invalidated(c, target), ReferenceStep(r, Invalidate(target), true))
  {
    hide ListOk, Bytes, ClockOk, Invalidated, Hit, HitKey, Items, Fold;
    InvalidatedKeepsInv(c, target);
    var d, after := Invalidated(c, target), ReferenceStep(r, Invalidate(target), true);
    forall s | s in d.snapshots ensures AgreesOne(s, c.building, after) {
      HitIsHitKey(target, s.path);
      var k := ElementIndex(c.snapshots, s);
      BuildingIsIncomplete(c.snapshots, c.building, k);
    }
    forall key | key in after.lists ensures IsServed(d.snapshots, key) {
      var k := ServedAt(c.snapshots, key);
      HitIsHitKey(target, c.snapshots[k].path);
      assert c.snapshots[k] in c.snapshots;
    }
  }

  lemma BuildingIsIncomplete(list: seq<Snapshot>, building: nat, k: nat)
    requires BuildingOk(list, building) && k < |list|
    ensures list[k].complete <==> list[k].address != building
  {
  }

  /** A new snapshot at the head of a list that has none for its path. */
  lemma PushedMirrors(d: Cache, s: Snapshot, building: nat, r: Reference, after: Reference)
    requires Mirrors(d, r) && Fresh(d.snapshots, s.address) && d.building == 0 && !Served(s)
    requires after == r.(draft := if building == 0 then None else Some(Draft(Fold(s.path), Items(s.nodes))))
    requires building == 0 || building == s.address
    ensures Mirrors(d.(snapshots := [s] + d.snapshots, building := building), after)
  {
    hide Items, Fold;
    var list := [s] + d.snapshots;
    forall t | t in list ensures AgreesOne(t, building, after) {
      var k := ElementIndex(list, t);
      if k > 0 {
        assert d.snapshots[k - 1] == t && t in d.snapshots;
      }
    }
    forall key | key in after.lists ensures IsServed(list, key) {
      var k := ServedAt(d.snapshots, key);
      assert list[k + 1] == d.snapshots[k];
      ServedBy(list, k + 1);
    }
  }

  lemma StartedMirrors(c: Cache, path: string, memory: nat, uncacheable: bool, r: Reference)
    requires Inv(c) && Mirrors(c, r)
    requires Fresh(Allocate(Invalidated(c, ExactPath(path)), PathBytes(path), memory).0.snapshots, memory)
    ensures var e := if uncacheable then MarkUncacheable(path, memory) else Begin(path, memory);
      var (d, ok) := Started(c, path, memory, uncacheable);
      Mirrors(d, ReferenceStep(Forget(r, EvictedBy(c, e)), e, ok))
  {
    hide Inv, Fresh, Allocate, Invalidated, Agrees, AllServed, AllocationVictims, Fold;
    if c.enabled && path != "" && path[0] == '/' && c.building == 0 {
      var e := Invalidated(c, ExactPath(path));
      var gone := AllocationVictims(e, PathBytes(path));
      InvalidatedKeepsInv(c, ExactPath(path));
      InvalidatedMirrors(c, ExactPath(path), r);
      var dropped := r.(lists := r.lists - {Fold(path)});
      assert ReferenceStep(r, Invalidate(ExactPath(path)), true) == dropped;
      AllocateMirrors(e, PathBytes(path), memory, dropped);
      AllocateFacts(e, PathBytes(path), memory);
      var (d, ok) := Allocate(e, PathBytes(path), memory);
      assert r.lists - Keys(gone) - {Fold(path)} == r.lists - {Fold(path)} - Keys(gone);
      if ok {
        var s := Snapshot(memory, path, [], d.useCounter + 1, uncacheable, uncacheable);
        var after := Forget(dropped, gone);
        assert Items([]) == [];
        PushedMirrors(d, s, if uncacheable then 0 else memory, after,
                      after.(draft := if uncacheable then None else Some(Draft(Fold(path), []))));
      }
    } else {
      assert Keys([]) == {};
      assert Forget(r, []) == r;
    }
  }

  /** Replacing the snapshot at one place. */
  lemma ReplacedMirrors(c: Cache, k: nat, s: Snapshot, building: nat, r: Reference, after: Reference)
    requires Inv(c) && Mirrors(c, r) && k < |c.snapshots| && Fold(s.path) == Fold(c.snapshots[k].path)
    requires building == c.building || (building == 0 && c.snapshots[k].address == c.building)
    requires AgreesOne(s, building, after) && (Served(c.snapshots[k]) ==> Served(s))
    requires after.enabled == r.enabled && (after.draft.Some? <==> building != 0)
    requires building != 0 && c.snapshots[k].address != building ==> after.draft == r.draft
    requires forall key :: key != Fold(s.path) ==> (key in after.lists <==> key in r.lists)
    requires forall key :: key != Fold(s.path) && key in r.lists ==> after.lists[key] == r.lists[key]
    requires Fold(s.path) in after.lists ==> Served(s)
    ensures Mirrors(c.(snapshots := c.snapshots[k := s], building := building), after)
  {
    hide Items, Fold, SnapshotOk, Bytes, NodesApart;
    InvList(c);
    var list := c.snapshots[k := s];
    forall t | t in list ensures AgreesOne(t, building, after) {
      var i := ElementIndex(list, t);
      if i != k {
        AgreesAt(c, r, i);
        ListOkAt(c.snapshots, i, k);
      }
    }
    forall key | key in after.lists ensures IsServed(list, key) {
      if key == Fold(s.path) {
        ServedBy(list, k);
      } else {
        var i := ServedAt(c.snapshots, key);
        ServedBy(list, i);
      }
    }
  }

  lemma AppendedMirrors(c: Cache, item: Item, memory: nat, r: Reference)
    requires Inv(c) && Mirrors(c, r)
    ensures var e := Append(item, memory); var (d, ok) := Appended(c, item, memory);
      Mirrors(d, ReferenceStep(Forget(r, EvictedBy(c, e)), e, ok))
  {
    hide ListOk, Bytes, Allocate, ClockOk, IndexOf, AllocationVictims, Fold;
    if c.building != 0 && item.name != "" && |item.name| <= 255 {
      var bytes := NodeBytes(Node(0, item));
      AllocateMirrors(c, bytes, memory, r);
      AllocateFacts(c, bytes, memory);
      var (d, ok) := Allocate(c, bytes, memory);
      var r' := Forget(r, AllocationVictims(c, bytes));
      if ok {
        BuildingIsIndexed(d.snapshots, d.building);
        var k := IndexOf(d.snapshots, d.building);
        var s := d.snapshots[k];
        var t := s.(nodes := s.nodes + [Node(memory, item)]);
        var e := d.(bytesUsed := Bytes(d.snapshots));
        BuildingIsIncomplete(d.snapshots, d.building, k);
        AgreesAt(d, r', k);
        assert Items(t.nodes) == Items(s.nodes) + [item];
        BuildingNotServed(e, r', k);
        ReplacedMirrors(e, k, t, d.building, r', r'.(draft := Some(Draft(Fold(s.path), Items(t.nodes)))));
      }
    } else {
      assert Keys([]) == {};
      assert Forget(r, []) == r;
    }
  }

  lemma IncompleteIsCacheable(c: Cache, k: nat)
    requires Inv(c) && k < |c.snapshots| && !c.snapshots[k].complete
    ensures !c.snapshots[k].uncacheable
  {
    hide Bytes, ClockOk;
    ListOkMember(c.snapshots, k);
  }

  /** What is under construction has no finished listing: starting it dropped the old one. */
  lemma BuildingNotServed(c: Cache, r: Reference, k: nat)
    requires Inv(c) && Mirrors(c, r) && k < |c.snapshots| && c.snapshots[k].address == c.building
    ensures !c.snapshots[k].complete && !c.snapshots[k].uncacheable && Fold(c.snapshots[k].path) !in r.lists
  {
    hide Bytes, ClockOk, SnapshotOk, Items, Fold;
    InvList(c);
    BuildingIsIncomplete(c.snapshots, c.building, k);
    IncompleteIsCacheable(c, k);
    if Fold(c.snapshots[k].path) in r.lists {
      var i := ServedAt(c.snapshots, Fold(c.snapshots[k].path));
      ListOkAt(c.snapshots, i, k);
    }
  }

  lemma FinishedMirrors(c: Cache, r: Reference)
    requires Inv(c) && Mirrors(c, r)
    ensures Mirrors(Finished(c).0, ReferenceStep(r, Finish, Finished(c).1))
    ensures Finished(c).1 <==> r.draft.Some?
  {
    hide Inv, Bytes, ClockOk, IndexOf, Fold, ListOk;
    InvList(c);
    if c.building != 0 {
      BuildingIsIndexed(c.snapshots, c.building);
      var k := IndexOf(c.snapshots, c.building);
      AgreesAt(c, r, k);
      BuildingNotServed(c, r, k);
      ReplacedMirrors(c, k, c.snapshots[k].(complete := true), 0, r, ReferenceStep(r, Finish, true));
    }
  }

  lemma AbortedMirrors(c: Cache, r: Reference)
    requires Inv(c) && Mirrors(c, r)
    ensures Mirrors(Aborted(c), ReferenceStep(r, Abort, true))
  {
    hide Inv, Bytes, ClockOk, IndexOf, Fold, RemoveAt, ListOk, Items;
    InvList(c);
    if c.building != 0 {
      BuildingIsIndexed(c.snapshots, c.building);
      var k := IndexOf(c.snapshots, c.building);
      var d := Aborted(c);
      RemovedElements(c.snapshots, k);
      BuildingNotServed(c, r, k);
      forall s | s in d.snapshots ensures AgreesOne(s, 0, r.(draft := None)) {}
      forall key | key in r.lists ensures IsServed(d.snapshots, key) {
        var i := ServedAt(c.snapshots, key);
        assert c.snapshots[i] in d.snapshots;
      }
    }
  }

  lemma FoundMirrors(c: Cache, path: string, r: Reference)
    requires Inv(c) && Mirrors(c, r)
    ensures Mirrors(Found(c, path).0, r)
  {
    hide FindAny, Inv, Fold;
    var k := FindAny(c.snapshots, path);
    if c.enabled && k < |c.snapshots| && !c.snapshots[k].uncacheable {
      AgreesAt(c, r, k);
      ReplacedMirrors(c, k, c.snapshots[k].(lastUse := c.useCounter + 1), c.building, r, r);
    }
  }

  lemma {:induction false} FileInIsFileOf(nodes: seq<Node>, name: string)
    ensures FileIn(nodes, name) == FileOf(Items(nodes), name)
    decreases |nodes|
  {
    hide IsFile;
    if nodes == [] {
    } else {
      assert Items(nodes)[1..] == Items(nodes[1..]);
      FileInIsFileOf(nodes[1..], name);
    }
  }

  lemma ChangedNodesItems(nodes: seq<Node>, name: string, change: Change)
    ensures Items(ChangedNodes(nodes, name, change)) == ChangedItems(Items(nodes), name, change)
    ensures FileIn(nodes, name) >= |nodes| ==> ChangedNodes(nodes, name, change) == nodes
  {
    hide FileIn, FileOf;
    FileInIsFileOf(nodes, name);
  }

  /** A lookup hits exactly the paths the reference map holds. */
  lemma FoundFacts(c: Cache, path: string, r: Reference)
    requires Inv(c) && Mirrors(c, r)
    ensures var (d, k) := Found(c, path);
      && |d.snapshots| == |c.snapshots| && d.building == c.building
      && (k < |d.snapshots| <==> Fold(path) in r.lists)
      && (k < |d.snapshots| ==> Served(d.snapshots[k]) && Fold(d.snapshots[k].path) == Fold(path))
  {
    hide FindAny, Bytes, ClockOk, BuildingOk, Items, ListOk;
    var k := FindAny(c.snapshots, path);
    if k < |c.snapshots| {
      AgreesAt(c, r, k);
    }
    if Fold(path) in r.lists {
      var i := ServedAt(c.snapshots, Fold(path));
      assert Complete(c.snapshots[i], path);
      if i != k {
        ListOkAt(c.snapshots, i, k);
      }
    }
  }

  lemma ChangedMirrors(c: Cache, r: Reference, k: nat, path: string, name: string, change: Change)
    requires Inv(c) && Mirrors(c, r) && k < |c.snapshots| && Served(c.snapshots[k])
    requires Fold(c.snapshots[k].path) == Fold(path) && !(change.NewStamp? && change.writeDate == 0)
    ensures var s := c.snapshots[k];
      Mirrors(c.(snapshots := c.snapshots[k := s.(nodes := ChangedNodes(s.nodes, name, change))]),
              ReferenceStep(r, Update(path, name, change), true))
  {
    hide Inv, ChangedNodes, ChangedItems, Fold;
    var s := c.snapshots[k];
    ChangedNodesItems(s.nodes, name, change);
    ServedIsNotBuilding(c, k);
    AgreesAt(c, r, k);
    ReplacedMirrors(c, k, s.(nodes := ChangedNodes(s.nodes, name, change)), c.building, r,
                    ReferenceStep(r, Update(path, name, change), true));
  }

  lemma UpdatedMirrors(c: Cache, path: string, name: string, change: Change, r: Reference)
    requires Inv(c) && Mirrors(c, r)
    ensures var (d, ok) := Updated(c, path, name, change);
      Mirrors(d, ReferenceStep(r, Update(path, name, change), ok))
  {
    hide Inv, Found, ChangedNodes, ChangedItems, FileIn, Fold, Mirrors;
    FoundMirrors(c, path, r);
    FoundFacts(c, path, r);
    FoundKeepsInv(c, path);
    var (e, k) := Found(c, path);
    if !(change.NewStamp? && change.writeDate == 0) && k < |e.snapshots| {
      ChangedMirrors(e, r, k, path, name, change);
    }
  }

  // ----- What an update in place means, field by field -----

  /** The entry an update is for: the first file of that name, in any case, among the entries. */
  ghost predicate IsTheFile(items: seq<Item>, name: string, i: nat) {
    && i < |items| && !items[i].isDirectory && SameIgnoringCase(items[i].name, name)
    && forall j :: 0 <= j < i ==> items[j].isDirectory || !SameIgnoringCase(items[j].name, name)
  }

  /** Name and kind stay; the size or the date and time become the new ones, the others stay. */
  ghost predicate HasNewValue(before: Item, after: Item, change: Change) {
    && after.isDirectory == before.isDirectory && after.name == before.name
    && after.size == (if change.NewSize? then change.size else before.size)
    && after.writeDate == (if change.NewStamp? then change.writeDate else before.writeDate)
    && after.writeTime == (if change.NewStamp? then change.writeTime else before.writeTime)
  }

  ghost predicate OnlyThatFileChanged(before: seq<Item>, after: seq<Item>, name: string, change: Change) {
    && |after| == |before|
    && forall i :: 0 <= i < |before| ==>
         if IsTheFile(before, name, i) then HasNewValue(before[i], after[i], change) else after[i] == before[i]
  }

  lemma ChangedOnlyThatFile(nodes: seq<Node>, name: string, change: Change)
    ensures OnlyThatFileChanged(Items(nodes), Items(ChangedNodes(nodes, name, change)), name, change)
    ensures FileIn(nodes, name) < |nodes| <==> exists i :: IsTheFile(Items(nodes), name, i)
    ensures |ChangedNodes(nodes, name, change)| == |nodes|
      && forall i :: 0 <= i < |nodes| ==> ChangedNodes(nodes, name, change)[i].address == nodes[i].address
  {
    hide FileIn, SameIgnoringCase;
    var k, items := FileIn(nodes, name), Items(nodes);
    assert forall i :: 0 <= i < |nodes| ==> items[i] == nodes[i].item;
    if k < |nodes| {
      assert IsFile(nodes[k].item, name);
      assert IsTheFile(items, name, k);
    }
    forall i: nat | IsTheFile(items, name, i) ensures i == k {
      assert IsFile(nodes[i].item, name);
    }
  }

  /** An update is accepted exactly when a date is given where one is needed, and the listing is served
      and holds a file of that name. Then that entry gets the new size or stamp; every other field,
      entry and listing, the bytes and the revision stay. */
  lemma UpdateMeans(c: Cache, r: Reference, path: string, name: string, change: Change)
    requires Inv(c) && Mirrors(c, r)
    ensures var (d, ok) := Updated(c, path, name, change);
      var after := ReferenceStep(r, Update(path, name, change), ok).lists;
      && (ok <==> !(change.NewStamp? && change.writeDate == 0) && Fold(path) in r.lists
                  && exists i :: IsTheFile(r.lists[Fold(path)], name, i))
      && after.Keys == r.lists.Keys
      && (forall key :: key in after && key != Fold(path) ==> after[key] == r.lists[key])
      && (Fold(path) in after ==>
            if ok then OnlyThatFileChanged(r.lists[Fold(path)], after[Fold(path)], name, change)
            else after[Fold(path)] == r.lists[Fold(path)])
      && d.revision == c.revision && d.bytesUsed == c.bytesUsed
  {
    hide Inv, ChangedNodes, ChangedItems, FileIn, FileOf, Fold, IsTheFile, OnlyThatFileChanged, FindAny;
    FoundFacts(c, path, r);
    FoundMirrors(c, path, r);
    var (e, k) := Found(c, path);
    if k < |e.snapshots| {
      var nodes := e.snapshots[k].nodes;
      AgreesAt(e, r, k);
      ChangedOnlyThatFile(nodes, name, change);
      ChangedNodesItems(nodes, name, change);
    }
  }

  lemma InvList(c: Cache)
    requires Inv(c)
    ensures ListOk(c.snapshots) && BuildingOk(c.snapshots, c.building)
  {
  }

  lemma ServedIsNotBuilding(c: Cache, k: nat)
    requires Inv(c) && k < |c.snapshots| && Served(c.snapshots[k])
    ensures c.snapshots[k].address != c.building
  {
    InvList(c);
    BuildingIsIncomplete(c.snapshots, c.building, k);
  }

  /** What the cache serves is exactly what the reference map holds, once the evicted listings
      are forgotten: nothing else is ever lost, and nothing stale is served. */
  lemma StepRefinesReference(c: Cache, r: Reference, e: Event)
    requires Inv(c) && MemoryIsFree(c, e) && Mirrors(c, r)
    ensures Mirrors(Step(c, e).0, ReferenceStep(Forget(r, EvictedBy(c, e)), e, Step(c, e).1))
  {
    hide Inv, Mirrors, Started, Appended, Finished, Aborted, Invalidated, Found, Updated, Fresh, Allocate;
    assert Keys([]) == {};
    assert Forget(r, []) == r;
    match e
    case Begin(path, memory) => StartedMirrors(c, path, memory, false, r);
    case Append(item, memory) => AppendedMirrors(c, item, memory, r);
    case Finish => FinishedMirrors(c, r);
    case Abort => AbortedMirrors(c, r);
    case MarkUncacheable(path, memory) => StartedMirrors(c, path, memory, true, r);
    case Invalidate(target) => InvalidatedMirrors(c, target, r);
    case Restart(psram) => RestartMirrors(c, psram);
    case Touch(path) => FoundMirrors(c, path, r);
    case Update(path, name, change) => UpdatedMirrors(c, path, name, change, r);
  }

  lemma RestartMirrors(c: Cache, psram: bool)
    ensures Mirrors(Restarted(c, psram), Reference(map[], None, psram))
  {
  }

  /** The events that take a listing away. */
  ghost predicate Drops(c: Cache, e: Event, key: string) {
    match e
    case Begin(path, _) => (StartsAt(c, path) && key == Fold(path)) || key in Keys(EvictedBy(c, e))
    case MarkUncacheable(path, _) => (StartsAt(c, path) && key == Fold(path)) || key in Keys(EvictedBy(c, e))
    case Append(_, _) => key in Keys(EvictedBy(c, e))
    case Invalidate(target) => HitKey(target, key)
    case Restart(_) => true
    case _ => false
  }

  lemma OnlyAllocationEvicts(c: Cache, e: Event)
    ensures !e.Begin? && !e.MarkUncacheable? && !e.Append? ==> EvictedBy(c, e) == []
  {
  }

  predicate StartsAt(c: Cache, path: string) {
    c.enabled && path != "" && path[0] == '/' && c.building == 0
  }

  /** A path is served after an event exactly if the event finished its listing, or it was served
      before and the event is none of these: a start or invalidation that hits it, a restart, or
      an eviction of it as one of the least recently used. */
  lemma ServedUntilDropped(c: Cache, r: Reference, e: Event, key: string)
    requires Inv(c) && MemoryIsFree(c, e) && Mirrors(c, r)
    ensures IsServed(Step(c, e).0.snapshots, key) <==>
      || (e.Finish? && r.draft.Some? && r.draft.value.key == key)
      || (IsServed(c.snapshots, key) && !Drops(c, e, key))
  {
    hide Inv, Step, EvictedBy, MemoryIsFree, HitKey, Fold;
    OnlyAllocationEvicts(c, e);
    StepRefinesReference(c, r, e);
    ServedIsHeld(c, r, key);
    ServedIsHeld(Step(c, e).0, ReferenceStep(Forget(r, EvictedBy(c, e)), e, Step(c, e).1), key);
  }

  lemma ServedIsHeld(c: Cache, r: Reference, key: string)
    requires Mirrors(c, r)
    ensures IsServed(c.snapshots, key) <==> key in r.lists
  {
    hide Fold, Items;
    if IsServed(c.snapshots, key) {
      var k := ServedAt(c.snapshots, key);
      AgreesAt(c, r, k);
    }
  }

  function Run(c: Cache, events: seq<Event>): Cache {
    if events == [] then c else Step(Run(c, events[..|events| - 1]), events[|events| - 1]).0
  }

  /** The reference over a run: it is told what memory was granted and what was evicted. */
  ghost function ReferenceRun(c: Cache, events: seq<Event>): Reference {
    if events == [] then Reference(map[], None, c.enabled)
    else
      var before, e := events[..|events| - 1], events[|events| - 1];
      ReferenceStep(Forget(ReferenceRun(c, before), EvictedBy(Run(c, before), e)), e, Step(Run(c, before), e).1)
  }

  ghost predicate MemoryStaysFree(c: Cache, events: seq<Event>) {
    events == []
    || (&& MemoryStaysFree(c, events[..|events| - 1])
        && MemoryIsFree(Run(c, events[..|events| - 1]), events[|events| - 1]))
  }

  const INITIAL := Cache([], 0, 0, 1, 1, false)

  /** Over every run from the start: the byte counter is exact and within the budget, paths are
      distinct, and the listings served are exactly those the reference holds: the last one
      finished for each path since it was last dropped or evicted, entry by entry and in append
      order. */
  lemma {:induction false} RunRefinesReference(events: seq<Event>)
    requires MemoryStaysFree(INITIAL, events)
    ensures Inv(Run(INITIAL, events)) && Mirrors(Run(INITIAL, events), ReferenceRun(INITIAL, events))
    decreases |events|
  {
    hide Inv, Mirrors, Step, ReferenceStep, MemoryIsFree, EvictedBy;
    if events == [] {
      InitialInv();
    } else {
      var before := events[..|events| - 1];
      RunRefinesReference(before);
      StepKeepsInv(Run(INITIAL, before), events[|events| - 1]);
      StepRefinesReference(Run(INITIAL, before), ReferenceRun(INITIAL, before), events[|events| - 1]);
    }
  }

  lemma InitialInv()
    ensures Inv(INITIAL) && Mirrors(INITIAL, Reference(map[], None, false))
  {
  }

  // ----- Cursors -----

  datatype Cursor = Cursor(next: nat, revision: nat, isOpen: bool)

  /** What does not change while a listing lives: where its entries are and what they are called. */
  datatype Shape = Shape(address: nat, isDirectory: bool, name: string)

  function ShapeOf(n: Node): Shape { Shape(n.address, n.item.isDirectory, n.item.name) }

  function Shapes(nodes: seq<Node>): seq<Shape> {
    seq(|nodes|, i requires 0 <= i < |nodes| => ShapeOf(nodes[i]))
  }

  function AddressAt(nodes: seq<Node>, j: nat): nat {
    if j < |nodes| then nodes[j].address else 0
  }

  function OpenCursor(c: Cache, path: string): (Cache, Cursor) {
    var (d, k) := Found(c, path);
    if k >= |d.snapshots| then (d, Cursor(0, 0, false))
    else (d, Cursor(AddressAt(d.snapshots[k].nodes, 0), d.revision, true))
  }

  function NodeIndex(nodes: seq<Node>, address: nat): (j: nat)
    ensures j <= |nodes| && (j < |nodes| ==> nodes[j].address == address)
    ensures forall i :: 0 <= i < j ==> nodes[i].address != address
  {
    if nodes == [] || nodes[0].address == address then 0 else 1 + NodeIndex(nodes[1..], address)
  }

  predicate HasNode(s: Snapshot, address: nat) {
    NodeIndex(s.nodes, address) < |s.nodes|
  }

  /** Which live snapshot owns the memory at an address; |list| when the address is not live. */
  function Owner(list: seq<Snapshot>, address: nat): (k: nat)
    ensures k <= |list| && (k < |list| ==> HasNode(list[k], address))
    ensures forall i :: 0 <= i < k ==> !HasNode(list[i], address)
  {
    if list == [] || HasNode(list[0], address) then 0 else 1 + Owner(list[1..], address)
  }

  datatype Fetch = Refused | Dangling | Fetched(item: Item, next: nat)

  predicate CursorCurrent(c: Cache, cursor: Cursor) {
    cursor.isOpen && cursor.revision == c.revision
  }

  /** next(): reads the entry the cursor points to and moves on to the one it links. */
  function Next(c: Cache, cursor: Cursor): Fetch {
    if !CursorCurrent(c, cursor) || cursor.next == 0 then Refused
    else
      var k := Owner(c.snapshots, cursor.next);
      if k >= |c.snapshots| then Dangling
      else
        var nodes := c.snapshots[k].nodes;
        var j := NodeIndex(nodes, cursor.next);
        Fetched(nodes[j].item, AddressAt(nodes, j + 1))
  }

  predicate Listed(s: Snapshot, key: string, shape: seq<Shape>) {
    Served(s) && Fold(s.path) == key && Shapes(s.nodes) == shape
  }

  ghost predicate HasListing(list: seq<Snapshot>, key: string, shape: seq<Shape>) {
    exists s :: s in list && Listed(s, key, shape)
  }

  lemma ListingAt(list: seq<Snapshot>, key: string, shape: seq<Shape>) returns (k: nat)
    requires HasListing(list, key, shape)
    ensures k < |list| && Listed(list[k], key, shape)
  {
    var s :| s in list && Listed(s, key, shape);
    k :| 0 <= k < |list| && list[k] == s;
  }

  lemma ReplacedListing(list: seq<Snapshot>, k: nat, s: Snapshot, key: string, shape: seq<Shape>)
    requires HasListing(list, key, shape) && k < |list| && (Listed(list[k], key, shape) ==> Listed(s, key, shape))
    ensures HasListing(list[k := s], key, shape)
  {
    hide Listed;
    var i := ListingAt(list, key, shape);
    assert list[k := s][i] == if i == k then s else list[i];
    assert list[k := s][i] in list[k := s];
  }

  lemma StartedKeepsListing(c: Cache, path: string, memory: nat, uncacheable: bool, key: string, shape: seq<Shape>)
    requires Inv(c) && HasListing(c.snapshots, key, shape)
    ensures var d := Started(c, path, memory, uncacheable).0;
      d.revision > c.revision || (d.revision == c.revision && HasListing(d.snapshots, key, shape))
  {
    hide Inv, Invalidated, Allocate, Listed;
    InvalidatedKeepsInv(c, ExactPath(path));
    AllocateFacts(Invalidated(c, ExactPath(path)), PathBytes(path), memory);
    var i := ListingAt(c.snapshots, key, shape);
    var d := Started(c, path, memory, uncacheable).0;
    if d.revision == c.revision && |d.snapshots| > |c.snapshots| {
      assert d.snapshots[i + 1] == c.snapshots[i];
    }
  }

  lemma AppendedKeepsListing(c: Cache, item: Item, memory: nat, key: string, shape: seq<Shape>)
    requires Inv(c) && HasListing(c.snapshots, key, shape)
    ensures var d := Appended(c, item, memory).0;
      d.revision > c.revision || (d.revision == c.revision && HasListing(d.snapshots, key, shape))
  {
    hide Inv, Allocate, Shapes, IndexOf, HasListing;
    AllocateFacts(c, NodeBytes(Node(0, item)), memory);
    var (e, granted) := Allocate(c, NodeBytes(Node(0, item)), memory);
    var k := IndexOf(e.snapshots, e.building);
    if e.revision == c.revision && k < |e.snapshots| {
      InvList(c);
      BuildingIsIncomplete(c.snapshots, c.building, k);
      var s := e.snapshots[k];
      ReplacedListing(c.snapshots, k, s.(nodes := s.nodes + [Node(memory, item)]), key, shape);
    }
  }

  lemma AbortedKeepsListing(c: Cache, key: string, shape: seq<Shape>)
    requires Inv(c) && HasListing(c.snapshots, key, shape)
    ensures HasListing(Aborted(c).snapshots, key, shape)
  {
    hide Inv, IndexOf, Shapes;
    InvList(c);
    var i := ListingAt(c.snapshots, key, shape);
    var k := IndexOf(c.snapshots, c.building);
    if c.building != 0 && k < |c.snapshots| {
      BuildingIsIncomplete(c.snapshots, c.building, k);
      assert RemoveAt(c.snapshots, k)[if i < k then i else i - 1] == c.snapshots[i];
    }
  }

  lemma FoundKeepsListing(c: Cache, path: string, key: string, shape: seq<Shape>)
    requires HasListing(c.snapshots, key, shape)
    ensures HasListing(Found(c, path).0.snapshots, key, shape) && Found(c, path).0.revision == c.revision
  {
    hide FindAny, Shapes, HasListing;
    var k := FindAny(c.snapshots, path);
    if k < |c.snapshots| {
      ReplacedListing(c.snapshots, k, c.snapshots[k].(lastUse := c.useCounter + 1), key, shape);
    }
  }

  lemma UpdatedKeepsListing(c: Cache, path: string, name: string, change: Change, key: string, shape: seq<Shape>)
    requires HasListing(c.snapshots, key, shape)
    ensures var d := Updated(c, path, name, change).0; HasListing(d.snapshots, key, shape) && d.revision == c.revision
  {
    hide Found, ChangedNodes, HasListing;
    FoundKeepsListing(c, path, key, shape);
    var (d, k) := Found(c, path);
    if k < |d.snapshots| {
      var s := d.snapshots[k];
      ChangedShape(s.nodes, name, change);
      assert Shapes(ChangedNodes(s.nodes, name, change)) == Shapes(s.nodes);
      ReplacedListing(d.snapshots, k, s.(nodes := ChangedNodes(s.nodes, name, change)), key, shape);
    }
  }

  /** Every step either moves the revision on or leaves every served listing where it is. */
  lemma StepKeepsListing(c: Cache, e: Event, key: string, shape: seq<Shape>)
    requires Inv(c) && HasListing(c.snapshots, key, shape)
    ensures var d := Step(c, e).0;
      d.revision > c.revision || (d.revision == c.revision && HasListing(d.snapshots, key, shape))
  {
    hide Inv, HasListing, Started, Appended, Aborted, Invalidated, Found, Updated;
    match e
    case Begin(path, memory) => StartedKeepsListing(c, path, memory, false, key, shape);
    case Append(item, memory) => AppendedKeepsListing(c, item, memory, key, shape);
    case Finish =>
    case Abort => AbortedKeepsListing(c, key, shape); AbortedKeepsRevision(c);
    case MarkUncacheable(path, memory) => StartedKeepsListing(c, path, memory, true, key, shape);
    case Invalidate(target) => InvalidatedKeepsInv(c, target);
    case Restart(psram) =>
    case Touch(path) => FoundKeepsListing(c, path, key, shape);
    case Update(path, name, change) => UpdatedKeepsListing(c, path, name, change, key, shape);
  }

  lemma AbortedKeepsRevision(c: Cache)
    ensures Aborted(c).revision == c.revision
  {
  }

  lemma StepKeepsOrder(c: Cache, e: Event)
    requires Inv(c)
    ensures Step(c, e).0.revision >= c.revision
  {
    hide Inv, Found, Allocate, Invalidated;
    match e
    case Begin(path, memory) =>
      InvalidatedKeepsInv(c, ExactPath(path));
      AllocateFacts(Invalidated(c, ExactPath(path)), PathBytes(path), memory);
    case Append(item, memory) => AllocateFacts(c, NodeBytes(Node(0, item)), memory);
    case Finish =>
    case Abort =>
    case MarkUncacheable(path, memory) =>
      InvalidatedKeepsInv(c, ExactPath(path));
      AllocateFacts(Invalidated(c, ExactPath(path)), PathBytes(path), memory);
    case Invalidate(target) => InvalidatedKeepsInv(c, target);
    case Restart(psram) =>
    case Touch(path) => FoundKeepsRevision(c, path);
    case Update(path, name, change) => FoundKeepsRevision(c, path);
  }

  lemma FoundKeepsRevision(c: Cache, path: string)
    ensures Found(c, path).0.revision == c.revision
  {
    hide FindAny;
  }

  /** A live address has one owner and one place in it. */
  lemma OwnerIs(list: seq<Snapshot>, k: nat, j: nat)
    requires ListOk(list) && k < |list| && j < |list[k].nodes|
    ensures Owner(list, list[k].nodes[j].address) == k && NodeIndex(list[k].nodes, list[k].nodes[j].address) == j
  {
    hide Owner, NodeIndex;
    var address := list[k].nodes[j].address;
    ListOkMember(list, k);
    var i := Owner(list, address);
    if i < k { ListOkAt(list, i, k); }
  }

  ghost predicate CursorOk(c: Cache, cursor: Cursor, key: string, shape: seq<Shape>, position: nat) {
    && cursor.isOpen && cursor.revision <= c.revision && position <= |shape|
    && cursor.next == (if position < |shape| then shape[position].address else 0)
    && (cursor.revision == c.revision ==> HasListing(c.snapshots, key, shape))
  }

  /** A current cursor never dangles: it reads the entry at its position, or is at the end. */
  lemma NextReadsInOrder(c: Cache, cursor: Cursor, key: string, shape: seq<Shape>, position: nat)
    requires Inv(c) && CursorOk(c, cursor, key, shape, position) && CursorCurrent(c, cursor)
    ensures position == |shape| <==> Next(c, cursor).Refused?
    ensures position < |shape| ==>
      && Next(c, cursor).Fetched?
      && Next(c, cursor).item.isDirectory == shape[position].isDirectory
      && Next(c, cursor).item.name == shape[position].name
      && CursorOk(c, cursor.(next := Next(c, cursor).next), key, shape, position + 1)
  {
    hide Owner, NodeIndex, Inv, HasListing, ListOk;
    var k := ListingAt(c.snapshots, key, shape);
    if position < |shape| {
      InvList(c);
      OwnerIs(c.snapshots, k, position);
      ListOkMember(c.snapshots, k);
    }
  }

  /** And what it reads there is current: the item the reference map holds at that place now, with
      the size and the stamp of the last update. */
  lemma NextReadsCurrent(c: Cache, r: Reference, cursor: Cursor, key: string, shape: seq<Shape>, position: nat)
    requires Inv(c) && Mirrors(c, r) && CursorOk(c, cursor, key, shape, position) && CursorCurrent(c, cursor)
    requires position < |shape|
    ensures Next(c, cursor).Fetched? && key in r.lists && |r.lists[key]| == |shape|
    ensures Next(c, cursor).item == r.lists[key][position]
  {
    hide Owner, NodeIndex, Inv, HasListing, ListOk, Fold;
    var k := ListingAt(c.snapshots, key, shape);
    AgreesAt(c, r, k);
    InvList(c);
    OwnerIs(c.snapshots, k, position);
    ListOkMember(c.snapshots, k);
    assert |Shapes(c.snapshots[k].nodes)| == |c.snapshots[k].nodes|;
  }

  datatype Activity = CacheEvent(event: Event) | NextEntry

  datatype Seen = Seen(isDirectory: bool, name: string)

  datatype Session = Session(cache: Cache, cursor: Cursor, seen: seq<Seen>, dangled: bool, ended: bool)

  function Act(s: Session, a: Activity): Session {
    match a
    case CacheEvent(e) => s.(cache := Step(s.cache, e).0)
    case NextEntry =>
      match Next(s.cache, s.cursor)
      case Refused => if CursorCurrent(s.cache, s.cursor) then s.(ended := true) else s
      case Dangling => s.(dangled := true)
      case Fetched(item, next) =>
        s.(cursor := s.cursor.(next := next), seen := s.seen + [Seen(item.isDirectory, item.name)])
  }

  function RunSession(s: Session, activities: seq<Activity>): Session {
    if activities == [] then s
    else Act(RunSession(s, activities[..|activities| - 1]), activities[|activities| - 1])
  }

  ghost predicate SessionMemory(s: Session, activities: seq<Activity>) {
    activities == []
    || (&& SessionMemory(s, activities[..|activities| - 1])
        && (activities[|activities| - 1].CacheEvent? ==>
            MemoryIsFree(RunSession(s, activities[..|activities| - 1]).cache, activities[|activities| - 1].event)))
  }

  function Names(shape: seq<Shape>): (names: seq<Seen>)
    ensures |names| == |shape|
  {
    seq(|shape|, i requires 0 <= i < |shape| => Seen(shape[i].isDirectory, shape[i].name))
  }

  ghost predicate SessionOk(s: Session, key: string, shape: seq<Shape>) {
    && Inv(s.cache) && !s.dangled && |s.seen| <= |shape|
    && CursorOk(s.cache, s.cursor, key, shape, |s.seen|)
    && s.seen == Names(shape)[..|s.seen|]
    && (s.ended ==> |s.seen| == |shape|)
  }

  lemma ActKeepsSession(s: Session, a: Activity, key: string, shape: seq<Shape>)
    requires SessionOk(s, key, shape)
    requires a.CacheEvent? ==> MemoryIsFree(s.cache, a.event)
    ensures SessionOk(Act(s, a), key, shape)
  {
    hide Inv, Step, HasListing, Next, MemoryIsFree;
    match a
    case CacheEvent(e) =>
      StepKeepsInv(s.cache, e);
      StepKeepsOrder(s.cache, e);
      if s.cursor.revision == s.cache.revision { StepKeepsListing(s.cache, e, key, shape); }
    case NextEntry =>
      if CursorCurrent(s.cache, s.cursor) {
        NextReadsInOrder(s.cache, s.cursor, key, shape, |s.seen|);
      } else {
        StaleIsRefused(s.cache, s.cursor);
      }
  }

  lemma StaleIsRefused(c: Cache, cursor: Cursor)
    requires !CursorCurrent(c, cursor)
    ensures Next(c, cursor) == Refused
  {
  }

  /** However appends, evictions, aborts, invalidations and updates interleave with it, a cursor never
      reads freed memory, and what it has returned is always the beginning of the listing it was
      opened on, each entry once and in append order; it ends only after the last entry. */
  lemma {:induction false} CursorEnumeratesOnce(s: Session, activities: seq<Activity>, key: string, shape: seq<Shape>)
    requires SessionOk(s, key, shape) && SessionMemory(s, activities)
    ensures SessionOk(RunSession(s, activities), key, shape)
    decreases |activities|
  {
    hide SessionOk, Act, MemoryIsFree;
    if activities == [] {
    } else {
      CursorEnumeratesOnce(s, activities[..|activities| - 1], key, shape);
      ActKeepsSession(RunSession(s, activities[..|activities| - 1]), activities[|activities| - 1], key, shape);
    }
  }

  /** So at any moment the next call reads the next entry of that listing; a cursor that is still current
      is refused exactly when all of them were read. */
  lemma NextCallReadsNextEntry(s: Session, activities: seq<Activity>, key: string, shape: seq<Shape>)
    requires SessionOk(s, key, shape) && SessionMemory(s, activities)
    ensures var t := RunSession(s, activities);
      var next := Next(t.cache, t.cursor);
      && |t.seen| <= |shape| && t.seen == Names(shape)[..|t.seen|]
      && !next.Dangling?
      && (next.Fetched? ==>
            && |t.seen| < |shape|
            && next.item.isDirectory == shape[|t.seen|].isDirectory && next.item.name == shape[|t.seen|].name)
      && (t.cursor.isOpen && t.cursor.revision == t.cache.revision ==> (next.Refused? <==> |t.seen| == |shape|))
  {
    hide Inv, Act, MemoryIsFree, CursorOk, RunSession, SessionMemory;
    CursorEnumeratesOnce(s, activities, key, shape);
    var t := RunSession(s, activities);
    if CursorCurrent(t.cache, t.cursor) {
      NextReadsInOrder(t.cache, t.cursor, key, shape, |t.seen|);
    }
  }

  /** The reference map beside a session. */
  ghost function ReferenceBeside(s: Session, r: Reference, activities: seq<Activity>): Reference {
    if activities == [] then r
    else
      var before, a := activities[..|activities| - 1], activities[|activities| - 1];
      var c, q := RunSession(s, before).cache, ReferenceBeside(s, r, before);
      if a.NextEntry? then q
      else ReferenceStep(Forget(q, EvictedBy(c, a.event)), a.event, Step(c, a.event).1)
  }

  lemma {:induction false} SessionMirrors(s: Session, r: Reference, activities: seq<Activity>, key: string, shape: seq<Shape>)
    requires SessionOk(s, key, shape) && SessionMemory(s, activities) && Mirrors(s.cache, r)
    ensures Mirrors(RunSession(s, activities).cache, ReferenceBeside(s, r, activities))
    decreases |activities|
  {
    hide SessionOk, MemoryIsFree, Mirrors, Step, ReferenceStep, EvictedBy, Next, Forget;
    if activities == [] {
    } else {
      var before, a := activities[..|activities| - 1], activities[|activities| - 1];
      SessionMirrors(s, r, before, key, shape);
      CursorEnumeratesOnce(s, before, key, shape);
      SessionInv(RunSession(s, before), key, shape);
      if a.CacheEvent? {
        StepRefinesReference(RunSession(s, before).cache, ReferenceBeside(s, r, before), a.event);
      }
    }
  }

  lemma SessionInv(s: Session, key: string, shape: seq<Shape>)
    requires SessionOk(s, key, shape)
    ensures Inv(s.cache) && CursorOk(s.cache, s.cursor, key, shape, |s.seen|)
  {
  }

  /** Whatever happened since the cursor was opened, updates in place included: what it reads next is
      the whole item the reference map holds at its place at that moment. */
  lemma FetchesAreCurrent(s: Session, r: Reference, activities: seq<Activity>, key: string, shape: seq<Shape>)
    requires SessionOk(s, key, shape) && SessionMemory(s, activities) && Mirrors(s.cache, r)
    ensures var t, q := RunSession(s, activities), ReferenceBeside(s, r, activities);
      Next(t.cache, t.cursor).Fetched? ==>
        && key in q.lists && |t.seen| < |q.lists[key]|
        && Next(t.cache, t.cursor).item == q.lists[key][|t.seen|]
  {
    hide SessionOk, Mirrors, RunSession, ReferenceBeside, Inv, Owner, HasListing;
    SessionMirrors(s, r, activities, key, shape);
    CursorEnumeratesOnce(s, activities, key, shape);
    var t, q := RunSession(s, activities), ReferenceBeside(s, r, activities);
    SessionInv(t, key, shape);
    if CursorCurrent(t.cache, t.cursor) {
      NextReadsInOrder(t.cache, t.cursor, key, shape, |t.seen|);
      if |t.seen| < |shape| {
        NextReadsCurrent(t.cache, q, t.cursor, key, shape, |t.seen|);
      }
    }
  }

  /** An event that neither drops a listing nor updates one of its entries leaves that entry as it is. */
  lemma StepKeepsEntry(c: Cache, r: Reference, e: Event, key: string, i: nat)
    requires Inv(c) && Mirrors(c, r) && key in r.lists && i < |r.lists[key]|
    requires !(e.Update? && Fold(e.path) == key && SameIgnoringCase(e.name, r.lists[key][i].name))
    ensures var q := ReferenceStep(Forget(r, EvictedBy(c, e)), e, Step(c, e).1);
      key in q.lists ==> i < |q.lists[key]| && q.lists[key][i] == r.lists[key][i]
  {
    hide Inv, Step, EvictedBy, Fold, InSubtree;
    if e.Finish? && r.draft.Some? {
      InvList(c);
      BuildingIsIndexed(c.snapshots, c.building);
      var k := IndexOf(c.snapshots, c.building);
      AgreesAt(c, r, k);
      BuildingNotServed(c, r, k);
    }
    if e.Update? {
      OthersKeep(r.lists[key], e.name, e.change, i);
    }
  }

  lemma OthersKeep(items: seq<Item>, name: string, change: Change, i: nat)
    requires i < |items|
    ensures |ChangedItems(items, name, change)| == |items|
    ensures !SameIgnoringCase(name, items[i].name) ==> ChangedItems(items, name, change)[i] == items[i]
  {
    hide Fold;
    FileOfIs(items, name);
  }

  lemma {:induction false} FileOfIs(items: seq<Item>, name: string)
    ensures FileOf(items, name) < |items| ==> IsFile(items[FileOf(items, name)], name)
  {
    hide Fold;
    if items == [] || IsFile(items[0], name) {
    } else {
      FileOfIs(items[1..], name);
    }
  }

  predicate UpdatesNoSuch(activities: seq<Activity>, key: string, name: string) {
    forall a :: a in activities && a.CacheEvent? && a.event.Update? ==>
      !(Fold(a.event.path) == key && SameIgnoringCase(a.event.name, name))
  }

  /** As long as the cursor is current, an entry nobody updates keeps its values. */
  lemma {:induction false} EntryStays(s: Session, r: Reference, activities: seq<Activity>, key: string, shape: seq<Shape>, i: nat)
    requires SessionOk(s, key, shape) && SessionMemory(s, activities) && Mirrors(s.cache, r)
    requires key in r.lists && i < |r.lists[key]| && UpdatesNoSuch(activities, key, r.lists[key][i].name)
    ensures var t, q := RunSession(s, activities), ReferenceBeside(s, r, activities);
      t.cursor.revision == t.cache.revision ==> key in q.lists && i < |q.lists[key]| && q.lists[key][i] == r.lists[key][i]
    decreases |activities|
  {
    hide SessionOk, Mirrors, Step, ReferenceStep, EvictedBy, Next, Forget, MemoryIsFree, Fold, Inv, SameIgnoringCase;
    if activities == [] {
    } else {
      var before, a := activities[..|activities| - 1], activities[|activities| - 1];
      EntryStays(s, r, before, key, shape, i);
      var t, q := RunSession(s, before), ReferenceBeside(s, r, before);
      CursorEnumeratesOnce(s, before, key, shape);
      CursorEnumeratesOnce(s, activities, key, shape);
      SessionMirrors(s, r, before, key, shape);
      SessionMirrors(s, r, activities, key, shape);
      SessionInv(t, key, shape);
      if a.CacheEvent? {
        assert a in activities;
        CurrentBefore(t, a.event, key, shape);
        if Act(t, a).cursor.revision == Act(t, a).cache.revision {
          StepKeepsEntry(t.cache, q, a.event, key, i);
          ListedKey(Act(t, a), ReferenceBeside(s, r, activities), key, shape);
        }
      }
    }
  }

  lemma CurrentBefore(t: Session, e: Event, key: string, shape: seq<Shape>)
    requires SessionOk(t, key, shape)
    ensures t.cursor.revision == Step(t.cache, e).0.revision ==> t.cursor.revision == t.cache.revision
  {
    hide Step, Inv, HasListing;
    StepKeepsOrder(t.cache, e);
  }

  lemma ListedKey(t: Session, r: Reference, key: string, shape: seq<Shape>)
    requires SessionOk(t, key, shape) && Mirrors(t.cache, r) && t.cursor.revision == t.cache.revision
    ensures key in r.lists
  {
    hide Inv, Items, Fold;
    var k := ListingAt(t.cache.snapshots, key, shape);
    AgreesAt(t.cache, r, k);
  }

  /** An accepted update is what a cursor reads at that entry from then on, until the next update of
      it: through every run of other events, next() on that place gives the new size or stamp. */
  lemma UpdateIsReadBack(s: Session, r: Reference, path: string, name: string, change: Change,
                         later: seq<Activity>, shape: seq<Shape>, i: nat)
    requires var u := CacheEvent(Update(path, name, change));
      && SessionOk(s, Fold(path), shape) && Mirrors(s.cache, r) && s.cursor.revision == s.cache.revision
      && SessionMemory(Act(s, u), later) && UpdatesNoSuch(later, Fold(path), name)
    requires Updated(s.cache, path, name, change).1
    requires Fold(path) in r.lists && IsTheFile(r.lists[Fold(path)], name, i)
    ensures var t := RunSession(Act(s, CacheEvent(Update(path, name, change))), later);
      Next(t.cache, t.cursor).Fetched? && |t.seen| == i ==>
        HasNewValue(r.lists[Fold(path)][i], Next(t.cache, t.cursor).item, change)
  {
    hide SessionOk, Mirrors, Next, Fold, Updated, IsTheFile, Owner, Inv;
    var u, key := CacheEvent(Update(path, name, change)), Fold(path);
    var s' := Act(s, u);
    SessionInv(s, key, shape);
    UpdateMeans(s.cache, r, path, name, change);
    var q := ReferenceStep(r, Update(path, name, change), true);
    UpdatedMirrors(s.cache, path, name, change, r);
    ActKeepsSession(s, u, key, shape);
    TheFileIs(r.lists[key], q.lists[key], name, change, i);
    SameNameNoUpdate(later, key, name, q.lists[key][i].name);
    var t, end := RunSession(s', later), ReferenceBeside(s', q, later);
    CursorEnumeratesOnce(s', later, key, shape);
    SessionInv(t, key, shape);
    FetchesAreCurrent(s', q, later, key, shape);
    EntryStays(s', q, later, key, shape, i);
    if t.cursor.revision != t.cache.revision {
      StaleIsRefused(t.cache, t.cursor);
    }
  }

  lemma TheFileIs(before: seq<Item>, after: seq<Item>, name: string, change: Change, i: nat)
    requires OnlyThatFileChanged(before, after, name, change) && IsTheFile(before, name, i)
    ensures i < |after| && HasNewValue(before[i], after[i], change) && SameIgnoringCase(after[i].name, name)
  {
  }

  lemma SameNameNoUpdate(activities: seq<Activity>, key: string, name: string, other: string)
    requires UpdatesNoSuch(activities, key, name) && SameIgnoringCase(other, name)
    ensures UpdatesNoSuch(activities, key, other)
  {
    hide Fold;
  }

  ghost predicate StartsSession(c: Cache, cursor: Cursor, key: string, items: seq<Item>) {
    exists shape :: SessionOk(Session(c, cursor, [], false, false), key, shape)
                    && |shape| == |items|
                    && forall i :: 0 <= i < |shape| ==> Names(shape)[i] == Seen(items[i].isDirectory, items[i].name)
  }

  /** Opening succeeds exactly for the paths the reference map holds, and starts such a session on
      the listing held there. */
  lemma OpenStartsSession(c: Cache, r: Reference, path: string)
    requires Inv(c) && Mirrors(c, r)
    ensures var (d, cursor) := OpenCursor(c, path);
      && (cursor.isOpen <==> Fold(path) in r.lists)
      && (cursor.isOpen ==> StartsSession(d, cursor, Fold(path), r.lists[Fold(path)]))
  {
    hide Inv, Found;
    FoundKeepsInv(c, path);
    FoundFacts(c, path, r);
    FoundMirrors(c, path, r);
    var (d, k) := Found(c, path);
    if k < |d.snapshots| {
      var nodes := d.snapshots[k].nodes;
      var shape := Shapes(nodes);
      AgreesAt(d, r, k);
      assert Listed(d.snapshots[k], Fold(path), shape);
      assert d.snapshots[k] in d.snapshots;
      assert HasListing(d.snapshots, Fold(path), shape);
      assert SessionOk(Session(d, OpenCursor(c, path).1, [], false, false), Fold(path), shape);
      assert forall i :: 0 <= i < |shape| ==> Items(nodes)[i] == nodes[i].item && shape[i] == ShapeOf(nodes[i]);
    }
  }

  // ----- The cache object -----

  /** equalNoCase: two strings walked together. */
  method EqualNoCase(left: string, right: string) returns (equal: bool)
    ensures equal == SameIgnoringCase(left, right)
  {
    SameIsPointwise(left, right);
    var i := 0;
    while i < |left| && i < |right|
      invariant 0 <= i <= |left| && i <= |right|
      invariant forall j :: 0 <= j < i ==> ToUpper(left[j]) == ToUpper(right[j])
    {
      if ToUpper(left[i]) != ToUpper(right[i]) {
        return false;
      }
      i := i + 1;
    }
    return i == |left| && i == |right|;
  }

  /** The letters of the root up to a position are those of the value. */
  predicate AgreeUpTo(value: string, root: string, index: nat) {
    index <= |root| && index <= |value| && forall j :: 0 <= j < index ==> ToUpper(value[j]) == ToUpper(root[j])
  }

  lemma SubtreeIsPointwise(value: string, root: string)
    ensures root == "/" ==> (InSubtree(value, root) <==> value != "" && value[0] == '/')
    ensures root != "/" ==> (InSubtree(value, root) <==>
              AgreeUpTo(value, root, |root|) && (|value| == |root| || value[|root|] == '/'))
  {
    hide SameIgnoringCase, ToUpper;
    if |root| <= |value| {
      SameIsPointwise(value[..|root|], root);
    }
  }

  method BelongsToSubtree(value: string, root: string) returns (belongs: bool)
    ensures belongs == InSubtree(value, root)
  {
    hide InSubtree, ToUpper;
    SubtreeIsPointwise(value, root);
    if root == "/" {
      return value != "" && value[0] == '/';
    }
    var index := 0;
    while index < |root| && index < |value|
      invariant AgreeUpTo(value, root, index)
    {
      if ToUpper(value[index]) != ToUpper(root[index]) {
        return false;
      }
      index := index + 1;
    }
    return index == |root| && (index == |value| || value[index] == '/');
  }

  class DirectoryCache {
    var snapshots: seq<Snapshot>
    var building: nat
    var bytesUsed: nat
    var revision: nat
    var useCounter: nat
    var enabled: bool

    function View(): Cache
      reads this
    {
      Cache(snapshots, building, bytesUsed, revision, useCounter, enabled)
    }

    constructor ()
      ensures View() == INITIAL
    {
      snapshots, building, bytesUsed, revision, useCounter, enabled := [], 0, 0, 1, 1, false;
    }

    method Release(bytes: nat)
      modifies this`bytesUsed
      ensures bytesUsed == Minus(old(bytesUsed), bytes)
    {
      bytesUsed := if bytes <= bytesUsed then bytesUsed - bytes else 0;
    }

    /** Releases every entry and then the snapshot itself; what is counted is what was allocated. */
    method FreeSnapshot(snapshot: Snapshot)
      requires SnapshotBytes(snapshot) <= bytesUsed
      modifies this`bytesUsed
      ensures bytesUsed == old(bytesUsed) - SnapshotBytes(snapshot)
    {
      var i := 0;
      while i < |snapshot.nodes|
        invariant 0 <= i <= |snapshot.nodes|
        invariant bytesUsed == old(bytesUsed) - NodesBytes(snapshot.nodes[..i])
      {
        NodesBytesPrefix(snapshot.nodes, i);
        Release(ENTRY_HEADER + |snapshot.nodes[i].item.name| + 1);
        i := i + 1;
      }
      assert snapshot.nodes[..i] == snapshot.nodes;
      Release(SNAPSHOT_HEADER + |snapshot.path| + 1);
    }

    method EvictOldest() returns (ok: bool)
      requires Inv(View())
      modifies this
      ensures (View(), ok) == Evict(old(View())) && Inv(View())
    {
      hide Inv, Bytes, SnapshotBytes, ListOk, RemoveAt;
      EvictKeepsInv(View());
      var victim := -1;
      var i := 0;
      while i < |snapshots|
        invariant 0 <= i <= |snapshots| && -1 <= victim < i
        invariant VictimFrom(snapshots, building, 0, -1) == VictimFrom(snapshots, building, i, victim)
      {
        if snapshots[i].address != building {
          if victim < 0 || snapshots[i].lastUse < snapshots[victim].lastUse {
            victim := i;
          }
        }
        i := i + 1;
      }
      if victim < 0 {
        return false;
      }
      BytesSplit(snapshots, victim);
      InvExact(View());
      var freed := snapshots[victim];
      snapshots := RemoveAt(snapshots, victim);
      FreeSnapshot(freed);
      revision := revision + 1;
      return true;
    }

    /** The loop that evicts until the request fits ends: every turn frees one snapshot. */
    method AllocateBytes(bytes: nat, memory: nat) returns (ok: bool)
      requires Inv(View())
      modifies this
      ensures (View(), ok) == Allocate(old(View()), bytes, memory)
    {
      hide Inv, Evict;
      if !enabled || bytes == 0 || bytes > MAXIMUM_BYTES {
        return false;
      }
      while bytesUsed > MAXIMUM_BYTES || bytes > MAXIMUM_BYTES - bytesUsed
        invariant Inv(View()) && enabled
        invariant MakeRoom(old(View()), bytes) == MakeRoom(View(), bytes)
        decreases |snapshots|
      {
        EvictFacts(View());
        var evicted := EvictOldest();
        if !evicted {
          return false;
        }
      }
      if memory != 0 {
        bytesUsed := bytesUsed + bytes;
      }
      return memory != 0;
    }

    method FindAnySnapshot(path: string) returns (k: nat)
      ensures k == FindAny(snapshots, path)
    {
      hide SameIgnoringCase;
      k := 0;
      while k < |snapshots|
        invariant 0 <= k <= |snapshots|
        invariant forall i :: 0 <= i < k ==> !Complete(snapshots[i], path)
      {
        if snapshots[k].complete {
          var same := EqualNoCase(snapshots[k].path, path);
          if same {
            break;
          }
        }
        k := k + 1;
      }
      FindAnyIs(snapshots, path, k);
    }

    method FindSnapshot(path: string) returns (k: nat)
      modifies this
      ensures (View(), k) == Found(old(View()), path)
    {
      hide FindAny;
      k := FindAnySnapshot(path);
      if !enabled || k == |snapshots| || snapshots[k].uncacheable {
        return |snapshots|;
      }
      useCounter := useCounter + 1;
      snapshots := snapshots[k := snapshots[k].(lastUse := useCounter)];
    }

    /** One element of the scan: unlink and free it when it is hit and not under construction. */
    method InvalidateAt(i: nat, target: Target) returns (removed: bool)
      requires i < |snapshots| && bytesUsed == Bytes(snapshots)
      modifies this`snapshots, this`bytesUsed
      ensures removed == (old(snapshots)[i].address != building && Hit(target, old(snapshots)[i].path))
      ensures snapshots == if removed then RemoveAt(old(snapshots), i) else old(snapshots)
      ensures bytesUsed == Bytes(snapshots)
    {
      hide Bytes, SnapshotBytes, SameIgnoringCase, InSubtree;
      var snapshot := snapshots[i];
      if snapshot.address == building {
        return false;
      }
      match target {
        case ExactPath(p) => removed := EqualNoCase(snapshot.path, p);
        case Subtree(root) => removed := BelongsToSubtree(snapshot.path, root);
      }
      if removed {
        BytesSplit(snapshots, i);
        snapshots := RemoveAt(snapshots, i);
        FreeSnapshot(snapshot);
      }
    }

    /** The loop of invalidate and of invalidateSubtree. */
    method InvalidateScan(target: Target) returns (changed: bool)
      requires bytesUsed == Bytes(snapshots)
      modifies this`snapshots, this`bytesUsed
      ensures snapshots == Kept(old(snapshots), building, target) && bytesUsed == Bytes(snapshots)
      ensures changed == (|snapshots| < |old(snapshots)|)
    {
      hide Bytes, Hit, Kept, RemoveAt, Scanned;
      ghost var all, seen := snapshots, 0;
      ScanStarts(all, building, target);
      var i := 0;
      changed := false;
      while i < |snapshots|
        invariant 0 <= i <= seen <= |all| && |snapshots| - i == |all| - seen
        invariant Scanned(snapshots, all, i, seen, building, target)
        invariant bytesUsed == Bytes(snapshots) && changed == (i < seen)
        decreases |all| - seen
      {
        ScanStep(snapshots, all, i, seen, building, target);
        var removed := InvalidateAt(i, target);
        if removed {
          changed := true;
        } else {
          i := i + 1;
        }
        seen := seen + 1;
      }
      ScanEnds(snapshots, all, i, seen, building, target);
    }

    method InvalidateTarget(target: Target)
      requires Inv(View())
      modifies this
      ensures View() == Invalidated(old(View()), target)
    {
      hide Inv, Bytes, Kept;
      InvExact(View());
      KeptSize(snapshots, building, target);
      var changed := InvalidateScan(target);
      if changed {
        revision := revision + 1;
      }
    }

    method StartSnapshot(path: string, memory: nat, uncacheable: bool) returns (ok: bool)
      requires Inv(View())
      modifies this
      ensures (View(), ok) == Started(old(View()), path, memory, uncacheable)
    {
      hide Inv, Invalidated, Allocate;
      if !enabled || path == "" || path[0] != '/' || building != 0 {
        return false;
      }
      InvalidatedKeepsInv(View(), ExactPath(path));
      InvalidateTarget(ExactPath(path));
      AllocateFacts(View(), PathBytes(path), memory);
      ok := AllocateBytes(SNAPSHOT_HEADER + |path| + 1, memory);
      if !ok {
        return;
      }
      useCounter := useCounter + 1;
      snapshots := [Snapshot(memory, path, [], useCounter, uncacheable, uncacheable)] + snapshots;
      if !uncacheable {
        building := memory;
      }
    }

    method AppendEntry(item: Item, memory: nat) returns (ok: bool)
      requires Inv(View())
      modifies this
      ensures (View(), ok) == Appended(old(View()), item, memory)
    {
      hide Inv, Allocate, IndexOf, BuildingOk;
      if building == 0 || item.name == "" || |item.name| > 255 {
        return false;
      }
      AllocateFacts(View(), NodeBytes(Node(0, item)), memory);
      ok := AllocateBytes(ENTRY_HEADER + |item.name| + 1, memory);
      if !ok {
        return;
      }
      InvList(View().(bytesUsed := Bytes(snapshots)));
      BuildingIsIndexed(snapshots, building);
      var k := IndexOf(snapshots, building);
      snapshots := snapshots[k := snapshots[k].(nodes := snapshots[k].nodes + [Node(memory, item)])];
    }

    method FinishSnapshot() returns (ok: bool)
      requires Inv(View())
      modifies this
      ensures (View(), ok) == Finished(old(View()))
    {
      hide Inv, IndexOf, BuildingOk;
      if building == 0 {
        return false;
      }
      InvList(View());
      BuildingIsIndexed(snapshots, building);
      var k := IndexOf(snapshots, building);
      snapshots := snapshots[k := snapshots[k].(complete := true)];
      building := 0;
      revision := revision + 1;
      return true;
    }

    /** Walks the list to the snapshot under construction and unlinks it. */
    method AbortSnapshot()
      requires Inv(View())
      modifies this
      ensures View() == Aborted(old(View()))
    {
      hide Inv, Bytes, SnapshotBytes, BuildingOk, IndexOf;
      if building == 0 {
        return;
      }
      InvList(View());
      InvExact(View());
      BuildingIsIndexed(snapshots, building);
      var k := 0;
      while k < |snapshots| && snapshots[k].address != building
        invariant 0 <= k <= IndexOf(snapshots, building)
        invariant forall i :: 0 <= i < k ==> snapshots[i].address != building
      {
        k := k + 1;
      }
      var discarded := snapshots[k];
      BytesSplit(snapshots, k);
      snapshots := snapshots[..k] + snapshots[k + 1..];
      building := 0;
      FreeSnapshot(discarded);
    }

    /** clear() and begin(): whatever the counter said, the memory of every snapshot is returned. */
    method BeginCache(psram: bool)
      requires Inv(View())
      modifies this
      ensures View() == Restarted(old(View()), psram)
    {
      hide Inv, Bytes, SnapshotBytes;
      InvExact(View());
      ghost var all := snapshots;
      var i := 0;
      while i < |snapshots|
        invariant 0 <= i <= |snapshots| && snapshots == all && bytesUsed == Bytes(all[i..])
        invariant revision == old(revision) && useCounter == old(useCounter)
      {
        assert all[i..] == [all[i]] + all[i + 1..];
        BytesOfConcat([all[i]], all[i + 1..]);
        BytesOfOne(all[i]);
        FreeSnapshot(snapshots[i]);
        i := i + 1;
      }
      assert all[i..] == [] && Bytes([]) == 0 by { NoBytes(); }
      snapshots := [];
      building := 0;
      bytesUsed := 0;
      enabled := psram;
      revision := revision + 1;
    }

    method Open(path: string) returns (cursor: Cursor)
      modifies this
      ensures (View(), cursor) == OpenCursor(old(View()), path)
    {
      hide Found;
      var k := FindSnapshot(path);
      if k >= |snapshots| {
        return Cursor(0, 0, false);
      }
      return Cursor(AddressAt(snapshots[k].nodes, 0), revision, true);
    }

    /** next(): the memory a current cursor points to is live, and is the entry at its position in
        the listing it was opened on; at the end and when the cursor is stale nothing is read. */
    method NextEntry(cursor: Cursor, ghost key: string, ghost shape: seq<Shape>, ghost position: nat)
      returns (ok: bool, view: Item, after: Cursor)
      requires Inv(View()) && CursorOk(View(), cursor, key, shape, position)
      ensures ok <==> cursor.revision == revision && position < |shape|
      ensures ok ==>
                && view.isDirectory == shape[position].isDirectory && view.name == shape[position].name
                && CursorOk(View(), after, key, shape, position + 1)
      ensures ok ==> forall r :: Mirrors(View(), r) ==>
                key in r.lists && position < |r.lists[key]| && view == r.lists[key][position]
      ensures !ok ==> after == cursor
    {
      hide Inv, HasListing, Owner, NodeIndex, ListOk, Mirrors;
      view, after := Item(false, "", 0, 0, 0), cursor;
      if CursorCurrent(View(), cursor) {
        NextReadsInOrder(View(), cursor, key, shape, position);
        forall r | Mirrors(View(), r) && position < |shape|
          ensures key in r.lists && |r.lists[key]| == |shape| && Next(View(), cursor).item == r.lists[key][position]
        {
          NextReadsCurrent(View(), r, cursor, key, shape, position);
        }
      }
      if !cursor.isOpen || cursor.revision != revision || cursor.next == 0 {
        return false, view, after;
      }
      var nodes := snapshots[Owner(snapshots, cursor.next)].nodes;
      var j := NodeIndex(nodes, cursor.next);
      return true, nodes[j].item, cursor.(next := AddressAt(nodes, j + 1));
    }

    method UpdateEntry(path: string, name: string, change: Change) returns (ok: bool)
      modifies this
      ensures (View(), ok) == Updated(old(View()), path, name, change)
    {
      hide Found, SameIgnoringCase;
      if change.NewStamp? && change.writeDate == 0 {
        return false;
      }
      var k := FindSnapshot(path);
      if k >= |snapshots| {
        return false;
      }
      var nodes := snapshots[k].nodes;
      var j := 0;
      while j < |nodes|
        invariant 0 <= j <= |nodes| && (View(), k) == Found(old(View()), path)
        invariant forall i :: 0 <= i < j ==> !IsFile(nodes[i].item, name)
      {
        if !nodes[j].item.isDirectory {
          var same := EqualNoCase(nodes[j].item.name, name);
          if same {
            break;
          }
        }
        j := j + 1;
      }
      FileInIs(nodes, name, j);
      if j < |nodes| {
        var changed := nodes[j := nodes[j].(item := Changed(nodes[j].item, change))];
        snapshots := snapshots[k := snapshots[k].(nodes := changed)];
        return true;
      }
      assert snapshots[k := snapshots[k].(nodes := nodes)] == snapshots;
      return false;
    }
  }

  lemma NodesBytesPrefix(nodes: seq<Node>, i: nat)
    requires i < |nodes|
    ensures NodesBytes(nodes[..i + 1]) == NodesBytes(nodes[..i]) + NodeBytes(nodes[i])
    ensures NodesBytes(nodes[..i + 1]) <= NodesBytes(nodes)
    decreases |nodes| - i
  {
    assert nodes[..i + 1][..i] == nodes[..i];
    if i + 1 < |nodes| {
      NodesBytesPrefix(nodes, i + 1);
    } else {
      assert nodes[..i + 1] == nodes;
    }
  }

  /** The list in the middle of a scan: what was kept so far, then what has not been looked at. */
  ghost predicate Scanned(list: seq<Snapshot>, all: seq<Snapshot>, i: nat, seen: nat, building: nat, target: Target) {
    && seen <= |all| && |list| == i + |all| - seen
    && list[..i] == Kept(all[..seen], building, target) && list[i..] == all[seen..]
  }

  lemma ScanStarts(all: seq<Snapshot>, building: nat, target: Target)
    ensures Scanned(all, all, 0, 0, building, target)
  {
  }

  lemma ScanStep(list: seq<Snapshot>, all: seq<Snapshot>, i: nat, seen: nat, building: nat, target: Target)
    requires Scanned(list, all, i, seen, building, target) && i < |list|
    ensures seen < |all| && |RemoveAt(list, i)| == |list| - 1
    ensures if list[i].address != building && Hit(target, list[i].path)
            then Scanned(RemoveAt(list, i), all, i, seen + 1, building, target)
            else Scanned(list, all, i + 1, seen + 1, building, target)
  {
    hide Hit;
    assert list[i] == list[i..][0] == all[seen..][0];
    assert all[..seen + 1][..seen] == all[..seen] && all[..seen + 1][seen] == all[seen];
    assert list[i + 1..] == list[i..][1..] == all[seen..][1..] == all[seen + 1..];
    if list[i].address != building && Hit(target, list[i].path) {
      assert RemoveAt(list, i)[..i] == list[..i] && RemoveAt(list, i)[i..] == list[i + 1..];
    } else {
      assert list[..i + 1] == list[..i] + [list[i]];
    }
  }

  lemma ScanEnds(list: seq<Snapshot>, all: seq<Snapshot>, i: nat, seen: nat, building: nat, target: Target)
    requires Scanned(list, all, i, seen, building, target) && i >= |list|
    ensures list == Kept(all, building, target)
  {
    assert all[..seen] == all && list[..i] == list;
  }

  lemma NoBytes()
    ensures Bytes([]) == 0
  {
  }

  lemma InvExact(c: Cache)
    requires Inv(c)
    ensures c.bytesUsed == Bytes(c.snapshots)
  {
  }

  lemma FindAnyIs(list: seq<Snapshot>, path: string, k: nat)
    requires k <= |list| && (k < |list| ==> Complete(list[k], path))
    requires forall i :: 0 <= i < k ==> !Complete(list[i], path)
    ensures k == FindAny(list, path)
  {
    hide FindAny;
  }

  lemma FileInIs(nodes: seq<Node>, name: string, k: nat)
    requires k <= |nodes| && (k < |nodes| ==> IsFile(nodes[k].item, name))
    requires forall i :: 0 <= i < k ==> !IsFile(nodes[i].item, name)
    ensures k == FileIn(nodes, name)
  {
    hide FileIn;
  }
}
