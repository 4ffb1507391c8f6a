/** The crash-safe copy of the configuration in flash (src/config_store.cpp): a new file is written
    beside the old one and moved into place by two renames. */
module ConfigStores {
  import opened Common
  import opened Checksums
  import ChecksumValues

  const MAX_INI_SIZE: nat := 1024
  const HEADER_SIZE: nat := 12
  const MAGIC_AND_VERSION: Bytes := [0x5A, 0x43, 0x46, 0x47, 1, 0]

  /** The three files: /zifi.cfg, /zifi.bak and /zifi.new. */
  datatype Files = Files(main: Option<Bytes>, backup: Option<Bytes>, staged: Option<Bytes>)

  // ----- The file format -----

  function Image(data: Bytes): Bytes
    requires |data| <= MAX_INI_SIZE
  {
    MAGIC_AND_VERSION + Le16(|data|) + Le32(Crc32(data)) + data
  }

  /** loadPath on the contents of one file. */
  function Parse(file: Bytes): Option<Bytes> {
    if |file| < HEADER_SIZE || file[..4] != MAGIC_AND_VERSION[..4] || ReadLe16(file[4], file[5]) != 1 then None
    else
      var length := ReadLe16(file[6], file[7]);
      if length > MAX_INI_SIZE || |file| != HEADER_SIZE + length then None
      else if Crc32(file[HEADER_SIZE..]) != ReadLe32(file[8..12]) then None
      else Some(file[HEADER_SIZE..])
  }

  function ParseFile(file: Option<Bytes>): Option<Bytes> {
    if file.Some? then Parse(file.value) else None
  }

  function LoadOld(f: Files): Option<Bytes> {
    if ParseFile(f.main).Some? then ParseFile(f.main) else ParseFile(f.backup)
  }

  /** What load() returns: the first of the three files that passes every check. */
  function Load(f: Files): Option<Bytes> {
    if LoadOld(f).Some? then LoadOld(f) else ParseFile(f.staged)
  }

  lemma ImageHeader(data: Bytes)
    requires |data| <= MAX_INI_SIZE
    ensures var file := Image(data);
      && |file| == HEADER_SIZE + |data| && file[..4] == MAGIC_AND_VERSION[..4]
      && ReadLe16(file[4], file[5]) == 1 && ReadLe16(file[6], file[7]) == |data|
      && ReadLe32(file[8..12]) == Crc32(data) && file[HEADER_SIZE..] == data
  {
    hide Crc32, ReadLe32, Le32;
    var file := Image(data);
    Le16RoundTrip(|data|);
    Le32RoundTrip(Crc32(data));
    OneInBytes();
    assert file[8..12] == Le32(Crc32(data));
    assert file[4] == 1 && file[5] == 0;
    assert file[6] == Le16(|data|)[0] && file[7] == Le16(|data|)[1];
  }

  lemma OneInBytes()
    ensures ReadLe16(1, 0) == 1
  {
  }

  lemma Le16IsInverse(low: bv8, high: bv8)
    ensures Le16(ReadLe16(low, high)) == [low, high]
  {
    ByteOfInt(low);
    ByteOfInt(high);
    SplitBytes(low as int, high as int);
  }

  lemma SplitBytes(low: int, high: int)
    requires 0 <= low < 256 && 0 <= high < 256
    ensures (low + 256 * high) % 256 == low && (low + 256 * high) / 256 == high
  {
  }

  lemma BytesOfOne()
    ensures Le16(1) == [1, 0]
  {
    OneInBytes();
    Le16IsInverse(1, 0);
  }

  /** A file passes the checks exactly when it is the image of what it holds, byte for byte. */
  lemma ParseIffImage(file: Bytes, data: Bytes)
    ensures Parse(file) == Some(data) <==> |data| <= MAX_INI_SIZE && file == Image(data)
  {
    hide Crc32, ReadLe32, Le32, ReadLe16, Le16;
    if |data| <= MAX_INI_SIZE && file == Image(data) {
      ImageHeader(data);
    }
    if Parse(file) == Some(data) {
      Le16IsInverse(file[4], file[5]);
      BytesOfOne();
      Le16IsInverse(file[6], file[7]);
      Le32RoundTrip(Crc32(data));
      ReadLe32IsInjective(file[8..12], Le32(Crc32(data)));
      assert file == file[..4] + file[4..6] + file[6..8] + file[8..12] + file[12..];
      assert MAGIC_AND_VERSION == MAGIC_AND_VERSION[..4] + [1, 0];
      assert file[4..6] == [file[4], file[5]] && file[6..8] == [file[6], file[7]];
    }
  }

  /** A write cut short anywhere leaves nothing that passes the checks. */
  lemma TornImageIsRejected(data: Bytes, n: nat)
    requires |data| <= MAX_INI_SIZE && n < |Image(data)|
    ensures Parse(Image(data)[..n]) == None
  {
    hide Crc32, ReadLe32, Le32, ReadLe16, Le16;
    ImageHeader(data);
    var torn := Image(data)[..n];
    if n >= HEADER_SIZE {
      assert torn[6] == Image(data)[6] && torn[7] == Image(data)[7];
    }
  }

  lemma ImageReplaced(data: Bytes, k: nat, b: bv8)
    requires |data| <= MAX_INI_SIZE && HEADER_SIZE <= k < |Image(data)|
    ensures Image(data)[k := b][HEADER_SIZE..] == data[k - HEADER_SIZE := b] && data[k - HEADER_SIZE] == Image(data)[k]
  {
    hide Crc32, Le32, Le16;
  }

  lemma HeaderReplaced(file: Bytes, k: nat, b: bv8)
    requires HEADER_SIZE <= |file| && k < |file|
    ensures k < HEADER_SIZE ==> file[k := b][HEADER_SIZE..] == file[HEADER_SIZE..]
  {
  }

  /** So does any single altered byte, in the header or in the text. */
  lemma OneAlteredByteIsRejected(data: Bytes, k: nat, b: bv8)
    requires |data| <= MAX_INI_SIZE && k < |Image(data)| && b != Image(data)[k]
    ensures Parse(Image(data)[k := b]) == None
  {
    hide Crc32, Image, Parse;
    var file := Image(data)[k := b];
    ImageHeader(data);
    if Parse(file).Some? {
      var other := Parse(file).value;
      ParseIffImage(file, other);
      ImageHeader(other);
      HeaderReplaced(Image(data), k, b);
      if HEADER_SIZE <= k {
        ImageReplaced(data, k, b);
        assert file[8..12] == Image(data)[8..12];
        CrcOfAltered(data, k - HEADER_SIZE, b);
      }
    }
  }

  lemma CrcOfAltered(data: Bytes, k: nat, b: bv8)
    requires k < |data| && data[k] != b
    ensures Crc32(data) != Crc32(data[k := b])
  {
    Crc32DetectsOneByte(0xFFFFFFFF, data, k, b);
    ComplementIsInjective(Crc32From(0xFFFFFFFF, data), Crc32From(0xFFFFFFFF, data[k := b]));
  }

  lemma ComplementIsInjective(a: bv32, b: bv32)
    requires a != b
    ensures !a != !b
  {
  }

  // ----- Every file system state of one save -----

  /** How each file operation of a save ends; written is how many bytes of the image get out. */
  datatype Outcomes = Outcomes(
    removeStaged: bool, opens: bool, written: nat, removeTorn: bool, removeBackup: bool, renameOld: bool,
    removeUncommitted: bool, renameNew: bool, renameBack: bool, removeOldBackup: bool)

  function Removed(file: Option<Bytes>, ok: bool): Option<Bytes> {
    if ok then None else file
  }

  /** While the new file is being written a reset may leave any prefix of it. */
  function Torn(f: Files, image: Bytes, n: nat): seq<Files>
    requires n <= |image|
  {
    if n == 0 then [f.(staged := Some(image[..0]))] else Torn(f, image, n - 1) + [f.(staged := Some(image[..n]))]
  }

  function Written(image: Bytes, o: Outcomes): (n: nat)
    ensures n <= |image|
  {
    if o.written < |image| then o.written else |image|
  }

  function Unstaged(f: Files, o: Outcomes): Files {
    f.(staged := Removed(f.staged, o.removeStaged))
  }

  /** The states after the new file is complete: the backup goes, the old file becomes the backup,
      the new one becomes the main file, the backup goes again. */
  function CommitTrace(f: Files, o: Outcomes): (seq<Files>, bool) {
    var f1 := f.(backup := Removed(f.backup, o.removeBackup));
    if f1.main.None? then
      if !o.renameNew then ([f1], false)
      else
        var f3 := Files(f1.staged, f1.backup, None);
        ([f1, f3, f3.(backup := Removed(f3.backup, o.removeOldBackup))], true)
    else if !o.renameOld then ([f1, f1.(staged := Removed(f1.staged, o.removeUncommitted))], false)
    else
      var f2 := Files(None, f1.main, f1.staged);
      if o.renameNew then
        var f3 := Files(f2.staged, f2.backup, None);
        ([f1, f2, f3, f3.(backup := Removed(f3.backup, o.removeOldBackup))], true)
      else if o.renameBack then ([f1, f2, Files(f2.backup, None, f2.staged)], false)
      else ([f1, f2], false)
  }

  function StageTrace(f: Files, image: Bytes, o: Outcomes): seq<Files> {
    [Unstaged(f, o)] + (if o.opens then Torn(Unstaged(f, o), image, Written(image, o)) else [])
  }

  /** Every state writeNewFile can be interrupted in, in order, and its answer. */
  function WriteTrace(f: Files, data: Bytes, o: Outcomes): (seq<Files>, bool)
    requires |data| <= MAX_INI_SIZE
  {
    var image := Image(data);
    var staged := Unstaged(f, o).(staged := Some(image[..Written(image, o)]));
    if !o.opens then (StageTrace(f, image, o), false)
    else if Written(image, o) < |image| then
      (StageTrace(f, image, o) + [staged.(staged := Removed(staged.staged, o.removeTorn))], false)
    else (StageTrace(f, image, o) + CommitTrace(staged, o).0, CommitTrace(staged, o).1)
  }

  predicate Complete(data: Bytes, o: Outcomes)
    requires |data| <= MAX_INI_SIZE
  {
    o.opens && o.written >= |Image(data)|
  }

  /** The interruption shows the previous image or the complete new one. */
  predicate Safe(f: Files, before: Option<Bytes>, data: Bytes) {
    Load(f) == before || Load(f) == Some(data)
  }

  ghost predicate AllSafe(trace: seq<Files>, before: Option<Bytes>, data: Bytes) {
    forall i :: 0 <= i < |trace| ==> Safe(trace[i], before, data)
  }

  /** What load() would return does not come from the file the save removes first. */
  predicate NotFromStaged(f: Files) {
    LoadOld(f).Some? || ParseFile(f.staged).None?
  }

  lemma StagedDoesNotMatter(f: Files, staged: Option<Bytes>)
    requires LoadOld(f).Some?
    ensures Load(f.(staged := staged)) == Load(f)
  {
    hide Parse;
  }

  lemma ParseImage(data: Bytes)
    requires |data| <= MAX_INI_SIZE
    ensures Parse(Image(data)) == Some(data)
  {
    hide Parse, Image;
    ParseIffImage(Image(data), data);
  }

  lemma StagedIsSafe(f: Files, data: Bytes, n: nat)
    requires |data| <= MAX_INI_SIZE && n <= |Image(data)| && (LoadOld(f).Some? || Load(f).None?)
    ensures Safe(f.(staged := Some(Image(data)[..n])), Load(f), data)
  {
    hide Parse, Image;
    if LoadOld(f).Some? {
      StagedDoesNotMatter(f, Some(Image(data)[..n]));
    } else if n < |Image(data)| {
      TornImageIsRejected(data, n);
    } else {
      assert Image(data)[..n] == Image(data);
      ParseImage(data);
    }
  }

  lemma {:induction false} TornIsSafe(f: Files, data: Bytes, n: nat)
    requires |data| <= MAX_INI_SIZE && n <= |Image(data)| && NotFromStaged(f)
    ensures AllSafe(Torn(f, Image(data), n), Load(f), data)
    decreases n
  {
    hide Parse, Image, Safe;
    StagedIsSafe(f, data, n);
    if n == 0 {
    } else {
      TornIsSafe(f, data, n - 1);
    }
  }

  lemma UnstagedLoads(f: Files, o: Outcomes)
    requires NotFromStaged(f)
    ensures Load(Unstaged(f, o)) == Load(f) && NotFromStaged(Unstaged(f, o)) && LoadOld(Unstaged(f, o)) == LoadOld(f)
  {
    hide Parse;
  }

  /** The one way to lose everything: the only good image is the backup, the file in the main place
      is damaged, and it cannot be renamed away after the backup has gone. */
  predicate Loses(f: Files, data: Bytes, o: Outcomes)
    requires |data| <= MAX_INI_SIZE
  {
    && Complete(data, o) && f.main.Some? && ParseFile(f.main).None? && ParseFile(f.backup).Some?
    && o.removeBackup && !o.renameOld && o.removeUncommitted
  }

  lemma CommitIsSafe(f: Files, before: Option<Bytes>, data: Bytes, o: Outcomes)
    requires |data| <= MAX_INI_SIZE && f.staged == Some(Image(data)) && before == LoadOld(f)
    requires Complete(data, o)
    ensures AllSafe(CommitTrace(f, o).0, before, data) <==> !Loses(f, data, o)
    ensures CommitTrace(f, o).1 ==> Load(CommitTrace(f, o).0[|CommitTrace(f, o).0| - 1]) == Some(data)
  {
    hide Parse, Image;
    ParseImage(data);
    if Loses(f, data, o) {
      assert !Safe(CommitTrace(f, o).0[1], before, data);
    }
  }

  lemma AllSafeConcat(a: seq<Files>, b: seq<Files>, before: Option<Bytes>, data: Bytes)
    ensures AllSafe(a + b, before, data) <==> AllSafe(a, before, data) && AllSafe(b, before, data)
  {
    hide Safe;
    var ab := a + b;
    if AllSafe(ab, before, data) {
      forall i | 0 <= i < |a| ensures Safe(a[i], before, data) { assert ab[i] == a[i]; }
      forall i | 0 <= i < |b| ensures Safe(b[i], before, data) { assert ab[|a| + i] == b[i]; }
    }
  }

  lemma StageIsSafe(f: Files, data: Bytes, o: Outcomes)
    requires |data| <= MAX_INI_SIZE && NotFromStaged(f)
    ensures AllSafe(StageTrace(f, Image(data), o), Load(f), data)
  {
    hide Parse, Image;
    UnstagedLoads(f, o);
    TornIsSafe(Unstaged(f, o), data, Written(Image(data), o));
  }

  /** Power loss after any step, whatever operations fail, leaves load() with the previous image or
      the complete new one, never a torn one and never nothing, except in the one losing case. */
  lemma SaveIsSafeUnlessItLoses(f: Files, data: Bytes, o: Outcomes)
    requires |data| <= MAX_INI_SIZE && NotFromStaged(f)
    ensures AllSafe(WriteTrace(f, data, o).0, Load(f), data) <==> !Loses(f, data, o)
  {
    hide Parse, Image, CommitTrace, StageTrace, Safe;
    StageIsSafe(f, data, o);
    UnstagedLoads(f, o);
    var image := Image(data);
    var staged := Unstaged(f, o).(staged := Some(image[..Written(image, o)]));
    if o.opens {
      if Written(image, o) < |image| {
        AllSafeConcat(StageTrace(f, image, o), [staged.(staged := Removed(staged.staged, o.removeTorn))], Load(f), data);
        RemovedTornIsSafe(f, data, o);
      } else {
        assert image[..Written(image, o)] == image;
        AllSafeConcat(StageTrace(f, image, o), CommitTrace(staged, o).0, Load(f), data);
        if LoadOld(f).Some? || LoadOld(staged) == Load(f) { CommitIsSafe(staged, Load(f), data, o); }
      }
    }
  }

  /** It happens: a damaged main file, the last good text in the backup, and a rename that fails. */
  lemma LosingSave(kept: Bytes, data: Bytes)
    requires |kept| <= MAX_INI_SIZE && |data| <= MAX_INI_SIZE
    ensures var f := Damaged(kept); var o := RenameFails(data);
      && Load(f) == Some(kept) && NotFromStaged(f) && Loses(f, data, o)
      && WriteTrace(f, data, o).0 != [] && Load(Final(WriteTrace(f, data, o).0)) == None
  {
    hide Image, Torn;
    ParseImage(kept);
    var f, o, image := Damaged(kept), RenameFails(data), Image(data);
    var staged := Unstaged(f, o).(staged := Some(image[..Written(image, o)]));
    assert image[..Written(image, o)] == image;
    assert CommitTrace(staged, o).0[1] == Files(Some([]), None, None);
    assert Final(WriteTrace(f, data, o).0) == Final(CommitTrace(staged, o).0);
  }

  function Damaged(kept: Bytes): Files
    requires |kept| <= MAX_INI_SIZE
  {
    Files(Some([]), Some(Image(kept)), None)
  }

  function RenameFails(data: Bytes): Outcomes
    requires |data| <= MAX_INI_SIZE
  {
    Outcomes(true, true, |Image(data)|, true, true, false, true, true, true, true)
  }

  lemma RemovedTornIsSafe(f: Files, data: Bytes, o: Outcomes)
    requires |data| <= MAX_INI_SIZE && NotFromStaged(f) && Written(Image(data), o) < |Image(data)|
    ensures Safe(Unstaged(f, o).(staged := Removed(Some(Image(data)[..Written(Image(data), o)]), o.removeTorn)), Load(f), data)
  {
    hide Parse, Image;
    UnstagedLoads(f, o);
    StagedIsSafe(Unstaged(f, o), data, Written(Image(data), o));
  }

  predicate AllSucceed(data: Bytes, o: Outcomes)
    requires |data| <= MAX_INI_SIZE
  {
    Complete(data, o) && o.removeStaged && o.removeBackup && o.renameOld && o.renameNew && o.removeOldBackup
  }

  /** With working flash a save is safe against power loss exactly when the image to keep is not in
      the file its first step removes. */
  lemma PowerLossIsSafeIff(f: Files, data: Bytes, o: Outcomes)
    requires |data| <= MAX_INI_SIZE && AllSucceed(data, o)
    ensures AllSafe(WriteTrace(f, data, o).0, Load(f), data) <==> NotFromStaged(f)
  {
    hide Parse, Image, CommitTrace;
    if NotFromStaged(f) {
      SaveIsSafeUnlessItLoses(f, data, o);
    } else {
      assert WriteTrace(f, data, o).0[0] == Unstaged(f, o);
      assert !Safe(Unstaged(f, o), Load(f), data);
    }
  }

  function Final(trace: seq<Files>): Files
    requires trace != []
  {
    trace[|trace| - 1]
  }

  lemma TraceIsNotEmpty(f: Files, data: Bytes, o: Outcomes)
    requires |data| <= MAX_INI_SIZE
    ensures WriteTrace(f, data, o).0 != []
  {
    hide Torn, CommitTrace, Image;
  }

  /** A save that answers success always loads as the new image, from any state of the files. */
  lemma FinishedSaveLoads(f: Files, data: Bytes, o: Outcomes)
    requires |data| <= MAX_INI_SIZE && WriteTrace(f, data, o).1
    ensures WriteTrace(f, data, o).0 != [] && Load(Final(WriteTrace(f, data, o).0)) == Some(data)
  {
    hide Parse, Image, StageTrace, Loses;
    var image := Image(data);
    var staged := Unstaged(f, o).(staged := Some(image[..Written(image, o)]));
    assert image[..|image|] == image;
    CommitIsSafe(staged, LoadOld(staged), data, o);
    assert Final(WriteTrace(f, data, o).0) == Final(CommitTrace(staged, o).0);
  }

  /** The files a save ends with, and its answer. Success leaves the new image alone in the main place,
      with the old one behind it only if it could not be removed. A failure before the old file was
      moved leaves main and backup as they were, up to the backup removed; one after it puts the old
      file back in the main place, if that can be done, and keeps it as the backup otherwise. */
  lemma SaveLeaves(f: Files, data: Bytes, o: Outcomes)
    requires |data| <= MAX_INI_SIZE
    ensures var (trace, ok) := WriteTrace(f, data, o);
      var image, end := Image(data), Final(trace);
      var spared := if o.removeBackup then None else f.backup;
      var staged := if o.removeStaged then None else f.staged;
      && trace != []
      && (ok <==> o.opens && |image| <= o.written && (f.main.Some? ==> o.renameOld) && o.renameNew)
      && (ok ==> end == Files(Some(image), if o.removeOldBackup then None else if f.main.Some? then f.main else spared, None))
      && (!o.opens ==> end == f.(staged := staged))
      && (o.opens && o.written < |image| ==>
            end == f.(staged := if o.removeTorn then None else Some(image[..o.written])))
      && (o.opens && |image| <= o.written && f.main.Some? && !o.renameOld ==>
            end == Files(f.main, spared, if o.removeUncommitted then None else Some(image)))
      && (o.opens && |image| <= o.written && f.main.Some? && o.renameOld && !o.renameNew ==>
            end == if o.renameBack then Files(f.main, None, Some(image)) else Files(None, f.main, Some(image)))
      && (o.opens && |image| <= o.written && f.main.None? && !o.renameNew ==> end == Files(None, spared, Some(image)))
  {
    hide Image, Torn;
    var image := Image(data);
    TraceIsNotEmpty(f, data, o);
    if o.opens && |image| <= o.written {
      assert image[..Written(image, o)] == image;
      var staged := Unstaged(f, o).(staged := Some(image));
      assert Final(WriteTrace(f, data, o).0) == Final(CommitTrace(staged, o).0);
    } else if o.opens {
      var torn := Unstaged(f, o).(staged := Some(image[..Written(image, o)]));
      assert Final(WriteTrace(f, data, o).0) == torn.(staged := Removed(torn.staged, o.removeTorn));
    }
  }

  // ----- Several saves, with power losses in between -----

  /** One save on working flash, and the state it is interrupted in; past the end it is finished. */
  datatype Attempt = Attempt(data: Bytes, outcomes: Outcomes, stop: nat)

  predicate Works(a: Attempt) {
    |a.data| <= MAX_INI_SIZE && AllSucceed(a.data, a.outcomes)
  }

  predicate Interrupted(f: Files, a: Attempt)
    requires Works(a)
  {
    a.stop + 1 < |WriteTrace(f, a.data, a.outcomes).0|
  }

  function After(f: Files, a: Attempt): Files
    requires Works(a)
  {
    var trace := WriteTrace(f, a.data, a.outcomes).0;
    TraceIsNotEmpty(f, a.data, a.outcomes);
    if a.stop < |trace| then trace[a.stop] else Final(trace)
  }

  /** How many interrupted saves in a row the files survive: two if the main file is good, one if
      what load() returns is not from the staged file, else none. */
  function Margin(f: Files): nat {
    if ParseFile(f.main).Some? then 2 else if NotFromStaged(f) then 1 else 0
  }

  /** Every state a save leaves shows what was there before it or what it saved. */
  predicate RunIsSafe(f: Files, attempts: seq<Attempt>)
    requires forall i :: 0 <= i < |attempts| ==> Works(attempts[i])
    decreases |attempts|
  {
    attempts != [] ==>
      && Safe(After(f, attempts[0]), Load(f), attempts[0].data)
      && RunIsSafe(After(f, attempts[0]), attempts[1..])
  }

  /** No more saves are interrupted in a row than there is margin; a finished save restores it. */
  predicate WithinMargin(f: Files, attempts: seq<Attempt>, margin: nat)
    requires forall i :: 0 <= i < |attempts| ==> Works(attempts[i])
    decreases |attempts|
  {
    attempts != [] ==>
      if Interrupted(f, attempts[0]) then 0 < margin && WithinMargin(After(f, attempts[0]), attempts[1..], margin - 1)
      else WithinMargin(After(f, attempts[0]), attempts[1..], 2)
  }

  /** The four kinds of state a save on working flash goes through. */
  predicate OnTheWay(f: Files, image: Bytes, g: Files) {
    || (g.main == f.main && g.backup == f.backup)
    || (g.main == f.main && g.backup == None && g.staged == Some(image))
    || (f.main.Some? && g == Files(None, f.main, Some(image)))
    || g.main == Some(image)
  }

  lemma {:induction false} TornKeepsOthers(f: Files, image: Bytes, n: nat)
    requires n <= |image|
    ensures |Torn(f, image, n)| == n + 1
    ensures forall g :: g in Torn(f, image, n) ==> g.main == f.main && g.backup == f.backup
  {
    if n == 0 {
    } else {
      TornKeepsOthers(f, image, n - 1);
    }
  }

  lemma TraceOf(f: Files, a: Attempt)
    requires Works(a)
    ensures var image, trace := Image(a.data), WriteTrace(f, a.data, a.outcomes).0;
      && |trace| >= |image| + 5 && Final(trace).main == Some(image)
      && trace[0] == f.(staged := None) && trace[|image| + 2] == Files(f.main, None, Some(image))
      && (f.main.Some? ==> |trace| >= |image| + 6 && trace[|image| + 3] == Files(None, f.main, Some(image)))
      && forall g :: g in trace ==> OnTheWay(f, image, g)
  {
    hide Image;
    var image, o := Image(a.data), a.outcomes;
    TornKeepsOthers(Unstaged(f, o), image, |image|);
    var staged := Unstaged(f, o).(staged := Some(image[..Written(image, o)]));
    assert image[..|image|] == image;
    var stage, commit := StageTrace(f, image, o), CommitTrace(staged, o).0;
    assert |stage| == |image| + 2;
    var trace := WriteTrace(f, a.data, o).0;
    assert trace == stage + commit;
    assert forall g :: g in stage ==> OnTheWay(f, image, g);
    assert forall g :: g in commit ==> OnTheWay(f, image, g);
    assert trace[|image| + 2] == commit[0];
  }

  /** An interrupted save costs at most one of the margin, and shows the old image or the new one as
      long as there is any; a finished save leaves a good main file. */
  lemma MarginAfter(f: Files, a: Attempt)
    requires Works(a)
    ensures Margin(f) <= Margin(After(f, a)) + 1
    ensures !Interrupted(f, a) ==> Margin(After(f, a)) == 2 && Safe(After(f, a), Load(f), a.data)
    ensures 0 < Margin(f) ==> Safe(After(f, a), Load(f), a.data)
  {
    hide Parse, Image, WriteTrace;
    TraceOf(f, a);
    ParseImage(a.data);
    var trace := WriteTrace(f, a.data, a.outcomes).0;
    var g := After(f, a);
    assert g in trace;
    if !Interrupted(f, a) {
      assert g == Final(trace);
    }
    if 0 < Margin(f) {
      PowerLossIsSafeIff(f, a.data, a.outcomes);
    }
  }

  /** Over any run of saves on working flash, each finished or cut off by a power loss anywhere, load()
      always has the image it had or the one being saved, if no more saves in a row are cut off than
      the margin of the files at the start allows. */
  lemma {:induction false} RunsAreSafe(f: Files, attempts: seq<Attempt>, margin: nat)
    requires forall i :: 0 <= i < |attempts| ==> Works(attempts[i])
    requires margin <= Margin(f) && WithinMargin(f, attempts, margin)
    ensures RunIsSafe(f, attempts)
    decreases |attempts|
  {
    hide After, Interrupted, Margin, Safe, Works;
    if attempts == [] {
    } else {
      MarginAfter(f, attempts[0]);
      RunsAreSafe(After(f, attempts[0]), attempts[1..], if Interrupted(f, attempts[0]) then margin - 1 else 2);
    }
  }

  /** A save that changes something: load() returns no text of that length. */
  predicate Changes(f: Files, a: Attempt) {
    a.data != [] && (Load(f).None? || |Load(f).value| != |a.data|)
  }

  predicate AllCutOff(f: Files, attempts: seq<Attempt>)
    requires forall i :: 0 <= i < |attempts| ==> Works(attempts[i])
    decreases |attempts|
  {
    attempts != [] ==>
      && Interrupted(f, attempts[0]) && Changes(f, attempts[0])
      && AllCutOff(After(f, attempts[0]), attempts[1..])
  }

  /** And no more than that: from every state of the files, one save more cut off at the wrong moments
      leaves load() with neither image. Between two reboots load() repairs nothing, so three power
      losses in a row lose the configuration although the main file was good. */
  lemma {:induction false} MarginIsExact(f: Files, x: Bytes, y: Bytes) returns (attempts: seq<Attempt>)
    requires 0 < |x| <= MAX_INI_SIZE && 0 < |y| <= MAX_INI_SIZE && |x| != |y|
    ensures |attempts| == Margin(f) + 1
    ensures forall i :: 0 <= i < |attempts| ==> Works(attempts[i])
    ensures AllCutOff(f, attempts) && !RunIsSafe(f, attempts)
    decreases Margin(f)
  {
    hide Parse, Image, WriteTrace, Safe;
    var data := if Load(f).Some? && |Load(f).value| == |x| then y else x;
    var length := |Image(data)|;
    var outcomes := Outcomes(true, true, length, true, true, true, true, true, true, true);
    var a := Attempt(data, outcomes, if Margin(f) == 0 then 0 else length + 1 + Margin(f));
    TraceOf(f, a);
    ParseImage(data);
    var g := After(f, a);
    if Margin(f) == 0 {
      assert Load(g) == None;
      NeitherIsUnsafe(g, Load(f), data);
      attempts := [a];
    } else {
      assert Margin(g) == Margin(f) - 1;
      var rest := MarginIsExact(g, x, y);
      attempts := [a] + rest;
      assert attempts[1..] == rest;
    }
  }

  lemma NeitherIsUnsafe(f: Files, before: Option<Bytes>, data: Bytes)
    requires Load(f) == None && before.Some?
    ensures !Safe(f, before, data)
  {
  }

  // ----- The remembered checksum -----

  datatype Store = Store(available: bool, valid: bool, checksum: bv32, length: nat)

  datatype SaveResult = Unchanged | Stored | Failed

  /** The remembered pair describes the image load() would return. */
  predicate Agrees(s: Store, f: Files) {
    s.valid ==> Load(f).Some? && Crc32(Load(f).value) == s.checksum && |Load(f).value| == s.length
  }

  predicate SameAsStored(s: Store, data: Bytes) {
    s.valid && s.checksum == Crc32(data) && s.length == |data|
  }

  predicate Acceptable(s: Store, data: Bytes) {
    s.available && 0 < |data| <= MAX_INI_SIZE
  }

  /** saveIfChanged: the answer, the remembered pair and the states of the files. */
  function Save(s: Store, f: Files, data: Bytes, mounts: bool, o: Outcomes): (SaveResult, Store, seq<Files>) {
    if !Acceptable(s, data) then (Failed, s, [])
    else if SameAsStored(s, data) then (Unchanged, s, [])
    else if !mounts then (Failed, s, [])
    else
      var (trace, ok) := WriteTrace(f, data, o);
      if ok then (Stored, s.(valid := true, checksum := Crc32(data), length := |data|), trace) else (Failed, s, trace)
  }

  /** A failed save changes what load() returns exactly when the kept image was only in the backup
      and the backup was removed, or replaced by a damaged main file, before the failure. */
  predicate FailureShows(f: Files, data: Bytes, o: Outcomes)
    requires |data| <= MAX_INI_SIZE
  {
    && Complete(data, o) && ParseFile(f.main).None?
    && (o.removeBackup || (f.main.Some? && o.renameOld))
  }

  lemma FailedSaveShowsIff(f: Files, data: Bytes, o: Outcomes)
    requires |data| <= MAX_INI_SIZE && LoadOld(f).Some? && LoadOld(f) != Some(data) && !WriteTrace(f, data, o).1
    ensures WriteTrace(f, data, o).0 != []
    ensures Load(Final(WriteTrace(f, data, o).0)) == Load(f) <==> !FailureShows(f, data, o)
  {
    hide Parse, Image, Torn;
    var image := Image(data);
    ParseImage(data);
    UnstagedLoads(f, o);
    var staged := Unstaged(f, o).(staged := Some(image[..Written(image, o)]));
    StagedDoesNotMatter(f, staged.staged);
    StagedDoesNotMatter(f, Removed(staged.staged, o.removeTorn));
    if Complete(data, o) {
      assert image[..Written(image, o)] == image;
      assert Final(WriteTrace(f, data, o).0) == Final(CommitTrace(staged, o).0);
    }
  }

  /** After every save the remembered pair still describes the flash, except after a failure that
      shows: then a later save of the old text is answered "unchanged" although it is not there. */
  lemma SaveKeepsAgreementIff(s: Store, f: Files, data: Bytes, mounts: bool, o: Outcomes)
    requires Agrees(s, f) && s.valid && LoadOld(f).Some?
    ensures var (result, after, trace) := Save(s, f, data, mounts, o);
      && (result != Failed ==> Agrees(after, if trace == [] then f else Final(trace)))
      && (result == Failed ==>
          (Agrees(after, if trace == [] then f else Final(trace))
           <==> !(Acceptable(s, data) && mounts && FailureShows(f, data, o))))
  {
    hide Crc32, Parse, WriteTrace, FailureShows;
    if Acceptable(s, data) && !SameAsStored(s, data) && mounts {
      TraceIsNotEmpty(f, data, o);
      if WriteTrace(f, data, o).1 {
        FinishedSaveLoads(f, data, o);
      } else {
        FailedSaveShowsIff(f, data, o);
        FailureShowsNewOrNothing(f, data, o);
      }
    }
  }

  /** It happens, in that very case: saving the kept text again is then answered "unchanged",
      although no file holds it any more. */
  lemma UnchangedAlthoughLost(kept: Bytes, data: Bytes)
    requires 0 < |kept| <= MAX_INI_SIZE && 0 < |data| <= MAX_INI_SIZE && |kept| != |data|
    ensures var f, s := Damaged(kept), Store(true, true, Crc32(kept), |kept|);
      var (result, after, trace) := Save(s, f, data, true, RenameFails(data));
      && Agrees(s, f) && FailureShows(f, data, RenameFails(data)) && result == Failed && trace != []
      && Load(Final(trace)) == None && !Agrees(after, Final(trace))
      && forall mounts, o :: Save(after, Final(trace), kept, mounts, o).0 == Unchanged
  {
    assert !WriteTrace(Damaged(kept), data, RenameFails(data)).1;
    assert ParseFile(Some([])) == None;
    hide Parse, Image, Crc32, WriteTrace, Loses;
    LosingSave(kept, data);
  }

  lemma FailureShowsNewOrNothing(f: Files, data: Bytes, o: Outcomes)
    requires |data| <= MAX_INI_SIZE && LoadOld(f).Some? && !WriteTrace(f, data, o).1
    ensures WriteTrace(f, data, o).0 != []
    ensures FailureShows(f, data, o) ==>
      Load(Final(WriteTrace(f, data, o).0)) == None || Load(Final(WriteTrace(f, data, o).0)) == Some(data)
  {
    hide Parse, Image, Torn;
    var image := Image(data);
    ParseImage(data);
    var staged := Unstaged(f, o).(staged := Some(image[..Written(image, o)]));
    if Complete(data, o) {
      assert image[..Written(image, o)] == image;
      assert Final(WriteTrace(f, data, o).0) == Final(CommitTrace(staged, o).0);
    }
  }

  /** The texts have one length and differ in exactly one byte. */
  predicate OneByteApart(a: Bytes, b: Bytes) {
    |a| == |b| && exists k :: 0 <= k < |a| && a[k] != b[k] && b == a[k := b[k]]
  }

  /** When a save is skipped: exactly if a text was loaded or saved before, and it has the length and
      the checksum of the new one. Nothing is written then, nor when the save is refused. */
  lemma SaveIsSkippedIff(s: Store, f: Files, data: Bytes, mounts: bool, o: Outcomes)
    requires Agrees(s, f)
    ensures var (result, after, trace) := Save(s, f, data, mounts, o);
      && (result == Unchanged <==>
            s.available && data != [] && |data| <= 1024 && s.valid
            && |Load(f).value| == |data| && Crc32(Load(f).value) == Crc32(data))
      && (result == Unchanged ==> after == s && trace == [])
      && (!s.available || data == [] || |data| > 1024 ==> result == Failed && after == s && trace == [])
      && (result == Stored ==> after == Store(s.available, true, Crc32(data), |data|))
      && (result == Failed ==> after == s)
  {
    hide WriteTrace, Crc32, Parse;
  }

  lemma WorkingFlashWrites(f: Files, data: Bytes, o: Outcomes)
    requires |data| <= MAX_INI_SIZE && AllSucceed(data, o)
    ensures WriteTrace(f, data, o).1
  {
    hide Image, Torn;
  }

  /** Two different texts of one length with one CRC-32: the second is never written. */
  lemma DifferentTextIsSkipped(mounts: bool, o: Outcomes)
    ensures var stored, data := ChecksumValues.FIVE_ZEROS, ChecksumValues.FIVE_BYTES;
      var f, s := Files(Some(Image(stored)), None, None), Store(true, true, Crc32(stored), |stored|);
      && stored != data && Agrees(s, f) && Load(f) == Some(stored)
      && Save(s, f, data, mounts, o) == (Unchanged, s, [])
  {
    hide Crc32;
    ChecksumValues.SameCrc32();
    ParseIffImage(Image(ChecksumValues.FIVE_ZEROS), ChecksumValues.FIVE_ZEROS);
  }

  /** So a text that differs from the loaded one in its length or in one byte is never taken for it:
      on working flash it is stored, and load() returns it. */
  lemma ChangedTextIsStored(s: Store, f: Files, data: Bytes, o: Outcomes)
    requires Agrees(s, f) && s.available && 0 < |data| <= MAX_INI_SIZE && AllSucceed(data, o)
    requires Load(f).None? || |Load(f).value| != |data| || OneByteApart(Load(f).value, data)
    ensures var (result, after, trace) := Save(s, f, data, true, o);
      result == Stored && trace != [] && Load(Final(trace)) == Some(data) && Agrees(after, Final(trace))
  {
    hide WriteTrace, Crc32, Parse, Image;
    SaveIsSkippedIff(s, f, data, true, o);
    if Load(f).Some? && OneByteApart(Load(f).value, data) {
      var kept := Load(f).value;
      var k :| 0 <= k < |kept| && kept[k] != data[k] && data == kept[k := data[k]];
      CrcOfAltered(kept, k, data[k]);
    }
    WorkingFlashWrites(f, data, o);
    FinishedSaveLoads(f, data, o);
  }

  // ----- The flash file system and the store -----

  datatype Path = Main | Backup | Staged

  /** The file system partition; history is every state it has been in since the store was made. */
  class Flash {
    var files: Files
    ghost var history: seq<Files>

    constructor (files: Files)
      ensures this.files == files && history == []
    {
      this.files := files;
      history := [];
    }

    function Content(path: Path): Option<Bytes>
      reads this
    {
      match path
      case Main => files.main
      case Backup => files.backup
      case Staged => files.staged
    }

    /** Every mutation is recorded. */
    method Become(after: Files)
      modifies this
      ensures files == after && history == old(history) + [after]
    {
      files := after;
      history := history + [after];
    }

    method Remove(path: Path, ok: bool)
      modifies this
      ensures files == (match path
        case Main => old(files).(main := Removed(old(files).main, ok))
        case Backup => old(files).(backup := Removed(old(files).backup, ok))
        case Staged => old(files).(staged := Removed(old(files).staged, ok)))
      ensures history == old(history) + [files]
    {
      match path {
        case Main => Become(files.(main := Removed(files.main, ok)));
        case Backup => Become(files.(backup := Removed(files.backup, ok)));
        case Staged => Become(files.(staged := Removed(files.staged, ok)));
      }
    }

    method RenameMainToBackup()
      requires files.main.Some?
      modifies this
      ensures files == Files(None, old(files).main, old(files).staged) && history == old(history) + [files]
    {
      Become(Files(None, files.main, files.staged));
    }

    method RenameStagedToMain()
      requires files.staged.Some?
      modifies this
      ensures files == Files(old(files).staged, old(files).backup, None) && history == old(history) + [files]
    {
      Become(Files(files.staged, files.backup, None));
    }

    method RenameBackupToMain()
      requires files.backup.Some?
      modifies this
      ensures files == Files(old(files).backup, None, old(files).staged) && history == old(history) + [files]
    {
      Become(Files(files.backup, None, files.staged));
    }

    /** Opening for writing truncates; then the bytes go out one by one until the flash is full. */
    method WriteStaged(image: Bytes, count: nat)
      requires count <= |image|
      modifies this
      ensures files == old(files).(staged := Some(image[..count]))
      ensures history == old(history) + Torn(old(files), image, count)
    {
      Become(files.(staged := Some(image[..0])));
      var n := 0;
      while n < count
        invariant 0 <= n <= count && files == old(files).(staged := Some(image[..n]))
        invariant history == old(history) + Torn(old(files), image, n)
      {
        n := n + 1;
        Become(files.(staged := Some(image[..n])));
      }
    }
  }

  class ConfigStore {
    const flash: Flash
    var available: bool
    var valid: bool
    var checksum: bv32
    var length: nat

    constructor (flash: Flash, available: bool)
      ensures this.flash == flash && View() == Store(available, false, 0, 0)
    {
      this.flash := flash;
      this.available, valid, checksum, length := available, false, 0, 0;
    }

    function View(): Store
      reads this
    {
      Store(available, valid, checksum, length)
    }

    /** load(): the three candidates in turn, and the remembered pair. */
    method LoadImage(mounts: bool) returns (data: Option<Bytes>)
      modifies this
      ensures data == if available && mounts then Load(flash.files) else None
      ensures available == old(available) && valid == data.Some?
      ensures data.Some? ==> checksum == Crc32(data.value) && length == |data.value|
      ensures Agrees(View(), flash.files)
    {
      valid := false;
      if !available || !mounts {
        return None;
      }
      var candidates := [Main, Backup, Staged];
      var i := 0;
      data := None;
      while i < 3 && data.None?
        invariant 0 <= i <= 3
        invariant data == if i == 0 then None else if i == 1 then ParseFile(flash.files.main)
                          else if i == 2 then LoadOld(flash.files) else Load(flash.files)
        invariant data.Some? ==> data == Load(flash.files)
        invariant available == old(available) && !valid
      {
        data := ParseFile(flash.Content(candidates[i]));
        i := i + 1;
      }
      if data.Some? {
        checksum := Crc32(data.value);
        length := |data.value|;
        valid := true;
      }
    }

    method WriteNewFile(data: Bytes, o: Outcomes) returns (ok: bool)
      requires |data| <= MAX_INI_SIZE
      modifies flash
      ensures (flash.history, ok) == (old(flash.history) + WriteTrace(old(flash.files), data, o).0, WriteTrace(old(flash.files), data, o).1)
      ensures WriteTrace(old(flash.files), data, o).0 != []
      ensures flash.files == Final(WriteTrace(old(flash.files), data, o).0)
    {
      hide Image, Torn, CommitTrace;
      var image := Image(data);
      flash.Remove(Staged, o.removeStaged);
      if !o.opens {
        assert StageTrace(old(flash.files), image, o) == [flash.files];
        return false;
      }
      var count := Written(image, o);
      flash.WriteStaged(image, count);
      if count < |image| {
        flash.Remove(Staged, o.removeTorn);
        assert flash.history == old(flash.history) + (StageTrace(old(flash.files), image, o) + [flash.files]);
        return false;
      }
      ghost var staged := flash.files;
      ok := Commit(o);
      assert flash.history == old(flash.history) + (StageTrace(old(flash.files), image, o) + CommitTrace(staged, o).0);
    }

    /** The two-step replacement. */
    method Commit(o: Outcomes) returns (ok: bool)
      requires flash.files.staged.Some?
      modifies flash
      ensures flash.history == old(flash.history) + CommitTrace(old(flash.files), o).0
      ensures ok == CommitTrace(old(flash.files), o).1
      ensures CommitTrace(old(flash.files), o).0 != [] && flash.files == Final(CommitTrace(old(flash.files), o).0)
    {
      flash.Remove(Backup, o.removeBackup);
      var hadOld := flash.files.main.Some?;
      if hadOld {
        if !o.renameOld {
          flash.Remove(Staged, o.removeUncommitted);
          return false;
        }
        flash.RenameMainToBackup();
      }
      if !o.renameNew {
        if hadOld && o.renameBack {
          flash.RenameBackupToMain();
        }
        return false;
      }
      flash.RenameStagedToMain();
      flash.Remove(Backup, o.removeOldBackup);
      return true;
    }

    method SaveIfChanged(data: Bytes, mounts: bool, o: Outcomes) returns (result: SaveResult)
      modifies this, flash
      ensures var (r, s, trace) := Save(old(View()), old(flash.files), data, mounts, o);
        && result == r && View() == s && flash.history == old(flash.history) + trace
        && flash.files == if trace == [] then old(flash.files) else Final(trace)
    {
      hide WriteTrace, Crc32;
      if !available || |data| == 0 || |data| > MAX_INI_SIZE {
        return Failed;
      }
      var next := Crc32(data);
      if valid && checksum == next && length == |data| {
        return Unchanged;
      }
      if !mounts {
        return Failed;
      }
      var written := WriteNewFile(data, o);
      if !written {
        return Failed;
      }
      checksum := next;
      length := |data|;
      valid := true;
      return Stored;
    }
  }
}
