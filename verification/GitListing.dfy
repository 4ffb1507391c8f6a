/** The file list of a GitHub tree (parseGitTree in src/github_tree.cpp): the loops that collect the
    entries, against the JSON document they read. */
module GitListing {
  import opened Common
  import opened JsonText
  import opened GithubTree
  import Sha1Hash

  const PATH_SIZE: nat := 128
  const KEY_SIZE: nat := 16
  const SHA_SIZE: nat := 48

  datatype Entry = Entry(path: string, sha: seq<bv8>, size: nat, directory: bool)

  /** What every accepted entry satisfies. */
  ghost predicate EntryOk(e: Entry) {
    SafePath(e.path) && |e.path| < PATH_SIZE && |e.sha| == Sha1Hash.DIGEST_SIZE && e.size <= UINT32_MAX
    && (e.directory ==> e.size == 0)
  }

  /** What is known of an entry while its object is read. */
  datatype Draft = Draft(path: Option<string>, kind: string, sha: string, size: Option<nat>)

  const NO_DRAFT := Draft(None, "", "", None)

  ghost predicate DraftOk(d: Draft) {
    && (d.path.Some? ==> |d.path.value| < PATH_SIZE)
    && (d.size.Some? ==> d.size.value <= UINT32_MAX)
  }

  /** The entry of a finished object: a submodule yields none, anything incomplete or unsafe is refused. */
  ghost function Accepted(d: Draft): (r: Option<Option<Entry>>)
    requires DraftOk(d)
    ensures r.Some? && r.value.Some? ==> EntryOk(r.value.value)
  {
    if d.kind == "commit" then Some(None)
    else
      var blob := d.kind == "blob";
      if (!blob && d.kind != "tree") || d.path.None? || !SafePath(d.path.value)
         || |d.sha| != 40 || !Sha1Hash.IsHex(d.sha, 40) || (blob && d.size.None?) then None
      else
        Some(Some(Entry(d.path.value, Sha1Hash.BytesFrom(d.sha, 20), if blob then d.size.value else 0, !blob)))
  }

  // ----- Reading: each function returns what it read and the position behind it -----

  datatype Found<T> = Found(value: T, next: nat)

  /** The closing character behind a value. */
  function CloseAt<T>(text: string, pos: nat, value: T, c: char): (r: Option<Found<T>>)
    requires pos <= |text|
    ensures r.Some? ==> pos < r.value.next <= |text| && r.value.value == value
  {
    var p := Space(text, pos);
    if At(text, p, c) then Some(Found(value, p + 1)) else None
  }

  lemma CloseFromSpace<T>(text: string, pos: nat, value: T, c: char)
    requires pos <= |text|
    ensures CloseAt(text, Space(text, pos), value, c) == CloseAt(text, pos, value, c)
  {
    hide Space;
    SpaceTwice(text, pos);
  }

  /** A string that fits a buffer of that size. */
  function LimitedAt(text: string, pos: nat, size: nat): (r: Option<Read>)
    requires pos <= |text|
    ensures r.Some? ==> pos < r.value.next <= |text| && |r.value.content| < size
  {
    match StringAt(text, pos)
    case None => None
    case Some(read) => if |read.content| < size then Some(read) else None
  }

  function KeyAt(text: string, pos: nat): (r: Option<Read>)
    requires pos <= |text|
    ensures r.Some? ==> pos < r.value.next <= |text|
  {
    match LimitedAt(text, pos, KEY_SIZE)
    case None => None
    case Some(key) =>
      var p := Space(text, key.next);
      if At(text, p, ':') then Some(Read(key.content, p + 1)) else None
  }

  /** The value behind a key of an entry object. */
  function ValueAt(text: string, pos: nat, key: string, d: Draft): (r: Option<Found<Draft>>)
    requires pos <= |text|
    ensures r.Some? ==> pos < r.value.next <= |text| && (DraftOk(d) ==> DraftOk(r.value.value))
  {
    if key == "path" then
      match LimitedAt(text, pos, PATH_SIZE)
      case None => None
      case Some(read) => Some(Found(d.(path := Some(read.content)), read.next))
    else if key == "type" then
      match LimitedAt(text, pos, KEY_SIZE)
      case None => None
      case Some(read) => Some(Found(d.(kind := read.content), read.next))
    else if key == "sha" then
      match LimitedAt(text, pos, SHA_SIZE)
      case None => None
      case Some(read) => Some(Found(d.(sha := read.content), read.next))
    else if key == "size" then
      match NumberAt(text, pos)
      case None => None
      case Some(read) => if read.value <= UINT32_MAX then Some(Found(d.(size := Some(read.value)), read.next)) else None
    else
      match Skip(text, pos, 0)
      case None => None
      case Some(next) => Some(Found(d, next))
  }

  function MemberAt(text: string, pos: nat, d: Draft): (r: Option<Found<Draft>>)
    requires pos <= |text|
    ensures r.Some? ==> pos < r.value.next <= |text| && (DraftOk(d) ==> DraftOk(r.value.value))
  {
    match KeyAt(text, pos)
    case None => None
    case Some(key) => ValueAt(text, key.next, key.content, d)
  }

  /** The members of an entry object up to its closing brace. */
  function MembersAt(text: string, pos: nat, d: Draft): (r: Option<Found<Draft>>)
    requires pos <= |text|
    ensures r.Some? ==> pos < r.value.next <= |text| && (DraftOk(d) ==> DraftOk(r.value.value))
    decreases |text| - pos
  {
    match MemberAt(text, pos, d)
    case None => None
    case Some(member) =>
      var p := Space(text, member.next);
      if At(text, p, ',') then MembersAt(text, p + 1, member.value) else CloseAt(text, member.next, member.value, '}')
  }

  function DraftAt(text: string, pos: nat): (r: Option<Found<Draft>>)
    requires pos <= |text|
    ensures r.Some? ==> pos < r.value.next <= |text| && DraftOk(r.value.value)
  {
    var p := Space(text, pos);
    if !At(text, p, '{') then None
    else if At(text, Space(text, p + 1), '}') then Some(Found(NO_DRAFT, Space(text, p + 1) + 1))
    else MembersAt(text, p + 1, NO_DRAFT)
  }

  ghost function EntryAt(text: string, pos: nat): (r: Option<Found<Option<Entry>>>)
    requires pos <= |text|
    ensures r.Some? ==> pos < r.value.next <= |text|
    ensures r.Some? && r.value.value.Some? ==> EntryOk(r.value.value.value)
  {
    match DraftAt(text, pos)
    case None => None
    case Some(draft) =>
      match Accepted(draft.value)
      case None => None
      case Some(entry) => Some(Found(entry, draft.next))
  }

  /** What was read before, and then the rest. */
  function After(front: seq<Entry>, rest: Option<Found<seq<Entry>>>): (r: Option<Found<seq<Entry>>>)
    ensures r.Some? <==> rest.Some?
    ensures r.Some? ==> r.value.next == rest.value.next
  {
    if rest.Some? then Some(Found(front + rest.value.value, rest.value.next)) else None
  }

  function Listed(entry: Option<Entry>): seq<Entry> {
    if entry.Some? then [entry.value] else []
  }

  /** The entries of a list up to its closing bracket. */
  ghost function EntriesAt(text: string, pos: nat): (r: Option<Found<seq<Entry>>>)
    requires pos <= |text|
    ensures r.Some? ==> pos < r.value.next <= |text|
    decreases |text| - pos
  {
    match EntryAt(text, pos)
    case None => None
    case Some(entry) =>
      var p := Space(text, entry.next);
      if At(text, p, ',') then After(Listed(entry.value), EntriesAt(text, p + 1))
      else CloseAt(text, entry.next, Listed(entry.value), ']')
  }

  ghost function ListAt(text: string, pos: nat): (r: Option<Found<seq<Entry>>>)
    requires pos <= |text|
    ensures r.Some? ==> pos < r.value.next <= |text|
  {
    var p := Space(text, pos);
    if !At(text, p, '[') then None
    else if At(text, Space(text, p + 1), ']') then Some(Found([], Space(text, p + 1) + 1))
    else EntriesAt(text, p + 1)
  }

  datatype Listing = Listing(entries: seq<Entry>, truncated: bool, haveTree: bool, haveTruncated: bool)

  const NO_LISTING := Listing([], true, false, false)

  function WordAt(text: string, pos: nat, word: string): (r: Option<nat>)
    requires pos <= |text| && word != ""
    ensures r.Some? ==> pos < r.value <= |text|
  {
    Literal(text, Space(text, pos), word)
  }

  /** The value behind a key of the document. */
  ghost function PartAt(text: string, pos: nat, key: string, l: Listing): (r: Option<Found<Listing>>)
    requires pos <= |text|
    ensures r.Some? ==> pos < r.value.next <= |text|
  {
    if key == "truncated" then
      if WordAt(text, pos, "true").Some? then
        Some(Found(l.(truncated := true, haveTruncated := true), WordAt(text, pos, "true").value))
      else if WordAt(text, pos, "false").Some? then
        Some(Found(l.(truncated := false, haveTruncated := true), WordAt(text, pos, "false").value))
      else None
    else if key == "tree" then
      match ListAt(text, pos)
      case None => None
      case Some(list) => Some(Found(l.(entries := l.entries + list.value, haveTree := true), list.next))
    else
      match Skip(text, pos, 0)
      case None => None
      case Some(next) => Some(Found(l, next))
  }

  ghost function KeyedPartAt(text: string, pos: nat, l: Listing): (r: Option<Found<Listing>>)
    requires pos <= |text|
    ensures r.Some? ==> pos < r.value.next <= |text|
  {
    match KeyAt(text, pos)
    case None => None
    case Some(key) => PartAt(text, key.next, key.content, l)
  }

  ghost function PartsAt(text: string, pos: nat, l: Listing): (r: Option<Found<Listing>>)
    requires pos <= |text|
    ensures r.Some? ==> pos < r.value.next <= |text|
    decreases |text| - pos
  {
    match KeyedPartAt(text, pos, l)
    case None => None
    case Some(part) =>
      var p := Space(text, part.next);
      if At(text, p, ',') then PartsAt(text, p + 1, part.value) else CloseAt(text, part.next, part.value, '}')
  }

  ghost function DocumentAt(text: string, pos: nat): (r: Option<Found<Listing>>)
    requires pos <= |text|
    ensures r.Some? ==> pos < r.value.next <= |text|
  {
    var p := Space(text, pos);
    if !At(text, p, '{') then None
    else if At(text, Space(text, p + 1), '}') then Some(Found(NO_LISTING, Space(text, p + 1) + 1))
    else PartsAt(text, p + 1, NO_LISTING)
  }

  /** The listing of a whole text: nothing may follow the document, and both keys must be there. */
  ghost function ListingAt(text: string): Option<Listing> {
    match DocumentAt(text, 0)
    case None => None
    case Some(document) =>
      if Space(text, document.next) == |text| && document.value.haveTree && document.value.haveTruncated
      then Some(document.value) else None
  }

  // ----- The loops of parseGitTree -----

  method ReadKey(json: JsonCursor) returns (key: Option<string>)
    requires json.Valid()
    modifies json
    ensures json.Valid() && old(json.position) <= json.position
    ensures key.Some? <==> KeyAt(json.text, old(json.position)).Some?
    ensures key.Some? ==> KeyAt(json.text, old(json.position)) == Some(Read(key.value, json.position))
  {
    key := json.TakeString(Some(KEY_SIZE));
    if key.Some? {
      var colon := json.Take(':');
      if !colon {
        return None;
      }
    }
  }

  /** One key of an entry object and its value. */
  method ReadMember(json: JsonCursor, draft: Draft) returns (ok: bool, after: Draft)
    requires json.Valid()
    modifies json
    ensures json.Valid() && old(json.position) <= json.position
    ensures ok <==> MemberAt(json.text, old(json.position), draft).Some?
    ensures ok ==> MemberAt(json.text, old(json.position), draft) == Some(Found(after, json.position))
  {
    hide StringAt, NumberAt, Skip;
    ok, after := true, draft;
    var key := ReadKey(json);
    if key.None? {
      return false, draft;
    }
    if key.value == "path" {
      var path := json.TakeString(Some(PATH_SIZE));
      ok, after := path.Some?, draft.(path := path);
    } else if key.value == "type" {
      var kind := json.TakeString(Some(KEY_SIZE));
      ok, after := kind.Some?, if kind.Some? then draft.(kind := kind.value) else draft;
    } else if key.value == "sha" {
      var sha := json.TakeString(Some(SHA_SIZE));
      ok, after := sha.Some?, if sha.Some? then draft.(sha := sha.value) else draft;
    } else if key.value == "size" {
      var size := json.TakeNumber();
      ok, after := size.Some? && size.value <= UINT32_MAX, draft.(size := size);
    } else {
      ok := json.SkipValue(0);
    }
  }

  lemma MembersStep(text: string, pos: nat, d: Draft)
    requires pos <= |text|
    ensures MemberAt(text, pos, d).None? ==> MembersAt(text, pos, d) == None
    ensures MemberAt(text, pos, d).Some? ==>
      var member := MemberAt(text, pos, d).value;
      MembersAt(text, pos, d) == if At(text, Space(text, member.next), ',')
        then MembersAt(text, Space(text, member.next) + 1, member.value) else CloseAt(text, member.next, member.value, '}')
  {
    hide Space, MemberAt;
  }

  /** The loop over the members of an entry object. */
  method ReadMembers(json: JsonCursor, start: Draft) returns (ok: bool, draft: Draft)
    requires json.Valid()
    modifies json
    ensures json.Valid() && old(json.position) <= json.position
    ensures ok <==> MembersAt(json.text, old(json.position), start).Some?
    ensures ok ==> MembersAt(json.text, old(json.position), start) == Some(Found(draft, json.position))
  {
    hide Space, MemberAt, MembersAt;
    ghost var text, first := json.text, json.position;
    draft := start;
    var more := true;
    while more
      invariant json.Valid() && first <= json.position
      invariant more ==> MembersAt(text, first, start) == MembersAt(text, json.position, draft)
      invariant !more ==> MembersAt(text, first, start) == CloseAt(text, json.position, draft, '}')
      decreases more, |json.text| - json.position
    {
      MembersStep(text, json.position, draft);
      ok, draft := ReadMember(json, draft);
      if !ok {
        return;
      }
      CloseFromSpace(text, json.position, draft, '}');
      more := json.Take(',');
    }
    ok := json.Take('}');
  }

  /** The object of one entry. */
  method ReadDraft(json: JsonCursor) returns (ok: bool, draft: Draft)
    requires json.Valid()
    modifies json
    ensures json.Valid() && old(json.position) <= json.position
    ensures ok <==> DraftAt(json.text, old(json.position)).Some?
    ensures ok ==> DraftAt(json.text, old(json.position)) == Some(Found(draft, json.position))
  {
    hide Space, MemberAt, MembersAt;
    draft := NO_DRAFT;
    ok := json.Take('{');
    if !ok {
      return;
    }
    MembersFromSpace(json.text, json.position, NO_DRAFT);
    SpaceTwice(json.text, json.position);
    var closed := json.Peek('}');
    if closed {
      ok := json.Take('}');
    } else {
      ok, draft := ReadMembers(json, draft);
    }
  }

  lemma MembersFromSpace(text: string, pos: nat, d: Draft)
    requires pos <= |text|
    ensures MembersAt(text, Space(text, pos), d) == MembersAt(text, pos, d)
  {
    hide Space, StringAt, ValueAt, MembersAt;
    StringFromSpace(text, pos);
    MembersStep(text, pos, d);
    MembersStep(text, Space(text, pos), d);
  }

  /** One entry, and what it yields. */
  method ReadEntry(json: JsonCursor) returns (ok: bool, entry: Option<Entry>)
    requires json.Valid()
    modifies json
    ensures json.Valid() && old(json.position) <= json.position
    ensures ok <==> EntryAt(json.text, old(json.position)).Some?
    ensures ok ==> EntryAt(json.text, old(json.position)) == Some(Found(entry, json.position))
  {
    hide SafePath, DraftAt;
    entry := None;
    var draft;
    ok, draft := ReadDraft(json);
    if !ok || draft.kind == "commit" {
      return;
    }
    var blob := draft.kind == "blob";
    if (!blob && draft.kind != "tree") || draft.path.None? || (blob && draft.size.None?) {
      return false, None;
    }
    var safe := PathIsSafe(draft.path.value);
    var sha := Sha1Hash.ParseSha1Hex(draft.sha);
    if !safe || |draft.sha| != 40 || sha.None? {
      return false, None;
    }
    entry := Some(Entry(draft.path.value, sha.value, if blob then draft.size.value else 0, !blob));
  }

  lemma AfterMore(front: seq<Entry>, more: seq<Entry>, rest: Option<Found<seq<Entry>>>)
    ensures After(front, After(more, rest)) == After(front + more, rest)
  {
    if rest.Some? {
      assert front + (more + rest.value.value) == (front + more) + rest.value.value;
    }
  }

  lemma AfterNothing(rest: Option<Found<seq<Entry>>>)
    ensures After([], rest) == rest
  {
    if rest.Some? {
      assert [] + rest.value.value == rest.value.value;
    }
  }

  lemma EntriesUnfold(text: string, pos: nat)
    requires pos <= |text|
    ensures EntryAt(text, pos).None? ==> EntriesAt(text, pos) == None
    ensures EntryAt(text, pos).Some? ==>
      var entry := EntryAt(text, pos).value;
      EntriesAt(text, pos) == if At(text, Space(text, entry.next), ',')
        then After(Listed(entry.value), EntriesAt(text, Space(text, entry.next) + 1))
        else CloseAt(text, entry.next, Listed(entry.value), ']')
  {
    hide Space, EntryAt, After;
  }

  /** One turn of the loop over the entries. */
  lemma EntriesStep(text: string, pos: nat, front: seq<Entry>)
    requires pos <= |text|
    ensures EntryAt(text, pos).None? ==> After(front, EntriesAt(text, pos)) == None
    ensures EntryAt(text, pos).Some? ==>
      var entry := EntryAt(text, pos).value;
      var all, p := front + Listed(entry.value), Space(text, entry.next);
      After(front, EntriesAt(text, pos)) == if At(text, p, ',') then After(all, EntriesAt(text, p + 1))
                                            else CloseAt(text, entry.next, all, ']')
  {
    hide Space, EntryAt, EntriesAt;
    EntriesUnfold(text, pos);
    if EntryAt(text, pos).Some? {
      var entry := EntryAt(text, pos).value;
      var p := Space(text, entry.next);
      if At(text, p, ',') {
        AfterMore(front, Listed(entry.value), EntriesAt(text, p + 1));
      }
    }
  }

  /** No listing is shorter than what was already read of it. */
  lemma NotShorter(text: string, pos: nat, front: seq<Entry>)
    requires pos <= |text| && EntryAt(text, pos).Some?
    ensures var r := After(front, EntriesAt(text, pos));
      r.Some? ==> |r.value.value| >= |front| + |Listed(EntryAt(text, pos).value.value)|
  {
    hide Space, EntryAt;
    EntriesStep(text, pos, front);
  }

  ghost predicate AllOk(entries: seq<Entry>) {
    forall i :: 0 <= i < |entries| ==> EntryOk(entries[i])
  }

  /** Appends what an object yielded; refused when the array is full. */
  method AddEntry(entries: array<Entry>, start: nat, count: nat, entry: Option<Entry>) returns (ok: bool, after: nat)
    requires start <= count <= entries.Length
    modifies entries
    ensures ok <==> count + |Listed(entry)| <= entries.Length
    ensures after == if ok then count + |Listed(entry)| else count
    ensures entries[..start] == old(entries[..start])
    ensures entries[start..after] == old(entries[start..count]) + (if ok then Listed(entry) else [])
  {
    ok, after := true, count;
    if entry.Some? {
      if count >= entries.Length {
        return false, count;
      }
      entries[count] := entry.value;
      after := count + 1;
    }
  }

  /** The array of entries behind its opening bracket, appended to those already there: refused
      exactly when the text is, or when the entries do not fit the array. */
  method ReadEntries(json: JsonCursor, entries: array<Entry>, start: nat) returns (ok: bool, count: nat)
    requires json.Valid() && start <= entries.Length
    modifies json, entries
    ensures json.Valid() && old(json.position) <= json.position
    ensures start <= count <= entries.Length && entries[..start] == old(entries[..start])
    ensures AllOk(entries[start..count])
    ensures var list := EntriesAt(json.text, old(json.position));
      && (ok <==> list.Some? && start + |list.value.value| <= entries.Length)
      && (ok ==> list == Some(Found(entries[start..count], json.position)))
  {
    hide Space, EntryAt, EntriesAt, After, AllOk, Listed, EntryOk;
    ghost var text, first, read := json.text, json.position, [];
    count := start;
    var more := true;
    AfterNothing(EntriesAt(text, first));
    assert entries[start..count] == [];
    NothingIsOk();
    while more
      invariant json.Valid() && first <= json.position && start <= count <= entries.Length
      invariant entries[..start] == old(entries[..start]) && entries[start..count] == read && AllOk(read)
      invariant more ==> EntriesAt(text, first) == After(read, EntriesAt(text, json.position))
      invariant !more ==> EntriesAt(text, first) == CloseAt(text, json.position, read, ']')
      decreases more, |json.text| - json.position
    {
      ghost var pos := json.position;
      EntriesStep(text, pos, read);
      var entry;
      ok, entry := ReadEntry(json);
      if !ok {
        return;
      }
      NotShorter(text, pos, read);
      EntryIsOk(text, pos, read);
      ok, count := AddEntry(entries, start, count, entry);
      if !ok {
        assert read + [] == read;
        return;
      }
      read := read + Listed(entry);
      CloseFromSpace(text, json.position, read, ']');
      more := json.Take(',');
    }
    ok := json.Take(']');
  }

  lemma NothingIsOk()
    ensures AllOk([])
  {
  }

  lemma EntryIsOk(text: string, pos: nat, front: seq<Entry>)
    requires pos <= |text| && EntryAt(text, pos).Some? && AllOk(front)
    ensures AllOk(front + Listed(EntryAt(text, pos).value.value))
  {
    hide EntryOk;
  }

  /** The array behind the key "tree". */
  method ReadList(json: JsonCursor, entries: array<Entry>, start: nat) returns (ok: bool, count: nat)
    requires json.Valid() && start <= entries.Length
    modifies json, entries
    ensures json.Valid() && old(json.position) <= json.position
    ensures start <= count <= entries.Length && entries[..start] == old(entries[..start])
    ensures AllOk(entries[start..count])
    ensures var list := ListAt(json.text, old(json.position));
      && (ok <==> list.Some? && start + |list.value.value| <= entries.Length)
      && (ok ==> list == Some(Found(entries[start..count], json.position)))
  {
    hide Space, EntriesAt;
    count := start;
    assert entries[start..count] == [];
    ok := json.Take('[');
    if !ok {
      return;
    }
    EntriesFromSpace(json.text, json.position);
    SpaceTwice(json.text, json.position);
    var empty := json.Take(']');
    if !empty {
      ok, count := ReadEntries(json, entries, count);
    }
  }

  lemma EntriesFromSpace(text: string, pos: nat)
    requires pos <= |text|
    ensures EntriesAt(text, Space(text, pos)) == EntriesAt(text, pos)
  {
    hide Space, EntryAt, EntriesAt, After, CloseAt;
    EntryFromSpace(text, pos);
    EntriesUnfold(text, pos);
    EntriesUnfold(text, Space(text, pos));
  }

  lemma EntryFromSpace(text: string, pos: nat)
    requires pos <= |text|
    ensures DraftAt(text, Space(text, pos)) == DraftAt(text, pos)
    ensures EntryAt(text, Space(text, pos)) == EntryAt(text, pos)
  {
    hide Space, MembersAt, Accepted;
    SpaceTwice(text, pos);
  }

  /** The loop variables of parseGitTree. */
  datatype Progress = Progress(count: nat, truncated: bool, haveTree: bool, haveTruncated: bool)

  ghost function ListingOfArray(entries: array<Entry>, p: Progress): Listing
    requires p.count <= entries.Length
    reads entries
  {
    Listing(entries[..p.count], p.truncated, p.haveTree, p.haveTruncated)
  }

  lemma AllOkJoin(front: seq<Entry>, more: seq<Entry>)
    requires AllOk(front) && AllOk(more)
    ensures AllOk(front + more)
  {
    hide EntryOk;
  }

  /** One key of the document and its value. */
  method ReadPart(json: JsonCursor, entries: array<Entry>, p: Progress) returns (ok: bool, q: Progress)
    requires json.Valid() && p.count <= entries.Length && AllOk(entries[..p.count])
    modifies json, entries
    ensures json.Valid() && old(json.position) <= json.position
    ensures q.count <= entries.Length && AllOk(entries[..q.count])
    ensures var part := KeyedPartAt(json.text, old(json.position), old(ListingOfArray(entries, p)));
      && (ok <==> part.Some? && |part.value.value.entries| <= entries.Length)
      && (ok ==> part == Some(Found(ListingOfArray(entries, q), json.position)))
  {
    hide Space, ListAt, Skip, KeyAt, AllOk, Literal;
    q := p;
    var key := ReadKey(json);
    if key.None? {
      return false, q;
    }
    if key.value == "truncated" {
      SpaceTwice(json.text, json.position);
      var isTrue := json.LiteralWord("true");
      var isFalse := false;
      if !isTrue {
        isFalse := json.LiteralWord("false");
      }
      return isTrue || isFalse, if isTrue || isFalse then p.(truncated := isTrue, haveTruncated := true) else p;
    } else if key.value != "tree" {
      ok := json.SkipValue(0);
    } else {
      ghost var front := entries[..p.count];
      var count;
      ok, count := ReadList(json, entries, p.count);
      assert entries[..count] == front + entries[p.count..count];
      AllOkJoin(front, entries[p.count..count]);
      q := p.(count := count, haveTree := true);
    }
  }

  lemma PartsStep(text: string, pos: nat, l: Listing)
    requires pos <= |text|
    ensures KeyedPartAt(text, pos, l).None? ==> PartsAt(text, pos, l) == None
    ensures KeyedPartAt(text, pos, l).Some? ==>
      var part := KeyedPartAt(text, pos, l).value;
      PartsAt(text, pos, l) == if At(text, Space(text, part.next), ',')
        then PartsAt(text, Space(text, part.next) + 1, part.value) else CloseAt(text, part.next, part.value, '}')
  {
    hide Space, KeyedPartAt;
  }

  /** Entries are only added, so what does not fit the array never will. */
  lemma {:induction false} PartsGrow(text: string, pos: nat, l: Listing)
    requires pos <= |text|
    ensures PartsAt(text, pos, l).Some? ==>
      && KeyedPartAt(text, pos, l).Some?
      && |KeyedPartAt(text, pos, l).value.value.entries| <= |PartsAt(text, pos, l).value.value.entries|
    decreases |text| - pos
  {
    hide Space, KeyedPartAt, PartsAt;
    PartsStep(text, pos, l);
    if PartsAt(text, pos, l).Some? {
      var part := KeyedPartAt(text, pos, l).value;
      var p := Space(text, part.next);
      if At(text, p, ',') {
        PartsGrow(text, p + 1, part.value);
        PartGrows(text, p + 1, part.value);
      }
    }
  }

  lemma PartGrows(text: string, pos: nat, l: Listing)
    requires pos <= |text|
    ensures KeyedPartAt(text, pos, l).Some? ==> |l.entries| <= |KeyedPartAt(text, pos, l).value.value.entries|
  {
    hide Space, ListAt, Skip, KeyAt, WordAt;
  }

  /** The loop over the members of the document. */
  method ReadParts(json: JsonCursor, entries: array<Entry>, start: Progress) returns (ok: bool, p: Progress)
    requires json.Valid() && start.count <= entries.Length && AllOk(entries[..start.count])
    modifies json, entries
    ensures json.Valid() && old(json.position) <= json.position
    ensures p.count <= entries.Length && AllOk(entries[..p.count])
    ensures var parts := PartsAt(json.text, old(json.position), old(ListingOfArray(entries, start)));
      && (ok <==> parts.Some? && |parts.value.value.entries| <= entries.Length)
      && (ok ==> parts == Some(Found(ListingOfArray(entries, p), json.position)))
  {
    hide Space, KeyedPartAt, PartsAt, AllOk;
    ghost var text, first, l := json.text, json.position, ListingOfArray(entries, start);
    p := start;
    var more := true;
    while more
      invariant json.Valid() && first <= json.position && p.count <= entries.Length && AllOk(entries[..p.count])
      invariant more ==> PartsAt(text, first, l) == PartsAt(text, json.position, ListingOfArray(entries, p))
      invariant !more ==> PartsAt(text, first, l) == CloseAt(text, json.position, ListingOfArray(entries, p), '}')
      decreases more, |json.text| - json.position
    {
      PartsStep(text, json.position, ListingOfArray(entries, p));
      PartsGrow(text, json.position, ListingOfArray(entries, p));
      ok, p := ReadPart(json, entries, p);
      if !ok {
        return;
      }
      CloseFromSpace(text, json.position, ListingOfArray(entries, p), '}');
      more := json.Take(',');
    }
    ok := json.Take('}');
  }

  lemma PartsFromSpace(text: string, pos: nat, l: Listing)
    requires pos <= |text|
    ensures PartsAt(text, Space(text, pos), l) == PartsAt(text, pos, l)
  {
    hide Space, StringAt, PartAt, PartsAt;
    StringFromSpace(text, pos);
    PartsStep(text, pos, l);
    PartsStep(text, Space(text, pos), l);
  }

  /** parseGitTree: accepts exactly the texts that have a listing which fits the array, and then
      returns it; whatever happens, only good entries are in the array. */
  method ParseGitTree(text: string, entries: array<Entry>) returns (ok: bool, count: nat, truncated: bool)
    modifies entries
    ensures count <= entries.Length && AllOk(entries[..count])
    ensures ok <==> ListingAt(text).Some? && |ListingAt(text).value.entries| <= entries.Length
    ensures ok ==> ListingAt(text).value.entries == entries[..count] && ListingAt(text).value.truncated == truncated
  {
    hide Space, PartsAt, AllOk;
    count, truncated := 0, true;
    assert entries[..count] == [];
    NothingIsOk();
    var json := new JsonCursor(text);
    ok := json.Take('{');
    if !ok {
      return;
    }
    PartsFromSpace(text, json.position, NO_LISTING);
    SpaceTwice(text, json.position);
    var closed := json.Peek('}');
    var p := Progress(0, true, false, false);
    if closed {
      ok := json.Take('}');
    } else {
      ok, p := ReadParts(json, entries, p);
    }
    count, truncated := p.count, p.truncated;
    if ok {
      json.SkipSpace();
      ok := json.position >= |text| && p.haveTree && p.haveTruncated;
    }
  }

  // ----- What the document says -----

  /** A value as a string that fits a buffer of that size. */
  ghost function TextOf(v: Json, size: nat): Option<string>
    requires Valid(v)
  {
    if v.Text? && Meanings(v.pieces).Some? && |Meanings(v.pieces).value| < size then Meanings(v.pieces) else None
  }

  /** A value as a whole number of at most 32 bits, written without sign, fraction or exponent. */
  ghost function SizeOf(v: Json): (r: Option<nat>)
    requires Valid(v)
    ensures r.Some? ==> r.value <= UINT32_MAX
  {
    if v.Number? && !v.number.minus && v.number.fraction == "" && v.number.exponent == ""
       && DigitsOnly(v.number.whole) && Decimal(v.number.whole) <= UINT32_MAX
    then Some(Decimal(v.number.whole)) else None
  }

  ghost function KeyOf(key: seq<Piece>): Option<string>
    requires ValidPieces(key)
  {
    if Meanings(key).Some? && |Meanings(key).value| < KEY_SIZE then Meanings(key) else None
  }

  /** A member with a name of no interest may hold anything skipValue accepts. */
  ghost predicate Skippable(v: Json)
    requires Valid(v)
  {
    Decodable(v) && Depth(v) <= MAX_DEPTH
  }

  ghost function ValueOf(v: Json, key: string, d: Draft): (r: Option<Draft>)
    requires Valid(v)
    ensures r.Some? && DraftOk(d) ==> DraftOk(r.value)
  {
    if key == "path" then
      if TextOf(v, PATH_SIZE).Some? then Some(d.(path := TextOf(v, PATH_SIZE))) else None
    else if key == "type" then
      if TextOf(v, KEY_SIZE).Some? then Some(d.(kind := TextOf(v, KEY_SIZE).value)) else None
    else if key == "sha" then
      if TextOf(v, SHA_SIZE).Some? then Some(d.(sha := TextOf(v, SHA_SIZE).value)) else None
    else if key == "size" then
      if SizeOf(v).Some? then Some(d.(size := SizeOf(v))) else None
    else if Skippable(v) then Some(d) else None
  }

  /** The members of an entry object in turn: a later one overrules an earlier one of its name. */
  ghost function DraftOf(fields: Fields, d: Draft): (r: Option<Draft>)
    requires ValidFields(fields)
    ensures r.Some? && DraftOk(d) ==> DraftOk(r.value)
  {
    match fields
    case NoFields => Some(d)
    case Field(_, key, _, v, _, rest) =>
      if KeyOf(key).None? then None
      else
        match ValueOf(v, KeyOf(key).value, d)
        case None => None
        case Some(next) => DraftOf(rest, next)
  }

  ghost function EntryOf(v: Json): (r: Option<Option<Entry>>)
    requires Valid(v)
  {
    if !v.Record? || DraftOf(v.fields, NO_DRAFT).None? then None else Accepted(DraftOf(v.fields, NO_DRAFT).value)
  }

  /** The entries of a list, in its order. */
  ghost function EntriesOf(items: Items): Option<seq<Entry>>
    requires ValidItems(items)
  {
    match items
    case NoItems => Some([])
    case Item(v, _, rest) =>
      if EntryOf(v).None? || EntriesOf(rest).None? then None else Some(Listed(EntryOf(v).value) + EntriesOf(rest).value)
  }

  ghost function PartOf(v: Json, key: string, l: Listing): Option<Listing>
    requires Valid(v)
  {
    if key == "truncated" then
      if v.Word? && (v.word == "true" || v.word == "false")
      then Some(l.(truncated := v.word == "true", haveTruncated := true)) else None
    else if key == "tree" then
      if v.List? && EntriesOf(v.items).Some?
      then Some(l.(entries := l.entries + EntriesOf(v.items).value, haveTree := true)) else None
    else if Skippable(v) then Some(l) else None
  }

  ghost function PartsOf(fields: Fields, l: Listing): Option<Listing>
    requires ValidFields(fields)
  {
    match fields
    case NoFields => Some(l)
    case Field(_, key, _, v, _, rest) =>
      if KeyOf(key).None? then None
      else
        match PartOf(v, KeyOf(key).value, l)
        case None => None
        case Some(next) => PartsOf(rest, next)
  }

  /** The listing a document stands for: it is a record whose "tree" is a list of entry objects and
      whose "truncated" is true or false. */
  ghost function ListingOf(v: Json): Option<Listing>
    requires Valid(v)
  {
    if !v.Record? then None
    else
      match PartsOf(v.fields, NO_LISTING)
      case None => None
      case Some(l) => if l.haveTree && l.haveTruncated then Some(l) else None
  }

  // ----- The reading functions read what the document says -----

  lemma StringOfValue(text: string, pos: nat, v: Json, size: nat)
    requires Valid(v) && Has(text, pos, Print(v))
    ensures pos <= |text|
    ensures LimitedAt(text, pos, size)
         == if TextOf(v, size).Some? then Some(Read(TextOf(v, size).value, pos + |Print(v)|)) else None
  {
    hide Has, Space, Body, Print, Core, Meanings, Quoted;
    var p := ValueHead(text, pos, v);
    if v.Text? {
      TextCore(v);
      StringExact(text, p, v.pieces);
    }
  }

  lemma TextCore(v: Json)
    requires Valid(v) && v.Text?
    ensures Core(v) == Quoted(v.pieces) && ValidPieces(v.pieces)
  {
    hide Quoted;
  }

  lemma WordOfValue(text: string, pos: nat, v: Json, word: string)
    requires Valid(v) && Has(text, pos, Print(v)) && (word == "true" || word == "false")
    ensures pos <= |text|
    ensures WordAt(text, pos, word) == if v.Word? && v.word == word then Some(pos + |Print(v)|) else None
  {
    hide Has, Space, Print, Core;
    var p := ValueHead(text, pos, v);
    if Has(text, p, word) {
      HasFirst(text, p, word);
      WordIsFirst(v);
    }
    if v.Word? { WordCore(v); }
  }

  lemma HasFirst(text: string, pos: nat, s: string)
    requires Has(text, pos, s) && s != ""
    ensures pos < |text| && text[pos] == s[0]
  {
    assert text[pos] == text[pos..pos + |s|][0];
  }

  /** The three words differ in their first letters. */
  lemma WordIsFirst(v: Json)
    requires Valid(v)
    ensures v.Word? ==> (v.word[0] == 't' <==> v.word == "true") && (v.word[0] == 'f' <==> v.word == "false")
  {
  }

  lemma SizeOfValue(text: string, pos: nat, v: Json)
    requires Valid(v) && Has(text, pos, Print(v)) && Delimited(text, pos + |Print(v)|)
    ensures pos <= |text|
    ensures NumberAt(text, pos).Some? && NumberAt(text, pos).value.value <= UINT32_MAX <==> SizeOf(v).Some?
    ensures SizeOf(v).Some? ==> NumberAt(text, pos) == Some(NumberRead(SizeOf(v).value, pos + |Print(v)|))
  {
    hide Has, Space, Digits, Print, Core, Accumulate, Decimal, Delimited;
    var p := ValueHead(text, pos, v);
    if v.Number? && !v.number.minus {
      NumberCore(v);
      NumberOfDigits(text, p, v.number);
      SizesAreExact(v.number.whole);
    } else {
      NotADigit(v);
      HasFirst(text, p, Core(v));
    }
  }

  lemma NotADigit(v: Json)
    requires Valid(v) && !(v.Number? && !v.number.minus)
    ensures Core(v) != "" && !IsDigit(Core(v)[0])
  {
    hide PrintItems, PrintFields, PrintPieces;
  }

  lemma NumberCore(v: Json)
    requires Valid(v) && v.Number?
    ensures Core(v) == PrintNumber(v.number) && ValidNumber(v.number) && DigitsOnly(v.number.whole)
  {
  }

  /** Where the digits of a number end, and what stands behind them. */
  lemma NumberOfDigits(text: string, p: nat, n: NumberText)
    requires ValidNumber(n) && !n.minus && Has(text, p, PrintNumber(n)) && Delimited(text, p + |PrintNumber(n)|)
    ensures p + |n.whole| <= |text| && text[p..p + |n.whole|] == n.whole
    ensures DigitAt(text, p) && Digits(text, p) == p + |n.whole|
    ensures text[p] == '0' ==> !DigitAt(text, p + 1)
    ensures (At(text, p + |n.whole|, '.') || At(text, p + |n.whole|, 'e') || At(text, p + |n.whole|, 'E'))
      <==> n.fraction != "" || n.exponent != ""
    ensures n.fraction == "" && n.exponent == "" ==> |PrintNumber(n)| == |n.whole|
  {
    hide Has, Digits, AllDigits, ValidExponent, Delimited;
    var tail := n.fraction + n.exponent;
    assert PrintNumber(n) == n.whole + tail;
    HasConcat(text, p, n.whole, tail);
    HasMeans(text, p, n.whole);
    TailIsNoDigit(text, p + |n.whole|, n.fraction, n.exponent);
    DigitsExact(text, p, n.whole);
    TailStarts(text, p + |n.whole|, n.fraction, n.exponent);
    WholeStarts(text, p, n.whole);
  }

  lemma WholeStarts(text: string, p: nat, whole: string)
    requires AllDigits(whole) && (whole[0] == '0' ==> |whole| == 1) && Has(text, p, whole) && !DigitAt(text, p + |whole|)
    ensures p < |text| && (text[p] == '0' ==> !DigitAt(text, p + 1))
  {
    HasFirst(text, p, whole);
  }

  lemma TailStarts(text: string, pos: nat, fraction: string, exponent: string)
    requires fraction == "" || fraction[0] == '.'
    requires ValidExponent(exponent) && Has(text, pos, fraction + exponent)
    requires Delimited(text, pos + |fraction| + |exponent|)
    ensures (At(text, pos, '.') || At(text, pos, 'e') || At(text, pos, 'E')) <==> fraction != "" || exponent != ""
  {
    hide Has;
    if fraction + exponent != "" {
      HasFirst(text, pos, fraction + exponent);
    }
  }

  lemma ValueExact(text: string, pos: nat, v: Json, key: string, d: Draft)
    requires Valid(v) && Has(text, pos, Print(v)) && Delimited(text, pos + |Print(v)|)
    ensures pos <= |text|
    ensures ValueAt(text, pos, key, d)
         == if ValueOf(v, key, d).Some? then Some(Found(ValueOf(v, key, d).value, pos + |Print(v)|)) else None
  {
    hide Has, LimitedAt, TextOf, NumberAt, SizeOf, Skip, Print, Delimited;
    StringOfValue(text, pos, v, PATH_SIZE);
    StringOfValue(text, pos, v, KEY_SIZE);
    StringOfValue(text, pos, v, SHA_SIZE);
    SizeOfValue(text, pos, v);
    SkipExact(text, pos, 0, v);
  }

  /** The key of a member, and where its value is. */
  lemma KeyOfField(text: string, pos: nat, fields: Fields) returns (at: nat)
    requires fields.Field? && ValidFields(fields) && Has(text, pos, PrintFields(fields))
    ensures pos < at <= |text| && Has(text, at, Print(fields.field)) && Has(text, at + |Print(fields.field)|, FieldTail(fields))
    ensures pos + |PrintFields(fields)| == at + |Print(fields.field)| + |FieldTail(fields)|
    ensures KeyAt(text, pos) == if KeyOf(fields.key).Some? then Some(Read(KeyOf(fields.key).value, at)) else None
  {
    hide Has, Space, StringAt, Print, PrintFields, FieldTail, Meanings;
    at := FieldPosition(text, pos, fields);
    HasConcat(text, at, Print(fields.field), FieldTail(fields));
  }

  lemma {:induction false} MembersExact(text: string, pos: nat, fields: Fields, close: string, d: Draft)
    requires fields.Field? && ValidFields(fields) && Blank(close) && Has(text, pos, PrintFields(fields) + (close + "}"))
    ensures pos <= |text|
    ensures MembersAt(text, pos, d) == if DraftOf(fields, d).Some?
      then Some(Found(DraftOf(fields, d).value, pos + |PrintFields(fields)| + |close| + 1)) else None
    decreases fields
  {
    hide Has, Space, KeyAt, ValueAt, ValueOf, KeyOf, MembersAt, Print, PrintFields, Delimited, FieldTail;
    HasConcat(text, pos, PrintFields(fields), close + "}");
    var at := KeyOfField(text, pos, fields);
    MembersStep(text, pos, d);
    if KeyOf(fields.key).Some? {
      var key, end := KeyOf(fields.key).value, at + |Print(fields.field)|;
      HasConcat(text, end, FieldTail(fields), close + "}");
      FieldEnd(text, end, fields, close);
      ValueExact(text, at, fields.field, key, d);
      if ValueOf(fields.field, key, d).Some? && fields.rest.Field? {
        MembersExact(text, end + |fields.comma| + 1, fields.rest, close, ValueOf(fields.field, key, d).value);
      }
    }
  }

  lemma EntryExact(text: string, pos: nat, v: Json)
    requires Valid(v) && Has(text, pos, Print(v))
    ensures pos <= |text|
    ensures EntryAt(text, pos) == if EntryOf(v).Some? then Some(Found(EntryOf(v).value, pos + |Print(v)|)) else None
  {
    hide Has, Space, Print, Core, PrintFields, MembersAt, DraftOf, Accepted, ValidFields, Delimited;
    var p := ValueHead(text, pos, v);
    if v.Record? {
      RecordCore(text, p, v);
      if v.fields.NoFields? {
        NothingItems();
        assert PrintFields(v.fields) + (v.close + "}") == v.close + ['}'];
        CloseExact(text, p + 1, v.close, '}');
        NothingDrafted();
      } else {
        SpaceBeforeFields(text, p + 1, v.fields, v.close);
        MembersExact(text, p + 1, v.fields, v.close, NO_DRAFT);
      }
    }
  }

  lemma NothingDrafted()
    ensures ValidFields(NoFields) && DraftOf(NoFields, NO_DRAFT) == Some(NO_DRAFT) && PartsOf(NoFields, NO_LISTING) == Some(NO_LISTING)
  {
  }

  lemma {:induction false} EntriesExact(text: string, pos: nat, items: Items, close: string)
    requires items.Item? && ValidItems(items) && Blank(close) && Has(text, pos, PrintItems(items) + (close + "]"))
    ensures pos <= |text|
    ensures EntriesAt(text, pos) == if EntriesOf(items).Some?
      then Some(Found(EntriesOf(items).value, pos + |PrintItems(items)| + |close| + 1)) else None
    decreases items
  {
    hide Has, Space, EntryAt, EntriesAt, EntryOf, Print, Delimited;
    var value, rest := Print(items.value), if items.rest.NoItems? then "" else items.comma + ("," + PrintItems(items.rest));
    assert PrintItems(items) + (close + "]") == value + (rest + (close + [']']));
    HasConcat(text, pos, value, rest + (close + [']']));
    AfterMember(text, pos + |value|, items.rest.NoItems?, items.comma, PrintItems(items.rest), close, ']');
    EntryExact(text, pos, items.value);
    EntriesUnfold(text, pos);
    if items.rest.Item? {
      EntriesExact(text, pos + |value| + |items.comma| + 1, items.rest, close);
    } else if EntryOf(items.value).Some? {
      assert Listed(EntryOf(items.value).value) + [] == Listed(EntryOf(items.value).value);
    }
  }

  lemma NothingListed()
    ensures EntriesOf(NoItems) == Some([])
  {
  }

  lemma ListIsExact(text: string, pos: nat, v: Json)
    requires Valid(v) && Has(text, pos, Print(v))
    ensures pos <= |text|
    ensures ListAt(text, pos) == if v.List? && EntriesOf(v.items).Some?
                                 then Some(Found(EntriesOf(v.items).value, pos + |Print(v)|)) else None
  {
    hide Has, Space, Print, Core, PrintItems, EntriesAt, EntriesOf, ValidItems, Delimited;
    var p := ValueHead(text, pos, v);
    if v.List? {
      ListCore(text, p, v);
      if v.items.NoItems? {
        NothingItems();
        NothingListed();
        assert PrintItems(v.items) + (v.close + "]") == v.close + [']'];
        CloseExact(text, p + 1, v.close, ']');
      } else {
        SpaceBeforeItems(text, p + 1, v.items, v.close);
        EntriesExact(text, p + 1, v.items, v.close);
      }
    }
  }

  lemma PartExact(text: string, pos: nat, v: Json, key: string, l: Listing)
    requires Valid(v) && Has(text, pos, Print(v)) && Delimited(text, pos + |Print(v)|)
    ensures pos <= |text|
    ensures PartAt(text, pos, key, l)
         == if PartOf(v, key, l).Some? then Some(Found(PartOf(v, key, l).value, pos + |Print(v)|)) else None
  {
    hide Has, WordAt, ListAt, EntriesOf, Skip, Print, Delimited;
    WordOfValue(text, pos, v, "true");
    WordOfValue(text, pos, v, "false");
    ListIsExact(text, pos, v);
    SkipExact(text, pos, 0, v);
  }

  lemma {:induction false} PartsExact(text: string, pos: nat, fields: Fields, close: string, l: Listing)
    requires fields.Field? && ValidFields(fields) && Blank(close) && Has(text, pos, PrintFields(fields) + (close + "}"))
    ensures pos <= |text|
    ensures PartsAt(text, pos, l) == if PartsOf(fields, l).Some?
      then Some(Found(PartsOf(fields, l).value, pos + |PrintFields(fields)| + |close| + 1)) else None
    decreases fields
  {
    hide Has, Space, KeyAt, PartAt, PartOf, KeyOf, PartsAt, Print, PrintFields, Delimited, FieldTail;
    HasConcat(text, pos, PrintFields(fields), close + "}");
    var at := KeyOfField(text, pos, fields);
    PartsStep(text, pos, l);
    if KeyOf(fields.key).Some? {
      var key, end := KeyOf(fields.key).value, at + |Print(fields.field)|;
      HasConcat(text, end, FieldTail(fields), close + "}");
      FieldEnd(text, end, fields, close);
      PartExact(text, at, fields.field, key, l);
      if PartOf(fields.field, key, l).Some? && fields.rest.Field? {
        PartsExact(text, end + |fields.comma| + 1, fields.rest, close, PartOf(fields.field, key, l).value);
      }
    }
  }

  lemma DocumentExact(text: string, pos: nat, v: Json)
    requires Valid(v) && Has(text, pos, Print(v))
    ensures pos <= |text|
    ensures DocumentAt(text, pos) == if v.Record? && PartsOf(v.fields, NO_LISTING).Some?
                                     then Some(Found(PartsOf(v.fields, NO_LISTING).value, pos + |Print(v)|)) else None
  {
    hide Has, Space, Print, Core, PrintFields, PartsAt, PartsOf, ValidFields, Delimited;
    var p := ValueHead(text, pos, v);
    if v.Record? {
      RecordCore(text, p, v);
      if v.fields.NoFields? {
        NothingItems();
        assert PrintFields(v.fields) + (v.close + "}") == v.close + ['}'];
        CloseExact(text, p + 1, v.close, '}');
        NothingDrafted();
      } else {
        SpaceBeforeFields(text, p + 1, v.fields, v.close);
        PartsExact(text, p + 1, v.fields, v.close, NO_LISTING);
      }
    }
  }

  /** For every JSON document of any nesting, with white space behind it: parseGitTree's reading gives
      the listing the document stands for, and refuses it when it stands for none. */
  lemma ListingExact(text: string, v: Json, tail: string)
    requires Valid(v) && Blank(tail) && text == Print(v) + tail
    ensures ListingAt(text) == ListingOf(v)
  {
    hide Space, Print, DocumentAt, PartsOf;
    assert Has(text, 0, Print(v)) by { assert text[0..|Print(v)|] == Print(v); }
    DocumentExact(text, 0, v);
    TailIsSpace(text, |Print(v)|, tail);
  }

  /** Some member has a name too long for the key buffer. */
  ghost predicate HasLongName(fields: Fields)
    requires ValidFields(fields)
  {
    fields.Field?
    && ((Meanings(fields.key).Some? && KEY_SIZE <= |Meanings(fields.key).value|) || HasLongName(fields.rest))
  }

  lemma {:induction false} LongNameIsRefused(fields: Fields, l: Listing)
    requires ValidFields(fields) && HasLongName(fields)
    ensures PartsOf(fields, l) == None
  {
    if KeyOf(fields.key).Some? && PartOf(fields.field, KeyOf(fields.key).value, l).Some? {
      LongNameIsRefused(fields.rest, PartOf(fields.field, KeyOf(fields.key).value, l).value);
    }
  }

  /** A long name does not just hide its own value: it refuses the whole document, whatever else
      the document says. */
  lemma LongNameRefusesTree(text: string, v: Json, tail: string)
    requires Valid(v) && Blank(tail) && text == Print(v) + tail
    requires v.Record? && HasLongName(v.fields)
    ensures ListingAt(text) == None
  {
    ListingExact(text, v, tail);
    LongNameIsRefused(v.fields, NO_LISTING);
  }

  lemma TailIsSpace(text: string, pos: nat, tail: string)
    requires pos <= |text| && text[pos..] == tail && Blank(tail)
    ensures Space(text, pos) == |text|
  {
    hide Space;
    forall i | pos <= i < |text| ensures IsSpace(text[i]) {
      assert text[i] == tail[i - pos];
    }
  }

  // ----- And whatever they accept is such a document -----

  lemma TextSound(text: string, pos: nat) returns (v: Json)
    requires pos <= |text| && StringAt(text, pos).Some?
    ensures Valid(v) && Has(text, pos, Print(v)) && StringAt(text, pos).value.next == pos + |Print(v)|
  {
    hide Has, Space, Body, Quoted, Meanings;
    var p := Space(text, pos);
    SpaceSlice(text, pos);
    var pieces := QuotedSound(text, p);
    v := Text(text[pos..p], pieces);
    HasConcat(text, pos, text[pos..p], Quoted(pieces));
  }

  lemma SizeSound(text: string, pos: nat) returns (v: Json)
    requires pos <= |text| && NumberAt(text, pos).Some?
    ensures Valid(v) && Has(text, pos, Print(v)) && NumberAt(text, pos).value.next == pos + |Print(v)|
  {
    hide Has, Space, Digits, Accumulate;
    var p := Space(text, pos);
    var q := Digits(text, p);
    SpaceSlice(text, pos);
    DigitsGrow(text, p);
    DigitSlice(text, p, q);
    HasSlice(text, p, q);
    var n := NumberText(false, text[p..q], "", "");
    assert text[p] == '0' ==> q == p + 1;
    assert PrintNumber(n) == text[p..q];
    v := Number(text[pos..p], n);
    HasConcat(text, pos, text[pos..p], PrintNumber(n));
  }

  lemma ValueSound(text: string, pos: nat, key: string, d: Draft) returns (v: Json)
    requires pos <= |text| && ValueAt(text, pos, key, d).Some?
    ensures Valid(v) && Has(text, pos, Print(v)) && ValueAt(text, pos, key, d).value.next == pos + |Print(v)|
  {
    hide Has, StringAt, NumberAt, Skip, Print, Valid;
    if key == "path" || key == "type" || key == "sha" {
      v := TextSound(text, pos);
    } else if key == "size" {
      v := SizeSound(text, pos);
    } else {
      v := SkipSound(text, pos, 0);
    }
  }

  /** A field without its comma, from its key and its value. */
  lemma FieldSound(text: string, pos: nat, v: Json) returns (f: Fields)
    requires pos <= |text| && KeyAt(text, pos).Some? && Valid(v) && Has(text, KeyAt(text, pos).value.next, Print(v))
    ensures f.Field? && ValidFields(f) && f.field == v && f.rest.NoFields?
    ensures Has(text, pos, FieldHead(f)) && pos + |FieldHead(f)| == KeyAt(text, pos).value.next
  {
    hide Has, Space, StringAt, Print, Quoted, Valid, ValidPieces, Meanings;
    var keyWs, key, colon := KeySound(text, pos);
    f := Field(keyWs, key, colon, v, "", NoFields);
  }

  lemma FieldsJoin(f: Fields, comma: string, rest: Fields)
    requires f.Field? && ValidFields(f) && Blank(comma) && ValidFields(rest)
    ensures ValidFields(Field(f.keyWs, f.key, f.colon, f.field, comma, rest))
  {
    hide Valid, ValidPieces;
  }

  lemma {:induction false} MembersSound(text: string, pos: nat, d: Draft) returns (fields: Fields, close: string)
    requires pos <= |text| && MembersAt(text, pos, d).Some?
    ensures fields.Field? && ValidFields(fields) && Blank(close) && Has(text, pos, PrintFields(fields) + (close + "}"))
    ensures MembersAt(text, pos, d).value.next == pos + |PrintFields(fields)| + |close| + 1
    decreases |text| - pos
  {
    hide Has, Space, KeyAt, ValueAt, MembersAt, PrintFields, Print, Valid, ValidFields, FieldHead;
    MembersStep(text, pos, d);
    var member := MemberAt(text, pos, d).value;
    var v := ValueSound(text, KeyAt(text, pos).value.next, KeyAt(text, pos).value.content, d);
    var f := FieldSound(text, pos, v);
    var q := member.next;
    var p := Space(text, q);
    if At(text, p, ',') {
      var rest, end := MembersSound(text, p + 1, member.value);
      FieldMore(text, pos, f, q, rest, end);
      FieldsJoin(f, text[q..p], rest);
      fields, close := Field(f.keyWs, f.key, f.colon, f.field, text[q..p], rest), end;
    } else {
      FieldLast(text, pos, f, q);
      fields, close := f, text[q..p];
    }
  }

  lemma EntrySound(text: string, pos: nat) returns (v: Json)
    requires pos <= |text| && EntryAt(text, pos).Some?
    ensures Valid(v) && Has(text, pos, Print(v)) && EntryAt(text, pos).value.next == pos + |Print(v)|
  {
    hide Has, Space, MembersAt, PrintFields, Print, Valid, ValidFields, Accepted;
    var p := Space(text, pos);
    var q := Space(text, p + 1);
    var fields, close := NoFields, text[p + 1..q];
    if At(text, q, '}') {
      EmptyRecord(text, p + 1);
    } else {
      fields, close := MembersSound(text, p + 1, NO_DRAFT);
    }
    v := RecordValue(text, pos, p, fields, close);
  }

  lemma EmptyRecord(text: string, pos: nat)
    requires pos <= |text|
    ensures var q := Space(text, pos);
      && ValidFields(NoFields) && Blank(text[pos..q]) && |text[pos..q]| == q - pos && PrintFields(NoFields) == ""
      && (At(text, q, '}') ==> Has(text, pos, PrintFields(NoFields) + (text[pos..q] + "}")))
  {
    hide Has, Space;
    var q := Space(text, pos);
    NothingItems();
    SpaceSlice(text, pos);
    HasOne(text, q, '}');
    HasConcat(text, pos, text[pos..q], "}");
    assert PrintFields(NoFields) + (text[pos..q] + "}") == text[pos..q] + "}";
  }

  lemma {:induction false} EntriesSound(text: string, pos: nat) returns (items: Items, close: string)
    requires pos <= |text| && EntriesAt(text, pos).Some?
    ensures items.Item? && ValidItems(items) && Blank(close) && Has(text, pos, PrintItems(items) + (close + "]"))
    ensures EntriesAt(text, pos).value.next == pos + |PrintItems(items)| + |close| + 1
    decreases |text| - pos
  {
    hide Has, Space, EntryAt, EntriesAt, Print, PrintItems, Valid;
    EntriesUnfold(text, pos);
    var v := EntrySound(text, pos);
    var q := EntryAt(text, pos).value.next;
    var p := Space(text, q);
    if At(text, p, ',') {
      var rest, end := EntriesSound(text, p + 1);
      ItemMore(text, pos, v, q, rest, end);
      items, close := Item(v, text[q..p], rest), end;
    } else {
      ItemLast(text, pos, v, q);
      items, close := Item(v, "", NoItems), text[q..p];
    }
  }

  lemma ListSoundness(text: string, pos: nat) returns (v: Json)
    requires pos <= |text| && ListAt(text, pos).Some?
    ensures Valid(v) && Has(text, pos, Print(v)) && ListAt(text, pos).value.next == pos + |Print(v)|
  {
    hide Has, Space, EntriesAt, PrintItems, Print, Valid, ValidItems;
    var p := Space(text, pos);
    var q := Space(text, p + 1);
    var items, close := NoItems, text[p + 1..q];
    if At(text, q, ']') {
      EmptyList(text, p + 1);
    } else {
      items, close := EntriesSound(text, p + 1);
    }
    v := ListValue(text, pos, p, items, close);
  }

  lemma EmptyList(text: string, pos: nat)
    requires pos <= |text|
    ensures var q := Space(text, pos);
      && ValidItems(NoItems) && Blank(text[pos..q]) && |text[pos..q]| == q - pos && PrintItems(NoItems) == ""
      && (At(text, q, ']') ==> Has(text, pos, PrintItems(NoItems) + (text[pos..q] + "]")))
  {
    hide Has, Space;
    var q := Space(text, pos);
    NothingItems();
    SpaceSlice(text, pos);
    HasOne(text, q, ']');
    HasConcat(text, pos, text[pos..q], "]");
    assert PrintItems(NoItems) + (text[pos..q] + "]") == text[pos..q] + "]";
  }

  lemma PartSound(text: string, pos: nat, key: string, l: Listing) returns (v: Json)
    requires pos <= |text| && PartAt(text, pos, key, l).Some?
    ensures Valid(v) && Has(text, pos, Print(v)) && PartAt(text, pos, key, l).value.next == pos + |Print(v)|
  {
    hide Has, Space, ListAt, Skip, Print, Valid, Literal;
    if key == "truncated" {
      if WordAt(text, pos, "true").Some? {
        v := WordValue(text, pos, Space(text, pos), "true");
      } else {
        v := WordValue(text, pos, Space(text, pos), "false");
      }
    } else if key == "tree" {
      v := ListSoundness(text, pos);
    } else {
      v := SkipSound(text, pos, 0);
    }
  }

  lemma {:induction false} PartsSound(text: string, pos: nat, l: Listing) returns (fields: Fields, close: string)
    requires pos <= |text| && PartsAt(text, pos, l).Some?
    ensures fields.Field? && ValidFields(fields) && Blank(close) && Has(text, pos, PrintFields(fields) + (close + "}"))
    ensures PartsAt(text, pos, l).value.next == pos + |PrintFields(fields)| + |close| + 1
    decreases |text| - pos
  {
    hide Has, Space, KeyAt, PartAt, PartsAt, PrintFields, Print, Valid, ValidFields, FieldHead;
    PartsStep(text, pos, l);
    var part := KeyedPartAt(text, pos, l).value;
    var v := PartSound(text, KeyAt(text, pos).value.next, KeyAt(text, pos).value.content, l);
    var f := FieldSound(text, pos, v);
    var q := part.next;
    var p := Space(text, q);
    if At(text, p, ',') {
      var rest, end := PartsSound(text, p + 1, part.value);
      FieldMore(text, pos, f, q, rest, end);
      FieldsJoin(f, text[q..p], rest);
      fields, close := Field(f.keyWs, f.key, f.colon, f.field, text[q..p], rest), end;
    } else {
      FieldLast(text, pos, f, q);
      fields, close := f, text[q..p];
    }
  }

  /** Whatever parseGitTree accepts prints one JSON document with white space behind it, and what it
      returns is the listing that document stands for: the entries of its "tree" list, in order. */
  lemma ListingSound(text: string) returns (v: Json, tail: string)
    requires ListingAt(text).Some?
    ensures Valid(v) && Blank(tail) && text == Print(v) + tail && ListingOf(v) == ListingAt(text)
  {
    hide Has, Space, PartsAt, PrintFields, Print, Valid, ValidFields, ListingOf;
    var p := Space(text, 0);
    assert !At(text, Space(text, p + 1), '}');
    var fields, close := PartsSound(text, p + 1, NO_LISTING);
    v := RecordValue(text, 0, p, fields, close);
    var end := DocumentAt(text, 0).value.next;
    HasMeans(text, 0, Print(v));
    SpaceSlice(text, end);
    tail := text[end..];
    assert text[end..Space(text, end)] == tail;
    assert text == text[0..|Print(v)|] + tail;
    ListingExact(text, v, tail);
  }
}
