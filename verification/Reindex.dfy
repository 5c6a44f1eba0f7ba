/** Indexing a directory: comparing the files on disk with the database and recording local edits. */
module Reindex {
  import opened SyncTypes
  import opened Store
  import opened Blocks

  const MAX_COUNTER: u64 := 0xffff_ffff_ffff_ffff

  /** A file as the directory listing yields it. */
  datatype Entry = Entry(name: string, data: Bytes)

  ghost predicate DistinctNames(listing: seq<Entry>) {
    forall i, j :: 0 <= i < j < |listing| ==> listing[i].name != listing[j].name
  }

  /** Where `generate_index` stands; `ok` is false after a panic. */
  datatype Scan = Scan(db: Db, local: Db, changed: bool, ok: bool)

  /** A row whose newest version is not the one on disk: local changes to it are ignored. */
  predicate Behind(row: File) {
    row.versions != [] && Last(row.versions).counter > row.synced
  }

  /** A file seen for the first time: one version, authored here, and on disk. */
  function NewFile(me: u64, name: string, hash: Bytes, blocks: seq<Block>): File {
    File(None, name, hash, me, 0, [Version(me, 0)], blocks)
  }

  /** The row after a local edit: one more version, authored here, and on disk already. */
  function Edited(me: u64, row: File, hash: Bytes, blocks: seq<Block>): File
    requires row.versions != [] && Last(row.versions).counter < MAX_COUNTER
  {
    var v := Last(row.versions).counter + 1;
    row.(synced := v, versions := row.versions + [Version(me, v)], hash := hash, blocks := blocks)
  }

  /** One iteration of the loop over the directory. */
  function ScanEntry(m: Scan, e: Entry, me: u64, H: HashFn): (r: Scan)
    requires SnapshotOf(m.local, m.db)
    ensures SnapshotOf(r.local, r.db)
  {
    var i := FindName(m.local, e.name);
    var blocks := BlocksOf(e.data, H);
    if i < |m.local| then
      var row := m.local[i];
      if row.versions == [] then m.(ok := false)
      else if Behind(row) || H(e.data) == row.hash then m
      else if Last(row.versions).counter == MAX_COUNTER || blocks.None? then m.(ok := false)
      else
        var f := Edited(me, row, H(e.data), blocks.value);
        match StoreFile(m.db, f)
        case Stored(db') => Scan(db', m.local[i := f], true, true)
        case Asserted(db') => Scan(db', m.local[i := f], true, false)
    else if blocks.None? then m.(ok := false)
    else
      match StoreFile(m.db, NewFile(me, e.name, H(e.data), blocks.value))
      case Stored(db') => Scan(db', m.local, true, true)
      case Asserted(db') => Scan(db', m.local, m.changed, false)
  }

  function ScanEntries(m: Scan, listing: seq<Entry>, me: u64, H: HashFn): (r: Scan)
    requires SnapshotOf(m.local, m.db)
    ensures SnapshotOf(r.local, r.db)
    decreases |listing|
  {
    if listing == [] || !m.ok then m else ScanEntries(ScanEntry(m, listing[0], me, H), listing[1..], me, H)
  }

  /** The scan run without interruption. */
  function Scanned(db: Db, listing: seq<Entry>, me: u64, H: HashFn): Scan
    requires ValidDb(db)
  {
    ValidIsSnapshot(db);
    ScanEntries(Scan(db, db, false, true), listing, me, H)
  }

  /** Comparing hashes byte by byte. */
  method CompHashes(h1: Bytes, h2: Bytes) returns (same: bool)
    ensures same <==> h1 == h2
  {
    if |h1| != |h2| {
      return false;
    }
    for i := 0 to |h1|
      invariant h1[..i] == h2[..i]
    {
      if h1[i] != h2[i] {
        return false;
      }
      assert h1[..i + 1] == h1[..i] + [h1[i]] && h2[..i + 1] == h2[..i] + [h2[i]];
    }
    assert h1 == h1[..|h1|] && h2 == h2[..|h1|];
    same := true;
  }

  method GenerateIndex(state: BepState, listing: seq<Entry>, me: u64, H: HashFn) returns (changed: bool, ok: bool)
    requires state.Valid()
    modifies state
    ensures state.Valid()
    ensures ValidDb(old(state.Rows()))
    ensures var m := Scanned(old(state.Rows()), listing, me, H);
            state.Rows() == m.db && ok == m.ok && (ok ==> changed == m.changed)
  {
    var local := state.GetSyncFiles();
    ValidIsSnapshot(local);
    changed := false;
    ghost var start := Scan(local, local, false, true);
    for k := 0 to |listing|
      invariant state.Valid()
      invariant SnapshotOf(local, state.Rows())
      invariant ScanEntries(start, listing, me, H) == ScanEntries(Scan(state.Rows(), local, changed, true), listing[k..], me, H)
    {
      var e := listing[k];
      assert listing[k..][0] == e && listing[k..][1..] == listing[k + 1..];
      var hash := H(e.data);
      var i := FindName(local, e.name);
      if i < |local| {
        if local[i].versions == [] {
          return changed, false;
        }
        if Last(local[i].versions).counter > local[i].synced {
          continue;
        }
        var same := CompHashes(hash, local[i].hash);
        if !same {
          if Last(local[i].versions).counter == MAX_COUNTER {
            return changed, false;
          }
          changed := true;
          var vnumber := Last(local[i].versions).counter + 1;
          var blocks := GenBlocks(e.data, H);
          if blocks.None? {
            return changed, false;
          }
          var f := local[i].(synced := vnumber, versions := local[i].versions + [Version(me, vnumber)],
                             hash := hash, blocks := blocks.value);
          local := local[i := f];
          var stored := state.UpdateSyncFile(f);
          if !stored {
            return changed, false;
          }
        }
      } else {
        var blocks := GenBlocks(e.data, H);
        if blocks.None? {
          return changed, false;
        }
        var stored := state.UpdateSyncFile(File(None, e.name, hash, me, 0, [Version(me, 0)], blocks.value));
        if !stored {
          return changed, false;
        }
        changed := true;
      }
    }
    ok := true;
  }

  // ---------------------------------------------------------------------------
  // The scan row by row
  // ---------------------------------------------------------------------------

  /** The entry makes the scan store something: an unknown name, or a synced row with another hash. */
  predicate Touches(row: Option<File>, e: Entry, H: HashFn) {
    row.None? || (!Behind(row.value) && H(e.data) != row.value.hash)
  }

  /** Recording the entry cannot panic. */
  predicate Recordable(row: Option<File>, e: Entry, H: HashFn) {
    && BlocksOf(e.data, H).Some?
    && (row.Some? ==> row.value.versions != [] && Last(row.value.versions).counter < MAX_COUNTER)
  }

  function ScanRow(db: Db, e: Entry, me: u64, H: HashFn): Db
    requires Recordable(RowOf(db, e.name), e, H)
  {
    var i := FindName(db, e.name);
    var blocks := BlocksOf(e.data, H).value;
    if i == |db| then db + [NewFile(me, e.name, H(e.data), blocks).(id := Some(i))]
    else if Touches(Some(db[i]), e, H) then db[i := Edited(me, db[i], H(e.data), blocks)]
    else db
  }

  lemma BlocksAreOrdered(data: Bytes, H: HashFn)
    requires BlocksOf(data, H).Some?
    ensures OffsetOrdered(BlocksOf(data, H).value)
    ensures BlocksOf(data, H).value != []
  {
    BlockCountBounds(data);
    var blocks := BlocksOf(data, H).value;
    forall i, j | 0 <= i < j < |blocks| ensures blocks[i].offset <= blocks[j].offset {
      MulMonotone(i, j, BlockLen(data));
      OffsetInFile(data, i);
      OffsetInFile(data, j);
    }
  }

  /** The copy still agrees with the database on every name left in the listing. */
  ghost predicate Aligned(m: Scan, listing: seq<Entry>) {
    && ValidDb(m.db)
    && SnapshotOf(m.local, m.db)
    && m.ok
    && forall k :: 0 <= k < |listing| ==> AgreeOn(m.local, m.db, listing[k].name)
  }

  lemma StoreEdited(db: Db, i: nat, e: Entry, me: u64, H: HashFn)
    requires ValidDb(db) && i < |db|
    requires Recordable(Some(db[i]), e, H)
    ensures var f := Edited(me, db[i], H(e.data), BlocksOf(e.data, H).value);
            f.id == Some(i) && StoreFile(db, f) == Stored(db[i := f]) && ValidDb(db[i := f])
  {
    assert ValidRow(db[i], i);
    BlocksAreOrdered(e.data, H);
    var f := Edited(me, db[i], H(e.data), BlocksOf(e.data, H).value);
    StoreReadBack(db, f);
    ValidUpdate(db, i, f);
  }

  lemma StoreNew(db: Db, e: Entry, me: u64, H: HashFn)
    requires ValidDb(db) && BlocksOf(e.data, H).Some?
    ensures var f := NewFile(me, e.name, H(e.data), BlocksOf(e.data, H).value);
            StoreFile(db, f) == Stored(db + [f.(id := Some(|db|))]) && ValidDb(db + [f.(id := Some(|db|))])
  {
    BlocksAreOrdered(e.data, H);
    SortedReadBack(BlocksOf(e.data, H).value);
    ValidAppend(db, NewFile(me, e.name, H(e.data), BlocksOf(e.data, H).value).(id := Some(|db|)));
  }

  /** One entry: it panics exactly when it has something to record and cannot; otherwise it is ScanRow. */
  lemma ScanEntryIsScanRow(m: Scan, listing: seq<Entry>, me: u64, H: HashFn)
    requires listing != [] && Aligned(m, listing)
    ensures var row, e, m' := RowOf(m.db, listing[0].name), listing[0], ScanEntry(m, listing[0], me, H);
            && (m'.ok <==> (Touches(row, e, H) ==> Recordable(row, e, H)))
            && (m'.ok ==> m'.changed == (m.changed || Touches(row, e, H)))
            && (m'.ok ==> m'.db == if Touches(row, e, H) then ScanRow(m.db, e, me, H) else m.db)
            && (m'.ok ==> ValidDb(m'.db))
            && (!m'.ok ==> m'.db == m.db)
  {
    var e := listing[0];
    assert AgreeOn(m.local, m.db, e.name);
    var i := FindName(m.local, e.name);
    assert i < |m.local| ==> ValidRow(m.db[i], i);
    var row := RowOf(m.db, e.name);
    if Touches(row, e, H) && Recordable(row, e, H) {
      if i < |m.local| {
        StoreEdited(m.db, i, e, me, H);
      } else {
        StoreNew(m.db, e, me, H);
      }
    }
  }

  lemma StaysAligned(m: Scan, listing: seq<Entry>, me: u64, H: HashFn)
    requires listing != [] && Aligned(m, listing) && DistinctNames(listing)
    requires ScanEntry(m, listing[0], me, H).ok
    ensures Aligned(ScanEntry(m, listing[0], me, H), listing[1..])
  {
    var e := listing[0];
    ScanEntryIsScanRow(m, listing, me, H);
    assert AgreeOn(m.local, m.db, e.name);
    var m' := ScanEntry(m, e, me, H);
    var i := FindName(m.local, e.name);
    forall k | 0 <= k < |listing[1..]| ensures AgreeOn(m'.local, m'.db, listing[1..][k].name) {
      assert listing[1..][k] == listing[k + 1];
      assert AgreeOn(m.local, m.db, listing[k + 1].name);
      if i == |m.local| {
        AgreeAfterAppend(m.local, m.db, m'.db[|m.db|], listing[k + 1].name);
      } else if m' != m {
        AgreeAfterUpdate(m.local, m.db, i, m'.local[i], m'.db[i], listing[k + 1].name);
      }
    }
  }

  /** What an entry makes of the row under its name. */
  ghost predicate RowScanned(before: Option<File>, e: Entry, me: u64, H: HashFn, after: Option<File>) {
    if !Touches(before, e, H) then after == before
    else
      && Recordable(before, e, H)
      && after.Some?
      && (before.None? ==> after.value.(id := None) == NewFile(me, e.name, H(e.data), BlocksOf(e.data, H).value))
      && (before.Some? ==> after.value == Edited(me, before.value, H(e.data), BlocksOf(e.data, H).value))
  }

  lemma RowAfterScanRow(db: Db, e: Entry, me: u64, H: HashFn, name: string)
    requires Touches(RowOf(db, e.name), e, H) && Recordable(RowOf(db, e.name), e, H)
    ensures var db' := ScanRow(db, e, me, H);
            && (name != e.name ==> RowOf(db', name) == RowOf(db, name))
            && (name == e.name ==> RowScanned(RowOf(db, name), e, me, H, RowOf(db', name)))
  {
    var i := FindName(db, e.name);
    var blocks := BlocksOf(e.data, H).value;
    if i == |db| {
      FindNameAppend(db, NewFile(me, e.name, H(e.data), blocks).(id := Some(i)), name);
    } else {
      FindNameUpdate(db, i, Edited(me, db[i], H(e.data), blocks), name);
    }
  }

  function FindEntry(listing: seq<Entry>, name: string): (i: nat)
    ensures i <= |listing|
    ensures i < |listing| ==> listing[i].name == name
    ensures forall j :: 0 <= j < i ==> listing[j].name != name
  {
    var names := seq(|listing|, k requires 0 <= k < |listing| => listing[k].name);
    assert forall j :: 0 <= j < |listing| ==> names[j] == listing[j].name;
    Position(names, name)
  }

  lemma FindEntryFrom(listing: seq<Entry>, name: string)
    requires listing != []
    ensures FindEntry(listing, name) == if listing[0].name == name then 0 else 1 + FindEntry(listing[1..], name)
  {
    var k := FindEntry(listing[1..], name);
    assert k < |listing| - 1 ==> listing[k + 1].name == name;
    assert forall j :: 0 < j < |listing| ==> listing[j] == listing[1..][j - 1];
  }

  lemma ScanStep(m: Scan, listing: seq<Entry>, me: u64, H: HashFn, name: string)
    requires listing != [] && Aligned(m, listing) && DistinctNames(listing)
    requires ScanEntry(m, listing[0], me, H).ok
    ensures var m' := ScanEntry(m, listing[0], me, H);
            && Aligned(m', listing[1..])
            && (name != listing[0].name ==> RowOf(m'.db, name) == RowOf(m.db, name))
            && (name == listing[0].name ==> RowScanned(RowOf(m.db, name), listing[0], me, H, RowOf(m'.db, name)))
  {
    var e := listing[0];
    StaysAligned(m, listing, me, H);
    ScanEntryIsScanRow(m, listing, me, H);
    if Touches(RowOf(m.db, e.name), e, H) {
      RowAfterScanRow(m.db, e, me, H, name);
    }
  }

  lemma {:induction false} RowAfterScan(m: Scan, listing: seq<Entry>, me: u64, H: HashFn, name: string)
    requires Aligned(m, listing) && DistinctNames(listing)
    requires ScanEntries(m, listing, me, H).ok
    ensures var db', i := ScanEntries(m, listing, me, H).db, FindEntry(listing, name);
            && ValidDb(db')
            && (i == |listing| ==> RowOf(db', name) == RowOf(m.db, name))
            && (i < |listing| ==> RowScanned(RowOf(m.db, name), listing[i], me, H, RowOf(db', name)))
    decreases |listing|
  {
    if listing != [] {
      ScanStep(m, listing, me, H, name);
      FindEntryFrom(listing, name);
      RowAfterScan(ScanEntry(m, listing[0], me, H), listing[1..], me, H, name);
      if listing[0].name == name {
        assert FindEntry(listing[1..], name) == |listing[1..]|;
      }
    }
  }

  // ---------------------------------------------------------------------------
  // Scans that panic
  // ---------------------------------------------------------------------------

  /** The entry has something to record that cannot be recorded. */
  predicate Blocked(db: Db, e: Entry, H: HashFn) {
    Touches(RowOf(db, e.name), e, H) && !Recordable(RowOf(db, e.name), e, H)
  }

  /**
    * That is, it is new or differs from a row synced to its newest version, and it has no length in 32 bits,
    * or the row's counter is the largest there is.
    */
  lemma BlockedIff(db: Db, e: Entry, H: HashFn)
    requires ValidDb(db)
    ensures Blocked(db, e, H) <==>
            match RowOf(db, e.name)
            case None => |e.data| % 4294967296 == 0
            case Some(row) =>
              && row.versions != [] && row.synced >= Last(row.versions).counter && row.hash != H(e.data)
              && (|e.data| % 4294967296 == 0 || Last(row.versions).counter == 18446744073709551615)
  {
    var i := FindName(db, e.name);
    assert i < |db| ==> ValidRow(db[i], i);
  }

  function FirstBlocked(db: Db, listing: seq<Entry>, H: HashFn): (n: nat)
    ensures n <= |listing|
    ensures forall k :: 0 <= k < n ==> !Blocked(db, listing[k], H)
    ensures n < |listing| ==> Blocked(db, listing[n], H)
  {
    if listing == [] || Blocked(db, listing[0], H) then 0 else 1 + FirstBlocked(db, listing[1..], H)
  }

  /** Recording one entry blocks and unblocks no other. */
  lemma BlockedStays(m: Scan, listing: seq<Entry>, me: u64, H: HashFn, k: nat)
    requires listing != [] && Aligned(m, listing) && DistinctNames(listing) && ScanEntry(m, listing[0], me, H).ok
    requires 0 < k < |listing|
    ensures Blocked(ScanEntry(m, listing[0], me, H).db, listing[k], H) == Blocked(m.db, listing[k], H)
  {
    ScanStep(m, listing, me, H, listing[k].name);
  }

  /** The n-th entry is the first blocked one, or there is none. */
  ghost predicate BlockedFirst(db: Db, listing: seq<Entry>, n: nat, H: HashFn) {
    && n <= |listing|
    && (forall k :: 0 <= k < n ==> !Blocked(db, listing[k], H))
    && (n < |listing| ==> Blocked(db, listing[n], H))
  }

  lemma BlockedFirstTail(db: Db, after: Db, listing: seq<Entry>, n: nat, H: HashFn)
    requires 0 < n && BlockedFirst(db, listing, n, H)
    requires forall k :: 0 < k < |listing| ==> Blocked(after, listing[k], H) == Blocked(db, listing[k], H)
    ensures BlockedFirst(after, listing[1..], n - 1, H)
  {
    forall k | 0 <= k < n - 1 ensures !Blocked(after, listing[1..][k], H) {
      assert !Blocked(db, listing[k + 1], H);
    }
  }

  lemma BlockedFirstInRest(m: Scan, listing: seq<Entry>, n: nat, me: u64, H: HashFn)
    requires Aligned(m, listing) && DistinctNames(listing) && 0 < n && BlockedFirst(m.db, listing, n, H)
    requires ScanEntry(m, listing[0], me, H).ok
    ensures BlockedFirst(ScanEntry(m, listing[0], me, H).db, listing[1..], n - 1, H)
  {
    var after := ScanEntry(m, listing[0], me, H).db;
    forall k | 0 < k < |listing| ensures Blocked(after, listing[k], H) == Blocked(m.db, listing[k], H) {
      BlockedStays(m, listing, me, H, k);
    }
    BlockedFirstTail(m.db, after, listing, n, H);
  }

  /** One entry more in front. */
  lemma ScanFirst(m: Scan, listing: seq<Entry>, n: nat, me: u64, H: HashFn)
    requires SnapshotOf(m.local, m.db) && m.ok && 0 < n <= |listing|
    ensures ScanEntries(m, listing, me, H) == ScanEntries(ScanEntry(m, listing[0], me, H), listing[1..], me, H)
    ensures ScanEntries(m, listing[..n], me, H) == ScanEntries(ScanEntry(m, listing[0], me, H), listing[1..][..n - 1], me, H)
  {
    assert listing[..n][0] == listing[0] && listing[..n][1..] == listing[1..][..n - 1];
  }

  lemma ScanNothing(m: Scan, listing: seq<Entry>, me: u64, H: HashFn)
    requires SnapshotOf(m.local, m.db) && m.ok && listing != [] && !ScanEntry(m, listing[0], me, H).ok
    ensures ScanEntries(m, listing[..0], me, H) == m
    ensures ScanEntries(m, listing, me, H) == ScanEntry(m, listing[0], me, H)
  {
  }

  /** A scan does what the scan of the part before the first blocked entry does, and panics if there is such an entry. */
  lemma {:induction false} ScanUpTo(m: Scan, listing: seq<Entry>, n: nat, me: u64, H: HashFn)
    requires Aligned(m, listing) && DistinctNames(listing) && BlockedFirst(m.db, listing, n, H)
    ensures ScanEntries(m, listing[..n], me, H).ok
    ensures ScanEntries(m, listing, me, H).db == ScanEntries(m, listing[..n], me, H).db
    ensures ScanEntries(m, listing, me, H).ok <==> n == |listing|
    decreases |listing|
  {
    if listing == [] {
      assert listing[..n] == listing;
    } else {
      FirstEntryOk(m, listing, me, H);
      if n == 0 {
        ScanNothing(m, listing, me, H);
      } else {
        StaysAligned(m, listing, me, H);
        BlockedFirstInRest(m, listing, n, me, H);
        ScanFirst(m, listing, n, me, H);
        ScanUpTo(ScanEntry(m, listing[0], me, H), listing[1..], n - 1, me, H);
      }
    }
  }

  lemma FirstEntryOk(m: Scan, listing: seq<Entry>, me: u64, H: HashFn)
    requires listing != [] && Aligned(m, listing)
    ensures var m' := ScanEntry(m, listing[0], me, H);
            (m'.ok <==> !Blocked(m.db, listing[0], H)) && (!m'.ok ==> m'.db == m.db)
  {
    ScanEntryIsScanRow(m, listing, me, H);
  }

  lemma FindEntryUpTo(listing: seq<Entry>, n: nat, name: string)
    requires n <= |listing|
    ensures FindEntry(listing[..n], name) == if FindEntry(listing, name) < n then FindEntry(listing, name) else n
  {
    var i, k := FindEntry(listing, name), FindEntry(listing[..n], name);
    assert forall j :: 0 <= j < n ==> listing[..n][j] == listing[j];
    assert k < n ==> listing[k].name == name;
    assert i < n ==> listing[..n][i].name == name;
  }

  /** The whole effect of a scan, name by name: entries before the first blocked one are recorded, the others are not. */
  lemma ScannedRow(db: Db, listing: seq<Entry>, me: u64, H: HashFn, name: string)
    requires ValidDb(db) && DistinctNames(listing)
    ensures var m, i, n := Scanned(db, listing, me, H), FindEntry(listing, name), FirstBlocked(db, listing, H);
            && ValidDb(m.db) && (m.ok <==> n == |listing|)
            && (i >= n ==> RowOf(m.db, name) == RowOf(db, name))
            && (i < n ==> RowScanned(RowOf(db, name), listing[i], me, H, RowOf(m.db, name)))
  {
    ValidIsSnapshot(db);
    var start, n := Scan(db, db, false, true), FirstBlocked(db, listing, H);
    ScanUpTo(start, listing, n, me, H);
    RowAfterScan(start, listing[..n], me, H, name);
    FindEntryUpTo(listing, n, name);
  }

  /** What is recorded of a file, field by field: its hash and blocks, one version more, authored here, and synced. */
  ghost predicate Recorded(before: Option<File>, e: Entry, me: u64, H: HashFn, after: File) {
    && after.name == e.name && after.hash == H(e.data)
    && BlocksOf(e.data, H) == Some(after.blocks)
    && match before
       case None => after.versions == [Version(me, 0)] && after.synced == 0 && after.modifiedBy == me
       case Some(row) =>
         && row.versions != [] && Last(row.versions).counter < 18446744073709551615
         && after.versions == row.versions + [Version(me, Last(row.versions).counter + 1)]
         && after.synced == Last(row.versions).counter + 1
         && after.modifiedBy == row.modifiedBy && after.id == row.id
  }

  /**
    * A file that was scanned without a panic before it: recorded, if it is new, or if its row is synced to its newest version
    * and has another hash; otherwise its row stays as it is.
    */
  lemma ScannedFields(db: Db, listing: seq<Entry>, me: u64, H: HashFn, k: nat)
    requires ValidDb(db) && DistinctNames(listing) && k < FirstBlocked(db, listing, H)
    ensures k < |listing| && ValidDb(Scanned(db, listing, me, H).db)
    ensures var e := listing[k];
            var before, after := RowOf(db, e.name), RowOf(Scanned(db, listing, me, H).db, e.name);
            && after.Some?
            && match before
               case None => Recorded(None, e, me, H, after.value)
               case Some(row) =>
                 if row.synced >= Last(row.versions).counter && row.hash != H(e.data)
                 then Recorded(before, e, me, H, after.value) else after == before
  {
    var e := listing[k];
    ScannedRow(db, listing, me, H, e.name);
    assert FindEntry(listing, e.name) == k;
    var i := FindName(db, e.name);
    assert i < |db| ==> ValidRow(db[i], i);
  }

  /** No entry gives the scan anything to record. */
  ghost predicate Settled(db: Db, listing: seq<Entry>, H: HashFn) {
    forall k :: 0 <= k < |listing| ==> !Touches(RowOf(db, listing[k].name), listing[k], H)
  }

  lemma {:induction false} QuietScan(m: Scan, listing: seq<Entry>, me: u64, H: HashFn)
    requires Aligned(m, listing) && DistinctNames(listing)
    ensures Settled(m.db, listing, H) ==> ScanEntries(m, listing, me, H).ok && ScanEntries(m, listing, me, H).db == m.db
    ensures var r := ScanEntries(m, listing, me, H);
            r.ok ==> (r.changed <==> m.changed || !Settled(m.db, listing, H))
    decreases |listing|
  {
    if listing != [] {
      ScanEntryIsScanRow(m, listing, me, H);
      var m' := ScanEntry(m, listing[0], me, H);
      if m'.ok {
        StaysAligned(m, listing, me, H);
        QuietScan(m', listing[1..], me, H);
        assert Settled(m.db, listing, H) <==>
               !Touches(RowOf(m.db, listing[0].name), listing[0], H) && Settled(m'.db, listing[1..], H) by {
          forall k | 0 <= k < |listing[1..]|
            ensures listing[1..][k] == listing[k + 1]
            ensures RowOf(m'.db, listing[k + 1].name) == RowOf(m.db, listing[k + 1].name)
          {
            ScanStep(m, listing, me, H, listing[k + 1].name);
          }
        }
      }
    }
  }

  /** A scan panics exactly when some entry has something to record that cannot be recorded; no store assertion is among the reasons. */
  lemma ScanOkIff(db: Db, listing: seq<Entry>, me: u64, H: HashFn)
    requires ValidDb(db) && DistinctNames(listing)
    ensures Scanned(db, listing, me, H).ok <==>
            forall k :: 0 <= k < |listing| ==>
              Touches(RowOf(db, listing[k].name), listing[k], H) ==> Recordable(RowOf(db, listing[k].name), listing[k], H)
  {
    ValidIsSnapshot(db);
    var n := FirstBlocked(db, listing, H);
    ScanUpTo(Scan(db, db, false, true), listing, n, me, H);
    if n == |listing| {
      assert forall k :: 0 <= k < |listing| ==> !Blocked(db, listing[k], H);
    } else {
      assert Blocked(db, listing[n], H);
    }
  }

  /** A directory of files that are not empty, shorter than 4 GiB, over a database whose counters are not exhausted, is scanned to its end. */
  lemma OrdinaryScanIsOk(db: Db, listing: seq<Entry>, me: u64, H: HashFn)
    requires ValidDb(db) && DistinctNames(listing)
    requires forall k :: 0 <= k < |listing| ==> 0 < |listing[k].data| < TWO_32
    requires forall j :: 0 <= j < |db| ==> IndexVersion(db[j]) < MAX_COUNTER
    ensures Scanned(db, listing, me, H).ok
  {
    ScanOkIff(db, listing, me, H);
    forall k | 0 <= k < |listing| ensures Recordable(RowOf(db, listing[k].name), listing[k], H) {
      var i := FindName(db, listing[k].name);
      assert i < |db| ==> ValidRow(db[i], i);
    }
  }

  /** A scan broadcasts exactly when there is something to record and all of it can be recorded; a settled directory changes nothing. */
  lemma ScanChangesIff(db: Db, listing: seq<Entry>, me: u64, H: HashFn)
    requires ValidDb(db) && DistinctNames(listing)
    ensures var m := Scanned(db, listing, me, H);
            && (Settled(db, listing, H) ==> m.ok && !m.changed && m.db == db)
            && (m.ok && m.changed <==>
                !Settled(db, listing, H) && forall k :: 0 <= k < |listing| ==> !Blocked(db, listing[k], H))
  {
    ValidIsSnapshot(db);
    QuietScan(Scan(db, db, false, true), listing, me, H);
    ScanOkIff(db, listing, me, H);
    assert (forall k :: 0 <= k < |listing| ==> !Blocked(db, listing[k], H)) <==> Scanned(db, listing, me, H).ok;
  }

  lemma SettledAfterScan(db: Db, listing: seq<Entry>, me: u64, H: HashFn)
    requires ValidDb(db) && DistinctNames(listing) && Scanned(db, listing, me, H).ok
    ensures ValidDb(Scanned(db, listing, me, H).db) && Settled(Scanned(db, listing, me, H).db, listing, H)
  {
    var once := Scanned(db, listing, me, H).db;
    ScannedRow(db, listing, me, H, "");
    forall k | 0 <= k < |listing| ensures !Touches(RowOf(once, listing[k].name), listing[k], H) {
      ScannedRow(db, listing, me, H, listing[k].name);
      assert FindEntry(listing, listing[k].name) == k;
    }
  }

  /**
    * A second scan of an unchanged directory stores nothing, broadcasts nothing, and panics only if
    * the first one did, whatever the database and the files.
    */
  lemma ScanIsIdempotent(db: Db, listing: seq<Entry>, me: u64, H: HashFn)
    requires ValidDb(db) && DistinctNames(listing)
    ensures var first := Scanned(db, listing, me, H);
            && ValidDb(first.db)
            && var second := Scanned(first.db, listing, me, H);
               second.db == first.db && second.ok == first.ok && !(second.ok && second.changed)
  {
    ValidIsSnapshot(db);
    var n := FirstBlocked(db, listing, H);
    var part := listing[..n];
    ScanUpTo(Scan(db, db, false, true), listing, n, me, H);
    var once := Scanned(db, listing, me, H).db;
    SettledAfterScan(db, part, me, H);
    forall k | 0 <= k < n ensures !Touches(RowOf(once, listing[k].name), listing[k], H) {
      assert part[k] == listing[k];
    }
    if n < |listing| {
      ScannedRow(db, part, me, H, listing[n].name);
      assert FindEntry(part, listing[n].name) == n;
    }
    ValidIsSnapshot(once);
    ScanUpTo(Scan(once, once, false, true), listing, n, me, H);
    ScanChangesIff(once, part, me, H);
    ScanChangesIff(once, listing, me, H);
  }

  // ---------------------------------------------------------------------------
  // What the scan keeps
  // ---------------------------------------------------------------------------

  lemma ScanRowKeepsRows(db: Db, e: Entry, me: u64, H: HashFn)
    requires UniqueNames(db)
    requires Touches(RowOf(db, e.name), e, H) && Recordable(RowOf(db, e.name), e, H)
    ensures var db' := ScanRow(db, e, me, H);
            && UniqueNames(db') && |db| <= |db'|
            && forall i :: 0 <= i < |db| ==> db[i].versions <= db'[i].versions && db'[i].name == db[i].name
  {
  }

  lemma {:induction false} ScanKeepsRowsFrom(m: Scan, listing: seq<Entry>, me: u64, H: HashFn)
    requires Aligned(m, listing) && DistinctNames(listing) && UniqueNames(m.db)
    requires ScanEntries(m, listing, me, H).ok
    ensures var db' := ScanEntries(m, listing, me, H).db;
            && UniqueNames(db') && |m.db| <= |db'|
            && forall i :: 0 <= i < |m.db| ==> m.db[i].versions <= db'[i].versions && db'[i].name == m.db[i].name
    decreases |listing|
  {
    if listing != [] {
      ScanEntryIsScanRow(m, listing, me, H);
      StaysAligned(m, listing, me, H);
      if Touches(RowOf(m.db, listing[0].name), listing[0], H) {
        ScanRowKeepsRows(m.db, listing[0], me, H);
      }
      ScanKeepsRowsFrom(ScanEntry(m, listing[0], me, H), listing[1..], me, H);
    }
  }

  /** Histories only grow at the end, and no row is renamed or dropped, even by a scan that panics. */
  lemma ScanKeepsRows(db: Db, listing: seq<Entry>, me: u64, H: HashFn)
    requires ValidDb(db) && DistinctNames(listing) && UniqueNames(db)
    ensures var db' := Scanned(db, listing, me, H).db;
            && UniqueNames(db') && |db| <= |db'|
            && forall i :: 0 <= i < |db| ==> db[i].versions <= db'[i].versions && db'[i].name == db[i].name
  {
    ValidIsSnapshot(db);
    var start, n := Scan(db, db, false, true), FirstBlocked(db, listing, H);
    ScanUpTo(start, listing, n, me, H);
    ScanKeepsRowsFrom(start, listing[..n], me, H);
  }
}
