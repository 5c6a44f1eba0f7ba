/**
  * Peers do not take downloads for edits, over whole runs: as long as files fit one block and do not
  * shrink, a scan of an unchanged directory finds nothing to record, whenever it comes and whatever
  * else happened. `size` gives how long a file is at each length of its history.
  */
module Quiet {
  import opened SyncTypes
  import opened Storage
  import opened Blocks
  import opened Transfer
  import opened IndexMerge
  import opened Reindex
  import opened Download
  import opened Gossip
  import opened Progress
  import opened Convergence
  import opened Termination

  type Sizes = (string, nat) -> nat

  /** Files are not empty, fit one block, and are no shorter under a longer history. */
  ghost predicate Growing(size: Sizes) {
    forall name: string, m: nat, n: nat :: m <= n ==> 0 < size(name, m) <= size(name, n) < 128 * KIB
  }

  /** The row describes this content, which has the right size and is what a synced file holds. */
  ghost predicate Stands(row: File, content: Bytes, disk: Disk, size: Sizes, H: HashFn) {
    && Describes(row, content, H) && |content| == size(row.name, |row.versions|)
    && if Wanted(row, disk) then |Content(disk, row.name)| <= |content| else disk[row.name] == content
  }

  ghost predicate SizedRow(row: File, disk: Disk, size: Sizes, H: HashFn) {
    CountedRow(row) && exists content :: Stands(row, content, disk, size, H)
  }

  ghost predicate SizedNode(node: Node, size: Sizes, H: HashFn) {
    && ValidDb(node.db) && UniqueNames(node.db)
    && (forall name :: name in node.disk ==> RowOf(node.db, name).Some?)
    && (forall j :: 0 <= j < |node.db| ==> SizedRow(node.db[j], node.disk, size, H))
  }

  ghost predicate Offers(info: FileInfo, content: Bytes, size: Sizes, H: HashFn) {
    BlocksOf(content, H) == Some(info.blocks) && |content| == size(info.name, Offer(info))
  }

  ghost predicate SizedInfo(info: FileInfo, size: Sizes, H: HashFn) {
    WellFormed(info) && Positional(info.version.value) && exists content :: Offers(info, content, size, H)
  }

  ghost predicate SizedIndex(index: seq<FileInfo>, size: Sizes, H: HashFn) {
    WellFormedIndex(index) && forall k :: 0 <= k < |index| ==> SizedInfo(index[k], size, H)
  }

  ghost predicate SizedNet(s: Net, size: Sizes, H: HashFn) {
    && Valid(s)
    && (forall p :: 0 <= p < |s.nodes| ==> SizedNode(s.nodes[p], size, H))
    && (forall t :: t in s.tasks && t.Deliver? ==> SizedIndex(t.index, size, H))
  }

  /** Such a peer is clean, so a scan of its directory as it is finds nothing to record. */
  lemma SizedIsClean(node: Node, size: Sizes, H: HashFn)
    requires SizedNode(node, size, H)
    ensures Clean(node.db, node.disk, H)
  {
    forall j | 0 <= j < |node.db| ensures CleanRow(node.db[j], node.disk, H) {
      assert SizedRow(node.db[j], node.disk, size, H);
      var content :| Stands(node.db[j], content, node.disk, size, H);
    }
  }

  /** Peers that start with nothing are such peers, for any sizes; files that are always rewritten at one length are a case. */
  lemma EmptyPeersAreSized(s: Net, size: Sizes, H: HashFn, n: nat)
    requires s.links == [] && s.tasks == []
    requires forall p :: 0 <= p < |s.nodes| ==> s.nodes[p].db == [] && s.nodes[p].disk == map[]
    requires 0 < n < 128 * KIB
    ensures SizedNet(s, size, H) && Growing((name: string, k: nat) => n)
  {
    forall p | 0 <= p < |s.nodes| ensures SizedNode(s.nodes[p], size, H) {
      assert s.nodes[p].db == [] && s.nodes[p].disk == map[];
    }
  }

  // ---------------------------------------------------------------------------
  // Merging
  // ---------------------------------------------------------------------------

  lemma DiskWithinSize(row: File, disk: Disk, size: Sizes, H: HashFn)
    requires SizedRow(row, disk, size, H)
    ensures |Content(disk, row.name)| <= size(row.name, |row.versions|)
  {
    var content :| Stands(row, content, disk, size, H);
  }

  /** A row made from an entry, over nothing longer. */
  lemma WaitingIsSized(row: File, info: FileInfo, disk: Disk, size: Sizes, H: HashFn)
    requires Growing(size) && SizedInfo(info, size, H) && CountedRow(row)
    requires row.name == info.name && |row.versions| == Offer(info)
    requires row.hash == info.blocks[0].hash && row.blocks == Store.SortByOffset(info.blocks)
    requires Wanted(row, disk) && |Content(disk, row.name)| <= size(row.name, |row.versions|)
    ensures SizedRow(row, disk, size, H)
  {
    var content :| Offers(info, content, size, H);
    SmallOfferDescribes(info, row, content, H);
    assert Stands(row, content, disk, size, H);
  }

  lemma AdoptedIsSized(row: File, info: FileInfo, disk: Disk, size: Sizes, H: HashFn)
    requires Growing(size) && SizedRow(row, disk, size, H) && SizedInfo(info, size, H)
    requires row.name == info.name && |row.versions| < Offer(info)
    ensures SizedRow(Adopted(row, info), disk, size, H)
  {
    DiskWithinSize(row, disk, size, H);
    AdoptedIs(row, info);
    assert size(row.name, |row.versions|) <= size(row.name, Offer(info));
    WaitingIsSized(Adopted(row, info), info, disk, size, H);
  }

  lemma NewcomerIsSized(info: FileInfo, id: nat, disk: Disk, size: Sizes, H: HashFn)
    requires Growing(size) && SizedInfo(info, size, H) && info.name !in disk
    ensures SizedRow(Newcomer(info, id), disk, size, H)
  {
    WaitingIsSized(Newcomer(info, id), info, disk, size, H);
  }

  lemma MergedRowIsSized(node: Node, index: seq<FileInfo>, size: Sizes, H: HashFn, name: string)
    requires Growing(size) && SizedNode(node, size, H) && SizedIndex(index, size, H)
    ensures RowOf(Handled(node.db, index).db, name).Some? ==>
            SizedRow(RowOf(Handled(node.db, index).db, name).value, node.disk, size, H)
  {
    HandledRow(node.db, index, name);
    var before, after := RowOf(node.db, name), RowOf(Handled(node.db, index).db, name);
    var i, k := FindName(node.db, name), FindInfo(index, name);
    assert i < |node.db| ==> SizedRow(node.db[i], node.disk, size, H);
    assert name in node.disk ==> before.Some?;
    if k < |index| {
      assert SizedInfo(index[k], size, H);
      if before.None? {
        NewcomerIsSized(index[k], 0, node.disk, size, H);
        OtherId(Newcomer(index[k], 0), after.value, node.disk, size, H);
      } else if |before.value.versions| < Offer(index[k]) {
        AdoptedIsSized(before.value, index[k], node.disk, size, H);
      }
    }
  }

  lemma OtherId(row: File, other: File, disk: Disk, size: Sizes, H: HashFn)
    requires SizedRow(row, disk, size, H) && other.(id := None) == row.(id := None)
    ensures SizedRow(other, disk, size, H)
  {
    var content :| Stands(row, content, disk, size, H);
    assert other == row.(id := other.id);
    assert Stands(other, content, disk, size, H);
  }

  lemma MergedIsSized(node: Node, index: seq<FileInfo>, size: Sizes, H: HashFn)
    requires Growing(size) && SizedNode(node, size, H) && SizedIndex(index, size, H)
    ensures SizedNode(node.(db := Handled(node.db, index).db), size, H)
  {
    var db' := Handled(node.db, index).db;
    HandledLength(node.db, index, "");
    HandledKeepsRows(node.db, index);
    forall j | 0 <= j < |db'| ensures SizedRow(db'[j], node.disk, size, H) {
      UniqueRow(db', j);
      MergedRowIsSized(node, index, size, H, db'[j].name);
    }
    forall name | name in node.disk ensures RowOf(db', name).Some? {
      HandledLength(node.db, index, name);
    }
  }

  // ---------------------------------------------------------------------------
  // Downloading, to the end or not
  // ---------------------------------------------------------------------------

  /** A file of one block is fetched as a whole or not at all. */
  lemma SmallFetchIsAtomic(db: Db, disk: Disk, f: File, replies: nat -> Reply, H: HashFn, content: Bytes)
    requires CollisionFree(H) && ValidDb(db) && f.id.Some? && f.id.value < |db| && db[f.id.value] == f
    requires BlocksOf(content, H) == Some(f.blocks) && 0 < |content| < 128 * KIB
    ensures var r := FetchFile(db, disk, f, replies, H);
            if r.outcome == Ok
            then r.db == db[f.id.value := Marked(f)] && r.disk == disk[f.name := Overlay(content, Content(disk, f.name))]
            else r.db == db && r.disk == disk
  {
    BlockCountBounds(content);
    OffsetInFile(content, 0);
    assert BlockCount(content) == 1;
    assert f.blocks[0] == BlockAt(content, 0, H);
    FetchOkIff(db, disk, f, 0, replies, H);
    FetchedIsCopied(db, disk, f, replies, H, content);
  }

  /** The row and its file are as they were, or the row was wanted and its content is now there. */
  ghost predicate Turned(row: File, disk: Disk, row': File, disk': Disk, content: Bytes) {
    || (row' == row && SameFile(disk', disk, row.name))
    || (&& Wanted(row, disk) && row' == Marked(row)
        && row.name in disk' && disk'[row.name] == Overlay(content, Content(disk, row.name)))
  }

  lemma {:induction false} FetchRowsTurn(
    db: Db, disk: Disk, copy: Db, k: nat, replies: Replies, H: HashFn, j: nat, content: Bytes)
    requires CollisionFree(H) && ValidDb(db) && UniqueNames(copy) && |copy| == |db| && SnapshotOf(copy, db)
    requires k <= j < |copy| && forall i :: k <= i < |copy| ==> db[i] == copy[i]
    requires BlocksOf(content, H) == Some(copy[j].blocks) && 0 < |content| < 128 * KIB
    ensures var r := FetchRows(db, disk, copy, k, replies, H);
            Turned(copy[j], disk, r.db[j], r.disk, content)
    decreases |copy| - k
  {
    if j == k {
      FetchRowsOwnTurn(db, disk, copy, k, replies, H, content);
    } else if !Wanted(copy[k], disk) {
      FetchRowsTurn(db, disk, copy, k + 1, replies, H, j, content);
    } else {
      var r := FetchFile(db, disk, copy[k], AnswersFor(replies, copy[k]), H);
      OtherTurn(db, disk, copy, k, replies, H, j);
      if r.outcome == Ok {
        FetchRowsTurn(r.db, r.disk, copy, k + 1, replies, H, j, content);
        TurnedSince(copy[j], disk, r.disk, FetchRows(db, disk, copy, k, replies, H), j, content);
      }
    }
  }

  /** The turn of one row leaves the others, and their files, as they are. */
  lemma OtherTurn(db: Db, disk: Disk, copy: Db, k: nat, replies: Replies, H: HashFn, j: nat)
    requires ValidDb(db) && UniqueNames(copy) && |copy| == |db| && SnapshotOf(copy, db)
    requires k < j < |copy| && forall i :: k <= i < |copy| ==> db[i] == copy[i]
    ensures var r := FetchFile(db, disk, copy[k], AnswersFor(replies, copy[k]), H);
            && ValidDb(r.db) && (forall i :: k < i < |copy| ==> r.db[i] == copy[i])
            && SameFile(r.disk, disk, copy[j].name)
  {
    FetchTurnAt(db, disk, copy, k, replies, H);
    assert copy[j].name != copy[k].name;
    FetchKeepsOthers(db, disk, copy[k], AnswersFor(replies, copy[k]), H, copy[j].name);
  }

  lemma TurnedSince(row: File, disk: Disk, later: Disk, r: Fetch, j: nat, content: Bytes)
    requires SameFile(later, disk, row.name) && j < |r.db| && Turned(row, later, r.db[j], r.disk, content)
    ensures Turned(row, disk, r.db[j], r.disk, content)
  {
  }

  lemma FetchRowsOwnTurn(db: Db, disk: Disk, copy: Db, k: nat, replies: Replies, H: HashFn, content: Bytes)
    requires CollisionFree(H) && ValidDb(db) && UniqueNames(copy) && |copy| == |db| && SnapshotOf(copy, db)
    requires k < |copy| && forall i :: k <= i < |copy| ==> db[i] == copy[i]
    requires BlocksOf(content, H) == Some(copy[k].blocks) && 0 < |content| < 128 * KIB
    ensures var r := FetchRows(db, disk, copy, k, replies, H);
            Turned(copy[k], disk, r.db[k], r.disk, content)
  {
    if !Wanted(copy[k], disk) {
      FetchRowsPast(db, disk, copy, k + 1, replies, H);
      FetchRowsFile(db, disk, copy, k + 1, replies, H, k);
    } else {
      var f := copy[k];
      var r := FetchFile(db, disk, f, AnswersFor(replies, f), H);
      SmallFetchIsAtomic(db, disk, f, AnswersFor(replies, f), H, content);
      FetchTurnAt(db, disk, copy, k, replies, H);
      if r.outcome == Ok {
        FetchRowsPast(r.db, r.disk, copy, k + 1, replies, H);
        FetchRowsFile(r.db, r.disk, copy, k + 1, replies, H, k);
      }
    }
  }

  lemma TurnedIsSized(row: File, disk: Disk, row': File, disk': Disk, size: Sizes, H: HashFn, content: Bytes)
    requires CountedRow(row) && Stands(row, content, disk, size, H) && Turned(row, disk, row', disk', content)
    ensures SizedRow(row', disk', size, H)
  {
    if Wanted(row, disk) {
      assert Overlay(content, Content(disk, row.name)) == content;
    }
    assert Stands(row', content, disk', size, H);
  }

  lemma FetchedRowIsSized(node: Node, replies: Replies, size: Sizes, H: HashFn, j: nat)
    requires CollisionFree(H) && Growing(size) && SizedNode(node, size, H) && j < |node.db|
    ensures var r := FetchDirectory(node.db, node.disk, replies, H);
            j < |r.db| && SizedRow(r.db[j], r.disk, size, H)
  {
    ValidIsSnapshot(node.db);
    var row, r := node.db[j], FetchDirectory(node.db, node.disk, replies, H);
    assert SizedRow(row, node.disk, size, H);
    var content :| Stands(row, content, node.disk, size, H);
    assert 0 < size(row.name, |row.versions|) < 128 * KIB;
    FetchRowsTurn(node.db, node.disk, node.db, 0, replies, H, j, content);
    TurnedIsSized(row, node.disk, r.db[j], r.disk, size, H, content);
  }

  lemma FetchedNamesKnown(node: Node, replies: Replies, H: HashFn, name: string)
    requires ValidDb(node.db) && UniqueNames(node.db)
    requires forall name :: name in node.disk ==> RowOf(node.db, name).Some?
    requires name in FetchDirectory(node.db, node.disk, replies, H).disk
    ensures RowOf(FetchDirectory(node.db, node.disk, replies, H).db, name).Some?
  {
    ValidIsSnapshot(node.db);
    DownloadKeepsHistories(node.db, node.disk, replies, H, name);
    var r, i := FetchDirectory(node.db, node.disk, replies, H), FindName(node.db, name);
    if i == |node.db| {
      FetchRowsNames(node.db, node.disk, node.db, 0, replies, H, name);
    } else {
      assert r.db[i].name == name;
    }
  }

  /** Whoever answers, and wherever the download ends. */
  lemma FetchedIsSized(node: Node, replies: Replies, size: Sizes, H: HashFn)
    requires CollisionFree(H) && Growing(size) && SizedNode(node, size, H)
    ensures var r := FetchDirectory(node.db, node.disk, replies, H);
            SizedNode(node.(db := r.db, disk := r.disk), size, H)
  {
    var r := FetchDirectory(node.db, node.disk, replies, H);
    DownloadKeepsHistories(node.db, node.disk, replies, H, "");
    forall j | 0 <= j < |r.db| ensures SizedRow(r.db[j], r.disk, size, H) {
      FetchedRowIsSized(node, replies, size, H, j);
    }
    forall name | name in r.disk ensures RowOf(r.db, name).Some? {
      FetchedNamesKnown(node, replies, H, name);
    }
  }

  // ---------------------------------------------------------------------------
  // Sending
  // ---------------------------------------------------------------------------

  /** Every file on disk is as long as the history in its row says: so it is unless the file waits for a download. */
  ghost predicate LongEnough(node: Node, size: Sizes) {
    forall j :: 0 <= j < |node.db| && node.db[j].name in node.disk ==> HasItsSize(node.db[j], node.disk, size)
  }

  ghost predicate HasItsSize(row: File, disk: Disk, size: Sizes)
    requires row.name in disk
  {
    |disk[row.name]| == size(row.name, |row.versions|)
  }

  lemma NothingWantedIsLongEnough(node: Node, size: Sizes, H: HashFn)
    requires SizedNode(node, size, H) && NothingWanted(node)
    ensures LongEnough(node, size)
  {
    forall j | 0 <= j < |node.db| && node.db[j].name in node.disk ensures HasItsSize(node.db[j], node.disk, size) {
      assert SizedRow(node.db[j], node.disk, size, H) && !Wanted(node.db[j], node.disk);
      var content :| Stands(node.db[j], content, node.disk, size, H);
    }
  }

  lemma IndexIsSized(node: Node, size: Sizes, H: HashFn)
    requires SizedNode(node, size, H) && LongEnough(node, size) && BuildIndex(node.db, node.disk, H).Some?
    ensures SizedIndex(BuildIndex(node.db, node.disk, H).value, size, H)
  {
    var index := BuildIndex(node.db, node.disk, H).value;
    IndexCarriesHistories(node.db, node.disk, H, "");
    forall k | 0 <= k < |index| ensures SizedInfo(index[k], size, H) {
      var row := node.db[k];
      assert WellFormed(index[k]) && SizedRow(row, node.disk, size, H) && Sendable(row, node.disk, H);
      assert HasItsSize(row, node.disk, size);
      assert Offers(index[k], node.disk[row.name], size, H);
    }
  }

  // ---------------------------------------------------------------------------
  // Edits
  // ---------------------------------------------------------------------------

  /**
    * An edit of one name. Files that wait for a download may change, but not grow beyond what it will
    * bring; others are not removed, and have the size for the length of history the scan will give them.
    */
  ghost predicate SizedEdit(node: Node, disk: Disk, size: Sizes, H: HashFn, name: string) {
    match RowOf(node.db, name)
    case None => name in disk ==> |disk[name]| == size(name, 1)
    case Some(row) =>
      if Behind(row) then |Content(disk, name)| <= size(name, |row.versions|)
      else
        && (name in node.disk ==> name in disk)
        && (name in disk ==> |disk[name]| == size(name, LengthAfterScan(row, disk[name], H)))
  }

  lemma KeptRowIsSized(node: Node, row: File, disk: Disk, size: Sizes, H: HashFn)
    requires CollisionFree(H) && SizedRow(row, node.disk, size, H) && RowOf(node.db, row.name) == Some(row)
    requires SizedEdit(node, disk, size, H, row.name)
    requires row.name in disk && !Behind(row) ==> H(disk[row.name]) == row.hash
    ensures SizedRow(row, disk, size, H)
  {
    BehindIsWanted(row);
    var content :| Stands(row, content, node.disk, size, H);
    assert Stands(row, content, disk, size, H);
  }

  lemma NewFileIsSized(me: u64, e: Entry, id: Option<nat>, disk: Disk, size: Sizes, H: HashFn)
    requires BlocksOf(e.data, H).Some? && e.name in disk && disk[e.name] == e.data && |e.data| == size(e.name, 1)
    ensures SizedRow(NewFile(me, e.name, H(e.data), BlocksOf(e.data, H).value).(id := id), disk, size, H)
  {
    assert Stands(NewFile(me, e.name, H(e.data), BlocksOf(e.data, H).value).(id := id), e.data, disk, size, H);
  }

  lemma EditedIsSized(me: u64, row: File, e: Entry, disk: Disk, size: Sizes, H: HashFn)
    requires CountedRow(row) && row.name == e.name && Recordable(Some(row), e, H)
    requires e.name in disk && disk[e.name] == e.data && |e.data| == size(e.name, |row.versions| + 1)
    ensures SizedRow(Edited(me, row, H(e.data), BlocksOf(e.data, H).value), disk, size, H)
  {
    assert Stands(Edited(me, row, H(e.data), BlocksOf(e.data, H).value), e.data, disk, size, H);
  }

  /** What a scan makes of one row. */
  lemma ScannedEntryIsSized(node: Node, disk: Disk, e: Entry, after: Option<File>, size: Sizes, H: HashFn)
    requires CollisionFree(H) && SizedNode(node, size, H) && SizedEdit(node, disk, size, H, e.name)
    requires e.name in disk && disk[e.name] == e.data && RowScanned(RowOf(node.db, e.name), e, node.id, H, after)
    ensures after.Some? && SizedRow(after.value, disk, size, H)
  {
    var row, i := RowOf(node.db, e.name), FindName(node.db, e.name);
    if row.None? {
      NewFileIsSized(node.id, e, after.value.id, disk, size, H);
      assert after.value == after.value.(id := None).(id := after.value.id);
    } else {
      assert SizedRow(node.db[i], node.disk, size, H);
      if Touches(row, e, H) {
        EditedIsSized(node.id, row.value, e, disk, size, H);
      } else {
        KeptRowIsSized(node, row.value, disk, size, H);
      }
    }
  }

  lemma ScannedRowIsSized(node: Node, disk: Disk, listing: seq<Entry>, size: Sizes, H: HashFn, name: string)
    requires CollisionFree(H) && SizedNode(node, size, H)
    requires FullListing(listing, disk) && SizedEdit(node, disk, size, H, name)
    requires Scanned(node.db, listing, node.id, H).ok
    ensures var row := RowOf(Scanned(node.db, listing, node.id, H).db, name);
            (name in disk ==> row.Some?) && (row.Some? ==> SizedRow(row.value, disk, size, H))
  {
    ScannedRow(node.db, listing, node.id, H, name);
    var i, k := FindName(node.db, name), FindEntry(listing, name);
    if k < |listing| {
      ScannedEntryIsSized(node, disk, listing[k], RowOf(Scanned(node.db, listing, node.id, H).db, name), size, H);
    } else if i < |node.db| {
      assert name !in disk;
      assert SizedRow(node.db[i], node.disk, size, H);
      KeptRowIsSized(node, node.db[i], disk, size, H);
    }
  }

  lemma ScannedIsSized(node: Node, disk: Disk, listing: seq<Entry>, size: Sizes, H: HashFn)
    requires CollisionFree(H) && SizedNode(node, size, H)
    requires FullListing(listing, disk) && forall name :: SizedEdit(node, disk, size, H, name)
    requires Scanned(node.db, listing, node.id, H).ok
    ensures SizedNode(node.(db := Scanned(node.db, listing, node.id, H).db, disk := disk), size, H)
  {
    var db' := Scanned(node.db, listing, node.id, H).db;
    ScanKeepsRows(node.db, listing, node.id, H);
    ScannedRow(node.db, listing, node.id, H, "");
    forall j | 0 <= j < |db'| ensures SizedRow(db'[j], disk, size, H) {
      UniqueRow(db', j);
      ScannedRowIsSized(node, disk, listing, size, H, db'[j].name);
    }
    forall name | name in disk ensures RowOf(db', name).Some? {
      ScannedRowIsSized(node, disk, listing, size, H, name);
    }
  }

  // ---------------------------------------------------------------------------
  // Whole runs
  // ---------------------------------------------------------------------------

  /** A peer scans its directory as it is, seeing any part of it. */
  ghost predicate ScansUnchanged(s: Net, e: Event) {
    e.Edit? && e.p < |s.nodes| && e.disk == s.nodes[e.p].disk && ListingOf(e.listing, e.disk)
  }

  /**
    * Tasks with any answers and outcomes, if senders' files have their sizes; scans of unchanged
    * directories; edits that keep to the sizes; connections.
    */
  ghost predicate SizedEvent(s: Net, e: Event, size: Sizes, H: HashFn)
    requires Valid(s)
  {
    && Possible(s, e, H)
    && match e
       case Step(i, _) => s.tasks[i].Send? ==> s.tasks[i].src < |s.nodes| && LongEnough(s.nodes[s.tasks[i].src], size)
       case Edit(p, disk, listing) =>
         || ScansUnchanged(s, e)
         || (&& FullListing(listing, disk) && Scanned(s.nodes[p].db, listing, s.nodes[p].id, H).ok
             && forall name :: SizedEdit(s.nodes[p], disk, size, H, name))
       case Connect(_, _) => true
  }

  /** A scan of an unchanged directory is no event at all. */
  lemma UnchangedScanIsNothing(s: Net, e: Event, size: Sizes, H: HashFn)
    requires SizedNet(s, size, H) && ScansUnchanged(s, e)
    ensures Rescan(s, e, H) && Possible(s, e, H) && Apply(s, e, H) == s
  {
    SizedIsClean(s.nodes[e.p], size, H);
    CleanRescans(s, e, H);
    RescanIsNothing(s, e, H);
  }

  lemma TaskKeepsNodeSized(s: Net, i: nat, replies: Replies, size: Sizes, H: HashFn, p: nat)
    requires CollisionFree(H) && Growing(size) && SizedNet(s, size, H) && i < |s.tasks| && p < |s.nodes|
    ensures p < |RunTask(s, i, replies, H).net.nodes| && SizedNode(RunTask(s, i, replies, H).net.nodes[p], size, H)
  {
    assert TaskInRange(s.tasks[i], |s.nodes|);
    assert SizedNode(s.nodes[p], size, H);
    match s.tasks[i] {
      case Send(_, _) =>
      case Deliver(_, q, index) =>
        if p == q {
          MergedIsSized(s.nodes[q], index, size, H);
        }
      case Pull(me, _) =>
        if p == me {
          FetchedIsSized(s.nodes[me], replies, size, H);
        }
    }
  }

  lemma TaskKeepsIndexSized(s: Net, i: nat, replies: Replies, size: Sizes, H: HashFn, t: Task)
    requires SizedNet(s, size, H) && SizedEvent(s, Step(i, replies), size, H)
    requires t in RunTask(s, i, replies, H).net.tasks && t.Deliver?
    ensures SizedIndex(t.index, size, H)
  {
    InRemove(s.tasks, i, t);
    match s.tasks[i] {
      case Send(p, _) =>
        if BuildIndex(s.nodes[p].db, s.nodes[p].disk, H).Some? {
          IndexIsSized(s.nodes[p], size, H);
        }
      case Deliver(_, _, _) =>
      case Pull(me, _) =>
        assert TaskInRange(s.tasks[i], |s.nodes|);
        BroadcastInRange(me, s.links, |s.nodes|);
    }
  }

  lemma TaskKeepsSized(s: Net, i: nat, replies: Replies, size: Sizes, H: HashFn)
    requires CollisionFree(H) && Growing(size) && SizedNet(s, size, H) && SizedEvent(s, Step(i, replies), size, H)
    ensures SizedNet(RunTask(s, i, replies, H).net, size, H)
  {
    var s' := RunTask(s, i, replies, H).net;
    RunKeepsValid(s, i, replies, H);
    forall p: nat | p < |s'.nodes| ensures SizedNode(s'.nodes[p], size, H) {
      TaskKeepsNodeSized(s, i, replies, size, H, p);
    }
    forall t | t in s'.tasks && t.Deliver? ensures SizedIndex(t.index, size, H) {
      TaskKeepsIndexSized(s, i, replies, size, H, t);
    }
  }

  lemma EventKeepsSized(s: Net, e: Event, size: Sizes, H: HashFn)
    requires CollisionFree(H) && Growing(size) && SizedNet(s, size, H) && SizedEvent(s, e, size, H)
    ensures SizedNet(Apply(s, e, H), size, H)
  {
    ApplyKeepsValid(s, e, H);
    match e {
      case Step(i, replies) => TaskKeepsSized(s, i, replies, size, H);
      case Edit(p, disk, listing) =>
        if ScansUnchanged(s, e) {
          UnchangedScanIsNothing(s, e, size, H);
        } else {
          ScannedIsSized(s.nodes[p], disk, listing, size, H);
          BroadcastInRange(p, s.links, |s.nodes|);
        }
      case Connect(_, _) =>
    }
  }

  ghost predicate SizedRun(s: Net, events: seq<Event>, size: Sizes, H: HashFn)
    requires Valid(s)
    decreases |events|
  {
    events == [] ||
    (SizedEvent(s, events[0], size, H)
     && (ApplyKeepsValid(s, events[0], H); SizedRun(Apply(s, events[0], H), events[1..], size, H)))
  }

  /** After any such run every peer is clean: whatever it downloaded, it takes nothing for an edit. */
  lemma {:induction false} RunKeepsSized(s: Net, events: seq<Event>, size: Sizes, H: HashFn)
    requires CollisionFree(H) && Growing(size) && SizedNet(s, size, H) && SizedRun(s, events, size, H)
    ensures Unfolds(s, events, H) && SizedNet(Unfolded(s, events, H), size, H)
    decreases |events|
  {
    if events != [] {
      EventKeepsSized(s, events[0], size, H);
      RunKeepsSized(Apply(s, events[0], H), events[1..], size, H);
    }
  }

  lemma RunIsClean(s: Net, events: seq<Event>, size: Sizes, H: HashFn, p: nat)
    requires CollisionFree(H) && Growing(size) && SizedNet(s, size, H) && SizedRun(s, events, size, H)
    ensures Unfolds(s, events, H)
    ensures var s' := Unfolded(s, events, H);
            p < |s'.nodes| ==> Clean(s'.nodes[p].db, s'.nodes[p].disk, H)
  {
    RunKeepsSized(s, events, size, H);
    if p < |Unfolded(s, events, H).nodes| {
      SizedIsClean(Unfolded(s, events, H).nodes[p], size, H);
    }
  }

  /** Nothing but tasks, and scans of directories as they are. */
  ghost predicate OnlyChurn(s: Net, events: seq<Event>, H: HashFn)
    requires Valid(s) && Unfolds(s, events, H)
    decreases |events|
  {
    events == [] ||
    (&& (events[0].Step? || ScansUnchanged(s, events[0]))
     && (ApplyKeepsValid(s, events[0], H); OnlyChurn(Apply(s, events[0], H), events[1..], H)))
  }

  lemma {:induction false} ChurnIsSettled(s: Net, events: seq<Event>, size: Sizes, H: HashFn)
    requires CollisionFree(H) && Growing(size) && SizedNet(s, size, H) && SizedRun(s, events, size, H)
    requires Unfolds(s, events, H) && OnlyChurn(s, events, H)
    ensures Churns(s, events, H)
    decreases |events|
  {
    if events != [] {
      EventKeepsSized(s, events[0], size, H);
      if !events[0].Step? {
        UnchangedScanIsNothing(s, events[0], size, H);
      }
      ChurnIsSettled(Apply(s, events[0], H), events[1..], size, H);
    }
  }

  /**
    * Once edits stop, peers may scan as often as they like: nothing they downloaded is recorded or
    * broadcast, the run ends as it does without the scans, and has no more tasks than the bound read off
    * the state at its start.
    */
  lemma ScansAreSilent(s: Net, events: seq<Event>, size: Sizes, H: HashFn)
    requires CollisionFree(H) && Growing(size) && SizedNet(s, size, H) && SizedRun(s, events, size, H)
    requires Unfolds(s, events, H) && OnlyChurn(s, events, H)
    ensures SameEnd(s, events, TasksOf(events), H)
    ensures |TasksOf(events)| <= Limit(s)
  {
    ChurnIsSettled(s, events, size, H);
    RescansChangeNothing(s, events, H);
    StateIsBounded(s);
    RescansFeedNothing(s, events, H, NamesIn(s), LongestIn(s));
  }
}
