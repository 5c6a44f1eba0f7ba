/** Fetching everything a directory's database knows of, and how that sits with the next scan. */
module Download {
  import opened SyncTypes
  import opened Store
  import opened Storage
  import opened Blocks
  import opened Transfer
  import opened IndexMerge
  import opened Reindex

  /** `get_directory` asks for a file that is not on disk, or whose newest version is not. */
  predicate Wanted(f: File, disk: Disk) {
    f.name !in disk || f.synced < IndexVersion(f)
  }

  /** The newest version is the last of the history; a file without one counts as at version 1. */
  lemma WantedIff(f: File, disk: Disk)
    ensures Wanted(f, disk) <==>
            f.name !in disk || (if f.versions == [] then f.synced == 0 else f.synced < f.versions[|f.versions| - 1].counter)
  {
  }

  /** What peers answer, for any file and any of its blocks. */
  type Replies = (File, nat) -> Reply

  /** The answers a peer gives about one file. */
  function AnswersFor(replies: Replies, f: File): nat -> Reply {
    (j: nat) => replies(f, j)
  }

  /** The loop of `get_directory` over the copy it read, from row k on; it stops at the first file that fails. */
  function FetchRows(db: Db, disk: Disk, copy: Db, k: nat, replies: Replies, H: HashFn): (r: Fetch)
    requires |copy| == |db| && SnapshotOf(copy, db) && k <= |copy|
    ensures |r.db| == |db|
    decreases |copy| - k
  {
    if k == |copy| then Fetch(Ok, db, disk)
    else if !Wanted(copy[k], disk) then FetchRows(db, disk, copy, k + 1, replies, H)
    else
      var r := FetchFile(db, disk, copy[k], AnswersFor(replies, copy[k]), H);
      if r.outcome == Ok then FetchRows(r.db, r.disk, copy, k + 1, replies, H) else r
  }

  function FetchDirectory(db: Db, disk: Disk, replies: Replies, H: HashFn): Fetch
    requires ValidDb(db)
  {
    ValidIsSnapshot(db);
    FetchRows(db, disk, db, 0, replies, H)
  }

  method GetDirectory(state: BepState, storage: LocalStorage, replies: Replies, H: HashFn) returns (outcome: Outcome)
    requires state.Valid()
    modifies state, storage
    ensures state.Valid()
    ensures ValidDb(old(state.Rows()))
    ensures Fetch(outcome, state.Rows(), storage.disk) == FetchDirectory(old(state.Rows()), old(storage.disk), replies, H)
  {
    var copy := state.GetSyncFiles();
    ValidIsSnapshot(copy);
    ghost var disk0 := storage.disk;
    for k := 0 to |copy|
      invariant state.Valid() && |state.Rows()| == |copy|
      invariant FetchRows(copy, disk0, copy, 0, replies, H) == FetchRows(state.Rows(), storage.disk, copy, k, replies, H)
    {
      var f := copy[k];
      if f.name !in storage.disk || f.synced < IndexVersion(f) {
        var got := GetFile(state, storage, f, AnswersFor(replies, f), H);
        if got != Ok {
          return got;
        }
      }
    }
    outcome := Ok;
  }

  // ---------------------------------------------------------------------------
  // What a download does to rows and files
  // ---------------------------------------------------------------------------

  /** A fetch writes to its own file only, and to that one if it ends Ok. */
  lemma {:induction false} FetchWritesOneFile(db: Db, disk: Disk, f: File, k: nat, replies: nat -> Reply, H: HashFn)
    requires f.id.Some? && f.id.value < |db| && k <= |f.blocks|
    ensures var r := FetchFrom(db, disk, f, k, replies, H);
            && r.disk - {f.name} == disk - {f.name}
            && (r.outcome == Ok && (k < |f.blocks| || f.name in disk) ==> f.name in r.disk)
    decreases |f.blocks| - k
  {
    if k < |f.blocks| && Refusal(f.blocks[k], replies(k), H).None? && f.blocks[k].offset >= 0
       && StoreFile(db, Marked(f)).Stored? {
      var disk' := disk[f.name := WriteAt(Content(disk, f.name), f.blocks[k].offset, replies(k).data)];
      FetchWritesOneFile(StoreFile(db, Marked(f)).db, disk', f, k + 1, replies, H);
      assert disk' - {f.name} == disk - {f.name};
    }
  }

  /** The same file content, or the same absence. */
  ghost predicate SameFile(a: Disk, b: Disk, name: string) {
    (name in a <==> name in b) && (name in a ==> a[name] == b[name])
  }

  lemma FetchKeepsOthers(db: Db, disk: Disk, f: File, replies: nat -> Reply, H: HashFn, name: string)
    requires f.id.Some? && f.id.value < |db|
    ensures var r := FetchFile(db, disk, f, replies, H);
            && (name != f.name ==> SameFile(r.disk, disk, name))
            && (r.outcome == Ok ==> f.name in r.disk)
  {
    if f.blocks != [] {
      FetchWritesOneFile(db, disk, f, 0, replies, H);
      var r := FetchFile(db, disk, f, replies, H);
      if name != f.name {
        assert name in r.disk <==> name in r.disk - {f.name};
        assert name in disk <==> name in disk - {f.name};
        assert name in disk ==> (r.disk - {f.name})[name] == (disk - {f.name})[name];
      }
    }
  }

  /** Row j before and after its turn. */
  ghost predicate RowFetched(before: File, after: File, wanted: bool) {
    after == if wanted then Marked(before) else before
  }

  /** One turn of the loop over a row that is still as it was read. */
  lemma FetchTurn(db: Db, disk: Disk, f: File, replies: nat -> Reply, H: HashFn)
    requires ValidDb(db) && f.id.Some? && f.id.value < |db| && db[f.id.value] == f
    ensures var r := FetchFile(db, disk, f, replies, H);
            && ValidDb(r.db)
            && (r.db == db || r.db == db[f.id.value := Marked(f)])
            && (r.outcome == Ok ==> r.db == db[f.id.value := Marked(f)])
  {
    if f.blocks != [] {
      FetchOkIff(db, disk, f, 0, replies, H);
      MarkCurrentRow(db, f);
    }
  }

  /** The loop's turn over row k, seen from every row. */
  lemma FetchTurnAt(db: Db, disk: Disk, copy: Db, k: nat, replies: Replies, H: HashFn)
    requires ValidDb(db) && |copy| == |db| && SnapshotOf(copy, db) && k < |copy| && db[k] == copy[k]
    ensures var r := FetchFile(db, disk, copy[k], AnswersFor(replies, copy[k]), H);
            && ValidDb(r.db)
            && (forall i :: 0 <= i < |copy| && i != k ==> r.db[i] == db[i])
            && (r.db[k] == copy[k] || r.db[k] == Marked(copy[k]))
            && (r.outcome == Ok ==> r.db[k] == Marked(copy[k]))
  {
    FetchTurn(db, disk, copy[k], AnswersFor(replies, copy[k]), H);
  }

  lemma OthersStayWanted(db: Db, disk: Disk, copy: Db, k: nat, replies: Replies, H: HashFn, j: nat)
    requires UniqueNames(copy) && |copy| == |db| && SnapshotOf(copy, db) && k < |copy| && j < |copy| && j != k
    ensures Wanted(copy[j], FetchFile(db, disk, copy[k], AnswersFor(replies, copy[k]), H).disk) == Wanted(copy[j], disk)
  {
    assert copy[j].name != copy[k].name;
    FetchKeepsOthers(db, disk, copy[k], AnswersFor(replies, copy[k]), H, copy[j].name);
  }

  /** Rows whose turn is over stay as they are. */
  lemma {:induction false} FetchRowsPast(db: Db, disk: Disk, copy: Db, k: nat, replies: Replies, H: HashFn)
    requires ValidDb(db) && |copy| == |db| && SnapshotOf(copy, db) && k <= |copy|
    requires forall i :: k <= i < |copy| ==> db[i] == copy[i]
    ensures var r := FetchRows(db, disk, copy, k, replies, H);
            ValidDb(r.db) && forall i :: 0 <= i < k ==> r.db[i] == db[i]
    decreases |copy| - k
  {
    if k < |copy| && !Wanted(copy[k], disk) {
      FetchRowsPast(db, disk, copy, k + 1, replies, H);
    } else if k < |copy| {
      var r := FetchFile(db, disk, copy[k], AnswersFor(replies, copy[k]), H);
      FetchTurnAt(db, disk, copy, k, replies, H);
      if r.outcome == Ok {
        FetchRowsPast(r.db, r.disk, copy, k + 1, replies, H);
      }
    }
  }

  /** Row k after its own turn and all later ones. */
  lemma FetchRowsNow(db: Db, disk: Disk, copy: Db, k: nat, replies: Replies, H: HashFn)
    requires ValidDb(db) && |copy| == |db| && SnapshotOf(copy, db) && k < |copy|
    requires forall i :: k <= i < |copy| ==> db[i] == copy[i]
    ensures var r := FetchRows(db, disk, copy, k, replies, H);
            && (r.db[k] == copy[k] || r.db[k] == Marked(copy[k]))
            && (r.outcome == Ok ==> RowFetched(copy[k], r.db[k], Wanted(copy[k], disk)))
  {
    if !Wanted(copy[k], disk) {
      FetchRowsPast(db, disk, copy, k + 1, replies, H);
    } else {
      var r := FetchFile(db, disk, copy[k], AnswersFor(replies, copy[k]), H);
      FetchTurnAt(db, disk, copy, k, replies, H);
      if r.outcome == Ok {
        FetchRowsPast(r.db, r.disk, copy, k + 1, replies, H);
      }
    }
  }

  lemma {:induction false} FetchRowsRow(db: Db, disk: Disk, copy: Db, k: nat, replies: Replies, H: HashFn, j: nat)
    requires ValidDb(db) && UniqueNames(copy) && |copy| == |db| && SnapshotOf(copy, db) && k <= j < |copy|
    requires forall i :: k <= i < |copy| ==> db[i] == copy[i]
    ensures var r := FetchRows(db, disk, copy, k, replies, H);
            && (r.db[j] == copy[j] || r.db[j] == Marked(copy[j]))
            && (r.outcome == Ok ==> RowFetched(copy[j], r.db[j], Wanted(copy[j], disk)))
    decreases |copy| - k
  {
    if j == k {
      FetchRowsNow(db, disk, copy, k, replies, H);
    } else if !Wanted(copy[k], disk) {
      FetchRowsRow(db, disk, copy, k + 1, replies, H, j);
    } else {
      var r := FetchFile(db, disk, copy[k], AnswersFor(replies, copy[k]), H);
      FetchTurnAt(db, disk, copy, k, replies, H);
      if r.outcome == Ok {
        OthersStayWanted(db, disk, copy, k, replies, H, j);
        FetchRowsRow(r.db, r.disk, copy, k + 1, replies, H, j);
      }
    }
  }

  lemma {:induction false} FetchRowsFile(db: Db, disk: Disk, copy: Db, k: nat, replies: Replies, H: HashFn, j: nat)
    requires UniqueNames(copy) && |copy| == |db| && SnapshotOf(copy, db) && k <= |copy|
    requires j < |copy|
    ensures var r := FetchRows(db, disk, copy, k, replies, H);
            && (j < k ==> SameFile(r.disk, disk, copy[j].name))
            && (r.outcome == Ok && j >= k ==> copy[j].name in r.disk)
            && (r.outcome == Ok && j >= k && !Wanted(copy[j], disk) ==> SameFile(r.disk, disk, copy[j].name))
    decreases |copy| - k
  {
    if k < |copy| && !Wanted(copy[k], disk) {
      FetchRowsFile(db, disk, copy, k + 1, replies, H, j);
    } else if k < |copy| {
      var f := copy[k];
      var r := FetchFile(db, disk, f, AnswersFor(replies, f), H);
      FetchKeepsOthers(db, disk, f, AnswersFor(replies, f), H, copy[j].name);
      if j != k {
        assert copy[j].name != f.name;
      }
      if r.outcome == Ok {
        FetchRowsFile(r.db, r.disk, copy, k + 1, replies, H, j);
      }
    }
  }

  lemma FetchRowsEffect(db: Db, disk: Disk, copy: Db, k: nat, replies: Replies, H: HashFn, j: nat)
    requires ValidDb(db) && UniqueNames(copy) && |copy| == |db| && SnapshotOf(copy, db) && k <= |copy|
    requires forall i :: k <= i < |copy| ==> db[i] == copy[i]
    requires j < |copy|
    ensures var r := FetchRows(db, disk, copy, k, replies, H);
            && ValidDb(r.db)
            && (j < k ==> r.db[j] == db[j] && SameFile(r.disk, disk, copy[j].name))
            && (j >= k ==> r.db[j] == copy[j] || r.db[j] == Marked(copy[j]))
            && (r.outcome == Ok && j >= k ==>
                  RowFetched(copy[j], r.db[j], Wanted(copy[j], disk)) && copy[j].name in r.disk)
            && (r.outcome == Ok && j >= k && !Wanted(copy[j], disk) ==> SameFile(r.disk, disk, copy[j].name))
  {
    FetchRowsPast(db, disk, copy, k, replies, H);
    if j >= k {
      FetchRowsRow(db, disk, copy, k, replies, H, j);
    }
    FetchRowsFile(db, disk, copy, k, replies, H, j);
  }

  /**
    * When `get_directory` returns Ok every indexed file is on disk, and exactly the wanted rows
    * were rewritten, each now synced to its newest version.
    */
  lemma DirectoryFetched(db: Db, disk: Disk, replies: Replies, H: HashFn, j: nat)
    requires ValidDb(db) && UniqueNames(db) && j < |db|
    ensures var r := FetchDirectory(db, disk, replies, H);
            && ValidDb(r.db) && |r.db| == |db|
            && (r.outcome == Ok ==>
                  && db[j].name in r.disk
                  && r.db[j].synced >= IndexVersion(r.db[j])
                  && RowFetched(db[j], r.db[j], Wanted(db[j], disk))
                  && (!Wanted(db[j], disk) ==> SameFile(r.disk, disk, db[j].name)))
  {
    ValidIsSnapshot(db);
    FetchRowsEffect(db, disk, db, 0, replies, H, j);
  }

  /** The loop ends at row k with this failure: row k was wanted, and rows and files after it are as they were. */
  ghost predicate StoppedAt(db: Db, disk: Disk, r: Fetch, k: nat) {
    && k < |db| == |r.db| && Wanted(db[k], disk) && r.outcome != Ok
    && forall j :: k < j < |db| ==> r.db[j] == db[j] && SameFile(r.disk, disk, db[j].name)
  }

  lemma {:induction false} RowsStopAtFailure(db: Db, disk: Disk, copy: Db, k: nat, replies: Replies, H: HashFn) returns (i: nat)
    requires ValidDb(db) && UniqueNames(copy) && |copy| == |db| && SnapshotOf(copy, db) && k <= |copy|
    requires forall j :: k <= j < |copy| ==> db[j] == copy[j]
    requires FetchRows(db, disk, copy, k, replies, H).outcome != Ok
    ensures k <= i && StoppedAt(db, disk, FetchRows(db, disk, copy, k, replies, H), i)
    decreases |copy| - k
  {
    if !Wanted(copy[k], disk) {
      i := RowsStopAtFailure(db, disk, copy, k + 1, replies, H);
    } else {
      var r := FetchFile(db, disk, copy[k], AnswersFor(replies, copy[k]), H);
      FetchTurnAt(db, disk, copy, k, replies, H);
      forall j | k < j < |copy|
        ensures SameFile(r.disk, disk, copy[j].name) && Wanted(copy[j], r.disk) == Wanted(copy[j], disk)
      {
        assert copy[j].name != copy[k].name;
        FetchKeepsOthers(db, disk, copy[k], AnswersFor(replies, copy[k]), H, copy[j].name);
      }
      if r.outcome != Ok {
        i := k;
      } else {
        i := RowsStopAtFailure(r.db, r.disk, copy, k + 1, replies, H);
      }
    }
  }

  /** A download that fails stops at the file that failed: nothing after it is touched. */
  lemma DirectoryStopsAtFailure(db: Db, disk: Disk, replies: Replies, H: HashFn) returns (k: nat)
    requires ValidDb(db) && UniqueNames(db) && FetchDirectory(db, disk, replies, H).outcome != Ok
    ensures StoppedAt(db, disk, FetchDirectory(db, disk, replies, H), k)
  {
    ValidIsSnapshot(db);
    k := RowsStopAtFailure(db, disk, db, 0, replies, H);
  }

  /** A file that is on disk in its newest version is not fetched again, and a fetched row is synced to its newest version. */
  lemma FetchedFields(db: Db, disk: Disk, replies: Replies, H: HashFn, j: nat)
    requires ValidDb(db) && UniqueNames(db) && j < |db|
    requires FetchDirectory(db, disk, replies, H).outcome == Ok
    ensures var r := FetchDirectory(db, disk, replies, H);
            && |r.db| == |db|
            && (db[j].name in disk && db[j].synced >= Last(db[j].versions).counter ==>
                  r.db[j] == db[j] && SameFile(r.disk, disk, db[j].name))
            && (db[j].name !in disk || db[j].synced < Last(db[j].versions).counter ==>
                  r.db[j] == db[j].(synced := Last(db[j].versions).counter) && db[j].name in r.disk)
  {
    DirectoryFetched(db, disk, replies, H, j);
    assert ValidRow(db[j], j);
  }

  lemma {:induction false} FetchRowsCopies(
    db: Db, disk: Disk, copy: Db, k: nat, replies: Replies, H: HashFn, j: nat, source: Bytes)
    requires CollisionFree(H)
    requires ValidDb(db) && UniqueNames(copy) && |copy| == |db| && SnapshotOf(copy, db) && k <= |copy|
    requires forall i :: k <= i < |copy| ==> db[i] == copy[i]
    requires k <= j < |copy| && Wanted(copy[j], disk) && BlocksOf(source, H) == Some(copy[j].blocks)
    ensures var r := FetchRows(db, disk, copy, k, replies, H);
            r.outcome == Ok ==> copy[j].name in r.disk
                                && r.disk[copy[j].name] == Overlay(source, Content(disk, copy[j].name))
    decreases |copy| - k
  {
    var f := copy[k];
    var answers := AnswersFor(replies, f);
    var r := FetchFile(db, disk, f, answers, H);
    FetchKeepsOthers(db, disk, f, answers, H, copy[j].name);
    FetchTurn(db, disk, f, answers, H);
    if k == j {
      FetchedIsCopied(db, disk, f, answers, H, source);
      if r.outcome == Ok {
        FetchRowsEffect(r.db, r.disk, copy, k + 1, replies, H, j);
      }
    } else {
      assert copy[j].name != f.name;
      if !Wanted(f, disk) {
        FetchRowsCopies(db, disk, copy, k + 1, replies, H, j, source);
      } else if r.outcome == Ok {
        FetchRowsCopies(r.db, r.disk, copy, k + 1, replies, H, j, source);
      }
    }
  }

  /** Whoever answered, an Ok download has laid the indexed content over whatever was there before. */
  lemma DirectoryCopied(db: Db, disk: Disk, replies: Replies, H: HashFn, j: nat, source: Bytes)
    requires CollisionFree(H)
    requires ValidDb(db) && UniqueNames(db) && j < |db|
    requires Wanted(db[j], disk) && BlocksOf(source, H) == Some(db[j].blocks)
    ensures var r := FetchDirectory(db, disk, replies, H);
            r.outcome == Ok ==> db[j].name in r.disk
                                && r.disk[db[j].name] == Overlay(source, Content(disk, db[j].name))
  {
    ValidIsSnapshot(db);
    FetchRowsCopies(db, disk, db, 0, replies, H, j, source);
  }

  lemma {:induction false} FetchRowsNames(
    db: Db, disk: Disk, copy: Db, k: nat, replies: Replies, H: HashFn, name: string)
    requires |copy| == |db| && SnapshotOf(copy, db) && k <= |copy|
    requires forall i :: 0 <= i < |copy| ==> copy[i].name != name
    ensures SameFile(FetchRows(db, disk, copy, k, replies, H).disk, disk, name)
    decreases |copy| - k
  {
    if k < |copy| {
      var answers := AnswersFor(replies, copy[k]);
      var r := FetchFile(db, disk, copy[k], answers, H);
      FetchKeepsOthers(db, disk, copy[k], answers, H, name);
      FetchRowsNames(db, disk, copy, k + 1, replies, H, name);
      if r.outcome == Ok {
        FetchRowsNames(r.db, r.disk, copy, k + 1, replies, H, name);
      }
    }
  }

  // ---------------------------------------------------------------------------
  // No echo
  // ---------------------------------------------------------------------------

  /** The row describes this content: its blocks, and as its hash the hash of the whole. */
  ghost predicate Describes(row: File, content: Bytes, H: HashFn) {
    BlocksOf(content, H) == Some(row.blocks) && row.hash == H(content)
  }

  /** The row is to be fetched, and what it describes is no shorter than what is on disk. */
  ghost predicate Deliverable(row: File, disk: Disk, H: HashFn) {
    exists content :: Describes(row, content, H) && |Content(disk, row.name)| <= |content|
  }

  /** A row on disk in its newest version has the hash of what is there; any other is deliverable. */
  ghost predicate CleanRow(row: File, disk: Disk, H: HashFn) {
    if Wanted(row, disk) then Deliverable(row, disk, H) else row.hash == H(disk[row.name])
  }

  ghost predicate Clean(db: Db, disk: Disk, H: HashFn) {
    && ValidDb(db) && UniqueNames(db)
    && (forall name :: name in disk ==> RowOf(db, name).Some?)
    && (forall j :: 0 <= j < |db| ==> CleanRow(db[j], disk, H))
  }

  /** A directory listing shows each file once, with its content. */
  ghost predicate ListingOf(listing: seq<Entry>, disk: Disk) {
    DistinctNames(listing) && forall k :: 0 <= k < |listing| ==> listing[k].name in disk && listing[k].data == disk[listing[k].name]
  }

  /** A scan finds nothing to record on a clean peer. */
  lemma CleanIsSettled(db: Db, disk: Disk, listing: seq<Entry>, H: HashFn)
    requires Clean(db, disk, H) && ListingOf(listing, disk)
    ensures Settled(db, listing, H)
  {
    forall k | 0 <= k < |listing| ensures !Touches(RowOf(db, listing[k].name), listing[k], H) {
      var name := listing[k].name;
      var i := FindName(db, name);
      assert RowOf(db, name).Some?;
      assert ValidRow(db[i], i) && CleanRow(db[i], disk, H);
    }
  }

  lemma CleanRowFetched(db: Db, disk: Disk, replies: Replies, H: HashFn, j: nat)
    requires CollisionFree(H) && Clean(db, disk, H) && j < |db|
    requires FetchDirectory(db, disk, replies, H).outcome == Ok
    ensures var r := FetchDirectory(db, disk, replies, H);
            && j < |r.db| && r.db[j].name == db[j].name
            && !Wanted(r.db[j], r.disk) && r.db[j].hash == H(r.disk[db[j].name])
  {
    DirectoryFetched(db, disk, replies, H, j);
    assert CleanRow(db[j], disk, H);
    if Wanted(db[j], disk) {
      var content :| Describes(db[j], content, H) && |Content(disk, db[j].name)| <= |content|;
      DirectoryCopied(db, disk, replies, H, j, content);
      assert Overlay(content, Content(disk, db[j].name)) == content;
    }
  }

  /** Downloading keeps a peer clean, and what it downloads is not taken for a local edit. */
  lemma DownloadIsQuiet(db: Db, disk: Disk, replies: Replies, H: HashFn)
    requires CollisionFree(H) && Clean(db, disk, H)
    requires FetchDirectory(db, disk, replies, H).outcome == Ok
    ensures var r := FetchDirectory(db, disk, replies, H);
            Clean(r.db, r.disk, H)
  {
    var r := FetchDirectory(db, disk, replies, H);
    ValidIsSnapshot(db);
    if db == [] {
      assert r == Fetch(Ok, db, disk);
    } else {
      DirectoryFetched(db, disk, replies, H, 0);
    }
    forall j | 0 <= j < |db| ensures r.db[j].name == db[j].name && CleanRow(r.db[j], r.disk, H) {
      CleanRowFetched(db, disk, replies, H, j);
    }
    forall name | name in r.disk ensures RowOf(r.db, name).Some? {
      var i := FindName(db, name);
      if i == |db| {
        FetchRowsNames(db, disk, db, 0, replies, H, name);
      } else {
        assert r.db[i].name == name;
      }
    }
  }

  /** Counters count positions, and no row claims a version it does not list. */
  ghost predicate Counted(db: Db) {
    forall j :: 0 <= j < |db| ==> Positional(db[j].versions) && db[j].synced < |db[j].versions|
  }

  /** The entry describes a non-empty file of a single block, no shorter than the copy on disk. */
  ghost predicate SmallOffer(info: FileInfo, disk: Disk, H: HashFn) {
    && WellFormed(info) && Positional(info.version.value)
    && exists content ::
         0 < |content| < 128 * KIB && BlocksOf(content, H) == Some(info.blocks) && |Content(disk, info.name)| <= |content|
  }

  lemma UniqueRow(db: Db, j: nat)
    requires UniqueNames(db) && j < |db|
    ensures FindName(db, db[j].name) == j
  {
  }

  /** The hash an index gives for a one-block file is the hash of the file. */
  lemma SmallFileHash(content: Bytes, H: HashFn)
    requires 0 < |content| < 128 * KIB
    ensures BlocksOf(content, H).Some?
    ensures BlocksOf(content, H).value != [] && BlocksOf(content, H).value[0].hash == H(content)
    ensures OffsetOrdered(BlocksOf(content, H).value)
  {
    BlocksAreOrdered(content, H);
    assert BlockCount(content) == 1;
    assert content[0..] == content;
  }

  /** What matters of a row that took over an entry or came from one: it is the entry's file, and not downloaded. */
  lemma AdoptedFields(before: Option<File>, info: FileInfo, after: Option<File>, disk: Disk)
    requires WellFormed(info) && Positional(info.version.value) && RowMerged(before, info, after)
    requires before.None? ==> info.name !in disk
    requires before.Some? ==> before.value.name == info.name
    requires before.Some? ==> before.value.synced < |before.value.versions| < Offer(info)
    ensures var row := after.value;
            && row.name == info.name && row.hash == info.blocks[0].hash && row.blocks == SortByOffset(info.blocks)
            && Wanted(row, disk)
  {
    if before.Some? {
      AdoptedIs(before.value, info);
    }
  }

  lemma WantedIsClean(row: File, content: Bytes, disk: Disk, H: HashFn)
    requires Wanted(row, disk) && Describes(row, content, H) && |Content(disk, row.name)| <= |content|
    ensures CleanRow(row, disk, H)
  {
  }

  lemma SmallOfferDescribes(info: FileInfo, row: File, content: Bytes, H: HashFn)
    requires 0 < |content| < 128 * KIB && BlocksOf(content, H) == Some(info.blocks) && info.blocks != []
    requires row.hash == info.blocks[0].hash && row.blocks == SortByOffset(info.blocks)
    ensures Describes(row, content, H)
  {
    SmallFileHash(content, H);
    SortedReadBack(info.blocks);
  }

  lemma AdoptedIsClean(before: Option<File>, info: FileInfo, after: Option<File>, disk: Disk, H: HashFn)
    requires SmallOffer(info, disk, H) && RowMerged(before, info, after)
    requires before.None? ==> info.name !in disk
    requires before.Some? ==> before.value.name == info.name
    requires before.Some? ==> before.value.synced < |before.value.versions| < Offer(info)
    ensures CleanRow(after.value, disk, H)
  {
    var content :| 0 < |content| < 128 * KIB && BlocksOf(content, H) == Some(info.blocks)
                   && |Content(disk, info.name)| <= |content|;
    AdoptedFields(before, info, after, disk);
    SmallOfferDescribes(info, after.value, content, H);
    WantedIsClean(after.value, content, disk, H);
  }

  lemma MergedRowIsClean(db: Db, disk: Disk, files: seq<FileInfo>, name: string, H: HashFn)
    requires Clean(db, disk, H) && Counted(db) && WellFormedIndex(files)
    requires forall k :: 0 <= k < |files| ==> SmallOffer(files[k], disk, H)
    ensures RowOf(Handled(db, files).db, name).Some? ==> CleanRow(RowOf(Handled(db, files).db, name).value, disk, H)
  {
    HandledRow(db, files, name);
    var i, k := FindName(db, name), FindInfo(files, name);
    assert i < |db| ==> CleanRow(db[i], disk, H) && db[i].synced < |db[i].versions|;
    assert name in disk ==> RowOf(db, name).Some?;
    if k < |files| && LenOf(db, name) < Offer(files[k]) {
      AdoptedIsClean(RowOf(db, name), files[k], RowOf(Handled(db, files).db, name), disk, H);
    }
  }

  /** Merging small files keeps a peer clean. */
  lemma MergeIsClean(db: Db, disk: Disk, files: seq<FileInfo>, H: HashFn)
    requires Clean(db, disk, H) && Counted(db) && WellFormedIndex(files)
    requires forall k :: 0 <= k < |files| ==> SmallOffer(files[k], disk, H)
    ensures Handled(db, files).ok && Clean(Handled(db, files).db, disk, H)
  {
    var m := Handled(db, files);
    HandledLength(db, files, "");
    HandledKeepsRows(db, files);
    forall j | 0 <= j < |m.db| ensures CleanRow(m.db[j], disk, H) {
      MergedRowIsClean(db, disk, files, m.db[j].name, H);
      UniqueRow(m.db, j);
    }
    forall name | name in disk ensures RowOf(m.db, name).Some? {
      HandledLength(db, files, name);
    }
  }

  /**
    * A clean peer that merges an index of small files, downloads them from whoever answers, and
    * scans its directory again records nothing and broadcasts nothing from the scan.
    */
  lemma NoEcho(db: Db, disk: Disk, files: seq<FileInfo>, replies: Replies, listing: seq<Entry>, me: u64, H: HashFn)
    requires CollisionFree(H) && Clean(db, disk, H) && Counted(db) && WellFormedIndex(files)
    requires forall k :: 0 <= k < |files| ==> SmallOffer(files[k], disk, H)
    ensures Handled(db, files).ok && ValidDb(Handled(db, files).db)
    ensures var r := FetchDirectory(Handled(db, files).db, disk, replies, H);
            r.outcome == Ok && ListingOf(listing, r.disk) ==>
              && Clean(r.db, r.disk, H)
              && Scanned(r.db, listing, me, H).ok
              && Scanned(r.db, listing, me, H).db == r.db
              && !Scanned(r.db, listing, me, H).changed
  {
    MergeIsClean(db, disk, files, H);
    var merged := Handled(db, files).db;
    var r := FetchDirectory(merged, disk, replies, H);
    if r.outcome == Ok && ListingOf(listing, r.disk) {
      DownloadIsQuiet(merged, disk, replies, H);
      CleanIsSettled(r.db, r.disk, listing, H);
      ScanChangesIff(r.db, listing, me, H);
    }
  }

  lemma FirstBlockIsPrefix(content: Bytes, H: HashFn)
    requires BlocksOf(content, H).Some?
    ensures BlocksOf(content, H).value != []
    ensures BlocksOf(content, H).value[0].hash == H(BlockRange(content, 0))
    ensures BlockCount(content) == 1 ==> BlockRange(content, 0) == content
    ensures BlockCount(content) > 1 ==> |BlockRange(content, 0)| < |content|
  {
    BlockCountBounds(content);
    OffsetInFile(content, 0);
    if BlockCount(content) > 1 {
      OffsetInFile(content, 1);
    } else {
      assert content[0..] == content;
    }
  }

  /** The hash an adopted row carries is that of what a download leaves behind, exactly in the one-block, nothing-longer-before case. */
  lemma AdoptedHashIff(content: Bytes, before: Bytes, H: HashFn)
    requires CollisionFree(H) && BlocksOf(content, H).Some?
    ensures BlocksOf(content, H).value != []
    ensures H(Overlay(content, before)) == BlocksOf(content, H).value[0].hash <==>
            BlockCount(content) == 1 && |before| <= |content|
  {
    FirstBlockIsPrefix(content, H);
    if |before| <= |content| {
      assert Overlay(content, before) == content;
    } else {
      assert |Overlay(content, before)| == |before|;
    }
  }

  /**
    * Without the size and length conditions the claim is false: a file fetched after a merge is taken
    * for a local edit by the next scan exactly when it has several blocks, since the row's hash is that
    * of the first, or when what was on disk before is longer, since writing blocks cuts nothing off.
    */
  lemma EchoIff(db: Db, disk: Disk, replies: Replies, H: HashFn, j: nat, content: Bytes)
    requires CollisionFree(H) && ValidDb(db) && UniqueNames(db) && j < |db|
    requires Wanted(db[j], disk) && BlocksOf(content, H) == Some(db[j].blocks)
    requires db[j].blocks != [] && db[j].hash == db[j].blocks[0].hash
    ensures var r := FetchDirectory(db, disk, replies, H);
            r.outcome == Ok ==>
              && db[j].name in r.disk
              && (Touches(RowOf(r.db, db[j].name), Entry(db[j].name, r.disk[db[j].name]), H) <==>
                  BlockCount(content) > 1 || |content| < |Content(disk, db[j].name)|)
  {
    var r := FetchDirectory(db, disk, replies, H);
    if r.outcome == Ok {
      DirectoryCopied(db, disk, replies, H, j, content);
      DirectoryFetched(db, disk, replies, H, j);
      AdoptedHashIff(content, Content(disk, db[j].name), H);
      BlockCountBounds(content);
      forall i | 0 <= i < |db| ensures r.db[i].name == db[i].name {
        DirectoryFetched(db, disk, replies, H, i);
      }
      FindNameIs(r.db, db[j].name, j);
      assert RowOf(r.db, db[j].name) == Some(Marked(db[j]));
    }
  }
}
