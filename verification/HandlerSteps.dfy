/**
  * The handlers as sequences of lock-granularity steps, and what an interleaving can do that an
  * uninterrupted handler cannot.
  */
module HandlerSteps {
  import opened SyncTypes
  import opened Store
  import opened Storage
  import opened Transfer
  import opened IndexMerge
  import opened Reindex
  import opened Download
  import opened Interleaving

  /** The step an iteration of `handle_index` takes, if it stores anything. */
  ghost function MergeStep(p: u64, m: Merge, info: FileInfo): Option<Step>
    requires SnapshotOf(m.local, m.db) && WellFormed(info)
  {
    var i := FindName(m.local, info.name);
    if i == |m.local| then Some(AdoptNew(p, info))
    else if |m.local[i].versions| < Offer(info) then Some(Adopt(p, m.local[i], info))
    else None
  }

  /** The handler at peer p runs here, from a copy whose rows are among those held. */
  ghost predicate RunsAt(s: Net, p: u64, db: Db, local: Db) {
    && p in s.peers && s.peers[p].db == db && SnapshotOf(local, db)
    && forall f :: f in local ==> f in s.peers[p].held
  }

  lemma EntryWellFormed(s: Net, info: FileInfo)
    requires Inv(s) && info in s.wire
    ensures WellFormed(info)
  {
    assert GoodEntry(info, s.edits);
  }

  /** Whatever happened since its copy was read, an iteration of `handle_index` is one step or none. */
  lemma MergeIterationIsStep(s: Net, p: u64, m: Merge, info: FileInfo)
    requires Inv(s) && RunsAt(s, p, m.db, m.local) && info in s.wire
    ensures WellFormed(info)
    ensures var m', step := MergeFile(m, info), MergeStep(p, m, info);
            && (step.None? ==> m' == m)
            && (step.Some? ==> step.value.p == p && Enabled(s, step.value) && Linked(s.peers[p])
                               && RunsAt(Apply(s, step.value), p, m'.db, m'.local))
  {
    EntryWellFormed(s, info);
    assert GoodPeer(s.peers[p], s.edits);
    GoodPeerIsLinked(s.peers[p], s.edits);
    var i := FindName(m.local, info.name);
    if i < |m.local| && |m.local[i].versions| < Offer(info) {
      var f := Overwritten(m.local[i], info);
      assert GoodCopy(m.local[i], s.peers[p].db, s.edits);
      forall g | g in m.local[i := f] ensures g in m.local || g == f {
      }
    }
  }

  /** The step an iteration of `generate_index` takes, if it stores anything. */
  ghost function ScanStepAt(p: u64, m: Scan, e: Entry, H: HashFn): Option<Step>
    requires SnapshotOf(m.local, m.db)
  {
    var row := RowOf(m.local, e.name);
    if !Touches(row, e, H) || !Recordable(row, e, H) then None
    else
      var blocks := Blocks.BlocksOf(e.data, H).value;
      if row.None? then Some(Create(p, e.name, H(e.data), blocks)) else Some(Edit(p, row.value, H(e.data), blocks))
  }

  /** Likewise an iteration of `generate_index` is one step or none; one that panics before it stores anything is none. */
  lemma ScanIterationIsStep(s: Net, p: u64, m: Scan, e: Entry, H: HashFn)
    requires Inv(s) && RunsAt(s, p, m.db, m.local)
    ensures var m', step := ScanEntry(m, e, p, H), ScanStepAt(p, m, e, H);
            && (step.None? ==> m' == m || m' == m.(ok := false))
            && (step.Some? ==> step.value.p == p && Enabled(s, step.value) && Linked(s.peers[p])
                               && RunsAt(Apply(s, step.value), p, m'.db, m'.local))
  {
    assert GoodPeer(s.peers[p], s.edits);
    GoodPeerIsLinked(s.peers[p], s.edits);
    var i := FindName(m.local, e.name);
    if i < |m.local| {
      assert GoodCopy(m.local[i], s.peers[p].db, s.edits);
    }
    if ScanStepAt(p, m, e, H).Some? {
      BlocksAreOrdered(e.data, H);
      if i < |m.local| {
        var f := Edited(p, m.local[i], H(e.data), Blocks.BlocksOf(e.data, H).value);
        forall g | g in m.local[i := f] ensures g in m.local || g == f {
        }
      }
    }
  }

  // ---------------------------------------------------------------------------
  // Uninterrupted handlers
  // ---------------------------------------------------------------------------

  ghost function MergeSteps(p: u64, m: Merge, files: seq<FileInfo>): seq<Step>
    requires SnapshotOf(m.local, m.db) && forall k :: 0 <= k < |files| ==> WellFormed(files[k])
    decreases |files|
  {
    if files == [] || !m.ok then []
    else
      var step := MergeStep(p, m, files[0]);
      (if step.Some? then [step.value] else []) + MergeSteps(p, MergeFile(m, files[0]), files[1..])
  }

  lemma {:induction false} MergeIsRun(s: Net, p: u64, m: Merge, files: seq<FileInfo>)
    requires Inv(s) && RunsAt(s, p, m.db, m.local)
    requires forall k :: 0 <= k < |files| ==> files[k] in s.wire && WellFormed(files[k])
    ensures var steps := MergeSteps(p, m, files);
            Runs(s, steps) && p in After(s, steps).peers && After(s, steps).peers[p].db == MergeFiles(m, files).db
    decreases |files|
  {
    if files != [] && m.ok {
      MergeIterationIsStep(s, p, m, files[0]);
      var m', step := MergeFile(m, files[0]), MergeStep(p, m, files[0]);
      if step.Some? {
        StepKeepsInv(s, step.value);
        MergeIsRun(Apply(s, step.value), p, m', files[1..]);
        RunCons(s, step.value, MergeSteps(p, m', files[1..]));
      } else {
        MergeIsRun(s, p, m', files[1..]);
        assert MergeSteps(p, m, files) == MergeSteps(p, m', files[1..]);
      }
    }
  }

  /** The uninterrupted handler is one of the interleavings: reading the rows, then a step per file stored. */
  lemma HandledIsRun(s: Net, p: u64, files: seq<FileInfo>)
    requires Inv(s) && p in s.peers && ValidDb(s.peers[p].db)
    requires forall k :: 0 <= k < |files| ==> files[k] in s.wire && WellFormed(files[k])
    ensures var db := s.peers[p].db;
            (ValidIsSnapshot(db);
             var steps := [Read(p)] + MergeSteps(p, Merge(db, db, false, true), files);
             Runs(s, steps) && p in After(s, steps).peers && After(s, steps).peers[p].db == Handled(db, files).db)
  {
    var db := s.peers[p].db;
    ValidIsSnapshot(db);
    StepKeepsInv(s, Read(p));
    var s1 := Apply(s, Read(p));
    MergeIsRun(s1, p, Merge(db, db, false, true), files);
    var rest := MergeSteps(p, Merge(db, db, false, true), files);
    assert ([Read(p)] + rest)[1..] == rest;
  }

  ghost function ScanSteps(p: u64, m: Scan, listing: seq<Entry>, H: HashFn): seq<Step>
    requires SnapshotOf(m.local, m.db)
    decreases |listing|
  {
    if listing == [] || !m.ok then []
    else
      var step := ScanStepAt(p, m, listing[0], H);
      (if step.Some? then [step.value] else []) + ScanSteps(p, ScanEntry(m, listing[0], p, H), listing[1..], H)
  }

  lemma {:induction false} ScanIsRun(s: Net, p: u64, m: Scan, listing: seq<Entry>, H: HashFn)
    requires Inv(s) && RunsAt(s, p, m.db, m.local)
    ensures var steps := ScanSteps(p, m, listing, H);
            Runs(s, steps) && p in After(s, steps).peers && After(s, steps).peers[p].db == ScanEntries(m, listing, p, H).db
    decreases |listing|
  {
    if listing != [] && m.ok {
      ScanIterationIsStep(s, p, m, listing[0], H);
      var m', step := ScanEntry(m, listing[0], p, H), ScanStepAt(p, m, listing[0], H);
      if step.Some? {
        StepKeepsInv(s, step.value);
        ScanIsRun(Apply(s, step.value), p, m', listing[1..], H);
        RunCons(s, step.value, ScanSteps(p, m', listing[1..], H));
      } else {
        ScanIsRun(s, p, m', listing[1..], H);
        assert ScanSteps(p, m, listing, H) == ScanSteps(p, m', listing[1..], H);
      }
    }
  }

  /** So is the uninterrupted scan: reading the rows, then a step per file recorded. */
  lemma ScannedIsRun(s: Net, p: u64, listing: seq<Entry>, H: HashFn)
    requires Inv(s) && p in s.peers && ValidDb(s.peers[p].db)
    ensures var db := s.peers[p].db;
            (ValidIsSnapshot(db);
             var steps := [Read(p)] + ScanSteps(p, Scan(db, db, false, true), listing, H);
             Runs(s, steps) && p in After(s, steps).peers && After(s, steps).peers[p].db == Scanned(db, listing, p, H).db)
  {
    var db := s.peers[p].db;
    ValidIsSnapshot(db);
    StepKeepsInv(s, Read(p));
    ScanIsRun(Apply(s, Read(p)), p, Scan(db, db, false, true), listing, H);
    RunCons(s, Read(p), ScanSteps(p, Scan(db, db, false, true), listing, H));
  }

  /** The handler at peer p holds this copy of a row. */
  ghost predicate Copied(s: Net, p: u64, f: File) {
    p in s.peers && f in s.peers[p].held && f.id.Some? && f.id.value < |s.peers[p].db|
  }

  /** The steps of `get_file` from block k on: a mark for each block it accepts, until a store fails. */
  ghost function FetchSteps(p: u64, db: Db, f: File, k: nat, replies: nat -> Reply, H: HashFn): seq<Step>
    requires f.id.Some? && f.id.value < |db| && k <= |f.blocks|
    decreases |f.blocks| - k
  {
    if k == |f.blocks| || Refusal(f.blocks[k], replies(k), H).Some? || f.blocks[k].offset < 0 then []
    else
      [Mark(p, f)] +
      match StoreFile(db, Marked(f))
      case Stored(db') => FetchSteps(p, db', f, k + 1, replies, H)
      case Asserted(_) => []
  }

  lemma MarkIsStep(s: Net, p: u64, f: File)
    requires Inv(s) && Copied(s, p, f) && f.blocks != []
    ensures Enabled(s, Mark(p, f)) && Linked(s.peers[p]) && Inv(Apply(s, Mark(p, f)))
    ensures var s' := Apply(s, Mark(p, f));
            && p in s'.peers && s'.peers[p].held == s.peers[p].held
            && s'.peers[p].db == StoreFile(s.peers[p].db, Marked(f)).db && |s'.peers[p].db| == |s.peers[p].db|
  {
    StepKeepsInv(s, Mark(p, f));
  }

  /** Fetching a file from a copy of any age is a run of one mark for each block accepted. */
  lemma {:induction false} FetchIsRun(s: Net, p: u64, disk: Disk, f: File, k: nat, replies: nat -> Reply, H: HashFn)
    requires Inv(s) && Copied(s, p, f) && k <= |f.blocks|
    ensures var steps := FetchSteps(p, s.peers[p].db, f, k, replies, H);
            && Runs(s, steps) && Inv(After(s, steps))
            && p in After(s, steps).peers && After(s, steps).peers[p].held == s.peers[p].held
            && After(s, steps).peers[p].db == FetchFrom(s.peers[p].db, disk, f, k, replies, H).db
    decreases |f.blocks| - k
  {
    if k < |f.blocks| && Refusal(f.blocks[k], replies(k), H).None? && f.blocks[k].offset >= 0 {
      MarkIsStep(s, p, f);
      var s', rest := Apply(s, Mark(p, f)), [];
      if StoreFile(s.peers[p].db, Marked(f)).Stored? {
        var disk' := disk[f.name := WriteAt(Content(disk, f.name), f.blocks[k].offset, replies(k).data)];
        FetchIsRun(s', p, disk', f, k + 1, replies, H);
        rest := FetchSteps(p, s'.peers[p].db, f, k + 1, replies, H);
      }
      RunCons(s, Mark(p, f), rest);
    }
  }

  /** Every step is a mark of a row in the copy. */
  ghost predicate Marks(steps: seq<Step>, p: u64, copy: Db) {
    forall i :: 0 <= i < |steps| ==> steps[i].Mark? && steps[i].p == p && steps[i].f in copy
  }

  lemma {:induction false} FetchStepsAreMarks(p: u64, db: Db, f: File, k: nat, replies: nat -> Reply, H: HashFn, copy: Db)
    requires f.id.Some? && f.id.value < |db| && k <= |f.blocks| && f in copy
    ensures Marks(FetchSteps(p, db, f, k, replies, H), p, copy)
    decreases |f.blocks| - k
  {
    if k < |f.blocks| && Refusal(f.blocks[k], replies(k), H).None? && f.blocks[k].offset >= 0
       && StoreFile(db, Marked(f)).Stored? {
      FetchStepsAreMarks(p, StoreFile(db, Marked(f)).db, f, k + 1, replies, H, copy);
    }
  }

  /** Fetching what a copy of the rows wants, from row k on. */
  lemma {:induction false} FetchRowsIsRun(s: Net, p: u64, disk: Disk, copy: Db, k: nat, replies: Replies, H: HashFn)
    returns (steps: seq<Step>)
    requires Inv(s) && p in s.peers && |copy| == |s.peers[p].db| && SnapshotOf(copy, s.peers[p].db) && k <= |copy|
    requires forall f :: f in copy ==> f in s.peers[p].held
    ensures Marks(steps, p, copy) && Runs(s, steps) && Inv(After(s, steps)) && p in After(s, steps).peers
    ensures After(s, steps).peers[p].db == FetchRows(s.peers[p].db, disk, copy, k, replies, H).db
    decreases |copy| - k
  {
    var db := s.peers[p].db;
    if k == |copy| {
      steps := [];
    } else if !Wanted(copy[k], disk) {
      steps := FetchRowsIsRun(s, p, disk, copy, k + 1, replies, H);
    } else {
      var r := FetchFile(db, disk, copy[k], AnswersFor(replies, copy[k]), H);
      steps := FetchFileIsRun(s, p, disk, copy, k, AnswersFor(replies, copy[k]), H);
      var s' := After(s, steps);
      if r.outcome == Ok {
        var rest := FetchRowsIsRun(s', p, r.disk, copy, k + 1, replies, H);
        RunsThen(s, steps, rest);
        steps := steps + rest;
      }
    }
  }

  lemma FetchFileIsRun(s: Net, p: u64, disk: Disk, copy: Db, k: nat, answers: nat -> Reply, H: HashFn)
    returns (steps: seq<Step>)
    requires Inv(s) && p in s.peers && |copy| == |s.peers[p].db| && SnapshotOf(copy, s.peers[p].db) && k < |copy|
    requires copy[k] in s.peers[p].held
    ensures Marks(steps, p, copy) && Runs(s, steps) && Inv(After(s, steps))
    ensures p in After(s, steps).peers && After(s, steps).peers[p].held == s.peers[p].held
    ensures After(s, steps).peers[p].db == FetchFile(s.peers[p].db, disk, copy[k], answers, H).db
  {
    if copy[k].blocks == [] {
      steps := [];
    } else {
      steps := FetchSteps(p, s.peers[p].db, copy[k], 0, answers, H);
      FetchStepsAreMarks(p, s.peers[p].db, copy[k], 0, answers, H, copy);
      FetchIsRun(s, p, disk, copy[k], 0, answers, H);
    }
  }

  /** And so is the uninterrupted download, wherever it ends: reading the rows, then marks only. */
  lemma DownloadIsRun(s: Net, p: u64, disk: Disk, replies: Replies, H: HashFn) returns (marks: seq<Step>)
    requires Inv(s) && p in s.peers && ValidDb(s.peers[p].db)
    ensures Marks(marks, p, s.peers[p].db)
    ensures var steps := [Read(p)] + marks;
            && Runs(s, steps) && p in After(s, steps).peers
            && After(s, steps).peers[p].db == FetchDirectory(s.peers[p].db, disk, replies, H).db
  {
    var db := s.peers[p].db;
    ValidIsSnapshot(db);
    StepKeepsInv(s, Read(p));
    marks := FetchRowsIsRun(Apply(s, Read(p)), p, disk, db, 0, replies, H);
    RunCons(s, Read(p), marks);
  }

  // ---------------------------------------------------------------------------
  // What only interleaving can do
  // ---------------------------------------------------------------------------

  /** The step stores a copy of row i at peer p, whatever the handler made of it. */
  ghost predicate StoresRow(s: Net, step: Step, p: u64, i: nat) {
    && (step.Edit? || step.Adopt? || step.Mark?) && step.p == p && step.f.id == Some(i)
    && p in s.peers && i < |s.peers[p].db|
  }

  /** A step that works from a copy stores it in the row it was read from. */
  lemma CopyHasRow(s: Net, step: Step)
    requires Inv(s) && Enabled(s, step) && (step.Edit? || step.Adopt? || step.Mark?)
    ensures Linked(s.peers[step.p]) && Inv(Apply(s, step)) && step.p in Apply(s, step).peers
    ensures step.f.id.Some? && StoresRow(s, step, step.p, step.f.id.value)
    ensures Apply(s, step).peers[step.p].db == StoreFile(s.peers[step.p].db, Stores(step).value).db
  {
    StepKeepsInv(s, step);
    assert GoodPeer(s.peers[step.p], s.edits);
    assert GoodCopy(step.f, s.peers[step.p].db, s.edits);
  }

  /** The row takes hash and synced version of the file the handler made, and its history exactly when that extends the row's. */
  lemma RowStoredIff(db: Db, f: File)
    requires f.id.Some? && f.id.value < |db| && f.versions != []
    ensures var i, db' := f.id.value, StoreFile(db, f).db;
            && |db'| == |db| && (forall j :: 0 <= j < |db| && j != i ==> db'[j] == db[j])
            && db'[i].hash == f.hash && db'[i].synced == f.synced
            && (db'[i].versions == f.versions <==> db[i].versions <= f.versions)
            && (db'[i].versions == db[i].versions <==> |f.versions| <= |db[i].versions|)
  {
    var stored, given := db[f.id.value].versions, f.versions;
    if |stored| <= |given| {
      assert stored <= given <==> AppendTail(stored, given) == given;
    }
  }

  /**
    * What a handler stores from a copy, an edit, an entry adopted or a mark, always puts its hash in the row. It comes
    * without a new version, so that no other peer learns of it and it may stand under a history that is not its own,
    * exactly when the row's history is as long as its own already.
    */
  lemma ContentsUntoldIff(s: Net, step: Step)
    requires Inv(s) && Enabled(s, step) && (step.Edit? || step.Adopt? || step.Mark?)
    ensures step.f.id.Some? && StoresRow(s, step, step.p, step.f.id.value)
    ensures Linked(s.peers[step.p]) && step.p in Apply(s, step).peers
    ensures var i, f := step.f.id.value, Stores(step).value;
            && |Apply(s, step).peers[step.p].db| == |s.peers[step.p].db|
            && var row, row' := s.peers[step.p].db[i], Apply(s, step).peers[step.p].db[i];
               && row'.hash == f.hash && row'.synced == f.synced
               && (row'.versions == row.versions <==> |f.versions| <= |row.versions|)
               && (row'.versions == f.versions <==> row.versions <= f.versions)
  {
    CopyHasRow(s, step);
    RowStoredIff(s.peers[step.p].db, Stores(step).value);
  }

  /**
    * An edit gets its own version exactly when the row's history is no longer than the copy's, that is
    * when it has not grown since the copy was read. Otherwise the row takes the new hash without a new
    * version, so no other peer learns of the edit.
    */
  lemma EditRecordedIff(s: Net, step: Step)
    requires Inv(s) && step.Edit? && Enabled(s, step)
    ensures Linked(s.peers[step.p]) && step.f.id.Some? && step.f.id.value < |s.peers[step.p].db|
    ensures var i := step.f.id.value;
            var row, row' := s.peers[step.p].db[i], Apply(s, step).peers[step.p].db[i];
            && row'.hash == step.hash
            && (|row'.versions| == |row.versions| + 1 <==> |row.versions| <= |step.f.versions|)
            && (|row.versions| > |step.f.versions| ==> row'.versions == row.versions)
  {
    StepKeepsInv(s, step);
    assert GoodPeer(s.peers[step.p], s.edits);
    assert GoodCopy(step.f, s.peers[step.p].db, s.edits);
  }

  /**
    * A merge always leaves the entry's hash and the copy's synced version in the row. It does so under the
    * history that is there, where a merge from the row itself would have kept the contents, exactly when the
    * row has grown to the entry's length since the copy was read; and the row gets the entry's history
    * exactly when its own is a prefix of it.
    */
  lemma AdoptOverwritesIff(s: Net, step: Step)
    requires Inv(s) && step.Adopt? && Enabled(s, step)
    ensures Linked(s.peers[step.p]) && step.f.id.Some? && step.f.id.value < |s.peers[step.p].db|
    ensures var i, given := step.f.id.value, step.info.version.value;
            var row, row' := s.peers[step.p].db[i], Apply(s, step).peers[step.p].db[i];
            && row'.hash == step.info.blocks[0].hash && row'.synced == step.f.synced
            && (row'.versions == row.versions <==> |row.versions| >= |given|)
            && (row'.versions == given <==> row.versions <= given)
            && (row'.blocks != row.blocks ==> |row.versions| <= |given|)
            && (|row.versions| <= |given| ==> row'.blocks == SortByOffset(step.info.blocks))
            && (|row.versions| >= |given| ==> |step.f.versions| < |row.versions|)
  {
    ContentsUntoldIff(s, step);
  }

  /** The step stores, over row i, a synced version older than this one. */
  predicate TakesBack(step: Step, i: nat, synced: u64) {
    match step
    case Mark(_, f) => f.id == Some(i) && |f.versions| <= synced
    case Edit(_, f, _, _) => f.id == Some(i) && |f.versions| < synced
    case Adopt(_, f, _) => f.id == Some(i) && f.synced < synced
    case _ => false
  }

  /** A step that stores no copy leaves rows that exist as they are. */
  lemma NewRowsKeepRows(s: Net, step: Step, p: u64, i: nat)
    requires Inv(s) && Enabled(s, step) && p in s.peers && i < |s.peers[p].db|
    requires p != step.p || !(step.Edit? || step.Adopt? || step.Mark?)
    ensures Linked(s.peers[step.p]) && p in Apply(s, step).peers && i < |Apply(s, step).peers[p].db|
    ensures Apply(s, step).peers[p].db[i] == s.peers[p].db[i]
  {
    StepKeepsInv(s, step);
  }

  lemma CopyDropsIff(s: Net, step: Step, i: nat)
    requires Inv(s) && Enabled(s, step) && (step.Edit? || step.Adopt? || step.Mark?) && i < |s.peers[step.p].db|
    ensures Linked(s.peers[step.p]) && step.p in Apply(s, step).peers && i < |Apply(s, step).peers[step.p].db|
    ensures Apply(s, step).peers[step.p].db[i].synced < s.peers[step.p].db[i].synced <==>
            TakesBack(step, i, s.peers[step.p].db[i].synced)
  {
    CopyHasRow(s, step);
    assert GoodPeer(s.peers[step.p], s.edits) && GoodCopy(step.f, s.peers[step.p].db, s.edits);
    RowStoredIff(s.peers[step.p].db, Stores(step).value);
  }

  /**
    * Over all steps, a synced version goes back exactly here: a download's mark or a scan's edit, from a copy
    * whose history is too short to list it, or a merge from a copy that was read before the row was synced.
    */
  lemma SyncedDropsIff(s: Net, step: Step, p: u64, i: nat)
    requires Inv(s) && Enabled(s, step) && p in s.peers && i < |s.peers[p].db|
    ensures Linked(s.peers[step.p]) && p in Apply(s, step).peers && i < |Apply(s, step).peers[p].db|
    ensures Apply(s, step).peers[p].db[i].synced < s.peers[p].db[i].synced <==>
            p == step.p && TakesBack(step, i, s.peers[p].db[i].synced)
  {
    if p == step.p && (step.Edit? || step.Adopt? || step.Mark?) {
      CopyDropsIff(s, step, i);
    } else {
      NewRowsKeepRows(s, step, p, i);
    }
  }

  /**
    * Of these only the merge can go unnoticed: marks and edits that take a synced version back fail the
    * assertion, after the row was written.
    */
  lemma DropIsNoticed(s: Net, step: Step, i: nat)
    requires Inv(s) && Enabled(s, step) && (step.Mark? || step.Edit?) && i < |s.peers[step.p].db|
    requires TakesBack(step, i, s.peers[step.p].db[i].synced)
    ensures Stores(step).Some? && StoreFile(s.peers[step.p].db, Stores(step).value).Asserted?
  {
    CopyHasRow(s, step);
    assert GoodPeer(s.peers[step.p], s.edits);
    assert GoodCopy(step.f, s.peers[step.p].db, s.edits) && GoodRow(s.peers[step.p].db[i], i, s.edits);
  }

  /** A download's mark takes back what the row had synced exactly when its copy is older than that; the assertion that fails then comes after the row was written. */
  lemma MarkDropsSyncedIff(s: Net, step: Step)
    requires Inv(s) && step.Mark? && Enabled(s, step)
    ensures Linked(s.peers[step.p]) && step.f.id.Some? && step.f.id.value < |s.peers[step.p].db|
    ensures var i := step.f.id.value;
            var row, row' := s.peers[step.p].db[i], Apply(s, step).peers[step.p].db[i];
            && (row'.synced < row.synced <==> |step.f.versions| <= row.synced)
            && (row'.synced < row.synced ==> StoreFile(s.peers[step.p].db, Marked(step.f)).Asserted?)
  {
    CopyHasRow(s, step);
    SyncedDropsIff(s, step, step.p, step.f.id.value);
    if |step.f.versions| <= s.peers[step.p].db[step.f.id.value].synced {
      DropIsNoticed(s, step, step.f.id.value);
    }
  }

  /**
    * A step gives a name a second row exactly when it enters the name as new although a row of it was
    * stored since the handler's copy was read: two scans, or a scan and a merge, of one new file.
    */
  lemma SecondRowIff(s: Net, step: Step)
    requires Inv(s) && Enabled(s, step) && UniqueNames(s.peers[step.p].db)
    ensures Linked(s.peers[step.p])
    ensures !UniqueNames(Apply(s, step).peers[step.p].db) <==>
            (step.Create? && RowOf(s.peers[step.p].db, step.name).Some?)
            || (step.AdoptNew? && RowOf(s.peers[step.p].db, step.info.name).Some?)
  {
    StepKeepsInv(s, step);
    var db, db' := s.peers[step.p].db, Apply(s, step).peers[step.p].db;
    if Stores(step).Some? {
      StoredIsGood(s, step);
      var f := Stores(step).value;
      if f.id.None? {
        UniqueAfterAppend(db, db'[|db|]);
      } else {
        UniqueWhenSameNames(db, db');
      }
    }
  }

  lemma UniqueAfterAppend(db: Db, row: File)
    requires UniqueNames(db)
    ensures UniqueNames(db + [row]) <==> RowOf(db, row.name).None?
  {
    var i, db' := FindName(db, row.name), db + [row];
    assert db'[|db|] == row && (i < |db| ==> db'[i].name == row.name);
  }

  lemma UniqueWhenSameNames(db: Db, db': Db)
    requires UniqueNames(db) && |db'| == |db| && forall j :: 0 <= j < |db| ==> db'[j].name == db[j].name
    ensures UniqueNames(db')
  {
  }

  // ---------------------------------------------------------------------------
  // Runs in which it happens
  // ---------------------------------------------------------------------------

  const ONE: u64 := 1
  const TWO: u64 := 2

  /**
    * Peer ONE creates a file and changes it. Peer TWO learns of the first content and reads its rows;
    * before it uses that copy it learns of the second content and downloads it.
    */
  datatype Story = Story(hash0: Bytes, blocks0: seq<Block>, hash1: Bytes, blocks1: seq<Block>)

  ghost predicate Tellable(t: Story) {
    t.blocks0 != [] && OffsetOrdered(t.blocks0) && t.blocks1 != [] && OffsetOrdered(t.blocks1)
  }

  /** The story of any two contents that can be cut into blocks. */
  function StoryOf(first: Bytes, second: Bytes, H: HashFn): Story
    requires Blocks.BlocksOf(first, H).Some? && Blocks.BlocksOf(second, H).Some?
  {
    Story(H(first), Blocks.BlocksOf(first, H).value, H(second), Blocks.BlocksOf(second, H).value)
  }

  lemma StoriesAreTellable(first: Bytes, second: Bytes, H: HashFn)
    requires Blocks.BlocksOf(first, H).Some? && Blocks.BlocksOf(second, H).Some?
    ensures Tellable(StoryOf(first, second, H))
    ensures forall b :: b in StoryOf(first, second, H).blocks0 ==> b.offset >= 0
  {
    BlocksAreOrdered(first, H);
    BlocksAreOrdered(second, H);
    forall i: nat | i < Blocks.BlockCount(first) ensures Blocks.BlockAt(first, i, H).offset >= 0 {
      Blocks.OffsetInFile(first, i);
    }
  }

  const V0: seq<Version> := [Version(ONE, 0)]
  const V1: seq<Version> := [Version(ONE, 0), Version(ONE, 1)]

  /** Peer ONE's row before and after its edit. */
  function Written(t: Story): File
    requires Tellable(t)
  {
    File(Some(0), "a", t.hash0, ONE, 0, V0, t.blocks0)
  }

  function Rewritten(t: Story): File
    requires Tellable(t)
  {
    File(Some(0), "a", t.hash1, ONE, 1, V1, t.blocks1)
  }

  function Info0(t: Story): FileInfo
    requires Tellable(t)
  {
    FileInfo("a", 0, Some(V0), t.blocks0)
  }

  function Info1(t: Story): FileInfo
    requires Tellable(t)
  {
    FileInfo("a", 0, Some(V1), t.blocks1)
  }

  /** Peer TWO's row: learned of, then learned anew, then downloaded. */
  function Learned(t: Story): File
    requires Tellable(t)
  {
    File(Some(0), "a", t.blocks0[0].hash, 0, 0, V0, t.blocks0)
  }

  function Relearned(t: Story): File
    requires Tellable(t)
  {
    File(Some(0), "a", t.blocks1[0].hash, 0, 0, V1, t.blocks1)
  }

  function Fetched(t: Story): File
    requires Tellable(t)
  {
    Relearned(t).(synced := 1)
  }

  function Pair(one: Peer, two: Peer, wire: set<FileInfo>, edits: set<(u64, string, nat)>): Net {
    Net(map[ONE := one, TWO := two], wire, edits)
  }

  const EDIT0: (u64, string, nat) := (ONE, "a", 0)
  const EDIT1: (u64, string, nat) := (ONE, "a", 1)

  function StateAt(t: Story, k: nat): Net
    requires Tellable(t) && k <= 9
  {
    var one :=
      if k == 0 then Peer([], {})
      else if k == 1 then Peer([Written(t)], {})
      else if k <= 5 then Peer([Written(t)], {Written(t)})
      else Peer([Rewritten(t)], {Written(t), Rewritten(t)});
    var two :=
      if k <= 3 then Peer([], {})
      else if k == 4 then Peer([Learned(t)], {})
      else if k <= 7 then Peer([Learned(t)], {Learned(t)})
      else if k == 8 then Peer([Relearned(t)], {Learned(t), Relearned(t)})
      else Peer([Fetched(t)], {Learned(t), Relearned(t)});
    var wire := if k <= 2 then {} else if k <= 6 then {Info0(t)} else {Info0(t), Info1(t)};
    var edits := if k == 0 then {} else if k <= 5 then {EDIT0} else {EDIT0, EDIT1};
    Pair(one, two, wire, edits)
  }

  function StepAt(t: Story, k: nat): Step
    requires Tellable(t) && k < 9
  {
    match k
    case 0 => Create(ONE, "a", t.hash0, t.blocks0)
    case 1 => Read(ONE)
    case 2 => Send(ONE, Written(t), t.blocks0)
    case 3 => AdoptNew(TWO, Info0(t))
    case 4 => Read(TWO)
    case 5 => Edit(ONE, Written(t), t.hash1, t.blocks1)
    case 6 => Send(ONE, Rewritten(t), t.blocks1)
    case 7 => Adopt(TWO, Learned(t), Info1(t))
    case 8 => Mark(TWO, Relearned(t))
  }

  lemma ReadsRow(row: File)
    ensures (set f | f in [row]) == {row}
  {
    assert [row][0] in [row];
  }

  /** Storing a new file in an empty database. */
  lemma FirstRowStored(f: File)
    requires f.id.None? && f.versions != [] && OffsetOrdered(f.blocks)
    ensures StoreFile([], f).db == [f.(id := Some(0))]
  {
    SortedReadBack(f.blocks);
    assert StoreFile([], f).db[0] == f.(id := Some(0));
  }

  lemma OneRowStored(row: File, f: File)
    requires row.id == f.id == Some(0) && row.versions <= f.versions && f.versions != []
    requires f.blocks != [] && OffsetOrdered(f.blocks)
    ensures StoreFile([row], f).db == [f]
  {
    StoreReadBack([row], f);
    assert [row][0 := f] == [f];
  }

  lemma PairOf(s: Net, one: Peer, two: Peer, wire: set<FileInfo>, edits: set<(u64, string, nat)>)
    requires s.peers.Keys == {ONE, TWO} && s.peers[ONE] == one && s.peers[TWO] == two && s.wire == wire && s.edits == edits
    ensures s == Pair(one, two, wire, edits)
  {
    assert s.peers == map[ONE := one, TWO := two];
  }

  /** The copy a storing step keeps. */
  function Kept(step: Step, f: File): set<File> {
    if step.Edit? || step.Adopt? then {f} else {}
  }

  lemma PairStores(one: Peer, two: Peer, wire: set<FileInfo>, edits: set<(u64, string, nat)>, step: Step, f: File, db: Db)
    requires var s := Pair(one, two, wire, edits);
             && Enabled(s, step) && Linked(s.peers[step.p]) && Stores(step) == Some(f)
             && (f.id.Some? ==> f.id.value < |s.peers[step.p].db|)
             && StoreFile(s.peers[step.p].db, f).db == db
    ensures step.p == ONE || step.p == TWO
    ensures Apply(Pair(one, two, wire, edits), step) ==
            if step.p == ONE then Pair(Peer(db, one.held + Kept(step, f)), two, wire, edits + Records(step))
            else Pair(one, Peer(db, two.held + Kept(step, f)), wire, edits + Records(step))
  {
    var s' := Apply(Pair(one, two, wire, edits), step);
    if step.p == ONE {
      PairOf(s', Peer(db, one.held + Kept(step, f)), two, wire, edits + Records(step));
    } else {
      PairOf(s', one, Peer(db, two.held + Kept(step, f)), wire, edits + Records(step));
    }
  }

  lemma PairReads(one: Peer, two: Peer, wire: set<FileInfo>, edits: set<(u64, string, nat)>, p: u64, row: File)
    requires p == ONE || p == TWO
    requires (if p == ONE then one else two).db == [row] && Linked(if p == ONE then one else two)
    ensures Enabled(Pair(one, two, wire, edits), Read(p))
    ensures Apply(Pair(one, two, wire, edits), Read(p)) ==
            if p == ONE then Pair(one.(held := one.held + {row}), two, wire, edits)
            else Pair(one, two.(held := two.held + {row}), wire, edits)
  {
    ReadsRow(row);
    var s' := Apply(Pair(one, two, wire, edits), Read(p));
    if p == ONE {
      PairOf(s', one.(held := one.held + {row}), two, wire, edits);
    } else {
      PairOf(s', one, two.(held := two.held + {row}), wire, edits);
    }
  }

  lemma StoryFiles(t: Story)
    requires Tellable(t)
    ensures Edited(ONE, Written(t), t.hash1, t.blocks1) == Rewritten(t)
    ensures t.blocks1 != [] && Overwritten(Learned(t), Info1(t)) == Relearned(t)
    ensures Marked(Relearned(t)) == Fetched(t)
  {
    assert V0 + [Version(ONE, 1)] == V1;
  }

  /** The k-th step can be taken and leads from one state of the story to the next. */
  ghost predicate Leads(t: Story, k: nat)
    requires Tellable(t) && k < 9
  {
    && Enabled(StateAt(t, k), StepAt(t, k)) && Linked(StateAt(t, k).peers[StepAt(t, k).p])
    && Apply(StateAt(t, k), StepAt(t, k)) == StateAt(t, k + 1)
  }

  lemma StoryEnabled(t: Story, k: nat)
    requires Tellable(t) && k < 9 && Inv(StateAt(t, k))
    ensures Enabled(StateAt(t, k), StepAt(t, k)) && Linked(StateAt(t, k).peers[StepAt(t, k).p])
  {
    if k == 5 {
      assert !Behind(Written(t));
    } else if k == 7 {
      assert WellFormed(Info1(t));
    }
    StepKeepsInv(StateAt(t, k), StepAt(t, k));
  }

  lemma StoryCreates(t: Story)
    requires Tellable(t) && Inv(StateAt(t, 0))
    ensures Leads(t, 0)
  {
    StoryEnabled(t, 0);
    var f := NewFile(ONE, "a", t.hash0, t.blocks0);
    FirstRowStored(f);
    PairStores(Peer([], {}), Peer([], {}), {}, {}, StepAt(t, 0), f, [Written(t)]);
    var none: set<File>, edits: set<(u64, string, nat)> := {}, {};
    assert none + none == none && edits + {EDIT0} == {EDIT0};
  }

  lemma StoryOneReads(t: Story)
    requires Tellable(t) && Inv(StateAt(t, 1))
    ensures Leads(t, 1)
  {
    StoryEnabled(t, 1);
    PairReads(Peer([Written(t)], {}), Peer([], {}), {}, {EDIT0}, ONE, Written(t));
    assert {} + {Written(t)} == {Written(t)};
  }

  lemma StoryOneSends(t: Story)
    requires Tellable(t) && Inv(StateAt(t, 2))
    ensures Leads(t, 2)
  {
    StoryEnabled(t, 2);
    assert {} + {Info0(t)} == {Info0(t)};
  }

  lemma StoryTwoLearns(t: Story)
    requires Tellable(t) && Inv(StateAt(t, 3))
    ensures Leads(t, 3)
  {
    StoryEnabled(t, 3);
    FirstRowStored(FromEntry(Info0(t)));
    PairStores(Peer([Written(t)], {Written(t)}), Peer([], {}), {Info0(t)}, {EDIT0}, StepAt(t, 3), FromEntry(Info0(t)), [Learned(t)]);
    var none: set<File> := {};
    assert none + none == none && {EDIT0} + {} == {EDIT0};
  }

  lemma StoryTwoReads(t: Story)
    requires Tellable(t) && Inv(StateAt(t, 4))
    ensures Leads(t, 4)
  {
    StoryEnabled(t, 4);
    PairReads(Peer([Written(t)], {Written(t)}), Peer([Learned(t)], {}), {Info0(t)}, {EDIT0}, TWO, Learned(t));
    assert {} + {Learned(t)} == {Learned(t)};
  }

  lemma StoryOneEdits(t: Story)
    requires Tellable(t) && Inv(StateAt(t, 5))
    ensures Leads(t, 5)
  {
    StoryEnabled(t, 5);
    StoryFiles(t);
    OneRowStored(Written(t), Rewritten(t));
    PairStores(Peer([Written(t)], {Written(t)}), Peer([Learned(t)], {Learned(t)}), {Info0(t)}, {EDIT0},
               StepAt(t, 5), Rewritten(t), [Rewritten(t)]);
    assert {Written(t)} + {Rewritten(t)} == {Written(t), Rewritten(t)} && {EDIT0} + {EDIT1} == {EDIT0, EDIT1};
  }

  lemma StoryOneSendsAgain(t: Story)
    requires Tellable(t) && Inv(StateAt(t, 6))
    ensures Leads(t, 6)
  {
    StoryEnabled(t, 6);
    assert {Info0(t)} + {Info1(t)} == {Info0(t), Info1(t)};
  }

  lemma StoryTwoAdopts(t: Story)
    requires Tellable(t) && Inv(StateAt(t, 7))
    ensures Leads(t, 7)
  {
    StoryEnabled(t, 7);
    StoryFiles(t);
    OneRowStored(Learned(t), Relearned(t));
    PairStores(Peer([Rewritten(t)], {Written(t), Rewritten(t)}), Peer([Learned(t)], {Learned(t)}),
               {Info0(t), Info1(t)}, {EDIT0, EDIT1}, StepAt(t, 7), Relearned(t), [Relearned(t)]);
    assert {Learned(t)} + {Relearned(t)} == {Learned(t), Relearned(t)} && {EDIT0, EDIT1} + {} == {EDIT0, EDIT1};
  }

  lemma StoryTwoMarks(t: Story)
    requires Tellable(t) && Inv(StateAt(t, 8))
    ensures Leads(t, 8)
  {
    StoryEnabled(t, 8);
    StoryFiles(t);
    OneRowStored(Relearned(t), Fetched(t));
    PairStores(Peer([Rewritten(t)], {Written(t), Rewritten(t)}), Peer([Relearned(t)], {Learned(t), Relearned(t)}),
               {Info0(t), Info1(t)}, {EDIT0, EDIT1}, StepAt(t, 8), Fetched(t), [Fetched(t)]);
    assert {Learned(t), Relearned(t)} + {} == {Learned(t), Relearned(t)} && {EDIT0, EDIT1} + {} == {EDIT0, EDIT1};
  }

  lemma StoryStep(t: Story, k: nat)
    requires Tellable(t) && k < 9 && Inv(StateAt(t, k))
    ensures Leads(t, k) && Inv(StateAt(t, k + 1))
  {
    match k {
      case 0 => StoryCreates(t);
      case 1 => StoryOneReads(t);
      case 2 => StoryOneSends(t);
      case 3 => StoryTwoLearns(t);
      case 4 => StoryTwoReads(t);
      case 5 => StoryOneEdits(t);
      case 6 => StoryOneSendsAgain(t);
      case 7 => StoryTwoAdopts(t);
      case 8 => StoryTwoMarks(t);
    }
    StepKeepsInv(StateAt(t, k), StepAt(t, k));
  }

  /** The story is a run from empty peers; it ends with peer TWO synced to the second content. */
  lemma {:induction false} StoryIsReached(t: Story, k: nat)
    requires Tellable(t) && k <= 9
    ensures Reachable(StateAt(t, k)) && Inv(StateAt(t, k))
    decreases k
  {
    if k == 0 {
      InitialIsReachable(StateAt(t, 0));
    } else {
      StoryIsReached(t, k - 1);
      StoryStep(t, k - 1);
      StepReaches(StateAt(t, k - 1), StepAt(t, k - 1));
    }
  }

  lemma StaleStore(t: Story)
    requires Tellable(t)
    ensures StoreFile([Fetched(t)], Marked(Learned(t))) ==
            Asserted([Fetched(t).(modifiedBy := 0, synced := 0, hash := Learned(t).hash)])
  {
    assert Marked(Learned(t)) == Learned(t);
  }

  /**
    * There a download of the first content, whose answer was on its way all the time, marks the row: the
    * synced version goes from 1 back to 0, after an assertion that failed too late.
    */
  lemma StaleMarkHappens(t: Story)
    requires Tellable(t)
    ensures var s, mark := StateAt(t, 9), Mark(TWO, Learned(t));
            && Reachable(s) && Enabled(s, mark) && Linked(s.peers[TWO])
            && s.peers[TWO].db == [Fetched(t)] && Fetched(t).synced == 1
            && Apply(s, mark).peers[TWO].db == [Fetched(t).(synced := 0, hash := Learned(t).hash)]
  {
    StoryIsReached(t, 9);
    StepKeepsInv(StateAt(t, 9), Mark(TWO, Learned(t)));
    StaleStore(t);
  }

  /** The same as `get_file` itself does it: it accepts the answer, writes it, marks the row from its copy, and panics. */
  lemma StaleDownloadPanics(first: Bytes, second: Bytes, H: HashFn, disk: Disk, replies: nat -> Reply)
    requires Blocks.BlocksOf(first, H).Some? && Blocks.BlocksOf(second, H).Some?
    requires StoryOf(first, second, H).blocks0 != []
    requires Refusal(StoryOf(first, second, H).blocks0[0], replies(0), H).None?
    ensures var t := StoryOf(first, second, H);
            && Tellable(t)
            && var s, mark := StateAt(t, 9), Mark(TWO, Learned(t));
               && Enabled(s, mark) && Linked(s.peers[TWO])
               && FetchFile(s.peers[TWO].db, disk, Learned(t), replies, H).outcome == Panicked
               && FetchFile(s.peers[TWO].db, disk, Learned(t), replies, H).db == Apply(s, mark).peers[TWO].db
  {
    StoriesAreTellable(first, second, H);
    StaleMarkHappens(StoryOf(first, second, H));
    StaleStore(StoryOf(first, second, H));
  }

  lemma LostStore(t: Story, hash: Bytes, blocks: seq<Block>)
    requires Tellable(t)
    ensures var f := Edited(TWO, Learned(t), hash, blocks);
            && |StoreFile([Fetched(t)], f).db| == 1
            && StoreFile([Fetched(t)], f).db[0].hash == hash && StoreFile([Fetched(t)], f).db[0].versions == V1
  {
    assert |Edited(TWO, Learned(t), hash, blocks).versions| == 2;
    assert V1 + Edited(TWO, Learned(t), hash, blocks).versions[2..] == V1;
  }

  /**
    * And there a scan that read its copy before, and finds on disk what is neither content, stores its
    * edit without a version: the row has the new hash, and the history peer ONE gave it.
    */
  lemma LostEditHappens(t: Story, hash: Bytes, blocks: seq<Block>)
    requires Tellable(t) && blocks != []
    ensures var s, edit := StateAt(t, 9), Edit(TWO, Learned(t), hash, blocks);
            && Reachable(s) && Enabled(s, edit) && Linked(s.peers[TWO])
            && |Apply(s, edit).peers[TWO].db| == 1
            && Apply(s, edit).peers[TWO].db[0].hash == hash
            && Apply(s, edit).peers[TWO].db[0].versions == V1 == s.peers[TWO].db[0].versions
  {
    StoryIsReached(t, 9);
    StepKeepsInv(StateAt(t, 9), Edit(TWO, Learned(t), hash, blocks));
    LostStore(t, hash, blocks);
  }

  /** Peer TWO's row after an edit of its own, made from the first content. */
  function Own(t: Story, hash: Bytes, blocks: seq<Block>): File
    requires Tellable(t)
  {
    Edited(TWO, Learned(t), hash, blocks)
  }

  lemma OwnIsStored(t: Story, hash: Bytes, blocks: seq<Block>)
    requires Tellable(t) && blocks != [] && OffsetOrdered(blocks)
    ensures StoreFile([Learned(t)], Own(t, hash, blocks)).db == [Own(t, hash, blocks)]
  {
    OneRowStored(Learned(t), Own(t, hash, blocks));
  }

  /** A file under a history of the row's length puts everything but its history in the row. */
  lemma SameLengthStored(row: File, f: File)
    requires row.id == f.id == Some(0) && |row.versions| == |f.versions| > 0
    requires f.blocks != []
    ensures StoreFile([row], f) == Stored([f.(versions := row.versions, blocks := SortByOffset(f.blocks))])
  {
    NothingToAppend(row.versions, f.versions);
    var row' := f.(versions := row.versions, blocks := SortByOffset(f.blocks));
    assert [row][0 := row'] == [row'];
  }

  lemma NothingToAppend(stored: seq<Version>, given: seq<Version>)
    requires |stored| == |given|
    ensures AppendTail(stored, given) == stored
  {
  }

  /** What a merge from the copy before that edit makes of the row. */
  function Overridden(t: Story, hash: Bytes, blocks: seq<Block>): File
    requires Tellable(t)
  {
    Own(t, hash, blocks).(synced := 0, hash := t.blocks1[0].hash, blocks := t.blocks1)
  }

  lemma OverridingStore(t: Story, hash: Bytes, blocks: seq<Block>)
    requires Tellable(t)
    ensures StoreFile([Own(t, hash, blocks)], Relearned(t)) == Stored([Overridden(t, hash, blocks)])
  {
    SameLengthStored(Own(t, hash, blocks), Relearned(t));
    SortedReadBack(t.blocks1);
  }

  /** The iteration of `handle_index` that does it. */
  lemma OverridingMerge(t: Story, hash: Bytes, blocks: seq<Block>)
    requires Tellable(t)
    ensures SnapshotOf([Learned(t)], [Own(t, hash, blocks)])
    ensures MergeFile(Merge([Own(t, hash, blocks)], [Learned(t)], false, true), Info1(t)) ==
            Merge([Overridden(t, hash, blocks)], [Relearned(t)], true, true)
  {
    StoryFiles(t);
    OverridingStore(t, hash, blocks);
    assert [Learned(t)][0].name == "a";
    assert [Learned(t)][0 := Relearned(t)] == [Relearned(t)];
  }

  /**
    * The other way to lose an edit: peer TWO reads its rows for a merge, a scan records an edit of its own,
    * with its version and synced, and the merge adopts ONE's second content from its copy. No assertion
    * fails. The row keeps TWO's version, takes ONE's hash and blocks, and waits for a download that will
    * overwrite the edit.
    */
  lemma EditIsOverridden(t: Story, hash: Bytes, blocks: seq<Block>)
    requires Tellable(t) && blocks != [] && OffsetOrdered(blocks)
    ensures var s, edit := StateAt(t, 7), Edit(TWO, Learned(t), hash, blocks);
            && Reachable(s) && Enabled(s, edit) && Linked(s.peers[TWO])
            && var s', adopt := Apply(s, edit), Adopt(TWO, Learned(t), Info1(t));
               && Enabled(s', adopt) && Linked(s'.peers[TWO]) && Reachable(Apply(s', adopt))
               && s'.peers[TWO].db == [Own(t, hash, blocks)]
               && Apply(s', adopt).peers[TWO].db == [Overridden(t, hash, blocks)]
    ensures Overridden(t, hash, blocks).synced < IndexVersion(Overridden(t, hash, blocks)) == IndexVersion(Own(t, hash, blocks))
  {
    StoryIsReached(t, 7);
    OwnIsStored(t, hash, blocks);
    StepReaches(StateAt(t, 7), Edit(TWO, Learned(t), hash, blocks));
    StoryFiles(t);
    assert WellFormed(Info1(t));
    StepReaches(Apply(StateAt(t, 7), Edit(TWO, Learned(t), hash, blocks)), Adopt(TWO, Learned(t), Info1(t)));
    OverridingStore(t, hash, blocks);
  }

  lemma MarkingStore(t: Story, hash: Bytes, blocks: seq<Block>)
    requires Tellable(t)
    ensures StoreFile([Own(t, hash, blocks)], Marked(Learned(t))) ==
            Asserted([Own(t, hash, blocks).(synced := 0, hash := Learned(t).hash)])
  {
    assert Marked(Learned(t)) == Learned(t);
  }

  /** One download is enough to take a synced version back, if a scan records an edit while the answer is on its way. */
  lemma ScanThenMarkDrops(t: Story, hash: Bytes, blocks: seq<Block>)
    requires Tellable(t) && blocks != [] && OffsetOrdered(blocks)
    ensures var s, edit := StateAt(t, 5), Edit(TWO, Learned(t), hash, blocks);
            && Reachable(s) && Enabled(s, edit) && Linked(s.peers[TWO])
            && var s', mark := Apply(s, edit), Mark(TWO, Learned(t));
               && Enabled(s', mark) && Linked(s'.peers[TWO]) && Reachable(Apply(s', mark))
               && s'.peers[TWO].db == [Own(t, hash, blocks)] && Own(t, hash, blocks).synced == 1
               && Apply(s', mark).peers[TWO].db == [Own(t, hash, blocks).(synced := 0, hash := Learned(t).hash)]
  {
    StoryIsReached(t, 5);
    OwnIsStored(t, hash, blocks);
    StepReaches(StateAt(t, 5), Edit(TWO, Learned(t), hash, blocks));
    StepReaches(Apply(StateAt(t, 5), Edit(TWO, Learned(t), hash, blocks)), Mark(TWO, Learned(t)));
    MarkingStore(t, hash, blocks);
  }

  const V2: seq<Version> := [Version(ONE, 0), Version(ONE, 1), Version(ONE, 2)]

  /** Peer ONE's third content, as a row, as an entry, and as peer TWO takes it over from a copy not yet synced. */
  function Renewed(t: Story, hash: Bytes, blocks: seq<Block>): File
    requires Tellable(t)
  {
    File(Some(0), "a", hash, ONE, 2, V2, blocks)
  }

  function Info2(blocks: seq<Block>): FileInfo {
    FileInfo("a", 0, Some(V2), blocks)
  }

  function Behindhand(t: Story, blocks: seq<Block>): File
    requires Tellable(t) && blocks != []
  {
    File(Some(0), "a", blocks[0].hash, 0, 0, V2, blocks)
  }

  /** Reading its rows once more before it marks them gives peer TWO the copy it holds since the merge. */
  lemma StoryTwoRereads(t: Story)
    requires Tellable(t)
    ensures Enabled(StateAt(t, 8), Read(TWO)) && Linked(StateAt(t, 8).peers[TWO])
    ensures Apply(StateAt(t, 8), Read(TWO)) == StateAt(t, 8)
  {
    StoryIsReached(t, 8);
    StepKeepsInv(StateAt(t, 8), Read(TWO));
    var one, two := StateAt(t, 8).peers[ONE], StateAt(t, 8).peers[TWO];
    PairReads(one, two, {Info0(t), Info1(t)}, {EDIT0, EDIT1}, TWO, Relearned(t));
    assert two.held + {Relearned(t)} == two.held;
  }

  /** The story goes on: ONE changes the file again and sends it. */
  lemma SequelIsReached(t: Story, hash: Bytes, blocks: seq<Block>) returns (s: Net)
    requires Tellable(t) && blocks != [] && OffsetOrdered(blocks)
    ensures Reachable(s) && Inv(s) && TWO in s.peers && s.peers[TWO] == StateAt(t, 9).peers[TWO]
    ensures Info2(blocks) in s.wire
  {
    StoryIsReached(t, 9);
    assert V1 + [Version(ONE, 2)] == V2;
    assert Edited(ONE, Rewritten(t), hash, blocks) == Renewed(t, hash, blocks);
    StepReaches(StateAt(t, 9), Edit(ONE, Rewritten(t), hash, blocks));
    var s1 := Apply(StateAt(t, 9), Edit(ONE, Rewritten(t), hash, blocks));
    StepReaches(s1, Send(ONE, Renewed(t, hash, blocks), blocks));
    s := Apply(s1, Send(ONE, Renewed(t, hash, blocks), blocks));
  }

  /**
    * And a merge takes a synced version back without any assertion: TWO merges ONE's third content from
    * the copy it read before its download of the second was marked (`StoryTwoRereads`). There is nothing
    * but merges and downloads at TWO.
    */
  lemma MergeDropsUnnoticed(t: Story, hash: Bytes, blocks: seq<Block>) returns (s: Net)
    requires Tellable(t) && blocks != [] && OffsetOrdered(blocks)
    ensures var adopt := Adopt(TWO, Relearned(t), Info2(blocks));
            && Reachable(s) && Enabled(s, adopt) && Linked(s.peers[TWO]) && Reachable(Apply(s, adopt))
            && s.peers[TWO].db == [Fetched(t)] && Fetched(t).synced == 1
            && StoreFile(s.peers[TWO].db, Stores(adopt).value).Stored?
            && Apply(s, adopt).peers[TWO].db == [Behindhand(t, blocks)] && Behindhand(t, blocks).synced == 0
  {
    s := SequelIsReached(t, hash, blocks);
    assert WellFormed(Info2(blocks));
    assert Overwritten(Relearned(t), Info2(blocks)) == Behindhand(t, blocks);
    OneRowStored(Fetched(t), Behindhand(t, blocks));
    StepReaches(s, Adopt(TWO, Relearned(t), Info2(blocks)));
  }

  /** A scan's iteration over a file that its copy of the rows lacks. */
  lemma NewEntryScanned(db: Db, e: Entry, me: u64, H: HashFn)
    requires Blocks.BlocksOf(e.data, H).Some? && SnapshotOf([], db)
    ensures var f, m := NewFile(me, e.name, H(e.data), Blocks.BlocksOf(e.data, H).value), ScanEntry(Scan(db, [], false, true), e, me, H);
            && m == Scan(StoreFile(db, f).db, [], true, true)
            && m.db == db + [f.(id := Some(|db|), blocks := SortByOffset(f.blocks))]
  {
  }

  lemma TwoCreatesReach(p: u64, name: string, hash: Bytes, blocks: seq<Block>) returns (s: Net)
    requires blocks != []
    ensures Reachable(s) && p in s.peers
    ensures var f := NewFile(p, name, hash, blocks); s.peers[p].db == StoreFile(StoreFile([], f).db, f).db
  {
    var s0, create := Net(map[p := Peer([], {})], {}, {}), Create(p, name, hash, blocks);
    InitialIsReachable(s0);
    StepReaches(s0, Read(p));
    var s1 := Apply(s0, Read(p));
    StepReaches(s1, Read(p));
    var s2 := Apply(s1, Read(p));
    StepReaches(s2, create);
    s := Apply(s2, create);
    StepReaches(s, create);
    s := Apply(s, create);
  }

  /** Two scans of one new file, the second from the copy of the rows it read before the first stored anything. */
  lemma TwoScansTwoRows(p: u64, e: Entry, H: HashFn) returns (s: Net)
    requires Blocks.BlocksOf(e.data, H).Some?
    ensures var first := ScanEntry(Scan([], [], false, true), e, p, H);
            && first.ok && SnapshotOf([], first.db)
            && var second := ScanEntry(Scan(first.db, [], false, true), e, p, H);
               && second.ok && |second.db| == 2 && second.db[0].name == second.db[1].name == e.name
               && Reachable(s) && p in s.peers && s.peers[p].db == second.db
  {
    BlocksAreOrdered(e.data, H);
    s := TwoCreatesReach(p, e.name, H(e.data), Blocks.BlocksOf(e.data, H).value);
    NewEntryScanned([], e, p, H);
    NewEntryScanned(ScanEntry(Scan([], [], false, true), e, p, H).db, e, p, H);
  }
}
