/** Merging a received index into the database. */
module IndexMerge {
  import opened SyncTypes
  import opened Store

  /** Where `handle_index` stands: the database, its own copy of it, and whether anything changed. `ok` is false after a panic. */
  datatype Merge = Merge(db: Db, local: Db, changed: bool, ok: bool)

  /** A copy of a row, taken over by an index entry. */
  function Overwritten(f: File, info: FileInfo): File
    requires info.version.Some? && info.blocks != []
  {
    f.(versions := info.version.value, hash := info.blocks[0].hash, blocks := info.blocks, modifiedBy := info.modifiedBy)
  }

  /** A file known from an index entry only. */
  function FromEntry(info: FileInfo): File
    requires info.version.Some? && info.blocks != []
  {
    File(None, info.name, info.blocks[0].hash, info.modifiedBy, 0, info.version.value, info.blocks)
  }

  /** One iteration of the loop over the files of the index. */
  function MergeFile(m: Merge, info: FileInfo): (r: Merge)
    requires SnapshotOf(m.local, m.db)
    ensures SnapshotOf(r.local, r.db)
  {
    var i := FindName(m.local, info.name);
    if i < |m.local| then
      if info.version.None? then m.(ok := false)
      else if |m.local[i].versions| >= |info.version.value| then m
      else if info.blocks == [] then m.(ok := false)
      else
        var f := Overwritten(m.local[i], info);
        match StoreFile(m.db, f)
        case Stored(db') => Merge(db', m.local[i := f], true, true)
        case Asserted(db') => Merge(db', m.local[i := f], m.changed, false)
    else if info.blocks == [] || info.version.None? then m.(ok := false)
    else
      var f := FromEntry(info);
      match StoreFile(m.db, f)
      case Stored(db') => Merge(db', m.local, true, true)
      case Asserted(db') => Merge(db', m.local, m.changed, false)
  }

  function MergeFiles(m: Merge, files: seq<FileInfo>): (r: Merge)
    requires SnapshotOf(m.local, m.db)
    ensures SnapshotOf(r.local, r.db)
    decreases |files|
  {
    if files == [] || !m.ok then m else MergeFiles(MergeFile(m, files[0]), files[1..])
  }

  /** The handler run without interruption: its copy is the database itself. */
  function Handled(db: Db, files: seq<FileInfo>): Merge
    requires ValidDb(db)
  {
    ValidIsSnapshot(db);
    MergeFiles(Merge(db, db, false, true), files)
  }

  method HandleIndex(state: BepState, files: seq<FileInfo>) returns (changed: bool, ok: bool)
    requires state.Valid()
    modifies state
    ensures state.Valid()
    ensures ValidDb(old(state.Rows()))
    ensures var m := Handled(old(state.Rows()), files);
            state.Rows() == m.db && ok == m.ok && (ok ==> changed == m.changed)
  {
    var local := state.GetSyncFiles();
    ValidIsSnapshot(local);
    changed := false;
    ghost var start := Merge(state.Rows(), local, false, true);
    for k := 0 to |files|
      invariant state.Valid()
      invariant SnapshotOf(local, state.Rows())
      invariant MergeFiles(start, files) == MergeFiles(Merge(state.Rows(), local, changed, true), files[k..])
    {
      ghost var here := Merge(state.Rows(), local, changed, true);
      var info := files[k];
      assert files[k..][0] == info && files[k..][1..] == files[k + 1..];
      var i := FindName(local, info.name);
      if i < |local| {
        if info.version.None? {
          return changed, false;
        }
        if |local[i].versions| >= |info.version.value| {
          continue;
        }
        if info.blocks == [] {
          return changed, false;
        }
        var f := local[i].(versions := info.version.value, hash := info.blocks[0].hash,
                           blocks := info.blocks, modifiedBy := info.modifiedBy);
        local := local[i := f];
        var stored := state.UpdateSyncFile(f);
        if !stored {
          return changed, false;
        }
      } else {
        if info.blocks == [] || info.version.None? {
          return changed, false;
        }
        var f := File(None, info.name, info.blocks[0].hash, info.modifiedBy, 0, info.version.value, info.blocks);
        var stored := state.UpdateSyncFile(f);
        if !stored {
          return changed, false;
        }
      }
      changed := true;
    }
    ok := true;
  }

  // ---------------------------------------------------------------------------
  // The handler as a fold over rows
  // ---------------------------------------------------------------------------

  /**
    * What peers running this code send: a history, at least one block; and no name twice, as long as no
    * name has a second row, which takes handlers that interrupt each other (`HandlerSteps.SecondRowIff`).
    */
  ghost predicate WellFormed(info: FileInfo) {
    info.version.Some? && info.version.value != [] && info.blocks != []
  }

  ghost predicate WellFormedIndex(files: seq<FileInfo>) {
    (forall i :: 0 <= i < |files| ==> WellFormed(files[i])) && DistinctInfos(files)
  }

  ghost predicate DistinctInfos(files: seq<FileInfo>) {
    forall i, j :: 0 <= i < j < |files| ==> files[i].name != files[j].name
  }

  /** Length of the history an entry carries. */
  function Offer(info: FileInfo): nat {
    if info.version.Some? then |info.version.value| else 0
  }

  function Adopted(row: File, info: FileInfo): File
    requires WellFormed(info) && |row.versions| <= Offer(info)
  {
    Overwritten(row, info).(versions := AppendTail(row.versions, info.version.value), blocks := SortByOffset(info.blocks))
  }

  /** What adopting an entry makes of a row, field by field. */
  lemma AdoptedIs(row: File, info: FileInfo)
    requires WellFormed(info) && |row.versions| < Offer(info)
    ensures var a, given := Adopted(row, info), info.version.value;
            && a.id == row.id && a.name == row.name && a.synced == row.synced
            && a.hash == info.blocks[0].hash && a.blocks == SortByOffset(info.blocks)
            && row.versions <= a.versions && |a.versions| == |given| && Last(a.versions) == Last(given)
            && (Positional(row.versions) && Positional(given) ==> Positional(a.versions))
  {
  }

  function Newcomer(info: FileInfo, id: nat): File
    requires WellFormed(info)
  {
    FromEntry(info).(id := Some(id), blocks := SortByOffset(info.blocks))
  }

  function MergeRow(db: Db, info: FileInfo): Db
    requires WellFormed(info)
  {
    var i := FindName(db, info.name);
    if i == |db| then db + [Newcomer(info, |db|)]
    else if |db[i].versions| < Offer(info) then db[i := Adopted(db[i], info)]
    else db
  }

  function MergeRows(db: Db, files: seq<FileInfo>): Db
    requires WellFormedIndex(files)
    decreases |files|
  {
    if files == [] then db else MergeRows(MergeRow(db, files[0]), files[1..])
  }

  /** The copy still agrees with the database on every name the rest of the index mentions. */
  ghost predicate Aligned(m: Merge, files: seq<FileInfo>) {
    && ValidDb(m.db)
    && SnapshotOf(m.local, m.db)
    && m.ok
    && forall k :: 0 <= k < |files| ==> AgreeOn(m.local, m.db, files[k].name)
  }

  lemma MergeFileIsMergeRow(m: Merge, files: seq<FileInfo>)
    requires files != [] && Aligned(m, files) && WellFormed(files[0])
    ensures var m' := MergeFile(m, files[0]);
            && m'.ok
            && m'.db == MergeRow(m.db, files[0])
            && m'.changed == (m.changed || LenOf(m.db, files[0].name) < Offer(files[0]))
  {
    assert AgreeOn(m.local, m.db, files[0].name);
  }

  lemma MergeRowValid(db: Db, info: FileInfo)
    requires ValidDb(db) && WellFormed(info)
    ensures ValidDb(MergeRow(db, info))
  {
    assert OffsetOrdered(SortByOffset(info.blocks)) by {
      SortedReadBack(info.blocks);
    }
    var i := FindName(db, info.name);
    if i == |db| {
      ValidAppend(db, Newcomer(info, |db|));
    } else if |db[i].versions| < Offer(info) {
      assert ValidRow(db[i], i);
      ValidUpdate(db, i, Adopted(db[i], info));
    }
  }

  lemma StaysAligned(m: Merge, files: seq<FileInfo>)
    requires files != [] && Aligned(m, files) && WellFormed(files[0]) && DistinctInfos(files)
    ensures Aligned(MergeFile(m, files[0]), files[1..])
  {
    var info := files[0];
    MergeFileIsMergeRow(m, files);
    MergeRowValid(m.db, info);
    assert AgreeOn(m.local, m.db, info.name);
    var m' := MergeFile(m, info);
    var i := FindName(m.local, info.name);
    forall k | 0 <= k < |files[1..]| ensures AgreeOn(m'.local, m'.db, files[1..][k].name) {
      assert files[1..][k] == files[k + 1];
      assert AgreeOn(m.local, m.db, files[k + 1].name);
      if i == |m.local| {
        AgreeAfterAppend(m.local, m.db, Newcomer(info, |m.db|), files[k + 1].name);
      } else if m' != m {
        AgreeAfterUpdate(m.local, m.db, i, m'.local[i], m'.db[i], files[k + 1].name);
      }
    }
  }

  /** Run without interruption on a well-formed index, the handler cannot panic and folds row by row. */
  lemma {:induction false} MergeFilesIsMergeRows(m: Merge, files: seq<FileInfo>)
    requires Aligned(m, files) && WellFormedIndex(files)
    ensures var m' := MergeFiles(m, files);
            m'.ok && m'.db == MergeRows(m.db, files) && ValidDb(m'.db)
    decreases |files|
  {
    if files != [] {
      MergeFileIsMergeRow(m, files);
      StaysAligned(m, files);
      MergeFilesIsMergeRows(MergeFile(m, files[0]), files[1..]);
    }
  }

  // ---------------------------------------------------------------------------
  // The effect on a row
  // ---------------------------------------------------------------------------

  /** Position of the entry for a name, or |files|. */
  function FindInfo(files: seq<FileInfo>, name: string): (i: nat)
    ensures i <= |files|
    ensures i < |files| ==> files[i].name == name
    ensures forall j :: 0 <= j < i ==> files[j].name != name
  {
    var names := seq(|files|, k requires 0 <= k < |files| => files[k].name);
    assert forall j :: 0 <= j < |files| ==> names[j] == files[j].name;
    Position(names, name)
  }

  lemma FindInfoFrom(files: seq<FileInfo>, name: string)
    requires files != []
    ensures FindInfo(files, name) == if files[0].name == name then 0 else 1 + FindInfo(files[1..], name)
  {
    var k := FindInfo(files[1..], name);
    assert k < |files| - 1 ==> files[k + 1].name == name;
    assert forall j :: 0 < j < |files| ==> files[j] == files[1..][j - 1];
  }

  function InfoOf(files: seq<FileInfo>, name: string): Option<FileInfo> {
    var i := FindInfo(files, name);
    if i < |files| then Some(files[i]) else None
  }

  /** Length of the history an index offers for a name. */
  function OfferedLen(files: seq<FileInfo>, name: string): nat {
    var i := FindInfo(files, name);
    if i < |files| then Offer(files[i]) else 0
  }

  function Max(a: nat, b: nat): nat { if a < b then b else a }

  /** `before` as it becomes when the index offers `info` under its name. */
  ghost predicate RowMerged(before: Option<File>, info: FileInfo, after: Option<File>)
    requires WellFormed(info)
  {
    && after.Some?
    && (before.None? ==> after.value.(id := None) == Newcomer(info, 0).(id := None))
    && (before.Some? && |before.value.versions| < Offer(info) ==> after.value == Adopted(before.value, info))
    && (before.Some? && |before.value.versions| >= Offer(info) ==> after == before)
  }

  lemma RowAfterMergeRow(db: Db, info: FileInfo, name: string)
    requires WellFormed(info)
    ensures name == info.name ==> RowMerged(RowOf(db, name), info, RowOf(MergeRow(db, info), name))
    ensures name != info.name ==> RowOf(MergeRow(db, info), name) == RowOf(db, name)
  {
    var i := FindName(db, info.name);
    if i == |db| {
      FindNameAppend(db, Newcomer(info, |db|), name);
    } else if |db[i].versions| < Offer(info) {
      FindNameUpdate(db, i, Adopted(db[i], info), name);
    }
  }

  lemma {:induction false} RowAfterMergeRows(db: Db, files: seq<FileInfo>, name: string)
    requires WellFormedIndex(files)
    ensures match InfoOf(files, name)
            case None => RowOf(MergeRows(db, files), name) == RowOf(db, name)
            case Some(info) => WellFormed(info) && RowMerged(RowOf(db, name), info, RowOf(MergeRows(db, files), name))
    decreases |files|
  {
    if files != [] {
      var db' := MergeRow(db, files[0]);
      RowAfterMergeRow(db, files[0], name);
      RowAfterMergeRows(db', files[1..], name);
      FindInfoFrom(files, name);
      if files[0].name == name {
        NoSecondEntry(files);
        assert RowOf(MergeRows(db', files[1..]), name) == RowOf(db', name);
      } else {
        assert InfoOf(files, name) == InfoOf(files[1..], name);
      }
      assert MergeRows(db, files) == MergeRows(db', files[1..]);
    }
  }

  lemma NoSecondEntry(files: seq<FileInfo>)
    requires files != [] && WellFormedIndex(files)
    ensures InfoOf(files[1..], files[0].name) == None
  {
    assert forall j :: 0 <= j < |files[1..]| ==> files[1..][j] == files[j + 1];
  }

  /** The whole effect of the handler, name by name; it also says no assertion or index fails. */
  lemma HandledRow(db: Db, files: seq<FileInfo>, name: string)
    requires ValidDb(db) && WellFormedIndex(files)
    ensures var m := Handled(db, files);
            && m.ok && ValidDb(m.db)
            && match InfoOf(files, name)
               case None => RowOf(m.db, name) == RowOf(db, name)
               case Some(info) => WellFormed(info) && RowMerged(RowOf(db, name), info, RowOf(m.db, name))
  {
    ValidIsSnapshot(db);
    MergeFilesIsMergeRows(Merge(db, db, false, true), files);
    RowAfterMergeRows(db, files, name);
  }

  /**
    * The same field by field: a new name is entered with what the entry says and nothing synced; a shorter history gets
    * the tail it lacks, with the entry's hash, blocks and author, and what was synced stays; a row whose
    * history is no shorter stays as it is.
    */
  lemma HandledFields(db: Db, files: seq<FileInfo>, k: nat)
    requires ValidDb(db) && WellFormedIndex(files) && k < |files|
    ensures WellFormed(files[k]) && RowOf(Handled(db, files).db, files[k].name).Some?
    ensures var info := files[k];
            var given, row' := info.version.value, RowOf(Handled(db, files).db, info.name).value;
            match RowOf(db, info.name)
            case None => TakenFrom(info, row') && row'.synced == 0 && row'.versions == given
            case Some(row) =>
              if |row.versions| >= |given| then row' == row
              else
                TakenFrom(info, row') && row'.synced == row.synced && row'.id == row.id
                && row'.versions == row.versions + given[|row.versions|..]
  {
    var info := files[k];
    assert FindInfo(files, info.name) == k;
    HandledRow(db, files, info.name);
    SortedReadBack(info.blocks);
  }

  /** Name, hash, author and blocks of the entry; the blocks by offset. */
  ghost predicate TakenFrom(info: FileInfo, row: File)
    requires info.blocks != []
  {
    && row.name == info.name && row.hash == info.blocks[0].hash && row.modifiedBy == info.modifiedBy
    && multiset(row.blocks) == multiset(info.blocks) && OffsetOrdered(row.blocks)
  }

  // ---------------------------------------------------------------------------
  // Indexes of other clients
  // ---------------------------------------------------------------------------

  /** Nothing that merging this entry needs is missing: a history always, blocks only where it is longer. */
  predicate Mergeable(row: Option<File>, info: FileInfo) {
    match row
    case None => info.version.Some? && info.version.value != [] && info.blocks != []
    case Some(row) => info.version.Some? && (|row.versions| < |info.version.value| ==> info.blocks != [])
  }

  lemma EntryMerged(m: Merge, files: seq<FileInfo>)
    requires files != [] && Aligned(m, files) && DistinctInfos(files)
    ensures var m' := MergeFile(m, files[0]);
            && (m'.ok <==> Mergeable(RowOf(m.db, files[0].name), files[0]))
            && (m'.ok ==> Aligned(m', files[1..]))
            && (!m'.ok ==> m'.db == m.db)
  {
    assert AgreeOn(m.local, m.db, files[0].name);
    var i := FindName(m.local, files[0].name);
    assert i < |m.local| ==> ValidRow(m.db[i], i);
    if WellFormed(files[0]) {
      MergeFileIsMergeRow(m, files);
      StaysAligned(m, files);
    } else {
      assert forall k :: 0 <= k < |files[1..]| ==> files[1..][k] == files[k + 1];
    }
  }

  lemma OthersStayMergeable(m: Merge, files: seq<FileInfo>, k: nat)
    requires files != [] && Aligned(m, files) && MergeFile(m, files[0]).ok
    requires 0 < k < |files| && files[k].name != files[0].name
    ensures Mergeable(RowOf(MergeFile(m, files[0]).db, files[k].name), files[k]) ==
            Mergeable(RowOf(m.db, files[k].name), files[k])
  {
    assert AgreeOn(m.local, m.db, files[0].name);
    if WellFormed(files[0]) {
      MergeFileIsMergeRow(m, files);
      RowAfterMergeRow(m.db, files[0], files[k].name);
    }
  }

  /** The n-th entry is the first that cannot be merged, or there is none. */
  ghost predicate StopsAt(db: Db, files: seq<FileInfo>, n: nat) {
    && n <= |files|
    && (forall k :: 0 <= k < n ==> Mergeable(RowOf(db, files[k].name), files[k]))
    && (n < |files| ==> !Mergeable(RowOf(db, files[n].name), files[n]))
  }

  lemma StopsInRest(db: Db, after: Db, files: seq<FileInfo>, n: nat)
    requires 0 < n && StopsAt(db, files, n)
    requires forall k :: 0 < k < |files| ==>
               Mergeable(RowOf(after, files[k].name), files[k]) == Mergeable(RowOf(db, files[k].name), files[k])
    ensures StopsAt(after, files[1..], n - 1)
  {
    forall k | 0 <= k < n - 1 ensures Mergeable(RowOf(after, files[1..][k].name), files[1..][k]) {
      assert files[1..][k] == files[k + 1];
    }
  }

  /** One entry more in front. */
  lemma MergeFirst(m: Merge, files: seq<FileInfo>, n: nat)
    requires SnapshotOf(m.local, m.db) && m.ok && 0 < n <= |files|
    ensures MergeFiles(m, files) == MergeFiles(MergeFile(m, files[0]), files[1..])
    ensures MergeFiles(m, files[..n]) == MergeFiles(MergeFile(m, files[0]), files[1..][..n - 1])
  {
    assert files[..n][0] == files[0] && files[..n][1..] == files[1..][..n - 1];
  }

  lemma MergeNothing(m: Merge, files: seq<FileInfo>)
    requires SnapshotOf(m.local, m.db) && m.ok && files != [] && !MergeFile(m, files[0]).ok
    ensures MergeFiles(m, files[..0]) == m && MergeFiles(m, files) == MergeFile(m, files[0])
  {
  }

  lemma StopsLater(m: Merge, files: seq<FileInfo>, n: nat)
    requires Aligned(m, files) && DistinctInfos(files) && 0 < n && StopsAt(m.db, files, n)
    ensures MergeFile(m, files[0]).ok && Aligned(MergeFile(m, files[0]), files[1..]) && DistinctInfos(files[1..])
    ensures StopsAt(MergeFile(m, files[0]).db, files[1..], n - 1)
  {
    EntryMerged(m, files);
    var after := MergeFile(m, files[0]).db;
    forall k | 0 < k < |files|
      ensures Mergeable(RowOf(after, files[k].name), files[k]) == Mergeable(RowOf(m.db, files[k].name), files[k])
    {
      OthersStayMergeable(m, files, k);
    }
    StopsInRest(m.db, after, files, n);
  }

  /** Merging panics unless it reaches the end, and leaves what the first n entries leave. */
  ghost predicate MergesUpTo(m: Merge, files: seq<FileInfo>, n: nat)
    requires SnapshotOf(m.local, m.db) && n <= |files|
  {
    && (MergeFiles(m, files).ok <==> n == |files|)
    && MergeFiles(m, files).db == MergeFiles(m, files[..n]).db
  }

  lemma MergesAll(m: Merge, files: seq<FileInfo>)
    requires SnapshotOf(m.local, m.db) && m.ok && files == []
    ensures MergesUpTo(m, files, 0)
  {
    assert files[..0] == files;
  }

  lemma {:induction false} MergeUpTo(m: Merge, files: seq<FileInfo>, n: nat)
    requires Aligned(m, files) && DistinctInfos(files) && StopsAt(m.db, files, n)
    ensures MergesUpTo(m, files, n)
    decreases |files|
  {
    if files == [] {
      MergesAll(m, files);
    } else if n == 0 {
      EntryMerged(m, files);
      MergeNothing(m, files);
    } else {
      StopsLater(m, files, n);
      MergeFirst(m, files, n);
      MergeUpTo(MergeFile(m, files[0]), files[1..], n - 1);
    }
  }

  /**
    * Any index that names no file twice is merged up to the first entry that lacks what merging it needs, and there the
    * handler panics; no store assertion and no index out of range is among the reasons.
    */
  lemma HandledUpTo(db: Db, files: seq<FileInfo>, n: nat)
    requires ValidDb(db) && DistinctInfos(files) && StopsAt(db, files, n)
    ensures Handled(db, files).ok <==> n == |files|
    ensures Handled(db, files).db == Handled(db, files[..n]).db
  {
    ValidIsSnapshot(db);
    MergeUpTo(Merge(db, db, false, true), files, n);
  }

  // ---------------------------------------------------------------------------
  // Laws of merging
  // ---------------------------------------------------------------------------

  /** Names are united, and the history held for each is as long as the longer of the two. */
  lemma HandledLength(db: Db, files: seq<FileInfo>, name: string)
    requires ValidDb(db) && WellFormedIndex(files)
    ensures var m := Handled(db, files);
            && m.ok && ValidDb(m.db)
            && LenOf(m.db, name) == Max(LenOf(db, name), OfferedLen(files, name))
            && (RowOf(m.db, name).Some? <==> RowOf(db, name).Some? || InfoOf(files, name).Some?)
  {
    HandledRow(db, files, name);
  }

  /** Hash and blocks become the sender's exactly where its history is longer, or the name new. */
  lemma HandledPayload(db: Db, files: seq<FileInfo>, name: string)
    requires ValidDb(db) && WellFormedIndex(files)
    ensures var m := Handled(db, files);
            && m.ok
            && (LenOf(db, name) < OfferedLen(files, name) ==>
                  var info := files[FindInfo(files, name)];
                  && RowOf(m.db, name).Some?
                  && RowOf(m.db, name).value.hash == info.blocks[0].hash
                  && RowOf(m.db, name).value.blocks == SortByOffset(info.blocks))
            && (LenOf(db, name) >= OfferedLen(files, name) ==> RowOf(m.db, name) == RowOf(db, name))
  {
    HandledRow(db, files, name);
  }

  /** Some entry carries a longer history than the one held under its name. */
  ghost predicate SomeLonger(db: Db, files: seq<FileInfo>) {
    exists k :: 0 <= k < |files| && LenOf(db, files[k].name) < Offer(files[k])
  }

  lemma SomeLongerSplit(db: Db, files: seq<FileInfo>)
    requires files != [] && WellFormedIndex(files)
    ensures SomeLonger(db, files) <==>
            LenOf(db, files[0].name) < Offer(files[0]) || SomeLonger(MergeRow(db, files[0]), files[1..])
  {
    var db' := MergeRow(db, files[0]);
    var rest := files[1..];
    forall k | 0 <= k < |rest| ensures rest[k] == files[k + 1] && LenOf(db', rest[k].name) == LenOf(db, rest[k].name) {
      RowAfterMergeRow(db, files[0], rest[k].name);
    }
    if SomeLonger(db, files) {
      var k :| 0 <= k < |files| && LenOf(db, files[k].name) < Offer(files[k]);
      assert k > 0 ==> rest[k - 1] == files[k];
    }
  }

  lemma {:induction false} ChangedIffLonger(m: Merge, files: seq<FileInfo>)
    requires Aligned(m, files) && WellFormedIndex(files)
    ensures MergeFiles(m, files).changed <==> m.changed || SomeLonger(m.db, files)
    decreases |files|
  {
    if files != [] {
      MergeFileIsMergeRow(m, files);
      StaysAligned(m, files);
      SomeLongerSplit(m.db, files);
      ChangedIffLonger(MergeFile(m, files[0]), files[1..]);
    }
  }

  /** `changed`, which starts a download, is set exactly when some history offered is longer than the one held. */
  lemma HandledChangedIff(db: Db, files: seq<FileInfo>)
    requires ValidDb(db) && WellFormedIndex(files)
    ensures Handled(db, files).changed <==> SomeLonger(db, files)
  {
    ValidIsSnapshot(db);
    ChangedIffLonger(Merge(db, db, false, true), files);
  }

  lemma {:induction false} NothingLongerNothingStored(db: Db, files: seq<FileInfo>)
    requires WellFormedIndex(files) && !SomeLonger(db, files)
    ensures MergeRows(db, files) == db
  {
    if files != [] {
      SomeLongerSplit(db, files);
      assert LenOf(db, files[0].name) >= Offer(files[0]);
      NothingLongerNothingStored(db, files[1..]);
    }
  }

  /** Delivering the same index again stores nothing and starts nothing. */
  lemma RedeliveryIsNoOp(db: Db, files: seq<FileInfo>)
    requires ValidDb(db) && WellFormedIndex(files)
    ensures var once := Handled(db, files);
            && once.ok && ValidDb(once.db)
            && Handled(once.db, files).ok
            && Handled(once.db, files).db == once.db
            && !Handled(once.db, files).changed
  {
    ValidIsSnapshot(db);
    MergeFilesIsMergeRows(Merge(db, db, false, true), files);
    var once := Handled(db, files);
    forall k | 0 <= k < |files| ensures LenOf(once.db, files[k].name) >= Offer(files[k]) {
      HandledLength(db, files, files[k].name);
      assert FindInfo(files, files[k].name) == k;
    }
    ValidIsSnapshot(once.db);
    MergeFilesIsMergeRows(Merge(once.db, once.db, false, true), files);
    HandledChangedIff(once.db, files);
    NothingLongerNothingStored(once.db, files);
  }

  /** Both orders of two indexes leave histories of the same length under every name. */
  lemma OrderKeepsLengths(db: Db, a: seq<FileInfo>, b: seq<FileInfo>, name: string)
    requires ValidDb(db) && WellFormedIndex(a) && WellFormedIndex(b)
    ensures Handled(db, a).ok && Handled(db, b).ok && ValidDb(Handled(db, a).db) && ValidDb(Handled(db, b).db)
    ensures LenOf(Handled(Handled(db, a).db, b).db, name) == LenOf(Handled(Handled(db, b).db, a).db, name)
  {
    HandledLength(db, a, name);
    HandledLength(db, b, name);
    HandledLength(Handled(db, a).db, b, name);
    HandledLength(Handled(db, b).db, a, name);
  }

  /** Hash and blocks the index offers under a name it mentions. */
  ghost predicate SamePayload(a: seq<FileInfo>, b: seq<FileInfo>, name: string)
    requires WellFormedIndex(a) && WellFormedIndex(b)
    requires InfoOf(a, name).Some? && InfoOf(b, name).Some?
  {
    var x, y := a[FindInfo(a, name)], b[FindInfo(b, name)];
    x.blocks[0].hash == y.blocks[0].hash && SortByOffset(x.blocks) == SortByOffset(y.blocks)
  }

  /**
    * The order of two indexes matters to the hash and blocks held for a name exactly when they offer
    * different ones with histories of the same length, longer than the one held.
    */
  lemma OrderKeepsPayloadIff(db: Db, a: seq<FileInfo>, b: seq<FileInfo>, name: string)
    requires ValidDb(db) && WellFormedIndex(a) && WellFormedIndex(b)
    requires InfoOf(a, name).Some? && InfoOf(b, name).Some?
    ensures Handled(db, a).ok && Handled(db, b).ok && ValidDb(Handled(db, a).db) && ValidDb(Handled(db, b).db)
    ensures var ab := RowOf(Handled(Handled(db, a).db, b).db, name);
            var ba := RowOf(Handled(Handled(db, b).db, a).db, name);
            && ab.Some? && ba.Some?
            && ((ab.value.hash == ba.value.hash && ab.value.blocks == ba.value.blocks) <==>
                (OfferedLen(a, name) == OfferedLen(b, name) > LenOf(db, name) ==> SamePayload(a, b, name)))
  {
    HandledRow(db, a, name);
    HandledRow(db, b, name);
    HandledRow(Handled(db, a).db, b, name);
    HandledRow(Handled(db, b).db, a, name);
  }

  // ---------------------------------------------------------------------------
  // What the handler keeps
  // ---------------------------------------------------------------------------

  lemma {:induction false} MergeRowsKeepsRows(db: Db, files: seq<FileInfo>)
    requires WellFormedIndex(files) && UniqueNames(db)
    ensures var db' := MergeRows(db, files);
            && UniqueNames(db') && |db| <= |db'|
            && forall i :: 0 <= i < |db| ==>
                 db[i].versions <= db'[i].versions && db'[i].name == db[i].name && db'[i].synced == db[i].synced
    decreases |files|
  {
    if files != [] {
      var db1 := MergeRow(db, files[0]);
      MergeRowsKeepsRows(db1, files[1..]);
      forall i | 0 <= i < |db| ensures db[i].versions <= db1[i].versions {
      }
    }
  }

  /** Histories only grow at the end, no row is renamed or dropped, no row loses what it had synced. */
  lemma HandledKeepsRows(db: Db, files: seq<FileInfo>)
    requires ValidDb(db) && UniqueNames(db) && WellFormedIndex(files)
    ensures var db' := Handled(db, files).db;
            && UniqueNames(db') && |db| <= |db'|
            && forall i :: 0 <= i < |db| ==>
                 db[i].versions <= db'[i].versions && db'[i].name == db[i].name && db'[i].synced == db[i].synced
  {
    ValidIsSnapshot(db);
    MergeFilesIsMergeRows(Merge(db, db, false, true), files);
    MergeRowsKeepsRows(db, files);
  }
}
