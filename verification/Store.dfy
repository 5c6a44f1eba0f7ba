/** The database of one shared folder: three tables, and what storing a file does to the rows read back. */
module Store {
  import opened SyncTypes

  // ---------------------------------------------------------------------------
  // Unsigned values in signed columns
  // ---------------------------------------------------------------------------

  /** Same 64 bits, read as unsigned. */
  function FromI64(i: i64): (u: u64)
  {
    if i < 0 then i + 0x1_0000_0000_0000_0000 else i
  }

  /** Same 64 bits, read as signed. */
  function FromU64(u: u64): (i: i64)
    ensures FromI64(i) == u
  {
    if u < 0x8000_0000_0000_0000 then u else u - 0x1_0000_0000_0000_0000
  }

  // ---------------------------------------------------------------------------
  // Blocks are read back in offset order
  // ---------------------------------------------------------------------------

  function InsertByOffset(blocks: seq<Block>, b: Block): seq<Block> {
    if blocks == [] || Last(blocks).offset <= b.offset then blocks + [b]
    else InsertByOffset(blocks[..|blocks| - 1], b) + [Last(blocks)]
  }

  function SortByOffset(blocks: seq<Block>): seq<Block> {
    if blocks == [] then []
    else InsertByOffset(SortByOffset(blocks[..|blocks| - 1]), Last(blocks))
  }

  lemma {:induction false} InsertKeepsElements(blocks: seq<Block>, b: Block)
    ensures multiset(InsertByOffset(blocks, b)) == multiset(blocks) + multiset{b}
  {
    if blocks != [] && Last(blocks).offset > b.offset {
      var front := blocks[..|blocks| - 1];
      assert blocks == front + [Last(blocks)];
      InsertKeepsElements(front, b);
    }
  }

  lemma {:induction false} InsertKeepsOrder(blocks: seq<Block>, b: Block)
    requires OffsetOrdered(blocks)
    ensures OffsetOrdered(InsertByOffset(blocks, b))
  {
    if blocks != [] && Last(blocks).offset > b.offset {
      var front := blocks[..|blocks| - 1];
      InsertKeepsOrder(front, b);
      InsertKeepsElements(front, b);
      var r := InsertByOffset(front, b);
      forall i | 0 <= i < |r| ensures r[i].offset <= Last(blocks).offset {
        assert r[i] in multiset(r);
        assert r[i] in front || r[i] == b;
      }
    }
  }

  /** Reading blocks back yields the inserted ones, ordered; an ordered list comes back as it was. */
  lemma {:induction false} SortedReadBack(blocks: seq<Block>)
    ensures OffsetOrdered(SortByOffset(blocks))
    ensures multiset(SortByOffset(blocks)) == multiset(blocks)
    ensures OffsetOrdered(blocks) ==> SortByOffset(blocks) == blocks
  {
    if blocks != [] {
      var front := blocks[..|blocks| - 1];
      assert blocks == front + [Last(blocks)];
      SortedReadBack(front);
      InsertKeepsOrder(SortByOffset(front), Last(blocks));
      InsertKeepsElements(SortByOffset(front), Last(blocks));
    }
  }

  // ---------------------------------------------------------------------------
  // What storing a file means for the rows
  // ---------------------------------------------------------------------------

  /** `Asserted` is a store whose assertion failed; `db` is what it left behind. */
  datatype StoreResult = Stored(db: Db) | Asserted(db: Db)

  /** The history a row holds after a store: it only ever gains the missing tail. */
  function AppendTail(stored: seq<Version>, given: seq<Version>): seq<Version>
    requires |stored| <= |given|
  {
    stored + given[|stored|..]
  }

  /**
    * `update_sync_file`: upsert the row, then append the missing tail of the history,
    * then replace the blocks. The row is written before the length assertion.
    */
  function StoreFile(db: Db, f: File): (r: StoreResult)
    requires f.id.Some? ==> f.id.value < |db|
  {
    if f.versions == [] then Asserted(db)
    else if f.id.None? then
      Stored(db + [f.(id := Some(|db|), blocks := SortByOffset(f.blocks))])
    else
      var i := f.id.value;
      var row := db[i].(name := f.name, modifiedBy := f.modifiedBy, synced := f.synced, hash := f.hash);
      if |row.versions| > |f.versions| then Asserted(db[i := row])
      else Stored(db[i := row.(versions := AppendTail(row.versions, f.versions),
                               blocks := if f.blocks == [] then row.blocks else SortByOffset(f.blocks))])
  }

  /** Every store leaves a valid database valid and every stored history a prefix of what it was. */
  lemma StoreAppendsOnly(db: Db, f: File)
    requires ValidDb(db)
    requires f.id.Some? ==> f.id.value < |db|
    ensures var db' := StoreFile(db, f).db;
            && ValidDb(db')
            && |db| <= |db'|
            && forall i :: 0 <= i < |db| ==> db[i].versions <= db'[i].versions
  {
    var db' := StoreFile(db, f).db;
    assert OffsetOrdered(SortByOffset(f.blocks)) by {
      SortedReadBack(f.blocks);
    }
    if f.versions != [] {
      if f.id.None? {
        ValidAppend(db, db'[|db|]);
      } else {
        assert ValidRow(db[f.id.value], f.id.value);
        ValidUpdate(db, f.id.value, db'[f.id.value]);
      }
    }
  }

  /** The assertions hold exactly when the history given is non-empty and no shorter than the stored one. */
  lemma StoreSucceedsIff(db: Db, f: File)
    requires f.id.Some? ==> f.id.value < |db|
    ensures StoreFile(db, f).Stored? <==>
            f.versions != [] && (f.id.Some? ==> |db[f.id.value].versions| <= |f.versions|)
  {
  }

  /** The history given is the history stored exactly when it extends what was there. */
  lemma StoredHistoryIffExtends(db: Db, f: File)
    requires f.id.Some? && f.id.value < |db|
    requires StoreFile(db, f).Stored?
    ensures StoreFile(db, f).db[f.id.value].versions == f.versions <==>
            db[f.id.value].versions <= f.versions
  {
    var stored := db[f.id.value].versions;
    var tail := f.versions[|stored|..];
    assert f.versions == f.versions[..|stored|] + tail;
    if stored + tail == f.versions {
      assert stored == (stored + tail)[..|stored|] == f.versions[..|stored|];
    }
  }

  /** A file without blocks leaves those stored; one with blocks replaces them, and they are read back in order. */
  lemma StoredBlocks(db: Db, f: File)
    requires f.id.Some? && f.id.value < |db| && StoreFile(db, f).Stored?
    ensures var row, row' := db[f.id.value], StoreFile(db, f).db[f.id.value];
            && (f.blocks == [] ==> row'.blocks == row.blocks)
            && (f.blocks != [] ==> multiset(row'.blocks) == multiset(f.blocks) && OffsetOrdered(row'.blocks))
  {
    SortedReadBack(f.blocks);
  }

  /** What a failed assertion leaves behind: nothing for an empty history; for a short one the row without its lists. */
  lemma AssertedStore(db: Db, f: File)
    requires f.id.Some? ==> f.id.value < |db|
    requires StoreFile(db, f).Asserted?
    ensures var db' := StoreFile(db, f).db;
            && |db'| == |db|
            && (forall i :: 0 <= i < |db| ==> db'[i].versions == db[i].versions && db'[i].blocks == db[i].blocks && db'[i].id == db[i].id)
            && (f.versions == [] ==> db' == db)
            && (forall i :: 0 <= i < |db| && f.id != Some(i) ==> db'[i] == db[i])
            && (f.versions != [] ==>
                  && f.id.Some?
                  && var row' := db'[f.id.value];
                     row'.name == f.name && row'.hash == f.hash && row'.modifiedBy == f.modifiedBy && row'.synced == f.synced)
  {
  }

  /** A new file with its blocks in order is read back as it was written, in a row at the end. */
  lemma NewRowReadBack(db: Db, f: File)
    requires f.id.None? && f.versions != [] && OffsetOrdered(f.blocks)
    ensures StoreFile(db, f) == Stored(db + [f.(id := Some(|db|))])
  {
    SortedReadBack(f.blocks);
  }

  // ---------------------------------------------------------------------------
  // The tables
  // ---------------------------------------------------------------------------

  datatype FileRow = FileRow(name: string, modifiedBy: i64, synced: i64, hash: Bytes)
  datatype VersionRow = VersionRow(author: i64, counter: i64, fileId: nat)
  datatype BlockRow = BlockRow(fileId: nat, offset: int, size: int, hash: Bytes)

  /** Version rows of one file, in row order. */
  function VersionsFor(rows: seq<VersionRow>, id: nat): seq<Version> {
    if rows == [] then []
    else
      var front := VersionsFor(rows[..|rows| - 1], id);
      var last := Last(rows);
      if last.fileId == id then front + [Version(FromI64(last.author), FromI64(last.counter))] else front
  }

  /** Block rows of one file, in row order. */
  function BlocksFor(rows: seq<BlockRow>, id: nat): seq<Block> {
    if rows == [] then []
    else
      var front := BlocksFor(rows[..|rows| - 1], id);
      var last := Last(rows);
      if last.fileId == id then front + [Block(last.offset, last.size, last.hash)] else front
  }

  function VersionRows(versions: seq<Version>, id: nat): seq<VersionRow> {
    seq(|versions|, i requires 0 <= i < |versions| =>
      VersionRow(FromU64(versions[i].author), FromU64(versions[i].counter), id))
  }

  function BlockRows(blocks: seq<Block>, id: nat): seq<BlockRow> {
    seq(|blocks|, i requires 0 <= i < |blocks| =>
      BlockRow(id, blocks[i].offset, blocks[i].size, blocks[i].hash))
  }

  function DeleteBlocks(rows: seq<BlockRow>, id: nat): seq<BlockRow> {
    if rows == [] then []
    else
      var front := DeleteBlocks(rows[..|rows| - 1], id);
      if Last(rows).fileId == id then front else front + [Last(rows)]
  }

  lemma {:induction false} InsertedVersions(rows: seq<VersionRow>, versions: seq<Version>, id: nat, other: nat)
    ensures VersionsFor(rows + VersionRows(versions, id), other) ==
            VersionsFor(rows, other) + if other == id then versions else []
  {
    if versions == [] {
      assert rows + VersionRows(versions, id) == rows;
    } else {
      var front := versions[..|versions| - 1];
      var all := rows + VersionRows(versions, id);
      assert all[..|all| - 1] == rows + VersionRows(front, id);
      assert versions == front + [Last(versions)];
      InsertedVersions(rows, front, id, other);
    }
  }

  lemma {:induction false} InsertedBlocks(rows: seq<BlockRow>, blocks: seq<Block>, id: nat, other: nat)
    ensures BlocksFor(rows + BlockRows(blocks, id), other) ==
            BlocksFor(rows, other) + if other == id then blocks else []
  {
    if blocks == [] {
      assert rows + BlockRows(blocks, id) == rows;
    } else {
      var front := blocks[..|blocks| - 1];
      var all := rows + BlockRows(blocks, id);
      assert all[..|all| - 1] == rows + BlockRows(front, id);
      assert blocks == front + [Last(blocks)];
      InsertedBlocks(rows, front, id, other);
    }
  }

  lemma {:induction false} DeletedBlocks(rows: seq<BlockRow>, id: nat, other: nat)
    ensures BlocksFor(DeleteBlocks(rows, id), other) == if other == id then [] else BlocksFor(rows, other)
  {
    if rows != [] {
      var front := rows[..|rows| - 1];
      DeletedBlocks(front, id, other);
      var kept := DeleteBlocks(front, id);
      assert (kept + [Last(rows)])[..|kept|] == kept;
    }
  }

  /** Rows of a file that was never inserted. */
  lemma {:induction false} NoRowsYet(vrows: seq<VersionRow>, brows: seq<BlockRow>, id: nat)
    requires forall r :: r in vrows ==> r.fileId < id
    requires forall r :: r in brows ==> r.fileId < id
    ensures VersionsFor(vrows, id) == [] && BlocksFor(brows, id) == []
  {
    if vrows != [] {
      NoRowsYet(vrows[..|vrows| - 1], brows, id);
    } else if brows != [] {
      NoRowsYet(vrows, brows[..|brows| - 1], id);
    }
  }

  lemma {:induction false} DeletedSubset(rows: seq<BlockRow>, id: nat)
    ensures forall r :: r in DeleteBlocks(rows, id) ==> r in rows
  {
    if rows != [] {
      DeletedSubset(rows[..|rows| - 1], id);
    }
  }

  // ---------------------------------------------------------------------------
  // Rows read out of the tables
  // ---------------------------------------------------------------------------

  function ReadRow(files: seq<FileRow>, vrows: seq<VersionRow>, brows: seq<BlockRow>, i: nat): File
    requires i < |files|
  {
    File(Some(i), files[i].name, files[i].hash, FromI64(files[i].modifiedBy), FromI64(files[i].synced),
         VersionsFor(vrows, i), SortByOffset(BlocksFor(brows, i)))
  }

  /** The database as `get_sync_files` returns it. */
  function ReadRows(files: seq<FileRow>, vrows: seq<VersionRow>, brows: seq<BlockRow>): (db: Db)
    ensures |db| == |files|
    ensures forall i :: 0 <= i < |db| ==> db[i] == ReadRow(files, vrows, brows, i)
  {
    seq(|files|, i requires 0 <= i < |files| => ReadRow(files, vrows, brows, i))
  }

  lemma RowsFrom(files: seq<FileRow>, vrows: seq<VersionRow>, brows: seq<BlockRow>, db: Db)
    requires |db| == |files|
    requires forall i :: 0 <= i < |db| ==> db[i] == ReadRow(files, vrows, brows, i)
    ensures ReadRows(files, vrows, brows) == db
  {
  }

  /** Inserting the missing tail changes the history of one file only. */
  lemma TailInserted(vrows: seq<VersionRow>, tail: seq<Version>, id: nat)
    ensures forall k: nat :: VersionsFor(vrows + VersionRows(tail, id), k) ==
                             if k == id then VersionsFor(vrows, id) + tail else VersionsFor(vrows, k)
  {
    forall k: nat ensures VersionsFor(vrows + VersionRows(tail, id), k) ==
                          if k == id then VersionsFor(vrows, id) + tail else VersionsFor(vrows, k)
    {
      InsertedVersions(vrows, tail, id, k);
    }
  }

  /** Deleting then inserting replaces the blocks of one file only. */
  lemma BlocksReplaced(brows: seq<BlockRow>, blocks: seq<Block>, id: nat)
    ensures forall k: nat :: BlocksFor(DeleteBlocks(brows, id) + BlockRows(blocks, id), k) ==
                             if k == id then blocks else BlocksFor(brows, k)
    ensures forall r :: r in DeleteBlocks(brows, id) ==> r in brows
  {
    DeletedSubset(brows, id);
    forall k: nat ensures BlocksFor(DeleteBlocks(brows, id) + BlockRows(blocks, id), k) ==
                          if k == id then blocks else BlocksFor(brows, k)
    {
      DeletedBlocks(brows, id, k);
      InsertedBlocks(DeleteBlocks(brows, id), blocks, id, k);
    }
  }

  /** No row points past the files table, and no file is without a history. */
  ghost predicate ValidTables(files: seq<FileRow>, vrows: seq<VersionRow>, brows: seq<BlockRow>) {
    && (forall r :: r in vrows ==> r.fileId < |files|)
    && (forall r :: r in brows ==> r.fileId < |files|)
    && (forall i :: 0 <= i < |files| ==> VersionsFor(vrows, i) != [])
  }

  // ---------------------------------------------------------------------------
  // The three table updates of a store
  // ---------------------------------------------------------------------------

  function RowIdFor(files: seq<FileRow>, f: File): nat {
    if f.id.None? then |files| else f.id.value
  }

  function UpsertRow(files: seq<FileRow>, f: File): seq<FileRow>
    requires f.id.Some? ==> f.id.value < |files|
  {
    var row := FileRow(f.name, FromU64(f.modifiedBy), FromU64(f.synced), f.hash);
    if f.id.None? then files + [row] else files[f.id.value := row]
  }

  function InsertTail(vrows: seq<VersionRow>, f: File, id: nat): seq<VersionRow>
    requires |VersionsFor(vrows, id)| <= |f.versions|
  {
    vrows + VersionRows(f.versions[|VersionsFor(vrows, id)|..], id)
  }

  function ReplaceBlocks(brows: seq<BlockRow>, f: File, id: nat): seq<BlockRow> {
    if f.blocks == [] then brows else DeleteBlocks(brows, id) + BlockRows(f.blocks, id)
  }

  lemma UpsertRefines(files: seq<FileRow>, vrows: seq<VersionRow>, brows: seq<BlockRow>, f: File)
    requires ValidTables(files, vrows, brows) && f.versions != []
    requires f.id.Some? ==> f.id.value < |files|
    requires |VersionsFor(vrows, RowIdFor(files, f))| > |f.versions|
    ensures ReadRows(UpsertRow(files, f), vrows, brows) == StoreFile(ReadRows(files, vrows, brows), f).db
    ensures StoreFile(ReadRows(files, vrows, brows), f).Asserted?
  {
    NoRowsYet(vrows, brows, |files|);
    RowsFrom(UpsertRow(files, f), vrows, brows, StoreFile(ReadRows(files, vrows, brows), f).db);
  }

  lemma TablesStayValid(files: seq<FileRow>, vrows: seq<VersionRow>, brows: seq<BlockRow>, f: File)
    requires ValidTables(files, vrows, brows) && f.versions != []
    requires f.id.Some? ==> f.id.value < |files|
    requires |VersionsFor(vrows, RowIdFor(files, f))| <= |f.versions|
    ensures var id := RowIdFor(files, f);
            ValidTables(UpsertRow(files, f), InsertTail(vrows, f, id), ReplaceBlocks(brows, f, id))
  {
    var id := RowIdFor(files, f);
    TailInserted(vrows, f.versions[|VersionsFor(vrows, id)|..], id);
    BlocksReplaced(brows, f.blocks, id);
  }

  /** The history and blocks of the row that is written. */
  lemma WrittenLists(files: seq<FileRow>, vrows: seq<VersionRow>, brows: seq<BlockRow>, f: File)
    requires ValidTables(files, vrows, brows)
    requires f.id.Some? ==> f.id.value < |files|
    requires |VersionsFor(vrows, RowIdFor(files, f))| <= |f.versions|
    ensures var id := RowIdFor(files, f);
            && VersionsFor(InsertTail(vrows, f, id), id) == AppendTail(VersionsFor(vrows, id), f.versions)
            && BlocksFor(ReplaceBlocks(brows, f, id), id) == if f.blocks == [] then BlocksFor(brows, id) else f.blocks
  {
    var id := RowIdFor(files, f);
    TailInserted(vrows, f.versions[|VersionsFor(vrows, id)|..], id);
    BlocksReplaced(brows, f.blocks, id);
  }

  lemma WrittenRow(files: seq<FileRow>, vrows: seq<VersionRow>, brows: seq<BlockRow>, f: File)
    requires ValidTables(files, vrows, brows) && f.versions != []
    requires f.id.Some? ==> f.id.value < |files|
    requires |VersionsFor(vrows, RowIdFor(files, f))| <= |f.versions|
    ensures var id := RowIdFor(files, f);
            var db' := StoreFile(ReadRows(files, vrows, brows), f);
            && db'.Stored? && |db'.db| == |UpsertRow(files, f)| && id < |db'.db|
            && ReadRow(UpsertRow(files, f), InsertTail(vrows, f, id), ReplaceBlocks(brows, f, id), id) == db'.db[id]
  {
    NoRowsYet(vrows, brows, |files|);
    WrittenLists(files, vrows, brows, f);
  }

  lemma UntouchedRow(files: seq<FileRow>, vrows: seq<VersionRow>, brows: seq<BlockRow>, f: File, i: nat)
    requires ValidTables(files, vrows, brows) && f.versions != []
    requires f.id.Some? ==> f.id.value < |files|
    requires |VersionsFor(vrows, RowIdFor(files, f))| <= |f.versions|
    requires i < |UpsertRow(files, f)| && i != RowIdFor(files, f)
    ensures var id := RowIdFor(files, f);
            var db' := StoreFile(ReadRows(files, vrows, brows), f);
            && db'.Stored? && |db'.db| == |UpsertRow(files, f)|
            && ReadRow(UpsertRow(files, f), InsertTail(vrows, f, id), ReplaceBlocks(brows, f, id), i) == db'.db[i]
  {
    var id := RowIdFor(files, f);
    NoRowsYet(vrows, brows, |files|);
    TailInserted(vrows, f.versions[|VersionsFor(vrows, id)|..], id);
    BlocksReplaced(brows, f.blocks, id);
  }

  lemma StoredRow(files: seq<FileRow>, vrows: seq<VersionRow>, brows: seq<BlockRow>, f: File, i: nat)
    requires ValidTables(files, vrows, brows) && f.versions != []
    requires f.id.Some? ==> f.id.value < |files|
    requires |VersionsFor(vrows, RowIdFor(files, f))| <= |f.versions|
    requires i < |UpsertRow(files, f)|
    ensures var id := RowIdFor(files, f);
            var db' := StoreFile(ReadRows(files, vrows, brows), f);
            && db'.Stored? && |db'.db| == |UpsertRow(files, f)|
            && ReadRow(UpsertRow(files, f), InsertTail(vrows, f, id), ReplaceBlocks(brows, f, id), i) == db'.db[i]
  {
    var id := RowIdFor(files, f);
    if i == id {
      WrittenRow(files, vrows, brows, f);
    } else {
      UntouchedRow(files, vrows, brows, f, i);
    }
  }

  lemma StoreRefines(files: seq<FileRow>, vrows: seq<VersionRow>, brows: seq<BlockRow>, f: File)
    requires ValidTables(files, vrows, brows) && f.versions != []
    requires f.id.Some? ==> f.id.value < |files|
    requires |VersionsFor(vrows, RowIdFor(files, f))| <= |f.versions|
    ensures var id := RowIdFor(files, f);
            var files', vrows', brows' := UpsertRow(files, f), InsertTail(vrows, f, id), ReplaceBlocks(brows, f, id);
            && ValidTables(files', vrows', brows')
            && StoreFile(ReadRows(files, vrows, brows), f) == Stored(ReadRows(files', vrows', brows'))
  {
    var id := RowIdFor(files, f);
    var files', vrows', brows' := UpsertRow(files, f), InsertTail(vrows, f, id), ReplaceBlocks(brows, f, id);
    var db := ReadRows(files, vrows, brows);
    TablesStayValid(files, vrows, brows, f);
    forall i | 0 <= i < |files'|
      ensures ReadRow(files', vrows', brows', i) == StoreFile(db, f).db[i]
    {
      StoredRow(files, vrows, brows, f, i);
    }
    RowsFrom(files', vrows', brows', StoreFile(db, f).db);
  }

  class BepState {
    var files: seq<FileRow>
    var versionRows: seq<VersionRow>
    var blockRows: seq<BlockRow>

    ghost predicate Valid()
      reads this
    {
      ValidTables(files, versionRows, blockRows)
    }

    ghost function Rows(): Db
      reads this
    {
      ReadRows(files, versionRows, blockRows)
    }

    constructor ()
      ensures Valid() && Rows() == []
    {
      files, versionRows, blockRows := [], [], [];
    }

    method GetSyncFiles() returns (db: Db)
      requires Valid()
      ensures db == Rows() && ValidDb(db)
    {
      db := ReadRows(files, versionRows, blockRows);
      forall i | 0 <= i < |db| ensures ValidRow(db[i], i) {
        SortedReadBack(BlocksFor(blockRows, i));
      }
    }

    /** `ok` is false when one of the assertions in the code fails. */
    method UpdateSyncFile(f: File) returns (ok: bool)
      requires Valid()
      requires f.id.Some? ==> f.id.value < |Rows()|
      modifies this
      ensures Valid()
      ensures StoreFile(old(Rows()), f) == if ok then Stored(Rows()) else Asserted(Rows())
    {
      if f.versions == [] {
        return false;
      }
      ghost var files0, vrows0, brows0 := files, versionRows, blockRows;
      var inserted := RowIdFor(files, f);
      files := UpsertRow(files, f);

      var count := |VersionsFor(versionRows, inserted)|;
      if count > |f.versions| {
        UpsertRefines(files0, vrows0, brows0, f);
        return false;
      }
      StoreRefines(files0, vrows0, brows0, f);
      if count < |f.versions| {
        versionRows := versionRows + VersionRows(f.versions[count..], inserted);
      }
      assert versionRows == InsertTail(vrows0, f, inserted);
      if f.blocks != [] {
        blockRows := DeleteBlocks(blockRows, inserted);
        blockRows := blockRows + BlockRows(f.blocks, inserted);
      }
      ok := true;
    }
  }

  /**
    * Writing a file whose history extends the stored one and whose blocks are non-empty
    * and in offset order, then reading the row back, yields exactly the file written.
    */
  lemma StoreReadBack(db: Db, f: File)
    requires f.id.Some? && f.id.value < |db| && db[f.id.value].id == f.id
    requires db[f.id.value].versions <= f.versions && f.versions != []
    requires f.blocks != [] && OffsetOrdered(f.blocks)
    ensures StoreFile(db, f) == Stored(db[f.id.value := f])
  {
    StoredHistoryIffExtends(db, f);
    SortedReadBack(f.blocks);
  }
}
