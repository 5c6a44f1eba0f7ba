/** The values that travel between a peer's database, its disk and the wire. */
module SyncTypes {

  datatype Option<+T> = None | Some(value: T)

  type byte = x: int | 0 <= x < 0x100
  type u64 = x: int | 0 <= x < 0x1_0000_0000_0000_0000
  type i64 = x: int | -0x8000_0000_0000_0000 <= x < 0x8000_0000_0000_0000

  type Bytes = seq<byte>

  /** SHA-256 is a parameter of whatever needs it: nothing here depends on how it is computed. */
  type HashFn = Bytes -> Bytes

  /** An explicit hypothesis, taken only where a result needs it. */
  ghost predicate CollisionFree(H: HashFn) {
    forall a: Bytes, b: Bytes :: H(a) == H(b) ==> a == b
  }

  /** One entry of a version history: the short id of its author and a counter. */
  datatype Version = Version(author: u64, counter: u64)

  datatype Block = Block(offset: int, size: int, hash: Bytes)

  /** A file as handlers hold it. `id` is the row id, absent for a file not stored yet. */
  datatype File = File(
    id: Option<nat>,
    name: string,
    hash: Bytes,
    modifiedBy: u64,
    synced: u64,
    versions: seq<Version>,
    blocks: seq<Block>)

  /** A file as an index message describes it; the protocol lets `version` be absent. */
  datatype FileInfo = FileInfo(
    name: string,
    modifiedBy: u64,
    version: Option<seq<Version>>,
    blocks: seq<Block>)

  /** The database as handlers see it: rows in insertion order, the row id is the index. */
  type Db = seq<File>

  ghost predicate OffsetOrdered(blocks: seq<Block>) {
    forall i, j :: 0 <= i < j < |blocks| ==> blocks[i].offset <= blocks[j].offset
  }

  /**
    * Every row carries its own id, a history, as `get_sync_files` asserts, and its blocks in
    * offset order, as `get_blocks` selects them.
    */
  ghost predicate ValidDb(db: Db) {
    forall i :: 0 <= i < |db| ==> ValidRow(db[i], i)
  }

  ghost predicate ValidRow(row: File, i: nat) {
    row.id == Some(i) && row.versions != [] && OffsetOrdered(row.blocks)
  }

  lemma ValidUpdate(db: Db, i: nat, row: File)
    requires ValidDb(db) && i < |db| && ValidRow(row, i)
    ensures ValidDb(db[i := row])
  {
    var db' := db[i := row];
    forall k | 0 <= k < |db'| ensures ValidRow(db'[k], k) {
      assert ValidRow(db[k], k);
    }
  }

  lemma ValidAppend(db: Db, row: File)
    requires ValidDb(db) && ValidRow(row, |db|)
    ensures ValidDb(db + [row])
  {
    var db' := db + [row];
    forall k | 0 <= k < |db'| ensures ValidRow(db'[k], k) {
      assert k < |db| ==> ValidRow(db[k], k);
    }
  }

  ghost predicate UniqueNames(db: Db) {
    forall i, j :: 0 <= i < j < |db| ==> db[i].name != db[j].name
  }

  /** The counter at position i of a history is i. */
  ghost predicate Positional(versions: seq<Version>) {
    forall i :: 0 <= i < |versions| ==> versions[i].counter == i
  }

  function Last<T>(s: seq<T>): T
    requires s != []
  {
    s[|s| - 1]
  }

  /** `get_index_version`: the counter of the newest entry, 1 for an empty history. */
  function IndexVersion(f: File): u64 {
    if f.versions == [] then 1 else Last(f.versions).counter
  }

  /** Index of the first occurrence of a name, or the number of names. */
  function Position(names: seq<string>, name: string): (i: nat)
    ensures i <= |names|
    ensures i < |names| ==> names[i] == name
    ensures forall j :: 0 <= j < i ==> names[j] != name
  {
    if names == [] || names[0] == name then 0 else 1 + Position(names[1..], name)
  }

  /** Index of the first row with this name, or |db| when there is none. */
  function FindName(db: Db, name: string): (i: nat)
    ensures i <= |db|
    ensures i < |db| ==> db[i].name == name
    ensures forall j :: 0 <= j < i ==> db[j].name != name
  {
    var names := seq(|db|, k requires 0 <= k < |db| => db[k].name);
    assert forall j :: 0 <= j < |db| ==> names[j] == db[j].name;
    Position(names, name)
  }

  function RowOf(db: Db, name: string): Option<File> {
    var i := FindName(db, name);
    if i < |db| then Some(db[i]) else None
  }

  /** Length of the history held for a name, 0 when the name is unknown. */
  function LenOf(db: Db, name: string): nat {
    var i := FindName(db, name);
    if i < |db| then |db[i].versions| else 0
  }

  /** FindName is determined by being the first match. */
  lemma FindNameIs(db: Db, name: string, i: nat)
    requires i <= |db|
    requires i < |db| ==> db[i].name == name
    requires forall j :: 0 <= j < i ==> db[j].name != name
    ensures FindName(db, name) == i
  {
  }

  /** Appending a row, or rewriting one without renaming it, changes no other lookup. */
  lemma FindNameAppend(db: Db, f: File, name: string)
    ensures FindName(db + [f], name) ==
            if FindName(db, name) < |db| then FindName(db, name)
            else if f.name == name then |db| else |db| + 1
  {
    var i := FindName(db, name);
    var j := if i < |db| then i else if f.name == name then |db| else |db| + 1;
    FindNameIs(db + [f], name, j);
  }

  lemma FindNameUpdate(db: Db, k: nat, f: File, name: string)
    requires k < |db| && f.name == db[k].name
    ensures FindName(db[k := f], name) == FindName(db, name)
  {
    FindNameIs(db[k := f], name, FindName(db, name));
  }

  // ---------------------------------------------------------------------------
  // Copies of the database that handlers work from
  // ---------------------------------------------------------------------------

  /** The copy was read from this database some time ago; rows are never removed. */
  ghost predicate SnapshotOf(local: Db, db: Db) {
    |local| <= |db| && forall i :: 0 <= i < |local| ==> local[i].id == Some(i)
  }

  /** Copy and database say the same about one name. */
  ghost predicate AgreeOn(local: Db, db: Db, name: string) {
    var i := FindName(local, name);
    && FindName(db, name) == (if i < |local| then i else |db|)
    && (i < |local| ==> i < |db| && local[i] == db[i])
  }

  /** Rewriting the same row in both leaves them agreeing on every other name. */
  lemma AgreeAfterUpdate(local: Db, db: Db, i: nat, f: File, row: File, name: string)
    requires i < |local| && i < |db| && local[i].name == db[i].name == f.name == row.name != name
    requires AgreeOn(local, db, name)
    ensures AgreeOn(local[i := f], db[i := row], name)
  {
    FindNameUpdate(local, i, f, name);
    FindNameUpdate(db, i, row, name);
  }

  lemma AgreeAfterAppend(local: Db, db: Db, row: File, name: string)
    requires row.name != name && AgreeOn(local, db, name)
    ensures AgreeOn(local, db + [row], name)
  {
    FindNameAppend(db, row, name);
  }

  lemma ValidIsSnapshot(db: Db)
    requires ValidDb(db)
    ensures SnapshotOf(db, db)
  {
    assert forall i :: 0 <= i < |db| ==> ValidRow(db[i], i);
  }
}
