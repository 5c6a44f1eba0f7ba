/** What uninterrupted handlers never take back, in runs where any task may fail, at any block of a download, and any scan may panic. */
module Progress {
  import opened SyncTypes
  import opened Storage
  import opened IndexMerge
  import opened Reindex
  import opened Download
  import opened Gossip

  ghost predicate RowAhead(before: File, after: File) {
    after.name == before.name && before.versions <= after.versions && before.synced <= after.synced
  }

  /** No row is lost or renamed, no history loses an entry, and no synced version goes back. */
  ghost predicate Ahead(before: Db, after: Db) {
    |before| <= |after| && forall i :: 0 <= i < |before| ==> RowAhead(before[i], after[i])
  }

  ghost predicate PositionalIndex(index: seq<FileInfo>) {
    forall k :: 0 <= k < |index| ==> index[k].version.Some? && Positional(index[k].version.value)
  }

  ghost predicate CountedRow(row: File) {
    Positional(row.versions) && row.synced < |row.versions|
  }

  lemma AdoptedIsCounted(before: Option<File>, info: FileInfo, after: Option<File>)
    requires WellFormed(info) && Positional(info.version.value) && RowMerged(before, info, after)
    requires before.Some? ==> CountedRow(before.value)
    ensures CountedRow(after.value)
  {
    if before.Some? && |before.value.versions| < Offer(info) {
      AdoptedIs(before.value, info);
    }
  }

  lemma MergeAhead(db: Db, index: seq<FileInfo>)
    requires ValidDb(db) && UniqueNames(db) && Counted(db) && WellFormedIndex(index) && PositionalIndex(index)
    ensures Ahead(db, Handled(db, index).db) && Counted(Handled(db, index).db)
  {
    var db' := Handled(db, index).db;
    HandledKeepsRows(db, index);
    forall j | 0 <= j < |db'| ensures CountedRow(db'[j]) {
      var name := db'[j].name;
      HandledRow(db, index, name);
      UniqueRow(db', j);
      var i := FindName(db, name);
      assert i < |db| ==> CountedRow(db[i]);
      if InfoOf(index, name).Some? {
        AdoptedIsCounted(RowOf(db, name), InfoOf(index, name).value, RowOf(db', name));
      }
    }
  }

  lemma FetchAhead(db: Db, disk: Disk, replies: Replies, H: HashFn)
    requires ValidDb(db) && UniqueNames(db) && Counted(db)
    ensures var db' := FetchDirectory(db, disk, replies, H).db;
            Ahead(db, db') && Counted(db')
  {
    ValidIsSnapshot(db);
    var db' := FetchDirectory(db, disk, replies, H).db;
    forall j | 0 <= j < |db| ensures RowAhead(db[j], db'[j]) && CountedRow(db'[j]) {
      FetchRowsEffect(db, disk, db, 0, replies, H, j);
    }
  }

  lemma ScannedIsCounted(before: Option<File>, e: Entry, me: u64, H: HashFn, after: Option<File>)
    requires RowScanned(before, e, me, H, after) && after.Some?
    requires before.Some? ==> CountedRow(before.value)
    ensures CountedRow(after.value) && (before.Some? ==> before.value.synced <= after.value.synced)
  {
  }

  lemma ScanAhead(db: Db, listing: seq<Entry>, me: u64, H: HashFn)
    requires ValidDb(db) && UniqueNames(db) && Counted(db) && DistinctNames(listing)
    ensures var db' := Scanned(db, listing, me, H).db;
            Ahead(db, db') && Counted(db')
  {
    var db' := Scanned(db, listing, me, H).db;
    ScanKeepsRows(db, listing, me, H);
    forall j | 0 <= j < |db'| ensures CountedRow(db'[j]) && (j < |db| ==> RowAhead(db[j], db'[j])) {
      var name := db'[j].name;
      ScannedRow(db, listing, me, H, name);
      UniqueRow(db', j);
      var i, k := FindName(db, name), FindEntry(listing, name);
      assert i < |db| ==> CountedRow(db[i]);
      if j < |db| {
        UniqueRow(db, j);
      }
      if k < FirstBlocked(db, listing, H) {
        ScannedIsCounted(RowOf(db, name), listing[k], me, H, RowOf(db', name));
      }
    }
  }

  /** Every history, stored or in flight, counts positions, and synced versions are listed ones. */
  ghost predicate Steady(s: Net) {
    && Valid(s)
    && (forall p :: 0 <= p < |s.nodes| ==> Counted(s.nodes[p].db))
    && (forall t :: t in s.tasks && t.Deliver? ==> PositionalIndex(t.index))
  }

  ghost predicate NodesAhead(s: Net, s': Net) {
    |s.nodes| == |s'.nodes| && forall p :: 0 <= p < |s.nodes| ==> Ahead(s.nodes[p].db, s'.nodes[p].db)
  }

  lemma NodeIsAhead(s: Net, i: nat, replies: Replies, H: HashFn, p: nat)
    requires Steady(s) && i < |s.tasks| && p < |s.nodes|
    ensures p < |RunTask(s, i, replies, H).net.nodes|
    ensures var db' := RunTask(s, i, replies, H).net.nodes[p].db; Counted(db') && Ahead(s.nodes[p].db, db')
  {
    assert TaskInRange(s.tasks[i], |s.nodes|);
    assert Counted(s.nodes[p].db);
    match s.tasks[i] {
      case Send(_, _) =>
      case Deliver(_, q, index) =>
        if p == q {
          MergeAhead(s.nodes[q].db, index);
        }
      case Pull(me, src) =>
        if p == me {
          FetchAhead(s.nodes[me].db, s.nodes[me].disk, replies, H);
        }
    }
  }

  lemma IndexIsPositional(s: Net, i: nat, replies: Replies, H: HashFn, t: Task)
    requires Steady(s) && i < |s.tasks| && t in RunTask(s, i, replies, H).net.tasks && t.Deliver?
    ensures PositionalIndex(t.index)
  {
    assert TaskInRange(s.tasks[i], |s.nodes|);
    InRemove(s.tasks, i, t);
    match s.tasks[i] {
      case Send(p, _) => assert Counted(s.nodes[p].db);
      case Deliver(_, _, _) =>
      case Pull(me, _) => BroadcastInRange(me, s.links, |s.nodes|);
    }
  }

  lemma RunIsAhead(s: Net, i: nat, replies: Replies, H: HashFn)
    requires Steady(s) && i < |s.tasks|
    ensures Steady(RunTask(s, i, replies, H).net) && NodesAhead(s, RunTask(s, i, replies, H).net)
  {
    RunKeepsValid(s, i, replies, H);
    var s' := RunTask(s, i, replies, H).net;
    forall p: nat | p < |s.nodes| ensures Counted(s'.nodes[p].db) && Ahead(s.nodes[p].db, s'.nodes[p].db) {
      NodeIsAhead(s, i, replies, H, p);
    }
    forall t | t in s'.tasks && t.Deliver? ensures PositionalIndex(t.index) {
      IndexIsPositional(s, i, replies, H, t);
    }
  }

  lemma EventIsAhead(s: Net, e: Event, H: HashFn)
    requires Steady(s) && Possible(s, e, H)
    ensures Steady(Apply(s, e, H)) && NodesAhead(s, Apply(s, e, H))
  {
    ApplyKeepsValid(s, e, H);
    match e {
      case Step(i, replies) => RunIsAhead(s, i, replies, H);
      case Edit(p, disk, listing) =>
        ScanAhead(s.nodes[p].db, listing, s.nodes[p].id, H);
        BroadcastInRange(p, s.links, |s.nodes|);
      case Connect(_, _) =>
    }
  }

  /**
    * With uninterrupted handlers, whatever is edited, sent, lost, answered or cut short: no synced version ever
    * decreases, none exceeds the newest version of its row, and histories only grow at the end.
    */
  lemma {:induction false} NothingIsTakenBack(s: Net, events: seq<Event>, H: HashFn)
    requires Steady(s) && Unfolds(s, events, H)
    ensures Steady(Unfolded(s, events, H)) && NodesAhead(s, Unfolded(s, events, H))
    decreases |events|
  {
    if events != [] {
      EventIsAhead(s, events[0], H);
      var s1 := Apply(s, events[0], H);
      NothingIsTakenBack(s1, events[1..], H);
      var s' := Unfolded(s, events, H);
      forall p | 0 <= p < |s.nodes| ensures Ahead(s.nodes[p].db, s'.nodes[p].db) {
        AheadTwice(s.nodes[p].db, s1.nodes[p].db, s'.nodes[p].db);
      }
    }
  }

  lemma AheadTwice(a: Db, b: Db, c: Db)
    requires Ahead(a, b) && Ahead(b, c)
    ensures Ahead(a, c)
  {
    forall i | 0 <= i < |a| ensures RowAhead(a[i], c[i]) {
      assert RowAhead(a[i], b[i]) && RowAhead(b[i], c[i]);
    }
  }
}
