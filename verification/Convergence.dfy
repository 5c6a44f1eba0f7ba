/**
  * When nothing is pending, peers hold the same files: not only the same names and lengths of
  * history, the same bytes. `truth` gives the content of a file at each length of its history, so it
  * is what rules out two edits that differ at the same length.
  */
module Convergence {
  import opened SyncTypes
  import opened Store
  import opened Storage
  import opened Blocks
  import opened Transfer
  import opened IndexMerge
  import opened Reindex
  import opened Download
  import opened Gossip
  import opened Progress

  type Truth = (string, nat) -> Bytes

  /** The content a row stands for. */
  function TrueContent(row: File, truth: Truth): Bytes {
    truth(row.name, |row.versions|)
  }

  /** The row lists the blocks of that content, and once it is synced that content is on disk. */
  ghost predicate TrueRow(row: File, disk: Disk, truth: Truth, H: HashFn) {
    && CountedRow(row)
    && BlocksOf(TrueContent(row, truth), H) == Some(row.blocks)
    && (!Wanted(row, disk) ==> disk[row.name] == TrueContent(row, truth))
  }

  ghost predicate TrueNode(node: Node, truth: Truth, H: HashFn) {
    && ValidDb(node.db) && UniqueNames(node.db)
    && (forall name :: name in node.disk ==> RowOf(node.db, name).Some?)
    && (forall j :: 0 <= j < |node.db| ==> TrueRow(node.db[j], node.disk, truth, H))
  }

  ghost predicate TrueInfo(info: FileInfo, truth: Truth, H: HashFn) {
    && WellFormed(info) && Positional(info.version.value)
    && BlocksOf(truth(info.name, Offer(info)), H) == Some(info.blocks)
  }

  ghost predicate TrueIndex(index: seq<FileInfo>, truth: Truth, H: HashFn) {
    WellFormedIndex(index) && forall k :: 0 <= k < |index| ==> TrueInfo(index[k], truth, H)
  }

  ghost predicate NothingWanted(node: Node) {
    forall j :: 0 <= j < |node.db| ==> !Wanted(node.db[j], node.disk)
  }

  // ---------------------------------------------------------------------------
  // Sending
  // ---------------------------------------------------------------------------

  /** The blocks cut from the file are those the row lists. */
  predicate CurrentRow(row: File, disk: Disk, H: HashFn) {
    row.name in disk && BlocksOf(disk[row.name], H) == Some(row.blocks)
  }

  ghost predicate Current(node: Node, H: HashFn) {
    forall j :: 0 <= j < |node.db| ==> CurrentRow(node.db[j], node.disk, H)
  }

  /** The entries of an index are true exactly when every file on disk has the blocks its row lists. */
  lemma IndexIsTrueIff(node: Node, truth: Truth, H: HashFn)
    requires TrueNode(node, truth, H) && BuildIndex(node.db, node.disk, H).Some?
    ensures TrueIndex(BuildIndex(node.db, node.disk, H).value, truth, H) <==> Current(node, H)
  {
    var index := BuildIndex(node.db, node.disk, H).value;
    IndexCarriesHistories(node.db, node.disk, H, "");
    forall k | 0 <= k < |index| ensures TrueInfo(index[k], truth, H) <==> CurrentRow(node.db[k], node.disk, H) {
      assert WellFormed(index[k]);
      assert TrueRow(node.db[k], node.disk, truth, H);
    }
    assert |index| == |node.db|;
  }

  /** A peer with nothing left to download is current. */
  lemma NothingWantedIsCurrent(node: Node, truth: Truth, H: HashFn)
    requires TrueNode(node, truth, H) && NothingWanted(node)
    ensures Current(node, H)
  {
    forall j | 0 <= j < |node.db| ensures CurrentRow(node.db[j], node.disk, H) {
      assert TrueRow(node.db[j], node.disk, truth, H);
      assert !Wanted(node.db[j], node.disk);
    }
  }

  /** Files with the same blocks are the same. */
  lemma BlocksDetermine(a: Bytes, b: Bytes, H: HashFn)
    requires CollisionFree(H) && BlocksOf(a, H).Some? && BlocksOf(a, H) == BlocksOf(b, H)
    ensures a == b
  {
    BlockCountBounds(a);
    BlocksAreOrdered(a, H);
    var f := File(Some(0), "", [], 0, 0, [Version(0, 0)], BlocksOf(a, H).value);
    var replies := (j: nat) => if j < BlockCount(a) then Reply(NoError, BlockRange(a, j)) else NoReply;
    assert ValidDb([f]);
    forall j | 0 <= j < |f.blocks| ensures Refusal(f.blocks[j], replies(j), H).None? && f.blocks[j].offset >= 0 {
      OffsetInFile(a, j);
      assert f.blocks[j] == BlockAt(a, j, H);
    }
    FetchOkIff([f], map[], f, 0, replies, H);
    FetchedIsCopied([f], map[], f, replies, H, a);
    FetchedIsCopied([f], map[], f, replies, H, b);
    var disk := FetchFile([f], map[], f, replies, H).disk;
    assert disk[f.name] == Overlay(a, []) == a;
    assert disk[f.name] == Overlay(b, []) == b;
  }

  /** Where the row's hash is that of its content, hashes tell whether it is current. */
  lemma CurrentIffHash(row: File, disk: Disk, content: Bytes, H: HashFn)
    requires CollisionFree(H) && BlocksOf(content, H) == Some(row.blocks) && row.hash == H(content)
    requires row.name in disk
    ensures CurrentRow(row, disk, H) <==> row.hash == H(disk[row.name])
  {
    if CurrentRow(row, disk, H) {
      BlocksDetermine(disk[row.name], content, H);
    }
  }

  // ---------------------------------------------------------------------------
  // Merging and downloading
  // ---------------------------------------------------------------------------

  /** A row that lists an entry's blocks under its history, and waits for its download, is true. */
  lemma WaitingIsTrue(row: File, info: FileInfo, disk: Disk, truth: Truth, H: HashFn)
    requires TrueInfo(info, truth, H) && CountedRow(row)
    requires row.name == info.name && |row.versions| == Offer(info) && row.blocks == SortByOffset(info.blocks)
    requires Wanted(row, disk)
    ensures TrueRow(row, disk, truth, H)
  {
    BlocksAreOrdered(truth(info.name, Offer(info)), H);
    SortedReadBack(info.blocks);
  }

  lemma AdoptedIsTrue(row: File, info: FileInfo, disk: Disk, truth: Truth, H: HashFn)
    requires TrueInfo(info, truth, H) && row.name == info.name && CountedRow(row) && |row.versions| < Offer(info)
    ensures TrueRow(Adopted(row, info), disk, truth, H)
  {
    AdoptedIs(row, info);
    WaitingIsTrue(Adopted(row, info), info, disk, truth, H);
  }

  lemma NewcomerIsTrue(info: FileInfo, id: nat, disk: Disk, truth: Truth, H: HashFn)
    requires TrueInfo(info, truth, H) && info.name !in disk
    ensures TrueRow(Newcomer(info, id), disk, truth, H)
  {
    WaitingIsTrue(Newcomer(info, id), info, disk, truth, H);
  }

  lemma MergedRowIsTrue(node: Node, index: seq<FileInfo>, truth: Truth, H: HashFn, name: string)
    requires TrueNode(node, truth, H) && TrueIndex(index, truth, H)
    ensures RowOf(Handled(node.db, index).db, name).Some? ==>
            TrueRow(RowOf(Handled(node.db, index).db, name).value, node.disk, truth, H)
  {
    HandledRow(node.db, index, name);
    var before, after := RowOf(node.db, name), RowOf(Handled(node.db, index).db, name);
    var i, k := FindName(node.db, name), FindInfo(index, name);
    assert i < |node.db| ==> TrueRow(node.db[i], node.disk, truth, H);
    assert name in node.disk ==> before.Some?;
    if k < |index| {
      assert TrueInfo(index[k], truth, H);
      if before.None? {
        NewcomerIsTrue(index[k], 0, node.disk, truth, H);
        assert after.value == Newcomer(index[k], 0).(id := after.value.id);
      } else if |before.value.versions| < Offer(index[k]) {
        AdoptedIsTrue(before.value, index[k], node.disk, truth, H);
      }
    }
  }

  lemma MergedIsTrue(node: Node, index: seq<FileInfo>, truth: Truth, H: HashFn)
    requires TrueNode(node, truth, H) && TrueIndex(index, truth, H)
    ensures TrueNode(node.(db := Handled(node.db, index).db), truth, H)
  {
    var db' := Handled(node.db, index).db;
    HandledLength(node.db, index, "");
    HandledKeepsRows(node.db, index);
    forall j | 0 <= j < |db'| ensures TrueRow(db'[j], node.disk, truth, H) {
      UniqueRow(db', j);
      MergedRowIsTrue(node, index, truth, H, db'[j].name);
    }
    forall name | name in node.disk ensures RowOf(db', name).Some? {
      HandledLength(node.db, index, name);
    }
  }

  /** No file on disk is longer than what is to be written over it. */
  ghost predicate NothingShrinks(node: Node, truth: Truth) {
    forall j :: 0 <= j < |node.db| ==> Fits(node.db[j], node.disk, truth)
  }

  ghost predicate Fits(row: File, disk: Disk, truth: Truth) {
    Wanted(row, disk) ==> |Content(disk, row.name)| <= |TrueContent(row, truth)|
  }

  lemma FetchedRowIsTrueIff(node: Node, replies: Replies, truth: Truth, H: HashFn, j: nat)
    requires CollisionFree(H) && TrueNode(node, truth, H) && j < |node.db|
    requires FetchDirectory(node.db, node.disk, replies, H).outcome == Ok
    ensures var r := FetchDirectory(node.db, node.disk, replies, H);
            && |r.db| == |node.db| && r.db[j].name == node.db[j].name && r.db[j].name in r.disk
            && !Wanted(r.db[j], r.disk)
            && (TrueRow(r.db[j], r.disk, truth, H) <==> Fits(node.db[j], node.disk, truth))
  {
    var row := node.db[j];
    assert TrueRow(row, node.disk, truth, H);
    DirectoryFetched(node.db, node.disk, replies, H, j);
    if Wanted(row, node.disk) {
      var content, before := TrueContent(row, truth), Content(node.disk, row.name);
      DirectoryCopied(node.db, node.disk, replies, H, j, content);
      OverlayIff(content, before);
    }
  }

  lemma OverlayIff(content: Bytes, before: Bytes)
    ensures Overlay(content, before) == content <==> |before| <= |content|
  {
    if |before| > |content| {
      assert |Overlay(content, before)| == |before|;
    }
  }

  /**
    * A download that ends well, from whoever answered, leaves nothing wanted; and it leaves the true
    * contents on disk exactly when no file there was longer.
    */
  lemma FetchedIsTrueIff(node: Node, replies: Replies, truth: Truth, H: HashFn)
    requires CollisionFree(H) && TrueNode(node, truth, H)
    requires FetchDirectory(node.db, node.disk, replies, H).outcome == Ok
    ensures var r := FetchDirectory(node.db, node.disk, replies, H);
            var node' := node.(db := r.db, disk := r.disk);
            NothingWanted(node') && (TrueNode(node', truth, H) <==> NothingShrinks(node, truth))
  {
    var r := FetchDirectory(node.db, node.disk, replies, H);
    DownloadKeepsHistories(node.db, node.disk, replies, H, "");
    forall j | 0 <= j < |node.db|
      ensures r.db[j].name == node.db[j].name && !Wanted(r.db[j], r.disk)
      ensures TrueRow(r.db[j], r.disk, truth, H) <==> Fits(node.db[j], node.disk, truth)
    {
      FetchedRowIsTrueIff(node, replies, truth, H, j);
    }
    forall name | name in r.disk ensures RowOf(r.db, name).Some? {
      FetchedNamesHaveRows(node, replies, truth, H, name);
    }
  }

  lemma FetchedNamesHaveRows(node: Node, replies: Replies, truth: Truth, H: HashFn, name: string)
    requires TrueNode(node, truth, H) && name in FetchDirectory(node.db, node.disk, replies, H).disk
    ensures RowOf(FetchDirectory(node.db, node.disk, replies, H).db, name).Some?
  {
    ValidIsSnapshot(node.db);
    DownloadKeepsHistories(node.db, node.disk, replies, H, name);
    var r, i := FetchDirectory(node.db, node.disk, replies, H), FindName(node.db, name);
    if i == |node.db| {
      FetchRowsNames(node.db, node.disk, node.db, 0, replies, H, name);
    } else {
      assert r.db[i].name == name;
    }
  }

  // ---------------------------------------------------------------------------
  // Edits
  // ---------------------------------------------------------------------------

  /** How long the history of an up-to-date row is after a scan that finds this content. */
  function LengthAfterScan(row: File, data: Bytes, H: HashFn): nat {
    if H(data) != row.hash then |row.versions| + 1 else |row.versions|
  }

  /**
    * An edit of one name. Files that wait for a download may change at will, the scan ignores them. Others
    * are not removed, and have the true content for the length of history the scan will give them.
    */
  ghost predicate TrueEdit(node: Node, disk: Disk, truth: Truth, H: HashFn, name: string) {
    match RowOf(node.db, name)
    case None => name in disk ==> disk[name] == truth(name, 1)
    case Some(row) =>
      Behind(row) ||
      (&& (name in node.disk ==> name in disk)
       && (name in disk ==> disk[name] == truth(name, LengthAfterScan(row, disk[name], H))))
  }

  /** The listing shows the whole directory. */
  ghost predicate FullListing(listing: seq<Entry>, disk: Disk) {
    ListingOf(listing, disk) && forall name :: name in disk ==> FindEntry(listing, name) < |listing|
  }

  lemma KeptRowIsTrue(node: Node, row: File, disk: Disk, truth: Truth, H: HashFn)
    requires TrueRow(row, node.disk, truth, H) && RowOf(node.db, row.name) == Some(row)
    requires TrueEdit(node, disk, truth, H, row.name)
    requires row.name in disk && !Behind(row) ==> H(disk[row.name]) == row.hash
    ensures TrueRow(row, disk, truth, H) && (Wanted(row, disk) ==> Wanted(row, node.disk))
  {
    BehindIsWanted(row);
  }

  lemma NewFileIsTrue(me: u64, e: Entry, id: Option<nat>, disk: Disk, truth: Truth, H: HashFn)
    requires BlocksOf(e.data, H).Some? && e.name in disk && disk[e.name] == e.data == truth(e.name, 1)
    ensures var row := NewFile(me, e.name, H(e.data), BlocksOf(e.data, H).value).(id := id);
            TrueRow(row, disk, truth, H) && !Wanted(row, disk)
  {
  }

  lemma EditedIsTrue(me: u64, row: File, e: Entry, disk: Disk, truth: Truth, H: HashFn)
    requires CountedRow(row) && row.name == e.name && Recordable(Some(row), e, H)
    requires e.name in disk && disk[e.name] == e.data == truth(e.name, |row.versions| + 1)
    ensures var after := Edited(me, row, H(e.data), BlocksOf(e.data, H).value);
            TrueRow(after, disk, truth, H) && !Wanted(after, disk)
  {
  }

  /** What a scan makes of one row. */
  lemma ScannedEntryIsTrue(node: Node, disk: Disk, e: Entry, after: Option<File>, truth: Truth, H: HashFn)
    requires TrueNode(node, truth, H) && TrueEdit(node, disk, truth, H, e.name)
    requires e.name in disk && disk[e.name] == e.data && RowScanned(RowOf(node.db, e.name), e, node.id, H, after)
    ensures after.Some? && TrueRow(after.value, disk, truth, H)
    ensures Wanted(after.value, disk) ==> RowOf(node.db, e.name).Some? && Wanted(RowOf(node.db, e.name).value, node.disk)
  {
    var row, i := RowOf(node.db, e.name), FindName(node.db, e.name);
    if row.None? {
      NewFileIsTrue(node.id, e, after.value.id, disk, truth, H);
      assert after.value == after.value.(id := None).(id := after.value.id);
    } else {
      assert TrueRow(node.db[i], node.disk, truth, H);
      if Touches(row, e, H) {
        EditedIsTrue(node.id, row.value, e, disk, truth, H);
      } else {
        KeptRowIsTrue(node, row.value, disk, truth, H);
      }
    }
  }

  lemma ScannedRowIsTrue(node: Node, disk: Disk, listing: seq<Entry>, truth: Truth, H: HashFn, name: string)
    requires TrueNode(node, truth, H)
    requires FullListing(listing, disk) && TrueEdit(node, disk, truth, H, name)
    requires Scanned(node.db, listing, node.id, H).ok
    ensures var row, row' := RowOf(node.db, name), RowOf(Scanned(node.db, listing, node.id, H).db, name);
            && (name in disk ==> row'.Some?)
            && (row'.Some? ==> TrueRow(row'.value, disk, truth, H))
            && (row'.Some? && Wanted(row'.value, disk) ==> row.Some? && Wanted(row.value, node.disk))
  {
    ScannedRow(node.db, listing, node.id, H, name);
    var i, k := FindName(node.db, name), FindEntry(listing, name);
    if k < |listing| {
      ScannedEntryIsTrue(node, disk, listing[k], RowOf(Scanned(node.db, listing, node.id, H).db, name), truth, H);
    } else if i < |node.db| {
      assert name !in disk;
      assert TrueRow(node.db[i], node.disk, truth, H);
      KeptRowIsTrue(node, node.db[i], disk, truth, H);
    }
  }

  lemma BehindIsWanted(row: File)
    requires CountedRow(row)
    ensures Behind(row) <==> row.synced < IndexVersion(row)
  {
  }

  lemma ScannedIsTrue(node: Node, disk: Disk, listing: seq<Entry>, truth: Truth, H: HashFn)
    requires TrueNode(node, truth, H)
    requires FullListing(listing, disk) && forall name :: TrueEdit(node, disk, truth, H, name)
    requires Scanned(node.db, listing, node.id, H).ok
    ensures var node' := node.(db := Scanned(node.db, listing, node.id, H).db, disk := disk);
            TrueNode(node', truth, H) && (NothingWanted(node) ==> NothingWanted(node'))
  {
    var db' := Scanned(node.db, listing, node.id, H).db;
    ScanKeepsRows(node.db, listing, node.id, H);
    ScannedRow(node.db, listing, node.id, H, "");
    forall j | 0 <= j < |db'|
      ensures TrueRow(db'[j], disk, truth, H)
      ensures NothingWanted(node) ==> !Wanted(db'[j], disk)
    {
      UniqueRow(db', j);
      ScannedRowIsTrue(node, disk, listing, truth, H, db'[j].name);
    }
    forall name | name in disk ensures RowOf(db', name).Some? {
      ScannedRowIsTrue(node, disk, listing, truth, H, name);
    }
  }

  // ---------------------------------------------------------------------------
  // The network
  // ---------------------------------------------------------------------------

  ghost predicate PullPending(s: Net, q: nat) {
    exists src :: Pull(q, src) in s.tasks
  }

  ghost predicate TrueNet(s: Net, truth: Truth, H: HashFn) {
    && Valid(s)
    && (forall p :: 0 <= p < |s.nodes| ==> TrueNode(s.nodes[p], truth, H))
    && (forall t :: t in s.tasks && t.Deliver? ==> TrueIndex(t.index, truth, H))
    && (forall p :: 0 <= p < |s.nodes| ==> NothingWanted(s.nodes[p]) || PullPending(s, p))
  }

  /** Sends from peers that are current, and downloads that shrink nothing. */
  ghost predicate TrueTask(s: Net, t: Task, truth: Truth, H: HashFn)
    requires TaskInRange(t, |s.nodes|)
  {
    match t
    case Send(p, _) => Current(s.nodes[p], H)
    case Deliver(_, _, _) => true
    case Pull(me, _) => NothingShrinks(s.nodes[me], truth)
  }

  /** Events of a run without failures that keep to the truth. */
  ghost predicate TrueEvent(s: Net, e: Event, truth: Truth, H: HashFn)
    requires Valid(s)
  {
    && Allowed(s, e, H)
    && match e
       case Step(i, replies) => TaskInRange(s.tasks[i], |s.nodes|) && TrueTask(s, s.tasks[i], truth, H)
       case Edit(p, disk, listing) =>
         FullListing(listing, disk) && forall name :: TrueEdit(s.nodes[p], disk, truth, H, name)
       case Connect(_, _) => true
  }

  lemma PullStays(s: Net, i: nat, replies: Replies, H: HashFn, q: nat)
    requires Valid(s) && i < |s.tasks| && PullPending(s, q) && (s.tasks[i].Pull? ==> s.tasks[i].me != q)
    ensures PullPending(RunTask(s, i, replies, H).net, q)
  {
    var src :| Pull(q, src) in s.tasks;
    InRemove(s.tasks, i, Pull(q, src));
    assert TaskInRange(s.tasks[i], |s.nodes|);
    assert Pull(q, src) in RunTask(s, i, replies, H).net.tasks;
  }

  lemma DeliverKeepsTruth(s: Net, i: nat, replies: Replies, truth: Truth, H: HashFn)
    requires TrueNet(s, truth, H) && i < |s.tasks| && s.tasks[i].Deliver?
    ensures var s', q := RunTask(s, i, replies, H).net, s.tasks[i].dst;
            && q < |s.nodes| == |s'.nodes|
            && TrueNode(s'.nodes[q], truth, H)
            && (NothingWanted(s'.nodes[q]) || PullPending(s', q))
  {
    var t := s.tasks[i];
    var s' := RunTask(s, i, replies, H).net;
    assert TaskInRange(t, |s.nodes|);
    MergedIsTrue(s.nodes[t.dst], t.index, truth, H);
    HandledLength(s.nodes[t.dst].db, t.index, "");
    if Handled(s.nodes[t.dst].db, t.index).changed {
      assert Pull(t.dst, t.src) in s'.tasks;
    } else {
      UnchangedMergeStoresNothing(s.nodes[t.dst].db, t.index);
      assert s'.nodes[t.dst] == s.nodes[t.dst];
      if !NothingWanted(s.nodes[t.dst]) {
        PullStays(s, i, replies, H, t.dst);
      }
    }
  }

  /** The node a task works on. */
  function Subject(t: Task): nat {
    match t
    case Send(p, _) => p
    case Deliver(_, q, _) => q
    case Pull(me, _) => me
  }

  lemma SubjectStaysTrue(s: Net, i: nat, replies: Replies, truth: Truth, H: HashFn)
    requires CollisionFree(H) && TrueNet(s, truth, H) && TrueEvent(s, Step(i, replies), truth, H)
    ensures var s', p := RunTask(s, i, replies, H).net, Subject(s.tasks[i]);
            && p < |s.nodes| == |s'.nodes|
            && TrueNode(s'.nodes[p], truth, H)
            && (NothingWanted(s'.nodes[p]) || PullPending(s', p))
  {
    match s.tasks[i] {
      case Send(p, _) =>
        if !NothingWanted(s.nodes[p]) {
          PullStays(s, i, replies, H, p);
        }
      case Deliver(_, _, _) => DeliverKeepsTruth(s, i, replies, truth, H);
      case Pull(me, src) => FetchedIsTrueIff(s.nodes[me], replies, truth, H);
    }
  }

  lemma TasksStayTrue(s: Net, i: nat, replies: Replies, truth: Truth, H: HashFn, t: Task)
    requires TrueNet(s, truth, H) && TrueEvent(s, Step(i, replies), truth, H)
    requires t in RunTask(s, i, replies, H).net.tasks && t.Deliver?
    ensures TrueIndex(t.index, truth, H)
  {
    InRemove(s.tasks, i, t);
    match s.tasks[i] {
      case Send(p, _) => IndexIsTrueIff(s.nodes[p], truth, H);
      case Pull(me, _) => BroadcastInRange(me, s.links, |s.nodes|);
      case _ =>
    }
  }

  lemma StepKeepsTruth(s: Net, i: nat, replies: Replies, truth: Truth, H: HashFn)
    requires CollisionFree(H) && TrueNet(s, truth, H) && TrueEvent(s, Step(i, replies), truth, H)
    ensures TrueNet(RunTask(s, i, replies, H).net, truth, H)
  {
    var s' := RunTask(s, i, replies, H).net;
    RunKeepsValid(s, i, replies, H);
    SubjectStaysTrue(s, i, replies, truth, H);
    forall p | 0 <= p < |s.nodes| ensures TrueNode(s'.nodes[p], truth, H) && (NothingWanted(s'.nodes[p]) || PullPending(s', p)) {
      if p != Subject(s.tasks[i]) {
        assert s'.nodes[p] == s.nodes[p];
        if !NothingWanted(s.nodes[p]) {
          PullStays(s, i, replies, H, p);
        }
      }
    }
    forall t | t in s'.tasks && t.Deliver? ensures TrueIndex(t.index, truth, H) {
      TasksStayTrue(s, i, replies, truth, H, t);
    }
  }

  lemma MoreTasks(s: Net, s': Net, q: nat)
    requires PullPending(s, q) && forall t :: t in s.tasks ==> t in s'.tasks
    ensures PullPending(s', q)
  {
    var src :| Pull(q, src) in s.tasks;
    assert Pull(q, src) in s'.tasks;
  }

  lemma EventKeepsTruth(s: Net, e: Event, truth: Truth, H: HashFn)
    requires CollisionFree(H) && TrueNet(s, truth, H) && TrueEvent(s, e, truth, H)
    ensures TrueNet(Apply(s, e, H), truth, H)
  {
    var s' := Apply(s, e, H);
    if e.Step? {
      StepKeepsTruth(s, e.i, e.replies, truth, H);
    } else {
      ApplyKeepsValid(s, e, H);
      if e.Edit? {
        ScannedIsTrue(s.nodes[e.p], e.disk, e.listing, truth, H);
        BroadcastInRange(e.p, s.links, |s.nodes|);
      }
      forall p | 0 <= p < |s.nodes| ensures NothingWanted(s'.nodes[p]) || PullPending(s', p) {
        if !NothingWanted(s.nodes[p]) {
          MoreTasks(s, s', p);
        }
      }
    }
  }

  ghost predicate TrueRun(s: Net, events: seq<Event>, truth: Truth, H: HashFn)
    requires Valid(s)
    decreases |events|
  {
    events == [] ||
    (TrueEvent(s, events[0], truth, H)
     && (ApplyKeepsValid(s, events[0], H); TrueRun(Apply(s, events[0], H), events[1..], truth, H)))
  }

  lemma {:induction false} RunKeepsTruth(s: Net, events: seq<Event>, truth: Truth, H: HashFn)
    requires CollisionFree(H) && TrueNet(s, truth, H) && TrueRun(s, events, truth, H)
    ensures Runs(s, events, H) && TrueNet(After(s, events, H), truth, H)
    decreases |events|
  {
    if events != [] {
      EventKeepsTruth(s, events[0], truth, H);
      RunKeepsTruth(Apply(s, events[0], H), events[1..], truth, H);
    }
  }

  lemma SameFileOnBoth(a: Node, b: Node, truth: Truth, H: HashFn, name: string)
    requires TrueNode(a, truth, H) && TrueNode(b, truth, H) && NothingWanted(a) && NothingWanted(b)
    requires LenOf(a.db, name) == LenOf(b.db, name)
    ensures SameFile(a.disk, b.disk, name)
  {
    var i, j := FindName(a.db, name), FindName(b.db, name);
    KnownIffHeld(a.db, name);
    KnownIffHeld(b.db, name);
    assert i < |a.db| ==> TrueRow(a.db[i], a.disk, truth, H) && !Wanted(a.db[i], a.disk);
    assert j < |b.db| ==> TrueRow(b.db[j], b.disk, truth, H) && !Wanted(b.db[j], b.disk);
    assert name in a.disk ==> RowOf(a.db, name).Some?;
    assert name in b.disk ==> RowOf(b.db, name).Some?;
  }

  lemma SameDisks(a: Node, b: Node, truth: Truth, H: HashFn)
    requires TrueNode(a, truth, H) && TrueNode(b, truth, H) && NothingWanted(a) && NothingWanted(b)
    requires forall name :: LenOf(a.db, name) == LenOf(b.db, name)
    ensures a.disk == b.disk
  {
    forall name | name in a.disk ensures name in b.disk && a.disk[name] == b.disk[name] {
      SameFileOnBoth(a, b, truth, H, name);
    }
    forall name | name in b.disk ensures name in a.disk {
      SameFileOnBoth(a, b, truth, H, name);
    }
    SameWhenInBoth(a.disk, b.disk);
  }

  lemma SameWhenInBoth(a: Disk, b: Disk)
    requires forall name :: name in a ==> name in b && a[name] == b[name]
    requires forall name :: name in b ==> name in a
    ensures a == b
  {
    assert a.Keys == b.Keys;
  }

  lemma QuietLengthsAgree(s: Net, path: seq<nat>)
    requires Gossip.Inv(s) && s.tasks == [] && Joined(s, path)
    ensures path[0] < |s.nodes| && Last(path) < |s.nodes|
    ensures forall name :: LenAt(s, path[0], name) == LenAt(s, Last(path), name)
  {
    assert path[|path| - 1] == Last(path);
    forall name ensures LenAt(s, path[0], name) == LenAt(s, Last(path), name) {
      QuietPathAgrees(s, path, name);
    }
  }

  lemma QuietIsSettled(s: Net, truth: Truth, H: HashFn, p: nat)
    requires TrueNet(s, truth, H) && s.tasks == [] && p < |s.nodes|
    ensures TrueNode(s.nodes[p], truth, H) && NothingWanted(s.nodes[p])
  {
  }

  lemma QuietSameDisk(s: Net, truth: Truth, H: HashFn, p: nat, q: nat)
    requires TrueNet(s, truth, H) && s.tasks == [] && p < |s.nodes| && q < |s.nodes|
    requires forall name :: LenAt(s, p, name) == LenAt(s, q, name)
    ensures s.nodes[p].disk == s.nodes[q].disk
  {
    var a, b := s.nodes[p], s.nodes[q];
    QuietIsSettled(s, truth, H, p);
    QuietIsSettled(s, truth, H, q);
    forall name ensures LenOf(a.db, name) == LenOf(b.db, name) {
      assert LenAt(s, p, name) == LenAt(s, q, name);
    }
    SameDisks(a, b, truth, H);
  }

  /**
    * Convergence of the files themselves: after any true run in which no task failed, once nothing is
    * pending, any two peers joined by connections have identical directories.
    */
  lemma QuietMeansSameFiles(s: Net, events: seq<Event>, truth: Truth, H: HashFn, path: seq<nat>)
    requires CollisionFree(H) && Initial(s) && TrueNet(s, truth, H) && TrueRun(s, events, truth, H)
    requires Runs(s, events, H) && After(s, events, H).tasks == [] && Joined(After(s, events, H), path)
    ensures var s' := After(s, events, H);
            && path[0] < |s'.nodes| && Last(path) < |s'.nodes|
            && s'.nodes[path[0]].disk == s'.nodes[Last(path)].disk
  {
    RunKeepsTruth(s, events, truth, H);
    RunsKeepInv(s, events, H);
    QuietLengthsAgree(After(s, events, H), path);
    QuietSameDisk(After(s, events, H), truth, H, path[0], Last(path));
  }
}
