/**
  * A network of peers that exchange indexes, every handler run without interruption.
  * A pending broadcast, an index on its way and a download still to run are tasks; they are
  * picked in any order.
  */
module Gossip {
  import opened SyncTypes
  import opened Storage
  import opened Blocks
  import opened Transfer
  import opened IndexMerge
  import opened Reindex
  import opened Download

  datatype Node = Node(id: u64, db: Db, disk: Disk)

  datatype Task =
    | Send(src: nat, dst: nat)                          // one connection's share of a broadcast
    | Deliver(src: nat, dst: nat, index: seq<FileInfo>) // an index in flight
    | Pull(me: nat, src: nat)                          // a download started by a merge

  /** `links` lists the connections of every peer, as (peer, neighbour) pairs. */
  datatype Net = Net(nodes: seq<Node>, links: seq<(nat, nat)>, tasks: seq<Task>)

  // ---------------------------------------------------------------------------
  // Sending
  // ---------------------------------------------------------------------------

  /** The blocks sent are cut from the file on disk at that moment, so the file must be there. */
  predicate Sendable(row: File, disk: Disk, H: HashFn) {
    row.name in disk && BlocksOf(disk[row.name], H).Some?
  }

  function InfoFor(row: File, disk: Disk, H: HashFn): FileInfo
    requires Sendable(row, disk, H)
  {
    FileInfo(row.name, 0, Some(row.versions), BlocksOf(disk[row.name], H).value)
  }

  /** `send_index`; one file that cannot be read spoils the whole index. */
  function BuildIndex(db: Db, disk: Disk, H: HashFn): Option<seq<FileInfo>> {
    if forall i :: 0 <= i < |db| ==> Sendable(db[i], disk, H)
    then Some(seq(|db|, i requires 0 <= i < |db| && Sendable(db[i], disk, H) => InfoFor(db[i], disk, H)))
    else None
  }

  /** An index is sent exactly if every file known is on disk and can be cut, and describes each in turn. */
  lemma IndexEntries(db: Db, disk: Disk, H: HashFn, i: nat)
    requires ValidDb(db)
    ensures BuildIndex(db, disk, H).Some? <==>
            forall k :: 0 <= k < |db| ==> db[k].name in disk && BlocksOf(disk[db[k].name], H).Some?
    ensures BuildIndex(db, disk, H).Some? ==> |BuildIndex(db, disk, H).value| == |db|
    ensures BuildIndex(db, disk, H).Some? && i < |db| ==>
              var info := BuildIndex(db, disk, H).value[i];
              && info.name == db[i].name && info.version == Some(db[i].versions) && info.modifiedBy == 0
              && BlocksOf(disk[db[i].name], H) == Some(info.blocks)
  {
    assert (forall k :: 0 <= k < |db| ==> Sendable(db[k], disk, H)) <==>
           forall k :: 0 <= k < |db| ==> db[k].name in disk && BlocksOf(disk[db[k].name], H).Some?;
  }

  /** An index carries exactly the histories held. */
  lemma IndexCarriesHistories(db: Db, disk: Disk, H: HashFn, name: string)
    requires ValidDb(db) && UniqueNames(db) && BuildIndex(db, disk, H).Some?
    ensures WellFormedIndex(BuildIndex(db, disk, H).value)
    ensures OfferedLen(BuildIndex(db, disk, H).value, name) == LenOf(db, name)
  {
    var index := BuildIndex(db, disk, H).value;
    forall i | 0 <= i < |index| ensures WellFormed(index[i]) {
      assert ValidRow(db[i], i);
      BlocksAreOrdered(disk[db[i].name], H);
    }
    var k, i := FindInfo(index, name), FindName(db, name);
    assert k < |index| ==> db[k].name == name;
    assert i < |db| ==> index[i].name == name;
  }

  // ---------------------------------------------------------------------------
  // Tasks
  // ---------------------------------------------------------------------------

  /** `directory_changed`: one send for every connection of the peer. */
  function Broadcast(p: nat, links: seq<(nat, nat)>): seq<Task> {
    if links == [] then []
    else (if links[0].0 == p then [Send(p, links[0].1)] else []) + Broadcast(p, links[1..])
  }

  lemma {:induction false} BroadcastReachesAll(p: nat, links: seq<(nat, nat)>, q: nat)
    requires (p, q) in links
    ensures Send(p, q) in Broadcast(p, links)
  {
    if links[0] != (p, q) {
      BroadcastReachesAll(p, links[1..], q);
    }
  }

  /** One send for each connection of p and nothing else. */
  lemma {:induction false} BroadcastIs(p: nat, links: seq<(nat, nat)>, t: Task)
    ensures multiset(Broadcast(p, links))[t] ==
            if t.Send? && t.src == p then multiset(links)[(p, t.dst)] else 0
  {
    if links != [] {
      BroadcastIs(p, links[1..], t);
      assert links == [links[0]] + links[1..];
    }
  }

  function Remove<T>(s: seq<T>, i: nat): seq<T>
    requires i < |s|
  {
    s[..i] + s[i + 1..]
  }

  /** What is answered while the connection to the source is gone. */
  const SILENCE: Replies := (f: File, k: nat) => NoReply

  /** What a peer with this disk answers. */
  function HonestPeer(disk: Disk, H: HashFn): Replies {
    (f: File, k: nat) => if k < |f.blocks| then Serve(disk, RequestFor(f, k), H) else NoReply
  }

  predicate TaskInRange(t: Task, n: nat) {
    match t
    case Send(p, q) => p < n && q < n
    case Deliver(p, q, _) => p < n && q < n
    case Pull(me, src) => me < n && src < n
  }

  /** No database has a name twice: uninterrupted handlers never enter a second row of a name. */
  ghost predicate Valid(s: Net) {
    && (forall p :: 0 <= p < |s.nodes| ==> ValidDb(s.nodes[p].db) && UniqueNames(s.nodes[p].db))
    && (forall k :: 0 <= k < |s.links| ==> s.links[k].0 < |s.nodes| && s.links[k].1 < |s.nodes|)
    && (forall t :: t in s.tasks ==> TaskInRange(t, |s.nodes|) && (t.Deliver? ==> WellFormedIndex(t.index)))
  }

  /**
    * The outcome of running one task; a download gets `replies`, whoever answers. `done` is false when it
    * ends early: an index that cannot be built, a download that fails.
    */
  datatype Ran = Ran(net: Net, done: bool)

  ghost function RunTask(s: Net, i: nat, replies: Replies, H: HashFn): Ran
    requires Valid(s) && i < |s.tasks|
  {
    var rest := Remove(s.tasks, i);
    assert TaskInRange(s.tasks[i], |s.nodes|);
    match s.tasks[i]
    case Send(p, q) =>
      (match BuildIndex(s.nodes[p].db, s.nodes[p].disk, H)
       case None => Ran(s.(tasks := rest), false)
       case Some(index) => Ran(s.(tasks := rest + [Deliver(p, q, index)]), true))
    case Deliver(p, q, index) =>
      var m := Handled(s.nodes[q].db, index);
      var nodes := s.nodes[q := s.nodes[q].(db := m.db)];
      Ran(s.(nodes := nodes, tasks := if m.ok && m.changed then rest + [Pull(q, p)] else rest), m.ok)
    case Pull(me, src) =>
      var r := FetchDirectory(s.nodes[me].db, s.nodes[me].disk, replies, H);
      var nodes := s.nodes[me := s.nodes[me].(db := r.db, disk := r.disk)];
      Ran(s.(nodes := nodes, tasks := if r.outcome == Ok then rest + Broadcast(me, s.links) else rest), r.outcome == Ok)
  }

  /**
    * What running a task leaves to do: the index it built is in flight to the one peer it was for; a merge starts
    * a download from the sender exactly when something longer was offered; a download is followed by a
    * broadcast exactly if it ended well. A task that fails adds nothing.
    */
  lemma RunAdds(s: Net, i: nat, replies: Replies, H: HashFn)
    requires Valid(s) && i < |s.tasks|
    ensures var t, r := s.tasks[i], RunTask(s, i, replies, H);
            && r.net.links == s.links && |r.net.nodes| == |s.nodes|
            && (!r.done ==> r.net.tasks == Remove(s.tasks, i))
            && match t
               case Send(p, q) =>
                 && r.net.nodes == s.nodes && p < |s.nodes|
                 && (r.done ==> BuildIndex(s.nodes[p].db, s.nodes[p].disk, H).Some?
                                && r.net.tasks == Remove(s.tasks, i)
                                                  + [Deliver(p, q, BuildIndex(s.nodes[p].db, s.nodes[p].disk, H).value)])
               case Deliver(p, q, index) =>
                 && r.done && q < |s.nodes|
                 && r.net.tasks == Remove(s.tasks, i) + (if SomeLonger(s.nodes[q].db, index) then [Pull(q, p)] else [])
                 && r.net.nodes[q].disk == s.nodes[q].disk
                 && forall k :: 0 <= k < |s.nodes| && k != q ==> r.net.nodes[k] == s.nodes[k]
               case Pull(me, _) =>
                 && (r.done ==> r.net.tasks == Remove(s.tasks, i) + Broadcast(me, s.links))
                 && forall k :: 0 <= k < |s.nodes| && k != me ==> r.net.nodes[k] == s.nodes[k]
  {
    var t := s.tasks[i];
    assert TaskInRange(t, |s.nodes|);
    if t.Deliver? {
      HandledLength(s.nodes[t.dst].db, t.index, "");
      HandledChangedIff(s.nodes[t.dst].db, t.index);
      assert Remove(s.tasks, i) + [] == Remove(s.tasks, i);
    }
  }

  // ---------------------------------------------------------------------------
  // What a task does to histories
  // ---------------------------------------------------------------------------

  /** A download, finished or not, leaves names and histories alone. */
  lemma DownloadKeepsHistories(db: Db, disk: Disk, replies: Replies, H: HashFn, name: string)
    requires ValidDb(db) && UniqueNames(db)
    ensures var db' := FetchDirectory(db, disk, replies, H).db;
            && |db'| == |db| && ValidDb(db') && UniqueNames(db')
            && LenOf(db', name) == LenOf(db, name)
            && forall j :: 0 <= j < |db| ==> db'[j].versions == db[j].versions && db'[j].name == db[j].name
  {
    ValidIsSnapshot(db);
    var db' := FetchDirectory(db, disk, replies, H).db;
    forall j | 0 <= j < |db| ensures db'[j].versions == db[j].versions && db'[j].name == db[j].name {
      FetchRowsEffect(db, disk, db, 0, replies, H, j);
    }
    if db == [] {
      assert db' == [];
    } else {
      FetchRowsEffect(db, disk, db, 0, replies, H, 0);
    }
    FindNameIs(db', name, FindName(db, name));
  }

  lemma UnchangedMergeStoresNothing(db: Db, index: seq<FileInfo>)
    requires ValidDb(db) && WellFormedIndex(index) && !Handled(db, index).changed
    ensures Handled(db, index).db == db
  {
    ValidIsSnapshot(db);
    HandledChangedIff(db, index);
    MergeFilesIsMergeRows(Merge(db, db, false, true), index);
    NothingLongerNothingStored(db, index);
  }

  lemma InRemove<T>(s: seq<T>, i: nat, t: T)
    requires i < |s|
    ensures t in Remove(s, i) ==> t in s
    ensures t in s && t != s[i] ==> t in Remove(s, i)
  {
    if t in s && t != s[i] {
      var k :| 0 <= k < |s| && s[k] == t;
      assert Remove(s, i)[if k < i then k else k - 1] == t;
    }
  }

  lemma {:induction false} BroadcastInRange(p: nat, links: seq<(nat, nat)>, n: nat)
    requires p < n && forall k :: 0 <= k < |links| ==> links[k].0 < n && links[k].1 < n
    ensures forall t :: t in Broadcast(p, links) ==> t.Send? && TaskInRange(t, n)
  {
    if links != [] {
      BroadcastInRange(p, links[1..], n);
    }
  }

  lemma RunNodeValid(s: Net, i: nat, replies: Replies, H: HashFn, p: nat)
    requires Valid(s) && i < |s.tasks| && p < |s.nodes|
    ensures var s' := RunTask(s, i, replies, H).net;
            |s'.nodes| == |s.nodes| && ValidDb(s'.nodes[p].db) && UniqueNames(s'.nodes[p].db)
  {
    assert TaskInRange(s.tasks[i], |s.nodes|);
    match s.tasks[i] {
      case Send(_, _) =>
      case Deliver(_, q, index) =>
        HandledLength(s.nodes[q].db, index, "");
        HandledKeepsRows(s.nodes[q].db, index);
      case Pull(me, src) =>
        DownloadKeepsHistories(s.nodes[me].db, s.nodes[me].disk, replies, H, "");
    }
  }

  lemma RunTaskFine(s: Net, i: nat, replies: Replies, H: HashFn, t: Task)
    requires Valid(s) && i < |s.tasks| && t in RunTask(s, i, replies, H).net.tasks
    ensures TaskInRange(t, |s.nodes|) && (t.Deliver? ==> WellFormedIndex(t.index))
  {
    assert TaskInRange(s.tasks[i], |s.nodes|);
    InRemove(s.tasks, i, t);
    match s.tasks[i] {
      case Send(p, _) =>
        if BuildIndex(s.nodes[p].db, s.nodes[p].disk, H).Some? {
          IndexCarriesHistories(s.nodes[p].db, s.nodes[p].disk, H, "");
        }
      case Deliver(_, _, _) =>
      case Pull(me, _) => BroadcastInRange(me, s.links, |s.nodes|);
    }
  }

  /** Running a task, to its end or not, keeps the network valid. */
  lemma RunKeepsValid(s: Net, i: nat, replies: Replies, H: HashFn)
    requires Valid(s) && i < |s.tasks|
    ensures var s' := RunTask(s, i, replies, H).net;
            && Valid(s') && s'.links == s.links && |s'.nodes| == |s.nodes|
  {
    var s' := RunTask(s, i, replies, H).net;
    assert TaskInRange(s.tasks[i], |s.nodes|);
    forall p | 0 <= p < |s.nodes| ensures ValidDb(s'.nodes[p].db) && UniqueNames(s'.nodes[p].db) {
      RunNodeValid(s, i, replies, H, p);
    }
    forall t | t in s'.tasks ensures TaskInRange(t, |s.nodes|) && (t.Deliver? ==> WellFormedIndex(t.index)) {
      RunTaskFine(s, i, replies, H, t);
    }
  }

  function LenAt(s: Net, p: nat, name: string): nat
    requires p < |s.nodes|
  {
    LenOf(s.nodes[p].db, name)
  }

  /** Lengths change at the receiver of an index only, and then to the longer of the two. */
  lemma RunLengths(s: Net, i: nat, replies: Replies, H: HashFn, p: nat, name: string)
    requires Valid(s) && i < |s.tasks| && p < |s.nodes|
    ensures p < |RunTask(s, i, replies, H).net.nodes|
    ensures var t, n, n' := s.tasks[i], LenAt(s, p, name), LenAt(RunTask(s, i, replies, H).net, p, name);
            && n' == (if t.Deliver? && t.dst == p then Max(n, OfferedLen(t.index, name)) else n)
            && (n' > n ==> Pull(p, t.src) in RunTask(s, i, replies, H).net.tasks)
            && (t.Deliver? ==> RunTask(s, i, replies, H).done)
  {
    var t := s.tasks[i];
    assert TaskInRange(t, |s.nodes|);
    match t {
      case Send(_, _) =>
      case Deliver(_, q, index) =>
        HandledLength(s.nodes[q].db, index, name);
        if !Handled(s.nodes[q].db, index).changed {
          UnchangedMergeStoresNothing(s.nodes[q].db, index);
        }
      case Pull(me, src) =>
        DownloadKeepsHistories(s.nodes[me].db, s.nodes[me].disk, replies, H, name);
    }
  }

  // ---------------------------------------------------------------------------
  // The invariant behind convergence
  // ---------------------------------------------------------------------------

  /** The task will bring q's history of the file up to p's. */
  predicate WillServe(s: Net, t: Task, p: nat, q: nat, name: string)
    requires p < |s.nodes|
  {
    || t == Send(p, q)
    || (t.Pull? && t.me == p)
    || (t.Deliver? && t.src == p && t.dst == q && OfferedLen(t.index, name) >= LenAt(s, p, name))
  }

  /** q is no shorter than p, or a task that will make it so is pending. */
  ghost predicate Served(s: Net, p: nat, q: nat, name: string)
    requires p < |s.nodes| && q < |s.nodes|
  {
    || LenAt(s, q, name) >= LenAt(s, p, name)
    || exists t :: t in s.tasks && WillServe(s, t, p, q, name)
  }

  ghost predicate AllServed(s: Net)
    requires Valid(s)
  {
    forall k, name :: 0 <= k < |s.links| ==> Served(s, s.links[k].0, s.links[k].1, name)
  }

  /** A task that runs to its end keeps every connection served. */
  lemma RunKeepsServed(s: Net, i: nat, replies: Replies, H: HashFn, p: nat, q: nat, name: string)
    requires Valid(s) && i < |s.tasks| && (p, q) in s.links && p < |s.nodes| && q < |s.nodes|
    requires RunTask(s, i, replies, H).done
    requires Served(s, p, q, name)
    ensures var s' := RunTask(s, i, replies, H).net;
            |s'.nodes| == |s.nodes| && Served(s', p, q, name)
  {
    var s' := RunTask(s, i, replies, H).net;
    RunKeepsValid(s, i, replies, H);
    RunLengths(s, i, replies, H, p, name);
    RunLengths(s, i, replies, H, q, name);
    var ran := s.tasks[i];
    if LenAt(s', p, name) > LenAt(s, p, name) {
      assert WillServe(s', Pull(p, ran.src), p, q, name);
    } else if LenAt(s, q, name) < LenAt(s, p, name) {
      var t :| t in s.tasks && WillServe(s, t, p, q, name);
      InRemove(s.tasks, i, t);
      if t != ran {
        assert t in s'.tasks && WillServe(s', t, p, q, name);
      } else if t == Send(p, q) {
        var db, disk := s.nodes[p].db, s.nodes[p].disk;
        IndexCarriesHistories(db, disk, H, name);
        assert WillServe(s', Deliver(p, q, BuildIndex(db, disk, H).value), p, q, name);
      } else if t.Pull? {
        BroadcastReachesAll(p, s.links, q);
        assert Send(p, q) in s'.tasks && WillServe(s', Send(p, q), p, q, name);
      }
    }
  }

  // ---------------------------------------------------------------------------
  // Whole runs
  // ---------------------------------------------------------------------------

  datatype Event =
    | Step(i: nat, replies: Replies)                // run a pending task; if it is a download it gets these answers
    | Edit(p: nat, disk: Disk, listing: seq<Entry>) // files change under a peer, which scans them
    | Connect(p: nat, q: nat)                       // a new connection; both ends send their index

  /** Events of a run in which tasks may fail, downloads may be cut short anywhere, and scans may panic. */
  ghost predicate Possible(s: Net, e: Event, H: HashFn)
    requires Valid(s)
  {
    match e
    case Step(i, _) => i < |s.tasks|
    case Edit(p, disk, listing) =>
      p < |s.nodes| && ListingOf(listing, disk)
    case Connect(p, q) => p < |s.nodes| && q < |s.nodes|
  }

  /** Events of a run in which no task fails and no scan panics. */
  ghost predicate Allowed(s: Net, e: Event, H: HashFn)
    requires Valid(s)
  {
    && Possible(s, e, H)
    && (e.Step? ==> RunTask(s, e.i, e.replies, H).done)
    && (e.Edit? ==> Scanned(s.nodes[e.p].db, e.listing, s.nodes[e.p].id, H).ok)
  }

  ghost function Apply(s: Net, e: Event, H: HashFn): Net
    requires Valid(s) && Possible(s, e, H)
  {
    match e
    case Step(i, replies) => RunTask(s, i, replies, H).net
    case Edit(p, disk, listing) =>
      var m := Scanned(s.nodes[p].db, listing, s.nodes[p].id, H);
      s.(nodes := s.nodes[p := s.nodes[p].(db := m.db, disk := disk)],
         tasks := if m.ok && m.changed then s.tasks + Broadcast(p, s.links) else s.tasks)
    case Connect(p, q) =>
      s.(links := s.links + [(p, q), (q, p)], tasks := s.tasks + [Send(p, q), Send(q, p)])
  }

  /** Editing lengthens histories at the editor only, and then it broadcasts. */
  lemma EditEffect(db: Db, listing: seq<Entry>, me: u64, H: HashFn, name: string)
    requires ValidDb(db) && UniqueNames(db) && DistinctNames(listing)
    ensures var m := Scanned(db, listing, me, H);
            && ValidDb(m.db) && UniqueNames(m.db)
            && LenOf(m.db, name) >= LenOf(db, name)
            && (m.ok && LenOf(m.db, name) > LenOf(db, name) ==> m.changed)
  {
    ScannedRow(db, listing, me, H, name);
    ScanKeepsRows(db, listing, me, H);
    ScanChangesIff(db, listing, me, H);
  }

  lemma ApplyKeepsValid(s: Net, e: Event, H: HashFn)
    requires Valid(s) && Possible(s, e, H)
    ensures var s' := Apply(s, e, H);
            Valid(s') && |s'.nodes| == |s.nodes|
  {
    match e {
      case Step(i, replies) => RunKeepsValid(s, i, replies, H);
      case Edit(p, disk, listing) =>
        EditEffect(s.nodes[p].db, listing, s.nodes[p].id, H, "");
        BroadcastInRange(p, s.links, |s.nodes|);
      case Connect(_, _) =>
    }
  }

  lemma ApplyKeepsServed(s: Net, e: Event, H: HashFn, p: nat, q: nat, name: string)
    requires Valid(s) && Allowed(s, e, H) && p < |s.nodes| && q < |s.nodes|
    requires (p, q) in s.links && Served(s, p, q, name)
    ensures |Apply(s, e, H).nodes| == |s.nodes| && Served(Apply(s, e, H), p, q, name)
  {
    var s' := Apply(s, e, H);
    match e {
      case Step(i, replies) => RunKeepsServed(s, i, replies, H, p, q, name);
      case Edit(editor, disk, listing) =>
        EditEffect(s.nodes[editor].db, listing, s.nodes[editor].id, H, name);
        if LenAt(s', p, name) > LenAt(s, p, name) {
          BroadcastReachesAll(p, s.links, q);
          assert Send(p, q) in s'.tasks && WillServe(s', Send(p, q), p, q, name);
        } else if LenAt(s, q, name) < LenAt(s, p, name) {
          var t :| t in s.tasks && WillServe(s, t, p, q, name);
          assert t in s'.tasks && WillServe(s', t, p, q, name);
        }
      case Connect(_, _) =>
        if LenAt(s, q, name) < LenAt(s, p, name) {
          var t :| t in s.tasks && WillServe(s, t, p, q, name);
          assert t in s'.tasks && WillServe(s', t, p, q, name);
        }
    }
  }

  ghost predicate Inv(s: Net) {
    Valid(s) && AllServed(s)
  }

  lemma ApplyKeepsInv(s: Net, e: Event, H: HashFn)
    requires Inv(s) && Allowed(s, e, H)
    ensures Inv(Apply(s, e, H))
  {
    ApplyKeepsValid(s, e, H);
    var s' := Apply(s, e, H);
    forall k, name | 0 <= k < |s'.links| ensures Served(s', s'.links[k].0, s'.links[k].1, name) {
      var (p, q) := s'.links[k];
      if k < |s.links| {
        assert s'.links[k] == s.links[k];
        assert Served(s, s.links[k].0, s.links[k].1, name);
        ApplyKeepsServed(s, e, H, p, q, name);
      } else {
        assert Send(p, q) in s'.tasks && WillServe(s', Send(p, q), p, q, name);
      }
    }
  }

  /** Runs of possible events. */
  ghost predicate Unfolds(s: Net, events: seq<Event>, H: HashFn)
    requires Valid(s)
    decreases |events|
  {
    events == [] ||
    (Possible(s, events[0], H) && (ApplyKeepsValid(s, events[0], H); Unfolds(Apply(s, events[0], H), events[1..], H)))
  }

  ghost function Unfolded(s: Net, events: seq<Event>, H: HashFn): Net
    requires Valid(s) && Unfolds(s, events, H)
    decreases |events|
  {
    if events == [] then s
    else ApplyKeepsValid(s, events[0], H); Unfolded(Apply(s, events[0], H), events[1..], H)
  }

  /** Runs of allowed events. */
  ghost predicate Runs(s: Net, events: seq<Event>, H: HashFn)
    requires Valid(s)
    decreases |events|
  {
    events == [] ||
    (Allowed(s, events[0], H) && (ApplyKeepsValid(s, events[0], H); Runs(Apply(s, events[0], H), events[1..], H)))
  }

  ghost function After(s: Net, events: seq<Event>, H: HashFn): Net
    requires Valid(s) && Runs(s, events, H)
    decreases |events|
  {
    if events == [] then s
    else ApplyKeepsValid(s, events[0], H); After(Apply(s, events[0], H), events[1..], H)
  }

  /** Peers with any databases and files, not connected yet. */
  ghost predicate Initial(s: Net) {
    Valid(s) && s.links == [] && s.tasks == []
  }

  lemma {:induction false} RunsKeepInv(s: Net, events: seq<Event>, H: HashFn)
    requires Inv(s) && Runs(s, events, H)
    ensures Inv(After(s, events, H))
    decreases |events|
  {
    if events != [] {
      ApplyKeepsInv(s, events[0], H);
      RunsKeepInv(Apply(s, events[0], H), events[1..], H);
    }
  }

  /** Peers joined by a chain of connections, each carrying indexes both ways. */
  ghost predicate Joined(s: Net, path: seq<nat>) {
    && path != []
    && (forall k :: 0 <= k < |path| ==> path[k] < |s.nodes|)
    && (forall k :: 0 <= k < |path| - 1 ==> (path[k], path[k + 1]) in s.links && (path[k + 1], path[k]) in s.links)
  }

  lemma {:induction false} QuietPathAgrees(s: Net, path: seq<nat>, name: string)
    requires Inv(s) && s.tasks == [] && Joined(s, path)
    ensures LenAt(s, path[0], name) == LenAt(s, Last(path), name)
    decreases |path|
  {
    if |path| > 1 {
      var p, q := path[0], path[1];
      assert (path[0], path[0 + 1]) in s.links;
      var i :| 0 <= i < |s.links| && s.links[i] == (p, q);
      var j :| 0 <= j < |s.links| && s.links[j] == (q, p);
      assert Served(s, s.links[i].0, s.links[i].1, name);
      assert Served(s, s.links[j].0, s.links[j].1, name);
      forall k | 0 <= k < |path[1..]| - 1
        ensures (path[1..][k], path[1..][k + 1]) in s.links && (path[1..][k + 1], path[1..][k]) in s.links
      {
        assert (path[k + 1], path[k + 1 + 1]) in s.links;
      }
      QuietPathAgrees(s, path[1..], name);
    }
  }

  lemma KnownIffHeld(db: Db, name: string)
    requires ValidDb(db)
    ensures RowOf(db, name).Some? <==> LenOf(db, name) > 0
  {
    var i := FindName(db, name);
    assert i < |db| ==> ValidRow(db[i], i);
  }

  /**
    * Convergence. From any start, after any run in which no task failed, if nothing is pending then
    * any two peers joined by connections know the same files, with histories of equal length.
    */
  lemma QuietMeansConverged(s: Net, events: seq<Event>, H: HashFn, path: seq<nat>, name: string)
    requires Initial(s) && Runs(s, events, H)
    requires After(s, events, H).tasks == [] && Joined(After(s, events, H), path)
    ensures var s' := After(s, events, H);
            && Last(path) < |s'.nodes|
            && LenAt(s', path[0], name) == LenAt(s', Last(path), name)
            && (RowOf(s'.nodes[path[0]].db, name).Some? <==> RowOf(s'.nodes[Last(path)].db, name).Some?)
  {
    RunsKeepInv(s, events, H);
    var s' := After(s, events, H);
    QuietPathAgrees(s', path, name);
    KnownIffHeld(s'.nodes[path[0]].db, name);
    KnownIffHeld(s'.nodes[Last(path)].db, name);
  }
}
