/** Without new edits, gossip comes to an end: a bound on the number of tasks that can run. */
module Termination {
  import opened SyncTypes
  import opened IndexMerge
  import opened Reindex
  import opened Download
  import opened Gossip

  // ---------------------------------------------------------------------------
  // How much history a database holds
  // ---------------------------------------------------------------------------

  function TotalLen(db: Db): nat {
    if db == [] then 0 else TotalLen(db[..|db| - 1]) + |Last(db).versions|
  }

  lemma {:induction false} TotalAfterUpdate(db: Db, i: nat, row: File)
    requires i < |db|
    ensures TotalLen(db[i := row]) == TotalLen(db) - |db[i].versions| + |row.versions|
  {
    var n := |db| - 1;
    if i < n {
      assert db[i := row][..n] == db[..n][i := row];
      TotalAfterUpdate(db[..n], i, row);
    } else {
      assert db[i := row][..n] == db[..n];
    }
  }

  lemma TotalAfterMergeRow(db: Db, info: FileInfo)
    requires WellFormed(info)
    ensures TotalLen(MergeRow(db, info)) == TotalLen(db) + if LenOf(db, info.name) < Offer(info) then Offer(info) - LenOf(db, info.name) else 0
  {
    var i := FindName(db, info.name);
    if i == |db| {
      assert (db + [Newcomer(info, |db|)])[..|db|] == db;
    } else if |db[i].versions| < Offer(info) {
      TotalAfterUpdate(db, i, Adopted(db[i], info));
    }
  }

  lemma {:induction false} TotalAfterMergeRows(db: Db, files: seq<FileInfo>)
    requires WellFormedIndex(files)
    ensures TotalLen(MergeRows(db, files)) >= TotalLen(db) + if SomeLonger(db, files) then 1 else 0
    decreases |files|
  {
    if files != [] {
      SomeLongerSplit(db, files);
      TotalAfterMergeRow(db, files[0]);
      TotalAfterMergeRows(MergeRow(db, files[0]), files[1..]);
    }
  }

  /** A merge that changes anything adds to the history held. */
  lemma TotalAfterMerge(db: Db, files: seq<FileInfo>)
    requires ValidDb(db) && WellFormedIndex(files)
    ensures TotalLen(Handled(db, files).db) >= TotalLen(db) + if Handled(db, files).changed then 1 else 0
  {
    ValidIsSnapshot(db);
    MergeFilesIsMergeRows(Merge(db, db, false, true), files);
    HandledChangedIff(db, files);
    TotalAfterMergeRows(db, files);
  }

  lemma {:induction false} TotalSame(a: Db, b: Db)
    requires |a| == |b| && forall j :: 0 <= j < |a| ==> a[j].versions == b[j].versions
    ensures TotalLen(a) == TotalLen(b)
  {
    if a != [] {
      TotalSame(a[..|a| - 1], b[..|b| - 1]);
    }
  }

  /** Distinct names from `names`, histories no longer than `most`. */
  ghost predicate Within(db: Db, names: set<string>, most: nat) {
    forall j :: 0 <= j < |db| ==> db[j].name in names && |db[j].versions| <= most
  }

  lemma {:induction false} TotalBound(db: Db, names: set<string>, most: nat)
    requires UniqueNames(db) && Within(db, names, most)
    ensures TotalLen(db) <= |names| * most
  {
    if db != [] {
      var front, name := db[..|db| - 1], Last(db).name;
      assert name in names;
      TotalBound(front, names - {name}, most);
      assert |names| * most == (|names| - 1) * most + most;
    }
  }

  // ---------------------------------------------------------------------------
  // How much is still to be done
  // ---------------------------------------------------------------------------

  /** A download outweighs the sends it may trigger, a send the index it puts in flight. */
  function Weight(t: Task, links: nat): nat {
    match t
    case Deliver(_, _, _) => 1
    case Send(_, _) => 2
    case Pull(_, _) => 2 * links + 1
  }

  function Backlog(tasks: seq<Task>, links: nat): nat {
    if tasks == [] then 0 else Weight(tasks[0], links) + Backlog(tasks[1..], links)
  }

  lemma {:induction false} BacklogAppend(a: seq<Task>, b: seq<Task>, links: nat)
    ensures Backlog(a + b, links) == Backlog(a, links) + Backlog(b, links)
  {
    if a == [] {
      assert a + b == b;
    } else {
      assert (a + b)[1..] == a[1..] + b;
      BacklogAppend(a[1..], b, links);
    }
  }

  lemma BacklogRemove(tasks: seq<Task>, i: nat, links: nat)
    requires i < |tasks|
    ensures Backlog(Remove(tasks, i), links) == Backlog(tasks, links) - Weight(tasks[i], links)
  {
    BacklogAppend(tasks[..i], tasks[i + 1..], links);
    assert tasks == tasks[..i] + tasks[i..];
    BacklogAppend(tasks[..i], tasks[i..], links);
    assert tasks[i..][1..] == tasks[i + 1..];
  }

  lemma {:induction false} BroadcastBacklog(p: nat, links: seq<(nat, nat)>, n: nat)
    ensures Backlog(Broadcast(p, links), n) <= 2 * |links|
  {
    if links != [] {
      BroadcastBacklog(p, links[1..], n);
      BacklogAppend(if links[0].0 == p then [Send(p, links[0].1)] else [], Broadcast(p, links[1..]), n);
    }
  }

  // ---------------------------------------------------------------------------
  // The measure
  // ---------------------------------------------------------------------------

  function Held(nodes: seq<Node>): nat {
    if nodes == [] then 0 else Held(nodes[..|nodes| - 1]) + TotalLen(Last(nodes).db)
  }

  lemma {:induction false} HeldAfterUpdate(nodes: seq<Node>, p: nat, node: Node)
    requires p < |nodes|
    ensures Held(nodes[p := node]) == Held(nodes) - TotalLen(nodes[p].db) + TotalLen(node.db)
  {
    var n := |nodes| - 1;
    if p < n {
      assert nodes[p := node][..n] == nodes[..n][p := node];
      HeldAfterUpdate(nodes[..n], p, node);
    } else {
      assert nodes[p := node][..n] == nodes[..n];
    }
  }

  /** Every history held or in flight is of a file in `names` and no longer than `most`. */
  ghost predicate Bounded(s: Net, names: set<string>, most: nat) {
    && (forall p :: 0 <= p < |s.nodes| ==> Within(s.nodes[p].db, names, most))
    && (forall t :: t in s.tasks && t.Deliver? ==> IndexWithin(t.index, names, most))
  }

  ghost predicate IndexWithin(index: seq<FileInfo>, names: set<string>, most: nat) {
    forall k :: 0 <= k < |index| ==> index[k].name in names && Offer(index[k]) <= most
  }

  lemma {:induction false} HeldBound(nodes: seq<Node>, names: set<string>, most: nat)
    requires forall p :: 0 <= p < |nodes| ==> UniqueNames(nodes[p].db) && Within(nodes[p].db, names, most)
    ensures Held(nodes) <= |nodes| * (|names| * most)
  {
    if nodes != [] {
      HeldBound(nodes[..|nodes| - 1], names, most);
      TotalBound(Last(nodes).db, names, most);
      assert |nodes| * (|names| * most) == (|nodes| - 1) * (|names| * most) + |names| * most;
    }
  }

  /** History that could still be gained, if the names and lengths stay within bounds. */
  function Room(s: Net, names: set<string>, most: nat): int {
    |s.nodes| * (|names| * most) - Held(s.nodes)
  }

  /** Missing history first, then what is pending, folded into one number. */
  function Measure(s: Net, names: set<string>, most: nat): int {
    Room(s, names, most) * (2 * |s.links| + 2) + Backlog(s.tasks, |s.links|)
  }

  lemma MeasureNatural(s: Net, names: set<string>, most: nat)
    requires Valid(s) && Bounded(s, names, most)
    ensures Measure(s, names, most) >= 0
  {
    HeldBound(s.nodes, names, most);
    ProductNatural(Room(s, names, most), 2 * |s.links| + 2);
  }

  lemma ProductNatural(a: nat, b: nat)
    ensures a * b >= 0
  {
  }

  lemma MergeStaysWithin(db: Db, files: seq<FileInfo>, names: set<string>, most: nat)
    requires ValidDb(db) && UniqueNames(db) && WellFormedIndex(files)
    requires Within(db, names, most) && IndexWithin(files, names, most)
    ensures Within(Handled(db, files).db, names, most)
  {
    var db' := Handled(db, files).db;
    HandledKeepsRows(db, files);
    forall j | 0 <= j < |db'| ensures db'[j].name in names && |db'[j].versions| <= most {
      var name := db'[j].name;
      HandledLength(db, files, name);
      UniqueRow(db', j);
      assert RowOf(db', name).Some?;
    }
  }

  lemma NodeStaysWithin(s: Net, i: nat, replies: Replies, H: HashFn, names: set<string>, most: nat, p: nat)
    requires Valid(s) && i < |s.tasks| && Bounded(s, names, most) && p < |s.nodes|
    ensures p < |RunTask(s, i, replies, H).net.nodes| && Within(RunTask(s, i, replies, H).net.nodes[p].db, names, most)
  {
    assert TaskInRange(s.tasks[i], |s.nodes|);
    assert Within(s.nodes[p].db, names, most);
    match s.tasks[i] {
      case Send(_, _) =>
      case Deliver(_, q, index) =>
        if p == q {
          MergeStaysWithin(s.nodes[q].db, index, names, most);
        }
      case Pull(me, src) =>
        if p == me {
          DownloadKeepsHistories(s.nodes[me].db, s.nodes[me].disk, replies, H, "");
        }
    }
  }

  lemma IndexStaysWithin(s: Net, i: nat, replies: Replies, H: HashFn, names: set<string>, most: nat, t: Task)
    requires Valid(s) && i < |s.tasks| && Bounded(s, names, most)
    requires t in RunTask(s, i, replies, H).net.tasks && t.Deliver?
    ensures IndexWithin(t.index, names, most)
  {
    assert TaskInRange(s.tasks[i], |s.nodes|);
    InRemove(s.tasks, i, t);
    match s.tasks[i] {
      case Send(p, _) => assert Within(s.nodes[p].db, names, most);
      case Deliver(_, _, _) =>
      case Pull(me, _) => BroadcastInRange(me, s.links, |s.nodes|);
    }
  }

  lemma RunStaysBounded(s: Net, i: nat, replies: Replies, H: HashFn, names: set<string>, most: nat)
    requires Valid(s) && i < |s.tasks| && Bounded(s, names, most)
    ensures Bounded(RunTask(s, i, replies, H).net, names, most)
  {
    var s' := RunTask(s, i, replies, H).net;
    assert TaskInRange(s.tasks[i], |s.nodes|);
    forall p: nat | p < |s'.nodes| ensures Within(s'.nodes[p].db, names, most) {
      NodeStaysWithin(s, i, replies, H, names, most, p);
    }
    forall t | t in s'.tasks && t.Deliver? ensures IndexWithin(t.index, names, most) {
      IndexStaysWithin(s, i, replies, H, names, most, t);
    }
  }

  /** 1 when the task is a delivery that lengthens some history. */
  ghost function Gain(s: Net, i: nat): nat
    requires Valid(s) && i < |s.tasks|
  {
    var t := s.tasks[i];
    assert TaskInRange(t, |s.nodes|);
    if t.Deliver? && Handled(s.nodes[t.dst].db, t.index).changed then 1 else 0
  }

  lemma RunGains(s: Net, i: nat, replies: Replies, H: HashFn)
    requires Valid(s) && i < |s.tasks|
    ensures Held(RunTask(s, i, replies, H).net.nodes) >= Held(s.nodes) + Gain(s, i)
  {
    var t := s.tasks[i];
    assert TaskInRange(t, |s.nodes|);
    match t {
      case Send(_, _) =>
      case Deliver(_, q, index) =>
        TotalAfterMerge(s.nodes[q].db, index);
        HeldAfterUpdate(s.nodes, q, s.nodes[q].(db := Handled(s.nodes[q].db, index).db));
      case Pull(me, src) =>
        var r := FetchDirectory(s.nodes[me].db, s.nodes[me].disk, replies, H);
        DownloadKeepsHistories(s.nodes[me].db, s.nodes[me].disk, replies, H, "");
        TotalSame(r.db, s.nodes[me].db);
        HeldAfterUpdate(s.nodes, me, s.nodes[me].(db := r.db, disk := r.disk));
    }
  }

  lemma BacklogReplace(tasks: seq<Task>, i: nat, extra: seq<Task>, links: nat)
    requires i < |tasks|
    ensures Backlog(Remove(tasks, i) + extra, links) == Backlog(tasks, links) - Weight(tasks[i], links) + Backlog(extra, links)
  {
    BacklogRemove(tasks, i, links);
    BacklogAppend(Remove(tasks, i), extra, links);
  }

  /** The tasks that running a task adds. */
  ghost function Spawned(s: Net, i: nat, replies: Replies, H: HashFn): seq<Task>
    requires Valid(s) && i < |s.tasks|
  {
    RunTask(s, i, replies, H).net.tasks[|s.tasks| - 1..]
  }

  lemma SpawnedIs(s: Net, i: nat, replies: Replies, H: HashFn)
    requires Valid(s) && i < |s.tasks|
    ensures RunTask(s, i, replies, H).net.tasks == Remove(s.tasks, i) + Spawned(s, i, replies, H)
    ensures var t, spawned := s.tasks[i], Spawned(s, i, replies, H);
            || spawned == []
            || (t.Send? && |spawned| == 1 && spawned[0].Deliver?)
            || (t.Deliver? && |spawned| == 1 && spawned[0].Pull? && Gain(s, i) == 1)
            || (t.Pull? && spawned == Broadcast(t.me, s.links))
  {
    assert TaskInRange(s.tasks[i], |s.nodes|);
  }

  lemma SpawnedBacklog(s: Net, i: nat, replies: Replies, H: HashFn)
    requires Valid(s) && i < |s.tasks|
    ensures Backlog(Spawned(s, i, replies, H), |s.links|) <= Weight(s.tasks[i], |s.links|) - 1 + Gain(s, i) * (2 * |s.links| + 1)
  {
    var t, n, spawned, gain := s.tasks[i], |s.links|, Spawned(s, i, replies, H), Gain(s, i);
    SpawnedIs(s, i, replies, H);
    assert gain * (2 * n + 1) == if gain == 1 then 2 * n + 1 else 0;
    if t.Pull? {
      BroadcastBacklog(t.me, s.links, n);
    } else if spawned != [] {
      assert spawned == [spawned[0]];
    }
  }

  lemma RunBacklog(s: Net, i: nat, replies: Replies, H: HashFn)
    requires Valid(s) && i < |s.tasks|
    ensures var n := |s.links|;
            Backlog(RunTask(s, i, replies, H).net.tasks, n) <= Backlog(s.tasks, n) - 1 + Gain(s, i) * (2 * n + 1)
  {
    SpawnedIs(s, i, replies, H);
    SpawnedBacklog(s, i, replies, H);
    BacklogReplace(s.tasks, i, Spawned(s, i, replies, H), |s.links|);
  }

  /** History gained pays for the download it starts. */
  lemma GainPays(room: int, room': int, gain: nat, w: nat, backlog: nat, backlog': nat)
    requires room' <= room - gain && gain <= 1 && w > 0
    requires backlog' <= backlog - 1 + gain * (w - 1)
    ensures room' * w + backlog' < room * w + backlog
  {
    assert room' * w <= (room - gain) * w;
    assert (room - gain) * w == room * w - gain * w;
  }

  lemma MeasureDrops(s: Net, s': Net, names: set<string>, most: nat, gain: nat)
    requires |s'.nodes| == |s.nodes| && s'.links == s.links && gain <= 1
    requires Held(s'.nodes) >= Held(s.nodes) + gain
    requires Backlog(s'.tasks, |s.links|) <= Backlog(s.tasks, |s.links|) - 1 + gain * (2 * |s.links| + 1)
    ensures Measure(s', names, most) < Measure(s, names, most)
  {
    GainPays(Room(s, names, most), Room(s', names, most), gain, 2 * |s.links| + 2,
             Backlog(s.tasks, |s.links|), Backlog(s'.tasks, |s.links|));
  }

  /** Running any task, whether it ends well or not, brings the measure down. */
  lemma RunDecreases(s: Net, i: nat, replies: Replies, H: HashFn, names: set<string>, most: nat)
    requires Valid(s) && i < |s.tasks|
    ensures Measure(RunTask(s, i, replies, H).net, names, most) < Measure(s, names, most)
  {
    RunKeepsValid(s, i, replies, H);
    RunGains(s, i, replies, H);
    RunBacklog(s, i, replies, H);
    MeasureDrops(s, RunTask(s, i, replies, H).net, names, most, Gain(s, i));
  }

  // ---------------------------------------------------------------------------
  // Bounded runs
  // ---------------------------------------------------------------------------

  /** A pending task, and the answers it gets if it is a download. */
  datatype Pick = Pick(i: nat, replies: Replies)

  ghost function RunPick(s: Net, pick: Pick, H: HashFn): Ran
    requires Valid(s) && pick.i < |s.tasks|
    ensures Valid(RunPick(s, pick, H).net)
  {
    RunKeepsValid(s, pick.i, pick.replies, H);
    RunTask(s, pick.i, pick.replies, H)
  }

  /** Task after task, each one pending when it is picked. */
  ghost predicate Picks(s: Net, picks: seq<Pick>, H: HashFn)
    requires Valid(s)
    decreases |picks|
  {
    picks == [] || (picks[0].i < |s.tasks| && Picks(RunPick(s, picks[0], H).net, picks[1..], H))
  }

  ghost function AfterPicks(s: Net, picks: seq<Pick>, H: HashFn): Net
    requires Valid(s) && Picks(s, picks, H)
    decreases |picks|
  {
    if picks == [] then s else AfterPicks(RunPick(s, picks[0], H).net, picks[1..], H)
  }

  /** Gossip terminates: no order of picking tasks, with whatever answers and outcomes, runs more tasks than the measure. */
  lemma {:induction false} GossipTerminates(s: Net, picks: seq<Pick>, H: HashFn, names: set<string>, most: nat)
    requires Valid(s) && Bounded(s, names, most) && Picks(s, picks, H)
    ensures var s' := AfterPicks(s, picks, H);
            Valid(s') && Bounded(s', names, most) && 0 <= Measure(s', names, most) <= Measure(s, names, most) - |picks|
    decreases |picks|
  {
    MeasureNatural(s, names, most);
    if picks != [] {
      RunStaysBounded(s, picks[0].i, picks[0].replies, H, names, most);
      RunDecreases(s, picks[0].i, picks[0].replies, H, names, most);
      GossipTerminates(RunPick(s, picks[0], H).net, picks[1..], H, names, most);
    }
  }

  // ---------------------------------------------------------------------------
  // A bound read off the state
  // ---------------------------------------------------------------------------

  function TotalOffer(index: seq<FileInfo>): nat {
    if index == [] then 0 else TotalOffer(index[..|index| - 1]) + Offer(Last(index))
  }

  function InFlight(tasks: seq<Task>): nat {
    if tasks == [] then 0
    else InFlight(tasks[..|tasks| - 1]) + if Last(tasks).Deliver? then TotalOffer(Last(tasks).index) else 0
  }

  lemma {:induction false} RowWithinTotal(db: Db, j: nat)
    requires j < |db|
    ensures |db[j].versions| <= TotalLen(db)
  {
    if j < |db| - 1 {
      RowWithinTotal(db[..|db| - 1], j);
    }
  }

  lemma {:induction false} NodeWithinHeld(nodes: seq<Node>, p: nat)
    requires p < |nodes|
    ensures TotalLen(nodes[p].db) <= Held(nodes)
  {
    if p < |nodes| - 1 {
      NodeWithinHeld(nodes[..|nodes| - 1], p);
    }
  }

  lemma {:induction false} OfferWithinTotal(index: seq<FileInfo>, k: nat)
    requires k < |index|
    ensures Offer(index[k]) <= TotalOffer(index)
  {
    if k < |index| - 1 {
      OfferWithinTotal(index[..|index| - 1], k);
    }
  }

  lemma {:induction false} IndexWithinFlight(tasks: seq<Task>, i: nat)
    requires i < |tasks| && tasks[i].Deliver?
    ensures TotalOffer(tasks[i].index) <= InFlight(tasks)
  {
    if i < |tasks| - 1 {
      IndexWithinFlight(tasks[..|tasks| - 1], i);
    }
  }

  /** Every name held or in flight. */
  ghost function NamesIn(s: Net): set<string> {
    (set p, j | 0 <= p < |s.nodes| && 0 <= j < |s.nodes[p].db| :: s.nodes[p].db[j].name) +
    (set i, k | 0 <= i < |s.tasks| && s.tasks[i].Deliver? && 0 <= k < |s.tasks[i].index| :: s.tasks[i].index[k].name)
  }

  /** At least as long as any history held or in flight. */
  function LongestIn(s: Net): nat {
    Held(s.nodes) + InFlight(s.tasks)
  }

  lemma StateIsBounded(s: Net)
    ensures Bounded(s, NamesIn(s), LongestIn(s))
  {
    forall p, j | 0 <= p < |s.nodes| && 0 <= j < |s.nodes[p].db|
      ensures s.nodes[p].db[j].name in NamesIn(s) && |s.nodes[p].db[j].versions| <= LongestIn(s)
    {
      RowWithinTotal(s.nodes[p].db, j);
      NodeWithinHeld(s.nodes, p);
    }
    forall t | t in s.tasks && t.Deliver? ensures IndexWithin(t.index, NamesIn(s), LongestIn(s)) {
      var i :| 0 <= i < |s.tasks| && s.tasks[i] == t;
      IndexWithinFlight(s.tasks, i);
      forall k | 0 <= k < |t.index| ensures t.index[k].name in NamesIn(s) && Offer(t.index[k]) <= LongestIn(s) {
        OfferWithinTotal(t.index, k);
        assert s.tasks[i].index[k].name in NamesIn(s);
      }
    }
  }

  /** A bound on the number of tasks that can still run, computed from the state alone. */
  ghost function Limit(s: Net): int {
    Measure(s, NamesIn(s), LongestIn(s))
  }

  /** No task of the run ended early. */
  ghost predicate AllDone(s: Net, picks: seq<Pick>, H: HashFn)
    requires Valid(s) && Picks(s, picks, H)
    decreases |picks|
  {
    picks == [] || (RunPick(s, picks[0], H).done && AllDone(RunPick(s, picks[0], H).net, picks[1..], H))
  }

  lemma {:induction false} PicksKeepInv(s: Net, picks: seq<Pick>, H: HashFn)
    requires Inv(s) && Picks(s, picks, H) && AllDone(s, picks, H)
    ensures Inv(AfterPicks(s, picks, H))
    decreases |picks|
  {
    if picks != [] {
      ApplyKeepsInv(s, Step(picks[0].i, picks[0].replies), H);
      PicksKeepInv(RunPick(s, picks[0], H).net, picks[1..], H);
    }
  }

  /**
    * Gossip settles. Once edits stop, no more than Limit(s) tasks can run in any order; and wherever
    * a run without failures has nothing left to pick, joined peers hold histories of equal length.
    */
  lemma GossipSettles(s: Net, picks: seq<Pick>, H: HashFn, path: seq<nat>, name: string)
    requires Inv(s) && Picks(s, picks, H)
    ensures |picks| <= Limit(s)
    ensures |picks| == Limit(s) ==> AfterPicks(s, picks, H).tasks == []
    ensures var s' := AfterPicks(s, picks, H);
            AllDone(s, picks, H) && s'.tasks == [] && Joined(s', path) ==>
              Last(path) < |s'.nodes| && LenAt(s', path[0], name) == LenAt(s', Last(path), name)
  {
    var s' := AfterPicks(s, picks, H);
    StateIsBounded(s);
    GossipTerminates(s, picks, H, NamesIn(s), LongestIn(s));
    if s'.tasks != [] {
      RunKeepsValid(s', 0, SILENCE, H);
      RunStaysBounded(s', 0, SILENCE, H, NamesIn(s), LongestIn(s));
      RunDecreases(s', 0, SILENCE, H, NamesIn(s), LongestIn(s));
      MeasureNatural(RunTask(s', 0, SILENCE, H).net, NamesIn(s), LongestIn(s));
    } else if AllDone(s, picks, H) && Joined(s', path) {
      PicksKeepInv(s, picks, H);
      QuietPathAgrees(s', path, name);
    }
  }

  // ---------------------------------------------------------------------------
  // Scans of unchanged directories
  // ---------------------------------------------------------------------------

  /** A peer scans its directory again, unchanged and settled, as a clean peer's is. */
  ghost predicate Rescan(s: Net, e: Event, H: HashFn) {
    && e.Edit? && e.p < |s.nodes| && e.disk == s.nodes[e.p].disk
    && ListingOf(e.listing, e.disk) && Settled(s.nodes[e.p].db, e.listing, H)
  }

  lemma RescanIsNothing(s: Net, e: Event, H: HashFn)
    requires Valid(s) && Rescan(s, e, H)
    ensures Possible(s, e, H) && Apply(s, e, H) == s
  {
    ScanChangesIff(s.nodes[e.p].db, e.listing, s.nodes[e.p].id, H);
    assert s.nodes[e.p := s.nodes[e.p]] == s.nodes;
  }

  lemma CleanRescans(s: Net, e: Event, H: HashFn)
    requires Valid(s) && e.Edit? && e.p < |s.nodes| && e.disk == s.nodes[e.p].disk && ListingOf(e.listing, e.disk)
    requires Clean(s.nodes[e.p].db, s.nodes[e.p].disk, H)
    ensures Rescan(s, e, H)
  {
    CleanIsSettled(s.nodes[e.p].db, e.disk, e.listing, H);
  }

  /** Tasks with whatever answers and outcomes, and scans that find nothing to record, in any order. */
  ghost predicate Churns(s: Net, events: seq<Event>, H: HashFn)
    requires Valid(s)
    decreases |events|
  {
    events == [] ||
    (var e := events[0];
     && Possible(s, e, H)
     && (e.Step? || Rescan(s, e, H))
     && (ApplyKeepsValid(s, e, H); Churns(Apply(s, e, H), events[1..], H)))
  }

  /** The tasks of a run, without its scans. */
  function TasksOf(events: seq<Event>): seq<Event> {
    if events == [] then [] else (if events[0].Step? then [events[0]] else []) + TasksOf(events[1..])
  }

  /** A run of one more event. */
  lemma UnfoldsMore(s: Net, e: Event, rest: seq<Event>, H: HashFn)
    requires Valid(s) && Possible(s, e, H) && Valid(Apply(s, e, H)) && Unfolds(Apply(s, e, H), rest, H)
    ensures Unfolds(s, [e] + rest, H) && Unfolded(s, [e] + rest, H) == Unfolded(Apply(s, e, H), rest, H)
  {
    assert ([e] + rest)[1..] == rest;
  }

  ghost predicate SameEnd(s: Net, a: seq<Event>, b: seq<Event>, H: HashFn)
    requires Valid(s)
  {
    Unfolds(s, a, H) && Unfolds(s, b, H) && Unfolded(s, a, H) == Unfolded(s, b, H)
  }

  lemma SameEndMore(s: Net, e: Event, a: seq<Event>, b: seq<Event>, H: HashFn)
    requires Valid(s) && Possible(s, e, H) && (e.Step? || Rescan(s, e, H))
    requires Valid(Apply(s, e, H)) && SameEnd(Apply(s, e, H), a, b, H)
    ensures SameEnd(s, [e] + a, (if e.Step? then [e] else []) + b, H)
  {
    UnfoldsMore(s, e, a, H);
    if e.Step? {
      UnfoldsMore(s, e, b, H);
    } else {
      RescanIsNothing(s, e, H);
      assert [] + b == b;
    }
  }

  /** Without its scans the run is still one, and ends in the same state. */
  lemma {:induction false} RescansChangeNothing(s: Net, events: seq<Event>, H: HashFn)
    requires Valid(s) && Churns(s, events, H)
    ensures SameEnd(s, events, TasksOf(events), H)
    decreases |events|
  {
    if events != [] {
      var e := events[0];
      ApplyKeepsValid(s, e, H);
      RescansChangeNothing(Apply(s, e, H), events[1..], H);
      SameEndMore(s, e, events[1..], TasksOf(events[1..]), H);
      assert events == [e] + events[1..];
    }
  }

  /** However often peers scan what has not changed, no more tasks run than without the scans. */
  lemma {:induction false} RescansFeedNothing(s: Net, events: seq<Event>, H: HashFn, names: set<string>, most: nat)
    requires Valid(s) && Bounded(s, names, most) && Churns(s, events, H)
    ensures |TasksOf(events)| <= Measure(s, names, most)
    decreases |events|
  {
    MeasureNatural(s, names, most);
    if events != [] {
      var e := events[0];
      ApplyKeepsValid(s, e, H);
      if e.Step? {
        RunStaysBounded(s, e.i, e.replies, H, names, most);
        RunDecreases(s, e.i, e.replies, H, names, most);
      } else {
        RescanIsNothing(s, e, H);
      }
      RescansFeedNothing(Apply(s, e, H), events[1..], H, names, most);
    }
  }
}
