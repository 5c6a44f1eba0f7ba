/**
  * What gossip cannot repair. Once histories agree in length everywhere nothing more is exchanged,
  * whatever the files hold; and an index sent by a peer that is not current leads there.
  */
module Divergence {
  import opened SyncTypes
  import opened Store
  import opened Storage
  import opened Blocks
  import opened Transfer
  import opened IndexMerge
  import opened Reindex
  import opened Download
  import opened Gossip
  import opened Progress
  import opened Convergence

  // ---------------------------------------------------------------------------
  // Equal lengths freeze the network
  // ---------------------------------------------------------------------------

  /** All histories agree in length, no download is pending, and no index in flight offers more. */
  ghost predicate Frozen(s: Net) {
    && Valid(s)
    && (forall p, q, name :: 0 <= p < |s.nodes| && 0 <= q < |s.nodes| ==> LenOf(s.nodes[p].db, name) == LenOf(s.nodes[q].db, name))
    && (forall t :: t in s.tasks ==> !t.Pull? && (t.Deliver? ==> OffersNoMore(s, t)))
  }

  ghost predicate OffersNoMore(s: Net, t: Task)
    requires t.Deliver?
  {
    t.dst < |s.nodes| && forall name :: OfferedLen(t.index, name) <= LenOf(s.nodes[t.dst].db, name)
  }

  lemma NothingMoreIsUnchanged(db: Db, index: seq<FileInfo>)
    requires ValidDb(db) && WellFormedIndex(index)
    requires forall name :: OfferedLen(index, name) <= LenOf(db, name)
    ensures Handled(db, index).ok && !Handled(db, index).changed && Handled(db, index).db == db
  {
    HandledLength(db, index, "");
    HandledChangedIff(db, index);
    forall k | 0 <= k < |index| ensures Offer(index[k]) <= LenOf(db, index[k].name) {
      assert FindInfo(index, index[k].name) == k;
      assert OfferedLen(index, index[k].name) <= LenOf(db, index[k].name);
    }
    UnchangedMergeStoresNothing(db, index);
  }

  lemma SentOffersNoMore(s: Net, p: nat, q: nat, H: HashFn)
    requires Frozen(s) && p < |s.nodes| && q < |s.nodes| && BuildIndex(s.nodes[p].db, s.nodes[p].disk, H).Some?
    ensures OffersNoMore(s, Deliver(p, q, BuildIndex(s.nodes[p].db, s.nodes[p].disk, H).value))
  {
    var index := BuildIndex(s.nodes[p].db, s.nodes[p].disk, H).value;
    forall name ensures OfferedLen(index, name) <= LenOf(s.nodes[q].db, name) {
      IndexCarriesHistories(s.nodes[p].db, s.nodes[p].disk, H, name);
      assert LenOf(s.nodes[p].db, name) == LenOf(s.nodes[q].db, name);
    }
  }

  /** No task changes a frozen network: whatever differs between its peers stays different. */
  lemma FrozenStaysFrozen(s: Net, i: nat, replies: Replies, H: HashFn)
    requires Frozen(s) && i < |s.tasks|
    ensures var s' := RunTask(s, i, replies, H).net;
            Frozen(s') && s'.nodes == s.nodes && s'.links == s.links
  {
    RunKeepsValid(s, i, replies, H);
    var t, s' := s.tasks[i], RunTask(s, i, replies, H).net;
    assert t in s.tasks && TaskInRange(t, |s.nodes|);
    match t {
      case Send(p, q) =>
        if BuildIndex(s.nodes[p].db, s.nodes[p].disk, H).Some? {
          SentOffersNoMore(s, p, q, H);
        }
      case Deliver(_, q, index) =>
        assert OffersNoMore(s, t);
        NothingMoreIsUnchanged(s.nodes[q].db, index);
        assert s'.nodes == s.nodes;
      case Pull(_, _) =>
    }
    forall u | u in s'.tasks ensures !u.Pull? && (u.Deliver? ==> OffersNoMore(s', u)) {
      InRemove(s.tasks, i, u);
      assert u.Deliver? && u in s.tasks ==> OffersNoMore(s, u);
    }
  }

  function Sends(tasks: seq<Task>): nat {
    if tasks == [] then 0 else (if tasks[0].Send? then 1 else 0) + Sends(tasks[1..])
  }

  lemma {:induction false} SendsThenDeliver(tasks: seq<Task>, t: Task)
    requires t.Deliver?
    ensures Sends(tasks + [t]) == Sends(tasks)
  {
    if tasks == [] {
      assert [t][1..] == [];
    } else {
      assert (tasks + [t])[1..] == tasks[1..] + [t];
      SendsThenDeliver(tasks[1..], t);
    }
  }

  /** A download of the event is answered by the peer that sent the index. */
  ghost predicate Honest(s: Net, e: Event, H: HashFn) {
    e.Step? && e.i < |s.tasks| && s.tasks[e.i].Pull? && s.tasks[e.i].src < |s.nodes| ==>
      e.replies == HonestPeer(s.nodes[s.tasks[e.i].src].disk, H)
  }

  ghost predicate HonestRun(s: Net, events: seq<Event>, H: HashFn)
    requires Valid(s) && Runs(s, events, H)
    decreases |events|
  {
    events == [] ||
    (Honest(s, events[0], H) && (ApplyKeepsValid(s, events[0], H); HonestRun(Apply(s, events[0], H), events[1..], H)))
  }

  /** A run made of one more event in front. */
  lemma RunsAfter(s: Net, e: Event, rest: seq<Event>, H: HashFn)
    requires Valid(s) && Allowed(s, e, H) && Valid(Apply(s, e, H)) && Runs(Apply(s, e, H), rest, H)
    requires Honest(s, e, H) && HonestRun(Apply(s, e, H), rest, H)
    ensures Runs(s, [e] + rest, H) && After(s, [e] + rest, H) == After(Apply(s, e, H), rest, H)
    ensures HonestRun(s, [e] + rest, H)
  {
    assert ([e] + rest)[1..] == rest;
  }

  /** A frozen network whose files can all be read comes to rest as it is. */
  lemma {:induction false} FrozenComesToRest(s: Net, H: HashFn) returns (events: seq<Event>)
    requires Frozen(s)
    requires forall p :: 0 <= p < |s.nodes| ==> BuildIndex(s.nodes[p].db, s.nodes[p].disk, H).Some?
    ensures Runs(s, events, H) && HonestRun(s, events, H)
    ensures After(s, events, H) == s.(tasks := [])
    decreases Sends(s.tasks), |s.tasks|
  {
    if s.tasks == [] {
      events := [];
    } else {
      var s' := RunTask(s, 0, SILENCE, H).net;
      FrozenStaysFrozen(s, 0, SILENCE, H);
      FirstTaskDone(s, H);
      events := FrozenComesToRest(s', H);
      RunsAfter(s, Step(0, SILENCE), events, H);
      events := [Step(0, SILENCE)] + events;
    }
  }

  lemma FirstTaskDone(s: Net, H: HashFn)
    requires Frozen(s) && s.tasks != []
    requires forall p :: 0 <= p < |s.nodes| ==> BuildIndex(s.nodes[p].db, s.nodes[p].disk, H).Some?
    ensures var r := RunTask(s, 0, SILENCE, H);
            && r.done
            && Sends(r.net.tasks) <= Sends(s.tasks)
            && (Sends(r.net.tasks) < Sends(s.tasks) || |r.net.tasks| < |s.tasks|)
  {
    var t := s.tasks[0];
    assert TaskInRange(t, |s.nodes|) && t in s.tasks;
    assert Remove(s.tasks, 0) == s.tasks[1..];
    match t {
      case Send(p, q) =>
        SendsThenDeliver(s.tasks[1..], Deliver(p, q, BuildIndex(s.nodes[p].db, s.nodes[p].disk, H).value));
      case Deliver(_, q, index) =>
        assert OffersNoMore(s, t);
        NothingMoreIsUnchanged(s.nodes[q].db, index);
      case Pull(_, _) =>
    }
  }

  // ---------------------------------------------------------------------------
  // Relaying before downloading
  // ---------------------------------------------------------------------------

  /**
    * What a receiver with a shorter history adopts from an index has, for good, the true blocks exactly
    * when the sender's row was current: a later index of no greater length is ignored.
    */
  lemma StaleRelaySticksIff(sender: Node, receiver: Db, i: nat, later: seq<FileInfo>, truth: Truth, H: HashFn)
    requires TrueNode(sender, truth, H) && i < |sender.db| && BuildIndex(sender.db, sender.disk, H).Some?
    requires ValidDb(receiver) && LenOf(receiver, sender.db[i].name) < |sender.db[i].versions|
    requires WellFormedIndex(later) && OfferedLen(later, sender.db[i].name) <= |sender.db[i].versions|
    ensures var name, index := sender.db[i].name, BuildIndex(sender.db, sender.disk, H).value;
            && WellFormedIndex(index)
            && ValidDb(Handled(receiver, index).db)
            && var row := RowOf(Handled(Handled(receiver, index).db, later).db, name);
               && row.Some?
               && |row.value.versions| == |sender.db[i].versions|
               && (BlocksOf(truth(name, |row.value.versions|), H) == Some(row.value.blocks) <==>
                   CurrentRow(sender.db[i], sender.disk, H))
  {
    var name, index := sender.db[i].name, BuildIndex(sender.db, sender.disk, H).value;
    IndexCarriesHistories(sender.db, sender.disk, H, name);
    UniqueRow(sender.db, i);
    assert index[i].name == name;
    assert FindInfo(index, name) == i;
    assert TrueRow(sender.db[i], sender.disk, truth, H);
    HandledPayload(receiver, index, name);
    HandledLength(receiver, index, name);
    HandledPayload(Handled(receiver, index).db, later, name);
    HandledLength(Handled(receiver, index).db, later, name);
    BlocksAreOrdered(sender.disk[name], H);
    SortedReadBack(index[i].blocks);
  }

  // ---------------------------------------------------------------------------
  // A run in which it happens
  // ---------------------------------------------------------------------------

  // Three peers in a row. The first has changed a file the second holds; the third has nothing. The
  // second merges the change, then serves the third, and downloads the change only after that.

  /** A content and the blocks it is cut into. */
  datatype Piece = Piece(data: Bytes, blocks: seq<Block>)

  ghost predicate IsCut(c: Piece, H: HashFn) {
    Splittable(c.data) && BlocksOf(c.data, H) == Some(c.blocks)
  }

  datatype Fork = Fork(H: HashFn, first: Piece, second: Piece)

  ghost predicate Forked(f: Fork) {
    && CollisionFree(f.H) && HasBlocks(f)
    && IsCut(f.first, f.H) && IsCut(f.second, f.H)
    && |f.first.data| <= |f.second.data| && f.first.data != f.second.data
  }

  predicate HasBlocks(f: Fork) {
    f.first.blocks != [] && f.second.blocks != []
  }

  const NAME := "a"
  const OLD_HISTORY: seq<Version> := [Version(1, 0)]
  const NEW_HISTORY: seq<Version> := [Version(1, 0), Version(1, 1)]

  function OldRow(f: Fork): File {
    File(Some(0), NAME, f.H(f.first.data), 1, 0, OLD_HISTORY, f.first.blocks)
  }

  function NewRow(f: Fork): File {
    File(Some(0), NAME, f.H(f.second.data), 1, 1, NEW_HISTORY, f.second.blocks)
  }

  function NewInfo(c: Piece): FileInfo {
    FileInfo(NAME, 0, Some(NEW_HISTORY), c.blocks)
  }

  /** The row under the new history as an entry with this content gives it. */
  function TakenRow(c: Piece): File
    requires c.blocks != []
  {
    File(Some(0), NAME, c.blocks[0].hash, 0, 0, NEW_HISTORY, c.blocks)
  }

  function Holding(data: Bytes): Disk {
    map[NAME := data]
  }

  lemma CutIsOrdered(c: Piece, H: HashFn)
    requires IsCut(c, H)
    ensures c.blocks != [] && OffsetOrdered(c.blocks)
  {
    BlocksAreOrdered(c.data, H);
  }

  lemma OneRowIndex(row: File, c: Piece, H: HashFn)
    requires IsCut(c, H) && row.name == NAME
    ensures BuildIndex([row], Holding(c.data), H) == Some([FileInfo(NAME, 0, Some(row.versions), c.blocks)])
  {
    var disk := Holding(c.data);
    assert Sendable([row][0], disk, H);
    var index := BuildIndex([row], disk, H).value;
    assert |index| == 1 && index[0] == InfoFor(row, disk, H);
    assert index == [index[0]];
  }

  /** Merging one entry into an empty database, or into one with a shorter row of that name. */
  lemma OneRowMerge(db: Db, info: FileInfo)
    requires WellFormed(info) && ValidDb(db)
    requires db == [] || (|db| == 1 && db[0].name == info.name && |db[0].versions| < Offer(info))
    ensures var m := Handled(db, [info]);
            m.ok && m.changed && m.db == if db == [] then [Newcomer(info, 0)] else [Adopted(db[0], info)]
  {
    ValidIsSnapshot(db);
    assert forall k :: 0 <= k < |[info]| ==> AgreeOn(db, db, [info][k].name);
    MergeFilesIsMergeRows(Merge(db, db, false, true), [info]);
    assert [info][1..] == [];
    assert MergeRows(db, [info]) == MergeRow(db, info);
    HandledChangedIff(db, [info]);
    assert LenOf(db, [info][0].name) < Offer([info][0]);
  }

  lemma AnswersAreAcceptable(row: File, c: Piece, H: HashFn, j: nat)
    requires IsCut(c, H) && row.name == NAME && row.blocks == c.blocks && j < |row.blocks|
    ensures Refusal(row.blocks[j], AnswersFor(HonestPeer(Holding(c.data), H), row)(j), H).None?
    ensures row.blocks[j].offset >= 0
  {
    HonestAnswer(c.data, Holding(c.data), row, j, H);
    assert AnswersFor(HonestPeer(Holding(c.data), H), row)(j) == HonestReplies(Holding(c.data), row, H)(j);
    OffsetInFile(c.data, j);
    assert row.blocks[j] == BlockAt(c.data, j, H);
  }

  lemma OneFileFetch(row: File, disk: Disk, c: Piece, H: HashFn)
    requires CollisionFree(H) && IsCut(c, H) && ValidDb([row]) && row.name == NAME && row.blocks == c.blocks
    ensures row.id == Some(0)
    ensures FetchFile([row], disk, row, AnswersFor(HonestPeer(Holding(c.data), H), row), H) ==
            Fetch(Ok, [Marked(row)], disk[NAME := Overlay(c.data, Content(disk, NAME))])
  {
    var answers := AnswersFor(HonestPeer(Holding(c.data), H), row);
    assert ValidRow([row][0], 0);
    CutIsOrdered(c, H);
    forall j | 0 <= j < |row.blocks| ensures Refusal(row.blocks[j], answers(j), H).None? && row.blocks[j].offset >= 0 {
      AnswersAreAcceptable(row, c, H, j);
    }
    FetchOkIff([row], disk, row, 0, answers, H);
    FetchedIsCopied([row], disk, row, answers, H, c.data);
    assert [row][0 := Marked(row)] == [Marked(row)];
  }

  /** Downloading the one row from a peer that holds its content. */
  lemma OneRowFetch(row: File, disk: Disk, c: Piece, H: HashFn)
    requires CollisionFree(H) && IsCut(c, H) && ValidDb([row]) && row.name == NAME
    requires row.blocks == c.blocks && Wanted(row, disk)
    ensures FetchDirectory([row], disk, HonestPeer(Holding(c.data), H), H) ==
            Fetch(Ok, [Marked(row)], disk[NAME := Overlay(c.data, Content(disk, NAME))])
  {
    OneFileFetch(row, disk, c, H);
    ValidIsSnapshot([row]);
    var replies := HonestPeer(Holding(c.data), H);
    var r := FetchFile([row], disk, row, AnswersFor(replies, row), H);
    assert [row][0] == row;
    assert FetchRows(r.db, r.disk, [row], 1, replies, H) == Fetch(Ok, r.db, r.disk);
    assert FetchRows([row], disk, [row], 0, replies, H) == FetchRows(r.db, r.disk, [row], 1, replies, H);
  }

  function Learner(f: Fork, k: nat): Node
    requires HasBlocks(f)
  {
    if k <= 2 then Node(2, [OldRow(f)], Holding(f.first.data))
    else if k <= 7 then Node(2, [TakenRow(f.second)], Holding(f.first.data))
    else Node(2, [Marked(TakenRow(f.second))], Holding(f.second.data))
  }

  function Follower(f: Fork, k: nat): Node
    requires HasBlocks(f)
  {
    if k <= 5 then Node(3, [], map[])
    else if k == 6 then Node(3, [TakenRow(f.first)], map[])
    else Node(3, [Marked(TakenRow(f.first))], Holding(f.first.data))
  }

  function TasksAt(f: Fork, k: nat): seq<Task>
    requires HasBlocks(f) && k <= 8
  {
    match k
    case 0 => []
    case 1 => [Send(0, 1), Send(1, 0)]
    case 2 => [Send(1, 0), Deliver(0, 1, [NewInfo(f.second)])]
    case 3 => [Send(1, 0), Pull(1, 0)]
    case 4 => [Send(1, 0), Pull(1, 0), Send(1, 2), Send(2, 1)]
    case 5 => [Send(1, 0), Pull(1, 0), Send(2, 1), Deliver(1, 2, [NewInfo(f.first)])]
    case 6 => [Send(1, 0), Pull(1, 0), Send(2, 1), Pull(2, 1)]
    case 7 => [Send(1, 0), Pull(1, 0), Send(2, 1), Send(2, 1)]
    case 8 => [Send(1, 0), Send(2, 1), Send(2, 1), Send(1, 0), Send(1, 2)]
  }

  const NEAR: seq<(nat, nat)> := [(0, 1), (1, 0)]
  const FAR: seq<(nat, nat)> := [(1, 2), (2, 1)]

  function ForkAt(f: Fork, k: nat): Net
    requires HasBlocks(f) && k <= 8
  {
    Net([Node(1, [NewRow(f)], Holding(f.second.data)), Learner(f, k), Follower(f, k)],
        if k == 0 then [] else if k <= 3 then NEAR else NEAR + FAR,
        TasksAt(f, k))
  }

  function Source(c: Piece, H: HashFn): Replies {
    HonestPeer(Holding(c.data), H)
  }

  function EventAt(f: Fork, k: nat): Event
    requires k < 8
  {
    match k
    case 0 => Connect(0, 1)
    case 1 => Step(0, SILENCE)
    case 2 => Step(1, SILENCE)
    case 3 => Connect(1, 2)
    case 4 => Step(2, SILENCE)
    case 5 => Step(3, SILENCE)
    case 6 => Step(3, Source(f.first, f.H))
    case 7 => Step(1, Source(f.second, f.H))
  }

  lemma OneRowIsValid(row: File)
    requires row.id == Some(0) && row.versions != [] && OffsetOrdered(row.blocks)
    ensures ValidDb([row]) && UniqueNames([row])
  {
  }

  lemma ForkStartsValid(f: Fork)
    requires Forked(f)
    ensures Valid(ForkAt(f, 0))
  {
    assert ValidDb([NewRow(f)]) && UniqueNames([NewRow(f)]) by {
      CutIsOrdered(f.second, f.H);
      OneRowIsValid(NewRow(f));
    }
    assert ValidDb([OldRow(f)]) && UniqueNames([OldRow(f)]) by {
      CutIsOrdered(f.first, f.H);
      OneRowIsValid(OldRow(f));
    }
    assert ValidDb([]) && UniqueNames([]);
  }

  lemma ForkConnects(f: Fork, k: nat)
    requires Forked(f) && (k == 0 || k == 3) && Valid(ForkAt(f, k))
    ensures Allowed(ForkAt(f, k), EventAt(f, k), f.H) && Apply(ForkAt(f, k), EventAt(f, k), f.H) == ForkAt(f, k + 1)
  {
  }

  lemma ForkSends(f: Fork, k: nat)
    requires Forked(f) && (k == 1 || k == 4) && Valid(ForkAt(f, k))
    ensures Allowed(ForkAt(f, k), EventAt(f, k), f.H) && Apply(ForkAt(f, k), EventAt(f, k), f.H) == ForkAt(f, k + 1)
  {
    if k == 1 {
      OneRowIndex(NewRow(f), f.second, f.H);
      assert Remove(TasksAt(f, 1), 0) == [Send(1, 0)];
    } else {
      OneRowIndex(TakenRow(f.second), f.first, f.H);
      assert Remove(TasksAt(f, 4), 2) == [Send(1, 0), Pull(1, 0), Send(2, 1)];
    }
  }

  lemma TailCompletes(stored: seq<Version>, given: seq<Version>)
    requires stored <= given
    ensures AppendTail(stored, given) == given
  {
    assert stored == given[..|stored|];
  }

  /** An entry whose history continues the row's, with its blocks in order, is taken as it is. */
  lemma TakenAsGiven(row: File, info: FileInfo)
    requires WellFormed(info) && |row.versions| < Offer(info) && row.versions <= info.version.value
    requires OffsetOrdered(info.blocks)
    ensures Adopted(row, info) == Overwritten(row, info)
  {
    SortedReadBack(info.blocks);
    TailCompletes(row.versions, info.version.value);
  }

  lemma TakenByOld(f: Fork)
    requires Forked(f)
    ensures WellFormed(NewInfo(f.second)) && |OldRow(f).versions| < Offer(NewInfo(f.second))
    ensures Adopted(OldRow(f), NewInfo(f.second)) == TakenRow(f.second)
  {
    CutIsOrdered(f.second, f.H);
    TakenAsGiven(OldRow(f), NewInfo(f.second));
  }

  lemma TakenByNone(f: Fork)
    requires Forked(f)
    ensures WellFormed(NewInfo(f.first)) && Newcomer(NewInfo(f.first), 0) == TakenRow(f.first)
  {
    CutIsOrdered(f.first, f.H);
    SortedReadBack(f.first.blocks);
  }

  /** A delivery that changes its receiver's database, as a step. */
  lemma DeliveryLeads(s: Net, i: nat, replies: Replies, node: Node, H: HashFn)
    requires Valid(s) && i < |s.tasks| && s.tasks[i].Deliver? && s.tasks[i].dst < |s.nodes|
    requires var m := Handled(s.nodes[s.tasks[i].dst].db, s.tasks[i].index);
             m.ok && m.changed && node == s.nodes[s.tasks[i].dst].(db := m.db)
    ensures Allowed(s, Step(i, replies), H)
    ensures Apply(s, Step(i, replies), H) == Net(s.nodes[s.tasks[i].dst := node], s.links,
                                        Remove(s.tasks, i) + [Pull(s.tasks[i].dst, s.tasks[i].src)])
  {
    assert TaskInRange(s.tasks[i], |s.nodes|);
  }

  lemma NearMerge(f: Fork)
    requires Forked(f) && ValidDb([OldRow(f)])
    ensures var m := Handled([OldRow(f)], [NewInfo(f.second)]); m.ok && m.changed && m.db == [TakenRow(f.second)]
  {
    TakenByOld(f);
    OneRowMerge([OldRow(f)], NewInfo(f.second));
  }

  lemma NearStage(f: Fork)
    requires Forked(f)
    ensures var s, disk := ForkAt(f, 2), Holding(f.first.data);
            s.nodes[1] == Node(2, [OldRow(f)], disk) && s.tasks[1] == Deliver(0, 1, [NewInfo(f.second)]) &&
            ForkAt(f, 3) == Net(s.nodes[1 := Node(2, [TakenRow(f.second)], disk)], s.links,
                                Remove(s.tasks, 1) + [Pull(1, 0)])
  {
    var s := ForkAt(f, 2);
    assert Remove(TasksAt(f, 2), 1) == [Send(1, 0)];
    assert s.nodes[1 := Learner(f, 3)] == ForkAt(f, 3).nodes;
  }

  lemma ForkDeliversNear(f: Fork)
    requires Forked(f) && Valid(ForkAt(f, 2))
    ensures Allowed(ForkAt(f, 2), Step(1, SILENCE), f.H) && Apply(ForkAt(f, 2), Step(1, SILENCE), f.H) == ForkAt(f, 3)
  {
    NearStage(f);
    assert ValidDb(ForkAt(f, 2).nodes[1].db);
    NearMerge(f);
    DeliveryLeads(ForkAt(f, 2), 1, SILENCE, Node(2, [TakenRow(f.second)], Holding(f.first.data)), f.H);
  }

  lemma FarMerge(f: Fork)
    requires Forked(f)
    ensures var m := Handled([], [NewInfo(f.first)]); m.ok && m.changed && m.db == [TakenRow(f.first)]
  {
    TakenByNone(f);
    OneRowMerge([], NewInfo(f.first));
  }

  lemma FarStage(f: Fork)
    requires Forked(f)
    ensures var s := ForkAt(f, 5);
            s.nodes[2] == Node(3, [], map[]) && s.tasks[3] == Deliver(1, 2, [NewInfo(f.first)]) &&
            ForkAt(f, 6) == Net(s.nodes[2 := Node(3, [TakenRow(f.first)], map[])], s.links,
                                Remove(s.tasks, 3) + [Pull(2, 1)])
  {
    var s := ForkAt(f, 5);
    assert Remove(TasksAt(f, 5), 3) == [Send(1, 0), Pull(1, 0), Send(2, 1)];
    assert s.nodes[2 := Follower(f, 6)] == ForkAt(f, 6).nodes;
  }

  lemma ForkDeliversFar(f: Fork)
    requires Forked(f) && Valid(ForkAt(f, 5))
    ensures Allowed(ForkAt(f, 5), Step(3, SILENCE), f.H) && Apply(ForkAt(f, 5), Step(3, SILENCE), f.H) == ForkAt(f, 6)
  {
    FarStage(f);
    FarMerge(f);
    DeliveryLeads(ForkAt(f, 5), 3, SILENCE, Node(3, [TakenRow(f.first)], map[]), f.H);
  }

  lemma TakenIsValid(c: Piece, H: HashFn)
    requires IsCut(c, H)
    ensures c.blocks != [] && ValidDb([TakenRow(c)])
  {
    CutIsOrdered(c, H);
    OneRowIsValid(TakenRow(c));
  }

  lemma BroadcastFrom(p: nat, link: (nat, nat), rest: seq<(nat, nat)>)
    ensures Broadcast(p, [link] + rest) == (if link.0 == p then [Send(p, link.1)] else []) + Broadcast(p, rest)
  {
    assert ([link] + rest)[1..] == rest;
  }

  lemma ForkBroadcast(p: nat)
    requires p == 1 || p == 2
    ensures Broadcast(p, NEAR + FAR) == if p == 2 then [Send(2, 1)] else [Send(1, 0), Send(1, 2)]
  {
    BroadcastFrom(p, (2, 1), []);
    BroadcastFrom(p, (1, 2), [(2, 1)] + []);
    BroadcastFrom(p, (1, 0), [(1, 2)] + ([(2, 1)] + []));
    BroadcastFrom(p, (0, 1), [(1, 0)] + ([(1, 2)] + ([(2, 1)] + [])));
    assert NEAR + FAR == [(0, 1)] + ([(1, 0)] + ([(1, 2)] + ([(2, 1)] + [])));
  }

  lemma FarFetch(f: Fork)
    requires Forked(f)
    ensures ValidDb([TakenRow(f.first)])
    ensures FetchDirectory([TakenRow(f.first)], map[], HonestPeer(Holding(f.first.data), f.H), f.H) ==
            Fetch(Ok, [Marked(TakenRow(f.first))], Holding(f.first.data))
  {
    TakenIsValid(f.first, f.H);
    OneRowFetch(TakenRow(f.first), map[], f.first, f.H);
    assert Overlay(f.first.data, []) == f.first.data;
  }

  lemma NearFetch(f: Fork)
    requires Forked(f)
    ensures ValidDb([TakenRow(f.second)])
    ensures FetchDirectory([TakenRow(f.second)], Holding(f.first.data), HonestPeer(Holding(f.second.data), f.H), f.H) ==
            Fetch(Ok, [Marked(TakenRow(f.second))], Holding(f.second.data))
  {
    TakenIsValid(f.second, f.H);
    OneRowFetch(TakenRow(f.second), Holding(f.first.data), f.second, f.H);
    assert Overlay(f.second.data, f.first.data) == f.second.data;
    assert Holding(f.first.data)[NAME := f.second.data] == Holding(f.second.data);
  }

  /** A download that ends well, as a step. */
  lemma DownloadLeads(s: Net, i: nat, replies: Replies, node: Node, H: HashFn)
    requires Valid(s) && i < |s.tasks| && s.tasks[i].Pull? && s.tasks[i].me < |s.nodes| && s.tasks[i].src < |s.nodes|
    requires var n := s.nodes[s.tasks[i].me];
             node.id == n.id &&
             FetchDirectory(n.db, n.disk, replies, H) == Fetch(Ok, node.db, node.disk)
    ensures Allowed(s, Step(i, replies), H)
    ensures Apply(s, Step(i, replies), H) == Net(s.nodes[s.tasks[i].me := node], s.links,
                                        Remove(s.tasks, i) + Broadcast(s.tasks[i].me, s.links))
  {
    assert TaskInRange(s.tasks[i], |s.nodes|);
  }

  lemma ForkPullsFar(f: Fork)
    requires Forked(f) && Valid(ForkAt(f, 6))
    ensures var e := Step(3, Source(f.first, f.H));
            Allowed(ForkAt(f, 6), e, f.H) && Apply(ForkAt(f, 6), e, f.H) == ForkAt(f, 7)
  {
    var s := ForkAt(f, 6);
    assert s.nodes[2] == Follower(f, 6) && s.nodes[1].disk == Holding(f.first.data);
    FarFetch(f);
    DownloadLeads(s, 3, Source(f.first, f.H), Follower(f, 7), f.H);
    ForkBroadcast(2);
    assert Remove(TasksAt(f, 6), 3) == [Send(1, 0), Pull(1, 0), Send(2, 1)];
    assert s.nodes[2 := Follower(f, 7)] == ForkAt(f, 7).nodes;
  }

  lemma ForkPullsNear(f: Fork)
    requires Forked(f) && Valid(ForkAt(f, 7))
    ensures var e := Step(1, Source(f.second, f.H));
            Allowed(ForkAt(f, 7), e, f.H) && Apply(ForkAt(f, 7), e, f.H) == ForkAt(f, 8)
  {
    var s := ForkAt(f, 7);
    assert s.nodes[1] == Learner(f, 7) && s.nodes[0].disk == Holding(f.second.data);
    NearFetch(f);
    DownloadLeads(s, 1, Source(f.second, f.H), Learner(f, 8), f.H);
    ForkBroadcast(1);
    assert Remove(TasksAt(f, 7), 1) == [Send(1, 0), Send(2, 1), Send(2, 1)];
    assert s.nodes[1 := Learner(f, 8)] == ForkAt(f, 8).nodes;
  }

  lemma ForkStep(f: Fork, k: nat)
    requires Forked(f) && k < 8 && Valid(ForkAt(f, k))
    ensures Allowed(ForkAt(f, k), EventAt(f, k), f.H)
    ensures Apply(ForkAt(f, k), EventAt(f, k), f.H) == ForkAt(f, k + 1) && Valid(ForkAt(f, k + 1))
  {
    if k == 0 || k == 3 {
      ForkConnects(f, k);
    } else if k == 1 || k == 4 {
      ForkSends(f, k);
    } else if k == 2 {
      ForkDeliversNear(f);
    } else if k == 5 {
      ForkDeliversFar(f);
    } else if k == 6 {
      ForkPullsFar(f);
    } else {
      ForkPullsNear(f);
    }
    ApplyKeepsValid(ForkAt(f, k), EventAt(f, k), f.H);
  }

  lemma ForkIsHonest(f: Fork, k: nat)
    requires Forked(f) && k < 8
    ensures Honest(ForkAt(f, k), EventAt(f, k), f.H)
  {
  }

  /** The k-th event leads on to the rest of the run. */
  lemma ForkGoesOn(f: Fork, k: nat, rest: seq<Event>)
    requires Forked(f) && k < 8 && Valid(ForkAt(f, k)) && Valid(ForkAt(f, k + 1))
    requires Runs(ForkAt(f, k + 1), rest, f.H) && HonestRun(ForkAt(f, k + 1), rest, f.H)
    ensures var events := [EventAt(f, k)] + rest;
            && Runs(ForkAt(f, k), events, f.H) && HonestRun(ForkAt(f, k), events, f.H)
            && After(ForkAt(f, k), events, f.H) == After(ForkAt(f, k + 1), rest, f.H)
  {
    ForkStep(f, k);
    ForkIsHonest(f, k);
    RunsAfter(ForkAt(f, k), EventAt(f, k), rest, f.H);
  }

  lemma {:induction false} ForkRuns(f: Fork, k: nat) returns (events: seq<Event>)
    requires Forked(f) && k <= 8 && Valid(ForkAt(f, k))
    ensures Runs(ForkAt(f, k), events, f.H) && HonestRun(ForkAt(f, k), events, f.H)
    ensures After(ForkAt(f, k), events, f.H) == ForkAt(f, 8).(tasks := [])
    decreases 8 - k
  {
    if k == 8 {
      ForkIsFrozen(f);
      events := FrozenComesToRest(ForkAt(f, 8), f.H);
    } else {
      ForkStep(f, k);
      events := ForkRuns(f, k + 1);
      ForkGoesOn(f, k, events);
      events := [EventAt(f, k)] + events;
    }
  }

  lemma ForkIsFrozen(f: Fork)
    requires Forked(f) && Valid(ForkAt(f, 8))
    ensures Frozen(ForkAt(f, 8))
    ensures forall p :: 0 <= p < 3 ==> BuildIndex(ForkAt(f, 8).nodes[p].db, ForkAt(f, 8).nodes[p].disk, f.H).Some?
  {
    ForkLengthsAgree(f);
    OneRowIndex(NewRow(f), f.second, f.H);
    OneRowIndex(Marked(TakenRow(f.second)), f.second, f.H);
    OneRowIndex(Marked(TakenRow(f.first)), f.first, f.H);
  }

  lemma ForkLengthsAgree(f: Fork)
    requires Forked(f)
    ensures var nodes := ForkAt(f, 8).nodes;
            forall p, q, name :: 0 <= p < 3 && 0 <= q < 3 ==> LenOf(nodes[p].db, name) == LenOf(nodes[q].db, name)
  {
    forall p, name | 0 <= p < 3
      ensures LenOf(ForkAt(f, 8).nodes[p].db, name) == if name == NAME then 2 else 0
    {
      OneRowLength(ForkAt(f, 8).nodes[p].db[0], name);
    }
  }

  lemma OneRowLength(row: File, name: string)
    ensures LenOf([row], name) == if row.name == name then |row.versions| else 0
  {
    assert [row][0] == row;
  }

  /** The content of the file at each length of its history, had every peer kept to it. */
  function ForkTruth(f: Fork): Truth {
    (name: string, n: nat) => if n <= 1 then f.first.data else f.second.data
  }

  /** The peer that serves the third before downloading is not current then. */
  lemma ForkRelayIsStale(f: Fork)
    requires Forked(f)
    ensures !Current(ForkAt(f, 4).nodes[1], f.H)
  {
    var node := ForkAt(f, 4).nodes[1];
    if CurrentRow(node.db[0], node.disk, f.H) {
      BlocksDetermine(f.first.data, f.second.data, f.H);
      assert false;
    }
  }

  /**
    * A run without failures and with honest answers, from peers that all hold true rows, comes to rest with two connected peers
    * that agree on the history and differ in the bytes, after a send by a peer that was not current.
    */
  lemma StaleRelayDiverges(f: Fork) returns (events: seq<Event>)
    requires Forked(f)
    ensures TasksAt(f, 4)[2] == Send(1, 2) && !Current(ForkAt(f, 4).nodes[1], f.H)
    ensures var s := ForkAt(f, 0);
            && Initial(s) && TrueNet(s, ForkTruth(f), f.H) && Runs(s, events, f.H) && HonestRun(s, events, f.H)
            && var s' := After(s, events, f.H);
               && s' == ForkAt(f, 8).(tasks := []) && |s'.nodes| == 3 && Joined(s', [1, 2])
               && (forall name :: LenAt(s', 1, name) == LenAt(s', 2, name))
               && s'.nodes[1].disk == Holding(f.second.data) && s'.nodes[2].disk == Holding(f.first.data)
               && s'.nodes[1].disk != s'.nodes[2].disk
  {
    ForkStartsValid(f);
    ForkStartsTrue(f);
    ForkRelayIsStale(f);
    events := ForkRuns(f, 0);
    ForkEnds(f);
  }

  lemma ForkEnds(f: Fork)
    requires Forked(f)
    ensures var s' := ForkAt(f, 8).(tasks := []);
            && Joined(s', [1, 2]) && (forall name :: LenAt(s', 1, name) == LenAt(s', 2, name))
            && s'.nodes[1].disk != s'.nodes[2].disk
  {
    var links := ForkAt(f, 8).links;
    assert links[2] == (1, 2) && links[3] == (2, 1);
    assert Holding(f.first.data)[NAME] != Holding(f.second.data)[NAME];
  }

  lemma OneRowNodeIsTrue(node: Node, row: File, truth: Truth, H: HashFn)
    requires node.db == [row] && node.disk.Keys == {row.name} && ValidDb(node.db) && UniqueNames(node.db)
    requires TrueRow(row, node.disk, truth, H) && !Wanted(row, node.disk)
    ensures TrueNode(node, truth, H) && NothingWanted(node)
  {
    forall name | name in node.disk ensures RowOf(node.db, name).Some? {
      assert node.db[0].name == name;
    }
  }

  lemma SyncedRowIsTrue(row: File, c: Piece, truth: Truth, H: HashFn)
    requires IsCut(c, H) && row.name == NAME && row.blocks == c.blocks
    requires CountedRow(row) && row.synced == |row.versions| - 1 && truth(NAME, |row.versions|) == c.data
    ensures TrueRow(row, Holding(c.data), truth, H) && !Wanted(row, Holding(c.data))
  {
  }

  lemma LeaderIsTrue(f: Fork)
    requires Forked(f) && Valid(ForkAt(f, 0))
    ensures TrueNode(ForkAt(f, 0).nodes[0], ForkTruth(f), f.H) && NothingWanted(ForkAt(f, 0).nodes[0])
  {
    SyncedRowIsTrue(NewRow(f), f.second, ForkTruth(f), f.H);
    OneRowNodeIsTrue(ForkAt(f, 0).nodes[0], NewRow(f), ForkTruth(f), f.H);
  }

  lemma LearnerIsTrue(f: Fork)
    requires Forked(f) && Valid(ForkAt(f, 0))
    ensures TrueNode(Learner(f, 0), ForkTruth(f), f.H) && NothingWanted(Learner(f, 0))
  {
    SyncedRowIsTrue(OldRow(f), f.first, ForkTruth(f), f.H);
    assert ForkAt(f, 0).nodes[1] == Learner(f, 0);
    OneRowNodeIsTrue(Learner(f, 0), OldRow(f), ForkTruth(f), f.H);
  }

  lemma ForkStartsTrue(f: Fork)
    requires Forked(f) && Valid(ForkAt(f, 0))
    ensures TrueNet(ForkAt(f, 0), ForkTruth(f), f.H)
  {
    LeaderIsTrue(f);
    LearnerIsTrue(f);
    assert TrueNode(Follower(f, 0), ForkTruth(f), f.H) && NothingWanted(Follower(f, 0));
  }
}
