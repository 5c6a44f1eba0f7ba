/**
  * A network of peers at the granularity of the database lock. Every call on the database is one
  * step, handlers work from copies read earlier, and steps of any handlers interleave.
  *
  * `held` collects every row value some handler of the peer has read or built and may still store,
  * so a step may use a copy of any age; `wire` every index entry ever sent, so entries may be lost,
  * repeated, reordered and relayed. `edits` records who edited which file at which counter.
  */
module Interleaving {
  import opened SyncTypes
  import opened Store
  import opened Transfer
  import opened IndexMerge
  import opened Reindex

  datatype Peer = Peer(db: Db, held: set<File>)
  datatype Net = Net(peers: map<u64, Peer>, wire: set<FileInfo>, edits: set<(u64, string, nat)>)

  datatype Step =
    | Read(p: u64)                                                  // a handler copies the rows
    | Create(p: u64, name: string, hash: Bytes, blocks: seq<Block>) // generate_index, a file its copy lacks
    | Edit(p: u64, f: File, hash: Bytes, blocks: seq<Block>)        // generate_index, a changed file
    | Adopt(p: u64, f: File, info: FileInfo)                        // handle_index, a longer history
    | AdoptNew(p: u64, info: FileInfo)                              // handle_index, a file its copy lacks
    | Mark(p: u64, f: File)                                         // get_file, after each block
    | Send(p: u64, f: File, blocks: seq<Block>)                     // send_index, one entry

  ghost predicate Enabled(s: Net, step: Step) {
    && step.p in s.peers
    && match step
       case Read(_) => true
       case Create(_, _, _, blocks) => blocks != []
       case Edit(p, f, _, blocks) =>
         f in s.peers[p].held && blocks != [] && f.versions != [] && !Behind(f) && Last(f.versions).counter < MAX_COUNTER
       case Adopt(p, f, info) =>
         f in s.peers[p].held && info in s.wire && f.name == info.name && WellFormed(info)
         && |f.versions| < Offer(info)
       case AdoptNew(p, info) => info in s.wire && WellFormed(info)
       case Mark(p, f) => f in s.peers[p].held && f.blocks != []
       case Send(p, f, blocks) => f in s.peers[p].held && blocks != []
  }

  /** Ids of held copies name rows that exist, of the same name. */
  ghost predicate Linked(peer: Peer) {
    forall f :: f in peer.held ==>
      f.id.Some? && f.id.value < |peer.db| && peer.db[f.id.value].name == f.name
  }

  /** Store a file at a peer, whatever comes of it, and keep the copy. */
  function StoreAt(s: Net, p: u64, f: File, keep: set<File>): Net
    requires p in s.peers && (f.id.Some? ==> f.id.value < |s.peers[p].db|)
  {
    s.(peers := s.peers[p := Peer(StoreFile(s.peers[p].db, f).db, s.peers[p].held + keep)])
  }

  /** The file a step stores, if it stores one. */
  ghost function Stores(step: Step): Option<File>
    requires step.Edit? ==> step.f.versions != [] && Last(step.f.versions).counter < MAX_COUNTER
    requires step.Adopt? || step.AdoptNew? ==> WellFormed(step.info)
  {
    match step
    case Create(p, name, hash, blocks) => Some(NewFile(p, name, hash, blocks))
    case Edit(p, f, hash, blocks) => Some(Edited(p, f, hash, blocks))
    case Adopt(_, f, info) => Some(Overwritten(f, info))
    case AdoptNew(_, info) => Some(FromEntry(info))
    case Mark(_, f) => Some(Marked(f))
    case _ => None
  }

  /** The edit a step puts on record. */
  function Records(step: Step): set<(u64, string, nat)>
    requires step.Edit? ==> step.f.versions != [] && Last(step.f.versions).counter < MAX_COUNTER
  {
    match step
    case Create(p, name, _, _) => {(p, name, 0)}
    case Edit(p, f, _, _) => {(p, f.name, Last(f.versions).counter + 1)}
    case _ => {}
  }

  ghost function Apply(s: Net, step: Step): Net
    requires Enabled(s, step) && Linked(s.peers[step.p])
  {
    match step
    case Read(p) => s.(peers := s.peers[p := s.peers[p].(held := s.peers[p].held + set f | f in s.peers[p].db)])
    case Send(p, f, blocks) => s.(wire := s.wire + {FileInfo(f.name, 0, Some(f.versions), blocks)})
    case _ =>
      var f := Stores(step).value;
      StoreAt(s, step.p, f, if step.Edit? || step.Adopt? then {f} else {}).(edits := s.edits + Records(step))
  }

  // ---------------------------------------------------------------------------
  // The inductive invariant
  // ---------------------------------------------------------------------------

  /** Non-empty, counters equal positions, and every entry was made by its author's edit at that position. */
  ghost predicate Genuine(versions: seq<Version>, name: string, edits: set<(u64, string, nat)>) {
    && versions != []
    && Positional(versions)
    && forall i :: 0 <= i < |versions| ==> (versions[i].author, name, i) in edits
  }

  ghost predicate GoodFile(f: File, edits: set<(u64, string, nat)>) {
    Genuine(f.versions, f.name, edits) && f.synced < |f.versions|
  }

  ghost predicate GoodRow(row: File, i: nat, edits: set<(u64, string, nat)>) {
    row.id == Some(i) && GoodFile(row, edits)
  }

  /** A held copy is no longer than the row it was read from. */
  ghost predicate GoodCopy(f: File, db: Db, edits: set<(u64, string, nat)>) {
    && GoodFile(f, edits)
    && f.id.Some? && f.id.value < |db|
    && db[f.id.value].name == f.name && |f.versions| <= |db[f.id.value].versions|
  }

  ghost predicate GoodPeer(peer: Peer, edits: set<(u64, string, nat)>) {
    && (forall i :: 0 <= i < |peer.db| ==> GoodRow(peer.db[i], i, edits))
    && (forall f :: f in peer.held ==> GoodCopy(f, peer.db, edits))
  }

  ghost predicate GoodEntry(info: FileInfo, edits: set<(u64, string, nat)>) {
    info.version.Some? && Genuine(info.version.value, info.name, edits) && info.blocks != []
  }

  ghost predicate Inv(s: Net) {
    && (forall p :: p in s.peers ==> GoodPeer(s.peers[p], s.edits))
    && (forall info :: info in s.wire ==> GoodEntry(info, s.edits))
  }

  lemma GoodPeerIsLinked(peer: Peer, edits: set<(u64, string, nat)>)
    requires GoodPeer(peer, edits)
    ensures Linked(peer)
  {
    forall f | f in peer.held ensures f.id.Some? && f.id.value < |peer.db| && peer.db[f.id.value].name == f.name {
      assert GoodCopy(f, peer.db, edits);
    }
  }

  lemma GenuineTail(stored: seq<Version>, given: seq<Version>, name: string, edits: set<(u64, string, nat)>)
    requires Genuine(stored, name, edits) && Genuine(given, name, edits) && |stored| <= |given|
    ensures Genuine(AppendTail(stored, given), name, edits)
  {
  }

  /** Storing a good file, new or built from a good copy of any age, leaves every row good, even when the store fails half way. */
  lemma StoreKeepsRowsGood(db: Db, f: File, edits: set<(u64, string, nat)>)
    requires forall i :: 0 <= i < |db| ==> GoodRow(db[i], i, edits)
    requires GoodFile(f, edits)
    requires f.id.Some? ==> f.id.value < |db| && db[f.id.value].name == f.name
    ensures var db' := StoreFile(db, f).db;
            && |db| <= |db'|
            && (forall i :: 0 <= i < |db'| ==> GoodRow(db'[i], i, edits))
            && (forall i :: 0 <= i < |db| ==> db[i].versions <= db'[i].versions && db'[i].name == db[i].name)
            && (f.id.Some? ==> |f.versions| <= |db'[f.id.value].versions|)
  {
    var db' := StoreFile(db, f).db;
    if f.id.Some? {
      var k := f.id.value;
      assert GoodRow(db[k], k, edits);
      if |db[k].versions| <= |f.versions| {
        GenuineTail(db[k].versions, f.versions, f.name, edits);
      }
      forall i | 0 <= i < |db| ensures GoodRow(db'[i], i, edits) {
        assert GoodRow(db[i], i, edits);
      }
    } else {
      forall i | 0 <= i < |db'| ensures GoodRow(db'[i], i, edits) {
        assert i < |db| ==> GoodRow(db[i], i, edits);
      }
    }
  }

  lemma StorePeerGood(peer: Peer, f: File, keep: set<File>, edits: set<(u64, string, nat)>)
    requires GoodPeer(peer, edits) && GoodFile(f, edits)
    requires f.id.Some? ==> f.id.value < |peer.db| && peer.db[f.id.value].name == f.name
    requires keep == {} || (keep == {f} && f.id.Some?)
    ensures GoodPeer(Peer(StoreFile(peer.db, f).db, peer.held + keep), edits)
  {
    StoreKeepsRowsGood(peer.db, f, edits);
    var db' := StoreFile(peer.db, f).db;
    forall g | g in peer.held + keep ensures GoodCopy(g, db', edits) {
      if g in peer.held {
        assert GoodCopy(g, peer.db, edits);
        assert peer.db[g.id.value].versions <= db'[g.id.value].versions;
      }
    }
  }

  /** More edits on record disturb nothing. */
  lemma MoreEdits(s: Net, edits: set<(u64, string, nat)>)
    requires Inv(s) && s.edits <= edits
    ensures Inv(s.(edits := edits))
  {
    forall p | p in s.peers ensures GoodPeer(s.peers[p], edits) {
      assert GoodPeer(s.peers[p], s.edits);
      forall i | 0 <= i < |s.peers[p].db| ensures GoodRow(s.peers[p].db[i], i, edits) {
        assert GoodRow(s.peers[p].db[i], i, s.edits);
      }
      forall f | f in s.peers[p].held ensures GoodCopy(f, s.peers[p].db, edits) {
        assert GoodCopy(f, s.peers[p].db, s.edits);
      }
    }
    forall info | info in s.wire ensures GoodEntry(info, edits) {
      assert GoodEntry(info, s.edits);
    }
  }

  lemma StoreAtKeepsInv(s: Net, p: u64, f: File, keep: set<File>)
    requires Inv(s) && p in s.peers && GoodFile(f, s.edits)
    requires f.id.Some? ==> f.id.value < |s.peers[p].db| && s.peers[p].db[f.id.value].name == f.name
    requires keep == {} || (keep == {f} && f.id.Some?)
    ensures Inv(StoreAt(s, p, f, keep))
  {
    StorePeerGood(s.peers[p], f, keep, s.edits);
  }

  /** Whatever a step stores is good, given the edit it records. */
  lemma StoredIsGood(s: Net, step: Step)
    requires Inv(s) && Enabled(s, step) && Stores(step).Some?
    ensures var f := Stores(step).value;
            && GoodFile(f, s.edits + Records(step))
            && (f.id.Some? ==> f.id.value < |s.peers[step.p].db| && s.peers[step.p].db[f.id.value].name == f.name)
            && (step.Edit? || step.Adopt? ==> f.id.Some?)
  {
    var p := step.p;
    assert GoodPeer(s.peers[p], s.edits);
    match step {
      case Edit(_, f, _, _) => assert GoodCopy(f, s.peers[p].db, s.edits);
      case Adopt(_, f, info) => assert GoodCopy(f, s.peers[p].db, s.edits) && GoodEntry(info, s.edits);
      case AdoptNew(_, info) => assert GoodEntry(info, s.edits);
      case Mark(_, f) => assert GoodCopy(f, s.peers[p].db, s.edits);
      case _ =>
    }
  }

  lemma StepKeepsInv(s: Net, step: Step)
    requires Inv(s) && Enabled(s, step)
    ensures Linked(s.peers[step.p]) && Inv(Apply(s, step))
  {
    var p := step.p;
    assert GoodPeer(s.peers[p], s.edits);
    GoodPeerIsLinked(s.peers[p], s.edits);
    match step {
      case Read(_) =>
        forall f | f in s.peers[p].db ensures GoodCopy(f, s.peers[p].db, s.edits) {
          var i :| 0 <= i < |s.peers[p].db| && s.peers[p].db[i] == f;
          assert GoodRow(s.peers[p].db[i], i, s.edits);
        }
      case Send(_, f, blocks) =>
        assert GoodCopy(f, s.peers[p].db, s.edits);
      case _ =>
        StoredIsGood(s, step);
        MoreEdits(s, s.edits + Records(step));
        var f := Stores(step).value;
        StoreAtKeepsInv(s.(edits := s.edits + Records(step)), p, f, if step.Edit? || step.Adopt? then {f} else {});
    }
  }

  // ---------------------------------------------------------------------------
  // Whole runs
  // ---------------------------------------------------------------------------

  ghost predicate Initial(s: Net) {
    && s.wire == {} && s.edits == {}
    && forall p :: p in s.peers ==> s.peers[p] == Peer([], {})
  }

  ghost predicate Runs(s: Net, steps: seq<Step>)
    requires Inv(s)
    decreases |steps|
  {
    steps == [] || (Enabled(s, steps[0]) && (StepKeepsInv(s, steps[0]); Runs(Apply(s, steps[0]), steps[1..])))
  }

  ghost function After(s: Net, steps: seq<Step>): Net
    requires Inv(s) && Runs(s, steps)
    decreases |steps|
  {
    if steps == [] then s else StepKeepsInv(s, steps[0]); After(Apply(s, steps[0]), steps[1..])
  }

  lemma {:induction false} RunsKeepInv(s: Net, steps: seq<Step>)
    requires Inv(s) && Runs(s, steps)
    ensures Inv(After(s, steps))
    decreases |steps|
  {
    if steps != [] {
      StepKeepsInv(s, steps[0]);
      RunsKeepInv(Apply(s, steps[0]), steps[1..]);
    }
  }

  /** A run made of one more step in front. */
  lemma RunCons(s: Net, step: Step, rest: seq<Step>)
    requires Inv(s) && Enabled(s, step) && Linked(s.peers[step.p])
    requires Inv(Apply(s, step)) && Runs(Apply(s, step), rest)
    ensures Runs(s, [step] + rest) && After(s, [step] + rest) == After(Apply(s, step), rest)
  {
    assert ([step] + rest)[1..] == rest;
  }

  lemma HeadFirst<T>(a: seq<T>, b: seq<T>)
    requires a != []
    ensures a + b == [a[0]] + (a[1..] + b)
  {
  }

  /** One run after another. */
  lemma {:induction false} RunsThen(s: Net, first: seq<Step>, rest: seq<Step>)
    requires Inv(s) && Runs(s, first) && Inv(After(s, first)) && Runs(After(s, first), rest)
    ensures Runs(s, first + rest) && After(s, first + rest) == After(After(s, first), rest)
    decreases |first|
  {
    if first == [] {
      assert first + rest == rest;
    } else {
      StepKeepsInv(s, first[0]);
      RunsThen(Apply(s, first[0]), first[1..], rest);
      RunCons(s, first[0], first[1..] + rest);
      HeadFirst(first, rest);
    }
  }

  ghost predicate IsRun(start: Net, steps: seq<Step>, s: Net) {
    Initial(start) && Inv(start) && Runs(start, steps) && After(start, steps) == s
  }

  /** Some run from empty peers ends here. */
  ghost predicate Reachable(s: Net) {
    exists start: Net, steps: seq<Step> :: IsRun(start, steps, s)
  }

  lemma InitialIsReachable(s: Net)
    requires Initial(s)
    ensures Inv(s) && Reachable(s)
  {
    InitialIsInv(s);
    assert IsRun(s, [], s);
  }

  lemma StepReaches(s: Net, step: Step)
    requires Reachable(s) && Enabled(s, step)
    ensures Inv(s) && Linked(s.peers[step.p]) && Inv(Apply(s, step)) && Reachable(Apply(s, step))
  {
    var start, steps :| IsRun(start, steps, s);
    RunsKeepInv(start, steps);
    StepKeepsInv(s, step);
    assert [step][1..] == [];
    RunsThen(start, steps, [step]);
    assert IsRun(start, steps + [step], Apply(s, step));
  }

  /**
    * In every state reachable at lock granularity, every history stored, held in a copy or in flight
    * is non-empty, its i-th counter is i, each entry was made by its author's own edit of that file
    * at that position, and no row or copy claims a synced version it does not list.
    */
  lemma ReachableIsGenuine(s: Net, steps: seq<Step>, p: u64)
    requires Initial(s) && Inv(s) && Runs(s, steps)
    ensures var s' := After(s, steps);
            && (p in s'.peers ==>
                  && (forall i :: 0 <= i < |s'.peers[p].db| ==> GoodRow(s'.peers[p].db[i], i, s'.edits))
                  && (forall f :: f in s'.peers[p].held ==> GoodFile(f, s'.edits)))
            && (forall info :: info in s'.wire ==> GoodEntry(info, s'.edits))
  {
    RunsKeepInv(s, steps);
    var s' := After(s, steps);
    if p in s'.peers {
      assert GoodPeer(s'.peers[p], s'.edits);
      forall f | f in s'.peers[p].held ensures GoodFile(f, s'.edits) {
        assert GoodCopy(f, s'.peers[p].db, s'.edits);
      }
    }
  }

  /** An initial network satisfies the invariant, so every run from it is covered. */
  lemma InitialIsInv(s: Net)
    requires Initial(s)
    ensures Inv(s)
  {
    forall p | p in s.peers ensures GoodPeer(s.peers[p], s.edits) {
    }
  }

  /** With counters equal to positions, comparing lengths, as the merge does, is comparing newest versions. */
  lemma LengthTestIsVersionTest(a: seq<Version>, b: seq<Version>)
    requires a != [] && b != [] && Positional(a) && Positional(b)
    ensures |a| >= |b| <==> Last(a).counter >= Last(b).counter
  {
  }

  /** Every row of `before` is still there, under the same name, with at least its history. */
  ghost predicate Extends(before: Net, after: Net) {
    && before.peers.Keys == after.peers.Keys
    && before.edits <= after.edits && before.wire <= after.wire
    && forall p :: p in before.peers ==> DbExtends(before.peers[p].db, after.peers[p].db)
  }

  ghost predicate DbExtends(before: Db, after: Db) {
    && |before| <= |after|
    && forall i :: 0 <= i < |before| ==> before[i].versions <= after[i].versions && before[i].name == after[i].name
  }

  lemma StoreExtends(db: Db, f: File)
    requires f.id.Some? ==> f.id.value < |db| && db[f.id.value].name == f.name
    ensures DbExtends(db, StoreFile(db, f).db)
  {
  }

  lemma StepExtends(s: Net, step: Step)
    requires Inv(s) && Enabled(s, step)
    ensures Linked(s.peers[step.p]) && Extends(s, Apply(s, step))
  {
    StepKeepsInv(s, step);
    forall p | p in s.peers ensures p in Apply(s, step).peers && DbExtends(s.peers[p].db, Apply(s, step).peers[p].db) {
      PeerExtends(s, step, p);
    }
  }

  lemma PeerExtends(s: Net, step: Step, p: u64)
    requires Inv(s) && Enabled(s, step) && Linked(s.peers[step.p]) && p in s.peers
    ensures p in Apply(s, step).peers && DbExtends(s.peers[p].db, Apply(s, step).peers[p].db)
  {
    if p == step.p && Stores(step).Some? {
      StoredIsGood(s, step);
      StoreExtends(s.peers[p].db, Stores(step).value);
    }
  }

  /** Histories are append-only: over any run, stale stores and failing assertions included, every stored history stays a prefix of what it becomes. */
  lemma {:induction false} HistoriesOnlyGrow(s: Net, steps: seq<Step>)
    requires Inv(s) && Runs(s, steps)
    ensures Extends(s, After(s, steps))
    decreases |steps|
  {
    if steps != [] {
      StepKeepsInv(s, steps[0]);
      StepExtends(s, steps[0]);
      var s1 := Apply(s, steps[0]);
      HistoriesOnlyGrow(s1, steps[1..]);
      var s' := After(s, steps);
      forall p | p in s.peers ensures DbExtends(s.peers[p].db, s'.peers[p].db) {
        assert DbExtends(s.peers[p].db, s1.peers[p].db) && DbExtends(s1.peers[p].db, s'.peers[p].db);
      }
    }
  }

  // ---------------------------------------------------------------------------
  // One writer
  // ---------------------------------------------------------------------------

  /** Every edit of this file so far was made at w. */
  ghost predicate OnlyWriter(s: Net, w: u64, name: string) {
    forall p: u64, i: nat :: (p, name, i) in s.edits ==> p == w
  }

  /** Genuine histories of a file with one writer differ in length only. */
  lemma OneWriterPrefix(a: seq<Version>, b: seq<Version>, s: Net, w: u64, name: string)
    requires OnlyWriter(s, w, name) && Genuine(a, name, s.edits) && Genuine(b, name, s.edits)
    requires |a| <= |b|
    ensures a <= b
  {
    forall i | 0 <= i < |a| ensures a[i] == b[i] {
      assert (a[i].author, name, i) in s.edits && (b[i].author, name, i) in s.edits;
    }
  }

  /** Some row of the writer is at least this long. */
  ghost predicate WriterHas(s: Net, w: u64, name: string, length: nat) {
    w in s.peers && exists i :: 0 <= i < |s.peers[w].db| && WriterRow(s.peers[w].db[i], name, length)
  }

  ghost predicate WriterRow(row: File, name: string, length: nat) {
    row.name == name && length <= |row.versions|
  }

  /** No row and no entry in flight is longer than the writer's. */
  ghost predicate WriterAhead(s: Net, w: u64, name: string) {
    && (forall p, i :: p in s.peers && 0 <= i < |s.peers[p].db| && s.peers[p].db[i].name == name ==>
          WriterHas(s, w, name, |s.peers[p].db[i].versions|))
    && (forall info :: info in s.wire && info.name == name ==> WriterHas(s, w, name, Offer(info)))
  }

  lemma WriterHasStays(before: Net, after: Net, w: u64, name: string, length: nat)
    requires Extends(before, after) && WriterHas(before, w, name, length)
    ensures WriterHas(after, w, name, length)
  {
    var i :| 0 <= i < |before.peers[w].db| && WriterRow(before.peers[w].db[i], name, length);
    assert DbExtends(before.peers[w].db, after.peers[w].db);
    assert WriterRow(after.peers[w].db[i], name, length);
  }

  /** A row named `name` that a store has touched is no longer than the row before or the file stored. */
  lemma StoredLength(db: Db, f: File, i: nat)
    requires f.id.Some? ==> f.id.value < |db| && db[f.id.value].name == f.name
    requires i < |StoreFile(db, f).db|
    ensures var row := StoreFile(db, f).db[i];
            || (i < |db| && row.name == db[i].name && |row.versions| == |db[i].versions|)
            || (row.name == f.name && |row.versions| == |f.versions|)
  {
  }

  lemma CopyWithinWriter(s: Net, p: u64, f: File, w: u64, name: string)
    requires Inv(s) && WriterAhead(s, w, name) && p in s.peers && f in s.peers[p].held && f.name == name
    ensures WriterHas(s, w, name, |f.versions|)
  {
    assert GoodPeer(s.peers[p], s.edits);
    assert GoodCopy(f, s.peers[p].db, s.edits);
    var row := s.peers[p].db[f.id.value];
    assert WriterHas(s, w, name, |row.versions|);
    var i :| 0 <= i < |s.peers[w].db| && WriterRow(s.peers[w].db[i], name, |row.versions|);
    assert WriterRow(s.peers[w].db[i], name, |f.versions|);
  }

  /** Away from the writer, a step stores no history longer than the writer's. */
  lemma StoredWithinWriter(s: Net, step: Step, w: u64, name: string)
    requires Inv(s) && Enabled(s, step) && WriterAhead(s, w, name) && Stores(step).Some?
    requires Linked(s.peers[step.p]) && OnlyWriter(Apply(s, step), w, name)
    requires Stores(step).value.name == name
    ensures step.p == w || WriterHas(s, w, name, |Stores(step).value.versions|)
  {
    match step {
      case Mark(p, f) => CopyWithinWriter(s, p, f, w, name);
      case Adopt(_, f, info) => assert info in s.wire && info.name == name;
      case AdoptNew(_, info) => assert info in s.wire && info.name == name;
      case _ => RecordedByItsPeer(s, step);
    }
  }

  /** A step that makes a version of its own puts it on record for its peer. */
  lemma RecordedByItsPeer(s: Net, step: Step)
    requires Enabled(s, step) && Linked(s.peers[step.p]) && (step.Create? || step.Edit?)
    ensures exists i: nat :: (step.p, Stores(step).value.name, i) in Apply(s, step).edits
  {
    var i := if step.Create? then 0 else Last(step.f.versions).counter + 1;
    assert (step.p, Stores(step).value.name, i) in Records(step);
    assert (step.p, Stores(step).value.name, i) in Apply(s, step).edits;
  }

  lemma RowWithinWriter(s: Net, step: Step, w: u64, name: string, q: u64, i: nat)
    requires Inv(s) && Enabled(s, step) && WriterAhead(s, w, name)
    requires Linked(s.peers[step.p]) && OnlyWriter(Apply(s, step), w, name)
    requires q in s.peers && i < |Apply(s, step).peers[q].db| && Apply(s, step).peers[q].db[i].name == name
    ensures WriterHas(Apply(s, step), w, name, |Apply(s, step).peers[q].db[i].versions|)
  {
    var s' := Apply(s, step);
    var row := s'.peers[q].db[i];
    StepExtends(s, step);
    if q == w {
      assert WriterRow(row, name, |row.versions|);
    } else {
      if q == step.p && Stores(step).Some? {
        var f := Stores(step).value;
        StoredIsGood(s, step);
        StoredLength(s.peers[q].db, f, i);
        if f.name == name {
          StoredWithinWriter(s, step, w, name);
        }
      }
      assert WriterHas(s, w, name, |row.versions|);
      WriterHasStays(s, s', w, name, |row.versions|);
    }
  }

  lemma StepKeepsWriterAhead(s: Net, step: Step, w: u64, name: string)
    requires Inv(s) && Enabled(s, step) && WriterAhead(s, w, name)
    requires Linked(s.peers[step.p]) && OnlyWriter(Apply(s, step), w, name)
    ensures WriterAhead(Apply(s, step), w, name)
  {
    var s' := Apply(s, step);
    StepExtends(s, step);
    forall q, i | q in s'.peers && 0 <= i < |s'.peers[q].db| && s'.peers[q].db[i].name == name
      ensures WriterHas(s', w, name, |s'.peers[q].db[i].versions|)
    {
      RowWithinWriter(s, step, w, name, q, i);
    }
    forall info | info in s'.wire && info.name == name ensures WriterHas(s', w, name, Offer(info)) {
      if info !in s.wire {
        CopyWithinWriter(s, step.p, step.f, w, name);
      }
      WriterHasStays(s, s', w, name, Offer(info));
    }
  }

  lemma {:induction false} RunsKeepWriterAhead(s: Net, steps: seq<Step>, w: u64, name: string)
    requires Inv(s) && Runs(s, steps) && WriterAhead(s, w, name)
    requires OnlyWriter(After(s, steps), w, name)
    ensures WriterAhead(After(s, steps), w, name)
    decreases |steps|
  {
    if steps != [] {
      StepKeepsInv(s, steps[0]);
      var s1 := Apply(s, steps[0]);
      HistoriesOnlyGrow(s1, steps[1..]);
      StepKeepsWriterAhead(s, steps[0], w, name);
      RunsKeepWriterAhead(s1, steps[1..], w, name);
    }
  }

  /** The history is a prefix of one the writer stores. */
  ghost predicate PrefixOfWriter(s: Net, w: u64, name: string, versions: seq<Version>) {
    w in s.peers && exists i :: 0 <= i < |s.peers[w].db| && s.peers[w].db[i].name == name && versions <= s.peers[w].db[i].versions
  }

  lemma WithinIsPrefix(s: Net, w: u64, name: string, versions: seq<Version>)
    requires Inv(s) && OnlyWriter(s, w, name)
    requires Genuine(versions, name, s.edits) && WriterHas(s, w, name, |versions|)
    ensures PrefixOfWriter(s, w, name, versions)
  {
    var i :| 0 <= i < |s.peers[w].db| && WriterRow(s.peers[w].db[i], name, |versions|);
    assert GoodPeer(s.peers[w], s.edits) && GoodRow(s.peers[w].db[i], i, s.edits);
    OneWriterPrefix(versions, s.peers[w].db[i].versions, s, w, name);
  }

  lemma RowFollowsWriter(s: Net, w: u64, name: string, p: u64, i: nat)
    requires Inv(s) && OnlyWriter(s, w, name) && WriterAhead(s, w, name)
    requires p in s.peers && i < |s.peers[p].db| && s.peers[p].db[i].name == name
    ensures PrefixOfWriter(s, w, name, s.peers[p].db[i].versions)
  {
    assert GoodPeer(s.peers[p], s.edits) && GoodRow(s.peers[p].db[i], i, s.edits);
    WithinIsPrefix(s, w, name, s.peers[p].db[i].versions);
  }

  lemma CopyFollowsWriter(s: Net, w: u64, name: string, p: u64, f: File)
    requires Inv(s) && OnlyWriter(s, w, name) && WriterAhead(s, w, name)
    requires p in s.peers && f in s.peers[p].held && f.name == name
    ensures PrefixOfWriter(s, w, name, f.versions)
  {
    assert GoodPeer(s.peers[p], s.edits) && GoodCopy(f, s.peers[p].db, s.edits);
    CopyWithinWriter(s, p, f, w, name);
    WithinIsPrefix(s, w, name, f.versions);
  }

  lemma EntryFollowsWriter(s: Net, w: u64, name: string, info: FileInfo)
    requires Inv(s) && OnlyWriter(s, w, name) && WriterAhead(s, w, name)
    requires info in s.wire && info.name == name
    ensures info.version.Some? && PrefixOfWriter(s, w, name, info.version.value)
  {
    assert GoodEntry(info, s.edits);
    WithinIsPrefix(s, w, name, info.version.value);
  }

  /** Every history of the file, stored, copied or in flight, is a prefix of one the writer stores. */
  ghost predicate FollowsWriter(s: Net, w: u64, name: string) {
    && (forall p, i :: p in s.peers && 0 <= i < |s.peers[p].db| && s.peers[p].db[i].name == name ==>
          PrefixOfWriter(s, w, name, s.peers[p].db[i].versions))
    && (forall p, f :: p in s.peers && f in s.peers[p].held && f.name == name ==>
          PrefixOfWriter(s, w, name, f.versions))
    && (forall info :: info in s.wire && info.name == name ==>
          info.version.Some? && PrefixOfWriter(s, w, name, info.version.value))
  }

  /**
    * If only w ever edited a file then, at lock granularity, every history of it stored anywhere, held
    * in any copy or in flight is a prefix of one that w stores: relaying never corrupts it.
    */
  lemma SingleWriter(s: Net, steps: seq<Step>, w: u64, name: string)
    requires Initial(s) && Inv(s) && Runs(s, steps) && OnlyWriter(After(s, steps), w, name)
    ensures FollowsWriter(After(s, steps), w, name)
  {
    RunsKeepInv(s, steps);
    RunsKeepWriterAhead(s, steps, w, name);
    var s' := After(s, steps);
    forall p, i | p in s'.peers && 0 <= i < |s'.peers[p].db| && s'.peers[p].db[i].name == name
      ensures PrefixOfWriter(s', w, name, s'.peers[p].db[i].versions)
    {
      RowFollowsWriter(s', w, name, p, i);
    }
    forall p, f | p in s'.peers && f in s'.peers[p].held && f.name == name
      ensures PrefixOfWriter(s', w, name, f.versions)
    {
      CopyFollowsWriter(s', w, name, p, f);
    }
    forall info | info in s'.wire && info.name == name
      ensures info.version.Some? && PrefixOfWriter(s', w, name, info.version.value)
    {
      EntryFollowsWriter(s', w, name, info);
    }
  }

  /** With one writer, inserting only the missing tail stores exactly the history adopted, however old the copy was. */
  lemma AdoptionIsExact(s: Net, step: Step, w: u64)
    requires Inv(s) && step.Adopt? && Enabled(s, step) && OnlyWriter(s, w, step.info.name)
    ensures Linked(s.peers[step.p]) && step.f.id.Some? && step.f.id.value < |s.peers[step.p].db|
    ensures var stored := s.peers[step.p].db[step.f.id.value].versions;
            |stored| <= Offer(step.info) ==>
              Apply(s, step).peers[step.p].db[step.f.id.value].versions == step.info.version.value
  {
    StepKeepsInv(s, step);
    var p, f, info := step.p, step.f, step.info;
    assert GoodPeer(s.peers[p], s.edits);
    assert GoodCopy(f, s.peers[p].db, s.edits) && GoodEntry(info, s.edits);
    var row := s.peers[p].db[f.id.value];
    assert GoodRow(row, f.id.value, s.edits);
    if |row.versions| <= Offer(info) {
      OneWriterPrefix(row.versions, info.version.value, s, w, info.name);
      StoredHistoryIffExtends(s.peers[p].db, Overwritten(f, info));
    }
  }
}
