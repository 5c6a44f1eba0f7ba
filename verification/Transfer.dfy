/** Serving blocks, fetching a file block by block, and what the pair amounts to: copying the file. */
module Transfer {
  import opened SyncTypes
  import opened Store
  import opened Storage
  import opened Blocks

  datatype Code = NoError | Generic | NoSuchFile | InvalidFile | Unknown

  datatype Request = Request(name: string, offset: int, size: int, hash: Bytes)

  /** What a requester gets for one block request; `NoReply` when the connection ends first. */
  datatype Reply = Reply(code: Code, data: Bytes) | NoReply

  datatype CommandError = ConnectionClosed | FileInvalid | FileMissing | Other

  /** `Panicked` is a failed assertion or unwrap. */
  datatype Outcome = Ok | Err(error: CommandError) | Panicked

  // ---------------------------------------------------------------------------
  // The responder
  // ---------------------------------------------------------------------------

  /**
    * `handle_request` for a shared folder. A negative size becomes a huge allocation, so no reply;
    * a negative offset becomes an unseekable one.
    */
  function Serve(disk: Disk, r: Request, H: HashFn): Reply {
    if r.offset < 0 || r.name !in disk then Reply(NoSuchFile, [])
    else if r.size < 0 then NoReply
    else
      match ReadAt(disk[r.name], r.offset, r.size)
      case None => Reply(NoSuchFile, [])
      case Some(data) =>
        if r.hash != [] && H(data) != r.hash then Reply(InvalidFile, data) else Reply(NoError, data)
  }

  /** The file holds every byte the request asks for. */
  predicate Holds(disk: Disk, r: Request) {
    r.name in disk && 0 <= r.offset && 0 <= r.size && (r.size == 0 || r.offset + r.size <= |disk[r.name]|)
  }

  /**
    * The answer is NoError exactly for bytes that are there and have the hash asked for, InvalidFile exactly
    * for bytes that are there and have another, both with those bytes, and NoSuchFile without any otherwise.
    * Only a negative size can leave the request without an answer.
    */
  method HandleRequest(storage: LocalStorage, r: Request, H: HashFn) returns (reply: Reply)
    ensures reply == Serve(storage.disk, r, H)
    ensures Holds(storage.disk, r) ==> reply.Reply? && |reply.data| == r.size
    ensures Holds(storage.disk, r) && r.size > 0 ==> reply.data == storage.disk[r.name][r.offset..r.offset + r.size]
    ensures reply.Reply? && reply.code == NoError <==>
            Holds(storage.disk, r) && (r.hash == [] || H(reply.data) == r.hash)
    ensures reply.Reply? && reply.code == InvalidFile <==>
            Holds(storage.disk, r) && r.hash != [] && H(reply.data) != r.hash
    ensures reply == Reply(NoSuchFile, []) <==>
            if r.size >= 0 then !Holds(storage.disk, r) else r.offset < 0 || r.name !in storage.disk
    ensures reply == NoReply <==> r.size < 0 && r.offset >= 0 && r.name in storage.disk
  {
    if r.offset < 0 || r.name !in storage.disk {
      return Reply(NoSuchFile, []);
    }
    if r.size < 0 {
      return NoReply;
    }
    var data := storage.ReadBlock(r.name, r.offset, r.size);
    if data.None? {
      return Reply(NoSuchFile, []);
    }
    if r.hash != [] && H(data.value) != r.hash {
      return Reply(InvalidFile, data.value);
    }
    reply := Reply(NoError, data.value);
  }

  // ---------------------------------------------------------------------------
  // The requester
  // ---------------------------------------------------------------------------

  function RequestFor(f: File, k: nat): Request
    requires k < |f.blocks|
  {
    Request(f.name, f.blocks[k].offset, f.blocks[k].size, f.blocks[k].hash)
  }

  /** Why a reply is not usable for a block, if it is not. */
  function Refusal(b: Block, reply: Reply, H: HashFn): Option<CommandError> {
    match reply
    case NoReply => Some(ConnectionClosed)
    case Reply(NoError, data) => if H(data) != b.hash then Some(FileInvalid) else None
    case Reply(NoSuchFile, _) => Some(FileMissing)
    case Reply(InvalidFile, _) => Some(FileInvalid)
    case Reply(Generic, _) => Some(Other)
    case Reply(Unknown, _) => Some(Other)
  }

  function Marked(f: File): File {
    f.(synced := IndexVersion(f))
  }

  datatype Fetch = Fetch(outcome: Outcome, db: Db, disk: Disk)

  /** The loop of `get_file` from block k on: check, write, mark the row synced, next. */
  function FetchFrom(db: Db, disk: Disk, f: File, k: nat, replies: nat -> Reply, H: HashFn): (r: Fetch)
    requires f.id.Some? && f.id.value < |db|
    requires k <= |f.blocks|
    ensures |r.db| == |db|
    decreases |f.blocks| - k
  {
    if k == |f.blocks| then Fetch(Ok, db, disk)
    else
      var b := f.blocks[k];
      match Refusal(b, replies(k), H)
      case Some(e) => Fetch(Err(e), db, disk)
      case None =>
        if b.offset < 0 then Fetch(Panicked, db, disk)
        else
          var disk' := disk[f.name := WriteAt(Content(disk, f.name), b.offset, replies(k).data)];
          match StoreFile(db, Marked(f))
          case Asserted(db') => Fetch(Panicked, db', disk')
          case Stored(db') => FetchFrom(db', disk', f, k + 1, replies, H)
  }

  function FetchFile(db: Db, disk: Disk, f: File, replies: nat -> Reply, H: HashFn): (r: Fetch)
    requires f.id.Some? && f.id.value < |db|
    ensures |r.db| == |db|
  {
    if f.blocks == [] then Fetch(Err(Other), db, disk) else FetchFrom(db, disk, f, 0, replies, H)
  }

  method GetFile(state: BepState, storage: LocalStorage, f: File, replies: nat -> Reply, H: HashFn)
    returns (outcome: Outcome)
    requires state.Valid()
    requires f.id.Some? && f.id.value < |state.Rows()|
    modifies state, storage
    ensures state.Valid()
    ensures Fetch(outcome, state.Rows(), storage.disk) == FetchFile(old(state.Rows()), old(storage.disk), f, replies, H)
  {
    if f.blocks == [] {
      return Err(Other);
    }
    ghost var db0, disk0 := state.Rows(), storage.disk;
    for k := 0 to |f.blocks|
      invariant state.Valid() && |state.Rows()| == |db0|
      invariant FetchFrom(db0, disk0, f, 0, replies, H) == FetchFrom(state.Rows(), storage.disk, f, k, replies, H)
    {
      var b := f.blocks[k];
      var reply := replies(k);
      match reply {
        case NoReply => return Err(ConnectionClosed);
        case Reply(NoError, data) =>
          if H(data) != b.hash {
            return Err(FileInvalid);
          }
          if b.offset < 0 {
            return Panicked;
          }
          storage.WriteBlock(f.name, b.offset, data);
          var syncFile := f.(synced := IndexVersion(f));
          var stored := state.UpdateSyncFile(syncFile);
          if !stored {
            return Panicked;
          }
        case Reply(NoSuchFile, _) => return Err(FileMissing);
        case Reply(InvalidFile, _) => return Err(FileInvalid);
        case Reply(Generic, _) => return Err(Other);
        case Reply(Unknown, _) => return Err(Other);
      }
    }
    outcome := Ok;
  }

  // ---------------------------------------------------------------------------
  // What a fetch does to the row
  // ---------------------------------------------------------------------------

  /** Marking a current row rewrites its synced version and nothing else. */
  lemma MarkCurrentRow(db: Db, f: File)
    requires ValidDb(db)
    requires f.id.Some? && f.id.value < |db| && Marked(f) == Marked(db[f.id.value])
    ensures StoreFile(db, Marked(f)) == Stored(db[f.id.value := Marked(f)])
    ensures ValidDb(db[f.id.value := Marked(f)])
  {
    if f.blocks != [] {
      StoreReadBack(db, Marked(f));
    } else {
      StoredHistoryIffExtends(db, Marked(f));
    }
  }

  /**
    * A fetch of a current row ends Ok exactly when every block is answered acceptably, and then the row
    * is synced. Only a negative offset can make it panic: no store assertion can fail.
    */
  lemma {:induction false} FetchOkIff(db: Db, disk: Disk, f: File, k: nat, replies: nat -> Reply, H: HashFn)
    requires ValidDb(db)
    requires f.id.Some? && f.id.value < |db| && Marked(f) == Marked(db[f.id.value])
    requires k <= |f.blocks|
    ensures var r := FetchFrom(db, disk, f, k, replies, H);
            && (r.outcome == Ok <==>
                forall j :: k <= j < |f.blocks| ==> Refusal(f.blocks[j], replies(j), H).None? && f.blocks[j].offset >= 0)
            && (r.outcome == Ok && k < |f.blocks| ==> r.db == db[f.id.value := Marked(f)])
            && (r.db == db || r.db == db[f.id.value := Marked(f)])
            && (r.outcome == Panicked ==> exists j :: k <= j < |f.blocks| && f.blocks[j].offset < 0)
    decreases |f.blocks| - k
  {
    if k < |f.blocks| && Refusal(f.blocks[k], replies(k), H).None? && f.blocks[k].offset >= 0 {
      MarkCurrentRow(db, f);
      var db' := db[f.id.value := Marked(f)];
      var disk' := disk[f.name := WriteAt(Content(disk, f.name), f.blocks[k].offset, replies(k).data)];
      FetchOkIff(db', disk', f, k + 1, replies, H);
      assert db'[f.id.value := Marked(f)] == db';
    }
  }

  // ---------------------------------------------------------------------------
  // How a fetch ends
  // ---------------------------------------------------------------------------

  /** Only these bytes are written: answered without error, with the block's hash. */
  predicate Acceptable(b: Block, reply: Reply, H: HashFn) {
    reply.Reply? && reply.code == NoError && H(reply.data) == b.hash
  }

  /** It is written where the block says, if that is a place. */
  predicate Usable(b: Block, reply: Reply, H: HashFn) {
    Acceptable(b, reply, H) && b.offset >= 0
  }

  /** The j-th block is the first at which the fetch stops. */
  ghost predicate StopsAt(f: File, replies: nat -> Reply, H: HashFn, j: nat) {
    && j < |f.blocks| && !Usable(f.blocks[j], replies(j), H)
    && forall i :: 0 <= i < j ==> Usable(f.blocks[i], replies(i), H)
  }

  lemma {:induction false} FetchStopsAt(db: Db, disk: Disk, f: File, k: nat, replies: nat -> Reply, H: HashFn, j: nat)
    requires ValidDb(db) && f.id.Some? && f.id.value < |db| && Marked(f) == Marked(db[f.id.value])
    requires StopsAt(f, replies, H, j) && k <= j
    ensures var refusal := Refusal(f.blocks[j], replies(j), H);
            FetchFrom(db, disk, f, k, replies, H).outcome == if refusal.Some? then Err(refusal.value) else Panicked
    decreases j - k
  {
    if k < j {
      MarkCurrentRow(db, f);
      var db' := db[f.id.value := Marked(f)];
      var disk' := disk[f.name := WriteAt(Content(disk, f.name), f.blocks[k].offset, replies(k).data)];
      assert Usable(f.blocks[k], replies(k), H);
      FetchStopsAt(db', disk', f, k + 1, replies, H, j);
    }
  }

  /** What the caller is told of the answer at which the fetch stops. */
  lemma FetchFailsAs(db: Db, disk: Disk, f: File, replies: nat -> Reply, H: HashFn, j: nat)
    requires ValidDb(db) && f.id.Some? && f.id.value < |db| && Marked(f) == Marked(db[f.id.value])
    requires StopsAt(f, replies, H, j)
    ensures var reply, outcome := replies(j), FetchFile(db, disk, f, replies, H).outcome;
            && (outcome == Panicked <==> Acceptable(f.blocks[j], reply, H))
            && (outcome == Err(ConnectionClosed) <==> reply.NoReply?)
            && (outcome == Err(FileMissing) <==> reply.Reply? && reply.code == NoSuchFile)
            && (outcome == Err(FileInvalid) <==>
                reply.Reply? && (reply.code == InvalidFile || (reply.code == NoError && H(reply.data) != f.blocks[j].hash)))
            && (outcome == Err(Other) <==> reply.Reply? && (reply.code == Generic || reply.code == Unknown))
  {
    FetchStopsAt(db, disk, f, 0, replies, H, j);
  }

  lemma {:induction false} FindStop(f: File, replies: nat -> Reply, H: HashFn, k: nat) returns (j: nat)
    requires k <= |f.blocks| && forall i :: 0 <= i < k ==> Usable(f.blocks[i], replies(i), H)
    ensures j <= |f.blocks|
    ensures if j < |f.blocks| then StopsAt(f, replies, H, j)
            else forall i :: 0 <= i < |f.blocks| ==> Usable(f.blocks[i], replies(i), H)
    decreases |f.blocks| - k
  {
    if k == |f.blocks| || !Usable(f.blocks[k], replies(k), H) {
      j := k;
    } else {
      j := FindStop(f, replies, H, k + 1);
    }
  }

  /** The fetch stops at the j-th block, whose answer has this code. */
  ghost predicate RefusedWith(f: File, replies: nat -> Reply, H: HashFn, j: nat, code: Code) {
    StopsAt(f, replies, H, j) && replies(j).Reply? && replies(j).code == code && !Acceptable(f.blocks[j], replies(j), H)
  }

  ghost predicate Unanswered(f: File, replies: nat -> Reply, H: HashFn, j: nat) {
    StopsAt(f, replies, H, j) && replies(j).NoReply?
  }

  ghost predicate Nowhere(f: File, replies: nat -> Reply, H: HashFn, j: nat) {
    StopsAt(f, replies, H, j) && Acceptable(f.blocks[j], replies(j), H)
  }

  /** How a fetch of a current row ends, by the first block at which it stops; one at a negative offset makes it panic. */
  lemma FetchEndsIff(db: Db, disk: Disk, f: File, replies: nat -> Reply, H: HashFn)
    requires ValidDb(db) && f.id.Some? && f.id.value < |db| && Marked(f) == Marked(db[f.id.value])
    ensures var outcome := FetchFile(db, disk, f, replies, H).outcome;
            && (outcome == Ok <==> f.blocks != [] && forall i :: 0 <= i < |f.blocks| ==> Usable(f.blocks[i], replies(i), H))
            && (outcome == Panicked <==> exists j :: Nowhere(f, replies, H, j))
            && (outcome == Err(ConnectionClosed) <==> exists j :: Unanswered(f, replies, H, j))
            && (outcome == Err(FileMissing) <==> exists j :: RefusedWith(f, replies, H, j, NoSuchFile))
            && (outcome == Err(FileInvalid) <==>
                exists j :: RefusedWith(f, replies, H, j, InvalidFile) || RefusedWith(f, replies, H, j, NoError))
            && (outcome == Err(Other) <==>
                f.blocks == [] || exists j :: RefusedWith(f, replies, H, j, Generic) || RefusedWith(f, replies, H, j, Unknown))
  {
    var first := FindStop(f, replies, H, 0);
    if first < |f.blocks| {
      FetchFailsAs(db, disk, f, replies, H, first);
      assert forall j :: StopsAt(f, replies, H, j) ==> j == first;
      assert RefusedWith(f, replies, H, first, NoError) || RefusedWith(f, replies, H, first, NoSuchFile)
             || RefusedWith(f, replies, H, first, InvalidFile) || RefusedWith(f, replies, H, first, Generic)
             || RefusedWith(f, replies, H, first, Unknown) || Unanswered(f, replies, H, first)
             || Nowhere(f, replies, H, first);
    } else if f.blocks != [] {
      FetchOkIff(db, disk, f, 0, replies, H);
      assert forall i :: 0 <= i < |f.blocks| ==> Usable(f.blocks[i], replies(i), H);
    }
  }

  // ---------------------------------------------------------------------------
  // What a fetch does to the file
  // ---------------------------------------------------------------------------

  /** `head` written over the front of `prior`. */
  function Overlay(head: Bytes, prior: Bytes): Bytes {
    head + if |head| < |prior| then prior[|head|..] else []
  }

  /** The bytes block i stands for. */
  function BlockRange(data: Bytes, i: nat): Bytes
    requires |data| % TWO_32 != 0 && i < BlockCount(data)
  {
    OffsetInFile(data, i);
    if i + 1 < BlockCount(data) then data[i * BlockLen(data)..(i + 1) * BlockLen(data)] else data[i * BlockLen(data)..]
  }

  /** How much of the file the first i blocks stand for. */
  function Covered(data: Bytes, i: nat): (n: nat)
    requires |data| % TWO_32 != 0 && i <= BlockCount(data)
    ensures n <= |data|
  {
    if i == BlockCount(data) then |data| else OffsetInFile(data, i); i * BlockLen(data)
  }

  lemma OverlayNext(data: Bytes, i: nat, prior: Bytes)
    requires |data| % TWO_32 != 0 && i < BlockCount(data)
    ensures WriteAt(Overlay(data[..Covered(data, i)], prior), i * BlockLen(data), BlockRange(data, i)) ==
            Overlay(data[..Covered(data, i + 1)], prior)
  {
    OffsetInFile(data, i);
    var a, b := Covered(data, i), Covered(data, i + 1);
    assert BlockRange(data, i) == data[a..b] && a < b;
    assert data[..a] + data[a..b] == data[..b];
    OverlayStep(data[..a], data[a..b], prior);
  }

  lemma OverlayStep(head: Bytes, next: Bytes, prior: Bytes)
    requires next != []
    ensures WriteAt(Overlay(head, prior), |head|, next) == Overlay(head + next, prior)
  {
    var whole := Overlay(head, prior);
    assert whole[..|head|] == head;
    if |head| + |next| < |whole| {
      assert whole[|head| + |next|..] == prior[|head| + |next|..];
    }
  }

  /** Writing the right bytes for every block overlays the source on the destination. */
  lemma {:induction false} FetchCopies(
    db: Db, disk: Disk, f: File, k: nat, replies: nat -> Reply, H: HashFn, source: Bytes, prior: Bytes)
    requires f.id.Some? && f.id.value < |db|
    requires BlocksOf(source, H) == Some(f.blocks)
    requires k <= |f.blocks|
    requires Content(disk, f.name) == Overlay(source[..Covered(source, k)], prior)
    requires forall j :: k <= j < |f.blocks| && Refusal(f.blocks[j], replies(j), H).None? ==>
                replies(j).data == BlockRange(source, j)
    ensures var r := FetchFrom(db, disk, f, k, replies, H);
            r.outcome == Ok && k < |f.blocks| ==> r.disk == disk[f.name := Overlay(source, prior)]
    decreases |f.blocks| - k
  {
    if k < |f.blocks| && Refusal(f.blocks[k], replies(k), H).None? && StoreFile(db, Marked(f)).Stored? {
      var written := WriteAt(Content(disk, f.name), f.blocks[k].offset, replies(k).data);
      BlockOffset(source, k, H);
      OverlayNext(source, k, prior);
      var disk' := disk[f.name := written];
      var db' := StoreFile(db, Marked(f)).db;
      FetchCopies(db', disk', f, k + 1, replies, H, source, prior);
      if k + 1 == |f.blocks| {
        assert source[..|source|] == source;
        assert FetchFrom(db', disk', f, k + 1, replies, H).disk == disk';
      }
    }
  }

  lemma BlockOffset(source: Bytes, k: nat, H: HashFn)
    requires BlocksOf(source, H).Some? && k < BlockCount(source)
    ensures BlocksOf(source, H).value[k].offset == k * BlockLen(source) >= 0
  {
    OffsetInFile(source, k);
  }

  /**
    * Whoever answers, a fetch that returns Ok has copied the indexed bytes over the front of the
    * destination, given that hashes do not collide. Nothing is cut off the destination's end.
    */
  lemma FetchedIsCopied(db: Db, disk: Disk, f: File, replies: nat -> Reply, H: HashFn, source: Bytes)
    requires CollisionFree(H)
    requires f.id.Some? && f.id.value < |db|
    requires BlocksOf(source, H) == Some(f.blocks)
    ensures var r := FetchFile(db, disk, f, replies, H);
            r.outcome == Ok ==> r.disk == disk[f.name := Overlay(source, Content(disk, f.name))]
  {
    BlockCountBounds(source);
    OffsetInFile(source, 0);
    forall j | 0 <= j < |f.blocks| && Refusal(f.blocks[j], replies(j), H).None?
      ensures replies(j).data == BlockRange(source, j)
    {
      assert H(replies(j).data) == H(BlockRange(source, j));
    }
    assert Overlay([], Content(disk, f.name)) == Content(disk, f.name);
    FetchCopies(db, disk, f, 0, replies, H, source, Content(disk, f.name));
  }

  /** Replies of a responder that serves from `remote`. */
  function HonestReplies(remote: Disk, f: File, H: HashFn): nat -> Reply {
    (k: nat) => if k < |f.blocks| then Serve(remote, RequestFor(f, k), H) else NoReply
  }

  /** Asked for a block of which it holds every byte, a peer answers with them, and says so if their hash is another. */
  lemma HeldBlockAnswer(remote: Disk, f: File, k: nat, H: HashFn)
    requires k < |f.blocks| && f.name in remote && f.blocks[k].hash != []
    requires f.blocks[k].offset >= 0 && f.blocks[k].size > 0 && f.blocks[k].offset + f.blocks[k].size <= |remote[f.name]|
    ensures var b := f.blocks[k];
            var data := remote[f.name][b.offset..b.offset + b.size];
            HonestReplies(remote, f, H)(k) == Reply(if H(data) == b.hash then NoError else InvalidFile, data)
  {
  }

  lemma HonestAnswer(source: Bytes, remote: Disk, f: File, k: nat, H: HashFn)
    requires f.name in remote && remote[f.name] == source
    requires BlocksOf(source, H) == Some(f.blocks) && k < |f.blocks|
    requires Splittable(source)
    ensures HonestReplies(remote, f, H)(k) == Reply(NoError, BlockRange(source, k))
  {
    BlockIsItsRange(source, k, H);
    var b := BlockAt(source, k, H);
    assert f.blocks[k] == b;
    ServedRange(remote, RequestFor(f, k), H);
  }

  /** A block of a splittable file names the range it stands for, and is not empty. */
  lemma BlockIsItsRange(source: Bytes, k: nat, H: HashFn)
    requires Splittable(source) && k < BlockCount(source)
    ensures var b := BlockAt(source, k, H);
            && b.size > 0 && 0 <= b.offset && b.offset + b.size <= |source|
            && source[b.offset..b.offset + b.size] == BlockRange(source, k) && b.hash == H(BlockRange(source, k))
  {
    BlockCountBounds(source);
    OffsetInFile(source, k);
    if k + 1 == BlockCount(source) {
      LastOwnRange(source, H);
      LastSize(source);
    }
  }

  lemma ServedRange(remote: Disk, r: Request, H: HashFn)
    requires r.name in remote && r.size > 0 && 0 <= r.offset && r.offset + r.size <= |remote[r.name]|
    requires r.hash == H(remote[r.name][r.offset..r.offset + r.size])
    ensures Serve(remote, r, H) == Reply(NoError, remote[r.name][r.offset..r.offset + r.size])
  {
  }

  /** Only a last block that ends where the file ends can be answered acceptably. */
  lemma LastAnswered(source: Bytes, remote: Disk, f: File, H: HashFn)
    requires CollisionFree(H)
    requires f.name in remote && remote[f.name] == source
    requires BlocksOf(source, H) == Some(f.blocks) && f.blocks != []
    requires Refusal(Last(f.blocks), HonestReplies(remote, f, H)(|f.blocks| - 1), H).None?
    ensures Splittable(source)
  {
    var k := |f.blocks| - 1;
    var b := f.blocks[k];
    OffsetInFile(source, k);
    assert b == BlockAt(source, k, H);
    var start := k * BlockLen(source);
    assert b.offset == start && b.hash == H(source[start..]);
    var data := HonestReplies(remote, f, H)(k).data;
    assert data == source[start..];
    assert |data| == b.size;
    BlocksContiguous(source, H);
    assert f.blocks[0] == BlockAt(source, 0, H);
    assert Tiles(f.blocks, |source|);
    TileEnds(source, H);
  }

  /**
    * Fetching an indexed file from a peer that still holds it succeeds exactly when the file can be
    * split: shorter than 2 GiB and not a whole number of blocks. Success copies the file over the
    * front of the destination and marks the row synced.
    */
  lemma HonestFetchIff(db: Db, disk: Disk, f: File, remote: Disk, source: Bytes, H: HashFn)
    requires ValidDb(db) && f.id.Some? && f.id.value < |db| && db[f.id.value] == f
    requires f.name in remote && remote[f.name] == source
    requires BlocksOf(source, H) == Some(f.blocks)
    ensures var r := FetchFile(db, disk, f, HonestReplies(remote, f, H), H);
            && (Splittable(source) ==> r.outcome == Ok)
            && (CollisionFree(H) && !Splittable(source) ==> r.outcome != Ok)
            && (Splittable(source) ==> r.disk == disk[f.name := Overlay(source, Content(disk, f.name))])
            && (r.outcome == Ok ==> r.db == db[f.id.value := Marked(f)])
  {
    BlockCountBounds(source);
    var replies := HonestReplies(remote, f, H);
    forall j | 0 <= j < |f.blocks| ensures f.blocks[j].offset >= 0 {
      OffsetInFile(source, j);
    }
    FetchOkIff(db, disk, f, 0, replies, H);
    if Splittable(source) {
      forall j | 0 <= j < |f.blocks| ensures replies(j) == Reply(NoError, BlockRange(source, j)) {
        HonestAnswer(source, remote, f, j, H);
      }
      OffsetInFile(source, 0);
      assert Overlay([], Content(disk, f.name)) == Content(disk, f.name);
      FetchCopies(db, disk, f, 0, replies, H, source, Content(disk, f.name));
    }
    if CollisionFree(H) && FetchFile(db, disk, f, replies, H).outcome == Ok {
      LastAnswered(source, remote, f, H);
    }
  }
}
