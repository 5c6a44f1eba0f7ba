/** The storage backend: files of a directory as byte sequences. */
module Storage {
  import opened SyncTypes

  function Zeros(n: nat): (z: Bytes)
    ensures |z| == n
  {
    seq(n, _ => 0)
  }

  /** Overwrite from `offset`; a gap is filled with zeros, nothing is ever cut off, and writing no bytes extends nothing. */
  function WriteAt(content: Bytes, offset: nat, data: Bytes): Bytes {
    if data == [] then content
    else if |content| < offset then content + Zeros(offset - |content|) + data
    else content[..offset] + data + if offset + |data| < |content| then content[offset + |data|..] else []
  }

  /** Exactly `len` bytes from `offset`, or nothing. */
  function ReadAt(content: Bytes, offset: nat, len: nat): Option<Bytes> {
    if len == 0 then Some([])
    else if offset + len <= |content| then Some(content[offset..offset + len])
    else None
  }

  /** What a block write left at its offset is what a read of that range returns. */
  lemma ReadWritten(content: Bytes, offset: nat, data: Bytes)
    ensures ReadAt(WriteAt(content, offset, data), offset, |data|) == Some(data)
  {
    if data != [] {
      assert WriteAt(content, offset, data)[offset..offset + |data|] == data;
    }
  }

  /** Bytes outside the written range keep their value, and the file never shrinks. */
  lemma WriteKeepsRest(content: Bytes, offset: nat, data: Bytes, i: nat)
    requires i < |content| && !(offset <= i < offset + |data|)
    ensures |content| <= |WriteAt(content, offset, data)|
    ensures WriteAt(content, offset, data)[i] == content[i]
  {
  }

  /** Every byte of a file after a write, and how long it is: a gap before the range is zeros. */
  lemma WrittenBytes(content: Bytes, offset: nat, data: Bytes, i: nat)
    ensures var written := WriteAt(content, offset, data);
            && |written| == (if data == [] || offset + |data| <= |content| then |content| else offset + |data|)
            && (i < |written| ==>
                  written[i] == if offset <= i < offset + |data| then data[i - offset] else if i < |content| then content[i] else 0)
  {
  }

  type Disk = map<string, Bytes>

  /** Opening with `create` yields an empty file when there is none. */
  function Content(disk: Disk, name: string): Bytes {
    if name in disk then disk[name] else []
  }

  class LocalStorage {
    var disk: Disk

    constructor (disk: Disk)
      ensures this.disk == disk
    {
      this.disk := disk;
    }

    method WriteBlock(url: string, offset: nat, data: Bytes)
      modifies this
      ensures disk == old(disk)[url := WriteAt(Content(old(disk), url), offset, data)]
    {
      if url !in disk {
        disk := disk[url := []];
      }
      var content := disk[url];
      if |data| > 0 {
        if |content| < offset {
          content := content + Zeros(offset - |content|);
          assert content[..offset] == content;
        }
        var end := if offset + |data| < |content| then content[offset + |data|..] else [];
        content := content[..offset] + data + end;
      }
      disk := disk[url := content];
      assert content == WriteAt(Content(old(disk), url), offset, data);
    }

    method ReadBlock(url: string, offset: nat, len: nat) returns (r: Option<Bytes>)
      ensures r == if url in disk then ReadAt(disk[url], offset, len) else None
      ensures r.Some? <==> url in disk && (len == 0 || offset + len <= |disk[url]|)
      ensures r.Some? && len > 0 ==> r.value == disk[url][offset..offset + len]
    {
      if url !in disk {
        return None;
      }
      if len > 0 && offset + len > |disk[url]| {
        return None;
      }
      r := Some(if len == 0 then [] else disk[url][offset..offset + len]);
    }
  }
}
