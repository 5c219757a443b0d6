/** The local storage backend: two directories of byte files, keyed by slug. */
module Storage {
  import opened Bits

  datatype Disk = Disk(tmp: map<string, seq<Byte>>, objects: map<string, seq<Byte>>)

  function Blank(n: nat): (s: seq<Byte>)
    ensures |s| == n
  {
    seq(n, i => 0)
  }

  /** A file after writing data at an offset; a gap before the offset reads as zeros. */
  function Overwrite(file: seq<Byte>, offset: nat, data: seq<Byte>): (r: seq<Byte>)
    ensures data != [] && offset + |data| <= |file| ==> |r| == |file|
    ensures data != [] ==> |r| >= offset + |data| && r[offset..offset + |data|] == data
  {
    if data == [] then file
    else
      var padded := if |file| < offset then file + Blank(offset - |file|) else file;
      padded[..offset] + data + (if offset + |data| < |padded| then padded[offset + |data|..] else [])
  }

  /** A chunk write: whatever arrived is written, and the call succeeds only when the reader
      did not fail and exactly size bytes arrived. */
  function ChunkWritten(disk: Disk, key: string, offset: nat, data: seq<Byte>): Disk {
    if key in disk.tmp then disk.(tmp := disk.tmp[key := Overwrite(disk.tmp[key], offset, data)]) else disk
  }

  predicate ChunkAccepted(disk: Disk, key: string, data: seq<Byte>, readFails: bool, size: int) {
    key in disk.tmp && !readFails && |data| == size
  }

  class Local {
    var tmp: map<string, seq<Byte>>
    var objects: map<string, seq<Byte>>

    ghost function State(): Disk
      reads this
    {
      Disk(tmp, objects)
    }

    constructor ()
      ensures State() == Disk(map[], map[])
    {
      tmp, objects := map[], map[];
    }

    /** Creates or empties the upload file, then stretches it to its size; either can fail, and
        when the second does the file stays behind empty. */
    method Init(key: string, size: nat, createFails: bool, truncateFails: bool) returns (ok: bool)
      modifies this
      ensures ok == (!createFails && !truncateFails)
      ensures State() == if createFails then old(State())
                         else old(State()).(tmp := old(tmp)[key := if truncateFails then [] else Blank(size)])
    {
      if createFails {
        return false;
      }
      tmp := tmp[key := []];
      if truncateFails {
        return false;
      }
      tmp := tmp[key := Blank(size)];
      ok := true;
    }

    method PutChunk(key: string, idx: nat, chunkSize: nat, data: seq<Byte>, readFails: bool, size: int)
      returns (ok: bool)
      modifies this
      ensures ok == ChunkAccepted(old(State()), key, data, readFails, size)
      ensures State() == ChunkWritten(old(State()), key, idx * chunkSize, data)
    {
      if key !in tmp {
        return false;
      }
      tmp := tmp[key := Overwrite(tmp[key], idx * chunkSize, data)];
      if readFails {
        return false;
      }
      ok := |data| == size;
    }

    /** Renames the upload file into place, over whatever is there. */
    method Complete(key: string) returns (ok: bool)
      modifies this
      ensures ok == (key in old(tmp))
      ensures State() == if ok then Disk(old(tmp) - {key}, old(objects)[key := old(tmp)[key]]) else old(State())
    {
      ok := key in tmp;
      if ok {
        objects := objects[key := tmp[key]];
        tmp := tmp - {key};
      }
    }

    method Abort(key: string)
      modifies this
      ensures State() == old(State()).(tmp := old(tmp) - {key})
    {
      tmp := tmp - {key};
    }

    method Delete(key: string)
      modifies this
      ensures State() == old(State()).(objects := old(objects) - {key})
    {
      objects := objects - {key};
    }

    /** The finished keys, each once, in some order. */
    method ListKeys() returns (keys: seq<string>)
      ensures forall k :: k in keys <==> k in objects
      ensures forall i, j | 0 <= i < j < |keys| :: keys[i] != keys[j]
    {
      keys := [];
      var rest := objects.Keys;
      while rest != {}
        invariant forall k :: k in objects <==> k in keys || k in rest
        invariant forall k <- rest :: k !in keys
        invariant forall i, j | 0 <= i < j < |keys| :: keys[i] != keys[j]
        decreases rest
      {
        var k :| k in rest;
        keys := keys + [k];
        rest := rest - {k};
      }
    }
  }
}
