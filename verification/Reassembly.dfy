/** Joining the verified chunks of an artifact into one object with a multipart upload. */
module Reassembly {
  import opened Prelude
  import opened ChunkKeys

  type Bytes = seq<bv8>

  /** A checksum is any function of the bytes. */
  type Checksum = Bytes -> string

  datatype Chunk = Chunk(size: nat, sha256: string)

  datatype Upload = Upload(key: string, parts: map<nat, Bytes>)

  datatype Error = ChunkNeverUploaded(part: nat) | ChunkDisagrees(part: nat) | StoreFailure

  function KeyOf(prefix: string, name: string, i: nat): string {
    ChunkKey(prefix, name, i + 1).value
  }

  /** The chunk at index `i` is looked up under its part number, counted from 1. */
  lemma KeyNamesPart(prefix: string, name: string, i: nat) returns (digits: string)
    ensures KeyOf(prefix, name, i) == prefix + name + ".part" + digits
    ensures AllDigits(digits) && Number(digits) == i + 1 && |digits| >= 4
  {
    digits := ChunkKeyFormat(prefix, name, i + 1);
  }

  predicate Uploaded(objects: map<string, Bytes>, key: string) {
    key in objects
  }

  predicate Agrees(objects: map<string, Bytes>, key: string, chunk: Chunk, sha: Checksum) {
    Uploaded(objects, key) && |objects[key]| == chunk.size && sha(objects[key]) == chunk.sha256
  }

  /** Every chunk is there and is what its manifest entry says. */
  ghost predicate Verified(objects: map<string, Bytes>, prefix: string, name: string, chunks: seq<Chunk>,
                           sha: Checksum) {
    forall i :: 0 <= i < |chunks| ==> Agrees(objects, KeyOf(prefix, name, i), chunks[i], sha)
  }

  /** What the error says is so, and no earlier chunk is at fault. */
  ghost predicate FirstFault(objects: map<string, Bytes>, prefix: string, name: string, chunks: seq<Chunk>,
                             sha: Checksum, e: Error) {
    && !e.StoreFailure?
    && 1 <= e.part <= |chunks|
    && Verified(objects, prefix, name, chunks[..e.part - 1], sha)
    && !Agrees(objects, KeyOf(prefix, name, e.part - 1), chunks[e.part - 1], sha)
    && (e.ChunkNeverUploaded? <==> !Uploaded(objects, KeyOf(prefix, name, e.part - 1)))
  }

  /** The chunks' bytes, one after another in declared order. */
  function Joined(objects: map<string, Bytes>, prefix: string, name: string, n: nat): Bytes
    requires forall i :: 0 <= i < n ==> Uploaded(objects, KeyOf(prefix, name, i))
  {
    if n == 0 then [] else
      assert Uploaded(objects, KeyOf(prefix, name, n - 1));
      Joined(objects, prefix, name, n - 1) + objects[KeyOf(prefix, name, n - 1)]
  }

  function TotalSize(chunks: seq<Chunk>): nat {
    if chunks == [] then 0 else TotalSize(chunks[..|chunks| - 1]) + chunks[|chunks| - 1].size
  }

  /** The joined object has the declared size, so the final size check asks only whether the declared sizes add up. */
  lemma {:induction false} JoinedSize(objects: map<string, Bytes>, prefix: string, name: string, chunks: seq<Chunk>,
                                      sha: Checksum)
    requires Verified(objects, prefix, name, chunks, sha)
    ensures forall i :: 0 <= i < |chunks| ==> Uploaded(objects, KeyOf(prefix, name, i))
    ensures |Joined(objects, prefix, name, |chunks|)| == TotalSize(chunks)
    decreases |chunks|
  {
    if chunks != [] {
      var n := |chunks| - 1;
      assert forall i :: 0 <= i < n ==> chunks[..n][i] == chunks[i];
      JoinedSize(objects, prefix, name, chunks[..n], sha);
      assert Agrees(objects, KeyOf(prefix, name, n), chunks[n], sha);
    }
  }

  /** The parts held by an upload, in part order. */
  function PartsInOrder(parts: map<nat, Bytes>, n: nat): Bytes
    requires forall i :: 1 <= i <= n ==> i in parts
  {
    if n == 0 then [] else PartsInOrder(parts, n - 1) + parts[n]
  }

  /** The first `n` parts are copies of the first `n` chunks. */
  ghost predicate Copied(objects: map<string, Bytes>, prefix: string, name: string, parts: map<nat, Bytes>, n: nat) {
    && (forall i :: 0 <= i < n ==> Uploaded(objects, KeyOf(prefix, name, i)))
    && (forall i :: 1 <= i <= n ==> i in parts)
    && PartsInOrder(parts, n) == Joined(objects, prefix, name, n)
  }

  lemma {:induction false} MorePartsKeepOrder(parts: map<nat, Bytes>, more: map<nat, Bytes>, n: nat)
    requires forall i :: 1 <= i <= n ==> i in parts && i in more && parts[i] == more[i]
    ensures PartsInOrder(parts, n) == PartsInOrder(more, n)
  {
    if n > 0 {
      MorePartsKeepOrder(parts, more, n - 1);
    }
  }

  lemma CopyOne(objects: map<string, Bytes>, prefix: string, name: string, parts: map<nat, Bytes>, n: nat)
    requires Copied(objects, prefix, name, parts, n) && Uploaded(objects, KeyOf(prefix, name, n))
    ensures Copied(objects, prefix, name, parts[n + 1 := objects[KeyOf(prefix, name, n)]], n + 1)
  {
    var more := parts[n + 1 := objects[KeyOf(prefix, name, n)]];
    MorePartsKeepOrder(parts, more, n);
    forall i | 0 <= i < n + 1 ensures Uploaded(objects, KeyOf(prefix, name, i)) {}
  }

  /** One more upload is open than before, for the key; the others are as they were. */
  ghost predicate LeftOpen(before: map<nat, Upload>, after: map<nat, Upload>, id: nat, key: string) {
    id !in before && id in after && after[id].key == key && after - {id} == before
  }

  /** An object store. Any multipart call may fail, and then it changes nothing. */
  class Store {
    var objects: map<string, Bytes>
    var uploads: map<nat, Upload>
    var created: nat

    constructor ()
      ensures Valid() && objects == map[] && uploads == map[]
    {
      objects, uploads, created := map[], map[], 0;
    }

    ghost predicate Valid()
      reads this
    {
      forall id :: id in uploads ==> id < created
    }

    method CreateMultipartUpload(key: string) returns (r: Result<nat, Error>)
      requires Valid()
      modifies this`uploads, this`created
      ensures Valid()
      ensures r.Ok? ==> r.value !in old(uploads) && uploads == old(uploads)[r.value := Upload(key, map[])]
      ensures r.Err? ==> r.error == StoreFailure && uploads == old(uploads) && created == old(created)
    {
      var broken: bool := *;
      if broken {
        return Err(StoreFailure);
      }
      r := Ok(created);
      uploads, created := uploads[created := Upload(key, map[])], created + 1;
    }

    method UploadPartCopy(id: nat, part: nat, source: string) returns (ok: bool)
      requires Valid() && id in uploads
      modifies this`uploads
      ensures Valid()
      ensures ok ==> source in objects
      ensures ok ==>
        uploads == old(uploads)[id := old(uploads[id]).(parts := old(uploads[id]).parts[part := objects[source]])]
      ensures !ok ==> uploads == old(uploads)
    {
      var broken: bool := *;
      ok := !broken && source in objects;
      if ok {
        uploads := uploads[id := uploads[id].(parts := uploads[id].parts[part := objects[source]])];
      }
    }

    /** Publishes parts 1 to `n`; an upload without parts cannot be completed. */
    method CompleteMultipartUpload(id: nat, n: nat) returns (ok: bool)
      requires Valid() && id in uploads && forall i :: 1 <= i <= n ==> i in uploads[id].parts
      modifies this`objects, this`uploads
      ensures Valid()
      ensures ok ==> n > 0 && uploads == old(uploads) - {id}
      ensures ok ==> objects == old(objects)[old(uploads[id]).key := PartsInOrder(old(uploads[id]).parts, n)]
      ensures !ok ==> uploads == old(uploads) && objects == old(objects)
    {
      var broken: bool := *;
      ok := !broken && n > 0;
      if ok {
        objects := objects[uploads[id].key := PartsInOrder(uploads[id].parts, n)];
        uploads := uploads - {id};
      }
    }

    method AbortMultipartUpload(id: nat) returns (ok: bool)
      requires Valid()
      modifies this`uploads
      ensures Valid()
      ensures uploads == if ok then old(uploads) - {id} else old(uploads)
    {
      var broken: bool := *;
      ok := !broken;
      if ok {
        uploads := uploads - {id};
      }
    }

    /** Accepts exactly the fully uploaded, agreeing chunk lists; otherwise reports the first chunk at fault. */
    method VerifyChunks(prefix: string, name: string, chunks: seq<Chunk>, sha: Checksum) returns (fault: Option<Error>)
      ensures fault.None? <==> Verified(objects, prefix, name, chunks, sha)
      ensures fault.Some? ==> FirstFault(objects, prefix, name, chunks, sha, fault.value)
    {
      for i := 0 to |chunks|
        invariant Verified(objects, prefix, name, chunks[..i], sha)
      {
        var key := KeyOf(prefix, name, i);
        if key !in objects {
          return Some(ChunkNeverUploaded(i + 1));
        }
        if |objects[key]| != chunks[i].size || sha(objects[key]) != chunks[i].sha256 {
          return Some(ChunkDisagrees(i + 1));
        }
      }
      assert chunks[..|chunks|] == chunks;
      fault := None;
    }

    /**
     * On success the final object is the verified chunks joined in order, and nothing else changed. On failure no
     * object changed, and an upload stays open only if its abort failed; a bad chunk is refused before any upload.
     */
    method ReassembleChunked(prefix: string, name: string, finalKey: string, chunks: seq<Chunk>, sha: Checksum)
      returns (failure: Option<Error>, aborted: bool)
      requires Valid()
      modifies this
      ensures Valid()
      ensures failure.None? ==>
        && Verified(old(objects), prefix, name, chunks, sha)
        && (forall i :: 0 <= i < |chunks| ==> Uploaded(old(objects), KeyOf(prefix, name, i)))
        && objects == old(objects)[finalKey := Joined(old(objects), prefix, name, |chunks|)]
        && |objects[finalKey]| == TotalSize(chunks)
        && uploads == old(uploads)
      ensures failure.Some? ==> objects == old(objects)
      ensures failure.Some? ==>
        uploads == old(uploads) || (!aborted && exists id :: LeftOpen(old(uploads), uploads, id, finalKey))
      ensures failure.Some? && !failure.value.StoreFailure? ==>
        uploads == old(uploads) && created == old(created) && FirstFault(objects, prefix, name, chunks, sha, failure.value)
      ensures chunks == [] ==> failure.Some?
    {
      aborted := true;
      failure := VerifyChunks(prefix, name, chunks, sha);
      if failure.Some? {
        return;
      }
      var create := CreateMultipartUpload(finalKey);
      if create.Err? {
        return Some(create.error), true;
      }
      var id := create.value;
      var ok := CopyAndComplete(prefix, name, id, |chunks|);
      if !ok {
        aborted := AbortMultipartUpload(id);
        assert old(uploads)[id := Upload(finalKey, map[])] - {id} == old(uploads);
        assert !aborted ==> LeftOpen(old(uploads), uploads, id, finalKey);
        return Some(StoreFailure), aborted;
      }
      JoinedSize(old(objects), prefix, name, chunks, sha);
    }

    /** The guarded block: copies every chunk as the part of its number, then publishes them. */
    method CopyAndComplete(prefix: string, name: string, id: nat, n: nat) returns (ok: bool)
      requires Valid() && id in uploads && uploads[id].parts == map[]
      requires forall i :: 0 <= i < n ==> Uploaded(objects, KeyOf(prefix, name, i))
      modifies this`objects, this`uploads
      ensures Valid()
      ensures ok ==> n > 0 && uploads == old(uploads) - {id}
      ensures ok ==> objects == old(objects)[old(uploads[id]).key := Joined(old(objects), prefix, name, n)]
      ensures !ok ==>
        objects == old(objects) && uploads.Keys == old(uploads).Keys && uploads - {id} == old(uploads) - {id}
      ensures !ok ==> uploads[id].key == old(uploads[id]).key
    {
      for i := 0 to n
        invariant Valid() && objects == old(objects) && uploads.Keys == old(uploads).Keys
        invariant uploads - {id} == old(uploads) - {id} && uploads[id].key == old(uploads[id]).key
        invariant Copied(objects, prefix, name, uploads[id].parts, i)
      {
        ghost var before := uploads[id].parts;
        ok := UploadPartCopy(id, i + 1, KeyOf(prefix, name, i));
        if !ok {
          return;
        }
        CopyOne(objects, prefix, name, before, i);
      }
      ok := CompleteMultipartUpload(id, n);
    }
  }
}
