/** The DigitalOcean Spaces backend: a bucket of objects addressed by flat
    keys `namespace/document/name`, plus the local temporary files that uploads
    are streamed from. The remote calls' outcomes are inputs of the methods. */
module Spaces {
  import opened Results
  import opened Strings
  import opened Storage
  import SpacesListing

  /** `maxRetries` of the namespace delete. */
  const MaxRetries: nat := 3

  const DeleteExhausted := "Failed to delete objects after 3 attempts"
  const NotNecessary := "Not necessary for Spaces storage"
  /** Stands for the error the upload rejects with, which is re-thrown unchanged. */
  const UploadError := "upload failed"
  /** Stands for the error a failed batched delete rejects with, propagated unchanged. */
  const DeleteError := "delete failed"

  /** Whether delete attempt `i` (counting from 0) succeeds; attempts beyond the
      supplied outcomes fail. */
  predicate AttemptSucceeds(outcomes: seq<bool>, i: nat) {
    i < |outcomes| && outcomes[i]
  }

  /** The retry loop of `deleteWorkspaceFiles`: the batched delete is attempted
      until one attempt succeeds, at most `MaxRetries` times. It stops at the
      first success; when every attempt fails it has made exactly `MaxRetries`. */
  method RetryDelete(outcomes: seq<bool>) returns (ok: bool, attempts: nat)
    ensures 1 <= attempts <= MaxRetries
    ensures forall i :: 0 <= i < attempts - 1 ==> !AttemptSucceeds(outcomes, i)
    ensures ok <==> AttemptSucceeds(outcomes, attempts - 1)
    ensures !ok ==> attempts == MaxRetries
  {
    var retries := 0;
    while retries < MaxRetries
      invariant 0 <= retries <= MaxRetries
      invariant forall i :: 0 <= i < retries ==> !AttemptSucceeds(outcomes, i)
    {
      if AttemptSucceeds(outcomes, retries) {
        return true, retries + 1;
      }
      retries := retries + 1;
    }
    return false, MaxRetries;
  }

  /** The keys a listing call with `Prefix: prefix` (and no delimiter) returns. */
  function KeysUnder(keys: seq<string>, prefix: string): (r: seq<string>)
    ensures forall k :: k in r <==> k in keys && IsPrefix(prefix, k)
  {
    if keys == [] then []
    else
      var rest := KeysUnder(keys[1..], prefix);
      assert forall k :: k in keys <==> k == keys[0] || k in keys[1..];
      if IsPrefix(prefix, keys[0]) then [keys[0]] + rest else rest
  }

  /** The keys that survive a delete of everything under `prefix`, in store order. */
  function KeysOutside(keys: seq<string>, prefix: string): (r: seq<string>)
    ensures forall k :: k in r <==> k in keys && !IsPrefix(prefix, k)
    ensures Distinct(keys) ==> Distinct(r)
  {
    if keys == [] then []
    else
      var rest := KeysOutside(keys[1..], prefix);
      assert forall k :: k in keys <==> k == keys[0] || k in keys[1..];
      if IsPrefix(prefix, keys[0]) then rest else [keys[0]] + rest
  }

  /** The objects that survive a delete of everything under `prefix`. */
  function RemovePrefixed(objects: map<string, Bytes>, prefix: string): map<string, Bytes> {
    map k | k in objects && !IsPrefix(prefix, k) :: objects[k]
  }

  /** The prefix of one document's files. */
  function DocumentPrefix(namespaceId: string, documentId: string): string {
    namespaceId + "/" + documentId + "/"
  }

  /** The prefix of one namespace's files. */
  function NamespacePrefix(namespaceId: string): string {
    namespaceId + "/"
  }

  /** Two prefixes that close two different "/"-free segments with a "/" cover
      disjoint sets of keys: deleting document `d1` (or namespace `d1`) leaves
      `d2` untouched even when `d2` merely extends `d1`, as "d10" extends "d1". */
  lemma {:induction false} SegmentPrefixesDisjoint(base: string, d1: string, d2: string, k: string)
    requires '/' !in d1 && '/' !in d2 && d1 != d2
    requires IsPrefix(base + d2 + "/", k)
    ensures !IsPrefix(base + d1 + "/", k)
  {
    var n := |base|;
    if |d1| < |d2| {
      assert k[n + |d1|] == d2[|d1|] != '/';
    } else if |d2| < |d1| {
      assert k[n + |d2|] == '/' != d1[|d2|];
    } else {
      assert k[n..n + |d1|] == d2 != d1;
    }
  }

  /** After a successful delete under `prefix` nothing is left under it, so a
      second delete lists no key, issues no request and succeeds unchanged. */
  lemma DeleteLeavesNothingUnder(keys: seq<string>, prefix: string)
    ensures KeysUnder(KeysOutside(keys, prefix), prefix) == []
  {
    NoMemberEmpty(KeysUnder(KeysOutside(keys, prefix), prefix));
  }

  class SpacesStorage {
    /** `DO_SPACES_BUCKET_NAME`. */
    const bucket: Option<string>
    /** The bucket's keys in the order listings return them. */
    var keys: seq<string>
    /** The bucket: each key's object. */
    var objects: map<string, Bytes>
    /** Local temporary files, by path. */
    var localFiles: map<string, Bytes>

    ghost predicate Valid()
      reads this
    {
      Distinct(keys) && forall k :: k in objects <==> k in keys
    }

    /** A store over an existing bucket, whose objects are exactly its listed keys. */
    constructor (bucket: Option<string>, keys: seq<string>, objects: map<string, Bytes>, localFiles: map<string, Bytes>)
      requires Distinct(keys) && forall k :: k in objects <==> k in keys
      ensures Valid()
      ensures this.bucket == bucket && this.localFiles == localFiles
      ensures this.keys == keys && this.objects == objects
    {
      this.bucket := bucket;
      this.keys := keys;
      this.objects := objects;
      this.localFiles := localFiles;
    }

    /** `saveFile`: stream the temporary file to `fileKey`, then, whatever the
        upload did, try to unlink the temporary file. An upload failure (including
        an unreadable temporary file) is re-thrown and leaves the bucket as it was;
        an unlink failure is swallowed and does not change the outcome. */
    method SaveFile(file: UploadedFile, fileKey: string, uploadOk: bool, unlinkOk: bool) returns (r: Outcome)
      requires Valid()
      modifies this
      ensures Valid()
      ensures r == (if uploadOk && file.path in old(localFiles) then Pass else Fail(UploadError))
      ensures r.Pass? ==> objects == old(objects)[fileKey := old(localFiles)[file.path]]
      ensures r.Pass? ==> keys == if fileKey in old(keys) then old(keys) else old(keys) + [fileKey]
      ensures r.Fail? ==> objects == old(objects) && keys == old(keys)
      ensures localFiles == if unlinkOk then old(localFiles) - {file.path} else old(localFiles)
    {
      // try: the upload reads the temporary file and puts it at fileKey
      if uploadOk && file.path in localFiles {
        objects := objects[fileKey := localFiles[file.path]];
        if fileKey !in keys {
          keys := keys + [fileKey];
        }
        r := Pass;
      } else {
        r := Fail(UploadError);
      }
      // finally: unlink the temporary file; a failure there is only logged
      if unlinkOk {
        localFiles := localFiles - {file.path};
      }
    }

    /** `deleteFileFromWorkspace`: list the keys under `ns/doc/`; when there are
        any, make exactly one batched delete attempt and propagate its failure. */
    method DeleteFileFromWorkspace(namespaceId: string, documentId: string, deleteOk: bool)
      returns (r: Outcome, attempts: nat)
      requires Valid()
      modifies this`keys, this`objects
      ensures Valid()
      ensures var prefix := DocumentPrefix(namespaceId, documentId);
        var matching := KeysUnder(old(keys), prefix);
        && attempts == (if matching == [] then 0 else 1)
        && r == (if matching == [] || deleteOk then Pass else Fail(DeleteError))
        && (matching != [] && deleteOk ==>
              objects == RemovePrefixed(old(objects), prefix) && keys == KeysOutside(old(keys), prefix))
        && (matching == [] || !deleteOk ==> objects == old(objects) && keys == old(keys))
    {
      var prefix := DocumentPrefix(namespaceId, documentId);
      var matching := KeysUnder(keys, prefix);
      r, attempts := Pass, 0;
      if matching != [] {
        attempts := 1;
        if deleteOk {
          objects := RemovePrefixed(objects, prefix);
          keys := KeysOutside(keys, prefix);
        } else {
          r := Fail(DeleteError);
        }
      }
    }

    /** `deleteWorkspaceFiles`: list the keys under `ns/`; when there are any,
        delete them in one batch, retried by `RetryDelete`; after `MaxRetries`
        failed attempts it rejects naming the attempt count. */
    method DeleteWorkspaceFiles(namespaceId: string, outcomes: seq<bool>) returns (r: Outcome, attempts: nat)
      requires Valid()
      modifies this`keys, this`objects
      ensures Valid()
      ensures attempts <= MaxRetries
      ensures var prefix := NamespacePrefix(namespaceId);
        var matching := KeysUnder(old(keys), prefix);
        && (matching == [] ==> r == Pass && attempts == 0 && objects == old(objects) && keys == old(keys))
        && (matching != [] ==> 1 <= attempts && forall i :: 0 <= i < attempts - 1 ==> !AttemptSucceeds(outcomes, i))
        && (matching != [] ==> (r.Pass? <==> AttemptSucceeds(outcomes, attempts - 1)))
        && (matching != [] && r.Pass? ==>
              AttemptSucceeds(outcomes, attempts - 1)
              && objects == RemovePrefixed(old(objects), prefix) && keys == KeysOutside(old(keys), prefix))
        && (matching != [] && r.Fail? ==>
              r.error == DeleteExhausted && attempts == MaxRetries
              && objects == old(objects) && keys == old(keys))
    {
      var prefix := NamespacePrefix(namespaceId);
      var matching := KeysUnder(keys, prefix);
      r, attempts := Pass, 0;
      if matching != [] {
        var ok;
        ok, attempts := RetryDelete(outcomes);
        if ok {
          objects := RemovePrefixed(objects, prefix);
          keys := KeysOutside(keys, prefix);
        } else {
          r := Fail(DeleteExhausted);
        }
      }
    }

    /** `listFilesInNamespace`, on a bucket whose listing calls each return one
        complete page. The function `SpacesListing.ListFilesInNamespace` is its
        specification over the bucket's keys; this member applies it to the
        object's current state. */
    method ListFilesInNamespace(namespaceId: string) returns (files: seq<FileDetail>)
      requires Valid()
      ensures files == SpacesListing.ListFilesInNamespace(bucket, keys, namespaceId)
    {
      files := SpacesListing.ListFilesRecursive(bucket, keys, NamespacePrefix(namespaceId));
    }

    /** `getFilePath` rejects for every key: the object store has no local path. */
    function GetFilePath(fileKey: string): (r: Result<string>)
      ensures r.Err? && r.error == NotNecessary
    {
      Err(NotNecessary)
    }

    /** `constructFileUrl`. The function `SpacesListing.ConstructFileUrl` is its
        specification; this member applies it to the object's bucket. */
    function ConstructFileUrl(fileKey: string): (url: string)
      ensures SpacesListing.KeyOfUrl(bucket, url) == Some(fileKey)
    {
      SpacesListing.ConstructFileUrl(bucket, fileKey)
    }
  }
}
