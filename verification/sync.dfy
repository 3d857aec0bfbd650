/** The sync executor and the whole run: every new or changed file is
    uploaded, then every deleted file is removed, each under the key
    `prefix/name`. The network effects are modelled as an emitted trace of
    events. */
module SyncExec {
  import opened Wrappers
  import Keys
  import PathRules
  import opened Listing
  import DiffEngine
  import Compression

  /** One storage call: an upload with its `content_encoding`, or a delete. */
  datatype Event = Put(key: string, contentEncoding: Option<string>) | Delete(key: string)

  /** The trace uploads every name of `uploads`, in order, and then deletes
      every name of `deletions`, in order; an upload is gzip-encoded exactly
      when its name is compressible. */
  predicate UploadsThenDeletes(prefix: string, uploads: seq<string>, deletions: seq<string>, trace: seq<Event>)
  {
    && |trace| == |uploads| + |deletions|
    && (forall i :: 0 <= i < |uploads| ==>
          && trace[i].Put?
          && trace[i].key == Keys.RemoteKey(prefix, uploads[i])
          && (trace[i].contentEncoding == Some("gzip") <==> PathRules.ShouldCompress(uploads[i]))
          && (trace[i].contentEncoding.Some? ==> trace[i].contentEncoding == Some("gzip")))
    && (forall j :: 0 <= j < |deletions| ==>
          trace[|uploads| + j] == Delete(Keys.RemoteKey(prefix, deletions[j])))
  }

  /** The upload of one file: its key, and `gzip` encoding exactly when
      the name is compressible. */
  function UploadEvent(prefix: string, name: string): (e: Event)
    ensures e.Put? && e.key == Keys.RemoteKey(prefix, name)
    ensures e.contentEncoding == Some("gzip") <==> PathRules.ShouldCompress(name)
    ensures e.contentEncoding.Some? ==> e.contentEncoding == Some("gzip")
  {
    Put(Keys.RemoteKey(prefix, name), if PathRules.ShouldCompress(name) then Some("gzip") else None)
  }

  /** One event per name, in order. */
  function Events(prefix: string, names: seq<string>, event: (string, string) -> Event): (r: seq<Event>)
    ensures |r| == |names|
    ensures forall i :: 0 <= i < |names| ==> r[i] == event(prefix, names[i])
  {
    seq(|names|, i requires 0 <= i < |names| => event(prefix, names[i]))
  }

  function DeleteEvent(prefix: string, name: string): (e: Event)
  {
    Delete(Keys.RemoteKey(prefix, name))
  }

  /** The events of the two loops, put together, meet the trace property. */
  lemma EventsMeetOrder(prefix: string, uploads: seq<string>, deletions: seq<string>)
    ensures UploadsThenDeletes(prefix, uploads, deletions,
                               Events(prefix, uploads, UploadEvent) + Events(prefix, deletions, DeleteEvent))
  {
    var puts, dels := Events(prefix, uploads, UploadEvent), Events(prefix, deletions, DeleteEvent);
    var trace := puts + dels;
    forall i | 0 <= i < |uploads|
      ensures trace[i] == UploadEvent(prefix, uploads[i])
    {
      assert trace[i] == puts[i];
    }
    forall j | 0 <= j < |deletions|
      ensures trace[|uploads| + j] == Delete(Keys.RemoteKey(prefix, deletions[j]))
    {
      assert trace[|uploads| + j] == dels[j] == DeleteEvent(prefix, deletions[j]);
    }
  }

  /** The two loops at the end of the run: `(new_files + changed_files).each`
      uploading, then `deleted_files.each` deleting. */
  method EmitTrace(prefix: string, uploads: seq<string>, deletions: seq<string>) returns (trace: seq<Event>)
    ensures UploadsThenDeletes(prefix, uploads, deletions, trace)
  {
    trace := [];
    var i := 0;
    while i < |uploads|
      invariant 0 <= i <= |uploads|
      invariant trace == Events(prefix, uploads[..i], UploadEvent)
    {
      var filename := uploads[i];
      var contentEncoding: Option<string> := None;
      if PathRules.ShouldCompress(filename) {
        contentEncoding := Some("gzip");
      }
      trace := trace + [Put(Keys.RemoteKey(prefix, filename), contentEncoding)];
      assert uploads[..i + 1] == uploads[..i] + [filename];
      i := i + 1;
    }
    assert uploads[..i] == uploads;
    var puts := trace;
    var j := 0;
    while j < |deletions|
      invariant 0 <= j <= |deletions|
      invariant trace == puts + Events(prefix, deletions[..j], DeleteEvent)
    {
      trace := trace + [Delete(Keys.RemoteKey(prefix, deletions[j]))];
      assert deletions[..j + 1] == deletions[..j] + [deletions[j]];
      j := j + 1;
    }
    assert deletions[..j] == deletions;
    EventsMeetOrder(prefix, uploads, deletions);
  }

  /** Every upload precedes every delete, so a run cut short leaves a
      superset of the site rather than a site missing files. */
  lemma PutsPrecedeDeletes(prefix: string, uploads: seq<string>, deletions: seq<string>, trace: seq<Event>)
    requires UploadsThenDeletes(prefix, uploads, deletions, trace)
    ensures forall i, j :: 0 <= i < |trace| && 0 <= j < |trace| && trace[i].Put? && trace[j].Delete? ==> i < j
  {
    forall k | |uploads| <= k < |trace|
      ensures trace[k].Delete?
    {
      var d := k - |uploads|;
      assert trace[|uploads| + d] == Delete(Keys.RemoteKey(prefix, deletions[d]));
    }
  }

  /** The whole run: the local inventory is read, its compressible files
      are normalised on `disk`, the bucket is listed in full, the three lists
      are computed against the fingerprints of the normalised disk, and the
      uploads and deletes are emitted. A failed listing call aborts the run
      before any storage write. Every compressible local file is on `disk`,
      since it was just enumerated. */
  method Publish(prefix: string, found: seq<string>, isDirectory: string -> bool, fileExists: string -> bool,
                 disk: map<string, Compression.Bytes>, gzip: (Compression.Bytes, int) -> Compression.Bytes,
                 digest: Compression.Bytes -> string, responses: seq<Page>)
    returns (outcome: Result<seq<Event>, ListError>)
    requires forall n :: n in PathRules.LocalFiles(found, isDirectory) && PathRules.ShouldCompress(n) ==> n in disk
    ensures outcome.Success? <==> HasFinalPage(responses)
    ensures outcome.Success? ==>
      var local := PathRules.LocalFiles(found, isDirectory);
      var objects := Flatten(responses[..FirstFinal(responses) + 1]);
      var plan := DiffEngine.ComputePlan(prefix, local, objects, fileExists,
                                         Compression.Fingerprints(local, disk, gzip, digest));
      UploadsThenDeletes(prefix, plan.newFiles + plan.changedFiles, plan.deletedFiles, outcome.value)
    ensures outcome.Success? &&
      DiffEngine.InSync(prefix, PathRules.LocalFiles(found, isDirectory), Flatten(responses[..FirstFinal(responses) + 1]),
                        fileExists, Compression.Fingerprints(PathRules.LocalFiles(found, isDirectory), disk, gzip, digest))
      ==> outcome.value == []
  {
    var local := PathRules.LocalFiles(found, isDirectory);
    var md5 := Compression.Fingerprints(local, disk, gzip, digest);
    var listing, _ := ListAll(responses);
    if listing.Failure? {
      outcome := Failure(listing.error);
      return;
    }
    var objects := listing.value;
    var plan := DiffEngine.ComputePlan(prefix, local, objects, fileExists, md5);
    if DiffEngine.InSync(prefix, local, objects, fileExists, md5) {
      DiffEngine.InSyncMeansEmptyPlan(prefix, local, objects, fileExists, md5);
    }
    var trace := EmitTrace(prefix, plan.newFiles + plan.changedFiles, plan.deletedFiles);
    outcome := Success(trace);
  }
}
