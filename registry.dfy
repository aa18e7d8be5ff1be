/** The web application's registry of download jobs (`download_progress`):
    one progress record per job id, written by the download thread and read
    by the progress, file and cleanup endpoints. Every block the program runs
    under `download_lock` is one method call here. */
module Registry {
  import opened Base
  import opened Records

  type JobId = string

  // ---------------------------------------------------------------------
  // The records the writers produce

  /** The record a job starts with, stamped with the current time. */
  function InitialRecord(now: real): (r: Record)
    ensures WellTyped(r)
    ensures r.Keys == {Status, Percent, Speed, Eta, Filesize, Filename, Message, StartTime}
    ensures HasText(r, Status, "starting") && r[Percent] == Number(0.0)
    ensures HasText(r, Speed, "0 MB/s") && HasText(r, Eta, "Unknown") && HasText(r, Filesize, "0 MB")
    ensures HasText(r, Filename, "") && HasText(r, Message, "Starting download...")
    ensures r[StartTime] == Number(now)
  {
    map[Status := Str("starting"), Percent := Number(0.0), Speed := Str("0 MB/s"),
        Eta := Str("Unknown"), Filesize := Str("0 MB"), Filename := Str(""),
        Message := Str("Starting download..."), StartTime := Number(now)]
  }

  /** `record.update(patch)`: the keys of the patch are overwritten or added,
      every other key keeps its value. */
  function Merge(r: Record, patch: Record): (m: Record)
    ensures m.Keys == r.Keys + patch.Keys
    ensures forall f :: f in patch ==> m[f] == patch[f]
    ensures forall f :: f in r && f !in patch ==> m[f] == r[f]
  {
    r + patch
  }

  lemma MergeWellTyped(r: Record, patch: Record)
    requires WellTyped(r) && WellTyped(patch)
    ensures WellTyped(Merge(r, patch))
  {
  }

  /** The fields the success writer sets. */
  const CompletionFields: set<Field> := {Status, Filepath, Filename, Message, Percent}

  /** The record after the success writer: completed, with the file's path and
      base name, a success message and 100 percent; nothing else changes. */
  function Completed(r: Record, path: string): (m: Record)
    ensures m.Keys == r.Keys + CompletionFields
    ensures HasText(m, Status, "completed") && HasText(m, Filepath, path)
    ensures HasText(m, Filename, Basename(path))
    ensures HasText(m, Message, "Download completed successfully!")
    ensures m[Percent] == Number(100.0)
    ensures forall f :: f in r && f !in CompletionFields ==> m[f] == r[f]
  {
    r[Status := Str("completed")][Filepath := Str(path)][Filename := Str(Basename(path))]
     [Message := Str("Download completed successfully!")][Percent := Number(100.0)]
  }

  /** The record after a failure writer: status "error" and the message;
      nothing else changes. */
  function Failed(r: Record, message: string): (m: Record)
    ensures m.Keys == r.Keys + {Status, Message}
    ensures HasText(m, Status, "error") && HasText(m, Message, message)
    ensures forall f :: f in r && f != Status && f != Message ==> m[f] == r[f]
  {
    r[Status := Str("error")][Message := Str(message)]
  }

  lemma WritersWellTyped(r: Record, path: string, message: string)
    requires WellTyped(r)
    ensures WellTyped(Completed(r, path)) && WellTyped(Failed(r, message))
  {
    var c := Completed(r, path);
    assert c == r[Status := Str("completed")][Filepath := Str(path)][Filename := Str(Basename(path))]
                 [Message := Str("Download completed successfully!")][Percent := Number(100.0)];
    assert NumberAt(c, StartTime) && TextAt(c, Speed) && TextAt(c, Eta) && TextAt(c, Filesize);
  }

  /** No writer looks at the status it replaces: success after a failure
      reports success, and a failure after success reports failure, keeping
      the path of the completed file. */
  lemma WritersIgnorePriorStatus(r: Record, path: string, message: string)
    ensures HasText(Completed(Failed(r, message), path), Status, "completed")
    ensures HasText(Failed(Completed(r, path), message), Status, "error")
    ensures HasText(Failed(Completed(r, path), message), Filepath, path)
  {
    var c := Completed(r, path);
    assert HasText(c, Filepath, path);
    assert Failed(c, message)[Filepath] == c[Filepath];
  }

  /** What `/progress/<id>` answers for an id that is not registered. */
  const NotFoundRecord: Record :=
    map[Status := Str("unknown"), Message := Str("Download not found or expired")]

  // ---------------------------------------------------------------------
  // Expiry

  /** `progress.get('start_time', 0)`. */
  function StartOf(r: Record): real {
    if StartTime in r && r[StartTime].Number? then r[StartTime].x else 0.0
  }

  /** A job is evicted when more than an hour has passed since it started. */
  predicate Expired(r: Record, now: real) {
    now - StartOf(r) > 3600.0
  }

  function ExpiredIds(jobs: map<JobId, Record>, now: real): (ids: set<JobId>)
    ensures ids <= jobs.Keys
  {
    set id | id in jobs && Expired(jobs[id], now)
  }

  /** The registry after eviction: the expired jobs are gone, the others are
      as they were. */
  function Sweep(jobs: map<JobId, Record>, now: real): (m: map<JobId, Record>)
    ensures m.Keys == jobs.Keys - ExpiredIds(jobs, now)
    ensures forall id :: id in m ==> m[id] == jobs[id]
  {
    map id | id in jobs && !Expired(jobs[id], now) :: jobs[id]
  }

  /** A second sweep at the same time finds nothing left to evict. */
  lemma SweepTwice(jobs: map<JobId, Record>, now: real)
    ensures ExpiredIds(Sweep(jobs, now), now) == {}
    ensures Sweep(Sweep(jobs, now), now) == Sweep(jobs, now)
  {
    var m := Sweep(jobs, now);
    forall id | id in m ensures !Expired(m[id], now) {
      assert id !in ExpiredIds(jobs, now);
    }
  }

  /** A job registered at `start` is evicted by a sweep at `now` exactly when
      `now - start > 3600`. */
  lemma FreshJobExpiry(start: real, now: real)
    ensures Expired(InitialRecord(start), now) <==> now - start > 3600.0
  {
  }

  /** A patch without `start_time` does not move a job's eviction time. */
  lemma MergeKeepsExpiry(r: Record, patch: Record, now: real)
    requires StartTime !in patch
    ensures Expired(Merge(r, patch), now) <==> Expired(r, now)
  {
  }

  /** The writers do not move a job's eviction time either. */
  lemma WritersKeepExpiry(r: Record, path: string, message: string, now: real)
    ensures Expired(Completed(r, path), now) <==> Expired(r, now)
    ensures Expired(Failed(r, message), now) <==> Expired(r, now)
  {
  }

  /** A sequence without repetitions has as many elements as its set. */
  lemma {:induction false} DistinctCard(s: seq<JobId>)
    requires forall i, j :: 0 <= i < j < |s| ==> s[i] != s[j]
    ensures |set k | k in s| == |s|
  {
    if s != [] {
      var init := s[..|s| - 1];
      DistinctCard(init);
      var last := s[|s| - 1];
      assert (set k | k in s) == (set k | k in init) + {last};
      assert last !in (set k | k in init);
    }
  }

  /** Every record of the registry has the shape its writers give it. */
  predicate AllWellTyped(jobs: map<JobId, Record>) {
    forall id :: id in jobs ==> WellTyped(jobs[id])
  }

  /** Storing a well-typed record keeps every record of the registry
      well-typed. */
  lemma StoreWellTyped(jobs: map<JobId, Record>, id: JobId, r: Record)
    requires AllWellTyped(jobs) && WellTyped(r)
    ensures AllWellTyped(jobs[id := r])
  {
  }

  // ---------------------------------------------------------------------
  // The registry

  /** What `/download_file/<id>` answers: the file to send under its name,
      or a refusal with its status code. */
  datatype Reply = Serve(path: string, downloadName: string) | Refuse(code: nat, error: string)

  /** `filepath` is truthy and names a file that exists. */
  predicate ServablePath(r: Record, files: set<string>)
    requires WellTyped(r)
  {
    Filepath in r && r[Filepath].shown.text != "" && r[Filepath].shown.text in files
  }

  class JobRegistry {
    var jobs: map<JobId, Record>

    predicate Valid()
      reads this
    {
      AllWellTyped(jobs)
    }

    constructor()
      ensures Valid() && jobs == map[]
    {
      jobs := map[];
    }

    /** The download thread's first step: a fresh record for the job. A
        record already under the id is replaced. */
    method Register(id: JobId, now: real)
      requires Valid()
      modifies this
      ensures Valid()
      ensures jobs == old(jobs)[id := InitialRecord(now)]
    {
      StoreWellTyped(jobs, id, InitialRecord(now));
      jobs := jobs[id := InitialRecord(now)];
    }

    /** `update_progress(id, info)`: the snapshot is merged into the job's
        record; a job that is not (or no longer) registered is left alone. */
    method UpdateProgress(id: JobId, info: Record)
      requires Valid() && WellTyped(info)
      modifies this
      ensures Valid()
      ensures id in old(jobs) ==> jobs == old(jobs)[id := Merge(old(jobs)[id], info)]
      ensures id !in old(jobs) ==> jobs == old(jobs)
    {
      if id in jobs {
        var updated := Merge(jobs[id], info);
        MergeWellTyped(jobs[id], info);
        StoreWellTyped(jobs, id, updated);
        jobs := jobs[id := updated];
      }
    }

    /** The success writer. Its first assignment raises KeyError when the job
        has been evicted, so then nothing changes. */
    method MarkCompleted(id: JobId, path: string)
      requires Valid()
      modifies this
      ensures Valid()
      ensures id in old(jobs) ==> jobs == old(jobs)[id := Completed(old(jobs)[id], path)]
      ensures id !in old(jobs) ==> jobs == old(jobs)
    {
      if id in jobs {
        var updated := Completed(jobs[id], path);
        WritersWellTyped(jobs[id], path, "");
        StoreWellTyped(jobs, id, updated);
        jobs := jobs[id := updated];
      }
    }

    /** A failure writer; like the success writer it changes nothing for an
        evicted job. */
    method MarkFailed(id: JobId, message: string)
      requires Valid()
      modifies this
      ensures Valid()
      ensures id in old(jobs) ==> jobs == old(jobs)[id := Failed(old(jobs)[id], message)]
      ensures id !in old(jobs) ==> jobs == old(jobs)
    {
      if id in jobs {
        var updated := Failed(jobs[id], message);
        WritersWellTyped(jobs[id], "", message);
        StoreWellTyped(jobs, id, updated);
        jobs := jobs[id := updated];
      }
    }

    /** The end of the download thread once `download` has returned: success
        when it returned a path (a non-empty one) that exists, "file not
        found" otherwise. */
    method FinishDownload(id: JobId, filepath: Option<string>, files: set<string>)
      requires Valid()
      modifies this
      ensures Valid()
      ensures id !in old(jobs) ==> jobs == old(jobs)
      ensures id in old(jobs) && filepath.Some? && filepath.value != "" && filepath.value in files ==>
                jobs == old(jobs)[id := Completed(old(jobs)[id], filepath.value)]
      ensures id in old(jobs) && !(filepath.Some? && filepath.value != "" && filepath.value in files) ==>
                jobs == old(jobs)[id := Failed(old(jobs)[id], "Download failed - file not found")]
    {
      if filepath.Some? && filepath.value != "" && filepath.value in files {
        MarkCompleted(id, filepath.value);
      } else {
        MarkFailed(id, "Download failed - file not found");
      }
    }

    /** The thread's exception handler. */
    method RecordException(id: JobId, error: string)
      requires Valid()
      modifies this
      ensures Valid()
      ensures id in old(jobs) ==> jobs == old(jobs)[id := Failed(old(jobs)[id], "Error: " + error)]
      ensures id !in old(jobs) ==> jobs == old(jobs)
    {
      MarkFailed(id, "Error: " + error);
    }

    /** `/progress/<id>`: the job's record, or the "not found" record. */
    method GetProgress(id: JobId) returns (r: Record)
      ensures id in jobs ==> r == jobs[id]
      ensures id !in jobs ==> r == NotFoundRecord
    {
      r := if id in jobs then jobs[id] else NotFoundRecord;
    }

    /** `/download_file/<id>`: the file is served only for a completed job
        whose path is set and exists, under the recorded file name (or
        "download"); every other case is refused with 404. */
    method DownloadFile(id: JobId, files: set<string>) returns (reply: Reply)
      requires Valid()
      ensures (id !in jobs || !HasText(jobs[id], Status, "completed")) ==>
                reply == Refuse(404, "File not available or download not completed")
      ensures id in jobs && HasText(jobs[id], Status, "completed") && !ServablePath(jobs[id], files) ==>
                reply == Refuse(404, "File not found on server")
      ensures reply.Serve? <==>
                id in jobs && HasText(jobs[id], Status, "completed") && ServablePath(jobs[id], files)
      ensures reply.Serve? ==>
                && reply.path == jobs[id][Filepath].shown.text
                && reply.downloadName ==
                     (if Filename in jobs[id] then jobs[id][Filename].shown.text else "download")
    {
      if id !in jobs || !HasText(jobs[id], Status, "completed") {
        return Refuse(404, "File not available or download not completed");
      }
      var progress := jobs[id];
      if !ServablePath(progress, files) {
        return Refuse(404, "File not found on server");
      }
      var name := if Filename in progress then progress[Filename].shown.text else "download";
      reply := Serve(progress[Filepath].shown.text, name);
    }

    /** The first loop of `/cleanup`: the ids of the jobs started more than
        an hour before `now`, each once. */
    method CollectExpired(now: real) returns (toRemove: seq<JobId>)
      ensures forall i, j :: 0 <= i < j < |toRemove| ==> toRemove[i] != toRemove[j]
      ensures forall k :: k in toRemove <==> k in ExpiredIds(jobs, now)
    {
      var pending := jobs.Keys;
      toRemove := [];
      while pending != {}
        invariant pending <= jobs.Keys
        invariant forall i, j :: 0 <= i < j < |toRemove| ==> toRemove[i] != toRemove[j]
        invariant forall k :: k in toRemove <==> k in jobs && k !in pending && Expired(jobs[k], now)
        decreases |pending|
      {
        var id :| id in pending;
        if Expired(jobs[id], now) {
          toRemove := toRemove + [id];
        }
        pending := pending - {id};
      }
    }

    /** The second loop of `/cleanup`: each id is deleted in turn. `del`
        raises on an id that is absent, so every id must be present and
        listed once. */
    method DeleteAll(ids: seq<JobId>)
      requires Valid()
      requires forall k :: k in ids ==> k in jobs
      requires forall i, j :: 0 <= i < j < |ids| ==> ids[i] != ids[j]
      modifies this
      ensures Valid()
      ensures jobs == map k | k in old(jobs) && k !in ids :: old(jobs)[k]
    {
      for i := 0 to |ids|
        invariant jobs == map k | k in old(jobs) && k !in ids[..i] :: old(jobs)[k]
      {
        assert ids[..i + 1] == ids[..i] + [ids[i]];
        assert ids[i] in jobs by {
          assert ids[i] !in ids[..i];
        }
        jobs := jobs - {ids[i]};
      }
      assert ids[..|ids|] == ids;
    }

    /** `/cleanup` at time `now`: every job started more than an hour ago is
        evicted, every other job is kept as it is, and the number evicted is
        reported. */
    method Cleanup(now: real) returns (removed: nat)
      requires Valid()
      modifies this
      ensures Valid()
      ensures jobs == Sweep(old(jobs), now)
      ensures removed == |ExpiredIds(old(jobs), now)|
    {
      var toRemove := CollectExpired(now);
      assert (set k | k in toRemove) == ExpiredIds(jobs, now);
      DistinctCard(toRemove);
      DeleteAll(toRemove);
      removed := |toRemove|;
    }
  }
}
