/**
 * One run of the ingestion script (`main` of `init_store.py`): merge the
 * metadata, reuse or create the remote search store, compute the documents
 * not yet uploaded, upload them one by one and save the tracker of uploaded
 * file names once at the end.
 *
 * The remote service is an oracle: the listing and creation replies are
 * values, and each upload's outcome is a function of the document.
 */
module StoreSync {
  import opened Common
  import opened Records
  import opened Metadata

  /** The display name of the store the script maintains. */
  const StoreName: string := "girogi-ai-archive"
  /** Documents strictly larger than this many bytes are skipped. */
  const MaxUploadBytes: nat := 10 * 1024 * 1024
  /** Upload display names are the stem cut to this many characters. */
  const DisplayNameLimit: nat := 100

  // ---------------------------------------------------------------- stores

  /** One listed store, with its optional `displayName` and `name` fields. */
  datatype StoreEntry = StoreEntry(displayName: Option<string>, name: Option<string>)

  /** The reply to the listing call: status and the decoded `fileSearchStores` field. */
  datatype Listing = Listing(status: nat, stores: Option<seq<StoreEntry>>)

  /** The reply to the creation call: the new store's optional `name`, or a failing status. */
  datatype Creation = Created(name: Option<string>) | CreateFailed(status: nat)

  /** `list_stores`: the listed stores on status 200, no stores otherwise. */
  function ListStores(l: Listing): (r: seq<StoreEntry>)
    ensures l.status != 200 ==> r == []
    ensures l.status == 200 && l.stores.Some? ==> r == l.stores.value
    ensures l.status == 200 && l.stores.None? ==> r == []
  {
    if l.status == 200 then l.stores.GetOr([]) else []
  }

  function DisplayNameOf(s: StoreEntry): string {
    s.displayName.GetOr("")
  }

  function IdOf(s: StoreEntry): string {
    s.name.GetOr("")
  }

  /** `stores[i]` is the last listed store whose display name is `k`. */
  predicate LastWithName(stores: seq<StoreEntry>, i: int, k: string) {
    0 <= i < |stores| && DisplayNameOf(stores[i]) == k
    && forall j :: i < j < |stores| ==> DisplayNameOf(stores[j]) != k
  }

  /**
   * The display-name-to-id dictionary built by the comprehension over the
   * listing, entry by entry.
   */
  function StoreMap(stores: seq<StoreEntry>): (m: map<string, string>)
    ensures stores != [] ==> DisplayNameOf(stores[|stores| - 1]) in m && m[DisplayNameOf(stores[|stores| - 1])] == IdOf(stores[|stores| - 1])
    decreases |stores|
  {
    if stores == [] then map[]
    else
      var n := |stores| - 1;
      StoreMap(stores[..n])[DisplayNameOf(stores[n]) := IdOf(stores[n])]
  }

  /**
   * Every listed display name is a key of the dictionary, every key is a
   * listed display name, and its id is that of the LAST entry listed with
   * that display name: a later entry overwrites an earlier one.
   */
  lemma {:induction false} StoreMapLastWins(stores: seq<StoreEntry>)
    ensures forall i :: 0 <= i < |stores| ==> DisplayNameOf(stores[i]) in StoreMap(stores)
    ensures forall k :: k in StoreMap(stores) ==>
              exists i :: LastWithName(stores, i, k) && StoreMap(stores)[k] == IdOf(stores[i])
    decreases |stores|
  {
    if stores != [] {
      var n := |stores| - 1;
      var init := stores[..n];
      StoreMapLastWins(init);
      var m := StoreMap(init);
      var last := DisplayNameOf(stores[n]);
      forall i | 0 <= i < |stores| ensures DisplayNameOf(stores[i]) in StoreMap(stores) {
        if i < n {
          assert stores[i] == init[i];
        }
      }
      forall k | k in StoreMap(stores)
        ensures exists i :: LastWithName(stores, i, k) && StoreMap(stores)[k] == IdOf(stores[i])
      {
        if k == last {
          assert LastWithName(stores, n, k);
        } else {
          var i :| LastWithName(init, i, k) && m[k] == IdOf(init[i]);
          assert stores[i] == init[i];
          assert LastWithName(stores, i, k);
        }
      }
    }
  }

  /** The store configuration written when a store is created. */
  datatype StoreConfig = StoreConfig(corpusName: string, storeName: string, dataSource: string, description: string)

  function ConfigFor(storeId: string): StoreConfig {
    StoreConfig(storeId, StoreName, "data/", "기록과사회 뉴스레터 아카이브")
  }

  // ---------------------------------------------------------------- delta

  /** The tracked names of the files in `files`. */
  function NamesOf(files: seq<DocFile>): set<string> {
    set f | f in files :: f.name
  }

  /** `new_files`: the documents whose name is not tracked, in enumeration order. */
  function NewFiles(files: seq<DocFile>, tracked: set<string>): (r: seq<DocFile>)
    ensures |r| <= |files|
    ensures forall f :: f in r <==> f in files && f.name !in tracked
    decreases |files|
  {
    if files == [] then []
    else
      var n := |files| - 1;
      assert forall f :: f in files <==> f in files[..n] || f == files[n];
      NewFiles(files[..n], tracked) + (if files[n].name !in tracked then [files[n]] else [])
  }

  /** Once every name is tracked the delta is empty. */
  lemma {:induction false} NewFilesAllTracked(files: seq<DocFile>, tracked: set<string>)
    requires forall f :: f in files ==> f.name in tracked
    ensures NewFiles(files, tracked) == []
    decreases |files|
  {
    if files != [] {
      var n := |files| - 1;
      assert files == files[..n] + [files[n]];
      NewFilesAllTracked(files[..n], tracked);
    }
  }

  /** The delta keeps enumeration order: it distributes over concatenation. */
  lemma {:induction false} NewFilesOrder(a: seq<DocFile>, b: seq<DocFile>, tracked: set<string>)
    ensures NewFiles(a + b, tracked) == NewFiles(a, tracked) + NewFiles(b, tracked)
    decreases |b|
  {
    if b == [] {
      assert a + b == a;
    } else {
      var n := |b| - 1;
      assert (a + b)[..|a + b| - 1] == a + b[..n];
      NewFilesOrder(a, b[..n], tracked);
    }
  }

  // ---------------------------------------------------------------- uploads

  /** What one upload call produced: an HTTP status, or an exception. */
  datatype UploadOutcome = Responded(status: nat) | Raised

  /** `upload_file` reports success exactly on status 200 or 202; an exception is a failure. */
  predicate UploadSucceeded(o: UploadOutcome): (ok: bool)
    ensures ok <==> o in {Responded(200), Responded(202)}
  {
    o.Responded? && (o.status == 200 || o.status == 202)
  }

  /** The display name sent with an upload: the stem cut to 100 characters. */
  function UploadDisplayName(stem: string): (d: string)
    ensures |d| <= DisplayNameLimit
    ensures d == stem[..Min(DisplayNameLimit, |stem|)]
    ensures |stem| <= DisplayNameLimit ==> d == stem
  {
    Take(stem, DisplayNameLimit)
  }

  /** The documents small enough to be uploaded, in order. */
  function Attempted(files: seq<DocFile>): seq<DocFile>
    decreases |files|
  {
    if files == [] then []
    else
      var n := |files| - 1;
      Attempted(files[..n]) + (if files[n].size <= MaxUploadBytes then [files[n]] else [])
  }

  /** The documents whose upload was attempted and succeeded, in order. */
  function Succeeded(files: seq<DocFile>, upload: DocFile -> UploadOutcome): seq<DocFile>
    decreases |files|
  {
    if files == [] then []
    else
      var n := |files| - 1;
      var f := files[n];
      Succeeded(files[..n], upload) + (if f.size <= MaxUploadBytes && UploadSucceeded(upload(f)) then [f] else [])
  }

  /** The display names sent, one per attempted upload, in order. */
  function Requests(files: seq<DocFile>): seq<string>
    decreases |files|
  {
    if files == [] then []
    else
      var n := |files| - 1;
      Requests(files[..n]) + (if files[n].size <= MaxUploadBytes then [UploadDisplayName(files[n].stem)] else [])
  }

  /** Every success was attempted, and every attempt is one of the documents. */
  lemma {:induction false} TallyBounds(files: seq<DocFile>, upload: DocFile -> UploadOutcome)
    ensures |Succeeded(files, upload)| <= |Attempted(files)| <= |files|
    ensures |Requests(files)| == |Attempted(files)|
    decreases |files|
  {
    if files != [] {
      TallyBounds(files[..|files| - 1], upload);
    }
  }

  /** A document is among the successes exactly when it is small enough and its upload succeeded. */
  lemma {:induction false} SucceededMembers(files: seq<DocFile>, upload: DocFile -> UploadOutcome)
    ensures forall f :: f in Succeeded(files, upload) <==>
                          f in files && f.size <= MaxUploadBytes && UploadSucceeded(upload(f))
    decreases |files|
  {
    if files != [] {
      var n := |files| - 1;
      SucceededMembers(files[..n], upload);
      assert forall f :: f in files <==> f in files[..n] || f == files[n];
    }
  }

  /** No two documents share a file name (a directory listing). */
  predicate DistinctNames(files: seq<DocFile>) {
    forall i, j :: 0 <= i < j < |files| ==> files[i].name != files[j].name
  }

  /** An oversized document is never added to the tracked names. */
  lemma OversizedNeverTracked(files: seq<DocFile>, upload: DocFile -> UploadOutcome, f: DocFile)
    requires DistinctNames(files)
    requires f in files && f.size > MaxUploadBytes
    ensures f.name !in NamesOf(Succeeded(files, upload))
  {
    SucceededMembers(files, upload);
    var i :| 0 <= i < |files| && files[i] == f;
    forall g | g in Succeeded(files, upload) ensures g.name != f.name {
      var j :| 0 <= j < |files| && files[j] == g;
      assert g.size <= MaxUploadBytes;
      assert i != j;
    }
  }

  /**
   * The upload loop over `newFiles`: documents over the size ceiling are
   * skipped, the others uploaded; a success adds the name to the tracked
   * set and counts as uploaded, anything else counts as failed.
   */
  method UploadNewFiles(newFiles: seq<DocFile>, tracked: set<string>, upload: DocFile -> UploadOutcome)
    returns (tracked': set<string>, uploaded: nat, failed: nat, skipped: nat, sent: seq<string>)
    ensures tracked' == tracked + NamesOf(Succeeded(newFiles, upload))
    ensures sent == Requests(newFiles)
    ensures uploaded == |Succeeded(newFiles, upload)|
    ensures uploaded + failed == |Attempted(newFiles)|
    ensures uploaded + failed + skipped == |newFiles|
  {
    tracked', uploaded, failed, skipped, sent := tracked, 0, 0, 0, [];
    for i := 0 to |newFiles|
      invariant tracked' == tracked + NamesOf(Succeeded(newFiles[..i], upload))
      invariant sent == Requests(newFiles[..i])
      invariant uploaded == |Succeeded(newFiles[..i], upload)|
      invariant uploaded + failed == |Attempted(newFiles[..i])|
      invariant uploaded + failed + skipped == i
    {
      var f := newFiles[i];
      assert newFiles[..i + 1][..i] == newFiles[..i];
      if f.size > MaxUploadBytes {
        skipped := skipped + 1;
        continue;
      }
      sent := sent + [UploadDisplayName(f.stem)];
      if UploadSucceeded(upload(f)) {
        uploaded := uploaded + 1;
        tracked' := tracked' + {f.name};
      } else {
        failed := failed + 1;
      }
    }
    assert newFiles[..|newFiles|] == newFiles;
  }

  // ---------------------------------------------------------------- a run

  /** Everything a run reads: the local snapshots and the remote oracle. */
  datatype Env = Env(
    existing: map<string, Record>,       // article_metadata.json as loaded ({} when absent or corrupt)
    folder: Option<seq<DocFile>>,        // data/*.md in enumeration order; None when data/ is missing
    decode: string -> Option<Value>,     // the YAML decoder; None when it raises
    apiKey: Option<string>,              // the GEMINI_API_KEY environment variable
    listing: Listing,
    creation: Creation,
    tracked: set<string>,                // .uploaded_files.json as loaded
    upload: DocFile -> UploadOutcome)

  /** Where a run stops. */
  datatype Stop = MissingApiKey | StoreCreationFailed(status: nat) | MissingDataFolder | NothingToUpload | Finished

  /** What a run writes and sends: each `Some` is a file saved once. */
  datatype Report = Report(
    savedMetadata: Option<map<string, Record>>,
    savedConfig: Option<StoreConfig>,
    storeId: Option<string>,
    savedTracker: Option<set<string>>,
    sent: seq<string>,
    uploaded: nat,
    failed: nat,
    skipped: nat,
    stop: Stop)

  /** A missing or empty key aborts the remote part of the run. */
  predicate HasApiKey(key: Option<string>) {
    key.Some? && key.value != ""
  }

  /** The merged metadata of a run (the loaded map when the data folder is missing). */
  function MergedMetadata(env: Env): map<string, Record> {
    if env.folder.None? then env.existing else Merge(env.existing, env.folder.value, env.decode)
  }

  /** The metadata file is written only when the merged map is not empty. */
  function SavedMetadata(env: Env): Option<map<string, Record>> {
    var m := MergedMetadata(env);
    if m != map[] then Some(m) else None
  }

  /** The rest of a run once the store id is known. */
  function RunAfterStore(env: Env, config: Option<StoreConfig>, storeId: string): Report {
    var saved := SavedMetadata(env);
    if env.folder.None? then
      Report(saved, config, Some(storeId), None, [], 0, 0, 0, MissingDataFolder)
    else
      var newFiles := NewFiles(env.folder.value, env.tracked);
      if newFiles == [] then
        Report(saved, config, Some(storeId), None, [], 0, 0, 0, NothingToUpload)
      else
        TallyBounds(newFiles, env.upload);
        var up := |Succeeded(newFiles, env.upload)|;
        var tried := |Attempted(newFiles)|;
        Report(saved, config, Some(storeId),
               Some(env.tracked + NamesOf(Succeeded(newFiles, env.upload))),
               Requests(newFiles), up, tried - up, |newFiles| - tried, Finished)
  }

  /** The whole run, as a function of what it reads. */
  function Run(env: Env): (r: Report)
    ensures r.savedMetadata == SavedMetadata(env)
    ensures r.stop == MissingApiKey <==> !HasApiKey(env.apiKey)
    ensures r.storeId.None? <==> r.stop.MissingApiKey? || r.stop.StoreCreationFailed?
  {
    var saved := SavedMetadata(env);
    if !HasApiKey(env.apiKey) then
      Report(saved, None, None, None, [], 0, 0, 0, MissingApiKey)
    else
      var stores := StoreMap(ListStores(env.listing));
      if StoreName in stores then
        RunAfterStore(env, None, stores[StoreName])
      else
        match env.creation
        case CreateFailed(status) => Report(saved, None, None, None, [], 0, 0, 0, StoreCreationFailed(status))
        case Created(name) => RunAfterStore(env, Some(ConfigFor(name.GetOr(""))), name.GetOr(""))
  }

  /** `main` of the ingestion script. */
  method Sync(env: Env) returns (report: Report)
    ensures report == Run(env)
  {
    var metadata, _ := GenerateMetadata(env.existing, env.folder, env.decode);
    var saved := if metadata != map[] then Some(metadata) else None;
    if !HasApiKey(env.apiKey) {
      return Report(saved, None, None, None, [], 0, 0, 0, MissingApiKey);
    }
    var stores := StoreMap(ListStores(env.listing));
    var storeId: string;
    var config: Option<StoreConfig> := None;
    if StoreName in stores {
      storeId := stores[StoreName];
    } else {
      match env.creation
      case CreateFailed(status) =>
        return Report(saved, None, None, None, [], 0, 0, 0, StoreCreationFailed(status));
      case Created(name) =>
        storeId := name.GetOr("");
        config := Some(ConfigFor(storeId));
    }
    if env.folder.None? {
      return Report(saved, config, Some(storeId), None, [], 0, 0, 0, MissingDataFolder);
    }
    var newFiles := NewFiles(env.folder.value, env.tracked);
    if newFiles == [] {
      return Report(saved, config, Some(storeId), None, [], 0, 0, 0, NothingToUpload);
    }
    var tracked, uploaded, failed, skipped, sent := UploadNewFiles(newFiles, env.tracked, env.upload);
    TallyBounds(newFiles, env.upload);
    report := Report(saved, config, Some(storeId), Some(tracked), sent, uploaded, failed, skipped, Finished);
  }

  // ---------------------------------------------------------------- properties of a run

  /**
   * The metadata a run saves keeps every loaded record unchanged; it is not
   * saved only when nothing was loaded and nothing was found.
   */
  lemma RunKeepsMetadata(env: Env)
    ensures Run(env).savedMetadata.Some? ==>
              forall k :: k in env.existing ==> k in Run(env).savedMetadata.value
                                                && Run(env).savedMetadata.value[k] == env.existing[k]
    ensures Run(env).savedMetadata.None? ==> env.existing == map[]
    ensures Run(env).savedMetadata == SavedMetadata(env)
    ensures MergedMetadata(env) != map[] ==> Run(env).savedMetadata == Some(MergedMetadata(env))
  {
    if env.folder.Some? {
      MergeKeepsExisting(env.existing, env.folder.value, env.decode);
    }
  }

  /**
   * Store selection: a listed store with the configured display name is
   * reused (the last one listed with that name) and no configuration is
   * written; otherwise a store is created and its configuration written once.
   */
  lemma RunSelectsStore(env: Env)
    requires HasApiKey(env.apiKey)
    ensures var stores := ListStores(env.listing);
            (exists i :: 0 <= i < |stores| && DisplayNameOf(stores[i]) == StoreName) ==>
              && Run(env).savedConfig.None?
              && exists i :: LastWithName(stores, i, StoreName) && Run(env).storeId == Some(IdOf(stores[i]))
    ensures Run(env).savedConfig.Some? ==>
              && env.creation.Created?
              && Run(env).savedConfig.value == ConfigFor(env.creation.name.GetOr(""))
              && Run(env).storeId == Some(env.creation.name.GetOr(""))
              && forall i :: 0 <= i < |ListStores(env.listing)| ==> DisplayNameOf(ListStores(env.listing)[i]) != StoreName
  {
    StoreMapLastWins(ListStores(env.listing));
  }

  /**
   * The tracker: saved only by a run that uploaded a non-empty delta, and
   * then it is the loaded set plus the names of the successful uploads, so
   * it only grows; the three counters add up to the size of the delta.
   */
  lemma RunTracksUploads(env: Env)
    ensures Run(env).savedTracker.Some? <==> Run(env).stop == Finished
    ensures Run(env).stop == Finished ==>
              && env.folder.Some?
              && var newFiles := NewFiles(env.folder.value, env.tracked);
              && newFiles != []
              && Run(env).savedTracker.value == env.tracked + NamesOf(Succeeded(newFiles, env.upload))
              && env.tracked <= Run(env).savedTracker.value
              && Run(env).uploaded + Run(env).failed + Run(env).skipped == |newFiles|
    ensures Run(env).stop != Finished ==> Run(env).sent == []
  {
    if Run(env).stop == Finished {
      TallyBounds(NewFiles(env.folder.value, env.tracked), env.upload);
    }
  }

  /**
   * The create branch: with a key, no listed store of the configured name
   * and a successful creation, the run uses the new store's id and writes
   * its configuration.
   */
  lemma RunCreatesStore(env: Env)
    requires HasApiKey(env.apiKey) && env.creation.Created?
    requires forall i :: 0 <= i < |ListStores(env.listing)| ==> DisplayNameOf(ListStores(env.listing)[i]) != StoreName
    ensures Run(env).savedConfig == Some(ConfigFor(env.creation.name.GetOr("")))
    ensures Run(env).storeId == Some(env.creation.name.GetOr(""))
  {
    StoreMapLastWins(ListStores(env.listing));
  }

  /** A failed creation ends the run with no store, no configuration and no uploads. */
  lemma RunCreationFails(env: Env)
    requires HasApiKey(env.apiKey) && env.creation.CreateFailed?
    requires forall i :: 0 <= i < |ListStores(env.listing)| ==> DisplayNameOf(ListStores(env.listing)[i]) != StoreName
    ensures Run(env).stop == StoreCreationFailed(env.creation.status)
    ensures Run(env).savedConfig.None? && Run(env).storeId.None? && Run(env).sent == []
  {
    StoreMapLastWins(ListStores(env.listing));
  }

  /**
   * A run with a key, a store, the data folder and a non-empty delta reaches
   * the upload loop: it sends one request per attempted document of the
   * delta and saves the tracker.
   */
  lemma RunReachesUploads(env: Env)
    requires HasApiKey(env.apiKey)
    requires StoreName in StoreMap(ListStores(env.listing)) || env.creation.Created?
    requires env.folder.Some? && NewFiles(env.folder.value, env.tracked) != []
    ensures Run(env).stop == Finished
    ensures Run(env).sent == Requests(NewFiles(env.folder.value, env.tracked))
    ensures Run(env).savedTracker.Some?
  {
  }

  /** A run that reaches the uploads had a key and a store id. */
  lemma FinishedRunHadStore(env: Env)
    requires Run(env).stop == Finished
    ensures HasApiKey(env.apiKey)
    ensures StoreName in StoreMap(ListStores(env.listing)) || env.creation.Created?
  {
  }

  /** A run whose delta is empty stops before any upload and writes no tracker. */
  lemma EmptyDeltaStops(env: Env)
    requires env.folder.Some? && NewFiles(env.folder.value, env.tracked) == []
    requires HasApiKey(env.apiKey)
    requires StoreName in StoreMap(ListStores(env.listing)) || env.creation.Created?
    ensures Run(env).stop == NothingToUpload && Run(env).sent == [] && Run(env).savedTracker.None?
    ensures Run(env).savedMetadata == SavedMetadata(env)
    ensures StoreName in StoreMap(ListStores(env.listing)) ==>
              Run(env).savedConfig.None? && Run(env).storeId == Some(StoreMap(ListStores(env.listing))[StoreName])
  {
  }

  /**
   * The listing a later run sees: the store a run created is now listed,
   * after the stores listed before.
   */
  function ListingAfter(env: Env): Listing {
    var first := Run(env);
    if first.savedConfig.Some? && first.storeId.Some? then
      Listing(200, Some(ListStores(env.listing) + [StoreEntry(Some(StoreName), first.storeId)]))
    else env.listing
  }

  /** After a run that got a store, the configured name is listed and maps to that store. */
  lemma ListingAfterHasStore(env: Env)
    requires Run(env).storeId.Some?
    ensures var stores := StoreMap(ListStores(ListingAfter(env)));
            StoreName in stores && stores[StoreName] == Run(env).storeId.value
  {
    StoreMapLastWins(ListStores(env.listing));
    var first := Run(env);
    if first.savedConfig.Some? {
      var listed := ListStores(env.listing) + [StoreEntry(Some(StoreName), first.storeId)];
      assert ListStores(ListingAfter(env)) == listed;
      assert DisplayNameOf(listed[|listed| - 1]) == StoreName;
    }
  }

  /**
   * Re-running on the state a run left behind (its metadata, its tracker,
   * and the store it created now listed): when the first run uploaded every
   * document of its delta, the second reuses the same store without writing
   * a configuration, finds nothing to upload, sends nothing, leaves the
   * tracker file alone and saves the same metadata.
   */
  lemma SecondRunUploadsNothing(env: Env)
    requires env.folder.Some? && Run(env).stop == Finished
    requires var newFiles := NewFiles(env.folder.value, env.tracked);
             Succeeded(newFiles, env.upload) == newFiles
    ensures var first := Run(env);
            var again := Run(env.(existing := MergedMetadata(env), tracked := first.savedTracker.value,
                                  listing := ListingAfter(env)));
            && again.stop == NothingToUpload
            && again.sent == []
            && again.savedTracker.None?
            && again.savedMetadata == first.savedMetadata
            && again.savedConfig.None?
            && again.storeId == first.storeId
  {
    var files := env.folder.value;
    var newFiles := NewFiles(files, env.tracked);
    RunTracksUploads(env);
    FinishedRunHadStore(env);
    var tracked' := env.tracked + NamesOf(newFiles);
    assert Run(env).savedTracker == Some(tracked');
    var env2 := env.(existing := MergedMetadata(env), tracked := tracked', listing := ListingAfter(env));
    MergeIdempotent(env.existing, files, env.decode);
    assert MergedMetadata(env2) == MergedMetadata(env);
    assert SavedMetadata(env2) == SavedMetadata(env);
    forall f | f in files ensures f.name in tracked' {
      if f.name !in env.tracked {
        assert f in newFiles;
      }
    }
    NewFilesAllTracked(files, tracked');
    ListingAfterHasStore(env);
    EmptyDeltaStops(env2);
  }
}
