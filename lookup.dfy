/** `PoseLookup` of `lookup/lookup.py`: from a (word, gloss) pair to a pose.

    The lookup probes the words index with the word, the glosses index with
    the word and the glosses index with the gloss; the first bucket found
    gives one entry through `get_best_row`, and that entry's pose file is read
    (through the cache) and cut to the entry's time range. A miss falls back
    to the backup signed language, then to the backup resolver, and finally
    raises `FileNotFoundError`.

    Pose files are an uninterpreted `Storage` function from a location to the
    pose stored there, `None` when there is no such file; the backup resolver
    is a function from the four lookup arguments to its result. */
module Lookup {
  import opened Wrappers
  import opened PyStrings
  import opened Poses
  import opened LookupIndex
  import Languages
  import LruCache

  /** Where a pose file is read from: a Google Cloud Storage URL, or a path
      on the local file system. */
  datatype Location = Gcs(url: string) | Local(path: string)

  type Storage = Location -> Option<PoseData>

  /** The resolver called with `(word, gloss, spoken, signed)` on a miss. */
  type Backup = (Option<string>, string, string, string) -> Result<PoseData>

  type CacheState = LruCache.State<string, PoseData>

  /** The parts of a `PoseLookup` that never change after construction. */
  datatype Config = Config(
    directory: Option<string>,
    wordsIndex: Index,
    glossesIndex: Index,
    backup: Option<Backup>,
    storage: Storage,
    maxsize: int)

  // ---------------------------------------------------------------------
  // read_pose

  /** `os.path.join(a, b)`: an absolute `b` replaces `a`; otherwise a '/'
      is inserted unless `a` is empty or already ends with one. */
  function PathJoin(a: string, b: string): string {
    if StartsWith(b, "/") then b
    else if a == [] || EndsWith(a, "/") then a + b
    else a + "/" + b
  }

  /** A relative path is appended under the directory. */
  lemma PathJoinSpec(a: string, b: string)
    ensures StartsWith(b, "/") ==> PathJoin(a, b) == b
    ensures !StartsWith(b, "/") ==> StartsWith(PathJoin(a, b), a) && EndsWith(PathJoin(a, b), b)
    ensures !StartsWith(b, "/") ==> |PathJoin(a, b)| <= |a| + 1 + |b|
  {
    var r := PathJoin(a, b);
    if !StartsWith(b, "/") {
      assert r[..|a|] == a;
      assert r[|r| - |b|..] == b;
    }
  }

  /** The location `read_pose(path)` opens, or what it raises before. */
  function Locate(directory: Option<string>, path: string): Result<Location> {
    if StartsWith(path, "gs://") then Ok(Gcs(path))
    else if StartsWith(path, "https://") then Err(NotImplementedError)
    else if directory.None? then Err(ValueError)
    else Ok(Local(PathJoin(directory.value, path)))
  }

  /** "gs://" paths need no directory, "https://" paths are never read, and
      any other path is read from under the directory. */
  lemma LocateSchemes(directory: Option<string>, path: string)
    ensures StartsWith(path, "gs://") ==> Locate(directory, path) == Ok(Gcs(path))
    ensures StartsWith(path, "https://") ==> Locate(directory, path) == Err(NotImplementedError)
    ensures Locate(directory, path).Ok? && Locate(directory, path).value.Local? ==>
      directory.Some? && !StartsWith(path, "gs://") && !StartsWith(path, "https://")
      && EndsWith(Locate(directory, path).value.path, path)
  {
    if StartsWith(path, "https://") {
      assert path[..5] != "gs://" by { assert path[..5][4] == 's'; assert "gs://"[4] == '/'; }
    }
    if directory.Some? {
      PathJoinSpec(directory.value, path);
      if !StartsWith(path, "/") {
        assert EndsWith(PathJoin(directory.value, path), path);
      } else {
        assert PathJoin(directory.value, path) == path;
        assert path[|path| - |path|..] == path;
      }
    }
  }

  /** `read_pose(path)`: the pose stored at the location, or
      `FileNotFoundError` when nothing is stored there. */
  function ReadPose(directory: Option<string>, storage: Storage, path: string): Result<PoseData> {
    var location :- Locate(directory, path);
    match storage(location)
    case None => Err(FileNotFoundError)
    case Some(pose) => Ok(pose)
  }

  // ---------------------------------------------------------------------
  // get_pose

  /** The frames `get_pose` keeps: `start_frame = floor(start // frame_time)`
      and `end_frame = end // frame_time` for a positive end, `-1` otherwise,
      with `frame_time = 1000 / fps`; a zero frame rate divides by zero. */
  function FrameRange(start: int, end: int, fps: real): Result<(int, int)> {
    if fps == 0.0 then Err(ZeroDivisionError)
    else
      var frameTime := 1000.0 / fps;
      Ok(((start as real / frameTime).Floor,
          if end > 0 then (end as real / frameTime).Floor else -1))
  }

  /** `x / (1000 / fps)` is `x * fps / 1000`. */
  lemma DivFrameTime(x: real, fps: real)
    requires fps > 0.0
    ensures x / (1000.0 / fps) == x * fps / 1000.0
  {
  }

  /** For a positive frame rate the start frame is the frame containing the
      start time; so is the end frame for a positive end, and a non-positive
      end gives -1, which as a slice bound drops the last frame. */
  lemma FrameRangeSpec(start: int, end: int, fps: real)
    requires fps > 0.0
    ensures FrameRange(start, end, fps).Ok?
    ensures var (a, b) := FrameRange(start, end, fps).value;
      (a as real) * 1000.0 <= (start as real) * fps < (a as real + 1.0) * 1000.0
      && (end > 0 ==> (b as real) * 1000.0 <= (end as real) * fps < (b as real + 1.0) * 1000.0)
      && (end <= 0 ==> b == -1)
  {
    DivFrameTime(start as real, fps);
    DivFrameTime(end as real, fps);
  }

  /** The returned pose: the entry's frames of the stored pose, same header. */
  function SlicePose(pose: PoseData, e: Entry): Result<PoseData> {
    var range :- FrameRange(e.start, e.end, pose.body.fps);
    Ok(PoseData(pose.header, SliceBody(pose.body, range.0, range.1)))
  }

  /** The outcome of one call: its result, the cache afterwards, and whether
      it opened the GCS file system. */
  datatype Step = Step(result: Result<PoseData>, cache: CacheState, gcsLoaded: bool)

  /** `get_pose(row)`: look in the cache; on a miss read the file and store
      it; look in the cache again and slice what it returns. */
  function GetPoseStep(cfg: Config, e: Entry, st: CacheState): Step {
    var (first, st1) := LruCache.GetState(st, e.path);
    var loaded := first.None? && StartsWith(e.path, "gs://");
    var stored: Result<CacheState> :=
      if first.Some? then Ok(st1)
      else
        (var pose :- ReadPose(cfg.directory, cfg.storage, e.path);
         LruCache.SetState(st1, cfg.maxsize, e.path, pose));
    match stored
    case Err(err) => Step(Err(err), st1, loaded)
    case Ok(st2) =>
      var (second, st3) := LruCache.GetState(st2, e.path);
      match second
      case None => Step(Err(AttributeError), st3, loaded)
      case Some(pose) => Step(SlicePose(pose, e), st3, loaded)
  }

  /** Every cached pose is what reading its path gives. */
  ghost predicate Coherent(cfg: Config, st: CacheState) {
    forall p :: p in st.values ==> ReadPose(cfg.directory, cfg.storage, p) == Ok(st.values[p])
  }

  /** The cache is transparent: with a positive capacity and a coherent
      cache, `get_pose` gives the entry's frames of the file's pose, whatever
      the cache holds, and the cache stays coherent and well formed. */
  lemma GetPoseTransparent(cfg: Config, e: Entry, st: CacheState)
    requires cfg.maxsize >= 1 && LruCache.WellFormed(st) && Coherent(cfg, st)
    ensures var s := GetPoseStep(cfg, e, st);
      s.result == (var pose :- ReadPose(cfg.directory, cfg.storage, e.path); SlicePose(pose, e))
      && Coherent(cfg, s.cache) && LruCache.WellFormed(s.cache)
  {
    var (first, st1) := LruCache.GetState(st, e.path);
    LruCache.GetKeepsWellFormed(st, e.path);
    if first.None? {
      match ReadPose(cfg.directory, cfg.storage, e.path)
      case Err(_) =>
      case Ok(pose) =>
        LruCache.SetKeepsWellFormed(st1, cfg.maxsize, e.path, pose);
        LruCache.GetAfterSet(st1, cfg.maxsize, e.path, pose);
        var st2 := LruCache.SetState(st1, cfg.maxsize, e.path, pose).value;
        LruCache.GetKeepsWellFormed(st2, e.path);
    } else {
      LruCache.GetKeepsWellFormed(st1, e.path);
    }
  }

  /** On a miss whose file can be read, the pose is stored under the path
      and that path becomes the most recently used key. */
  lemma GetPoseStoresOnMiss(cfg: Config, e: Entry, st: CacheState)
    requires cfg.maxsize >= 1 && LruCache.WellFormed(st)
    requires e.path !in st.values && ReadPose(cfg.directory, cfg.storage, e.path).Ok?
    ensures var s := GetPoseStep(cfg, e, st);
      e.path in s.cache.values
      && s.cache.values[e.path] == ReadPose(cfg.directory, cfg.storage, e.path).value
      && s.cache.order[|s.cache.order| - 1] == e.path
      && s.gcsLoaded == StartsWith(e.path, "gs://")
  {
    var pose := ReadPose(cfg.directory, cfg.storage, e.path).value;
    LruCache.GetAfterSet(st, cfg.maxsize, e.path, pose);
  }

  // ---------------------------------------------------------------------
  // The probes of lookup

  /** One probe: the bucket of `term.lower()` when the language pair is
      indexed; `AttributeError` for a `None` term that reaches `.lower()`. */
  function Probe(idx: Index, spoken: string, signed: string, term: Option<string>)
    : Result<Option<(seq<Entry>, string)>>
  {
    if spoken in idx && signed in idx[spoken] then
      match term
      case None => Err(AttributeError)
      case Some(t) =>
        if Lower(t) in idx[spoken][signed].entries then Ok(Some((idx[spoken][signed].entries[Lower(t)], t)))
        else Ok(None)
    else Ok(None)
  }

  /** The three probes in order; the first bucket found gives the entry. */
  function FindEntry(words: Index, glosses: Index, word: Option<string>, gloss: string,
                     spoken: string, signed: string): Result<Option<Entry>>
  {
    var p1 :- Probe(words, spoken, signed, word);
    var p2 :- if p1.Some? then Ok(p1) else Probe(glosses, spoken, signed, word);
    var p3 :- if p2.Some? then Ok(p2) else Probe(glosses, spoken, signed, Some(gloss));
    match p3
    case None => Ok(None)
    case Some((bucket, term)) => BestOf(bucket, term)
  }

  /** The entry `get_best_row` picks from a found bucket. */
  function BestOf(bucket: seq<Entry>, term: string): Result<Option<Entry>> {
    var e :- GetBestRow(bucket, term);
    Ok(Some(e))
  }

  /** The rows a probe finds, directly from the rows of the index. */
  function Filed(rows: seq<Row>, basedOn: BasedOn, spoken: string, signed: string, term: string): seq<Entry> {
    ToEntries(Filter(rows, (r: Row) => FiledUnder(r, basedOn, spoken, signed, Lower(term))), basedOn)
  }

  /** A probe on an index built from `rows` finds exactly the rows filed
      under the lower-cased term. */
  lemma ProbeFromRows(rows: seq<Row>, basedOn: BasedOn, spoken: string, signed: string, term: string)
    ensures var f := Filed(rows, basedOn, spoken, signed, term);
      Probe(IndexOf(rows, basedOn), spoken, signed, Some(term))
        == if f != [] then Ok(Some((f, term))) else Ok(None)
  {
    var idx := IndexOf(rows, basedOn);
    var key := Lower(term);
    IndexBuckets(rows, basedOn, spoken, signed, key, (r: Row) => FiledUnder(r, basedOn, spoken, signed, key));
    IndexWellFormed(rows, basedOn);
  }

  /** The precedence of the probes, stated on the rows: words by word, then
      glosses by word, then glosses by gloss; the bucket key ignores case,
      and the first non-empty set of rows gives the entry. */
  lemma FindEntryPrecedence(rows: seq<Row>, word: string, gloss: string, spoken: string, signed: string)
    ensures var f1 := Filed(rows, Words, spoken, signed, word);
      var f2 := Filed(rows, Glosses, spoken, signed, word);
      var f3 := Filed(rows, Glosses, spoken, signed, gloss);
      FindEntry(IndexOf(rows, Words), IndexOf(rows, Glosses), Some(word), gloss, spoken, signed)
        == if f1 != [] then BestOf(f1, word)
           else if f2 != [] then BestOf(f2, word)
           else if f3 != [] then BestOf(f3, gloss)
           else Ok(None)
  {
    ProbeFromRows(rows, Words, spoken, signed, word);
    ProbeFromRows(rows, Glosses, spoken, signed, word);
    ProbeFromRows(rows, Glosses, spoken, signed, gloss);
  }

  /** A non-empty bucket always yields an entry of its own. */
  lemma BestOfFound(bucket: seq<Entry>, term: string)
    requires bucket != []
    ensures BestOf(bucket, term).Ok? && BestOf(bucket, term).value.Some?
    ensures BestOf(bucket, term).value.value in bucket
  {
    GetBestRowSpec(bucket, term);
    if exists i :: 0 <= i < |bucket| && bucket[i].term == term {
      var k :| IsBest(bucket, (e: Entry) => e.term == term, k) && GetBestRow(bucket, term) == Ok(bucket[k]);
    } else {
      var k :| IsBest(bucket, (e: Entry) => true, k) && GetBestRow(bucket, term) == Ok(bucket[k]);
    }
  }

  /** A `None` word raises `AttributeError` as soon as its language pair is
      indexed, and otherwise nothing is found. */
  lemma FindEntryNoneWord(rows: seq<Row>, gloss: string, spoken: string, signed: string)
    ensures var words := IndexOf(rows, Words);
      FindEntry(words, IndexOf(rows, Glosses), None, gloss, spoken, signed)
        == if spoken in words && signed in words[spoken] then Err(AttributeError) else Ok(None)
  {
    IndexPairsAgree(rows, spoken, signed);
  }

  // ---------------------------------------------------------------------
  // lookup and lookup_sequence, as functions of the cache

  /** `lookup(word, gloss, spoken, signed)`. */
  function LookupStep(cfg: Config, word: Option<string>, gloss: string, spoken: string, signed: string,
                      st: CacheState): Step
    decreases if signed in Languages.LANGUAGE_BACKUP then 1 else 0
  {
    match FindEntry(cfg.wordsIndex, cfg.glossesIndex, word, gloss, spoken, signed)
    case Err(err) => Step(Err(err), st, false)
    case Ok(Some(e)) => GetPoseStep(cfg, e, st)
    case Ok(None) =>
      if signed in Languages.LANGUAGE_BACKUP then
        Languages.NoBackupOfBackup();
        LookupStep(cfg, word, gloss, spoken, Languages.LANGUAGE_BACKUP[signed], st)
      else if cfg.backup.Some? then Step(cfg.backup.value(word, gloss, spoken, signed), st, false)
      else Step(Err(FileNotFoundError), st, false)
  }

  /** On a miss under a regional signed language, the whole lookup reruns
      under its backup language, fallback resolver included. */
  lemma LookupFallsBackToLanguage(cfg: Config, word: Option<string>, gloss: string, spoken: string,
                                  signed: string, st: CacheState)
    requires FindEntry(cfg.wordsIndex, cfg.glossesIndex, word, gloss, spoken, signed) == Ok(None)
    requires signed in Languages.LANGUAGE_BACKUP
    ensures LookupStep(cfg, word, gloss, spoken, signed, st)
      == LookupStep(cfg, word, gloss, spoken, Languages.LANGUAGE_BACKUP[signed], st)
  {
  }

  /** Otherwise a miss goes, with all four arguments, to the backup resolver
      if there is one, and raises `FileNotFoundError` if not; the cache is
      left alone. */
  lemma LookupFallsBackToResolver(cfg: Config, word: Option<string>, gloss: string, spoken: string,
                                  signed: string, st: CacheState)
    requires FindEntry(cfg.wordsIndex, cfg.glossesIndex, word, gloss, spoken, signed) == Ok(None)
    requires signed !in Languages.LANGUAGE_BACKUP
    ensures cfg.backup.Some? ==>
      LookupStep(cfg, word, gloss, spoken, signed, st).result == cfg.backup.value(word, gloss, spoken, signed)
    ensures cfg.backup.None? ==>
      LookupStep(cfg, word, gloss, spoken, signed, st).result == Err(FileNotFoundError)
    ensures LookupStep(cfg, word, gloss, spoken, signed, st).cache == st
  {
  }

  /** The value of a lookup, independent of any cache: the lookup run on an
      empty cache. */
  function LookupValue(cfg: Config, word: Option<string>, gloss: string, spoken: string, signed: string)
    : Result<PoseData>
  {
    LookupStep(cfg, word, gloss, spoken, signed, LruCache.State([], map[])).result
  }

  /** With a positive capacity and a coherent cache, a lookup returns its
      cache-independent value, and keeps the cache coherent. */
  lemma LookupTransparent(cfg: Config, word: Option<string>, gloss: string, spoken: string, signed: string,
                          st: CacheState)
    requires cfg.maxsize >= 1 && LruCache.WellFormed(st) && Coherent(cfg, st)
    ensures var s := LookupStep(cfg, word, gloss, spoken, signed, st);
      s.result == LookupValue(cfg, word, gloss, spoken, signed)
      && Coherent(cfg, s.cache) && LruCache.WellFormed(s.cache)
    decreases if signed in Languages.LANGUAGE_BACKUP then 1 else 0
  {
    var empty: CacheState := LruCache.State([], map[]);
    match FindEntry(cfg.wordsIndex, cfg.glossesIndex, word, gloss, spoken, signed)
    case Err(_) =>
    case Ok(Some(e)) =>
      GetPoseTransparent(cfg, e, st);
      GetPoseTransparent(cfg, e, empty);
    case Ok(None) =>
      if signed in Languages.LANGUAGE_BACKUP {
        Languages.NoBackupOfBackup();
        LookupTransparent(cfg, word, gloss, spoken, Languages.LANGUAGE_BACKUP[signed], st);
      }
  }

  /** A (word, gloss) pair of the gloss sequence; the word may be `None`. */
  type GlossPair = (Option<string>, string)

  /** The running state of `lookup_sequence` over a prefix of the pairs. */
  datatype Collected = Collected(poses: Result<seq<PoseData>>, cache: CacheState, gcsLoaded: bool)

  /** One pair processed: a found pose is appended, a `FileNotFoundError`
      is skipped, any other error ends the sequence. */
  function Collect(cfg: Config, pairs: seq<GlossPair>, spoken: string, signed: string, st: CacheState)
    : Collected
    decreases |pairs|
  {
    if pairs == [] then Collected(Ok([]), st, false)
    else
      var prev := Collect(cfg, pairs[..|pairs| - 1], spoken, signed, st);
      if prev.poses.Err? then prev
      else
        var pair := pairs[|pairs| - 1];
        var s := LookupStep(cfg, pair.0, pair.1, spoken, signed, prev.cache);
        var poses :=
          if s.result.Ok? then Ok(prev.poses.value + [s.result.value])
          else if s.result.error == FileNotFoundError then prev.poses
          else Err(s.result.error);
        Collected(poses, s.cache, prev.gcsLoaded || s.gcsLoaded)
  }

  /** `lookup_sequence`: the collected poses, or the bare exception raised
      when none was found. */
  function LookupSequenceResult(c: Collected): Result<seq<PoseData>> {
    if c.poses.Ok? && c.poses.value == [] then Err(NoPosesFound) else c.poses
  }

  // ---------------------------------------------------------------------
  // lookup_sequence, stated without the cache

  /** The outcome of each pair's lookup, independent of any cache. */
  function Outcomes(cfg: Config, pairs: seq<GlossPair>, spoken: string, signed: string)
    : (r: seq<Result<PoseData>>)
    ensures |r| == |pairs|
  {
    seq(|pairs|, i requires 0 <= i < |pairs| => LookupValue(cfg, pairs[i].0, pairs[i].1, spoken, signed))
  }

  /** Collecting outcomes in order: a pose is appended, `FileNotFoundError`
      is skipped, and the first other error ends the collection. */
  function CollectResults(rs: seq<Result<PoseData>>): Result<seq<PoseData>>
    decreases |rs|
  {
    if rs == [] then Ok([])
    else
      var prev := CollectResults(rs[..|rs| - 1]);
      var r := rs[|rs| - 1];
      if prev.Err? then prev
      else if r.Ok? then Ok(prev.value + [r.value])
      else if r.error == FileNotFoundError then prev
      else Err(r.error)
  }

  /** The poses of the successful outcomes, in order. */
  function Resolved(rs: seq<Result<PoseData>>): seq<PoseData> {
    if rs == [] then []
    else (if rs[0].Ok? then [rs[0].value] else []) + Resolved(rs[1..])
  }

  /** Every outcome is a pose or a `FileNotFoundError`. */
  predicate OnlyMisses(rs: seq<Result<PoseData>>) {
    forall i :: 0 <= i < |rs| ==> rs[i].Ok? || rs[i].error == FileNotFoundError
  }

  lemma {:induction false} ResolvedSnoc(rs: seq<Result<PoseData>>)
    requires rs != []
    ensures var r := rs[|rs| - 1];
      Resolved(rs) == Resolved(rs[..|rs| - 1]) + (if r.Ok? then [r.value] else [])
    decreases |rs|
  {
    if |rs| > 1 {
      ResolvedSnoc(rs[1..]);
      assert rs[1..][..|rs[1..]| - 1] == rs[..|rs| - 1][1..];
    }
  }

  /** The collection keeps the input order and drops only the
      `FileNotFoundError` outcomes: it succeeds exactly when no other error
      occurs, and then holds the poses of the successful outcomes in order. */
  lemma {:induction false} CollectResultsSpec(rs: seq<Result<PoseData>>)
    ensures CollectResults(rs).Ok? <==> OnlyMisses(rs)
    ensures CollectResults(rs).Ok? ==> CollectResults(rs).value == Resolved(rs)
    decreases |rs|
  {
    if rs != [] {
      var init := rs[..|rs| - 1];
      CollectResultsSpec(init);
      ResolvedSnoc(rs);
      assert forall i :: 0 <= i < |init| ==> init[i] == rs[i];
      if !OnlyMisses(init) {
        var i :| 0 <= i < |init| && !(init[i].Ok? || init[i].error == FileNotFoundError);
        assert rs[i] == init[i];
      }
    }
  }

  /** Each successful outcome contributes one pose: the result is no longer
      than the input, and as long as it when every outcome succeeds. */
  lemma {:induction false} ResolvedLength(rs: seq<Result<PoseData>>)
    ensures |Resolved(rs)| <= |rs|
    ensures (forall i :: 0 <= i < |rs| ==> rs[i].Ok?) ==> Resolved(rs) == seq(|rs|, i requires 0 <= i < |rs| => rs[i].value)
    decreases |rs|
  {
    if rs != [] {
      ResolvedLength(rs[1..]);
      assert forall i :: 0 <= i < |rs[1..]| ==> rs[1..][i] == rs[i + 1];
    }
  }

  /** Through a coherent cache of positive capacity, `lookup_sequence`
      collects exactly the cache-independent outcomes. */
  lemma {:induction false} CollectTransparent(cfg: Config, pairs: seq<GlossPair>, spoken: string, signed: string,
                                              st: CacheState)
    requires cfg.maxsize >= 1 && LruCache.WellFormed(st) && Coherent(cfg, st)
    ensures var c := Collect(cfg, pairs, spoken, signed, st);
      c.poses == CollectResults(Outcomes(cfg, pairs, spoken, signed))
      && Coherent(cfg, c.cache) && LruCache.WellFormed(c.cache)
    decreases |pairs|
  {
    if pairs != [] {
      var init := pairs[..|pairs| - 1];
      CollectTransparent(cfg, init, spoken, signed, st);
      var prev := Collect(cfg, init, spoken, signed, st);
      var pair := pairs[|pairs| - 1];
      LookupTransparent(cfg, pair.0, pair.1, spoken, signed, prev.cache);
      var os := Outcomes(cfg, pairs, spoken, signed);
      assert os[..|os| - 1] == Outcomes(cfg, init, spoken, signed);
    }
  }

  // ---------------------------------------------------------------------
  // The class

  class PoseLookup {
    const directory: Option<string>
    const wordsIndex: Index
    const glossesIndex: Index
    const backup: Option<Backup>
    const storage: Storage
    /** The names of the remote file systems opened so far. */
    var fileSystems: set<string>
    const cache: LruCache.LRUCache<string, PoseData>

    function Cfg(): Config {
      Config(directory, wordsIndex, glossesIndex, backup, storage, cache.maxsize)
    }

    ghost predicate Valid()
      reads this, cache
    {
      cache.Valid()
    }

    /** `PoseLookup(rows, directory, backup, cache)`: both indexes built from
        the rows, no file system opened, and a fresh cache of the default
        capacity unless one is given. */
    constructor (rows: seq<Row>, directory: Option<string>, backup: Option<Backup>,
                 cache: Option<LruCache.LRUCache<string, PoseData>>, storage: Storage)
      requires cache.Some? ==> cache.value.Valid()
      ensures Valid()
      ensures this.directory == directory && this.backup == backup && this.storage == storage
      ensures wordsIndex == IndexOf(rows, Words) && glossesIndex == IndexOf(rows, Glosses)
      ensures fileSystems == {}
      ensures cache.Some? ==> this.cache == cache.value
      ensures cache.None? ==> fresh(this.cache)
      ensures cache.None? ==> this.cache.maxsize == LruCache.DEFAULT_MAXSIZE
      ensures cache.None? ==> this.cache.order == [] && this.cache.values == map[]
    {
      this.directory := directory;
      var words := MakeDictionaryIndex(rows, Words);
      var glosses := MakeDictionaryIndex(rows, Glosses);
      wordsIndex := words;
      glossesIndex := glosses;
      this.backup := backup;
      this.storage := storage;
      fileSystems := {};
      if cache.Some? {
        this.cache := cache.value;
      } else {
        var c := new LruCache.LRUCache<string, PoseData>(LruCache.DEFAULT_MAXSIZE);
        this.cache := c;
      }
    }

    /** `read_pose(path)`; a "gs://" path opens the GCS file system once. */
    method ReadPoseFile(path: string) returns (r: Result<PoseData>)
      modifies this`fileSystems
      ensures r == ReadPose(directory, storage, path)
      ensures fileSystems == old(fileSystems) + (if StartsWith(path, "gs://") then {"gcs"} else {})
    {
      if StartsWith(path, "gs://") {
        if "gcs" !in fileSystems {
          fileSystems := fileSystems + {"gcs"};
        }
        r := match storage(Gcs(path)) case None => Err(FileNotFoundError) case Some(p) => Ok(p);
        return;
      }
      if StartsWith(path, "https://") {
        return Err(NotImplementedError);
      }
      if directory.None? {
        return Err(ValueError);
      }
      var location := PathJoin(directory.value, path);
      r := match storage(Local(location)) case None => Err(FileNotFoundError) case Some(p) => Ok(p);
    }

    /** `get_pose(row)`. */
    method GetPose(row: Entry) returns (r: Result<PoseData>)
      requires Valid()
      modifies this`fileSystems, cache
      ensures Valid()
      ensures var s := GetPoseStep(Cfg(), row, old(cache.Contents()));
        r == s.result && cache.Contents() == s.cache
        && fileSystems == old(fileSystems) + (if s.gcsLoaded then {"gcs"} else {})
    {
      var cachedPose := cache.Get(row.path);
      if cachedPose.None? {
        var pose := ReadPoseFile(row.path);
        if pose.Err? {
          return Err(pose.error);
        }
        var stored := cache.Set(row.path, pose.value);
        if stored.Err? {
          return Err(stored.error);
        }
      }
      var p := cache.Get(row.path);
      if p.None? {
        return Err(AttributeError);
      }
      r := SlicePose(p.value, row);
    }

    /** `lookup(word, gloss, spoken, signed)`. */
    method Lookup(word: Option<string>, gloss: string, spoken: string, signed: string)
      returns (r: Result<PoseData>)
      requires Valid()
      modifies this`fileSystems, cache
      ensures Valid()
      ensures var s := LookupStep(Cfg(), word, gloss, spoken, signed, old(cache.Contents()));
        r == s.result && cache.Contents() == s.cache
        && fileSystems == old(fileSystems) + (if s.gcsLoaded then {"gcs"} else {})
      decreases if signed in Languages.LANGUAGE_BACKUP then 1 else 0
    {
      var found := FindEntry(wordsIndex, glossesIndex, word, gloss, spoken, signed);
      if found.Err? {
        return Err(found.error);
      }
      if found.value.Some? {
        r := GetPose(found.value.value);
        return;
      }
      if signed in Languages.LANGUAGE_BACKUP {
        Languages.NoBackupOfBackup();
        r := Lookup(word, gloss, spoken, Languages.LANGUAGE_BACKUP[signed]);
        return;
      }
      if backup.Some? {
        return backup.value(word, gloss, spoken, signed);
      }
      return Err(FileNotFoundError);
    }

    /** `lookup_sequence(glosses, spoken, signed)`, one pair after the other. */
    method LookupSequence(pairs: seq<GlossPair>, spoken: string, signed: string)
      returns (r: Result<seq<PoseData>>)
      requires Valid()
      modifies this`fileSystems, cache
      ensures Valid()
      ensures var c := Collect(Cfg(), pairs, spoken, signed, old(cache.Contents()));
        r == LookupSequenceResult(c) && cache.Contents() == c.cache
        && fileSystems == old(fileSystems) + (if c.gcsLoaded then {"gcs"} else {})
    {
      ghost var st0 := cache.Contents();
      ghost var fs0 := fileSystems;
      var poses: seq<PoseData> := [];
      ghost var loaded := false;
      var i := 0;
      while i < |pairs|
        invariant 0 <= i <= |pairs|
        invariant Valid()
        invariant Collect(Cfg(), pairs[..i], spoken, signed, st0)
          == Collected(Ok(poses), cache.Contents(), loaded)
        invariant fileSystems == fs0 + (if loaded then {"gcs"} else {})
      {
        assert pairs[..i + 1][..i] == pairs[..i];
        var pair := pairs[i];
        ghost var before := cache.Contents();
        var result := Lookup(pair.0, pair.1, spoken, signed);
        ghost var s := LookupStep(Cfg(), pair.0, pair.1, spoken, signed, before);
        loaded := loaded || s.gcsLoaded;
        if result.Err? && result.error != FileNotFoundError {
          assert pairs[..i + 1] == pairs[..i] + [pair];
          CollectStopsAtError(Cfg(), pairs, spoken, signed, st0, i + 1);
          return Err(result.error);
        }
        if result.Ok? {
          poses := poses + [result.value];
        }
        i := i + 1;
      }
      assert pairs[..i] == pairs;
      if |poses| == 0 {
        return Err(NoPosesFound);
      }
      r := Ok(poses);
    }
  }

  /** Once an error ends the sequence, later pairs change nothing. */
  lemma {:induction false} CollectStopsAtError(cfg: Config, pairs: seq<GlossPair>, spoken: string, signed: string,
                                               st: CacheState, n: nat)
    requires n <= |pairs| && Collect(cfg, pairs[..n], spoken, signed, st).poses.Err?
    ensures Collect(cfg, pairs, spoken, signed, st) == Collect(cfg, pairs[..n], spoken, signed, st)
    decreases |pairs| - n
  {
    if n < |pairs| {
      assert pairs[..n + 1][..n] == pairs[..n];
      CollectStopsAtError(cfg, pairs, spoken, signed, st, n + 1);
    } else {
      assert pairs[..n] == pairs;
    }
  }
}
