/** The earlier `PoseLookup` of `gloss_to_pose/lookup.py`.

    Its indexes are plain dictionaries keyed by the exact
    `(term, spoken language, signed language)` triple, built in row order so
    that a later row replaces an earlier one with the same key. A lookup
    tries the word in the words index, the word in the glosses index and the
    gloss in the glosses index, and reads the whole pose file of the first
    row found; there is no cache and no fallback language. */
module LegacyLookup {
  import opened Wrappers
  import opened PyStrings
  import opened Poses
  import opened LookupIndex
  import Lookup

  type Key = (string, string, string)

  type DictIndex = map<Key, Row>

  function KeyOf(r: Row, basedOn: BasedOn): Key {
    (TermOf(r, basedOn), r.spokenLanguage, r.signedLanguage)
  }

  /** `make_dictionary_index(based_on)`: one entry per key, built in row
      order. */
  function MakeDictIndex(rows: seq<Row>, basedOn: BasedOn): DictIndex
    decreases |rows|
  {
    if rows == [] then map[]
    else
      var last := rows[|rows| - 1];
      MakeDictIndex(rows[..|rows| - 1], basedOn)[KeyOf(last, basedOn) := last]
  }

  /** The last row with the given key: an independent reference definition
      searching from the end. */
  function LastWithKey(rows: seq<Row>, basedOn: BasedOn, key: Key): (r: Option<Row>)
    ensures r.Some? ==> r.value in rows && KeyOf(r.value, basedOn) == key
  {
    if rows == [] then None
    else if KeyOf(rows[|rows| - 1], basedOn) == key then Some(rows[|rows| - 1])
    else LastWithKey(rows[..|rows| - 1], basedOn, key)
  }

  /** A later row overwrites an earlier one: the index holds a key exactly
      when some row has it, and then holds the last such row. */
  lemma {:induction false} MakeDictIndexSpec(rows: seq<Row>, basedOn: BasedOn, key: Key)
    ensures key in MakeDictIndex(rows, basedOn) <==> LastWithKey(rows, basedOn, key).Some?
    ensures key in MakeDictIndex(rows, basedOn) ==>
      MakeDictIndex(rows, basedOn)[key] == LastWithKey(rows, basedOn, key).value
    decreases |rows|
  {
    if rows != [] {
      MakeDictIndexSpec(rows[..|rows| - 1], basedOn, key);
    }
  }

  /** No row with the key: the reference search finds nothing. */
  lemma {:induction false} LastWithKeyNone(rows: seq<Row>, basedOn: BasedOn, key: Key)
    ensures LastWithKey(rows, basedOn, key).None? <==> forall r :: r in rows ==> KeyOf(r, basedOn) != key
    decreases |rows|
  {
    if rows != [] {
      LastWithKeyNone(rows[..|rows| - 1], basedOn, key);
      assert rows == rows[..|rows| - 1] + [rows[|rows| - 1]];
    }
  }

  /** `read_pose(path)`: "gs://" paths are read from GCS, "https://" paths
      are refused, and anything else is joined under the directory. */
  function ReadPose(directory: string, storage: Lookup.Storage, path: string): Result<PoseData> {
    var location :-
      if StartsWith(path, "gs://") then Ok(Lookup.Gcs(path))
      else if StartsWith(path, "https://") then Err(NotImplementedError)
      else Ok(Lookup.Local(Lookup.PathJoin(directory, path)));
    match storage(location)
    case None => Err(FileNotFoundError)
    case Some(pose) => Ok(pose)
  }

  /** The legacy reader opens exactly what the newer one opens when it has
      a directory. */
  lemma ReadPoseAgrees(directory: string, storage: Lookup.Storage, path: string)
    ensures ReadPose(directory, storage, path) == Lookup.ReadPose(Some(directory), storage, path)
  {
  }

  /** One probe: the row under `(term, spoken, signed)`, if any; a `None`
      word is never a key. */
  function Probe(idx: DictIndex, term: Option<string>, spoken: string, signed: string): Option<Row> {
    if term.Some? && (term.value, spoken, signed) in idx then Some(idx[(term.value, spoken, signed)])
    else None
  }

  /** `lookup(word, gloss, spoken, signed)`: the whole pose of the first row
      found, or `FileNotFoundError`. */
  function LegacyLookup(directory: string, storage: Lookup.Storage, words: DictIndex, glosses: DictIndex,
                        word: Option<string>, gloss: string, spoken: string, signed: string): Result<PoseData>
  {
    var found :=
      if Probe(words, word, spoken, signed).Some? then Probe(words, word, spoken, signed)
      else if Probe(glosses, word, spoken, signed).Some? then Probe(glosses, word, spoken, signed)
      else Probe(glosses, Some(gloss), spoken, signed);
    match found
    case None => Err(FileNotFoundError)
    case Some(row) => ReadPose(directory, storage, row.path)
  }

  /** The precedence of the probes stated on the rows: the last row whose
      word matches, else the last row whose gloss matches the word, else the
      last row whose gloss matches the gloss; the match is exact, case
      included. */
  lemma LegacyLookupPrecedence(directory: string, storage: Lookup.Storage, rows: seq<Row>,
                               word: string, gloss: string, spoken: string, signed: string)
    ensures var w := LastWithKey(rows, Words, (word, spoken, signed));
      var gw := LastWithKey(rows, Glosses, (word, spoken, signed));
      var gg := LastWithKey(rows, Glosses, (gloss, spoken, signed));
      var found := if w.Some? then w else if gw.Some? then gw else gg;
      LegacyLookup(directory, storage, MakeDictIndex(rows, Words), MakeDictIndex(rows, Glosses),
                   Some(word), gloss, spoken, signed)
        == if found.None? then Err(FileNotFoundError) else ReadPose(directory, storage, found.value.path)
  {
    MakeDictIndexSpec(rows, Words, (word, spoken, signed));
    MakeDictIndexSpec(rows, Glosses, (word, spoken, signed));
    MakeDictIndexSpec(rows, Glosses, (gloss, spoken, signed));
  }

  /** A `None` word only reaches the gloss probe. */
  lemma LegacyLookupNoneWord(directory: string, storage: Lookup.Storage, words: DictIndex, glosses: DictIndex,
                             gloss: string, spoken: string, signed: string)
    ensures LegacyLookup(directory, storage, words, glosses, None, gloss, spoken, signed)
      == LegacyLookup(directory, storage, map[], glosses, Some(gloss), gloss, spoken, signed)
  {
  }

  /** The outcome of each pair's lookup. */
  function Outcomes(directory: string, storage: Lookup.Storage, words: DictIndex, glosses: DictIndex,
                    pairs: seq<Lookup.GlossPair>, spoken: string, signed: string)
    : (r: seq<Result<PoseData>>)
    ensures |r| == |pairs|
  {
    seq(|pairs|, i requires 0 <= i < |pairs| =>
      LegacyLookup(directory, storage, words, glosses, pairs[i].0, pairs[i].1, spoken, signed))
  }

  /** `lookup_sequence`: the poses of the pairs found, in order; a missing
      entry or file is skipped, any other error propagates, and finding
      nothing raises. */
  method LookupSequence(directory: string, storage: Lookup.Storage, words: DictIndex, glosses: DictIndex,
                        pairs: seq<Lookup.GlossPair>, spoken: string, signed: string)
    returns (r: Result<seq<PoseData>>)
    ensures var c := Lookup.CollectResults(Outcomes(directory, storage, words, glosses, pairs, spoken, signed));
      r == if c.Ok? && c.value == [] then Err(NoPosesFound) else c
  {
    ghost var os := Outcomes(directory, storage, words, glosses, pairs, spoken, signed);
    var poses: seq<PoseData> := [];
    var i := 0;
    while i < |pairs|
      invariant 0 <= i <= |pairs|
      invariant Lookup.CollectResults(os[..i]) == Ok(poses)
    {
      assert os[..i + 1][..i] == os[..i];
      var pose := LegacyLookup(directory, storage, words, glosses, pairs[i].0, pairs[i].1, spoken, signed);
      if pose.Err? && pose.error != FileNotFoundError {
        CollectStopsAtError(os, i + 1);
        return Err(pose.error);
      }
      if pose.Ok? {
        poses := poses + [pose.value];
      }
      i := i + 1;
    }
    assert os[..i] == os;
    if |poses| == 0 {
      return Err(NoPosesFound);
    }
    r := Ok(poses);
  }

  /** Once an error ends the collection, later outcomes change nothing. */
  lemma {:induction false} CollectStopsAtError(rs: seq<Result<PoseData>>, n: nat)
    requires n <= |rs| && Lookup.CollectResults(rs[..n]).Err?
    ensures Lookup.CollectResults(rs) == Lookup.CollectResults(rs[..n])
    decreases |rs| - n
  {
    if n < |rs| {
      assert rs[..n + 1][..n] == rs[..n];
      CollectStopsAtError(rs, n + 1);
    } else {
      assert rs[..n] == rs;
    }
  }
}
