/** `FingerspellingPoseLookup` of `lookup/fingerspelling_lookup.py`: a word
    spelled letter by letter from a fingerspelling lexicon.

    Each language pair's alphabet is the pair's words-index keys, longest
    first. A word is decomposed greedily: the first alphabet key that occurs
    in it splits it at that key's first occurrence, and the parts before and
    after are decomposed the same way. Each key gives the pose of the first
    row filed under it; the last pose is slowed down to twice its length and
    the poses are concatenated.

    `get_pose` is taken as a function of the entry (the module `Lookup`
    proves the cache behind it transparent), and the numerical pose
    operations as function parameters. */
module Fingerspelling {
  import opened Wrappers
  import opened PyStrings
  import opened Poses
  import opened LookupIndex
  import Concatenate

  // ---------------------------------------------------------------------
  // The alphabets

  /** Lengths never increase along the sequence. */
  predicate LongestFirst(s: seq<string>) {
    forall i, j :: 0 <= i < j < |s| ==> |s[i]| >= |s[j]|
  }

  /** Insert `x` before the first key that is not longer than it. */
  function InsertByLength(x: string, s: seq<string>): (r: seq<string>)
    ensures multiset(r) == multiset(s) + multiset{x}
    ensures |r| == |s| + 1 && (r[0] == x || (s != [] && r[0] == s[0]))
  {
    if s == [] || |s[0]| <= |x| then [x] + s
    else
      assert s == [s[0]] + s[1..];
      [s[0]] + InsertByLength(x, s[1..])
  }

  /** `sorted(keys, key=len, reverse=True)`. */
  function SortByLength(s: seq<string>): (r: seq<string>)
    ensures multiset(r) == multiset(s)
  {
    if s == [] then []
    else
      assert s == [s[0]] + s[1..];
      InsertByLength(s[0], SortByLength(s[1..]))
  }

  lemma {:induction false} InsertByLengthSorted(x: string, s: seq<string>)
    requires LongestFirst(s)
    ensures LongestFirst(InsertByLength(x, s))
  {
    if s != [] && |s[0]| > |x| {
      InsertByLengthSorted(x, s[1..]);
      var t := InsertByLength(x, s[1..]);
      assert |s[0]| >= |t[0]|;
    }
  }

  function HasLength(n: nat): string -> bool {
    (k: string) => |k| == n
  }

  /** Insertion puts `x` after every longer key and before every key of its
      own length, so the keys of any one length keep their order. */
  lemma {:induction false} InsertByLengthStable(x: string, s: seq<string>, n: nat)
    ensures Filter(InsertByLength(x, s), HasLength(n))
      == (if |x| == n then [x] else []) + Filter(s, HasLength(n))
  {
    var p := HasLength(n);
    if s != [] && |s[0]| > |x| {
      var t := InsertByLength(x, s[1..]);
      InsertByLengthStable(x, s[1..], n);
      assert InsertByLength(x, s)[1..] == t;
      FilterCons(InsertByLength(x, s), p);
      FilterCons(s, p);
      if |x| == n {
        assert !p(s[0]);
        assert Filter(InsertByLength(x, s), p) == Filter(t, p) == [x] + Filter(s[1..], p);
      } else {
        assert Filter(t, p) == Filter(s[1..], p);
      }
    } else {
      assert InsertByLength(x, s) == [x] + s;
      FilterCons([x] + s, p);
      assert ([x] + s)[1..] == s;
    }
  }

  /** The alphabet order: longest first, the same keys, and keys of equal
      length in their original order (Python's sort is stable). */
  lemma {:induction false} SortByLengthSpec(s: seq<string>)
    ensures LongestFirst(SortByLength(s))
    ensures multiset(SortByLength(s)) == multiset(s)
    ensures forall n: nat :: Filter(SortByLength(s), HasLength(n)) == Filter(s, HasLength(n))
  {
    if s != [] {
      SortByLengthSpec(s[1..]);
      InsertByLengthSorted(s[0], SortByLength(s[1..]));
      forall n: nat ensures Filter(SortByLength(s), HasLength(n)) == Filter(s, HasLength(n)) {
        InsertByLengthStable(s[0], SortByLength(s[1..]), n);
        FilterCons(s, HasLength(n));
      }
    }
  }

  type Alphabets = map<string, map<string, seq<string>>>

  /** The `alphabets` built in the constructor, one per language pair of the
      words index. */
  function AlphabetsOf(idx: Index): (r: Alphabets)
    ensures forall spoken :: spoken in r <==> spoken in idx
    ensures forall spoken, signed :: spoken in idx ==> (signed in r[spoken] <==> signed in idx[spoken])
  {
    map spoken | spoken in idx :: map signed | signed in idx[spoken] :: SortByLength(idx[spoken][signed].keys)
  }

  /** Each alphabet holds the pair's keys, longest first, ties in index
      order. */
  lemma AlphabetOfPair(idx: Index, spoken: string, signed: string)
    requires spoken in idx && signed in idx[spoken]
    ensures var a := AlphabetsOf(idx)[spoken][signed];
      var keys := idx[spoken][signed].keys;
      LongestFirst(a) && multiset(a) == multiset(keys)
      && forall n: nat :: Filter(a, HasLength(n)) == Filter(keys, HasLength(n))
  {
    SortByLengthSpec(idx[spoken][signed].keys);
  }

  // ---------------------------------------------------------------------
  // characters_lookup

  /** The position in the alphabet of the first key that occurs in the word. */
  function FirstKeyIn(alphabet: seq<string>, word: string): (r: Option<nat>)
    ensures r.Some? ==> r.value < |alphabet| && Contains(word, alphabet[r.value])
    ensures r.Some? ==> forall j {:trigger Contains(word, alphabet[j])} :: 0 <= j < r.value ==> !Contains(word, alphabet[j])
    ensures r.None? ==> forall j {:trigger Contains(word, alphabet[j])} :: 0 <= j < |alphabet| ==> !Contains(word, alphabet[j])
  {
    if alphabet == [] then None
    else if Contains(word, alphabet[0]) then Some(0)
    else match FirstKeyIn(alphabet[1..], word)
      case None => None
      case Some(k) => Some(k + 1)
  }

  /** A word split around one key: the part before the key's first
      occurrence, the key, and the rest. */
  datatype Cut = Cut(before: string, key: string, after: string)

  /** The split `characters_lookup` makes: at the first occurrence
      (`word.index(key)`) of the earliest alphabet key found in the word. */
  function CutAt(alphabet: seq<string>, word: string): (r: Option<Cut>)
    ensures r.None? <==> FirstKeyIn(alphabet, word).None?
    ensures r.Some? ==> r.value.key == alphabet[FirstKeyIn(alphabet, word).value]
    ensures r.Some? ==> word == r.value.before + r.value.key + r.value.after
    ensures r.Some? ==> Find(word, r.value.key) == Some(|r.value.before|)
  {
    match FirstKeyIn(alphabet, word)
    case None => None
    case Some(k) =>
      var key := alphabet[k];
      var at := Find(word, key).value;
      assert word == word[..at] + key + word[at + |key|..];
      Some(Cut(word[..at], key, word[at + |key|..]))
  }

  /** The keys a decomposition yields, in order, and the exception that ends
      it early, if any. */
  datatype Spelling = Spelling(keys: seq<string>, failure: Option<Error>)

  /** The recursion of `characters_lookup` on keys. A non-empty word with no
      key raises `FileNotFoundError`. An empty key occurs in every word at
      position 0, so the word recurses on itself after yielding that key and
      Python gives up with `RecursionError`. */
  function Spell(alphabet: seq<string>, word: string): Spelling
    decreases |word|
  {
    if word == [] then Spelling([], None)
    else match CutAt(alphabet, word)
      case None => Spelling([], Some(FileNotFoundError))
      case Some(c) =>
        if c.key == [] then Spelling([c.key], Some(RecursionError))
        else
          var before := Spell(alphabet, c.before);
          if before.failure.Some? then before
          else
            var after := Spell(alphabet, c.after);
            Spelling(before.keys + [c.key] + after.keys, after.failure)
  }

  /** The letters spelled by a sequence of keys. */
  function Concat(keys: seq<string>): string {
    if keys == [] then "" else keys[0] + Concat(keys[1..])
  }

  lemma {:induction false} ConcatAppend(a: seq<string>, b: seq<string>)
    ensures Concat(a + b) == Concat(a) + Concat(b)
  {
    if a != [] {
      assert (a + b)[1..] == a[1..] + b;
      ConcatAppend(a[1..], b);
    } else {
      assert a + b == b;
    }
  }

  lemma SpelledAround(before: seq<string>, key: string, after: seq<string>)
    ensures Concat(before + [key] + after) == Concat(before) + key + Concat(after)
  {
    ConcatAppend(before + [key], after);
    ConcatAppend(before, [key]);
    assert Concat([key]) == key;
  }

  lemma StartsWithAround(c: Cut, p: string)
    requires StartsWith(c.after, p)
    ensures StartsWith(c.before + c.key + c.after, c.before + c.key + p)
  {
    var w := c.before + c.key + c.after;
    assert w[..|c.before + c.key + p|] == c.before + c.key + c.after[..|p|];
  }

  lemma StartsWithBefore(c: Cut, p: string)
    requires StartsWith(c.before, p)
    ensures StartsWith(c.before + c.key + c.after, p)
  {
    var w := c.before + c.key + c.after;
    assert w[..|p|] == c.before[..|p|];
  }

  /** The keys yielded before any exception spell the start of the word, and
      a decomposition that ends normally spells the whole word. */
  lemma {:induction false} SpellSpells(alphabet: seq<string>, word: string)
    ensures StartsWith(word, Concat(Spell(alphabet, word).keys))
    ensures Spell(alphabet, word).failure.None? ==> Concat(Spell(alphabet, word).keys) == word
    decreases |word|
  {
    if word != [] && CutAt(alphabet, word).Some? {
      var c := CutAt(alphabet, word).value;
      if c.key != [] {
        SpellSpells(alphabet, c.before);
        var before := Spell(alphabet, c.before);
        if before.failure.None? {
          SpellSpells(alphabet, c.after);
          var after := Spell(alphabet, c.after);
          SpelledAround(before.keys, c.key, after.keys);
          StartsWithAround(c, Concat(after.keys));
        } else {
          StartsWithBefore(c, Concat(before.keys));
        }
      }
    }
  }

  /** Every key yielded is an alphabet key, and none is empty unless the
      decomposition ends in an exception. */
  lemma {:induction false} SpellKeys(alphabet: seq<string>, word: string)
    ensures forall k :: k in Spell(alphabet, word).keys ==> k in alphabet
    ensures Spell(alphabet, word).failure.None? ==> [] !in Spell(alphabet, word).keys
    decreases |word|
  {
    if word != [] && CutAt(alphabet, word).Some? {
      var c := CutAt(alphabet, word).value;
      assert c.key in alphabet;
      if c.key != [] {
        SpellKeys(alphabet, c.before);
        if Spell(alphabet, c.before).failure.None? {
          SpellKeys(alphabet, c.after);
        }
      }
    }
  }

  /** The only exceptions are a missing key and, with an empty key in the
      alphabet, runaway recursion. */
  lemma {:induction false} SpellFailures(alphabet: seq<string>, word: string)
    ensures var f := Spell(alphabet, word).failure;
      f.Some? ==> f.value == FileNotFoundError || (f.value == RecursionError && [] in alphabet)
    decreases |word|
  {
    if word != [] && CutAt(alphabet, word).Some? {
      var c := CutAt(alphabet, word).value;
      assert c.key in alphabet;
      if c.key != [] {
        SpellFailures(alphabet, c.before);
        if Spell(alphabet, c.before).failure.None? {
          SpellFailures(alphabet, c.after);
        }
      }
    }
  }

  /** An empty word yields nothing. */
  lemma SpellEmpty(alphabet: seq<string>)
    ensures Spell(alphabet, "") == Spelling([], None)
  {
  }

  /** A non-empty word in which no key occurs raises `FileNotFoundError`
      before yielding anything. */
  lemma SpellMissing(alphabet: seq<string>, word: string)
    requires word != [] && forall k :: k in alphabet ==> !Contains(word, k)
    ensures Spell(alphabet, word) == Spelling([], Some(FileNotFoundError))
  {
  }

  /** Every letter of the word being a key of its own, and no key being
      empty, the decomposition never fails. */
  lemma {:induction false} SpellCovered(alphabet: seq<string>, word: string)
    requires forall i :: 0 <= i < |word| ==> [word[i]] in alphabet
    requires [] !in alphabet
    ensures Spell(alphabet, word).failure.None?
    decreases |word|
  {
    if word != [] {
      assert OccursAt(word, [word[0]], 0);
      var k :| 0 <= k < |alphabet| && alphabet[k] == [word[0]];
      assert Contains(word, alphabet[k]);
      var c := CutAt(alphabet, word).value;
      assert c.key in alphabet;
      assert forall i :: 0 <= i < |c.before| ==> c.before[i] == word[i];
      SpellCovered(alphabet, c.before);
      assert forall i :: 0 <= i < |c.after| ==> c.after[i] == word[|c.before| + |c.key| + i];
      SpellCovered(alphabet, c.after);
    }
  }

  /** `get_pose` of an entry, with its cache and file reads abstracted. */
  type Fetch = Entry -> Result<PoseData>

  /** `self.get_pose(rows[key][0])`: the first row filed under the key, not
      the best-ranked one; `rows` is a `defaultdict(list)`, so an unknown key
      gives an empty bucket and `[0]` raises `IndexError`. */
  function CharPose(table: TermTable, key: string, fetch: Fetch): Result<PoseData> {
    var rows := if key in table.entries then table.entries[key] else [];
    if rows == [] then Err(IndexError) else fetch(rows[0])
  }

  function CharPoses(table: TermTable, keys: seq<string>, fetch: Fetch): (r: seq<Result<PoseData>>)
    ensures |r| == |keys|
  {
    seq(|keys|, i requires 0 <= i < |keys| => CharPose(table, keys[i], fetch))
  }

  /** `list(characters_lookup(word, spoken, signed))`: each key's pose is
      read as it is yielded, so a failing read comes before the exception
      that ends the decomposition. */
  function CharactersLookup(table: TermTable, alphabet: seq<string>, word: string, fetch: Fetch)
    : Result<seq<PoseData>>
  {
    var s := Spell(alphabet, word);
    var poses :- AllOk(CharPoses(table, s.keys, fetch));
    if s.failure.Some? then Err(s.failure.value) else Ok(poses)
  }

  /** On success, one pose per key of a decomposition that spells the whole
      word, each read from the first row of its key's bucket. */
  lemma CharactersLookupSpec(table: TermTable, alphabet: seq<string>, word: string, fetch: Fetch)
    requires CharactersLookup(table, alphabet, word, fetch).Ok?
    ensures var poses := CharactersLookup(table, alphabet, word, fetch).value;
      var s := Spell(alphabet, word);
      && s.failure.None? && Concat(s.keys) == word && |poses| == |s.keys|
      && forall i :: 0 <= i < |s.keys| ==> Ok(poses[i]) == CharPose(table, s.keys[i], fetch)
  {
    var s := Spell(alphabet, word);
    AllOkSpec(CharPoses(table, s.keys, fetch));
    SpellSpells(alphabet, word);
  }

  /** A read pose is the first row of its key's bucket. */
  lemma CharPoseOk(table: TermTable, key: string, fetch: Fetch)
    requires CharPose(table, key, fetch).Ok?
    ensures key in table.entries && table.entries[key] != []
    ensures CharPose(table, key, fetch) == fetch(table.entries[key][0])
  {
  }

  /** `""` yields nothing. */
  lemma CharactersLookupEmpty(table: TermTable, alphabet: seq<string>, fetch: Fetch)
    ensures CharactersLookup(table, alphabet, "", fetch) == Ok([])
  {
    assert AllOk(CharPoses(table, [], fetch)) == Ok([]);
  }

  /** Keys that all have rows fail only where `get_pose` fails. */
  lemma CharPosesErrors(table: TermTable, keys: seq<string>, fetch: Fetch)
    requires forall k :: k in keys ==> k in table.entries && table.entries[k] != []
    requires AllOk(CharPoses(table, keys, fetch)).Err?
    ensures exists row :: fetch(row) == Err(AllOk(CharPoses(table, keys, fetch)).error)
  {
    var rs := CharPoses(table, keys, fetch);
    var k := AllOkErrorFrom(rs);
    assert keys[k] in keys;
    assert fetch(table.entries[keys[k]][0]) == Err(AllOk(rs).error);
  }

  /** With the alphabet drawn from a well-formed table, every key has rows,
      so the only failures are the decomposition's and `get_pose`'s. */
  lemma CharactersLookupErrors(table: TermTable, word: string, fetch: Fetch)
    requires WellFormedTable(table)
    requires CharactersLookup(table, SortByLength(table.keys), word, fetch).Err?
    ensures var e := CharactersLookup(table, SortByLength(table.keys), word, fetch).error;
      e == FileNotFoundError || e == RecursionError || exists row :: fetch(row) == Err(e)
  {
    var alphabet := SortByLength(table.keys);
    var s := Spell(alphabet, word);
    if AllOk(CharPoses(table, s.keys, fetch)).Err? {
      SpellKeys(alphabet, word);
      forall k | k in s.keys ensures k in table.entries && table.entries[k] != [] {
        assert k in multiset(alphabet);
      }
      CharPosesErrors(table, s.keys, fetch);
    } else {
      SpellFailures(alphabet, word);
    }
  }

  // ---------------------------------------------------------------------
  // stretch_pose and lookup

  /** `pose.interpolate(fps)`: the body resampled at a new frame rate. */
  type Resampler = (Body, real) -> Body

  /** `pose.interpolate(fps)`: a new pose, same header, body resampled. */
  function Interpolated(p: PoseData, fps: real, resample: Resampler): (r: PoseData)
    ensures r.header == p.header
  {
    PoseData(p.header, resample(p.body, fps))
  }

  /** The frame rate `stretch_pose` resamples at. */
  function StretchedRate(fps: real, factor: real): real {
    fps * factor
  }

  /** `stretch_pose(pose, by)`: resampled at `fps * by`, then labelled with
      the original frame rate again, so it plays `by` times longer. */
  function Stretched(p: PoseData, factor: real, resample: Resampler): (r: PoseData)
    ensures r.header == p.header && r.body.fps == p.body.fps
    ensures r.body.data == Interpolated(p, StretchedRate(p.body.fps, factor), resample).body.data
    ensures r.body.confidence == Interpolated(p, StretchedRate(p.body.fps, factor), resample).body.confidence
  {
    var q := Interpolated(p, StretchedRate(p.body.fps, factor), resample);
    PoseData(q.header, q.body.(fps := p.body.fps))
  }

  /** `stretch_pose` on a pose object: `interpolate` returns a new pose whose
      body's frame rate is then reassigned. */
  method StretchPose(pose: Pose, factor: real, resample: Resampler) returns (r: Pose)
    ensures fresh(r) && r.Value() == Stretched(pose.Value(), factor, resample)
  {
    var fps := pose.body.fps;
    var q := Interpolated(pose.Value(), StretchedRate(fps, factor), resample);
    r := new Pose(q.header, q.body);
    r.body := r.body.(fps := fps);
  }

  /** The pose operations the lookup hands on: the component selection,
      normalisation, interpolation, filter and rescaling of
      `concatenate_poses`, and the resampling of `stretch_pose`. */
  datatype Numerics = Numerics(
    getComponents: Concatenate.ComponentGetter,
    normalize: Concatenate.Normalizer,
    interpolate: Body -> Body,
    savgol: seq<int> -> seq<int>,
    rescale: Concatenate.Rescaler,
    resample: Resampler)

  function ConcatenatedWith(poses: seq<PoseData>, nm: Numerics): Result<PoseData> {
    Concatenate.Concatenated(poses, nm.getComponents, nm.normalize, nm.interpolate, nm.savgol, nm.rescale)
  }

  /** `poses[-1] = stretch_pose(poses[-1], 2)`: only the last pose changes. */
  function StretchLast(poses: seq<PoseData>, resample: Resampler): (r: Result<seq<PoseData>>)
    ensures r.Err? <==> poses == []
    ensures r.Ok? ==> |r.value| == |poses| && r.value[..|poses| - 1] == poses[..|poses| - 1]
    ensures r.Ok? ==> r.value[|poses| - 1] == Stretched(poses[|poses| - 1], 2.0, resample)
  {
    if poses == [] then Err(IndexError)
    else Ok(poses[|poses| - 1 := Stretched(poses[|poses| - 1], 2.0, resample)])
  }

  /** The poses `lookup` hands to `concatenate_poses`: one per letter of the
      lower-cased word, the last one stretched. */
  function LetterPoses(idx: Index, alphabets: Alphabets, fetch: Fetch, resample: Resampler,
                       word: string, spoken: string, signed: string): Result<seq<PoseData>>
  {
    if spoken !in idx || signed !in idx[spoken] then Err(FileNotFoundError)
    else if spoken !in alphabets || signed !in alphabets[spoken] then Err(KeyError)
    else
      var poses :- CharactersLookup(idx[spoken][signed], alphabets[spoken][signed], Lower(word), fetch);
      StretchLast(poses, resample)
  }

  /** `lookup(word, gloss, spoken, signed)` on the words index and its
      alphabets. */
  function Fingerspelled(idx: Index, alphabets: Alphabets, fetch: Fetch, nm: Numerics,
                         word: string, spoken: string, signed: string): Result<PoseData>
  {
    var poses :- LetterPoses(idx, alphabets, fetch, nm.resample, word, spoken, signed);
    ConcatenatedWith(poses, nm)
  }

  /** The lookup ignores case, refuses an unknown language pair, and raises
      `IndexError` for a word with nothing to spell. */
  lemma LetterPosesFails(rows: seq<Row>, fetch: Fetch, resample: Resampler, word: string, spoken: string, signed: string)
    ensures var idx := IndexOf(rows, Words);
      var f := LetterPoses(idx, AlphabetsOf(idx), fetch, resample, word, spoken, signed);
      && f == LetterPoses(idx, AlphabetsOf(idx), fetch, resample, Lower(word), spoken, signed)
      && (spoken !in idx || signed !in idx[spoken] ==> f == Err(FileNotFoundError))
      && (spoken in idx && signed in idx[spoken] && word == "" ==> f == Err(IndexError))
  {
    LowerIdempotent(word);
    var idx := IndexOf(rows, Words);
    if spoken in idx && signed in idx[spoken] {
      CharactersLookupEmpty(idx[spoken][signed], AlphabetsOf(idx)[spoken][signed], fetch);
    }
  }

  /** On success, the poses are those of a decomposition that spells the
      lower-cased word, one per key, each read from the first row of its
      key's bucket, and the last one stretched to twice its length. */
  lemma LetterPosesSpec(idx: Index, alphabets: Alphabets, fetch: Fetch, resample: Resampler,
                        word: string, spoken: string, signed: string)
    requires LetterPoses(idx, alphabets, fetch, resample, word, spoken, signed).Ok?
    ensures spoken in idx && signed in idx[spoken] && spoken in alphabets && signed in alphabets[spoken]
    ensures var poses := LetterPoses(idx, alphabets, fetch, resample, word, spoken, signed).value;
      var table := idx[spoken][signed];
      var s := Spell(alphabets[spoken][signed], Lower(word));
      var n := |s.keys|;
      && s.failure.None? && Concat(s.keys) == Lower(word) && n == |poses| > 0
      && (forall i :: 0 <= i < n - 1 ==> Ok(poses[i]) == CharPose(table, s.keys[i], fetch))
      && CharPose(table, s.keys[n - 1], fetch).Ok?
      && poses[n - 1] == Stretched(CharPose(table, s.keys[n - 1], fetch).value, 2.0, resample)
  {
    CharactersLookupSpec(idx[spoken][signed], alphabets[spoken][signed], Lower(word), fetch);
  }

  class FingerspellingPoseLookup {
    const wordsIndex: Index
    const alphabets: Alphabets
    const fetch: Fetch

    /** The lexicon's rows are indexed by word, and the alphabets are
        precomputed from that index. */
    constructor (rows: seq<Row>, fetch: Fetch)
      ensures wordsIndex == IndexOf(rows, Words) && alphabets == AlphabetsOf(wordsIndex)
      ensures this.fetch == fetch
    {
      var idx := MakeDictionaryIndex(rows, Words);
      wordsIndex := idx;
      alphabets := AlphabetsOf(idx);
      this.fetch := fetch;
    }

    /** `lookup(word, gloss, spoken, signed)`; the gloss is not used. */
    method Lookup(word: string, gloss: string, spoken: string, signed: string, nm: Numerics)
      returns (r: Result<Pose>)
      ensures var e := Fingerspelled(wordsIndex, alphabets, fetch, nm, word, spoken, signed);
        (e.Err? ==> r == Err(e.error)) && (e.Ok? ==> r.Ok? && fresh(r.value) && r.value.Value() == e.value)
    {
      if spoken !in wordsIndex || signed !in wordsIndex[spoken] {
        return Err(FileNotFoundError);
      }
      if spoken !in alphabets || signed !in alphabets[spoken] {
        return Err(KeyError);
      }
      var found := CharactersLookup(wordsIndex[spoken][signed], alphabets[spoken][signed], Lower(word), fetch);
      if found.Err? {
        return Err(found.error);
      }
      var poses := found.value;
      if |poses| == 0 {
        return Err(IndexError);
      }
      var last := new Pose(poses[|poses| - 1].header, poses[|poses| - 1].body);
      var stretched := StretchPose(last, 2.0, nm.resample);
      poses := poses[|poses| - 1 := stretched.Value()];
      r := Concatenate.ConcatenatePoses(poses, nm.getComponents, nm.normalize, nm.interpolate, nm.savgol, nm.rescale);
    }
  }
}
