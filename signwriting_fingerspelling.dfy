/** `SignWritingFingerspellingPoseLookup` of
    `lookup/signwriting_fingerspelling_lookup.py`: a word spelled by
    animated transitions between SignWriting hand shapes.

    Each signed language has an alphabet mapping a letter to the reduced
    SignWriting of its hand shapes, with `""` as the null shape. A word
    becomes the transitions between consecutive letters, padded with `""`
    at both ends. The transitions are taken from a queue: the first
    transition file that exists is read and placed on the interpreter's
    body, and such poses are joined frame by frame; a transition with no
    file is replaced by the letter's naive fingerspelling pose, and the next
    transition then starts from that letter.

    The symbol parser `fsw_to_sign`, the interpreter placement
    `build_interpreter`, and the naive lookup's `get_char_pose` and
    `break_down_word` are function parameters. */
module SignWritingFingerspelling {
  import opened Wrappers
  import opened PyStrings
  import opened Poses
  import PoseFiles = Lookup
  import Fingerspelling
  import Concatenate

  // ---------------------------------------------------------------------
  // reduce_fsw

  /** Python's string order: code point by code point, a prefix first. */
  predicate LexLessEq(a: string, b: string)
    decreases |a|
  {
    a == [] || (b != [] && (a[0] < b[0] || (a[0] == b[0] && LexLessEq(a[1..], b[1..]))))
  }

  lemma {:induction false} LexTotal(a: string, b: string)
    ensures LexLessEq(a, b) || LexLessEq(b, a)
    decreases |a|
  {
    if a != [] && b != [] && a[0] == b[0] {
      LexTotal(a[1..], b[1..]);
    }
  }

  predicate SortedStrings(s: seq<string>) {
    forall i :: 0 < i < |s| ==> LexLessEq(s[i - 1], s[i])
  }

  function InsertString(x: string, s: seq<string>): (r: seq<string>)
    ensures multiset(r) == multiset(s) + multiset{x}
    ensures |r| == |s| + 1 && (r[0] == x || (s != [] && r[0] == s[0]))
  {
    if s == [] || LexLessEq(x, s[0]) then [x] + s
    else
      assert s == [s[0]] + s[1..];
      [s[0]] + InsertString(x, s[1..])
  }

  /** `sorted(symbols)`. */
  function SortStrings(s: seq<string>): (r: seq<string>)
    ensures multiset(r) == multiset(s)
  {
    if s == [] then []
    else
      assert s == [s[0]] + s[1..];
      InsertString(s[0], SortStrings(s[1..]))
  }

  lemma {:induction false} InsertStringSorted(x: string, s: seq<string>)
    requires SortedStrings(s)
    ensures SortedStrings(InsertString(x, s))
  {
    if s != [] && !LexLessEq(x, s[0]) {
      LexTotal(x, s[0]);
      InsertStringSorted(x, s[1..]);
      var t := InsertString(x, s[1..]);
      assert LexLessEq(s[0], t[0]);
      assert InsertString(x, s) == [s[0]] + t;
    }
  }

  /** The symbols come out in Python's order, each exactly as often as it
      was given. */
  lemma {:induction false} SortStringsSpec(s: seq<string>)
    ensures SortedStrings(SortStrings(s)) && multiset(SortStrings(s)) == multiset(s)
  {
    if s != [] {
      SortStringsSpec(s[1..]);
      InsertStringSorted(s[0], SortStrings(s[1..]));
    }
  }

  /** `fsw_to_sign(fsw)["symbols"]`, each symbol's id. */
  type SymbolParser = string -> seq<string>

  /** `reduce_fsw(fsw)`: the symbol ids, sorted, joined by '+'; the
      positions in the FSW string are dropped. */
  function ReduceFsw(fsw: string, symbolsOf: SymbolParser): string {
    Join(SortStrings(symbolsOf(fsw)), "+")
  }

  /** Splitting a reduced writing on '+' gives back its symbols in sorted
      order, so two writings reduce alike exactly when they use the same
      symbols the same number of times. */
  lemma ReduceFswSpec(fsw: string, symbolsOf: SymbolParser)
    requires symbolsOf(fsw) != []
    requires forall i :: 0 <= i < |symbolsOf(fsw)| ==> '+' !in symbolsOf(fsw)[i]
    ensures var parts := Split(ReduceFsw(fsw, symbolsOf), '+');
      SortedStrings(parts) && multiset(parts) == multiset(symbolsOf(fsw))
  {
    var sorted := SortStrings(symbolsOf(fsw));
    SortStringsSpec(symbolsOf(fsw));
    forall i | 0 <= i < |sorted| ensures '+' !in sorted[i] {
      assert sorted[i] in multiset(symbolsOf(fsw));
    }
    SplitJoin(sorted, '+');
  }

  /** The null hand shape every alphabet gives the empty letter. */
  const NULL_SYMBOL: string := "S00000"

  type Alphabet = map<string, seq<string>>

  /** One language's alphabet as `get_signwriting_fingerspelling` leaves it:
      each letter's writings reduced, and `""` mapped to the null symbol. */
  function ReducedAlphabet(chars: map<string, seq<string>>, symbolsOf: SymbolParser): (r: Alphabet)
    ensures "" in r && r[""] == [NULL_SYMBOL]
    ensures forall c :: c in r <==> c in chars || c == ""
    ensures forall c :: c in chars && c != "" ==>
      |r[c]| == |chars[c]| && forall i :: 0 <= i < |chars[c]| ==> r[c][i] == ReduceFsw(chars[c][i], symbolsOf)
  {
    var reduced := map c | c in chars :: seq(|chars[c]|, i requires 0 <= i < |chars[c]| => ReduceFsw(chars[c][i], symbolsOf));
    reduced["" := [NULL_SYMBOL]]
  }

  // ---------------------------------------------------------------------
  // get_transition_names

  /** `f"{f}-{t}"` for every `f` in `froms` and, inside, every `t` in `tos`. */
  function Pairs(froms: seq<string>, tos: seq<string>): (r: seq<string>)
    ensures |r| == |froms| * |tos|
  {
    if froms == [] then []
    else seq(|tos|, j requires 0 <= j < |tos| => froms[0] + "-" + tos[j]) + Pairs(froms[1..], tos)
  }

  /** `get_transition_names(fsw_from, fsw_to)`: the writings themselves when
      the two letters' writings are equal, then every pair. */
  function TransitionNames(froms: seq<string>, tos: seq<string>): (r: seq<string>)
    ensures |r| == (if froms == tos then |froms| else 0) + |froms| * |tos|
  {
    (if froms == tos then froms else []) + Pairs(froms, tos)
  }

  /** The pair of the `i`-th source writing and the `j`-th target writing
      comes at position `i * |tos| + j`, so the pairs run in nested order. */
  lemma {:induction false} PairsAt(froms: seq<string>, tos: seq<string>, i: nat, j: nat)
    requires i < |froms| && j < |tos|
    ensures i * |tos| + j < |Pairs(froms, tos)|
    ensures Pairs(froms, tos)[i * |tos| + j] == froms[i] + "-" + tos[j]
  {
    if i > 0 {
      PairsAt(froms[1..], tos, i - 1, j);
      assert i * |tos| + j == |tos| + ((i - 1) * |tos| + j);
    }
  }

  lemma TransitionNamesAt(froms: seq<string>, tos: seq<string>, i: nat, j: nat)
    requires i < |froms| && j < |tos|
    ensures var k := (if froms == tos then |froms| else 0) + i * |tos| + j;
      k < |TransitionNames(froms, tos)| && TransitionNames(froms, tos)[k] == froms[i] + "-" + tos[j]
  {
    PairsAt(froms, tos, i, j);
  }

  // ---------------------------------------------------------------------
  // get_word_poses

  /** What the transition search needs besides the alphabet: the animation
      directory and its files, `build_interpreter`, the resampling of the
      stretch, and the naive `get_char_pose`. */
  datatype Sources = Sources(
    directory: string,
    storage: PoseFiles.Storage,
    interpret: PoseData -> PoseData,
    resample: Fingerspelling.Resampler,
    charPose: (string, string, string) -> Result<PoseData>)

  function TransitionPath(name: string): string {
    "poses/" + name + ".pose"
  }

  /** The `for` loop over the names: the first file that exists, placed on
      the interpreter; `FileNotFoundError` moves on to the next name, and
      any other error propagates. */
  function FirstTransition(names: seq<string>, src: Sources): Result<Option<PoseData>> {
    if names == [] then Ok(None)
    else match PoseFiles.ReadPose(Some(src.directory), src.storage, TransitionPath(names[0]))
      case Ok(p) => Ok(Some(src.interpret(p)))
      case Err(e) => if e == FileNotFoundError then FirstTransition(names[1..], src) else Err(e)
  }

  lemma FirstTransitionCons(names: seq<string>, src: Sources)
    requires names != []
    ensures var read := PoseFiles.ReadPose(Some(src.directory), src.storage, TransitionPath(names[0]));
      FirstTransition(names, src)
        == if read.Ok? then Ok(Some(src.interpret(read.value)))
           else if read.error == FileNotFoundError then FirstTransition(names[1..], src)
           else Err(read.error)
  {
  }

  predicate Missing(name: string, src: Sources) {
    PoseFiles.ReadPose(Some(src.directory), src.storage, TransitionPath(name)) == Err(FileNotFoundError)
  }

  /** The first transition file that exists wins, and nothing is found only
      when every file is missing. */
  lemma {:induction false} FirstTransitionSpec(names: seq<string>, src: Sources)
    ensures FirstTransition(names, src) == Ok(None) <==> forall k :: 0 <= k < |names| ==> Missing(names[k], src)
    ensures FirstTransition(names, src).Ok? && FirstTransition(names, src).value.Some? ==>
      exists k, p :: 0 <= k < |names| && (forall j :: 0 <= j < k ==> Missing(names[j], src))
        && PoseFiles.ReadPose(Some(src.directory), src.storage, TransitionPath(names[k])) == Ok(p)
        && FirstTransition(names, src).value.value == src.interpret(p)
  {
    if names != [] {
      FirstTransitionSpec(names[1..], src);
      var r := FirstTransition(names, src);
      if Missing(names[0], src) {
        if r.Ok? && r.value.Some? {
          var k, p :| 0 <= k < |names[1..]| && (forall j :: 0 <= j < k ==> Missing(names[1..][j], src))
            && PoseFiles.ReadPose(Some(src.directory), src.storage, TransitionPath(names[1..][k])) == Ok(p)
            && r.value.value == src.interpret(p);
          assert forall j :: 0 <= j < k + 1 ==> Missing(names[j], src) by {
            forall j | 0 <= j < k + 1 ensures Missing(names[j], src) {
              if j > 0 {
                assert names[j] == names[1..][j - 1];
              }
            }
          }
          assert names[k + 1] == names[1..][k];
        }
        assert forall k :: 1 <= k < |names| ==> names[k] == names[1..][k - 1];
      }
    }
  }

  /** One transition: nothing when the target letter has no writing, else
      the search over the transition names (the source letter's writings are
      looked up without a check, so a source letter missing from the
      alphabet raises `KeyError`). */
  function FindTransition(alphabet: Alphabet, from: string, to: string, src: Sources): Result<Option<PoseData>> {
    if to !in alphabet then Ok(None)
    else if from !in alphabet then Err(KeyError)
    else FirstTransition(TransitionNames(alphabet[from], alphabet[to]), src)
  }

  /** `pose_so_far.body.data = np.concatenate([...], axis=0)` and the same
      for the confidence; the pose so far keeps its header and frame rate. */
  function Appended(soFar: Option<PoseData>, p: PoseData): (r: PoseData)
    ensures soFar.None? ==> r == p
    ensures soFar.Some? ==> r.header == soFar.value.header && r.body.fps == soFar.value.body.fps
    ensures soFar.Some? ==> r.body.data == soFar.value.body.data + p.body.data
    ensures soFar.Some? ==> r.body.confidence == soFar.value.body.confidence + p.body.confidence
  {
    match soFar
    case None => p
    case Some(s) => PoseData(s.header, Body(s.body.fps, s.body.data + p.body.data, s.body.confidence + p.body.confidence))
  }

  /** The queue after a miss: the next transition starts from its own
      target letter. */
  function SkipNext(rest: seq<(string, string)>): (r: seq<(string, string)>)
    ensures |r| == |rest|
    ensures rest != [] ==> r[0] == (rest[0].1, rest[0].1) && r[1..] == rest[1..]
  {
    if rest == [] then [] else [(rest[0].1, rest[0].1)] + rest[1..]
  }

  /** What the generator yields from the queue `ts` with `soFar` joined so
      far, or the exception that ends it: a found transition is joined on
      (stretched when it is the last one), a missing one yields the pose so
      far and the naive letter pose, and the queue's end yields the pose so
      far. */
  function WordPoses(alphabet: Alphabet, ts: seq<(string, string)>, soFar: Option<PoseData>, src: Sources,
                     spoken: string, signed: string): Result<seq<Option<PoseData>>>
    decreases |ts|
  {
    if ts == [] then Ok([soFar])
    else
      var (from, to) := ts[0];
      var rest := ts[1..];
      var found :- FindTransition(alphabet, from, to, src);
      match found
      case Some(p) =>
        var q := if rest == [] then Fingerspelling.Stretched(p, 2.0, src.resample) else p;
        WordPoses(alphabet, rest, Some(Appended(soFar, q)), src, spoken, signed)
      case None =>
        var naive :- src.charPose(to, spoken, signed);
        var later :- WordPoses(alphabet, SkipNext(rest), None, src, spoken, signed);
        Ok([soFar, Some(naive)] + later)
  }

  /** `[(padded[i], padded[i + 1]) for i in range(len(padded) - 1)]` with
      `padded = [""] + word + [""]`. */
  function Transitions(word: seq<string>): (r: seq<(string, string)>)
    ensures |r| == |word| + 1
  {
    var padded := [""] + word + [""];
    seq(|padded| - 1, i requires 0 <= i < |padded| - 1 => (padded[i], padded[i + 1]))
  }

  /** Consecutive transitions share a letter. */
  predicate Chained(ts: seq<(string, string)>) {
    forall i :: 0 < i < |ts| ==> ts[i - 1].1 == ts[i].0
  }

  /** A word's transitions run from `""` through its letters in order back
      to `""`, each starting where the previous one ended. */
  lemma TransitionsSpec(word: seq<string>)
    ensures var ts := Transitions(word);
      && ts[0].0 == "" && ts[|word|].1 == ""
      && (forall i :: 0 <= i < |word| ==> ts[i].1 == word[i] && ts[i + 1].0 == word[i])
      && Chained(ts)
  {
    var padded := [""] + word + [""];
    var ts := Transitions(word);
    assert forall i :: 0 <= i < |ts| ==> ts[i] == (padded[i], padded[i + 1]);
    assert forall i :: 0 <= i < |word| ==> padded[i + 1] == word[i];
  }

  /** The queue invariant: chained, and the head starts from a letter of
      the alphabet unless it is a letter's transition to itself. */
  predicate Ready(alphabet: Alphabet, ts: seq<(string, string)>) {
    Chained(ts) && (ts != [] ==> ts[0].0 in alphabet || ts[0].0 == ts[0].1)
  }

  /** No `KeyError` can come from the alphabet: a transition is only tried
      when its target letter has a writing, and the queue invariant then
      puts its source letter in the alphabet as well. */
  lemma {:induction false} WordPosesNoKeyError(alphabet: Alphabet, ts: seq<(string, string)>, soFar: Option<PoseData>,
                                               src: Sources, spoken: string, signed: string)
    requires Ready(alphabet, ts)
    requires forall l :: src.charPose(l, spoken, signed) != Err(KeyError)
    ensures WordPoses(alphabet, ts, soFar, src, spoken, signed) != Err(KeyError)
    decreases |ts|
  {
    if ts != [] {
      var (from, to) := ts[0];
      var rest := ts[1..];
      var found := FindTransition(alphabet, from, to, src);
      if found.Ok? {
        if found.value.Some? {
          var p := found.value.value;
          var q := if rest == [] then Fingerspelling.Stretched(p, 2.0, src.resample) else p;
          assert rest != [] ==> rest[0] == ts[1];
          WordPosesNoKeyError(alphabet, rest, Some(Appended(soFar, q)), src, spoken, signed);
        } else {
          WordPosesNoKeyError(alphabet, SkipNext(rest), None, src, spoken, signed);
        }
      } else {
        FirstTransitionErrors(TransitionNames(alphabet[from], alphabet[to]), src);
      }
    }
  }

  /** The transition search fails only with what reading a file raises. */
  lemma {:induction false} FirstTransitionErrors(names: seq<string>, src: Sources)
    ensures FirstTransition(names, src) != Err(KeyError)
  {
    if names != [] {
      FirstTransitionErrors(names[1..], src);
    }
  }

  /** With every transition found, the generator joins all of them into
      one pose, which keeps the header of the pose it started from, and
      yields only that. */
  lemma {:induction false} WordPosesAllFound(alphabet: Alphabet, ts: seq<(string, string)>, soFar: Option<PoseData>,
                                             src: Sources, spoken: string, signed: string)
    requires forall i :: 0 <= i < |ts| ==>
      FindTransition(alphabet, ts[i].0, ts[i].1, src).Ok? && FindTransition(alphabet, ts[i].0, ts[i].1, src).value.Some?
    ensures var r := WordPoses(alphabet, ts, soFar, src, spoken, signed);
      && r.Ok? && |r.value| == 1
      && (ts != [] || soFar.Some? ==> r.value[0].Some?)
      && (soFar.Some? ==> r.value[0].value.header == soFar.value.header)
    decreases |ts|
  {
    if ts != [] {
      var p := FindTransition(alphabet, ts[0].0, ts[0].1, src).value.value;
      var q := if ts[1..] == [] then Fingerspelling.Stretched(p, 2.0, src.resample) else p;
      assert forall i :: 0 <= i < |ts[1..]| ==> ts[1..][i] == ts[i + 1];
      WordPosesAllFound(alphabet, ts[1..], Some(Appended(soFar, q)), src, spoken, signed);
    }
  }

  /** The poses `lookup` keeps: the yielded ones that are not `None`. */
  function Present(ps: seq<Option<PoseData>>): (r: seq<PoseData>)
    ensures |r| <= |ps|
    ensures forall p :: p in r <==> Some(p) in ps
  {
    if ps == [] then []
    else (if ps[0].Some? then [ps[0].value] else []) + Present(ps[1..])
  }

  /** What the generator yields after `yielded` has already been yielded. */
  function After(yielded: seq<Option<PoseData>>, rest: Result<seq<Option<PoseData>>>): Result<seq<Option<PoseData>>> {
    if rest.Err? then rest else Ok(yielded + rest.value)
  }

  lemma WordPosesFound(alphabet: Alphabet, ts: seq<(string, string)>, soFar: Option<PoseData>, src: Sources,
                       spoken: string, signed: string, p: PoseData)
    requires ts != [] && FindTransition(alphabet, ts[0].0, ts[0].1, src) == Ok(Some(p))
    ensures var q := if ts[1..] == [] then Fingerspelling.Stretched(p, 2.0, src.resample) else p;
      WordPoses(alphabet, ts, soFar, src, spoken, signed)
        == WordPoses(alphabet, ts[1..], Some(Appended(soFar, q)), src, spoken, signed)
  {
  }

  lemma WordPosesMissed(alphabet: Alphabet, ts: seq<(string, string)>, soFar: Option<PoseData>, src: Sources,
                        spoken: string, signed: string, yielded: seq<Option<PoseData>>)
    requires ts != [] && FindTransition(alphabet, ts[0].0, ts[0].1, src) == Ok(None)
    ensures var naive := src.charPose(ts[0].1, spoken, signed);
      naive.Err? ==> WordPoses(alphabet, ts, soFar, src, spoken, signed) == Err(naive.error)
    ensures var naive := src.charPose(ts[0].1, spoken, signed);
      naive.Ok? ==>
        After(yielded, WordPoses(alphabet, ts, soFar, src, spoken, signed)) == After(yielded + [soFar, Some(naive.value)], WordPoses(alphabet, SkipNext(ts[1..]), None, src, spoken, signed))
  {
    var naive := src.charPose(ts[0].1, spoken, signed);
    var later := WordPoses(alphabet, SkipNext(ts[1..]), None, src, spoken, signed);
    if naive.Ok? && later.Ok? {
      assert yielded + ([soFar, Some(naive.value)] + later.value) == yielded + [soFar, Some(naive.value)] + later.value;
    }
  }

  /** `lookup` once the signed language has an alphabet: the word, lower
      cased, broken into letters by the naive lookup, its transition poses
      without the `None`s, concatenated. */
  function Spelled(alphabets: map<string, Alphabet>, src: Sources,
                   breakDown: (string, string, string) -> Result<seq<string>>, nm: Fingerspelling.Numerics,
                   word: string, spoken: string, signed: string): Result<PoseData>
    requires signed in alphabets
  {
    var letters :- breakDown(Lower(word), spoken, signed);
    var yielded :- WordPoses(alphabets[signed], Transitions(letters), None, src, spoken, signed);
    Fingerspelling.ConcatenatedWith(Present(yielded), nm)
  }

  /** An alphabet with the null letter never raises `KeyError` by itself:
      the word's first transition starts from `""`, and every later one
      starts from a letter whose writing was just looked up or from a
      letter going to itself. */
  lemma SpelledNoKeyError(alphabets: map<string, Alphabet>, src: Sources,
                          breakDown: (string, string, string) -> Result<seq<string>>, nm: Fingerspelling.Numerics,
                          word: string, spoken: string, signed: string)
    requires signed in alphabets && "" in alphabets[signed]
    requires forall l :: src.charPose(l, spoken, signed) != Err(KeyError)
    requires breakDown(Lower(word), spoken, signed).Ok?
    ensures var letters := breakDown(Lower(word), spoken, signed).value;
      WordPoses(alphabets[signed], Transitions(letters), None, src, spoken, signed) != Err(KeyError)
  {
    var letters := breakDown(Lower(word), spoken, signed).value;
    TransitionsSpec(letters);
    WordPosesNoKeyError(alphabets[signed], Transitions(letters), None, src, spoken, signed);
  }

  /** When every transition of the word has an animation, `lookup`
      concatenates exactly one pose. */
  lemma SpelledAllFound(alphabets: map<string, Alphabet>, src: Sources,
                        breakDown: (string, string, string) -> Result<seq<string>>, nm: Fingerspelling.Numerics,
                        word: string, spoken: string, signed: string)
    requires signed in alphabets && breakDown(Lower(word), spoken, signed).Ok?
    requires var ts := Transitions(breakDown(Lower(word), spoken, signed).value);
      forall i :: 0 <= i < |ts| ==>
        FindTransition(alphabets[signed], ts[i].0, ts[i].1, src).Ok?
        && FindTransition(alphabets[signed], ts[i].0, ts[i].1, src).value.Some?
    ensures var ts := Transitions(breakDown(Lower(word), spoken, signed).value);
      var yielded := WordPoses(alphabets[signed], ts, None, src, spoken, signed);
      yielded.Ok? && |Present(yielded.value)| == 1
  {
    var ts := Transitions(breakDown(Lower(word), spoken, signed).value);
    WordPosesAllFound(alphabets[signed], ts, None, src, spoken, signed);
    var yielded := WordPoses(alphabets[signed], ts, None, src, spoken, signed).value;
    assert Present(yielded) == [yielded[0].value] + Present(yielded[1..]);
  }

  // ---------------------------------------------------------------------
  // The class

  class SignWritingFingerspellingPoseLookup {
    const directory: string
    const storage: PoseFiles.Storage
    const alphabets: map<string, Alphabet>
    const naive: Fingerspelling.FingerspellingPoseLookup
    const interpret: PoseData -> PoseData
    /** The naive lookup's `get_char_pose(letter, spoken, signed)`. */
    const charPose: (string, string, string) -> Result<PoseData>
    /** The naive lookup's `break_down_word(word, spoken, signed)`. */
    const breakDown: (string, string, string) -> Result<seq<string>>

    constructor (directory: string, storage: PoseFiles.Storage, alphabets: map<string, Alphabet>,
                 naive: Fingerspelling.FingerspellingPoseLookup, interpret: PoseData -> PoseData,
                 charPose: (string, string, string) -> Result<PoseData>,
                 breakDown: (string, string, string) -> Result<seq<string>>)
      ensures this.directory == directory && this.storage == storage && this.alphabets == alphabets
      ensures this.naive == naive && this.interpret == interpret
      ensures this.charPose == charPose && this.breakDown == breakDown
    {
      this.directory := directory;
      this.storage := storage;
      this.alphabets := alphabets;
      this.naive := naive;
      this.interpret := interpret;
      this.charPose := charPose;
      this.breakDown := breakDown;
    }

    function Src(resample: Fingerspelling.Resampler): Sources {
      Sources(directory, storage, interpret, resample, charPose)
    }

    /** The transition search of one queue head. */
    method SearchTransition(alphabet: Alphabet, from: string, to: string, resample: Fingerspelling.Resampler)
      returns (r: Result<Option<PoseData>>)
      ensures r == FindTransition(alphabet, from, to, Src(resample))
    {
      if to !in alphabet {
        return Ok(None);
      }
      if from !in alphabet {
        return Err(KeyError);
      }
      var names := TransitionNames(alphabet[from], alphabet[to]);
      var i := 0;
      while i < |names|
        invariant 0 <= i <= |names|
        invariant FirstTransition(names, Src(resample)) == FirstTransition(names[i..], Src(resample))
      {
        FirstTransitionCons(names[i..], Src(resample));
        assert names[i..][1..] == names[i + 1..];
        var read := PoseFiles.ReadPose(Some(directory), storage, TransitionPath(names[i]));
        if read.Ok? {
          return Ok(Some(interpret(read.value)));
        }
        if read.error != FileNotFoundError {
          return Err(read.error);
        }
        i := i + 1;
      }
      return Ok(None);
    }

    /** `list(get_word_poses(word, spoken, signed))`: the transitions are
        popped from the front of a queue; a miss rewrites the queue's new
        head. */
    method GetWordPoses(word: seq<string>, spoken: string, signed: string, resample: Fingerspelling.Resampler)
      returns (r: Result<seq<Option<PoseData>>>)
      ensures signed !in alphabets ==> r == Err(KeyError)
      ensures signed in alphabets ==> r == WordPoses(alphabets[signed], Transitions(word), None, Src(resample), spoken, signed)
    {
      if signed !in alphabets {
        return Err(KeyError);
      }
      var alphabet := alphabets[signed];
      ghost var src := Src(resample);
      var transitions := Transitions(word);
      var poseSoFar: Option<PoseData> := None;
      var yielded: seq<Option<PoseData>> := [];
      ghost var whole := WordPoses(alphabet, transitions, poseSoFar, src, spoken, signed);
      assert whole.Ok? ==> [] + whole.value == whole.value;
      while |transitions| > 0
        invariant WordPoses(alphabet, Transitions(word), None, src, spoken, signed)
          == After(yielded, WordPoses(alphabet, transitions, poseSoFar, src, spoken, signed))
        decreases |transitions|
      {
        ghost var ts0 := transitions;
        var (from, to) := transitions[0];
        transitions := transitions[1..];
        var pose := SearchTransition(alphabet, from, to, resample);
        if pose.Err? {
          return Err(pose.error);
        }
        if pose.value.Some? {
          var p := pose.value.value;
          WordPosesFound(alphabet, ts0, poseSoFar, src, spoken, signed, p);
          if |transitions| == 0 {
            var stretched := new Pose(p.header, p.body);
            var s := Fingerspelling.StretchPose(stretched, 2.0, resample);
            p := s.Value();
          }
          poseSoFar := Some(Appended(poseSoFar, p));
        } else {
          var naivePose := charPose(to, spoken, signed);
          WordPosesMissed(alphabet, ts0, poseSoFar, src, spoken, signed, yielded);
          if naivePose.Err? {
            return Err(naivePose.error);
          }
          if |transitions| > 0 {
            transitions := transitions[0 := (transitions[0].1, transitions[0].1)];
          }
          assert transitions == SkipNext(ts0[1..]);
          yielded := yielded + [poseSoFar, Some(naivePose.value)];
          poseSoFar := None;
        }
      }
      r := Ok(yielded + [poseSoFar]);
    }
    /** `lookup(word, gloss, spoken, signed)`: the naive lookup for a signed
        language without a SignWriting alphabet, the animated transitions
        otherwise; the gloss is not used. */
    method Lookup(word: string, gloss: string, spoken: string, signed: string, nm: Fingerspelling.Numerics)
      returns (r: Result<Pose>)
      ensures var e :=
        if signed !in alphabets then Fingerspelling.Fingerspelled(naive.wordsIndex, naive.alphabets, naive.fetch, nm, word, spoken, signed)
        else Spelled(alphabets, Src(nm.resample), breakDown, nm, word, spoken, signed);
        (e.Err? ==> r == Err(e.error)) && (e.Ok? ==> r.Ok? && fresh(r.value) && r.value.Value() == e.value)
    {
      if signed !in alphabets {
        r := naive.Lookup(word, gloss, spoken, signed, nm);
        return;
      }
      var letters := breakDown(Lower(word), spoken, signed);
      if letters.Err? {
        return Err(letters.error);
      }
      var yielded := GetWordPoses(letters.value, spoken, signed, nm.resample);
      if yielded.Err? {
        return Err(yielded.error);
      }
      var poses := Present(yielded.value);
      r := Concatenate.ConcatenatePoses(poses, nm.getComponents, nm.normalize, nm.interpolate, nm.savgol, nm.rescale);
    }
  }
}
