/** The preparation of the animated fingerspelling poses
    (`spoken_to_signed/assets/fingerspelling_animation/process_data.py`):
    the list of hand-shape sprites to fetch, the pose built from the hand
    landmarks of a sprite's frames, and the SignWriting name each sprite's
    pose is saved under.

    A sprite shows the hand moving from one shape to another and is named
    `from_to`. Fetching, the hand-landmark detector and the pose files are
    outside the model: what is already on disk and the poses read back are
    parameters. */
module FingerspellingAnimation {
  import opened Wrappers
  import opened PyStrings
  import opened Poses

  /** The letters signed with a still hand. */
  const StaticLetters: seq<string> := ["a", "b", "c", "d", "e", "f", "g", "h", "i", "k", "l", "m",
                                       "n", "o", "p", "q", "r", "s", "t", "u", "v", "w", "x", "y"]

  /** The letters signed with a movement. */
  const MovingLetters: seq<string> := ["j", "z"]

  /** The hand at rest. */
  const Rest: string := "rest"

  const BaseUrl: string := "https://fingerspell.net/static/sprites/"

  /** The SignWriting symbol of each hand shape. */
  const SignWritingMapping: map<string, string> := map[
    "rest" := "S00000",
    "a" := "S1f720",
    "b" := "S14720",
    "c" := "S16d20",
    "d" := "S10120",
    "e" := "S14a20",
    "f" := "S1ce20",
    "g" := "S1f000",
    "h" := "S11502",
    "i" := "S19220",
    "j" := "S19220+S2a20c",
    "k" := "S14020",
    "l" := "S1dc20",
    "m" := "S18d20",
    "n" := "S11920",
    "o" := "S17620",
    "p" := "S14051",
    "q" := "S1f051",
    "r" := "S11a20",
    "s" := "S20320",
    "t" := "S1fb20",
    "u" := "S11520",
    "v" := "S10e20",
    "w" := "S18620",
    "x" := "S10620",
    "y" := "S19a20",
    "z" := "S10020+S2450a"
  ]

  // ---------------------------------------------------------------------
  // The sprites of `download_files`

  /** Each letter with `suffix` after it. */
  function WithSuffix(letters: seq<string>, suffix: string): seq<string> {
    seq(|letters|, i requires 0 <= i < |letters| => letters[i] + suffix)
  }

  /** The shapes a transition starts from: the still letters, the rest
      position and the end of each moving letter. */
  function FromShapes(): seq<string> {
    StaticLetters + [Rest] + WithSuffix(MovingLetters, "-end")
  }

  /** The shapes a transition goes to: the still letters, the rest position
      and the beginning of each moving letter. */
  function ToShapes(): seq<string> {
    StaticLetters + [Rest] + WithSuffix(MovingLetters, "-begin")
  }

  /** The name of the sprite from one shape to another. */
  function SpriteName(from: string, to: string): string {
    from + "_" + to
  }

  /** The sprite of the movement of a letter, from its beginning to its
      end. */
  function MovementName(l: string): string {
    SpriteName(l + "-begin", l + "-end")
  }

  /** The movement of each moving letter. */
  function MovementNames(): seq<string> {
    seq(|MovingLetters|, i requires 0 <= i < |MovingLetters| => MovementName(MovingLetters[i]))
  }

  /** The sprites from `from` to each of `tos`, in order. */
  function TransitionsFrom(from: string, tos: seq<string>): seq<string> {
    seq(|tos|, j requires 0 <= j < |tos| => SpriteName(from, tos[j]))
  }

  /** The sprites from each of `froms`, in turn, to each of `tos`. */
  function Transitions(froms: seq<string>, tos: seq<string>): seq<string> {
    if froms == [] then []
    else Transitions(froms[..|froms| - 1], tos) + TransitionsFrom(froms[|froms| - 1], tos)
  }

  /** The names `download_files` lists: the movements, then every
      transition. */
  function SpriteNames(): seq<string> {
    MovementNames() + Transitions(FromShapes(), ToShapes())
  }

  /** The nested loops of `download_files` that list the sprites. */
  method ListSprites() returns (names: seq<string>)
    ensures names == SpriteNames()
  {
    names := AppendTransitions(MovementNames(), FromShapes(), ToShapes());
  }

  /** The nested loops, over any two lists of shapes. */
  method AppendTransitions(init: seq<string>, froms: seq<string>, tos: seq<string>) returns (names: seq<string>)
    ensures names == init + Transitions(froms, tos)
  {
    names := init;
    for i := 0 to |froms|
      invariant names == init + Transitions(froms[..i], tos)
    {
      for j := 0 to |tos|
        invariant names == init + Transitions(froms[..i], tos) + TransitionsFrom(froms[i], tos[..j])
      {
        names := names + [SpriteName(froms[i], tos[j])];
      }
      assert tos[..|tos|] == tos;
      assert froms[..i + 1][..i] == froms[..i];
    }
    assert froms[..|froms|] == froms;
  }

  /** There is one transition per pair of shapes. */
  lemma {:induction false} TransitionsCount(froms: seq<string>, tos: seq<string>)
    ensures |Transitions(froms, tos)| == |froms| * |tos|
    decreases |froms|
  {
    if froms != [] {
      TransitionsCount(froms[..|froms| - 1], tos);
      assert |froms| * |tos| == (|froms| - 1) * |tos| + |tos|;
    }
  }

  /** The transitions are exactly the sprites of a pair of shapes, one from
      each list. */
  lemma {:induction false} TransitionsMembers(froms: seq<string>, tos: seq<string>)
    ensures forall f, t :: f in froms && t in tos ==> SpriteName(f, t) in Transitions(froms, tos)
    ensures forall n :: n in Transitions(froms, tos) ==> exists f, t :: f in froms && t in tos && n == SpriteName(f, t)
    decreases |froms|
  {
    if froms != [] {
      var init, last := froms[..|froms| - 1], froms[|froms| - 1];
      TransitionsMembers(init, tos);
      assert froms == init + [last];
      forall f, t | f in froms && t in tos
        ensures SpriteName(f, t) in Transitions(froms, tos)
      {
        if f == last {
          var j :| 0 <= j < |tos| && tos[j] == t;
          assert TransitionsFrom(last, tos)[j] == SpriteName(f, t);
        }
      }
    }
  }

  /** The movements and the transitions together number 731. */
  lemma SpriteCount()
    ensures |SpriteNames()| == 731
  {
    TransitionsCount(FromShapes(), ToShapes());
  }

  /** `name.split("_")` gives back the two shapes of a sprite. */
  lemma SplitSpriteName(from: string, to: string)
    requires '_' !in from && '_' !in to
    ensures Split(SpriteName(from, to), '_') == [from, to]
  {
    SplitJoin([from, to], '_');
    assert [from, to][1..] == [to];
  }

  /** A sprite's name determines its shapes. */
  lemma SpriteNameInjective(a: string, b: string, c: string, d: string)
    requires '_' !in a && '_' !in b && '_' !in c && '_' !in d
    requires SpriteName(a, b) == SpriteName(c, d)
    ensures a == c && b == d
  {
    SplitSpriteName(a, b);
    SplitSpriteName(c, d);
  }

  /** Two lists without repetitions and without common elements make one. */
  lemma DistinctConcat<T>(a: seq<T>, b: seq<T>)
    requires Distinct(a) && Distinct(b)
    requires forall x :: x in a ==> x !in b
    ensures Distinct(a + b)
  {
    forall i, j | 0 <= i < j < |a + b|
      ensures (a + b)[i] != (a + b)[j]
    {
      if i < |a| && |a| <= j {
        assert (a + b)[i] in a;
      }
    }
  }

  /** Shapes that are distinct and free of `_` give distinct transitions. */
  lemma {:induction false} TransitionsDistinct(froms: seq<string>, tos: seq<string>)
    requires Distinct(froms) && Distinct(tos)
    requires forall f :: f in froms ==> '_' !in f
    requires forall t :: t in tos ==> '_' !in t
    ensures Distinct(Transitions(froms, tos))
    decreases |froms|
  {
    if froms != [] {
      var init, last := froms[..|froms| - 1], froms[|froms| - 1];
      assert forall i :: 0 <= i < |init| ==> init[i] == froms[i];
      TransitionsDistinct(init, tos);
      TransitionsMembers(init, tos);
      var row := TransitionsFrom(last, tos);
      forall i, j | 0 <= i < j < |row|
        ensures row[i] != row[j]
      {
        if row[i] == row[j] {
          SpriteNameInjective(last, tos[i], last, tos[j]);
        }
      }
      forall n | n in Transitions(init, tos)
        ensures n !in row
      {
        var f, t :| f in init && t in tos && n == SpriteName(f, t);
        if n in row {
          var j :| 0 <= j < |row| && row[j] == n;
          SpriteNameInjective(f, t, last, tos[j]);
          assert false;
        }
      }
      DistinctConcat(Transitions(init, tos), row);
    }
  }

  /** What the name of a sprite needs of the shapes it starts from: no `_`,
      never the beginning of a movement, and a symbol once a movement's
      end is dropped. */
  predicate FromShapeFacts(f: string) {
    '_' !in f && !EndsWith(f, "-begin") && RemoveSuffix(f, "-end") in SignWritingMapping
  }

  /** What it needs of the shapes it goes to: no `_`, never the end of a
      movement, a moving letter before `-begin`, and a symbol otherwise. */
  predicate ToShapeFacts(t: string) {
    && '_' !in t
    && !EndsWith(t, "-end")
    && (EndsWith(t, "-begin") ==> RemoveSuffix(t, "-begin") in MovingLetters)
    && (!EndsWith(t, "-begin") ==> t in SignWritingMapping)
  }

  /** A letter or the rest position: short, without `-` or `_`, and with a
      symbol. */
  predicate PlainShape(x: string) {
    |x| <= 4 && '-' !in x && '_' !in x && x in SignWritingMapping
  }

  /** A one-character letter other than `-` and `_`, with a symbol. */
  predicate Letter(x: string) {
    |x| == 1 && x[0] != '-' && x[0] != '_' && x in SignWritingMapping
  }

  lemma LetterPlain(x: string)
    requires Letter(x)
    ensures PlainShape(x) && |x| == 1
  {
  }

  lemma StaticLettersAreLetters()
    ensures forall x :: x in StaticLetters ==> Letter(x)
  {
  }

  lemma RestPlain()
    ensures PlainShape(Rest)
  {
  }

  lemma StaticLettersDistinct()
    ensures Distinct(StaticLetters)
  {
    FirstLettersDistinct();
    LastLettersDistinct();
    FirstLettersBefore();
    LastLettersFrom();
    DistinctHalves(StaticLetters, 12, 'n');
  }

  lemma FirstLettersDistinct()
    ensures Distinct(StaticLetters[..12])
  {
  }

  lemma LastLettersDistinct()
    ensures Distinct(StaticLetters[12..])
  {
  }

  lemma FirstLettersBefore()
    ensures forall x :: x in StaticLetters[..12] ==> x != [] && x[0] < 'n'
  {
  }

  lemma LastLettersFrom()
    ensures forall x :: x in StaticLetters[12..] ==> x != [] && 'n' <= x[0]
  {
  }

  /** Names split at `k` into two distinct halves, those of the first half
      starting before `c` and those of the second from `c` on, are all
      different. */
  lemma DistinctHalves(s: seq<string>, k: nat, c: char)
    requires k <= |s| && Distinct(s[..k]) && Distinct(s[k..])
    requires forall x :: x in s[..k] ==> x != [] && x[0] < c
    requires forall x :: x in s[k..] ==> x != [] && c <= x[0]
    ensures Distinct(s)
  {
    forall i, j | 0 <= i < j < |s|
      ensures s[i] != s[j]
    {
      if j < k {
        assert s[i] == s[..k][i] && s[j] == s[..k][j];
      } else if k <= i {
        assert s[i] == s[k..][i - k] && s[j] == s[k..][j - k];
      } else {
        assert s[i] in s[..k];
        assert s[j] == s[k..][j - k];
      }
    }
  }

  lemma MovingLettersAreLetters()
    ensures forall l :: l in MovingLetters ==> Letter(l)
    ensures Distinct(MovingLetters)
  {
  }

  /** A plain shape can start and end a transition. */
  lemma PlainShapeFacts(x: string)
    requires PlainShape(x)
    ensures FromShapeFacts(x) && ToShapeFacts(x)
  {
  }

  /** The end of a moving letter starts transitions. */
  lemma EndShapeFacts(l: string)
    requires PlainShape(l)
    ensures FromShapeFacts(l + "-end")
  {
    var e := l + "-end";
    assert e[|e| - 4..] == "-end";
    assert e[..|e| - 4] == l;
    assert |e| < 6 || e[|e| - 6..][5] == 'd';
  }

  /** The beginning of a moving letter ends transitions. */
  lemma BeginShapeFacts(l: string)
    requires l in MovingLetters && PlainShape(l)
    ensures ToShapeFacts(l + "-begin")
    ensures EndsWith(l + "-begin", "-begin") && RemoveSuffix(l + "-begin", "-begin") == l
  {
    var b := l + "-begin";
    assert b[|b| - 6..] == "-begin";
    assert b[..|b| - 6] == l;
    assert b[|b| - 4..][3] == 'n';
  }

  /** The letters, the rest position and the letters with a suffix of four
      or more characters are all distinct. */
  lemma ShapesDistinct(still: seq<string>, moving: seq<string>, suffix: string)
    requires Distinct(still) && Distinct(moving)
    requires forall x :: x in still ==> |x| == 1
    requires forall l :: l in moving ==> |l| == 1
    requires |Rest| == 4 && |suffix| >= 4
    ensures Distinct(still + [Rest] + WithSuffix(moving, suffix))
  {
    var marked := WithSuffix(moving, suffix);
    forall i, j | 0 <= i < j < |marked|
      ensures marked[i] != marked[j]
    {
      assert marked[i][..1] == moving[i];
      assert marked[j][..1] == moving[j];
    }
    DistinctConcat(still, [Rest]);
    DistinctConcat(still + [Rest], marked);
  }

  /** The shapes built from letters all have the facts above. */
  lemma ShapesOfLetters(still: seq<string>)
    requires forall x :: x in still ==> Letter(x)
    ensures forall f :: f in still + [Rest] + WithSuffix(MovingLetters, "-end") ==> FromShapeFacts(f)
    ensures forall t :: t in still + [Rest] + WithSuffix(MovingLetters, "-begin") ==> ToShapeFacts(t)
  {
    RestPlain();
    PlainShapeFacts(Rest);
    MovingLettersAreLetters();
    forall x | x in still
      ensures FromShapeFacts(x) && ToShapeFacts(x)
    {
      LetterPlain(x);
      PlainShapeFacts(x);
    }
    forall i | 0 <= i < |MovingLetters|
      ensures FromShapeFacts(MovingLetters[i] + "-end") && ToShapeFacts(MovingLetters[i] + "-begin")
    {
      LetterPlain(MovingLetters[i]);
      EndShapeFacts(MovingLetters[i]);
      BeginShapeFacts(MovingLetters[i]);
    }
    var ends, begins := WithSuffix(MovingLetters, "-end"), WithSuffix(MovingLetters, "-begin");
    forall f | f in still + [Rest] + ends
      ensures FromShapeFacts(f)
    {
      if f in ends {
        var i :| 0 <= i < |ends| && ends[i] == f;
      }
    }
    forall t | t in still + [Rest] + begins
      ensures ToShapeFacts(t)
    {
      if t in begins {
        var i :| 0 <= i < |begins| && begins[i] == t;
      }
    }
  }

  lemma ShapeFacts()
    ensures forall f :: f in FromShapes() ==> FromShapeFacts(f)
    ensures forall t :: t in ToShapes() ==> ToShapeFacts(t)
    ensures Distinct(FromShapes()) && Distinct(ToShapes())
  {
    StaticLettersAreLetters();
    StaticLettersDistinct();
    MovingLettersAreLetters();
    ShapesOfLetters(StaticLetters);
    forall x | x in StaticLetters
      ensures |x| == 1
    {
      LetterPlain(x);
    }
    forall l | l in MovingLetters
      ensures |l| == 1
    {
      LetterPlain(l);
    }
    ShapesDistinct(StaticLetters, MovingLetters, "-end");
    ShapesDistinct(StaticLetters, MovingLetters, "-begin");
  }

  /** Both shapes of a movement can be split off its name; the first is a
      beginning, never a shape transitions start from. */
  lemma MovementFacts(l: string)
    requires l in MovingLetters
    ensures l in SignWritingMapping
    ensures FromShapeFacts(l + "-end") && ToShapeFacts(l + "-begin")
    ensures EndsWith(l + "-begin", "-begin") && RemoveSuffix(l + "-begin", "-begin") == l
  {
    MovingLettersAreLetters();
    LetterPlain(l);
    EndShapeFacts(l);
    BeginShapeFacts(l);
  }

  /** The 731 names are pairwise distinct, so the dictionary of addresses
      built from them keeps them all, in order. */
  lemma SpriteNamesDistinct()
    ensures Distinct(SpriteNames())
  {
    ShapeFacts();
    TransitionsDistinct(FromShapes(), ToShapes());
    TransitionsMembers(FromShapes(), ToShapes());
    var moves := MovementNames();
    var transitions := Transitions(FromShapes(), ToShapes());
    forall i, j | 0 <= i < j < |moves|
      ensures moves[i] != moves[j]
    {
      MovementFacts(MovingLetters[i]);
      MovementFacts(MovingLetters[j]);
      if moves[i] == moves[j] {
        SpriteNameInjective(MovingLetters[i] + "-begin", MovingLetters[i] + "-end",
                            MovingLetters[j] + "-begin", MovingLetters[j] + "-end");
      }
    }
    forall n | n in moves
      ensures n !in transitions
    {
      var i :| 0 <= i < |moves| && moves[i] == n;
      var l := MovingLetters[i];
      MovementFacts(l);
      if n in transitions {
        var f, t :| f in FromShapes() && t in ToShapes() && n == SpriteName(f, t);
        SpriteNameInjective(l + "-begin", l + "-end", f, t);
        assert false;
      }
    }
    DistinctConcat(moves, transitions);
  }

  // ---------------------------------------------------------------------
  // Fetching

  /** The keys of a dictionary built from `keys` in order: each key once,
      where it first occurs. */
  function DictKeys<T(==)>(keys: seq<T>): (r: seq<T>)
    ensures forall x :: x in r ==> x in keys
  {
    if keys == [] then []
    else
      var d := DictKeys(keys[..|keys| - 1]);
      if keys[|keys| - 1] in d then d else d + [keys[|keys| - 1]]
  }

  /** Keys without repetitions are kept as they are. */
  lemma {:induction false} DictKeysOfDistinct<T>(keys: seq<T>)
    requires Distinct(keys)
    ensures DictKeys(keys) == keys
    decreases |keys|
  {
    if keys != [] {
      var init := keys[..|keys| - 1];
      assert forall i :: 0 <= i < |init| ==> init[i] == keys[i];
      DictKeysOfDistinct(init);
      assert keys == init + [keys[|keys| - 1]];
    }
  }

  function SpritePath(name: string): string {
    "sprites/" + name + ".jpg"
  }

  function SpriteUrl(name: string): string {
    BaseUrl + name + ".jpg"
  }

  /** The addresses of the sprites whose file is not on disk. */
  function Missing(names: seq<string>, onDisk: string -> bool): (r: seq<string>)
    ensures |r| <= |names|
  {
    if names == [] then []
    else
      var last := names[|names| - 1];
      Missing(names[..|names| - 1], onDisk) + (if onDisk(SpritePath(last)) then [] else [SpriteUrl(last)])
  }

  /** `download_files`: the path of every sprite, in order; the address of
      each sprite not yet on disk is fetched before its path is yielded.
      `onDisk` stands for `Path.exists`. */
  method DownloadFiles(onDisk: string -> bool) returns (paths: seq<string>, fetched: seq<string>)
    ensures |paths| == |SpriteNames()| == 731
    ensures forall i :: 0 <= i < |paths| ==> paths[i] == SpritePath(SpriteNames()[i])
    ensures fetched == Missing(SpriteNames(), onDisk)
  {
    var names := ListSprites();
    var keys := DictKeys(names);
    SpriteNamesDistinct();
    DictKeysOfDistinct(names);
    SpriteCount();
    paths, fetched := FetchAll(keys, onDisk);
  }

  /** The loop of `download_files` over the keys of the address dictionary. */
  method FetchAll(keys: seq<string>, onDisk: string -> bool) returns (paths: seq<string>, fetched: seq<string>)
    ensures |paths| == |keys|
    ensures forall i :: 0 <= i < |keys| ==> paths[i] == SpritePath(keys[i])
    ensures fetched == Missing(keys, onDisk)
  {
    paths, fetched := [], [];
    for i := 0 to |keys|
      invariant |paths| == i
      invariant forall k :: 0 <= k < i ==> paths[k] == SpritePath(keys[k])
      invariant fetched == Missing(keys[..i], onDisk)
    {
      var path := SpritePath(keys[i]);
      if !onDisk(path) {
        fetched := fetched + [SpriteUrl(keys[i])];
      }
      paths := paths + [path];
      assert keys[..i + 1][..i] == keys[..i];
    }
    assert keys[..|keys|] == keys;
  }

  // ---------------------------------------------------------------------
  // creat_pose_obj

  /** The component the hand poses carry. */
  const HandComponent: string := "RIGHT_HAND_LANDMARKS"

  /** Every frame has one confidence entry per person and per point of the
      data. */
  predicate ConfidenceShaped(b: Body) {
    && |b.confidence| == |b.data|
    && forall f :: 0 <= f < |b.data| ==>
         && |b.confidence[f]| == |b.data[f]|
         && forall p :: 0 <= p < |b.data[f]| ==> |b.confidence[f][p]| == |b.data[f][p]|
  }

  /** `creat_pose_obj`: the hand landmarks of each frame become the one
      person of that frame, on a 256-cube canvas at 60 frames per second,
      every point fully confident. `handPoints` are the point names
      `pose_format` gives the right-hand component. */
  function HandPose(frames: seq<seq<seq<int>>>, handPoints: seq<string>): (r: PoseData)
    ensures r.header == Header(Dimensions(256, 256, 256), [Component(HandComponent, handPoints)])
    ensures r.body.fps == 60.0
    ensures ConfidenceShaped(r.body)
    ensures |r.body.data| == |frames|
    ensures forall f :: 0 <= f < |frames| ==> r.body.data[f] == [frames[f]]
    ensures forall f, k :: 0 <= f < |frames| && 0 <= k < |frames[f]| ==> r.body.confidence[f][0][k] == 1
  {
    var data := seq(|frames|, f requires 0 <= f < |frames| => [frames[f]]);
    var confidence := seq(|frames|, f requires 0 <= f < |frames| => [seq(|frames[f]|, _ => 1)]);
    PoseData(Header(Dimensions(256, 256, 256), [Component(HandComponent, handPoints)]),
             Body(60.0, data, confidence))
  }

  // ---------------------------------------------------------------------
  // create_final_poses

  /** `signwriting_mapping[shape]`. */
  function Symbol(shape: string): (r: Result<string>)
    ensures r.Ok? <==> shape in SignWritingMapping
  {
    if shape in SignWritingMapping then Ok(SignWritingMapping[shape]) else Err(KeyError)
  }

  /** `f"{signwriting_mapping[from]}-{signwriting_mapping[to]}"`. */
  function SymbolPair(from: string, to: string): (r: Result<string>)
    ensures r.Ok? <==> from in SignWritingMapping && to in SignWritingMapping
  {
    var a :- Symbol(from);
    var b :- Symbol(to);
    Ok(a + "-" + b)
  }

  /** The frames of `extra` after those of `pose`, with the header and frame
      rate of `pose`. */
  function Appended(pose: PoseData, extra: PoseData): (r: PoseData)
    ensures Length(r.body) == Length(pose.body) + Length(extra.body)
    ensures r.body.data[..Length(pose.body)] == pose.body.data
    ensures r.body.data[Length(pose.body)..] == extra.body.data
  {
    PoseData(pose.header,
             Body(pose.body.fps, pose.body.data + extra.body.data, pose.body.confidence + extra.body.confidence))
  }

  /** One pass of the loop of `create_final_poses` up to the copy: the
      SignWriting name of a sprite's pose and the pose copied under it. A
      name that does not split into two shapes is a `ValueError`; a shape
      without a symbol, or a missing movement pose, a `KeyError`. */
  function NamedPose(name: string, pose: PoseData, poses: map<string, PoseData>): Result<(string, PoseData)> {
    var parts := Split(name, '_');
    if |parts| != 2 then Err(ValueError)
    else
      var from, to := parts[0], parts[1];
      if from == to then
        var s :- Symbol(from);
        Ok((s, pose))
      else if EndsWith(from, "-begin") then
        var s :- Symbol(RemoveSuffix(from, "-begin"));
        Ok((s, pose))
      else if EndsWith(to, "-begin") then
        var letter := RemoveSuffix(to, "-begin");
        var movement := SpriteName(letter + "-begin", letter + "-end");
        if movement !in poses then Err(KeyError)
        else
          var s :- SymbolPair(RemoveSuffix(from, "-end"), letter);
          Ok((s, Appended(pose, poses[movement])))
      else if EndsWith(from, "-end") then
        var s :- SymbolPair(RemoveSuffix(from, "-end"), to);
        Ok((s, pose))
      else
        var s :- SymbolPair(from, to);
        Ok((s, pose))
  }

  /** The copy that is saved: the same header, data and confidence, with
      the frame rate set to 60. */
  function SavedCopy(pose: PoseData): PoseData {
    PoseData(pose.header, Body(60.0, pose.body.data, pose.body.confidence))
  }

  /** One pass of the loop of `create_final_poses`: the new name and the
      copy saved under it, or the error that stops the loop. */
  function FinalPose(name: string, pose: PoseData, poses: map<string, PoseData>): (r: Result<(string, PoseData)>)
    ensures r.Ok? ==> r.value.1.body.fps == 60.0
  {
    var named :- NamedPose(name, pose, poses);
    Ok((named.0, SavedCopy(named.1)))
  }

  /** The letter of a shape: the shape without `-begin` or `-end`. */
  function ShapeLetter(shape: string): string {
    if EndsWith(shape, "-begin") then RemoveSuffix(shape, "-begin") else RemoveSuffix(shape, "-end")
  }

  /** The movement of a moving letter is saved under the letter's symbol,
      with its frames as they are, at 60 frames per second. */
  lemma FinalPoseOfMovement(l: string, pose: PoseData, poses: map<string, PoseData>)
    requires l in MovingLetters
    ensures l in SignWritingMapping
    ensures FinalPose(MovementName(l), pose, poses) == Ok((SignWritingMapping[l], SavedCopy(pose)))
  {
    MovementFacts(l);
    SplitSpriteName(l + "-begin", l + "-end");
  }

  /** The name of the sprite from a shape transitions start from to a shape
      they go to: a shape held still is saved under its symbol, any other
      transition under the symbols of its two letters; a transition into a
      moving letter is followed by that letter's movement. */
  lemma FinalPoseOfShapes(f: string, t: string, pose: PoseData, poses: map<string, PoseData>)
    requires FromShapeFacts(f) && ToShapeFacts(t)
    requires EndsWith(t, "-begin") ==> MovementName(ShapeLetter(t)) in poses
    ensures ShapeLetter(f) in SignWritingMapping && ShapeLetter(t) in SignWritingMapping
    ensures f == t ==> FinalPose(SpriteName(f, t), pose, poses) == Ok((SignWritingMapping[f], SavedCopy(pose)))
    ensures f != t && !EndsWith(t, "-begin") ==>
      FinalPose(SpriteName(f, t), pose, poses)
      == Ok((SignWritingMapping[ShapeLetter(f)] + "-" + SignWritingMapping[ShapeLetter(t)], SavedCopy(pose)))
    ensures f != t && EndsWith(t, "-begin") ==>
      FinalPose(SpriteName(f, t), pose, poses)
      == Ok((SignWritingMapping[ShapeLetter(f)] + "-" + SignWritingMapping[ShapeLetter(t)],
             SavedCopy(Appended(pose, poses[MovementName(ShapeLetter(t))]))))
  {
    SplitSpriteName(f, t);
    if EndsWith(t, "-begin") {
      MovementFacts(ShapeLetter(t));
    }
  }

  /** Every transition of the list gets a name, as above. */
  lemma FinalPoseOfTransition(f: string, t: string, pose: PoseData, poses: map<string, PoseData>)
    requires f in FromShapes() && t in ToShapes()
    requires forall m :: m in MovementNames() ==> m in poses
    ensures FinalPose(SpriteName(f, t), pose, poses).Ok?
  {
    ShapeFacts();
    if EndsWith(t, "-begin") {
      var l := RemoveSuffix(t, "-begin");
      var i :| 0 <= i < |MovingLetters| && MovingLetters[i] == l;
      assert MovementNames()[i] == MovementName(l);
    }
    FinalPoseOfShapes(f, t, pose, poses);
  }

  /** `Path(f"poses/{new_name}.pose")`. */
  function FinalPath(newName: string): string {
    "poses/" + newName + ".pose"
  }

  /** The dictionary `create_final_poses` reads: each stem to its pose. */
  function PosesOf(interim: seq<(string, PoseData)>): (r: map<string, PoseData>)
    ensures forall i :: 0 <= i < |interim| ==> interim[i].0 in r
  {
    if interim == [] then map[]
    else
      var last := interim[|interim| - 1];
      PosesOf(interim[..|interim| - 1])[last.0 := last.1]
  }

  /** The files the loop saves, in order, and the error that stops it. */
  function FinalFiles(items: seq<(string, PoseData)>, poses: map<string, PoseData>): (r: (seq<(string, PoseData)>, Option<Error>))
    ensures |r.0| <= |items|
    ensures r.1.None? ==> |r.0| == |items|
  {
    if items == [] then ([], None)
    else
      var prev := FinalFiles(items[..|items| - 1], poses);
      var last := items[|items| - 1];
      if prev.1.Some? then prev
      else match FinalPose(last.0, last.1, poses)
        case Err(e) => (prev.0, Some(e))
        case Ok(named) => (prev.0 + [(FinalPath(named.0), named.1)], None)
  }

  /** Once the loop has stopped, the items after it change nothing. */
  lemma {:induction false} FinalFilesStop(items: seq<(string, PoseData)>, i: nat, poses: map<string, PoseData>)
    requires i <= |items| && FinalFiles(items[..i], poses).1.Some?
    ensures FinalFiles(items, poses) == FinalFiles(items[..i], poses)
    decreases |items| - i
  {
    if i < |items| {
      var next := items[..i + 1];
      assert next[..i] == items[..i];
      FinalFilesStop(items, i + 1, poses);
    } else {
      assert items[..i] == items;
    }
  }

  /** `create_final_poses`: reads the interim poses into a dictionary by
      stem (`interim` lists them as the directory does), then saves each
      pose under its new name in that order. An error stops the loop; the
      files saved before it stay. The stems of the files of one directory
      are distinct. */
  method CreateFinalPoses(interim: seq<(string, PoseData)>) returns (saved: seq<(string, PoseData)>, error: Option<Error>)
    requires forall i, j :: 0 <= i < j < |interim| ==> interim[i].0 != interim[j].0
    ensures (saved, error) == FinalFiles(interim, PosesOf(interim))
  {
    var poses := map[];
    for i := 0 to |interim|
      invariant poses == PosesOf(interim[..i])
    {
      poses := poses[interim[i].0 := interim[i].1];
      assert interim[..i + 1][..i] == interim[..i];
    }
    assert interim[..|interim|] == interim;
    saved, error := [], None;
    var i := 0;
    while i < |interim| && error.None?
      invariant 0 <= i <= |interim|
      invariant (saved, error) == FinalFiles(interim[..i], poses)
    {
      var (stem, pose) := interim[i];
      assert interim[..i + 1][..i] == interim[..i];
      var named := FinalPose(stem, pose, poses);
      if named.Err? {
        error := Some(named.error);
      } else {
        saved := saved + [(FinalPath(named.value.0), named.value.1)];
      }
      i := i + 1;
    }
    if error.Some? {
      FinalFilesStop(interim, i, poses);
    } else {
      assert interim[..i] == interim;
    }
  }

  /** On sprites of the list only, with both movements among them, the loop
      saves every pose. */
  lemma {:induction false} FinalFilesOfSprites(items: seq<(string, PoseData)>, poses: map<string, PoseData>)
    requires forall i :: 0 <= i < |items| ==> items[i].0 in SpriteNames()
    requires forall m :: m in MovementNames() ==> m in poses
    ensures FinalFiles(items, poses).1 == None
    ensures |FinalFiles(items, poses).0| == |items|
    decreases |items|
  {
    if items != [] {
      var init, last := items[..|items| - 1], items[|items| - 1];
      assert forall i :: 0 <= i < |init| ==> init[i] == items[i];
      FinalFilesOfSprites(init, poses);
      TransitionsMembers(FromShapes(), ToShapes());
      if last.0 in MovementNames() {
        var i :| 0 <= i < |MovingLetters| && MovementNames()[i] == last.0;
        FinalPoseOfMovement(MovingLetters[i], last.1, poses);
      } else {
        var f, t :| f in FromShapes() && t in ToShapes() && last.0 == SpriteName(f, t);
        FinalPoseOfTransition(f, t, last.1, poses);
      }
    }
  }
}
