# spoken-to-signed-translation, modelled in Dafny

A model of the core of the spoken-to-signed translation pipeline: text is
turned into glosses (by rules over a spaCy parse, by a language model, or by
a neural translator), each (word, gloss) pair is looked up in a lexicon of
pose files, spelled letter by letter when the lexicon has no entry, and the
poses of a sentence are trimmed, joined at their closest frames and
smoothed into one pose. The two asset scripts that name the fingerspelling
sprites and mirror the fingerspelling lexicon are modelled too.

The files:

- `wrappers.dfy` (module `Wrappers`): `Option`, `Result` and the Python exceptions the code raises
- `pystr.dfy` (module `PyStrings`): the `str` and `list` operations the code uses, on ASCII
- `lru_cache.dfy` (module `LruCache`): `lookup/lru_cache.py`: the cache of decoded poses, as a class
- `languages.dfy` (module `Languages`): `languages.py`: backup signed languages
- `poses.dfy` (module `Poses`): the pose header and body the code reads and slices
- `lookup_index.dfy` (module `LookupIndex`): `lookup/lookup.py`: the nested index and `get_best_row`
- `lookup.dfy` (module `Lookup`): `lookup/lookup.py`: `PoseLookup`, its cache, fallbacks and `lookup_sequence`
- `legacy_lookup.dfy` (module `LegacyLookup`): `gloss_to_pose/lookup.py`: the earlier lookup
- `fingerspelling.dfy` (module `Fingerspelling`): `lookup/fingerspelling_lookup.py`
- `signwriting_fingerspelling.dfy` (module `SignWritingFingerspelling`): `lookup/signwriting_fingerspelling_lookup.py`
- `gloss_normalization.dfy` (module `GlossNormalization`): `lookup/gloss_normalization_helpers.py`
- `concatenate.dfy` (module `Concatenate`): `concatenate.py`: point selection, wrist back-fill, trimming, assembly
- `smoothing.dfy` (module `Smoothing`): `smoothing.py`: seams, cuts, padding and the smoothing mask
- `rules.dfy` (module `Rules`): `text_to_gloss/rules.py`
- `gpt.dfy` (module `Gpt`): `text_to_gloss/gpt.py`: the parser of the model's answer
- `nmt.dfy` (module `Nmt`): `text_to_gloss/nmt.py`: tags, pieces and pairing
- `fingerspelling_animation.dfy` (module `FingerspellingAnimation`): `assets/fingerspelling_animation/process_data.py`
- `create_index.dfy` (module `CreateIndex`): `assets/fingerspelling_lexicon/create_index.py`

Where the code changes state in place (the LRU cache, `PoseLookup` and its
cache, `attach_svp`, `reorder_sub_main`, the loops of `swap`, `get_triplets`,
`get_word_poses`, `download_files`, `create_final_poses`, the growing row
list of `create_index.py`, the in-place edits of `trim_pose`,
`correct_wrist` and the padding), the model is a class or a method with a
loop, proved against a function that specifies the result; the properties
are proved about those functions.

Coordinates are integers and distances squared Euclidean distances (which
have the same minimum); window sizes, frame times and padding counts are
exact rationals with Python's `int`, `//` and `math.ceil` written out.

## Code and description disagree

The model follows the code in each case.

- `get_pose` (`lookup/lookup.py:71-74`) is described as rounding the end
  time up. The code computes `math.ceil(end // frame_time)`, and `//`
  has already floored, so the end frame is floored. An end of 0 or less is
  described as "to the end of the asset". The code slices to `-1`, which
  drops the last frame (`Lookup.FrameRangeSpec`).
- The description has the lookup walk a ladder of gloss normalisers. In
  the code, `get_progressive_gloss_normalizers` is never called by the
  lookup. The normalisers are modelled on their own.
- `trim_pose` ends at the index of the last frame with a visible hand,
  exclusive, so that frame is dropped (`Concatenate.TrimmedSpec`).
- `signwriting_fingerspelling_lookup.py:15` imports a module-level
  `stretch_pose`, which `fingerspelling_lookup.py` defines only as a method.
  `get_word_poses` also calls `get_char_pose` and `break_down_word` on the
  naive lookup, which does not define them. All three are parameters
  of the model.
- The branch chain of `reorder_svo_triplets` (`rules.py:177-196`) does not
  test the orders its comments name: `a < b and b > c` also catches the
  order 2,3,1, and `a > b and a > c` also catches 3,2,1, so the "put 1
  before" and "swap 3,1" branches are never taken
  (`Rules.ClassifyAsWrittenUnreachable`). The model runs the chain as
  written. On a plain subject-object-verb clause that orders every clause
  whose subject is not last (`Rules.FlatClauseReorder`), where the chain the
  comments describe would leave the order verb, subject, object alone
  (`Rules.CommentedChainOnFlat`).

## Model

| member | source | states |
|---|---|---|
| LruCache.MoveToEnd | spoken_to_signed/gloss_to_pose/lookup/lru_cache.py:12 | `move_to_end(k)`: the key order ends with `k` |
| LruCache.LRUCache.constructor | spoken_to_signed/gloss_to_pose/lookup/lru_cache.py:5-7 | a new cache is empty and keeps the given `maxsize` |
| LruCache.LRUCache.Get | spoken_to_signed/gloss_to_pose/lookup/lru_cache.py:9-14 | `get` keeps the key order duplicate-free and matching the map, and returns and leaves exactly what `GetState` says |
| LruCache.LRUCache.Set | spoken_to_signed/gloss_to_pose/lookup/lru_cache.py:16-23 | `set` keeps the cache well formed; it fails with `KeyError` (the `popitem` of an empty dictionary) exactly when `SetState` does, leaving the cache unchanged, and otherwise leaves the state `SetState` says |
| LruCache.WithoutDistinct | spoken_to_signed/gloss_to_pose/lookup/lru_cache.py:12 | removing a key from a duplicate-free order keeps it duplicate-free, removes exactly that key, and shortens it by one exactly when the key was present |
| LruCache.WithoutFirst | spoken_to_signed/gloss_to_pose/lookup/lru_cache.py:22 | removing the oldest key of a duplicate-free order is dropping its head |
| LruCache.WellFormedKeys | spoken_to_signed/gloss_to_pose/lookup/lru_cache.py:6 | in a well-formed state the key order and the map hold the same keys |
| LruCache.GetKeepsWellFormed | spoken_to_signed/gloss_to_pose/lookup/lru_cache.py:9-14 | `get` keeps the state well formed |
| LruCache.MoveToEndSpec | spoken_to_signed/gloss_to_pose/lookup/lru_cache.py:12-19 | `move_to_end` keeps the order duplicate-free and holds exactly the old keys and `k` |
| LruCache.SetKeepsWellFormed | spoken_to_signed/gloss_to_pose/lookup/lru_cache.py:16-23 | a successful `set` keeps the state well formed |
| LruCache.GetAbsent | spoken_to_signed/gloss_to_pose/lookup/lru_cache.py:9-14 | `get` of an absent key returns None and changes neither the order nor the contents |
| LruCache.GetPresent | spoken_to_signed/gloss_to_pose/lookup/lru_cache.py:10-13 | `get` of a present key returns its value, puts it last, keeps every other key in its relative order, and leaves the values unchanged |
| LruCache.WithoutFilterTwice | spoken_to_signed/gloss_to_pose/lookup/lru_cache.py:12 | removing a key twice is removing it once |
| LruCache.SetExisting | spoken_to_signed/gloss_to_pose/lookup/lru_cache.py:17-23 | `set` of a present key never fails and never evicts: it updates the value, moves the key last and keeps the size |
| LruCache.SetNewAtCapacity | spoken_to_signed/gloss_to_pose/lookup/lru_cache.py:20-23 | `set` of a new key on a full cache evicts exactly the oldest key and appends the new one |
| LruCache.SetNewBelowCapacity | spoken_to_signed/gloss_to_pose/lookup/lru_cache.py:20-23 | `set` of a new key below capacity appends it and evicts nothing |
| LruCache.SetKeepsBound | spoken_to_signed/gloss_to_pose/lookup/lru_cache.py:20-23 | with `maxsize >= 1`, `set` never fails and keeps the size at most `maxsize` |
| LruCache.SetOnEmptyWithoutCapacity | spoken_to_signed/gloss_to_pose/lookup/lru_cache.py:20-22 | with `maxsize <= 0`, `set` on an empty cache fails with `KeyError` |
| LruCache.GetAfterSet | spoken_to_signed/gloss_to_pose/lookup/lru_cache.py:10-23 | after `set(k, v)`, `get(k)` returns `v` |
| LruCache.SizeIsOrderLength | spoken_to_signed/gloss_to_pose/lookup/lru_cache.py:6 | the size of a well-formed cache is the length of its key order |
| LruCache.DropOldestSpec | spoken_to_signed/gloss_to_pose/lookup/lru_cache.py:22 | `popitem(last=False)` on a non-empty well-formed cache keeps it well formed and shrinks the order and the map by one each |
| Languages.NoBackupOfBackup | spoken_to_signed/gloss_to_pose/languages.py:1-4 | no backup language has a backup of its own, so the recursion of `languages_set` stops after one step |
| Languages.LanguagesSetContains | spoken_to_signed/gloss_to_pose/languages.py:7-11 | `languages_set(l)` always contains `l` |
| Languages.LanguagesSetOfNonKey | spoken_to_signed/gloss_to_pose/languages.py:11 | for a language without a backup the set is exactly `{l}` |
| Languages.LanguagesSetOfKey | spoken_to_signed/gloss_to_pose/languages.py:8-9 | for a language with a backup the set is `l` and its backup |
| Languages.LanguagesSetExamples | spoken_to_signed/gloss_to_pose/languages.py:1-11 | 'slf' gives {'slf', 'ise'}, 'ssr' gives {'ssr', 'fsl'}, and 'sgg' gives {'sgg'} |
| Poses.Pose.constructor | spoken_to_signed/gloss_to_pose/smoothing.py:54 | a pose object holds the given header and body |
| Poses.SliceBody | spoken_to_signed/gloss_to_pose/concatenate.py:98-99 | slicing a body keeps its fps and slices the data and the confidence by the same Python slice |
| Poses.SliceBodyKeepsAgreement | spoken_to_signed/gloss_to_pose/concatenate.py:98-99 | slicing keeps the data and the confidence frame-aligned |
| Poses.PositionOf | spoken_to_signed/gloss_to_pose/concatenate.py:57 | the position found is the first occurrence, and None means the item is absent |
| Poses.PointIndex | spoken_to_signed/gloss_to_pose/concatenate.py:57-63 | the index of a point, when found, names that point in the header's flat list of points |
| Poses.PointIndexInComponent | spoken_to_signed/gloss_to_pose/concatenate.py:57-63 | the index found lies in the block of the named component |
| Concatenate.HolisticSelection | spoken_to_signed/gloss_to_pose/concatenate.py:48 | the selection fails only with the `IndexError` of `[...][0]` on a header without POSE_LANDMARKS |
| Concatenate.ReduceHolistic | spoken_to_signed/gloss_to_pose/concatenate.py:15-52 | `reduce_holistic` fails exactly when the selection does, and then with `IndexError` |
| Concatenate.FilterFirstNamed | spoken_to_signed/gloss_to_pose/concatenate.py:48 | the first element of the components filtered by name is the first component of that name |
| Concatenate.NamesMembers | spoken_to_signed/gloss_to_pose/concatenate.py:51 | a name is among the component names exactly when some component has it |
| Concatenate.HolisticSelectionSpec | spoken_to_signed/gloss_to_pose/concatenate.py:23-52 | the selection fails exactly when no component is POSE_LANDMARKS; otherwise it keeps exactly the component names other than POSE_WORLD_LANDMARKS, restricts points only for FACE_LANDMARKS (to the contour list) and POSE_LANDMARKS, and keeps a point of the first POSE_LANDMARKS component exactly when no ignored name occurs in it |
| Concatenate.MissingCharNotContained | spoken_to_signed/gloss_to_pose/concatenate.py:49 | a string lacking one character of `sub` does not contain `sub` |
| Concatenate.KeptWhenCharsMissing | spoken_to_signed/gloss_to_pose/concatenate.py:49 | a point lacking one character of each ignored name is kept |
| Concatenate.BodyWristsKept | spoken_to_signed/gloss_to_pose/concatenate.py:49-63 | the body points LEFT_WRIST and RIGHT_WRIST, which `correct_wrist` needs, survive the reduction |
| Concatenate.RightWristKept | spoken_to_signed/gloss_to_pose/concatenate.py:49 | RIGHT_WRIST is kept |
| Concatenate.LeftWristKept | spoken_to_signed/gloss_to_pose/concatenate.py:49 | LEFT_WRIST is kept |
| Concatenate.FingersDropped | spoken_to_signed/gloss_to_pose/concatenate.py:34-49 | LEFT_THUMB, RIGHT_PINKY and MOUTH_LEFT are dropped |
| Concatenate.WristFilledSpec | spoken_to_signed/gloss_to_pose/concatenate.py:69-75 | back-filling changes only the body-wrist slot: each coordinate takes the hand wrist's value where that is non-zero and keeps the body wrist's otherwise, confidence likewise; shapes and fps are kept |
| Concatenate.WristFilledIdempotent | spoken_to_signed/gloss_to_pose/concatenate.py:69-75 | back-filling the same wrist twice is back-filling it once |
| Concatenate.CorrectWrist | spoken_to_signed/gloss_to_pose/concatenate.py:55-76 | `correct_wrist` in place: the new body is the back-filled one, or the error of a missing point or an unreadable index with the body unchanged |
| Concatenate.CorrectWrists | spoken_to_signed/gloss_to_pose/concatenate.py:79-82 | `correct_wrists` applies LEFT, then RIGHT, and stops at the first error |
| Concatenate.FirstTrue | spoken_to_signed/gloss_to_pose/concatenate.py:95 | `np.argmax` of a boolean array is the first `true`, or 0 when there is none |
| Concatenate.Reverse | spoken_to_signed/gloss_to_pose/concatenate.py:96 | `[::-1]` keeps the length |
| Concatenate.LastTrueSpec | spoken_to_signed/gloss_to_pose/concatenate.py:96 | `len - argmax(reversed) - 1` is the last `true`, or `len - 1` when there is none |
| Concatenate.EitherHand | spoken_to_signed/gloss_to_pose/concatenate.py:93 | the visibility mask has one entry per frame |
| Concatenate.TrimmedSpec | spoken_to_signed/gloss_to_pose/concatenate.py:85-100 | with a visible hand, the kept frames run from the first visible frame (or 0 without `start`) up to and excluding the last visible frame (or to the end without `end`); with none visible, `start` keeps 0 and `end` still drops the final frame |
| Concatenate.TrimmedSingleVisible | spoken_to_signed/gloss_to_pose/concatenate.py:95-99 | with both flags and a single visible frame, trimming leaves no frames |
| Concatenate.TrimPose | spoken_to_signed/gloss_to_pose/concatenate.py:85-100 | `trim_pose` in place: an empty pose is unchanged; otherwise the body becomes the trimmed one, or the error of a missing wrist, an unreadable index or `argmax` of an empty mask, with the body unchanged |
| Concatenate.OutputSize | spoken_to_signed/gloss_to_pose/concatenate.py:124-128 | the output canvas is `int(500 * 1.25 * 2)` = 1250 |
| Concatenate.Reductions | spoken_to_signed/gloss_to_pose/concatenate.py:105 | one reduction per input |
| Concatenate.Trims | spoken_to_signed/gloss_to_pose/concatenate.py:112 | one trim per pose |
| Concatenate.Assembled | spoken_to_signed/gloss_to_pose/concatenate.py:112-116 | a joined pose exists only for a non-empty input and carries the first pose's header |
| Concatenate.Finished | spoken_to_signed/gloss_to_pose/concatenate.py:120-128 | the finished pose carries the resized header |
| Concatenate.TrimmedFlags | spoken_to_signed/gloss_to_pose/concatenate.py:95-99 | without `start` trimming keeps the first frame; without `end` it keeps the last |
| Concatenate.TrimsKeepOuterEnds | spoken_to_signed/gloss_to_pose/concatenate.py:112 | the first pose is never trimmed at the start and the last never at the end |
| Concatenate.ConcatenatedFails | spoken_to_signed/gloss_to_pose/concatenate.py:103-116 | an empty list fails with `ValueError`, and any input without POSE_LANDMARKS makes the whole call fail with `IndexError` |
| Concatenate.ReductionsFail | spoken_to_signed/gloss_to_pose/concatenate.py:105 | one failing reduction makes the list of reductions fail with `IndexError` |
| Concatenate.ConcatenatedCanvas | spoken_to_signed/gloss_to_pose/concatenate.py:116-128 | the result has width and height 1250 and the components of the first reduced pose |
| Concatenate.FirstFailing | spoken_to_signed/gloss_to_pose/concatenate.py:105 | a list with a failure has a first failure |
| Concatenate.MakePoses | spoken_to_signed/gloss_to_pose/concatenate.py:105-108 | one new, distinct pose object per prepared value, holding that value |
| Concatenate.TrimPoses | spoken_to_signed/gloss_to_pose/concatenate.py:112 | trims every pose in place with the flags `i > 0`, `i < len - 1`, and reports the first error |
| Concatenate.TrimNext | spoken_to_signed/gloss_to_pose/concatenate.py:112 | trims pose `i` and keeps the bodies before it trimmed |
| Concatenate.AssemblePoses | spoken_to_signed/gloss_to_pose/concatenate.py:112-116 | trimming and smooth joining give a new pose holding `Assembled` of the prepared values, or its error |
| Concatenate.FinishPose | spoken_to_signed/gloss_to_pose/concatenate.py:118-128 | wrist correction and rescaling in place give `Finished` of the joined pose, or its error |
| Concatenate.ConcatenatePoses | spoken_to_signed/gloss_to_pose/concatenate.py:103-130 | `concatenate_poses` returns a new pose holding `Concatenated` of the inputs, or its error |
| Smoothing.CeilSpec | spoken_to_signed/gloss_to_pose/smoothing.py:59-60 | `math.ceil(x)` is the least integer not below `x` |
| Smoothing.TruncSpec | spoken_to_signed/gloss_to_pose/smoothing.py:32 | `int(x)` truncates toward zero |
| Smoothing.WindowSizeBounds | spoken_to_signed/gloss_to_pose/smoothing.py:57-60 | the window `ceil(min(0.3 * fps, 0.3 * len))` never exceeds the pose, two windows of one pose overlap by at most one frame, and the window is positive exactly for a positive fps and a non-empty pose |
| Smoothing.SqDist | spoken_to_signed/gloss_to_pose/smoothing.py:68 | the squared distance is never negative |
| Smoothing.PersonDist | spoken_to_signed/gloss_to_pose/smoothing.py:65-68 | the distance of one person's points is never negative |
| Smoothing.FrameDist | spoken_to_signed/gloss_to_pose/smoothing.py:65-68 | `cdist` of two frames is the squared distance of their flattened coordinates, never negative |
| Smoothing.SqDistConcat | spoken_to_signed/gloss_to_pose/smoothing.py:65-68 | the squared distance of concatenated vectors is the sum of the parts' distances |
| Smoothing.FlattenLength | spoken_to_signed/gloss_to_pose/smoothing.py:65-66 | equally shaped frames flatten to equally long vectors |
| Smoothing.PersonDistFlat | spoken_to_signed/gloss_to_pose/smoothing.py:65-68 | the distance of one person's points is the squared distance of the flattened vectors, as `reshape(len, -1)` and `cdist` compute it |
| Smoothing.FrameDistByPerson | spoken_to_signed/gloss_to_pose/smoothing.py:65-68 | for frames whose people have the same numbers of points and coordinates, the distance of the flattened frames is the sum of the person-by-person distances |
| Smoothing.FlatFrameWidth | spoken_to_signed/gloss_to_pose/smoothing.py:65-66 | a frame of shape (people, points, dims) flattens to `people * points * dims` coordinates, the column count `reshape(len, -1)` gives it |
| Smoothing.FlatFrameCons | spoken_to_signed/gloss_to_pose/smoothing.py:65 | a flattened frame is its first person's points followed by the rest |
| Smoothing.DistanceMatrix | spoken_to_signed/gloss_to_pose/smoothing.py:68 | the distance matrix has one row per frame of the end window and one column per frame of the start window |
| Smoothing.ArgMin | spoken_to_signed/gloss_to_pose/smoothing.py:69 | the index found lies in the row |
| Smoothing.ArgMinSpec | spoken_to_signed/gloss_to_pose/smoothing.py:69 | `np.argmin` finds a minimum, and no earlier entry is as small |
| Smoothing.ArgMin2 | spoken_to_signed/gloss_to_pose/smoothing.py:69 | the row-major argmin lies inside the matrix |
| Smoothing.ArgMin2Spec | spoken_to_signed/gloss_to_pose/smoothing.py:69 | the row-major argmin is a minimum, and every entry before it in row-major order is strictly larger |
| Smoothing.LastStart | spoken_to_signed/gloss_to_pose/smoothing.py:62 | the end window starts inside the pose |
| Smoothing.FirstCount | spoken_to_signed/gloss_to_pose/smoothing.py:63 | the start window is no longer than the pose |
| Smoothing.FindBestConnectionPoint | spoken_to_signed/gloss_to_pose/smoothing.py:57-71 | the search fails with `ValueError` only: that of `argmin` over an empty matrix, or that of `cdist` when the two poses' frames flatten to different widths |
| Smoothing.WindowsSpec | spoken_to_signed/gloss_to_pose/smoothing.py:59-63 | the end window is the last `p1_size` frames, and the start window the first `p2_size` frames |
| Smoothing.SeamBounds | spoken_to_signed/gloss_to_pose/smoothing.py:62-71 | a found seam `(e, s)` has `len1 - p1_size <= e < len1` and `0 <= s < p2_size` |
| Smoothing.SeamIsClosest | spoken_to_signed/gloss_to_pose/smoothing.py:62-71 | the seam is the first pair in row-major order at the smallest distance between the end window of the first pose and the start window of the second |
| Smoothing.SeamAt | spoken_to_signed/gloss_to_pose/smoothing.py:70-71 | the seam is the argmin of the distance matrix shifted by the start of the end window |
| Smoothing.ClosestPair | spoken_to_signed/gloss_to_pose/smoothing.py:68-71 | the argmin of the distance matrix, shifted, is the closest pair of frames, and the first such pair in row-major order |
| Smoothing.CloserThan | spoken_to_signed/gloss_to_pose/smoothing.py:68-69 | the minimal entry is no farther than any pair in the windows, and strictly closer than any earlier pair |
| Smoothing.DistanceEntry | spoken_to_signed/gloss_to_pose/smoothing.py:68 | each matrix entry is the distance of the two frames it stands for |
| Smoothing.FindBestConnectionPointFails | spoken_to_signed/gloss_to_pose/smoothing.py:57-71 | at positive frame rates, the search fails exactly when one of the poses has no frames or when the frames of the two poses flatten to different widths |
| Smoothing.Seams | spoken_to_signed/gloss_to_pose/smoothing.py:82-85 | one seam per consecutive pair searched so far |
| Smoothing.SeamsSpec | spoken_to_signed/gloss_to_pose/smoothing.py:82-85 | the seams exist exactly when every consecutive pair has one, and then the k-th seam is the one found between poses k and k+1; a failure is the first failing pair's |
| Smoothing.SeamsFound | spoken_to_signed/gloss_to_pose/smoothing.py:82-85 | the seams exist exactly when every consecutive pair has one, each as found for its pair |
| Smoothing.SeamsMissing | spoken_to_signed/gloss_to_pose/smoothing.py:82-85 | a failure of the seams is the error of the first pair without a seam |
| Smoothing.SeamsStayFailed | spoken_to_signed/gloss_to_pose/smoothing.py:82-85 | once a seam is missing, searching further pairs does not change the error |
| Smoothing.Plan | spoken_to_signed/gloss_to_pose/smoothing.py:81-91 | the cutting plan has one range per pose |
| Smoothing.SeamsStep | spoken_to_signed/gloss_to_pose/smoothing.py:85 | one more search extends the seams by its result, or fails with its error |
| Smoothing.PlanFailsFrom | spoken_to_signed/gloss_to_pose/smoothing.py:82-85 | a missing seam makes the whole plan fail with its error |
| Smoothing.PlanOfSeams | spoken_to_signed/gloss_to_pose/smoothing.py:81-91 | the plan is the cut of each pose between its predecessor's seam and its own |
| Smoothing.CutsSoFarStep | spoken_to_signed/gloss_to_pose/smoothing.py:82-91 | cutting pose `i` to `[start, end)` extends the bodies cut so far |
| Smoothing.Cuts | spoken_to_signed/gloss_to_pose/smoothing.py:90 | one cut body per pose |
| Smoothing.CutsSoFarPlan | spoken_to_signed/gloss_to_pose/smoothing.py:81-91 | the bodies cut by the loop are the ones the plan names |
| Smoothing.PlanSpec | spoken_to_signed/gloss_to_pose/smoothing.py:81-91 | pose 0 starts at 0, the last pose ends at its length, pose `i` ends at its seam's first index and pose `i+1` starts at its second; so the matched frame of pose `i` is excluded and that of pose `i+1` included, and every range is valid |
| Smoothing.PlanFails | spoken_to_signed/gloss_to_pose/smoothing.py:81-91 | the plan fails exactly when some consecutive pair has no seam, with the first such pair's error |
| Smoothing.FoundSeams | spoken_to_signed/gloss_to_pose/smoothing.py:82-85 | the number of seams found before the first missing one: all of them up to it are found, and the next is not |
| Smoothing.CutsBeforeFailureAt | spoken_to_signed/gloss_to_pose/smoothing.py:82-91 | when the seam after pose `i` is the first missing one, the plan fails and the loop has cut exactly the poses before `i` |
| Smoothing.CutsBeforeFailureSpec | spoken_to_signed/gloss_to_pose/smoothing.py:82-91 | when the seam after pose `k` is the first missing one, the plan fails, every pose before `k` is cut in place between the seams around it, and pose `k` and the later ones are left as they were |
| Smoothing.SeamsNest | spoken_to_signed/gloss_to_pose/smoothing.py:59-71 | the start seam of a pose never comes after its end seam, so a pose's range is never reversed |
| Smoothing.FindBestChainsWell | spoken_to_signed/gloss_to_pose/smoothing.py:57-71 | every seam lies inside both poses, and consecutive seams nest |
| Smoothing.ZeroFrame | spoken_to_signed/gloss_to_pose/smoothing.py:33-35 | a zero frame has the given (people, points, dims) shape and only zero coordinates |
| Smoothing.ZeroConfidence | spoken_to_signed/gloss_to_pose/smoothing.py:33-36 | zero confidence has the given (people, points) shape and only zero entries |
| Smoothing.PaddingBody | spoken_to_signed/gloss_to_pose/smoothing.py:30-36 | the padding has the example's fps and `n` frames, each the zero frame of the example's (people, points, dims) shape, with zero confidence of that shape |
| Smoothing.PaddingFramesSpec | spoken_to_signed/gloss_to_pose/smoothing.py:32-93 | the padding is `int(0.2 * fps)` frames, the integer part of `0.2 * fps` |
| Smoothing.PadAll | spoken_to_signed/gloss_to_pose/smoothing.py:41-43 | padding keeps the number of poses |
| Smoothing.PadCount | spoken_to_signed/gloss_to_pose/smoothing.py:41-43 | the loop pads poses until the first one not shaped like the padding: every pose before that count has the padding's shape, and the pose at the count, unless it is the last, has not |
| Smoothing.PadCountAll | spoken_to_signed/gloss_to_pose/smoothing.py:41-47 | when every concatenation succeeds, every pose but the last is padded |
| Smoothing.PaddingKeepsShape | spoken_to_signed/gloss_to_pose/smoothing.py:33-43 | once every pose is cut, each keeps its cut frames and what the padding appends to it is zero frames of the first pose's shape before its cut, even when the cut left no frame; when every concatenation succeeds each pose but the last gets all `int(0.2 * fps)` padding frames |
| Smoothing.CutAndPadded | spoken_to_signed/gloss_to_pose/smoothing.py:41-90 | cutting and padding keep the number of poses |
| Smoothing.PaddedFramesCount | spoken_to_signed/gloss_to_pose/smoothing.py:41-47 | the padded frames are the kept frames plus one padding per pose |
| Smoothing.CutAndPaddedLength | spoken_to_signed/gloss_to_pose/smoothing.py:41-90 | pose `k` keeps its range and gets one padding, except the last |
| Smoothing.AllDataPrefix | spoken_to_signed/gloss_to_pose/smoothing.py:41-47 | the joined prefix has the padded frame count of its poses |
| Smoothing.FrameCount | spoken_to_signed/gloss_to_pose/smoothing.py:41-93 | before interpolation, the joined pose has the sum of the kept frames plus `(n - 1)` paddings |
| Smoothing.Savgol | spoken_to_signed/gloss_to_pose/smoothing.py:22-26 | filtering keeps the number of frames |
| Smoothing.SavgolTouches | spoken_to_signed/gloss_to_pose/smoothing.py:16-26 | the filter changes only person 0, keeps every point in the half-open face range `[first, last)` as it was, and filters every other point, the last face point included |
| Smoothing.BodiesOf | spoken_to_signed/gloss_to_pose/smoothing.py:46-47 | one body per pose |
| Smoothing.CutNext | spoken_to_signed/gloss_to_pose/smoothing.py:82-91 | one loop step: finds the next seam, cuts pose `i` in place, and keeps the plan so far |
| Smoothing.CutPoses | spoken_to_signed/gloss_to_pose/smoothing.py:81-91 | the cutting loop leaves each pose cut as the plan says; or it fails with the plan's error, leaving the poses before the missing seam cut and the others as they were |
| Smoothing.ConcatenatePoses | spoken_to_signed/gloss_to_pose/smoothing.py:39-54 | the poses are padded in place one by one until one is not shaped like the padding; a pose not so shaped, or a last pose of another shape, makes `np.concatenate` fail with `ValueError`; otherwise every pose but the last is padded and the result is a new pose with the first header and the interpolated join of the padded bodies |
| Smoothing.PoseSavgolFilter | spoken_to_signed/gloss_to_pose/smoothing.py:11-27 | the filter in place; or, with the body unchanged, the `ValueError`/`IndexError` of a header without exactly one non-empty FACE_LANDMARKS component, or the `ValueError` `savgol_filter` raises on fewer than three frames |
| Smoothing.SmoothConcatenatePoses | spoken_to_signed/gloss_to_pose/smoothing.py:74-97 | an empty list fails with `ValueError`; a single pose is returned as it is; otherwise the poses are left cut and padded, and the new pose is made, as `SmoothPlan` says, on the error paths too: a missing seam leaves only the poses before it cut, a negative padding size or a shape mismatch fails with `ValueError` |
| Smoothing.SmoothSeveral | spoken_to_signed/gloss_to_pose/smoothing.py:81-97 | for two poses or more: the poses left in place and the new pose, or its error, are what `SmoothPlan` says, including the poses cut before a missing seam and those padded before a shape mismatch |
| Smoothing.JoinCutPoses | spoken_to_signed/gloss_to_pose/smoothing.py:93-97 | once every pose is cut: the padding has the first pose's frame shape, the poses are left padded and the new pose is made as `JoinCuts` says, or its `ValueError` |
| LookupIndex.ToEntry | spoken_to_signed/gloss_to_pose/lookup/lookup.py:35-41 | the stored entry keeps the row's path, its term as written (not lower-cased), and its integer start, end and priority |
| LookupIndex.ToEntries | spoken_to_signed/gloss_to_pose/lookup/lookup.py:35-41 | one entry per row, in order |
| LookupIndex.ToEntriesConcat | spoken_to_signed/gloss_to_pose/lookup/lookup.py:32-41 | the entries of two row lists concatenate |
| LookupIndex.MakeDictionaryIndex | spoken_to_signed/gloss_to_pose/lookup/lookup.py:29-42 | the loop builds exactly the index that filing the rows one after the other gives |
| LookupIndex.BucketAdd | spoken_to_signed/gloss_to_pose/lookup/lookup.py:35 | filing one row appends its entry to its own bucket `[spoken][signed][term.lower()]` and to no other |
| LookupIndex.SnocSplit | spoken_to_signed/gloss_to_pose/lookup/lookup.py:32 | a non-empty list is its prefix followed by its last element |
| LookupIndex.IndexBuckets | spoken_to_signed/gloss_to_pose/lookup/lookup.py:29-42 | each bucket holds the entries of exactly the rows filed under its pair and lower-cased key, in row order |
| LookupIndex.BucketsStep | spoken_to_signed/gloss_to_pose/lookup/lookup.py:32-41 | filing one more row keeps every bucket equal to the filtered rows' entries |
| LookupIndex.FilterSnocEntries | spoken_to_signed/gloss_to_pose/lookup/lookup.py:32-41 | the entries of the filtered rows grow by the last row's entry exactly when it passes the filter |
| LookupIndex.IndexWellFormed | spoken_to_signed/gloss_to_pose/lookup/lookup.py:29-42 | every table records each of its keys once, in insertion order, and only keys with entries |
| LookupIndex.IndexPresence | spoken_to_signed/gloss_to_pose/lookup/lookup.py:97 | a key is present under a pair exactly when some row is filed under it |
| LookupIndex.IndexPairs | spoken_to_signed/gloss_to_pose/lookup/lookup.py:94-95 | a language pair is present exactly when some row has it |
| LookupIndex.AddPairs | spoken_to_signed/gloss_to_pose/lookup/lookup.py:35 | filing a row adds exactly its language pair |
| LookupIndex.IndexPairsAgree | spoken_to_signed/gloss_to_pose/lookup/lookup.py:21-22 | the words index and the glosses index have the same language pairs |
| LookupIndex.InsertCount | spoken_to_signed/gloss_to_pose/lookup/lookup.py:78 | inserting adds exactly one element |
| LookupIndex.InsertSorted | spoken_to_signed/gloss_to_pose/lookup/lookup.py:78 | inserting into a priority-sorted list keeps it sorted |
| LookupIndex.SortByPrioritySpec | spoken_to_signed/gloss_to_pose/lookup/lookup.py:78 | the sort is sorted by priority and a permutation |
| LookupIndex.FirstMatchAtLeastHead | spoken_to_signed/gloss_to_pose/lookup/lookup.py:80-84 | the first match of a sorted list has a priority no better than the head's |
| LookupIndex.FirstMatchInsert | spoken_to_signed/gloss_to_pose/lookup/lookup.py:78-82 | inserting an entry into a sorted list changes the first match only if the entry matches and is not worse, so the sort is stable |
| LookupIndex.FirstMatchOfSortIsBest | spoken_to_signed/gloss_to_pose/lookup/lookup.py:78-82 | the first match after the stable sort is the best match of the unsorted list: the lowest priority, the earliest among equals |
| LookupIndex.BestSpec | spoken_to_signed/gloss_to_pose/lookup/lookup.py:78-84 | the best match is absent exactly when nothing matches, and otherwise it is at a position no other match beats |
| LookupIndex.GetBestRowSpec | spoken_to_signed/gloss_to_pose/lookup/lookup.py:76-84 | `get_best_row` fails only on an empty list (the `IndexError` of `rows[0]`); it picks the best exact-term row when there is one, even over rows of better priority, and the best row overall otherwise |
| Lookup.PathJoinSpec | spoken_to_signed/gloss_to_pose/lookup/lookup.py:59 | `os.path.join` keeps an absolute path, and otherwise puts the relative path under the directory |
| Lookup.LocateSchemes | spoken_to_signed/gloss_to_pose/lookup/lookup.py:44-61 | a "gs://" path is read from remote storage without a directory, an "https://" path raises `NotImplementedError`, and any other path is read from under the directory |
| Lookup.DivFrameTime | spoken_to_signed/gloss_to_pose/lookup/lookup.py:71-72 | dividing by `frame_time = 1000 / fps` is multiplying by `fps / 1000` |
| Lookup.FrameRangeSpec | spoken_to_signed/gloss_to_pose/lookup/lookup.py:71-74 | at a positive fps the start frame is the frame holding the start time, so is the end frame for a positive end, and a non-positive end gives `-1`, which as a slice bound drops the last frame |
| Lookup.GetPoseTransparent | spoken_to_signed/gloss_to_pose/lookup/lookup.py:63-74 | with a positive capacity and a cache holding only what the files hold, `get_pose` returns the entry's frames of the file's pose, whatever the cache holds, and the cache stays coherent and well formed |
| Lookup.GetPoseStoresOnMiss | spoken_to_signed/gloss_to_pose/lookup/lookup.py:65-68 | on a miss the pose read is stored in the cache as the most recent entry, and the GCS file system is opened only for a "gs://" path |
| Lookup.ProbeFromRows | spoken_to_signed/gloss_to_pose/lookup/lookup.py:93-98 | probing the index built from the rows finds exactly the rows filed under the pair and the lower-cased term |
| Lookup.FindEntryPrecedence | spoken_to_signed/gloss_to_pose/lookup/lookup.py:86-99 | the probes go to the words index with the word, then the glosses index with the word, then the glosses index with the gloss; the first non-empty bucket wins and gives its best row for the term probed |
| Lookup.BestOfFound | spoken_to_signed/gloss_to_pose/lookup/lookup.py:76-99 | a non-empty bucket always yields one of its own rows |
| Lookup.FindEntryNoneWord | spoken_to_signed/gloss_to_pose/lookup/lookup.py:93-96 | a missing word raises `AttributeError` (`None.lower()`) when the pair is in the words index, and otherwise probes nothing |
| Lookup.LookupFallsBackToLanguage | spoken_to_signed/gloss_to_pose/lookup/lookup.py:101-103 | on a miss under a signed language with a backup, the whole lookup reruns under the backup language |
| Lookup.LookupFallsBackToResolver | spoken_to_signed/gloss_to_pose/lookup/lookup.py:105-109 | on a miss without a backup language, the arguments go to the backup resolver if there is one, and otherwise `FileNotFoundError` is raised; the cache is unchanged |
| Lookup.LookupTransparent | spoken_to_signed/gloss_to_pose/lookup/lookup.py:86-109 | with a positive capacity and a coherent cache, `lookup` gives the cache-free result `LookupValue`, and the cache stays coherent and well formed |
| Lookup.Outcomes | spoken_to_signed/gloss_to_pose/lookup/lookup.py:121 | one outcome per pair |
| Lookup.ResolvedSnoc | spoken_to_signed/gloss_to_pose/lookup/lookup.py:123 | one more outcome adds its pose when it has one |
| Lookup.CollectResultsSpec | spoken_to_signed/gloss_to_pose/lookup/lookup.py:112-123 | the collection succeeds exactly when every outcome is a pose or a `FileNotFoundError`, and then holds the found poses in input order |
| Lookup.ResolvedLength | spoken_to_signed/gloss_to_pose/lookup/lookup.py:123 | the found poses are at most as many as the pairs, and all of them when every pair is found |
| Lookup.CollectTransparent | spoken_to_signed/gloss_to_pose/lookup/lookup.py:111-123 | the cached collection gives what collecting the cache-free outcomes gives, and keeps the cache coherent |
| Lookup.PoseLookup.constructor | spoken_to_signed/gloss_to_pose/lookup/lookup.py:15-27 | both indexes are built from the rows, no file system is open, and the cache is the given one or a new empty one of capacity 100 |
| Lookup.PoseLookup.ReadPoseFile | spoken_to_signed/gloss_to_pose/lookup/lookup.py:44-61 | `read_pose` returns the stored pose or the scheme's error, and opens the GCS file system exactly for a "gs://" path |
| Lookup.PoseLookup.GetPose | spoken_to_signed/gloss_to_pose/lookup/lookup.py:63-74 | `get_pose` returns, and leaves the cache as, `GetPoseStep` says |
| Lookup.PoseLookup.Lookup | spoken_to_signed/gloss_to_pose/lookup/lookup.py:86-109 | `lookup` returns, and leaves the cache as, `LookupStep` says |
| Lookup.PoseLookup.LookupSequence | spoken_to_signed/gloss_to_pose/lookup/lookup.py:111-129 | `lookup_sequence` returns the poses found, in input order, skipping `FileNotFoundError` misses; it raises the first other error, and raises when nothing is found |
| Lookup.CollectStopsAtError | spoken_to_signed/gloss_to_pose/lookup/lookup.py:114-118 | an error other than `FileNotFoundError` ends the sequence: later pairs change nothing |
| LegacyLookup.LastWithKey | spoken_to_signed/gloss_to_pose/lookup.py:21 | the row found has the key asked for and comes from the rows |
| LegacyLookup.MakeDictIndexSpec | spoken_to_signed/gloss_to_pose/lookup.py:20-21 | the dictionary holds a key exactly when some row has it, case-sensitively, and then maps it to the last such row |
| LegacyLookup.LastWithKeyNone | spoken_to_signed/gloss_to_pose/lookup.py:21 | no row is found exactly when no row has the key |
| LegacyLookup.ReadPoseAgrees | spoken_to_signed/gloss_to_pose/lookup.py:23-36 | the legacy `read_pose` classifies paths as the new one does: "gs://" remote, "https://" `NotImplementedError`, anything else under the directory |
| LegacyLookup.LegacyLookupPrecedence | spoken_to_signed/gloss_to_pose/lookup.py:38-49 | `lookup` tries `words[word]`, then `glosses[word]`, then `glosses[gloss]`, reads the first row found, and raises `FileNotFoundError` on a complete miss |
| LegacyLookup.LegacyLookupNoneWord | spoken_to_signed/gloss_to_pose/lookup.py:38-47 | a missing word never matches a key, so only the gloss is probed |
| LegacyLookup.Outcomes | spoken_to_signed/gloss_to_pose/lookup.py:53-58 | one outcome per pair |
| LegacyLookup.LookupSequence | spoken_to_signed/gloss_to_pose/lookup.py:51-64 | `lookup_sequence` returns the poses found in input order, skips `FileNotFoundError`, stops at any other error, and raises when nothing is found |
| LegacyLookup.CollectStopsAtError | spoken_to_signed/gloss_to_pose/lookup.py:53-58 | after an error other than `FileNotFoundError`, later pairs change nothing |
| Fingerspelling.InsertByLength | spoken_to_signed/gloss_to_pose/lookup/fingerspelling_lookup.py:17 | inserting adds exactly one key, and the new head is the key or the old head |
| Fingerspelling.SortByLength | spoken_to_signed/gloss_to_pose/lookup/fingerspelling_lookup.py:17 | the sort is a permutation of the keys |
| Fingerspelling.InsertByLengthSorted | spoken_to_signed/gloss_to_pose/lookup/fingerspelling_lookup.py:17 | inserting into a longest-first list keeps it longest first |
| Fingerspelling.InsertByLengthStable | spoken_to_signed/gloss_to_pose/lookup/fingerspelling_lookup.py:17 | inserting keeps the order among keys of each length |
| Fingerspelling.SortByLengthSpec | spoken_to_signed/gloss_to_pose/lookup/fingerspelling_lookup.py:17 | `sorted(keys, key=len, reverse=True)` is longest first, a permutation, and stable: keys of equal length keep their index order |
| Fingerspelling.AlphabetsOf | spoken_to_signed/gloss_to_pose/lookup/fingerspelling_lookup.py:15-21 | there is one alphabet per language pair of the words index |
| Fingerspelling.AlphabetOfPair | spoken_to_signed/gloss_to_pose/lookup/fingerspelling_lookup.py:15-21 | each pair's alphabet is its bucket keys, longest first, ties in index order |
| Fingerspelling.FirstKeyIn | spoken_to_signed/gloss_to_pose/lookup/fingerspelling_lookup.py:28-29 | the key found is the first alphabet key occurring in the word; None means no key occurs |
| Fingerspelling.CutAt | spoken_to_signed/gloss_to_pose/lookup/fingerspelling_lookup.py:28-35 | the word is split at the first occurrence of the first key found: `word == before + key + after` |
| Fingerspelling.ConcatAppend | spoken_to_signed/gloss_to_pose/lookup/fingerspelling_lookup.py:33-35 | spelling two key lists one after the other spells their concatenation |
| Fingerspelling.SpelledAround | spoken_to_signed/gloss_to_pose/lookup/fingerspelling_lookup.py:33-35 | the keys before, the key and the keys after spell the three parts in order |
| Fingerspelling.StartsWithAround | spoken_to_signed/gloss_to_pose/lookup/fingerspelling_lookup.py:33-35 | a prefix of the part after the key extends to a prefix of the word |
| Fingerspelling.StartsWithBefore | spoken_to_signed/gloss_to_pose/lookup/fingerspelling_lookup.py:33 | a prefix of the part before the key is a prefix of the word |
| Fingerspelling.SpellSpells | spoken_to_signed/gloss_to_pose/lookup/fingerspelling_lookup.py:28-39 | the keys yielded always spell a prefix of the word, and the whole word when no exception ends the recursion |
| Fingerspelling.SpellKeys | spoken_to_signed/gloss_to_pose/lookup/fingerspelling_lookup.py:28-36 | every key yielded is an alphabet key, and none is empty in a completed decomposition |
| Fingerspelling.SpellFailures | spoken_to_signed/gloss_to_pose/lookup/fingerspelling_lookup.py:24-39 | the decomposition can only end in `FileNotFoundError`, or in Python's recursion error when the alphabet holds the empty key |
| Fingerspelling.SpellEmpty | spoken_to_signed/gloss_to_pose/lookup/fingerspelling_lookup.py:24 | `characters_lookup("")` yields nothing |
| Fingerspelling.SpellMissing | spoken_to_signed/gloss_to_pose/lookup/fingerspelling_lookup.py:38-39 | a non-empty word containing no alphabet key raises `FileNotFoundError` |
| Fingerspelling.SpellCovered | spoken_to_signed/gloss_to_pose/lookup/fingerspelling_lookup.py:23-39 | when every character of the word is a key and no key is empty, the decomposition completes |
| Fingerspelling.CharPoses | spoken_to_signed/gloss_to_pose/lookup/fingerspelling_lookup.py:34 | one pose per key |
| Fingerspelling.CharactersLookupSpec | spoken_to_signed/gloss_to_pose/lookup/fingerspelling_lookup.py:23-39 | on success, one pose per key of a decomposition that spells the whole word |
| Fingerspelling.CharPoseOk | spoken_to_signed/gloss_to_pose/lookup/fingerspelling_lookup.py:34 | a key's pose is read from the first row of its bucket (`rows[key][0]`), not from `get_best_row` |
| Fingerspelling.CharactersLookupEmpty | spoken_to_signed/gloss_to_pose/lookup/fingerspelling_lookup.py:24 | the empty word gives no poses |
| Fingerspelling.CharPosesErrors | spoken_to_signed/gloss_to_pose/lookup/fingerspelling_lookup.py:34 | a failing read of the keys' poses is the error of some pose read |
| Fingerspelling.CharactersLookupErrors | spoken_to_signed/gloss_to_pose/lookup/fingerspelling_lookup.py:23-39 | a failure is `FileNotFoundError`, the recursion error, or the error of a pose read |
| Fingerspelling.Interpolated | spoken_to_signed/gloss_to_pose/lookup/fingerspelling_lookup.py:43 | interpolation keeps the header |
| Fingerspelling.Stretched | spoken_to_signed/gloss_to_pose/lookup/fingerspelling_lookup.py:41-45 | `stretch_pose` keeps the header and the original fps, and holds the frames resampled at `fps * by` |
| Fingerspelling.StretchPose | spoken_to_signed/gloss_to_pose/lookup/fingerspelling_lookup.py:41-45 | `stretch_pose` on a pose object returns a new pose holding `Stretched` |
| Fingerspelling.StretchLast | spoken_to_signed/gloss_to_pose/lookup/fingerspelling_lookup.py:55 | `poses[-1] = ...` fails (`IndexError`) exactly on an empty list, and otherwise replaces only the last pose, by its two-fold stretch |
| Fingerspelling.LetterPosesFails | spoken_to_signed/gloss_to_pose/lookup/fingerspelling_lookup.py:47-52 | the lookup ignores the word's case, raises `FileNotFoundError` for an unknown language pair, and `IndexError` for an empty word |
| Fingerspelling.LetterPosesSpec | spoken_to_signed/gloss_to_pose/lookup/fingerspelling_lookup.py:47-55 | on success the poses are those of a decomposition that spells the lower-cased word, one per key from the first row of its bucket, and the last one stretched two-fold |
| Fingerspelling.FingerspellingPoseLookup.constructor | spoken_to_signed/gloss_to_pose/lookup/fingerspelling_lookup.py:9-21 | the lexicon is indexed by words and the alphabets are computed from that index |
| Fingerspelling.FingerspellingPoseLookup.Lookup | spoken_to_signed/gloss_to_pose/lookup/fingerspelling_lookup.py:47-57 | `lookup` returns a new pose holding `Fingerspelled` of the word, or its error |
| SignWritingFingerspelling.LexTotal | spoken_to_signed/gloss_to_pose/lookup/signwriting_fingerspelling_lookup.py:21 | Python's string order is total |
| SignWritingFingerspelling.InsertString | spoken_to_signed/gloss_to_pose/lookup/signwriting_fingerspelling_lookup.py:21 | inserting adds exactly one string, and the new head is the string or the old head |
| SignWritingFingerspelling.SortStrings | spoken_to_signed/gloss_to_pose/lookup/signwriting_fingerspelling_lookup.py:21 | the sort is a permutation |
| SignWritingFingerspelling.InsertStringSorted | spoken_to_signed/gloss_to_pose/lookup/signwriting_fingerspelling_lookup.py:21 | inserting into a sorted list keeps it sorted |
| SignWritingFingerspelling.SortStringsSpec | spoken_to_signed/gloss_to_pose/lookup/signwriting_fingerspelling_lookup.py:21 | `sorted` of strings is sorted and a permutation |
| SignWritingFingerspelling.ReduceFswSpec | spoken_to_signed/gloss_to_pose/lookup/signwriting_fingerspelling_lookup.py:18-21 | `reduce_fsw` gives the sign's symbol ids sorted and joined by '+': splitting it on '+' gives them back, sorted, as a permutation |
| SignWritingFingerspelling.ReducedAlphabet | spoken_to_signed/gloss_to_pose/lookup/signwriting_fingerspelling_lookup.py:30-33 | every alphabet maps "" to ["S00000"], and every other letter to its writings reduced one by one |
| SignWritingFingerspelling.Pairs | spoken_to_signed/gloss_to_pose/lookup/signwriting_fingerspelling_lookup.py:81-83 | there is one "from-to" name per pair of writings |
| SignWritingFingerspelling.TransitionNames | spoken_to_signed/gloss_to_pose/lookup/signwriting_fingerspelling_lookup.py:77-83 | the names are the source writings themselves when source and target are equal, then every "from-to" pair |
| SignWritingFingerspelling.PairsAt | spoken_to_signed/gloss_to_pose/lookup/signwriting_fingerspelling_lookup.py:81-83 | the pair names come in nested order: source `i`, target `j` is at `i * len(to) + j` |
| SignWritingFingerspelling.TransitionNamesAt | spoken_to_signed/gloss_to_pose/lookup/signwriting_fingerspelling_lookup.py:78-83 | "from-to" for source `i` and target `j` comes after the equal-case names, in nested order |
| SignWritingFingerspelling.FirstTransitionCons | spoken_to_signed/gloss_to_pose/lookup/signwriting_fingerspelling_lookup.py:99-106 | one step of the loop over the names: a file found is placed on the interpreter, a missing file moves on, and any other error propagates |
| SignWritingFingerspelling.FirstTransitionSpec | spoken_to_signed/gloss_to_pose/lookup/signwriting_fingerspelling_lookup.py:99-106 | no pose is found exactly when every transition file is missing; otherwise the pose is the first existing file, placed on the interpreter |
| SignWritingFingerspelling.Appended | spoken_to_signed/gloss_to_pose/lookup/signwriting_fingerspelling_lookup.py:114-118 | the first pose found starts the pose so far; later ones are joined frame-wise onto its data and confidence, keeping its header and fps |
| SignWritingFingerspelling.SkipNext | spoken_to_signed/gloss_to_pose/lookup/signwriting_fingerspelling_lookup.py:126-128 | after a miss the next transition is rewritten to (next target, next target), and the rest of the queue is unchanged |
| SignWritingFingerspelling.Transitions | spoken_to_signed/gloss_to_pose/lookup/signwriting_fingerspelling_lookup.py:86-87 | a word gives `len(word) + 1` transitions |
| SignWritingFingerspelling.TransitionsSpec | spoken_to_signed/gloss_to_pose/lookup/signwriting_fingerspelling_lookup.py:86-87 | the transitions run from "" through the letters in order back to "", each starting where the previous one ended |
| SignWritingFingerspelling.WordPosesNoKeyError | spoken_to_signed/gloss_to_pose/lookup/signwriting_fingerspelling_lookup.py:85-134 | a queue whose head starts from a known letter never raises `KeyError` from the alphabet, since a transition is only tried when its target letter is known |
| SignWritingFingerspelling.FirstTransitionErrors | spoken_to_signed/gloss_to_pose/lookup/signwriting_fingerspelling_lookup.py:99-106 | the search over names never raises `KeyError` |
| SignWritingFingerspelling.WordPosesAllFound | spoken_to_signed/gloss_to_pose/lookup/signwriting_fingerspelling_lookup.py:91-134 | when every transition is found, the generator yields exactly one pose, the joined one, keeping the first pose's header |
| SignWritingFingerspelling.Present | spoken_to_signed/gloss_to_pose/lookup/signwriting_fingerspelling_lookup.py:142 | dropping `None` keeps exactly the poses |
| SignWritingFingerspelling.WordPosesFound | spoken_to_signed/gloss_to_pose/lookup/signwriting_fingerspelling_lookup.py:109-118 | a found transition is joined onto the pose so far, stretched two-fold when it is the last one, and the queue moves on |
| SignWritingFingerspelling.WordPosesMissed | spoken_to_signed/gloss_to_pose/lookup/signwriting_fingerspelling_lookup.py:120-132 | a missed transition loads the naive letter pose, yields the pose so far, then the naive pose, and restarts from an empty pose with the next transition rewritten; a failing naive pose ends the generator with its error |
| SignWritingFingerspelling.SpelledNoKeyError | spoken_to_signed/gloss_to_pose/lookup/signwriting_fingerspelling_lookup.py:136-141 | with the null letter in the alphabet, spelling a word raises no `KeyError` from the alphabet |
| SignWritingFingerspelling.SpelledAllFound | spoken_to_signed/gloss_to_pose/lookup/signwriting_fingerspelling_lookup.py:140-142 | when every transition of the word is found, exactly one pose reaches `concatenate_poses` |
| SignWritingFingerspelling.SignWritingFingerspellingPoseLookup.constructor | spoken_to_signed/gloss_to_pose/lookup/signwriting_fingerspelling_lookup.py:39-47 | the lookup keeps its directory, its files, the alphabets and the naive lookup |
| SignWritingFingerspelling.SignWritingFingerspellingPoseLookup.SearchTransition | spoken_to_signed/gloss_to_pose/lookup/signwriting_fingerspelling_lookup.py:96-106 | the loop over transition names finds what `FindTransition` says |
| SignWritingFingerspelling.SignWritingFingerspellingPoseLookup.GetWordPoses | spoken_to_signed/gloss_to_pose/lookup/signwriting_fingerspelling_lookup.py:85-134 | the FIFO loop with `pop(0)` and the skip-on-miss rewrite yields what `WordPoses` says, and `KeyError` for a language without an alphabet |
| SignWritingFingerspelling.SignWritingFingerspellingPoseLookup.Lookup | spoken_to_signed/gloss_to_pose/lookup/signwriting_fingerspelling_lookup.py:136-145 | `lookup` delegates to naive fingerspelling when the signed language has no alphabet, and otherwise concatenates the transition poses without the `None`s |
| GlossNormalization.LowerStripShape | spoken_to_signed/gloss_to_pose/lookup/gloss_normalization_helpers.py:5-7 | `preprocess_lower_strip` leaves no surrounding whitespace and no upper-case letter |
| GlossNormalization.LowerStripIdempotent | spoken_to_signed/gloss_to_pose/lookup/gloss_normalization_helpers.py:5-7 | lower-casing and stripping twice is the same as once |
| GlossNormalization.RuleBasedSpec | spoken_to_signed/gloss_to_pose/lookup/gloss_normalization_helpers.py:10-15 | `preprocess_rule_based` removes every '+', then drops one trailing "-ix" if present |
| GlossNormalization.RemovePlusAbsent | spoken_to_signed/gloss_to_pose/lookup/gloss_normalization_helpers.py:12 | replacing '+' in a string without one changes nothing |
| GlossNormalization.RuleBasedExamples | spoken_to_signed/gloss_to_pose/lookup/gloss_normalization_helpers.py:13-14 | only one "-ix" is removed, and the check is case-sensitive |
| GlossNormalization.SpacyLemmaHead | spoken_to_signed/gloss_to_pose/lookup/gloss_normalization_helpers.py:18-20 | a result starting with '-' comes from an input starting with '-' |
| GlossNormalization.SpacyLemmaNoDoubleDash | spoken_to_signed/gloss_to_pose/lookup/gloss_normalization_helpers.py:18-20 | after the left-to-right removal of "--", no "--" remains |
| GlossNormalization.SpacyLemmaExamples | spoken_to_signed/gloss_to_pose/lookup/gloss_normalization_helpers.py:20 | the non-overlapping scan from the left leaves "-" of "---", nothing of "----" |
| GlossNormalization.FirstDigitFrom | spoken_to_signed/gloss_to_pose/lookup/gloss_normalization_helpers.py:40 | the first digit at or after a position, or the end |
| GlossNormalization.DigitRunEnd | spoken_to_signed/gloss_to_pose/lookup/gloss_normalization_helpers.py:40 | the end of the run of digits starting at a position |
| GlossNormalization.IntegerGroupSound | spoken_to_signed/gloss_to_pose/lookup/gloss_normalization_helpers.py:40-42 | a match of the integer pattern is the digit run of an integer shape |
| GlossNormalization.IntegerShapeChars | spoken_to_signed/gloss_to_pose/lookup/gloss_normalization_helpers.py:40 | an integer shape is non-alphanumerics, digits, then non-alphanumerics |
| GlossNormalization.IntegerGroupComplete | spoken_to_signed/gloss_to_pose/lookup/gloss_normalization_helpers.py:40-42 | every integer shape is found by the match, with its digits as group 1 |
| GlossNormalization.IntegerShapeExcludes | spoken_to_signed/gloss_to_pose/lookup/gloss_normalization_helpers.py:32-40 | an integer shape is neither a decimal nor letter-touching-digit |
| GlossNormalization.IntegerKeepsDecimalsAndAlnum | spoken_to_signed/gloss_to_pose/lookup/gloss_normalization_helpers.py:29-37 | decimals and alphanumeric tokens are returned stripped and otherwise untouched |
| GlossNormalization.IntegerUnwraps | spoken_to_signed/gloss_to_pose/lookup/gloss_normalization_helpers.py:39-42 | a number wrapped in punctuation is reduced to its digits |
| GlossNormalization.IntegerOtherwiseStripped | spoken_to_signed/gloss_to_pose/lookup/gloss_normalization_helpers.py:29-44 | anything else is only stripped |
| GlossNormalization.ShouldNormalizeIffShape | spoken_to_signed/gloss_to_pose/lookup/gloss_normalization_helpers.py:66-89 | `should_normalize_integer_token` holds exactly when the stripped token has the integer shape |
| GlossNormalization.ShouldNormalizeGivesDigits | spoken_to_signed/gloss_to_pose/lookup/gloss_normalization_helpers.py:23-89 | a token that should be normalised is normalised to a non-empty run of digits; a token without a digit is never normalised |
| GlossNormalization.KeepLettersOnlySpec | spoken_to_signed/gloss_to_pose/lookup/gloss_normalization_helpers.py:47-49 | `preprocess_keep_letters_only` keeps a single character exactly when it is a letter, and with `KeepLettersOnlyConcat` every letter and only letters, in order; it is idempotent |
| GlossNormalization.KeepLettersOnlyConcat | spoken_to_signed/gloss_to_pose/lookup/gloss_normalization_helpers.py:49 | keeping letters distributes over concatenation |
| GlossNormalization.LadderShape | spoken_to_signed/gloss_to_pose/lookup/gloss_normalization_helpers.py:52-64 | the ladder has six distinct steps, the first leaves the gloss unchanged, and the last keeps only letters |
| Rules.InfinitiveLemmaSpec | spoken_to_signed/text_to_gloss/rules.py:23-26 | the fixed verb lemma is lower case, ends in 'n', and extends the lower-cased lemma by at most that 'n' |
| Rules.InfinitiveLemmaIdempotent | spoken_to_signed/text_to_gloss/rules.py:23-26 | fixing a fixed lemma changes nothing |
| Rules.SvpStep | spoken_to_signed/text_to_gloss/rules.py:21-29 | one token's step changes at most one lemma: its own for a verb, its head's for a particle |
| Rules.AttachedSvp | spoken_to_signed/text_to_gloss/rules.py:20-29 | the pass over the tokens keeps one lemma per token |
| Rules.Lemmas | spoken_to_signed/text_to_gloss/rules.py:20 | the lemmas start as spaCy's `lemma_` of each token |
| Rules.AttachSvp | spoken_to_signed/text_to_gloss/rules.py:20-29 | the in-place loop over the tokens leaves the lemmas `AttachedSvp` specifies |
| Rules.AttachedSvpUntouched | spoken_to_signed/text_to_gloss/rules.py:21-29 | a lemma no later step targets keeps its value |
| Rules.VerbLemmaFixed | spoken_to_signed/text_to_gloss/rules.py:23-26 | a verb that no later particle extends ends with a lower-case lemma in 'n' |
| Rules.ParticlePrefixed | spoken_to_signed/text_to_gloss/rules.py:23-29 | a particle after its verb is prefixed onto the verb's fixed lemma, and keeps its own lemma |
| Rules.VerbAtParticle | spoken_to_signed/text_to_gloss/rules.py:23-26 | when the particle's turn comes its verb already has the fixed lemma |
| Rules.ParticleStep | spoken_to_signed/text_to_gloss/rules.py:28-29 | a particle's step prefixes its lemma onto its head's current lemma |
| Rules.VerbAfterParticle | spoken_to_signed/text_to_gloss/rules.py:21-29 | no later step touches the verb again |
| Rules.VerbFixedBeforeParticle | spoken_to_signed/text_to_gloss/rules.py:21-29 | between the verb's turn and the particle's, the verb's lemma stays |
| Rules.VerbFixedAtItself | spoken_to_signed/text_to_gloss/rules.py:23-26 | at its own turn a verb gets the fixed lemma of its current lemma |
| Rules.ParticleKeepsLemma | spoken_to_signed/text_to_gloss/rules.py:28-29 | the particle's own lemma is never changed |
| Rules.LastSubordinator | spoken_to_signed/text_to_gloss/rules.py:64-68 | the last KOUS/cp token with an "mo" head in a clause, or none |
| Rules.SubordinateClause | spoken_to_signed/text_to_gloss/rules.py:60-68 | the subordinate clause is the last clause holding such a token, and the main verb is that token's head's head |
| Rules.LastContaining | spoken_to_signed/text_to_gloss/rules.py:74-76 | the main clause is the last clause holding the main verb, or -1 |
| Rules.ReorderedSubMainPermutes | spoken_to_signed/text_to_gloss/rules.py:56-85 | reordering keeps the clauses as a permutation, and changes nothing without a subordinate clause |
| Rules.SwapPermutes | spoken_to_signed/text_to_gloss/rules.py:83 | swapping two list items is a permutation |
| Rules.ReorderedSubMainOrder | spoken_to_signed/text_to_gloss/rules.py:70-83 | a subordinate clause after its main clause trades places with it, and every other clause stays put |
| Rules.ReorderedSubMainNoMain | spoken_to_signed/text_to_gloss/rules.py:70-83 | with no main clause the index -1 swaps the subordinate clause with the last one |
| Rules.ReorderSubMain | spoken_to_signed/text_to_gloss/rules.py:56-85 | the in-place swap on the clause list leaves what `ReorderedSubMain` specifies |
| Rules.GetTriplets | spoken_to_signed/text_to_gloss/rules.py:88-110 | the nested loop over `i < j` builds the triplets `Triplets` specifies |
| Rules.RowTripletsNext | spoken_to_signed/text_to_gloss/rules.py:93-108 | one step of the inner loop appends the pair's triplet, if any |
| Rules.RowTripletsSound | spoken_to_signed/text_to_gloss/rules.py:93-108 | every triplet of a row comes from one later pair |
| Rules.RowTripletsComplete | spoken_to_signed/text_to_gloss/rules.py:93-108 | every later pair's triplet is in its row |
| Rules.TripletsUpToSound | spoken_to_signed/text_to_gloss/rules.py:92-108 | every triplet comes from a pair `i < j` |
| Rules.TripletsUpToComplete | spoken_to_signed/text_to_gloss/rules.py:92-108 | every pair `i < j` contributes its triplet |
| Rules.TripletsMembers | spoken_to_signed/text_to_gloss/rules.py:88-110 | a triplet is produced exactly when some pair `i < j` produces it |
| Rules.TripletOfSpec | spoken_to_signed/text_to_gloss/rules.py:95-108 | two pairs give a triplet exactly when they share the verb and the order is sov, svo or osv; it holds the subject, the object and the verb in that order |
| Rules.TripletsInRange | spoken_to_signed/text_to_gloss/rules.py:88-110 | triplets only hold tokens of the pairs |
| Rules.Swap | spoken_to_signed/text_to_gloss/rules.py:113-159 | the three loops of `swap` build what `Swapped` specifies |
| Rules.PutVerbAfterRuns | spoken_to_signed/text_to_gloss/rules.py:119-134 | the verb loop with the in-subtree flag builds what `VerbAfterRuns` specifies |
| Rules.PutVerbBefore | spoken_to_signed/text_to_gloss/rules.py:136-147 | the loop with the `put_a` flag builds what `VerbBefore` specifies |
| Rules.PutBlockBefore | spoken_to_signed/text_to_gloss/rules.py:148-157 | the loop over the remaining tokens builds what `BlockBefore` specifies |
| Rules.VerbAfterRunsAt | spoken_to_signed/text_to_gloss/rules.py:124-132 | one step of the verb-after loop |
| Rules.VerbBeforeAt | spoken_to_signed/text_to_gloss/rules.py:141-147 | one step of the verb-before loop |
| Rules.BlockBeforeAt | spoken_to_signed/text_to_gloss/rules.py:153-157 | one step of the block-before loop |
| Rules.BlockBeforePut | spoken_to_signed/text_to_gloss/rules.py:152-157 | once the block is placed, the rest is copied unchanged |
| Rules.BlockBeforeFirst | spoken_to_signed/text_to_gloss/rules.py:153-157 | the block goes right before the first token of the other subtree |
| Rules.BlockBeforeNone | spoken_to_signed/text_to_gloss/rules.py:153-157 | with no token of the other subtree, the block is dropped |
| Rules.SwapMovesSubtree | spoken_to_signed/text_to_gloss/rules.py:148-157 | when neither token heads the other, `token_a`'s subtree is removed and put back as a block before the first remaining token of `token_b`'s subtree, or lost if there is none |
| Rules.VerbBeforeIsBlock | spoken_to_signed/text_to_gloss/rules.py:136-147 | moving the verb before is moving the one-token block before, among the other tokens |
| Rules.SwapMovesVerbBefore | spoken_to_signed/text_to_gloss/rules.py:136-147 | when `token_b`'s head is `token_a`, the verb `token_a` moves right before the first token of `token_b`'s subtree, or is lost if there is none |
| Rules.VerbAfterRunsSkips | spoken_to_signed/text_to_gloss/rules.py:125-126 | the verb's own occurrences are skipped |
| Rules.VerbAfterRunsOutside | spoken_to_signed/text_to_gloss/rules.py:127-132 | tokens outside the subtree before the first run are copied |
| Rules.VerbAfterRunsInside | spoken_to_signed/text_to_gloss/rules.py:127-128 | a run of subtree tokens is copied and sets the flag |
| Rules.VerbAfterRunsClose | spoken_to_signed/text_to_gloss/rules.py:129-134 | after a run, the verb is emitted before the next outside token, or at the end |
| Rules.VerbAfterOneRun | spoken_to_signed/text_to_gloss/rules.py:119-134 | around one run of subtree tokens, the verb lands right after the run |
| Rules.SwapMovesVerbAfter | spoken_to_signed/text_to_gloss/rules.py:119-134 | when `token_a`'s head is `token_b` and its subtree is one run, the verb `token_b` moves right after that run |
| Rules.SvoPairs | spoken_to_signed/text_to_gloss/rules.py:163-169 | each pair is an argument token with its head |
| Rules.SvoPairsNext | spoken_to_signed/text_to_gloss/rules.py:164-169 | one step of the loop over the clause |
| Rules.SvoPairsTokens | spoken_to_signed/text_to_gloss/rules.py:163-169 | the pairs' tokens are exactly the clause's argument tokens, in order |
| Rules.ClassifyAsWrittenUnreachable | spoken_to_signed/text_to_gloss/rules.py:177-196 | as written, the "2,3,1" and "3,2,1" branches are never taken |
| Rules.ClassifyAsWrittenAgrees | spoken_to_signed/text_to_gloss/rules.py:177-196 | on the four other orders of distinct positions the chain takes the branch its comment names |
| Rules.ReorderedSvoUnchanged | spoken_to_signed/text_to_gloss/rules.py:162-198 | a clause without two arguments of one verb, or an unknown word order, is unchanged |
| Rules.ReorderSvoTriplets | spoken_to_signed/text_to_gloss/rules.py:162-198 | the method collecting pairs and triplets and swapping returns what `ReorderedSvo` specifies, the first triplet dispatched through the branch chain as written |
| Rules.SvoPairsThree | spoken_to_signed/text_to_gloss/rules.py:163-169 | the pairs of a three-token clause are its subjects and objects with their heads, token by token |
| Rules.FlatPairs | spoken_to_signed/text_to_gloss/rules.py:163-169 | a clause of one subject, one object and their verb gives the two arguments with that verb, in clause order |
| Rules.TwoPairTriplets | spoken_to_signed/text_to_gloss/rules.py:88-110 | two pairs give at most their one triplet |
| Rules.FlatTriplets | spoken_to_signed/text_to_gloss/rules.py:88-110 | such a clause has the one triplet (subject, object, verb) for the word order "sov" |
| Rules.VerbAfterFirst | spoken_to_signed/text_to_gloss/rules.py:118-131 | verb, other token, subtree token: the verb moves after the subtree's run |
| Rules.VerbAfterMiddle | spoken_to_signed/text_to_gloss/rules.py:118-131 | other token, verb, subtree token: the verb moves after the subtree's run |
| Rules.BlockBeforeFlat | spoken_to_signed/text_to_gloss/rules.py:143-153 | a one-token subtree goes right before the token of the other subtree |
| Rules.FlatClauseReorder | spoken_to_signed/text_to_gloss/rules.py:162-198 | on a clause of a subject, an object and their verb, each argument its own subtree, the reordering gives subject, object, verb, except that a clause whose last token is the subject is left unchanged |
| Rules.CommentedChainOnFlat | spoken_to_signed/text_to_gloss/rules.py:177-196 | on such a clause in the order verb, subject, object the code swaps object and verb and orders it, where the comment's "put 1 before" would keep it; in the order verb, object, subject the code keeps it, where the comment's "swap 3,1" would give object, subject, verb |
| Rules.IsstJungeApfelReordered | spoken_to_signed/text_to_gloss/rules.py:162-198 | "isst Junge Apfel" (verb, subject, object) is reordered to "Junge Apfel isst" |
| Rules.HasVerbalComplementSpec | spoken_to_signed/text_to_gloss/rules.py:204-206 | the search finds a VERB/oc child exactly when one exists |
| Rules.HabenMainVerbSpec | spoken_to_signed/text_to_gloss/rules.py:201-209 | "haben" is a main verb exactly when no child is a VERB with dep "oc" |
| Rules.PossPronounGlossSpec | spoken_to_signed/text_to_gloss/rules.py:212-218 | the gloss is the table's base form in parentheses; an empty text raises `IndexError`, an unknown first letter `KeyError` |
| Rules.PossPronounGlossCase | spoken_to_signed/text_to_gloss/rules.py:214-215 | only "ihr" and "Ihr" keep their case |
| Rules.TokenGlossErrors | spoken_to_signed/text_to_gloss/rules.py:237-238 | a token gloss only fails for a PPOSAT token, with the pronoun table's error |
| Rules.TokenGlossHaben | spoken_to_signed/text_to_gloss/rules.py:247-254 | a plain "haben" token is glossed "da" when it is a main verb and skipped otherwise |
| Rules.TokenGlossForms | spoken_to_signed/text_to_gloss/rules.py:226-244 | plural nouns end in '+', adverbs are lower case, PPOSAT is parenthesised, pronouns end in "-IX" |
| Rules.GlossifySpec | spoken_to_signed/text_to_gloss/rules.py:221-260 | the generator yields (text, gloss) for the tokens not skipped, in order, unless some token fails |
| Rules.GlossifyFirstError | spoken_to_signed/text_to_gloss/rules.py:221-260 | the first failing token's error is raised |
| Rules.Punctuated | spoken_to_signed/text_to_gloss/rules.py:279-282 | setting punctuation lemmas keeps one lemma per token |
| Rules.SetPunctuationLemmas | spoken_to_signed/text_to_gloss/rules.py:279-282 | the loop over the kept tokens leaves the lemmas `Punctuated` specifies |
| Rules.RestIsComplement | spoken_to_signed/text_to_gloss/rules.py:287-293 | removing the selected tokens keeps exactly the others |
| Rules.ToFrontSpec | spoken_to_signed/text_to_gloss/rules.py:286-294 | moving a subset to the front is a stable partition and a permutation |
| Rules.ToBackSpec | spoken_to_signed/text_to_gloss/rules.py:297-298 | moving a subset to the back is a stable partition and a permutation |
| Rules.MovedTokensSpec | spoken_to_signed/text_to_gloss/rules.py:284-298 | rules 3 to 5 permute the tokens, leaving the negations last in order |
| Rules.Compounded | spoken_to_signed/text_to_gloss/rules.py:325-327 | the compound rule keeps the number of tokens |
| Rules.ReplaceCompounds | spoken_to_signed/text_to_gloss/rules.py:325-327 | the in-place loop leaves what `Compounded` specifies |
| Rules.CompoundedSpec | spoken_to_signed/text_to_gloss/rules.py:325-327 | a compound token is replaced by its head, and every other token stays |
| Rules.FilterInDoc | spoken_to_signed/text_to_gloss/rules.py:268-276 | filtering keeps tokens of the document |
| Rules.MovedInDoc | spoken_to_signed/text_to_gloss/rules.py:284-298 | moving keeps tokens of the document |
| Rules.ClauseTokens | spoken_to_signed/text_to_gloss/rules.py:265-327 | the clause's rules, with the subject-object-verb reordering as written, keep one lemma per token and give tokens of the document |
| Rules.Zip | spoken_to_signed/text_to_gloss/rules.py:387 | `zip` stops at the shorter list |
| Rules.ZipUnzip | spoken_to_signed/text_to_gloss/rules.py:330 | zipping the unzipped pairs gives them back |
| Rules.ClauseToGlossWith | spoken_to_signed/text_to_gloss/rules.py:263-332 | a glossed clause, with the reordering as written and either unpacking of line 330, keeps one lemma per token |
| Rules.ClauseToGlossAsWritten | spoken_to_signed/text_to_gloss/rules.py:263-332 | `clause_to_gloss` as written, reordering and unpacking included, keeps one lemma per token |
| Rules.ClauseToGloss | spoken_to_signed/text_to_gloss/rules.py:263-332 | with the unpacking corrected and the reordering as written, a glossed clause keeps one lemma per token |
| Rules.ClausePairsAreWords | spoken_to_signed/text_to_gloss/rules.py:260 | the first item of every yielded pair is a word of the text |
| Rules.ClauseToGlossPairs | spoken_to_signed/text_to_gloss/rules.py:330-332 | corrected, `tokens` and `glosses` zip back into the yielded pairs, hold the words of the text, and an empty clause raises `ValueError` as the unpacking of an empty `zip` does |
| Rules.ClauseToGlossAsWrittenPairs | spoken_to_signed/text_to_gloss/rules.py:330-332 | as written, `glosses` receives the words and `tokens` the glosses |
| Rules.GlossedClauses | spoken_to_signed/text_to_gloss/rules.py:357-363 | one glossed clause per clause |
| Rules.GlossStringSpec | spoken_to_signed/text_to_gloss/rules.py:365-370 | the gloss string ends with the end-of-sentence marker and is, up to case, each clause's glosses joined by spaces and the clauses joined by the clause separator |
| Rules.TextToGlossAsWritten | spoken_to_signed/text_to_gloss/rules.py:375-387 | `text_to_gloss` as written, reordering and unpacking included: a language without rules raises `NotImplementedError`, and the result is one sentence |
| Rules.TextToGloss | spoken_to_signed/text_to_gloss/rules.py:375-387 | with the unpacking corrected: a language without rules raises `NotImplementedError`, and each pair starts with a word of the text |
| Rules.TextToGlossWords | spoken_to_signed/text_to_gloss/rules.py:335-387 | corrected, every pair of the output starts with a word of the text |
| Rules.ZippedWords | spoken_to_signed/text_to_gloss/rules.py:361-387 | zipping the clauses' words with their glosses keeps words first |
| Rules.TextToGlossClauses | spoken_to_signed/text_to_gloss/rules.py:339-387 | a text that is not blank has its particles attached (not in French), its clauses reordered and glossed, and the tokens zipped with the glosses |
| Rules.BlankText | spoken_to_signed/text_to_gloss/rules.py:336-337 | blank text gives empty lists and an empty gloss string |
| Rules.GlossedClausesWords | spoken_to_signed/text_to_gloss/rules.py:357-363 | corrected, every clause's tokens are words of the text |
| Rules.GlossedClausesCons | spoken_to_signed/text_to_gloss/rules.py:357-363 | a glossed list of clauses is the first clause's gloss followed by the rest's |
| Rules.TokensTextCons | spoken_to_signed/text_to_gloss/rules.py:357-363 | adding a clause of words keeps every clause's tokens words |
| Rules.ClauseToGlossWords | spoken_to_signed/text_to_gloss/rules.py:263-332 | corrected, a clause's tokens are words of the text |
| Rules.FlattenWords | spoken_to_signed/text_to_gloss/rules.py:361-362 | joining clauses of words gives words |
| Rules.HundeGlossed | spoken_to_signed/text_to_gloss/rules.py:228-260 | "Hunde", a plural noun with lemma "Hund", yields ("Hunde", "Hund+") |
| Rules.HundeClauses | spoken_to_signed/text_to_gloss/rules.py:330-332 | as written its clause has `glosses` ["Hunde"] and `tokens` ["Hund+"]; corrected, the other way round |
| Rules.TextToGlossAsWrittenTradesPairs | spoken_to_signed/text_to_gloss/rules.py:330-387 | as written `text_to_gloss("Hunde", "de")` returns ("Hund+", "Hunde"), gloss first; corrected ("Hunde", "Hund+") |
| Rules.ClauseToGlossFrom | spoken_to_signed/text_to_gloss/rules.py:330-332 | a clause whose pairs are non-empty unzips into texts and glosses, as written the other way round |
| Rules.GlossedOneClause | spoken_to_signed/text_to_gloss/rules.py:357-363 | one clause is glossed into one clause gloss |
| Gpt.CloseAt | spoken_to_signed/text_to_gloss/gpt.py:70 | the lazy `(.*?)\)` finds the first ')' with no newline before it |
| Gpt.OpenFrom | spoken_to_signed/text_to_gloss/gpt.py:70 | the lazy `(.*?)\(` takes the first '(' that a ')' follows, with no newline in between |
| Gpt.MatchMouthing | spoken_to_signed/text_to_gloss/gpt.py:70-73 | a match is the item's prefix "⌘" + mouthing + "(" + content + ")", neither group holding a newline, the content no ')' |
| Gpt.MatchedPrefix | spoken_to_signed/text_to_gloss/gpt.py:70-73 | the matched positions spell that prefix |
| Gpt.CloseAtFinds | spoken_to_signed/text_to_gloss/gpt.py:70 | the first ')' after a position is found |
| Gpt.OpenFromFinds | spoken_to_signed/text_to_gloss/gpt.py:70 | a '(' with a later ')' is found, at or before it |
| Gpt.PrefixAt | spoken_to_signed/text_to_gloss/gpt.py:70 | a prefix of that form places '⌘', '(' and ')' where the groups end |
| Gpt.MatchMouthingComplete | spoken_to_signed/text_to_gloss/gpt.py:70-71 | every item of that form matches, with the shortest mouthing |
| Gpt.MatchMouthingExact | spoken_to_signed/text_to_gloss/gpt.py:70-73 | for a mouthing without '(' the groups are exactly the mouthing and the content |
| Gpt.FirstAt | spoken_to_signed/text_to_gloss/gpt.py:70 | the first occurrence of a character is unique |
| Gpt.Content | spoken_to_signed/text_to_gloss/gpt.py:70-76 | the content is drawn from the item |
| Gpt.SubItemPair | spoken_to_signed/text_to_gloss/gpt.py:78-81 | a sub-item only fails with `ValueError` |
| Gpt.SubItemPairSpec | spoken_to_signed/text_to_gloss/gpt.py:78-82 | no '/' gives (item, item); one '/' gives (word, gloss) from "gloss/word"; more than one raises `ValueError` in the unpacking |
| Gpt.SubItemPairOfSlash | spoken_to_signed/text_to_gloss/gpt.py:79-82 | "gloss/word" gives (word, gloss) |
| Gpt.ItemGlossesOne | spoken_to_signed/text_to_gloss/gpt.py:77-82 | content without a space is one sub-item |
| Gpt.ItemGlossesSpec | spoken_to_signed/text_to_gloss/gpt.py:69-82 | an item yields one (word, gloss) pair, and fails exactly when its content has more than one '/' |
| Gpt.SentenceToGlossesSpec | spoken_to_signed/text_to_gloss/gpt.py:68-82 | a sentence yields one pair per space-separated item, in order, and fails with `ValueError` exactly when some item's content has two '/' |
| Gpt.RenderParses | spoken_to_signed/text_to_gloss/gpt.py:68-82 | rendering (word, gloss) pairs as "gloss/word" items and parsing them gives the pairs back |
| Gpt.MouthedContent | spoken_to_signed/text_to_gloss/gpt.py:70-73 | the content of a mouthed item is what is in the brackets |
| Gpt.MouthedItem | spoken_to_signed/text_to_gloss/gpt.py:70-82 | "⌘m(gloss/word)" yields (word, gloss) |
| Gpt.SentencesToGlossesSpec | spoken_to_signed/text_to_gloss/gpt.py:105-106 | `text_to_gloss` parses each predicted sentence in turn, failing when one fails |
| Nmt.RemovePiecesStripped | spoken_to_signed/text_to_gloss/nmt.py:101-104 | the result of `remove_pieces` has no surrounding whitespace |
| Nmt.RemovePiecesAll | spoken_to_signed/text_to_gloss/nmt.py:157-158 | every n-best translation has its pieces removed with the given marker, in order |
| Nmt.DropSpaces | spoken_to_signed/text_to_gloss/nmt.py:101 | removing the spaces of pieces joined by spaces concatenates the pieces |
| Nmt.MarkersToSpaces | spoken_to_signed/text_to_gloss/nmt.py:102 | replacing the word marker turns each marked word into a space and the word |
| Nmt.SpacedJoin | spoken_to_signed/text_to_gloss/nmt.py:102-104 | those words are the words joined by spaces, after a leading space |
| Nmt.JoinStripped | spoken_to_signed/text_to_gloss/nmt.py:104 | non-empty stripped words joined by spaces are stripped |
| Nmt.StripSpaceBefore | spoken_to_signed/text_to_gloss/nmt.py:104 | stripping removes that leading space |
| Nmt.RemovePiecesOfMarked | spoken_to_signed/text_to_gloss/nmt.py:95-104 | removing the pieces of a segmentation of marked words gives the words joined by spaces |
| Nmt.HausGehen | spoken_to_signed/text_to_gloss/nmt.py:101-102 | the pieces of "HAUS GEHEN" are two marked words |
| Nmt.RemovePiecesAsWrittenKeepsMarker | spoken_to_signed/text_to_gloss/nmt.py:102 | as written, the two-character string in the replace never occurs in sentencepiece output, so the word markers stay and the glosses run together |
| Nmt.RemovePiecesSeparatesGlosses | spoken_to_signed/text_to_gloss/nmt.py:95-104 | corrected, the marker becomes a space and the glosses come out separated |
| Nmt.AddTagToTextSpec | spoken_to_signed/text_to_gloss/nmt.py:107-116 | blank text gives ""; otherwise the tag, a space and the stripped text |
| Nmt.TagReadsBack | spoken_to_signed/text_to_gloss/nmt.py:137 | the tag is "<2" + target + ">" |
| Nmt.Translate | spoken_to_signed/text_to_gloss/nmt.py:119-166 | only German is translated, otherwise `NotImplementedError`; the result echoes the text, the language codes and the n-best size, for the marker as written or corrected |
| Nmt.TranslateSpec | spoken_to_signed/text_to_gloss/nmt.py:135-158 | the translator gets the tag and the pieces of the stripped text, and every translation it returns has its pieces removed, with the marker as written ("â–") or corrected |
| Nmt.TextToGlossSpec | spoken_to_signed/text_to_gloss/nmt.py:169-184 | with either marker, only German is glossed; the best translation is split on spaces into glosses, each paired with `None` |
| Nmt.TextToGlossOfMarked | spoken_to_signed/text_to_gloss/nmt.py:169-184 | corrected marker: a best translation that segments marked glosses gives those glosses, each with `None` |
| Nmt.RemovePiecesAsWrittenOfMarked | spoken_to_signed/text_to_gloss/nmt.py:95-104 | as written, removing the pieces of marked words keeps every marker and only drops the spaces between the pieces |
| Nmt.TextToGlossOneGloss | spoken_to_signed/text_to_gloss/nmt.py:178-184 | a best translation without a space is one gloss, paired with `None` |
| Nmt.TextToGlossOfMarkedAsWritten | spoken_to_signed/text_to_gloss/nmt.py:169-184 | as written, the same best translation gives a single gloss, the marked glosses run together |
| FingerspellingAnimation.ListSprites | spoken_to_signed/assets/fingerspelling_animation/process_data.py:52-56 | the loops build the sprite list `SpriteNames` specifies: the movement sprites, then every from-shape with every to-shape |
| FingerspellingAnimation.AppendTransitions | spoken_to_signed/assets/fingerspelling_animation/process_data.py:54-56 | the nested loops append every "from_to" name, from-shape by from-shape |
| FingerspellingAnimation.TransitionsCount | spoken_to_signed/assets/fingerspelling_animation/process_data.py:54-56 | the nested loops give `len(froms) * len(tos)` names |
| FingerspellingAnimation.TransitionsMembers | spoken_to_signed/assets/fingerspelling_animation/process_data.py:54-56 | a name is produced exactly when it joins a from-shape and a to-shape |
| FingerspellingAnimation.SpriteCount | spoken_to_signed/assets/fingerspelling_animation/process_data.py:52-56 | there are 2 + 27 * 27 = 731 sprites |
| FingerspellingAnimation.SplitSpriteName | spoken_to_signed/assets/fingerspelling_animation/process_data.py:115 | splitting "from_to" on '_' gives the two shapes back |
| FingerspellingAnimation.SpriteNameInjective | spoken_to_signed/assets/fingerspelling_animation/process_data.py:56 | different shape pairs give different names |
| FingerspellingAnimation.DistinctConcat | spoken_to_signed/assets/fingerspelling_animation/process_data.py:53-56 | joining disjoint lists without repeats has no repeats |
| FingerspellingAnimation.TransitionsDistinct | spoken_to_signed/assets/fingerspelling_animation/process_data.py:54-56 | distinct shapes without '_' give distinct names |
| FingerspellingAnimation.LetterPlain | spoken_to_signed/assets/fingerspelling_animation/process_data.py:14-15 | a letter is one lower-case character |
| FingerspellingAnimation.StaticLettersAreLetters | spoken_to_signed/assets/fingerspelling_animation/process_data.py:14-15 | the static letters are single letters |
| FingerspellingAnimation.RestPlain | spoken_to_signed/assets/fingerspelling_animation/process_data.py:54-55 | "rest" has no '_' and no shape suffix |
| FingerspellingAnimation.StaticLettersDistinct | spoken_to_signed/assets/fingerspelling_animation/process_data.py:14-15 | the static letters are distinct |
| FingerspellingAnimation.FirstLettersDistinct | spoken_to_signed/assets/fingerspelling_animation/process_data.py:14 | the first twelve static letters are distinct |
| FingerspellingAnimation.LastLettersDistinct | spoken_to_signed/assets/fingerspelling_animation/process_data.py:15 | the last twelve static letters are distinct |
| FingerspellingAnimation.FirstLettersBefore | spoken_to_signed/assets/fingerspelling_animation/process_data.py:14 | the first twelve come before 'n' |
| FingerspellingAnimation.LastLettersFrom | spoken_to_signed/assets/fingerspelling_animation/process_data.py:15 | the last twelve start at 'n' |
| FingerspellingAnimation.DistinctHalves | spoken_to_signed/assets/fingerspelling_animation/process_data.py:14-15 | two distinct halves separated by a character are distinct together |
| FingerspellingAnimation.MovingLettersAreLetters | spoken_to_signed/assets/fingerspelling_animation/process_data.py:16 | the moving letters are distinct single letters |
| FingerspellingAnimation.PlainShapeFacts | spoken_to_signed/assets/fingerspelling_animation/process_data.py:116-135 | a plain shape names a letter of the mapping from either side |
| FingerspellingAnimation.EndShapeFacts | spoken_to_signed/assets/fingerspelling_animation/process_data.py:129-133 | "l-end" is a from-shape whose letter is `l` |
| FingerspellingAnimation.BeginShapeFacts | spoken_to_signed/assets/fingerspelling_animation/process_data.py:121-122 | "l-begin" is a to-shape whose letter is `l` |
| FingerspellingAnimation.ShapesDistinct | spoken_to_signed/assets/fingerspelling_animation/process_data.py:54-55 | each side's shape list has no repeats |
| FingerspellingAnimation.ShapesOfLetters | spoken_to_signed/assets/fingerspelling_animation/process_data.py:54-55 | every listed shape is one `create_final_poses` can name |
| FingerspellingAnimation.ShapeFacts | spoken_to_signed/assets/fingerspelling_animation/process_data.py:54-55 | the from-shapes and to-shapes are distinct and nameable |
| FingerspellingAnimation.MovementFacts | spoken_to_signed/assets/fingerspelling_animation/process_data.py:118-123 | a moving letter is in the mapping and its sprite shapes are nameable |
| FingerspellingAnimation.SpriteNamesDistinct | spoken_to_signed/assets/fingerspelling_animation/process_data.py:52-56 | the 731 sprite names are distinct |
| FingerspellingAnimation.DictKeys | spoken_to_signed/assets/fingerspelling_animation/process_data.py:59 | the dictionary's keys come from the list |
| FingerspellingAnimation.DictKeysOfDistinct | spoken_to_signed/assets/fingerspelling_animation/process_data.py:59 | a list without repeats keeps its order and length as dictionary keys |
| FingerspellingAnimation.Missing | spoken_to_signed/assets/fingerspelling_animation/process_data.py:62 | only names can be missing |
| FingerspellingAnimation.DownloadFiles | spoken_to_signed/assets/fingerspelling_animation/process_data.py:52-65 | all 731 sprite paths are yielded, and exactly the sprites not on disk are fetched |
| FingerspellingAnimation.FetchAll | spoken_to_signed/assets/fingerspelling_animation/process_data.py:59-65 | one path per key, in order, and a fetch for each missing one |
| FingerspellingAnimation.HandPose | spoken_to_signed/assets/fingerspelling_animation/process_data.py:68-78 | the pose has a 256-cube, one right-hand component, 60 fps, one person per frame holding the frame's points, and confidence 1 everywhere |
| FingerspellingAnimation.Symbol | spoken_to_signed/assets/fingerspelling_animation/process_data.py:117-120 | a shape's symbol is found exactly when the mapping has it |
| FingerspellingAnimation.SymbolPair | spoken_to_signed/assets/fingerspelling_animation/process_data.py:130-135 | "from-to" symbols are found exactly when both are mapped |
| FingerspellingAnimation.Appended | spoken_to_signed/assets/fingerspelling_animation/process_data.py:123-127 | the movement pose's frames come after the pose's frames |
| FingerspellingAnimation.FinalPose | spoken_to_signed/assets/fingerspelling_animation/process_data.py:113-141 | every pose saved has the frame rate 60 |
| FingerspellingAnimation.FinalPoseOfMovement | spoken_to_signed/assets/fingerspelling_animation/process_data.py:118-141 | a movement sprite is saved under its letter's symbol, its frames unchanged, at 60 frames per second |
| FingerspellingAnimation.FinalPoseOfShapes | spoken_to_signed/assets/fingerspelling_animation/process_data.py:116-141 | a static sprite is saved under its symbol; a transition under "from-to" symbols, with the movement's frames appended when it ends in a moving letter; all at 60 frames per second |
| FingerspellingAnimation.FinalPoseOfTransition | spoken_to_signed/assets/fingerspelling_animation/process_data.py:114-135 | every listed transition can be named when the movement poses are there |
| FingerspellingAnimation.PosesOf | spoken_to_signed/assets/fingerspelling_animation/process_data.py:107-111 | every interim pose is in the dictionary |
| FingerspellingAnimation.FinalFiles | spoken_to_signed/assets/fingerspelling_animation/process_data.py:114-146 | at most one file per interim pose, one for each when nothing fails |
| FingerspellingAnimation.FinalFilesStop | spoken_to_signed/assets/fingerspelling_animation/process_data.py:114-146 | the first failure stops the loop |
| FingerspellingAnimation.CreateFinalPoses | spoken_to_signed/assets/fingerspelling_animation/process_data.py:105-146 | the loop over the read poses saves what `FinalFiles` specifies |
| FingerspellingAnimation.FinalFilesOfSprites | spoken_to_signed/assets/fingerspelling_animation/process_data.py:114-146 | sprite poses with their movement poses all get saved, without error |
| CreateIndex.MirrorSpec | spoken_to_signed/assets/fingerspelling_lexicon/create_index.py:15-17 | the copy has the new spoken and signed language, every other column unchanged, and the same columns in the same order |
| CreateIndex.SetKeepsFields | spoken_to_signed/assets/fingerspelling_lexicon/create_index.py:16-17 | setting an existing key keeps the column order |
| CreateIndex.CopiesConcat | spoken_to_signed/assets/fingerspelling_lexicon/create_index.py:11-18 | the copies of two parts are the copies of each, in order |
| CreateIndex.CopiesAreFrench | spoken_to_signed/assets/fingerspelling_lexicon/create_index.py:14-17 | every copy is spoken French |
| CreateIndex.CopiesAreMirrors | spoken_to_signed/assets/fingerspelling_lexicon/create_index.py:11-18 | there is one copy per English row, in order, with "fr" and "fsl" |
| CreateIndex.CopiesOfCopies | spoken_to_signed/assets/fingerspelling_lexicon/create_index.py:11-18 | copies are never copied again, so the appended rows add nothing to the loop |
| CreateIndex.NoEnglishNoCopies | spoken_to_signed/assets/fingerspelling_lexicon/create_index.py:12 | rows that are all French give no copies |
| CreateIndex.CopiesOfPrefix | spoken_to_signed/assets/fingerspelling_lexicon/create_index.py:11-18 | the copies split at any point of the list |
| CreateIndex.GrownBound | spoken_to_signed/assets/fingerspelling_lexicon/create_index.py:11-18 | the growing list never exceeds the rows and their copies |
| CreateIndex.GrownRead | spoken_to_signed/assets/fingerspelling_lexicon/create_index.py:11-18 | the loop reads the original row at each step and appends its copy |
| CreateIndex.GrownDone | spoken_to_signed/assets/fingerspelling_lexicon/create_index.py:11-18 | once the original rows are passed, the list is the rows followed by their copies |
| CreateIndex.MirrorRows | spoken_to_signed/assets/fingerspelling_lexicon/create_index.py:11-18 | the loop over a list it appends to ends with the rows followed by a French copy of each English row; a row without `spoken_language` raises `KeyError` |
| CreateIndex.Line | spoken_to_signed/assets/fingerspelling_lexicon/create_index.py:21-23 | a row is written in the header's column order, and only when all its keys are in the header |
| CreateIndex.IndexTable | spoken_to_signed/assets/fingerspelling_lexicon/create_index.py:20-23 | the header is the first row's keys; no rows raises `IndexError` |
| CreateIndex.IndexOfUniform | spoken_to_signed/assets/fingerspelling_lexicon/create_index.py:20-23 | rows with the first row's columns all get written |
| CreateIndex.IndexOfMirrored | spoken_to_signed/assets/fingerspelling_lexicon/create_index.py:7-23 | the index has the data's header, the data's rows as they were, and one more row per English row |
| CreateIndex.CopiesFields | spoken_to_signed/assets/fingerspelling_lexicon/create_index.py:15-17 | copies keep the columns |
| PyStrings.StripIdempotent | spoken_to_signed/text_to_gloss/nmt.py:104 | `str.strip` applied twice is applied once |
| PyStrings.RemoveSuffix | spoken_to_signed/assets/fingerspelling_animation/process_data.py:119-132 | `str.removesuffix` drops the suffix when present and otherwise changes nothing |
| PyStrings.Find | spoken_to_signed/gloss_to_pose/lookup/fingerspelling_lookup.py:31 | `str.index` finds the first occurrence, or none |
| PyStrings.Split | spoken_to_signed/text_to_gloss/gpt.py:79 | `str.split` on a character gives at least one part, none holding the separator |
| PyStrings.JoinSplit | spoken_to_signed/text_to_gloss/gpt.py:69 | joining the parts with the separator gives the string back |
| PyStrings.SplitCount | spoken_to_signed/text_to_gloss/gpt.py:79 | there is one part more than separators |
| PyStrings.SplitJoin | spoken_to_signed/text_to_gloss/nmt.py:113-116 | splitting parts joined by a separator they lack gives them back |
| PyStrings.TitleAfterSpec | spoken_to_signed/text_to_gloss/rules.py:370 | `str.title` upper-cases a letter after a non-letter and lower-cases a letter after a letter, leaving other characters |
| PyStrings.LowerTitle | spoken_to_signed/text_to_gloss/rules.py:370 | title-casing only changes case |
| PyStrings.TitleKeepsSuffix | spoken_to_signed/text_to_gloss/rules.py:367-370 | a suffix without letters survives title-casing |
| PyStrings.SliceInRange | spoken_to_signed/gloss_to_pose/lookup/lookup.py:74 | a slice inside the bounds is the plain sub-list |
| PyStrings.SliceToMinusOne | spoken_to_signed/gloss_to_pose/smoothing.py:41 | a slice ending at -1 drops the last item |

## Left out

- Floating point: the Savitzky-Golay filter and `interpolate` (`smoothing.py:26,49`, `fingerspelling_lookup.py:43`) are uninterpreted functions; `normalize`, the rescaling onto the canvas (`concatenate.py:10-12,126-127`), the hand scaling and shift of `process_data.py:138-140` and the elbow averaging of `build_interpreter` are left out or parameters, and only the index and count arithmetic around them is modelled.
- Coordinates are integers and the seam search uses squared distances; float rounding of `window * fps` and `1000 / fps` is not modelled (exact rationals are used).
- `correct_wrist`: the `ma.masked_equal(..., 0)` mask on the written wrist data (`concatenate.py:74`) is not modelled; the values written are.
- I/O: reading pose files from disk or GCS, `Pose.read`/`write`, the sprite download through `wget`, mediapipe hand detection, `json.load` of the few-shot file, CSV reading and writing and the globbing of `interim_poses` are outside the model; stored poses are a `Storage` function, and what is on disk, the rows read and the poses read back are parameters.
- Concurrency: the `ThreadPoolExecutor` of `lookup_sequence` (`lookup/lookup.py:120-121`) is modelled as a sequential, order-preserving map that stops at the first error other than a miss. The results are the same (`Lookup.LookupTransparent`), but on that error path the executor still runs the remaining pairs, so the cache contents and whether GCS got opened can differ from the model.
- Foreign libraries: the `pose_format` API beyond header lookups and slicing, spaCy's parse (tokens, heads, subtrees and the clause split of `get_clauses` are inputs), simplemma, sockeye and sentencepiece (parameters `Encoder` and `Translator`), the OpenAI client (the predicted sentences are the input), `fsw_to_sign` and `get_chars` (parameters).
- `build_interpreter` and `get_interpreter` of the SignWriting lookup are one parameter that places a found transition pose on the interpreter.
- Negation markers: the `<neg>`/`</neg>` tokens of `rules.py:300-321` build new spaCy tokens and are not modelled; `clause_to_gloss` goes from rule 5 to rule 6.
- `get_clauses` (`rules.py:32-53`) is not modelled: the clauses are an input, as the parse is.
- `print_token` and the `print` calls of `rules.py` and `gpt.py` are output only.
- Strings are ASCII for case and whitespace: `lower`, `title`, `strip`, `isalpha` and the regular-expression classes use ASCII character classes, with no Unicode case mapping.
- A body's frame shape is read off its first frame (`Smoothing.ShapeOf`): a NumPy array gives every frame the same shape, and a body without frames only occurs where the seam search has already failed.
- `np.concatenate` also checks the shapes of the confidence arrays (`smoothing.py:43,47`); the model checks the data arrays' shapes only, a confidence array being shaped like its data array without the coordinates.
- The pose header's version number and the `pose_format` file format are not modelled.
- `FingerspellingAnimation.CreateFinalPoses`: requires the interim pose names to be distinct, as the file stems of one directory are; it processes them in the order given, while the source's order is that of `Path.glob`.
- The command-line entry points, `__init__.py`, `types.py`, the tests, `download.py`, `download_lexicon.py`, `preprocess_files.py` and `csv_lookup.py` are not part of this model.

## Findings

| source | as written | input that shows it | evidently intended | confidence | as-written member | corrected member |
|---|---|---|---|---|---|---|
| spoken_to_signed/text_to_gloss/rules.py:330 | `glosses, tokens = zip(*...)` binds the token texts to `glosses` and the gloss strings to `tokens`, so `text_to_gloss` returns (gloss, word) pairs and the gloss string is made of the words | the single plural noun "Hunde" (lemma "Hund") gives [("Hund+", "Hunde")] | (word, gloss) pairs, as the `Gloss` type of `types.py` and the other back ends give: [("Hunde", "Hund+")] | high, not executed | Rules.TextToGlossAsWrittenTradesPairs | Rules.ClauseToGlossPairs |
| spoken_to_signed/text_to_gloss/nmt.py:102 | `replace("â–", " ")` looks for the two characters U+00E2 U+2013, the mis-decoded form of sentencepiece's word marker U+2581, so the marker is never replaced | the pieces "▁HAUS ▁GEHEN" give "▁HAUS▁GEHEN", one gloss | the word marker turned into a space: "HAUS GEHEN", two glosses | medium, not executed | Nmt.TextToGlossOfMarkedAsWritten | Nmt.TextToGlossOfMarked |
