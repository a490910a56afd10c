/** The lexicon index of `lookup/lookup.py` and the choice of one row from a
    bucket.

    An index maps a spoken language, then a signed language, then a
    lower-cased term to the list of entries filed under it. Python's
    `defaultdict` keeps insertion order, which the fingerspelling alphabets
    depend on, so each innermost table records its keys in insertion order
    next to the map from key to entries. */
module LookupIndex {
  import opened Wrappers
  import opened PyStrings

  /** One row of the lexicon index. The CSV fields `start`, `end` and
      `priority` are already integers. */
  datatype Row = Row(
    path: string,
    spokenLanguage: string,
    signedLanguage: string,
    words: string,
    glosses: string,
    start: int,
    end: int,
    priority: int)

  /** Which column an index is built on. */
  datatype BasedOn = Words | Glosses

  /** What the index keeps of a row; `term` is the column as written. */
  datatype Entry = Entry(path: string, term: string, start: int, end: int, priority: int)

  /** The entries of one language pair, keyed by lower-cased term, with the
      keys in insertion order. */
  datatype TermTable = TermTable(keys: seq<string>, entries: map<string, seq<Entry>>)

  type Index = map<string, map<string, TermTable>>

  function TermOf(r: Row, basedOn: BasedOn): string {
    match basedOn
    case Words => r.words
    case Glosses => r.glosses
  }

  function ToEntry(r: Row, basedOn: BasedOn): (e: Entry)
    ensures e.path == r.path && e.term == TermOf(r, basedOn)
    ensures e.start == r.start && e.end == r.end && e.priority == r.priority
  {
    Entry(r.path, TermOf(r, basedOn), r.start, r.end, r.priority)
  }

  function ToEntries(rows: seq<Row>, basedOn: BasedOn): (r: seq<Entry>)
    ensures |r| == |rows|
    ensures forall i :: 0 <= i < |rows| ==> r[i] == ToEntry(rows[i], basedOn)
  {
    if rows == [] then [] else [ToEntry(rows[0], basedOn)] + ToEntries(rows[1..], basedOn)
  }

  lemma {:induction false} ToEntriesConcat(a: seq<Row>, b: seq<Row>, basedOn: BasedOn)
    ensures ToEntries(a + b, basedOn) == ToEntries(a, basedOn) + ToEntries(b, basedOn)
  {
  }

  /** The table of a language pair, empty when the pair is absent. */
  function TableOf(idx: Index, spoken: string, signed: string): TermTable {
    if spoken in idx && signed in idx[spoken] then idx[spoken][signed] else TermTable([], map[])
  }

  /** The bucket of a key, empty when the pair or the key is absent. */
  function Bucket(idx: Index, spoken: string, signed: string, key: string): seq<Entry> {
    var t := TableOf(idx, spoken, signed);
    if key in t.entries then t.entries[key] else []
  }

  /** `languages_dict[spoken][signed][term.lower()].append(...)` for one row. */
  function Add(idx: Index, r: Row, basedOn: BasedOn): Index {
    var key := Lower(TermOf(r, basedOn));
    var e := ToEntry(r, basedOn);
    var signedMap := if r.spokenLanguage in idx then idx[r.spokenLanguage] else map[];
    var t := TableOf(idx, r.spokenLanguage, r.signedLanguage);
    var t' := if key in t.entries then TermTable(t.keys, t.entries[key := t.entries[key] + [e]])
              else TermTable(t.keys + [key], t.entries[key := [e]]);
    idx[r.spokenLanguage := signedMap[r.signedLanguage := t']]
  }

  /** The index of a sequence of rows, filed one after the other. */
  function IndexOf(rows: seq<Row>, basedOn: BasedOn): Index
    decreases |rows|
  {
    if rows == [] then map[] else Add(IndexOf(rows[..|rows| - 1], basedOn), rows[|rows| - 1], basedOn)
  }

  /** `make_dictionary_index(rows, based_on)`. */
  method MakeDictionaryIndex(rows: seq<Row>, basedOn: BasedOn) returns (idx: Index)
    ensures idx == IndexOf(rows, basedOn)
  {
    idx := map[];
    var i := 0;
    while i < |rows|
      invariant 0 <= i <= |rows|
      invariant idx == IndexOf(rows[..i], basedOn)
    {
      var d := rows[i];
      var term := TermOf(d, basedOn);
      var lowerTerm := Lower(term);
      var signedMap := if d.spokenLanguage in idx then idx[d.spokenLanguage] else map[];
      var table := if d.signedLanguage in signedMap then signedMap[d.signedLanguage] else TermTable([], map[]);
      var entry := Entry(d.path, term, d.start, d.end, d.priority);
      if lowerTerm in table.entries {
        table := TermTable(table.keys, table.entries[lowerTerm := table.entries[lowerTerm] + [entry]]);
      } else {
        table := TermTable(table.keys + [lowerTerm], table.entries[lowerTerm := [entry]]);
      }
      idx := idx[d.spokenLanguage := signedMap[d.signedLanguage := table]];
      assert rows[..i + 1][..i] == rows[..i];
      i := i + 1;
    }
    assert rows[..i] == rows;
  }

  // ---------------------------------------------------------------------
  // What the index holds

  /** A row is filed under this pair and key. */
  predicate FiledUnder(r: Row, basedOn: BasedOn, spoken: string, signed: string, key: string) {
    r.spokenLanguage == spoken && r.signedLanguage == signed && Lower(TermOf(r, basedOn)) == key
  }

  /** Filing one row appends its entry to its own bucket and to no other. */
  lemma BucketAdd(idx: Index, r: Row, basedOn: BasedOn, spoken: string, signed: string, key: string)
    ensures Bucket(Add(idx, r, basedOn), spoken, signed, key)
      == Bucket(idx, spoken, signed, key)
         + (if FiledUnder(r, basedOn, spoken, signed, key) then [ToEntry(r, basedOn)] else [])
  {
  }

  lemma SnocSplit<T>(s: seq<T>)
    requires s != []
    ensures s == s[..|s| - 1] + [s[|s| - 1]]
  {
  }

  /** Every bucket holds the entries of exactly the rows filed under it, in
      the order of the rows (`p` is the filing test of that bucket). */
  lemma {:induction false} IndexBuckets(rows: seq<Row>, basedOn: BasedOn, spoken: string, signed: string, key: string,
                                        p: Row -> bool)
    requires forall r :: p(r) == FiledUnder(r, basedOn, spoken, signed, key)
    ensures Bucket(IndexOf(rows, basedOn), spoken, signed, key) == ToEntries(Filter(rows, p), basedOn)
    decreases |rows|
  {
    if rows != [] {
      IndexBuckets(rows[..|rows| - 1], basedOn, spoken, signed, key, p);
      BucketsStep(rows, basedOn, spoken, signed, key, p);
    }
  }

  lemma BucketsStep(rows: seq<Row>, basedOn: BasedOn, spoken: string, signed: string, key: string,
                    p: Row -> bool)
    requires rows != []
    requires forall r :: p(r) == FiledUnder(r, basedOn, spoken, signed, key)
    requires Bucket(IndexOf(rows[..|rows| - 1], basedOn), spoken, signed, key)
      == ToEntries(Filter(rows[..|rows| - 1], p), basedOn)
    ensures Bucket(IndexOf(rows, basedOn), spoken, signed, key) == ToEntries(Filter(rows, p), basedOn)
  {
    var init := rows[..|rows| - 1];
    var last := rows[|rows| - 1];
    BucketAdd(IndexOf(init, basedOn), last, basedOn, spoken, signed, key);
    assert IndexOf(rows, basedOn) == Add(IndexOf(init, basedOn), last, basedOn);
    FilterSnocEntries(rows, p, basedOn);
  }

  /** The entries of the rows kept by `p`, the last row apart. */
  lemma FilterSnocEntries(rows: seq<Row>, p: Row -> bool, basedOn: BasedOn)
    requires rows != []
    ensures var last := rows[|rows| - 1];
      ToEntries(Filter(rows, p), basedOn)
        == ToEntries(Filter(rows[..|rows| - 1], p), basedOn) + (if p(last) then [ToEntry(last, basedOn)] else [])
  {
    var init := rows[..|rows| - 1];
    var last := rows[|rows| - 1];
    var tailF := if p(last) then [last] else [];
    calc {
      ToEntries(Filter(init, p), basedOn) + ToEntries(tailF, basedOn);
      { ToEntriesConcat(Filter(init, p), tailF, basedOn); }
      ToEntries(Filter(init, p) + tailF, basedOn);
      { FilterCons([last], p); assert [last][1..] == []; }
      ToEntries(Filter(init, p) + Filter([last], p), basedOn);
      { FilterConcat(init, [last], p); }
      ToEntries(Filter(init + [last], p), basedOn);
      { SnocSplit(rows); }
      ToEntries(Filter(rows, p), basedOn);
    }
  }

  /** Keys are listed once each, exactly the keys of the map, and no bucket
      is empty. */
  ghost predicate WellFormedTable(t: TermTable) {
    (forall i, j :: 0 <= i < j < |t.keys| ==> t.keys[i] != t.keys[j])
    && (forall k :: k in t.entries <==> k in t.keys)
    && (forall k :: k in t.entries ==> t.entries[k] != [])
  }

  ghost predicate WellFormedIndex(idx: Index) {
    forall spoken, signed :: spoken in idx && signed in idx[spoken] ==> WellFormedTable(idx[spoken][signed])
  }

  lemma {:induction false} IndexWellFormed(rows: seq<Row>, basedOn: BasedOn)
    ensures WellFormedIndex(IndexOf(rows, basedOn))
    decreases |rows|
  {
    if rows != [] {
      IndexWellFormed(rows[..|rows| - 1], basedOn);
    }
  }

  /** A key is present exactly when some row is filed under it; a language
      pair is present exactly when some row has it. */
  lemma IndexPresence(rows: seq<Row>, basedOn: BasedOn, spoken: string, signed: string, key: string)
    ensures key in TableOf(IndexOf(rows, basedOn), spoken, signed).entries
      <==> exists i :: 0 <= i < |rows| && FiledUnder(rows[i], basedOn, spoken, signed, key)
  {
    var p := (r: Row) => FiledUnder(r, basedOn, spoken, signed, key);
    IndexBuckets(rows, basedOn, spoken, signed, key, p);
    IndexWellFormed(rows, basedOn);
    FilterMembers(rows, p);
    var f := Filter(rows, p);
    if exists i :: 0 <= i < |rows| && p(rows[i]) {
      var i :| 0 <= i < |rows| && p(rows[i]);
      assert rows[i] in f;
    }
    if f != [] {
      assert f[0] in f;
    }
  }

  lemma {:induction false} IndexPairs(rows: seq<Row>, basedOn: BasedOn, spoken: string, signed: string)
    ensures (spoken in IndexOf(rows, basedOn) && signed in IndexOf(rows, basedOn)[spoken])
      <==> exists i :: 0 <= i < |rows| && rows[i].spokenLanguage == spoken && rows[i].signedLanguage == signed
    decreases |rows|
  {
    if rows != [] {
      var init, last := rows[..|rows| - 1], rows[|rows| - 1];
      IndexPairs(init, basedOn, spoken, signed);
      AddPairs(IndexOf(init, basedOn), last, basedOn, spoken, signed);
      if exists i :: 0 <= i < |init| && init[i].spokenLanguage == spoken && init[i].signedLanguage == signed {
        var i :| 0 <= i < |init| && init[i].spokenLanguage == spoken && init[i].signedLanguage == signed;
        assert rows[i] == init[i];
      }
      if exists i :: 0 <= i < |rows| && rows[i].spokenLanguage == spoken && rows[i].signedLanguage == signed {
        var i :| 0 <= i < |rows| && rows[i].spokenLanguage == spoken && rows[i].signedLanguage == signed;
        if i < |init| {
          assert init[i] == rows[i];
        }
      }
    }
  }

  /** Filing a row adds its own language pair and no other. */
  lemma AddPairs(idx: Index, r: Row, basedOn: BasedOn, spoken: string, signed: string)
    ensures var after := Add(idx, r, basedOn);
      (spoken in after && signed in after[spoken])
        <==> (spoken in idx && signed in idx[spoken]) || (r.spokenLanguage == spoken && r.signedLanguage == signed)
  {
  }

  /** Both indexes of the same rows have the same language pairs. */
  lemma IndexPairsAgree(rows: seq<Row>, spoken: string, signed: string)
    ensures (spoken in IndexOf(rows, Words) && signed in IndexOf(rows, Words)[spoken])
      <==> (spoken in IndexOf(rows, Glosses) && signed in IndexOf(rows, Glosses)[spoken])
  {
    IndexPairs(rows, Words, spoken, signed);
    IndexPairs(rows, Glosses, spoken, signed);
  }

  // ---------------------------------------------------------------------
  // get_best_row

  predicate SortedByPriority(s: seq<Entry>) {
    forall i, j :: 0 <= i < j < |s| ==> s[i].priority <= s[j].priority
  }

  /** Inserts `x` before the first entry whose priority is not lower. */
  function Insert(x: Entry, s: seq<Entry>): (r: seq<Entry>)
  {
    if s == [] then [x]
    else if x.priority <= s[0].priority then [x] + s
    else [s[0]] + Insert(x, s[1..])
  }

  /** Inserting adds exactly `x`. */
  lemma {:induction false} InsertCount(x: Entry, s: seq<Entry>)
    ensures multiset(Insert(x, s)) == multiset(s) + multiset{x}
    ensures |Insert(x, s)| == |s| + 1
  {
    if s != [] && x.priority > s[0].priority {
      InsertCount(x, s[1..]);
      assert s == [s[0]] + s[1..];
    }
  }

  /** Inserting keeps a sorted list sorted. */
  lemma {:induction false} InsertSorted(x: Entry, s: seq<Entry>)
    requires SortedByPriority(s)
    ensures SortedByPriority(Insert(x, s))
  {
    if s != [] && x.priority > s[0].priority {
      InsertSorted(x, s[1..]);
      InsertCount(x, s[1..]);
      var r := Insert(x, s[1..]);
      forall i | 0 <= i < |r| ensures s[0].priority <= r[i].priority {
        assert r[i] in multiset(r);
        if r[i] != x {
          assert r[i] in s[1..];
        }
      }
    }
  }

  /** `sorted(rows, key=priority)`: Python's sort is stable, which inserting
      each entry in front of the sorted rest with `Insert` reproduces. */
  function SortByPriority(s: seq<Entry>): (r: seq<Entry>)
  {
    if s == [] then [] else Insert(s[0], SortByPriority(s[1..]))
  }

  /** The sort orders by priority and loses or adds nothing. */
  lemma {:induction false} SortByPrioritySpec(s: seq<Entry>)
    ensures SortedByPriority(SortByPriority(s))
    ensures multiset(SortByPriority(s)) == multiset(s)
  {
    if s != [] {
      SortByPrioritySpec(s[1..]);
      InsertCount(s[0], SortByPriority(s[1..]));
      InsertSorted(s[0], SortByPriority(s[1..]));
      assert s == [s[0]] + s[1..];
    }
  }

  /** The first entry satisfying `p`. */
  function FirstMatch(s: seq<Entry>, p: Entry -> bool): (r: Option<Entry>)
  {
    if s == [] then None else if p(s[0]) then Some(s[0]) else FirstMatch(s[1..], p)
  }

  /** The reference definition: the entry satisfying `p` with the lowest
      priority, the earliest one among equals. */
  function Best(s: seq<Entry>, p: Entry -> bool): (r: Option<Entry>)
  {
    if s == [] then None
    else
      var rest := Best(s[1..], p);
      if p(s[0]) && (rest.None? || s[0].priority <= rest.value.priority) then Some(s[0]) else rest
  }

  /** `get_best_row(rows, term)`: after a stable sort by priority, the first
      entry whose term equals `term` exactly, else the first entry;
      `IndexError` for an empty list. */
  function GetBestRow(rows: seq<Entry>, term: string): (r: Result<Entry>)
  {
    var sorted := SortByPriority(rows);
    match FirstMatch(sorted, (e: Entry) => e.term == term)
    case Some(e) => Ok(e)
    case None => if sorted == [] then Err(IndexError) else Ok(sorted[0])
  }

  /** The first match in a sorted list has a priority no lower than its head. */
  lemma {:induction false} FirstMatchAtLeastHead(s: seq<Entry>, p: Entry -> bool)
    requires SortedByPriority(s) && FirstMatch(s, p).Some?
    ensures s != [] && s[0].priority <= FirstMatch(s, p).value.priority
  {
    if !p(s[0]) {
      FirstMatchAtLeastHead(s[1..], p);
    }
  }

  /** The first match after inserting `x` is `x` when it matches and is not
      worse than the first match before; otherwise it is that match. */
  lemma {:induction false} FirstMatchInsert(x: Entry, s: seq<Entry>, p: Entry -> bool)
    requires SortedByPriority(s)
    ensures var m := FirstMatch(s, p);
      FirstMatch(Insert(x, s), p)
        == if p(x) && (m.None? || x.priority <= m.value.priority) then Some(x) else m
  {
    if s != [] && x.priority > s[0].priority {
      FirstMatchInsert(x, s[1..], p);
    } else if s != [] && p(x) && FirstMatch(s, p).Some? {
      FirstMatchAtLeastHead(s, p);
    }
  }

  /** Sorting stably and taking the first match picks the reference `Best`. */
  lemma {:induction false} FirstMatchOfSortIsBest(s: seq<Entry>, p: Entry -> bool)
    ensures FirstMatch(SortByPriority(s), p) == Best(s, p)
  {
    if s != [] {
      FirstMatchOfSortIsBest(s[1..], p);
      SortByPrioritySpec(s[1..]);
      FirstMatchInsert(s[0], SortByPriority(s[1..]), p);
    }
  }

  /** `Best` picks the entry satisfying `p` of lowest priority, the earliest
      among equals, and is `None` only when nothing satisfies `p`. */
  lemma {:induction false} BestSpec(s: seq<Entry>, p: Entry -> bool)
    ensures Best(s, p).None? <==> forall i :: 0 <= i < |s| ==> !p(s[i])
    ensures Best(s, p).Some? ==> exists k :: IsBest(s, p, k) && Best(s, p).value == s[k]
  {
    if s != [] {
      BestSpec(s[1..], p);
      var rest := Best(s[1..], p);
      if rest.Some? {
        var k :| IsBest(s[1..], p, k) && rest.value == s[1..][k];
        if p(s[0]) && s[0].priority <= rest.value.priority {
          assert IsBest(s, p, 0);
        } else {
          assert IsBest(s, p, k + 1);
        }
      } else if p(s[0]) {
        assert IsBest(s, p, 0);
      }
    }
  }

  /** Position `k` holds the best entry for `p`: it satisfies `p`, and every
      other entry satisfying `p` has a higher priority or comes later. */
  predicate IsBest(s: seq<Entry>, p: Entry -> bool, k: int) {
    0 <= k < |s| && p(s[k])
    && forall m :: 0 <= m < |s| && p(s[m]) ==>
      s[k].priority < s[m].priority || (s[k].priority == s[m].priority && k <= m)
  }

  /** `get_best_row` picks the best exact-term entry when there is one, even
      over entries of better priority, and the best entry overall otherwise;
      it fails only on an empty list. */
  lemma GetBestRowSpec(rows: seq<Entry>, term: string)
    ensures GetBestRow(rows, term).Err? <==> rows == []
    ensures (exists i :: 0 <= i < |rows| && rows[i].term == term) ==>
      exists k :: IsBest(rows, (e: Entry) => e.term == term, k) && GetBestRow(rows, term) == Ok(rows[k])
    ensures rows != [] && (forall i :: 0 <= i < |rows| ==> rows[i].term != term) ==>
      exists k :: IsBest(rows, (e: Entry) => true, k) && GetBestRow(rows, term) == Ok(rows[k])
  {
    var exact := (e: Entry) => e.term == term;
    var any := (e: Entry) => true;
    FirstMatchOfSortIsBest(rows, exact);
    FirstMatchOfSortIsBest(rows, any);
    BestSpec(rows, exact);
    BestSpec(rows, any);
    SortByPrioritySpec(rows);
    var sorted := SortByPriority(rows);
    if sorted != [] {
      assert FirstMatch(sorted, any) == Some(sorted[0]);
    }
    if rows != [] {
      assert rows[0] in multiset(rows);
      assert sorted != [];
    } else {
      assert |multiset(sorted)| == 0;
    }
  }
}
