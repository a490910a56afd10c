/** The least-recently-used cache that `PoseLookup` keeps its decoded poses in.

    Python's `OrderedDict` is modelled by the sequence of its keys, oldest
    first, together with a map from key to value. The pure functions
    `GetState`/`SetState` say what one call does to that pair; the class
    `LRUCache` updates its fields in place and is proved to follow them. */
module LruCache {
  import opened Wrappers
  import opened PyStrings

  /** The default capacity of `LRUCache()`. */
  const DEFAULT_MAXSIZE: int := 100

  /** The keys of the ordered dictionary, oldest first, and their values. */
  datatype State<K(==), V> = State(order: seq<K>, values: map<K, V>)

  /** The key sequence lists every key of the map exactly once. */
  ghost predicate WellFormed<K, V>(st: State<K, V>) {
    Distinct(st.order)
    && (forall k <- st.values.Keys :: k in st.order)
    && (forall i :: 0 <= i < |st.order| ==> st.order[i] in st.values)
  }

  /** The key order without `k`. */
  function Without<K(==)>(order: seq<K>, k: K): (r: seq<K>)
  {
    Filter(order, (x: K) => x != k)
  }

  /** `move_to_end(k)`: `k` becomes the most recently used key. */
  function MoveToEnd<K(==)>(order: seq<K>, k: K): (r: seq<K>)
    ensures |r| > 0 && r[|r| - 1] == k
  {
    Without(order, k) + [k]
  }

  /** What `get(key)` returns and the state it leaves behind. */
  function GetState<K(==), V>(st: State<K, V>, key: K): (Option<V>, State<K, V>)
  {
    if key in st.values then (Some(st.values[key]), State(MoveToEnd(st.order, key), st.values))
    else (None, st)
  }

  /** The state `set(key, value)` leaves behind, or the `KeyError` of
      `popitem` on an empty dictionary (possible only when `maxsize <= 0`). */
  function SetState<K(==), V>(st: State<K, V>, maxsize: int, key: K, value: V): Result<State<K, V>>
  {
    if key in st.values then Ok(State(MoveToEnd(st.order, key), st.values[key := value]))
    else if |st.order| >= maxsize then
      if |st.order| == 0 then Err(KeyError)
      else Ok(State(st.order[1..] + [key], (st.values - {st.order[0]})[key := value]))
    else Ok(State(st.order + [key], st.values[key := value]))
  }

  // ---------------------------------------------------------------------
  // The class

  class LRUCache<K(==), V> {
    var order: seq<K>
    var values: map<K, V>
    const maxsize: int

    ghost predicate Valid()
      reads this
    {
      WellFormed(State(order, values))
    }

    function Contents(): State<K, V>
      reads this
    {
      State(order, values)
    }

    /** `LRUCache(maxsize)`: an empty cache. */
    constructor (maxsize: int)
      ensures Valid()
      ensures order == [] && values == map[]
      ensures this.maxsize == maxsize
    {
      order := [];
      values := map[];
      this.maxsize := maxsize;
    }

    /** `get(key)`: the stored value, and `key` becomes the most recent. */
    method Get(key: K) returns (r: Option<V>)
      requires Valid()
      modifies this
      ensures Valid()
      ensures (r, Contents()) == GetState(old(Contents()), key)
    {
      if key in values {
        GetKeepsWellFormed(Contents(), key);
        order := MoveToEnd(order, key);
        r := Some(values[key]);
      } else {
        r := None;
      }
    }

    /** `set(key, value)`; an `Err` stands for the `KeyError` raised by
        `popitem` and leaves the cache as it was. */
    method Set(key: K, value: V) returns (r: Result<()>)
      requires Valid()
      modifies this
      ensures Valid()
      ensures r.Ok? <==> SetState(old(Contents()), maxsize, key, value).Ok?
      ensures r.Ok? ==> Contents() == SetState(old(Contents()), maxsize, key, value).value
      ensures r.Err? ==> r.error == KeyError && Contents() == old(Contents())
    {
      ghost var st := Contents();
      if key in values {
        SetKeepsWellFormed(st, maxsize, key, value);
        order := MoveToEnd(order, key);
      } else if |order| >= maxsize {
        if |order| == 0 {
          return Err(KeyError);
        }
        SetKeepsWellFormed(st, maxsize, key, value);
        values := values - {order[0]};
        order := order[1..];
        order := order + [key];
      } else {
        SetKeepsWellFormed(st, maxsize, key, value);
        order := order + [key];
      }
      values := values[key := value];
      r := Ok(());
    }
  }

  // ---------------------------------------------------------------------
  // Key-order lemmas

  /** Removing one key from a duplicate-free order: the others stay, in
      their order, and the length drops by one exactly when the key was
      there. */
  lemma {:induction false} WithoutDistinct<K>(s: seq<K>, k: K)
    requires Distinct(s)
    ensures Distinct(Without(s, k))
    ensures forall x :: x in Without(s, k) <==> x in s && x != k
    ensures |Without(s, k)| == if k in s then |s| - 1 else |s|
  {
    if s != [] {
      FilterCons(s, (x: K) => x != k);
      WithoutDistinct(s[1..], k);
      assert s == [s[0]] + s[1..];
      assert s[0] !in s[1..];
    }
  }

  /** The order without the oldest key of a duplicate-free order is its tail. */
  lemma WithoutFirst<K>(s: seq<K>)
    requires Distinct(s) && s != []
    ensures Without(s, s[0]) == s[1..]
  {
    FilterCons(s, (x: K) => x != s[0]);
    assert forall i :: 0 <= i < |s[1..]| ==> s[1..][i] != s[0];
    FilterAll(s[1..], (x: K) => x != s[0]);
  }

  /** In a well-formed state a key is in the map exactly when it is in the
      order. */
  lemma WellFormedKeys<K, V>(st: State<K, V>)
    requires WellFormed(st)
    ensures forall x :: x in st.values <==> x in st.order
  {
    forall x | x in st.order ensures x in st.values {
      var j :| 0 <= j < |st.order| && st.order[j] == x;
    }
  }

  lemma GetKeepsWellFormed<K, V>(st: State<K, V>, key: K)
    requires WellFormed(st)
    ensures WellFormed(GetState(st, key).1)
  {
    if key in st.values {
      WellFormedKeys(st);
      MoveToEndSpec(st.order, key);
      var m := MoveToEnd(st.order, key);
      assert Distinct(m);
      assert forall k <- st.values.Keys :: k in m;
      assert forall i :: 0 <= i < |m| ==> m[i] in m;
      assert forall i :: 0 <= i < |m| ==> m[i] in st.values;
      assert GetState(st, key).1 == State(m, st.values);
    }
  }

  /** Moving a key to the end keeps the order duplicate-free and its
      members the same, plus that key. */
  lemma MoveToEndSpec<K>(s: seq<K>, k: K)
    requires Distinct(s)
    ensures Distinct(MoveToEnd(s, k))
    ensures forall x :: x in MoveToEnd(s, k) <==> x in s || x == k
  {
    WithoutDistinct(s, k);
    var w := Without(s, k);
    assert MoveToEnd(s, k) == w + [k];
    assert k !in w;
  }

  lemma SetKeepsWellFormed<K, V>(st: State<K, V>, maxsize: int, key: K, value: V)
    requires WellFormed(st)
    ensures SetState(st, maxsize, key, value).Ok? ==> WellFormed(SetState(st, maxsize, key, value).value)
  {
    var r := SetState(st, maxsize, key, value);
    if key in st.values {
      GetKeepsWellFormed(st, key);
    } else if |st.order| >= maxsize {
      if |st.order| > 0 {
        var o := st.order[1..] + [key];
        assert forall i :: 0 <= i < |st.order| - 1 ==> st.order[1..][i] != st.order[0];
        assert forall i :: 0 <= i < |o| ==> o[i] in o;
        assert forall k :: k in st.order ==> k == st.order[0] || k in st.order[1..];
      }
    } else {
      var o := st.order + [key];
      assert forall i :: 0 <= i < |o| ==> o[i] in o;
    }
  }

  // ---------------------------------------------------------------------
  // Properties of get and set

  /** `get` on an absent key returns `None` and changes neither the order
      nor the contents. */
  lemma GetAbsent<K, V>(st: State<K, V>, key: K)
    requires key !in st.values
    ensures GetState(st, key).0 == None
    ensures GetState(st, key).1.order == st.order
    ensures GetState(st, key).1.values == st.values
  {
  }

  /** `get` on a present key returns its value and makes it the most recent;
      the other keys keep their relative order and nothing is added or
      evicted. */
  lemma GetPresent<K, V>(st: State<K, V>, key: K)
    requires WellFormed(st) && key in st.values
    ensures GetState(st, key).0 == Some(st.values[key])
    ensures var o := GetState(st, key).1.order;
      |o| == |st.order| && o[|o| - 1] == key && Without(o, key) == Without(st.order, key)
    ensures GetState(st, key).1.values == st.values
  {
    var o := GetState(st, key).1.order;
    WithoutDistinct(st.order, key);
    FilterConcat(Without(st.order, key), [key], (x: K) => x != key);
    assert Filter([key], (x: K) => x != key) == [];
    WithoutFilterTwice(st.order, key);
  }

  /** Removing a key twice is removing it once. */
  lemma {:induction false} WithoutFilterTwice<K>(s: seq<K>, k: K)
    ensures Without(Without(s, k), k) == Without(s, k)
  {
    FilterAll(Without(s, k), (x: K) => x != k);
  }

  /** `set` on a present key stores the value and makes the key the most
      recent; it evicts nothing and the size stays the same. */
  lemma SetExisting<K, V>(st: State<K, V>, maxsize: int, key: K, value: V)
    requires WellFormed(st) && key in st.values
    ensures SetState(st, maxsize, key, value).Ok?
    ensures var s := SetState(st, maxsize, key, value).value;
      |s.order| == |st.order| && s.order[|s.order| - 1] == key
      && Without(s.order, key) == Without(st.order, key)
      && s.values.Keys == st.values.Keys && s.values[key] == value
      && forall k :: k in st.values && k != key ==> s.values[k] == st.values[k]
  {
    GetPresent(st, key);
  }

  /** `set` on a new key at capacity evicts exactly the oldest key and
      appends the new one. */
  lemma SetNewAtCapacity<K, V>(st: State<K, V>, maxsize: int, key: K, value: V)
    requires WellFormed(st) && key !in st.values
    requires |st.order| >= maxsize && |st.order| > 0
    ensures SetState(st, maxsize, key, value).Ok?
    ensures var s := SetState(st, maxsize, key, value).value;
      s.order == st.order[1..] + [key]
      && s.values.Keys == st.values.Keys - {st.order[0]} + {key}
      && |s.order| == |st.order|
  {
  }

  /** `set` on a new key below capacity appends it and evicts nothing. */
  lemma SetNewBelowCapacity<K, V>(st: State<K, V>, maxsize: int, key: K, value: V)
    requires key !in st.values && |st.order| < maxsize
    ensures SetState(st, maxsize, key, value).Ok?
    ensures var s := SetState(st, maxsize, key, value).value;
      s.order == st.order + [key] && s.values.Keys == st.values.Keys + {key}
  {
  }

  /** With a positive capacity no `set` fails, and the size never exceeds
      the capacity. */
  lemma {:induction false} SetKeepsBound<K, V>(st: State<K, V>, maxsize: int, key: K, value: V)
    requires WellFormed(st) && maxsize >= 1 && |st.order| <= maxsize
    ensures SetState(st, maxsize, key, value).Ok?
    ensures |SetState(st, maxsize, key, value).value.order| <= maxsize
  {
    WithoutDistinct(st.order, key);
  }

  /** With a capacity of zero or less, the first `set` on an empty cache
      pops from an empty dictionary. */
  lemma SetOnEmptyWithoutCapacity<K, V>(maxsize: int, key: K, value: V)
    requires maxsize <= 0
    ensures SetState(State([], map[]), maxsize, key, value) == Err(KeyError)
  {
  }

  /** After `set(k, v)`, `get(k)` returns `v`. */
  lemma GetAfterSet<K, V>(st: State<K, V>, maxsize: int, key: K, value: V)
    requires SetState(st, maxsize, key, value).Ok?
    ensures GetState(SetState(st, maxsize, key, value).value, key).0 == Some(value)
  {
  }

  /** The size of the cache is the length of its key order. */
  lemma {:induction false} SizeIsOrderLength<K, V>(st: State<K, V>)
    requires WellFormed(st)
    ensures |st.values| == |st.order|
    decreases |st.order|
  {
    if st.order != [] {
      var rest := DropOldest(st);
      DropOldestSpec(st);
      SizeIsOrderLength(rest);
    }
  }

  /** The state without its least recently used key. */
  function DropOldest<K, V>(st: State<K, V>): State<K, V>
    requires st.order != []
  {
    State(st.order[1..], st.values - {st.order[0]})
  }

  /** Dropping the least recently used key keeps the state well formed and
      removes exactly one entry. */
  lemma DropOldestSpec<K, V>(st: State<K, V>)
    requires WellFormed(st) && st.order != []
    ensures WellFormed(DropOldest(st))
    ensures |DropOldest(st).order| == |st.order| - 1
    ensures |DropOldest(st).values| == |st.values| - 1
  {
    DropOldestWellFormed(st);
    RemoveKeySize(st.values, st.order[0]);
  }

  lemma DropOldestWellFormed<K, V>(st: State<K, V>)
    requires WellFormed(st) && st.order != []
    ensures WellFormed(DropOldest(st))
  {
    var k, rest := st.order[0], DropOldest(st);
    forall x <- rest.values.Keys
      ensures x in rest.order
    {
      var i :| 0 <= i < |st.order| && st.order[i] == x;
      assert rest.order[i - 1] == x;
    }
    forall i | 0 <= i < |rest.order|
      ensures rest.order[i] in rest.values
    {
      assert rest.order[i] == st.order[i + 1];
    }
  }

  /** Removing a present key removes one entry. */
  lemma RemoveKeySize<K, V>(m: map<K, V>, k: K)
    requires k in m
    ensures |m - {k}| == |m| - 1
  {
    assert m.Keys == (m - {k}).Keys + {k};
  }
}
