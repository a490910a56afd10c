/** Python's `str` and `list` operations that the modelled code relies on,
    stated over `seq<char>` with ASCII character classes.

    Each function follows the CPython method of the same name for the cases the
    model needs: `strip()` with no argument, `lower()`, `replace` with a
    non-empty pattern, `split` on one separator character, `join`, `title()`,
    `startswith`/`endswith`, `in` on strings and slicing `s[a:b]` with Python's
    clamping of negative and out-of-range bounds. */
module PyStrings {
  import opened Wrappers

  // ---------------------------------------------------------------------
  // Character classes (ASCII)

  /** `str.isspace()` restricted to ASCII: space, \t \n \v \f \r and the
      four separators \x1c..\x1f, which CPython's `strip()` also removes. */
  predicate IsSpace(c: char) {
    c == ' ' || c == '\t' || c == '\n' || c == '\r' || c == '\U{B}' || c == '\U{C}'
    || c == '\U{1C}' || c == '\U{1D}' || c == '\U{1E}' || c == '\U{1F}'
  }

  predicate IsUpper(c: char) { 'A' <= c <= 'Z' }
  predicate IsLower(c: char) { 'a' <= c <= 'z' }
  predicate IsLetter(c: char) { IsUpper(c) || IsLower(c) }
  predicate IsDigit(c: char) { '0' <= c <= '9' }
  predicate IsAlnum(c: char) { IsLetter(c) || IsDigit(c) }

  function ToLowerChar(c: char): (r: char)
    ensures !IsUpper(r)
    ensures IsUpper(c) ==> IsLower(r)
    ensures !IsUpper(c) ==> r == c
    ensures IsLetter(r) <==> IsLetter(c)
  {
    if IsUpper(c) then (c as int + 32) as char else c
  }

  function ToUpperChar(c: char): (r: char)
    ensures !IsLower(r)
    ensures IsLower(c) ==> IsUpper(r)
    ensures !IsLower(c) ==> r == c
    ensures IsLetter(r) <==> IsLetter(c)
  {
    if IsLower(c) then (c as int - 32) as char else c
  }

  predicate NoUpper(s: string) {
    forall i :: 0 <= i < |s| ==> !IsUpper(s[i])
  }

  predicate AllDigits(s: string) {
    forall i :: 0 <= i < |s| ==> IsDigit(s[i])
  }

  // ---------------------------------------------------------------------
  // lower / strip

  /** `s.lower()`. */
  function Lower(s: string): (r: string)
    ensures |r| == |s|
    ensures NoUpper(r)
    ensures forall i :: 0 <= i < |s| ==> r[i] == ToLowerChar(s[i])
  {
    seq(|s|, i requires 0 <= i < |s| => ToLowerChar(s[i]))
  }

  lemma LowerIdempotent(s: string)
    ensures Lower(Lower(s)) == Lower(s)
  {
  }

  lemma LowerOfNoUpper(s: string)
    requires NoUpper(s)
    ensures Lower(s) == s
  {
  }

  function LStrip(s: string): (r: string)
    ensures |r| <= |s|
    ensures r == [] || !IsSpace(r[0])
    ensures forall i :: 0 <= i < |s| - |r| ==> IsSpace(s[i])
  {
    if |s| > 0 && IsSpace(s[0]) then LStrip(s[1..]) else s
  }

  function RStrip(s: string): (r: string)
    ensures |r| <= |s|
    ensures r == [] || !IsSpace(r[|r| - 1])
    ensures forall i :: |r| <= i < |s| ==> IsSpace(s[i])
  {
    if |s| > 0 && IsSpace(s[|s| - 1]) then RStrip(s[..|s| - 1]) else s
  }

  /** `s.lstrip()` is what remains of `s` after its leading whitespace. */
  lemma {:induction false} LStripIsSuffix(s: string)
    ensures LStrip(s) == s[|s| - |LStrip(s)|..]
  {
    if |s| > 0 && IsSpace(s[0]) {
      LStripIsSuffix(s[1..]);
    }
  }

  /** `s.rstrip()` is what remains of `s` before its trailing whitespace. */
  lemma {:induction false} RStripIsPrefix(s: string)
    ensures RStrip(s) == s[..|RStrip(s)|]
  {
    if |s| > 0 && IsSpace(s[|s| - 1]) {
      RStripIsPrefix(s[..|s| - 1]);
    }
  }

  predicate Stripped(s: string) {
    s == [] || (!IsSpace(s[0]) && !IsSpace(s[|s| - 1]))
  }

  /** `s.strip()`: the longest infix without surrounding whitespace. */
  function Strip(s: string): (r: string)
  {
    RStrip(LStrip(s))
  }

  lemma StripIsInfix(s: string)
    ensures Stripped(Strip(s))
    ensures OccursAt(s, Strip(s), |s| - |LStrip(s)|)
  {
    StripKeepsFirst(s);
    StripOccurs(s);
  }

  lemma StripKeepsFirst(s: string)
    ensures Strip(s) == [] || Strip(s)[0] == LStrip(s)[0]
  {
    var l := LStrip(s);
    RStripIsPrefix(l);
    if RStrip(l) != [] {
      assert RStrip(l)[0] == l[0];
    }
  }

  lemma StripOccurs(s: string)
    ensures OccursAt(s, Strip(s), |s| - |LStrip(s)|)
  {
    LStripIsSuffix(s);
    RStripIsPrefix(LStrip(s));
    PrefixOfSuffix(s, LStrip(s), Strip(s));
  }

  /** A prefix of a suffix is an infix. */
  lemma PrefixOfSuffix(s: string, l: string, r: string)
    requires |l| <= |s| && l == s[|s| - |l|..]
    requires |r| <= |l| && r == l[..|r|]
    ensures s[|s| - |l|..|s| - |l| + |r|] == r
  {
  }

  lemma {:induction false} StripOfStripped(s: string)
    requires Stripped(s)
    ensures Strip(s) == s
  {
    assert LStrip(s) == s;
    assert RStrip(s) == s;
  }

  lemma StripIdempotent(s: string)
    ensures Strip(Strip(s)) == Strip(s)
  {
    StripIsInfix(s);
    StripOfStripped(Strip(s));
  }

  /** `s.strip() == ""`: the string is blank. */
  lemma StripEmptyIffAllSpace(s: string)
    ensures Strip(s) == [] <==> forall i :: 0 <= i < |s| ==> IsSpace(s[i])
  {
    var l := LStrip(s);
    LStripIsSuffix(s);
    if l != [] {
      assert l[0] == s[|s| - |l|];
      assert !IsSpace(l[0]);
    }
  }

  // ---------------------------------------------------------------------
  // prefix / suffix / substring

  predicate StartsWith(s: string, p: string) {
    |p| <= |s| && s[..|p|] == p
  }

  predicate EndsWith(s: string, p: string) {
    |p| <= |s| && s[|s| - |p|..] == p
  }

  /** `s.removesuffix(suffix)`. */
  function RemoveSuffix(s: string, suffix: string): (r: string)
    ensures EndsWith(s, suffix) ==> r + suffix == s
    ensures !EndsWith(s, suffix) ==> r == s
  {
    if EndsWith(s, suffix) then s[..|s| - |suffix|] else s
  }

  /** `sub` occurs in `s` at position `i`. */
  predicate OccursAt(s: string, sub: string, i: int) {
    0 <= i && i + |sub| <= |s| && s[i..i + |sub|] == sub
  }

  /** `s.find(sub)`, with `None` for -1: the first occurrence. */
  function Find(s: string, sub: string): (r: Option<nat>)
    ensures r.Some? ==> OccursAt(s, sub, r.value)
    ensures r.Some? ==> forall j :: 0 <= j < r.value ==> !OccursAt(s, sub, j)
    ensures r.None? ==> forall j :: !OccursAt(s, sub, j)
    decreases |s|
  {
    if |sub| > |s| then None
    else if s[..|sub|] == sub then Some(0)
    else
      assert !OccursAt(s, sub, 0);
      assert forall j :: 1 <= j ==> (OccursAt(s, sub, j) <==> OccursAt(s[1..], sub, j - 1)) by {
        forall j | 1 <= j ensures OccursAt(s, sub, j) <==> OccursAt(s[1..], sub, j - 1) {
          if j + |sub| <= |s| {
            var t := s[1..];
            assert forall k :: j <= k < j + |sub| ==> s[k] == t[k - 1];
            assert s[j..j + |sub|] == t[j - 1..j - 1 + |sub|];
          }
        }
      }
      match Find(s[1..], sub)
      case None => None
      case Some(k) => Some(k + 1)
  }

  /** `sub in s`. */
  predicate Contains(s: string, sub: string) {
    Find(s, sub).Some?
  }

  // ---------------------------------------------------------------------
  // replace

  /** `s.replace(pat, rep)` for a non-empty `pat`: replaces non-overlapping
      occurrences, scanning left to right. */
  function Replace(s: string, pat: string, rep: string): (r: string)
    requires |pat| > 0
    decreases |s|
  {
    if |s| < |pat| then s
    else if s[..|pat|] == pat then rep + Replace(s[|pat|..], pat, rep)
    else [s[0]] + Replace(s[1..], pat, rep)
  }

  /** With a one-character pattern, `replace(c, "")` keeps the other
      characters, in order. */
  lemma {:induction false} ReplaceCharByEmpty(s: string, c: char)
    ensures Replace(s, [c], "") == Filter(s, (x: char) => x != c)
    decreases |s|
  {
    if |s| >= 1 {
      ReplaceCharByEmpty(s[1..], c);
      FilterCons(s, (x: char) => x != c);
    }
  }

  /** A pattern whose first character does not occur in `w` matches
      nowhere inside it: replacing in `w + rest` keeps `w`. */
  lemma {:induction false} ReplaceAfterPrefix(w: string, rest: string, pat: string, rep: string)
    requires |pat| > 0 && pat[0] !in w
    ensures Replace(w + rest, pat, rep) == w + Replace(rest, pat, rep)
    decreases |w|
  {
    if w != [] {
      var s := w + rest;
      assert s[0] == w[0] != pat[0];
      if |s| < |pat| {
        assert Replace(rest, pat, rep) == rest;
      } else {
        assert s[..|pat|] != pat;
        assert s[1..] == w[1..] + rest;
        ReplaceAfterPrefix(w[1..], rest, pat, rep);
        assert Replace(s, pat, rep) == [w[0]] + (w[1..] + Replace(rest, pat, rep));
        assert w == [w[0]] + w[1..];
      }
    } else {
      assert w + rest == rest;
    }
  }

  /** An occurrence at the start is replaced. */
  lemma ReplaceAtStart(rest: string, pat: string, rep: string)
    requires |pat| > 0
    ensures Replace(pat + rest, pat, rep) == rep + Replace(rest, pat, rep)
  {
    var s := pat + rest;
    assert s[..|pat|] == pat;
    assert s[|pat|..] == rest;
  }

  // ---------------------------------------------------------------------
  // filter

  /** `[x for x in s if p(x)]`. */
  function Filter<T>(s: seq<T>, p: T -> bool): (r: seq<T>)
    ensures |r| <= |s|
    ensures forall i :: 0 <= i < |r| ==> p(r[i])
  {
    if s == [] then [] else (if p(s[0]) then [s[0]] else []) + Filter(s[1..], p)
  }

  /** The kept elements are exactly the elements of `s` satisfying `p`. */
  lemma {:induction false} FilterMembers<T>(s: seq<T>, p: T -> bool)
    ensures forall x :: x in Filter(s, p) <==> x in s && p(x)
  {
    if s != [] {
      FilterMembers(s[1..], p);
      assert s == [s[0]] + s[1..];
    }
  }

  lemma FilterCons<T>(s: seq<T>, p: T -> bool)
    requires s != []
    ensures Filter(s, p) == (if p(s[0]) then [s[0]] else []) + Filter(s[1..], p)
  {
  }

  lemma {:induction false} FilterConcat<T>(a: seq<T>, b: seq<T>, p: T -> bool)
    ensures Filter(a + b, p) == Filter(a, p) + Filter(b, p)
  {
    if a != [] {
      assert (a + b)[1..] == a[1..] + b;
      FilterConcat(a[1..], b, p);
    } else {
      assert a + b == b;
    }
  }

  lemma {:induction false} FilterAll<T>(s: seq<T>, p: T -> bool)
    requires forall i :: 0 <= i < |s| ==> p(s[i])
    ensures Filter(s, p) == s
  {
    if s != [] {
      FilterAll(s[1..], p);
    }
  }

  /** Predicates that agree on the elements keep the same elements. */
  lemma {:induction false} FilterAgree<T>(s: seq<T>, p: T -> bool, q: T -> bool)
    requires forall i :: 0 <= i < |s| ==> p(s[i]) == q(s[i])
    ensures Filter(s, p) == Filter(s, q)
  {
    if s != [] {
      FilterAgree(s[1..], p, q);
    }
  }

  /** Splitting by a predicate and by its negation loses and adds nothing. */
  lemma {:induction false} FilterMultiset<T>(s: seq<T>, p: T -> bool, q: T -> bool)
    requires forall i :: 0 <= i < |s| ==> q(s[i]) == !p(s[i])
    ensures multiset(Filter(s, p)) + multiset(Filter(s, q)) == multiset(s)
  {
    if s != [] {
      FilterMultiset(s[1..], p, q);
      assert s == [s[0]] + s[1..];
      assert multiset(s) == multiset{s[0]} + multiset(s[1..]);
    }
  }

  /** No element occurs twice. */
  predicate Distinct<T(==)>(s: seq<T>) {
    forall i, j :: 0 <= i < j < |s| ==> s[i] != s[j]
  }

  /** The lists of `ss` one after the other, as `list(chain(*ss))`. */
  function Flatten<T>(ss: seq<seq<T>>): seq<T> {
    if ss == [] then [] else ss[0] + Flatten(ss[1..])
  }

  /** Lists of one element each flatten to their elements. */
  lemma {:induction false} FlattenSingletons<T>(ss: seq<seq<T>>)
    requires forall i :: 0 <= i < |ss| ==> |ss[i]| == 1
    ensures |Flatten(ss)| == |ss|
    ensures forall i :: 0 <= i < |ss| ==> Flatten(ss)[i] == ss[i][0]
  {
    if ss != [] {
      var rest := ss[1..];
      assert forall i :: 0 <= i < |rest| ==> |rest[i]| == 1 by {
        forall i | 0 <= i < |rest| ensures |rest[i]| == 1 {
          assert rest[i] == ss[i + 1];
        }
      }
      FlattenSingletons(rest);
      assert ss[0] == [ss[0][0]];
      var f := Flatten(ss);
      assert f == [ss[0][0]] + Flatten(rest);
      forall i | 0 <= i < |ss| ensures f[i] == ss[i][0] {
        if i > 0 {
          assert f[i] == Flatten(rest)[i - 1];
          assert rest[i - 1] == ss[i];
        }
      }
    }
  }

  /** The number of times `c` occurs in `s`, `s.count(c)`. */
  function Count(s: string, c: char): nat {
    if s == [] then 0 else (if s[0] == c then 1 else 0) + Count(s[1..], c)
  }

  lemma {:induction false} CountConcat(a: string, b: string, c: char)
    ensures Count(a + b, c) == Count(a, c) + Count(b, c)
  {
    if a != [] {
      assert (a + b)[1..] == a[1..] + b;
      CountConcat(a[1..], b, c);
    } else {
      assert a + b == b;
    }
  }

  lemma {:induction false} CountAbsent(s: string, c: char)
    requires c !in s
    ensures Count(s, c) == 0
  {
    if s != [] {
      CountAbsent(s[1..], c);
    }
  }

  // ---------------------------------------------------------------------
  // split / join

  /** `sep.join(parts)`. */
  function Join(parts: seq<string>, sep: string): (r: string)
  {
    if |parts| == 0 then ""
    else if |parts| == 1 then parts[0]
    else parts[0] + sep + Join(parts[1..], sep)
  }

  function CharIndex(s: string, c: char): (r: Option<nat>)
    ensures r.Some? ==> r.value < |s| && s[r.value] == c && c !in s[..r.value]
    ensures r.None? ==> c !in s
  {
    if s == [] then None
    else if s[0] == c then Some(0)
    else match CharIndex(s[1..], c)
      case None => None
      case Some(k) => assert s[..k + 1] == [s[0]] + s[1..][..k]; Some(k + 1)
  }

  /** `s.split(c)` for a one-character separator: the maximal pieces between
      separators, including empty ones; `"".split(c) == [""]`. */
  function Split(s: string, c: char): (r: seq<string>)
    ensures |r| >= 1
    ensures forall i :: 0 <= i < |r| ==> c !in r[i]
    decreases |s|
  {
    match CharIndex(s, c)
    case None => [s]
    case Some(k) => [s[..k]] + Split(s[k + 1..], c)
  }

  /** Joining a piece in front of at least one more. */
  lemma JoinCons(head: string, rest: seq<string>, sep: string)
    requires |rest| >= 1
    ensures Join([head] + rest, sep) == head + sep + Join(rest, sep)
  {
    assert ([head] + rest)[1..] == rest;
  }

  /** Splitting and re-joining on the same separator gives the input back. */
  lemma {:induction false} JoinSplit(s: string, c: char)
    ensures Join(Split(s, c), [c]) == s
    decreases |s|
  {
    match CharIndex(s, c)
    case None =>
    case Some(k) =>
      JoinSplit(s[k + 1..], c);
      JoinCons(s[..k], Split(s[k + 1..], c), [c]);
      assert s == s[..k] + [c] + s[k + 1..];
  }

  /** `s.split(c)` has one piece more than `s` has separators. */
  lemma {:induction false} SplitCount(s: string, c: char)
    ensures |Split(s, c)| == Count(s, c) + 1
    decreases |s|
  {
    match CharIndex(s, c)
    case None =>
      CountAbsent(s, c);
    case Some(k) =>
      SplitCount(s[k + 1..], c);
      assert s == s[..k] + ([c] + s[k + 1..]);
      CountConcat(s[..k], [c] + s[k + 1..], c);
      CountConcat([c], s[k + 1..], c);
      CountAbsent(s[..k], c);
  }

  /** A separator-free string is a single piece. */
  lemma SplitWithoutSeparator(s: string, c: char)
    requires c !in s
    ensures Split(s, c) == [s]
  {
  }

  /** The first separator of `a + [c] + b` is the one after `a` when `a`
      holds none. */
  lemma {:induction false} CharIndexAfterPrefix(a: string, c: char, b: string)
    requires c !in a
    ensures CharIndex(a + [c] + b, c) == Some(|a|)
    decreases |a|
  {
    if a != [] {
      assert (a + [c] + b)[1..] == a[1..] + [c] + b;
      CharIndexAfterPrefix(a[1..], c, b);
    }
  }

  /** Joining pieces that contain no separator and splitting again gives the
      pieces back. */
  lemma {:induction false} SplitJoin(parts: seq<string>, c: char)
    requires |parts| >= 1
    requires forall i :: 0 <= i < |parts| ==> c !in parts[i]
    ensures Split(Join(parts, [c]), c) == parts
    decreases |parts|
  {
    if |parts| == 1 {
      SplitWithoutSeparator(parts[0], c);
    } else {
      var s := Join(parts, [c]);
      var tail := Join(parts[1..], [c]);
      assert s == parts[0] + [c] + tail;
      CharIndexAfterPrefix(parts[0], c, tail);
      assert s[|parts[0]| + 1..] == tail;
      assert s[..|parts[0]|] == parts[0];
      SplitJoin(parts[1..], c);
      assert parts == [parts[0]] + parts[1..];
    }
  }

  // ---------------------------------------------------------------------
  // title

  /** `s.title()` on ASCII: a letter that follows a letter is lower-cased,
      any other letter is upper-cased; other characters are kept. */
  function Title(s: string): (r: string)
    ensures |r| == |s|
  {
    TitleAfter(s, false)
  }

  function TitleAfter(s: string, prevCased: bool): (r: string)
    ensures |r| == |s|
  {
    if s == [] then []
    else
      var c := if prevCased then ToLowerChar(s[0]) else ToUpperChar(s[0]);
      [c] + TitleAfter(s[1..], IsLetter(s[0]))
  }

  /** Title-casing keeps every character that is not a letter and every
      letter's place; a letter after a letter is lower-cased, any other
      letter upper-cased. */
  lemma {:induction false} TitleAfterSpec(s: string, prevCased: bool)
    ensures var r := TitleAfter(s, prevCased);
      && (forall i :: 0 <= i < |s| && !IsLetter(s[i]) ==> r[i] == s[i])
      && (|s| > 0 && !prevCased ==> r[0] == ToUpperChar(s[0]))
      && (forall i :: 0 < i < |s| && !IsLetter(s[i - 1]) ==> r[i] == ToUpperChar(s[i]))
      && (forall i :: 0 < i < |s| && IsLetter(s[i - 1]) ==> r[i] == ToLowerChar(s[i]))
  {
    if s != [] {
      var t := s[1..];
      TitleAfterSpec(t, IsLetter(s[0]));
      var r, rest := TitleAfter(s, prevCased), TitleAfter(t, IsLetter(s[0]));
      assert r[1..] == rest;
      forall i | 1 <= i < |s|
        ensures r[i] == rest[i - 1] && s[i] == t[i - 1]
      {
      }
    }
  }

  /** Title-casing changes only the case of letters. */
  lemma LowerTitle(s: string)
    ensures Lower(Title(s)) == Lower(s)
  {
    TitleAfterSpec(s, false);
    var t := Title(s);
    forall i | 0 <= i < |s|
      ensures ToLowerChar(t[i]) == ToLowerChar(s[i])
    {
      if i > 0 && IsLetter(s[i - 1]) {
        assert t[i] == ToLowerChar(s[i]);
      } else if IsLetter(s[i]) {
        assert t[i] == ToUpperChar(s[i]);
      }
    }
  }

  /** Title-casing keeps a letter-free suffix as it is. */
  lemma TitleKeepsSuffix(s: string, suffix: string)
    requires EndsWith(s, suffix)
    requires forall i :: 0 <= i < |suffix| ==> !IsLetter(suffix[i])
    ensures EndsWith(Title(s), suffix)
  {
    TitleAfterSpec(s, false);
    var t := Title(s);
    forall i | 0 <= i < |suffix|
      ensures t[|s| - |suffix| + i] == suffix[i]
    {
      assert s[|s| - |suffix| + i] == suffix[i];
    }
  }

  // ---------------------------------------------------------------------
  // slicing

  /** A slice bound as CPython normalises it for a sequence of length `n`. */
  function SliceBound(i: int, n: nat): (r: nat)
    ensures r <= n
  {
    if i < 0 then (if i + n < 0 then 0 else i + n) else if i > n then n else i
  }

  /** `s[start:end]`. */
  function Slice<T>(s: seq<T>, start: int, end: int): (r: seq<T>)
    ensures |r| <= |s|
  {
    var a := SliceBound(start, |s|);
    var b := SliceBound(end, |s|);
    if a < b then s[a..b] else []
  }

  lemma SliceInRange<T>(s: seq<T>, start: int, end: int)
    requires 0 <= start <= end <= |s|
    ensures Slice(s, start, end) == s[start..end]
  {
  }

  /** `s[start:-1]` drops the final element. */
  lemma SliceToMinusOne<T>(s: seq<T>, start: int)
    requires 0 <= start < |s|
    ensures Slice(s, start, -1) == s[start..|s| - 1]
  {
  }

  /** Slicing two sequences of equal length with the same bounds keeps the
      lengths equal. */
  lemma SliceSameLength<T, U>(s: seq<T>, t: seq<U>, start: int, end: int)
    requires |s| == |t|
    ensures |Slice(s, start, end)| == |Slice(t, start, end)|
  {
  }
}
