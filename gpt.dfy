/** The gloss-string parser of the language-model glossing back end
    (`spoken_to_signed/text_to_gloss/gpt.py`).

    The model answers with sentences such as `"HALLO/Hallo ⌘schön(SCHÖN/schöne)"`;
    `sentence_to_glosses` turns each into (word, gloss) pairs. The request to
    the model itself is not part of this model: the sentences it returns are
    the input here. */
module Gpt {
  import opened Wrappers
  import opened PyStrings

  /** The mouthing sign U+2318 that opens `⌘mouthing(content)`. */
  const Mouthing: char := '⌘'

  // ---------------------------------------------------------------------
  // re.match(r"⌘(.*?)\((.*?)\)", item)

  /** The first ')' at or after `i`, unless a line break comes first: `.`
      does not match '\n'. */
  function CloseAt(item: string, i: nat): (r: Option<nat>)
    requires i <= |item|
    ensures r.Some? ==> i <= r.value < |item| && item[r.value] == ')'
    ensures r.Some? ==> forall k :: i <= k < r.value ==> item[k] != ')' && item[k] != '\n'
    decreases |item| - i
  {
    if i == |item| || item[i] == '\n' then None
    else if item[i] == ')' then Some(i)
    else CloseAt(item, i + 1)
  }

  /** The lazy groups, as the positions of their '(' and ')': the first
      '(' at or after `p` that has a closing ')' after it ends the
      mouthing, and the content runs to that ')'. */
  function OpenFrom(item: string, p: nat): (r: Option<(nat, nat)>)
    requires 1 <= p <= |item|
    ensures r.Some? ==>
      && p <= r.value.0 < r.value.1 < |item|
      && item[r.value.0] == '(' && item[r.value.1] == ')'
      && (forall k :: p <= k < r.value.0 ==> item[k] != '\n')
      && (forall k :: r.value.0 < k < r.value.1 ==> item[k] != ')' && item[k] != '\n')
    decreases |item| - p
  {
    if p == |item| || item[p] == '\n' then None
    else if item[p] == '(' && CloseAt(item, p + 1).Some? then
      Some((p, CloseAt(item, p + 1).value))
    else
      OpenFrom(item, p + 1)
  }

  /** `re.match(r"⌘(.*?)\((.*?)\)", item)` as its two groups: the
      mouthing and the content. The match is anchored at the start of the
      item but not at its end. */
  function MatchMouthing(item: string): (r: Option<(string, string)>)
    ensures r.Some? ==> var n := |r.value.0| + |r.value.1| + 3;
      && n <= |item|
      && item[..n] == [Mouthing] + r.value.0 + ['('] + r.value.1 + [')']
      && '\n' !in r.value.0 && '\n' !in r.value.1 && ')' !in r.value.1
  {
    if |item| > 0 && item[0] == Mouthing then
      match OpenFrom(item, 1)
      case None => None
      case Some((q, e)) =>
        MatchedPrefix(item, q, e);
        Some((item[1..q], item[q + 1..e]))
    else None
  }

  /** The groups found by `OpenFrom` read as the prefix `⌘m(c)`. */
  lemma MatchedPrefix(item: string, q: nat, e: nat)
    requires 1 <= q < e < |item| && item[0] == Mouthing
    requires item[q] == '(' && item[e] == ')'
    requires forall k :: 1 <= k < q ==> item[k] != '\n'
    requires forall k :: q < k < e ==> item[k] != ')' && item[k] != '\n'
    ensures item[..e + 1] == [Mouthing] + item[1..q] + ['('] + item[q + 1..e] + [')']
    ensures '\n' !in item[1..q] && '\n' !in item[q + 1..e] && ')' !in item[q + 1..e]
  {
    var pre := [Mouthing] + item[1..q] + ['('] + item[q + 1..e] + [')'];
    assert forall k :: 0 <= k < |pre| ==> item[k] == pre[k] by {
      forall k | 0 <= k < |pre| ensures item[k] == pre[k] {
        if 1 <= k < q {
          assert pre[k] == item[1..q][k - 1];
        } else if q + 1 <= k < e {
          assert pre[k] == item[q + 1..e][k - q - 1];
        }
      }
    }
  }

  /** The ')' that first follows `i`, with no line break before it, is
      found. */
  lemma {:induction false} CloseAtFinds(item: string, i: nat, j: nat)
    requires i <= j < |item| && item[j] == ')'
    requires forall k :: i <= k < j ==> item[k] != ')' && item[k] != '\n'
    ensures CloseAt(item, i) == Some(j)
    decreases j - i
  {
    if i < j {
      CloseAtFinds(item, i + 1, j);
    }
  }

  /** A '(' at `q` that can be closed, with no line break from `p` on, is
      found, or an earlier one. */
  lemma {:induction false} OpenFromFinds(item: string, p: nat, q: nat)
    requires 1 <= p <= q < |item| && item[q] == '('
    requires CloseAt(item, q + 1).Some?
    requires forall k :: p <= k < q ==> item[k] != '\n'
    ensures OpenFrom(item, p).Some? && OpenFrom(item, p).value.0 <= q
    decreases q - p
  {
    if p < q && !(item[p] == '(' && CloseAt(item, p + 1).Some?) {
      OpenFromFinds(item, p + 1, q);
    }
  }

  /** The prefix `⌘m(c)` read position by position. */
  lemma PrefixAt(item: string, m: string, c: string)
    requires |m| + |c| + 3 <= |item|
    requires item[..|m| + |c| + 3] == [Mouthing] + m + ['('] + c + [')']
    ensures item[0] == Mouthing && item[1 + |m|] == '(' && item[2 + |m| + |c|] == ')'
    ensures forall k :: 0 <= k < |m| ==> item[1 + k] == m[k]
    ensures forall k :: 0 <= k < |c| ==> item[2 + |m| + k] == c[k]
  {
    var pre := item[..|m| + |c| + 3];
    assert item[0] == pre[0];
    assert item[1 + |m|] == pre[1 + |m|];
    assert item[2 + |m| + |c|] == pre[2 + |m| + |c|];
    forall k | 0 <= k < |m| ensures item[1 + k] == m[k] {
      assert item[1 + k] == pre[1 + k];
    }
    forall k | 0 <= k < |c| ensures item[2 + |m| + k] == c[k] {
      assert item[2 + |m| + k] == pre[2 + |m| + k];
    }
  }

  /** Every item that starts with `⌘m(c)`, where `m` has no line break and
      `c` neither a line break nor ')', is matched, and the mouthing found
      is the shortest such. With `MatchMouthing`'s own contract this fixes
      the match: the shortest mouthing, then the content up to the first
      ')'. */
  lemma MatchMouthingComplete(item: string, m: string, c: string)
    requires |m| + |c| + 3 <= |item|
    requires item[..|m| + |c| + 3] == [Mouthing] + m + ['('] + c + [')']
    requires '\n' !in m && '\n' !in c && ')' !in c
    ensures MatchMouthing(item).Some? && |MatchMouthing(item).value.0| <= |m|
  {
    PrefixAt(item, m, c);
    CloseAtFinds(item, 2 + |m|, 2 + |m| + |c|);
    OpenFromFinds(item, 1, 1 + |m|);
  }

  /** An item that starts with `⌘m(c)`, where `m` has no '(', is matched
      with exactly `m` and `c`. */
  lemma MatchMouthingExact(item: string, m: string, c: string)
    requires |m| + |c| + 3 <= |item|
    requires item[..|m| + |c| + 3] == [Mouthing] + m + ['('] + c + [')']
    requires '(' !in m && '\n' !in m && '\n' !in c && ')' !in c
    ensures MatchMouthing(item) == Some((m, c))
  {
    PrefixAt(item, m, c);
    CloseAtFinds(item, 2 + |m|, 2 + |m| + |c|);
    OpenFromFinds(item, 1, 1 + |m|);
    var (q, e) := OpenFrom(item, 1).value;
    forall k | 1 <= k < 1 + |m| ensures item[k] != '(' {
      assert item[k] == m[k - 1];
    }
    FirstAt(item, '(', 1, q, 1 + |m|);
    assert item[1..q] == m;
    forall k | q + 1 <= k < 2 + |m| + |c| ensures item[k] != ')' {
      assert item[k] == c[k - 2 - |m|];
    }
    FirstAt(item, ')', q + 1, e, 2 + |m| + |c|);
    assert item[q + 1..e] == c;
  }

  /** Two positions that both hold the first `x` from `i` on are one. */
  lemma FirstAt(item: string, x: char, i: nat, j: nat, j': nat)
    requires i <= j < |item| && i <= j' < |item| && item[j] == x && item[j'] == x
    requires forall k :: i <= k < j ==> item[k] != x
    requires forall k :: i <= k < j' ==> item[k] != x
    ensures j == j'
  {
  }

  // ---------------------------------------------------------------------
  // sentence_to_glosses

  /** The part of an item that is glossed: the content of `⌘…(…)`, the
      mouthing being dropped, or else the whole item. */
  function Content(item: string): (r: string)
    ensures forall x :: x in r ==> x in item
  {
    var m := MatchMouthing(item);
    if m.Some? then
      assert forall x :: x in m.value.1 ==> x in item[..|m.value.0| + |m.value.1| + 3];
      m.value.1
    else item
  }

  /** One `sub_item`: with a '/' it is unpacked into (gloss, word), which
      needs exactly two pieces; without one it is both. The pair is (word,
      gloss). */
  function SubItemPair(s: string): (r: Result<(string, string)>)
    ensures r.Err? ==> r.error == ValueError
  {
    if '/' in s then
      var parts := Split(s, '/');
      if |parts| == 2 then Ok((parts[1], parts[0])) else Err(ValueError)
    else Ok((s, s))
  }

  /** A sub-item fails exactly when it holds more than one '/'; with one,
      the word is what follows it and the gloss what precedes it; with
      none, word and gloss are the sub-item. */
  lemma SubItemPairSpec(s: string)
    ensures SubItemPair(s).Err? <==> Count(s, '/') > 1
    ensures '/' !in s ==> SubItemPair(s) == Ok((s, s))
    ensures Count(s, '/') == 1 ==> |Split(s, '/')| == 2
    ensures Count(s, '/') == 1 && |Split(s, '/')| == 2 ==> var parts := Split(s, '/');
      SubItemPair(s) == Ok((parts[1], parts[0])) && s == parts[0] + "/" + parts[1]
  {
    SplitCount(s, '/');
    if '/' !in s {
      CountAbsent(s, '/');
    } else {
      JoinSplit(s, '/');
      var parts := Split(s, '/');
      if |parts| == 2 {
        assert Join(parts, "/") == parts[0] + "/" + Join(parts[1..], "/");
      }
    }
  }

  /** Gloss and word joined by '/' are read back as (word, gloss). */
  lemma SubItemPairOfSlash(gloss: string, word: string)
    requires '/' !in gloss && '/' !in word
    ensures SubItemPair(gloss + "/" + word) == Ok((word, gloss))
  {
    var s := gloss + "/" + word;
    assert s[|gloss|] == '/';
    SplitJoin([gloss, word], '/');
    assert Join([gloss, word], "/") == gloss + "/" + Join([word], "/");
    assert Split(s, '/') == [gloss, word];
  }

  /** The pairs of one item: its content split on spaces, one pair each, or
      the error of the first sub-item that fails. */
  function ItemGlosses(item: string): (r: Result<seq<(string, string)>>)
  {
    var subs := Split(Content(item), ' ');
    AllOk(seq(|subs|, i requires 0 <= i < |subs| => SubItemPair(subs[i])))
  }

  /** `list(sentence_to_glosses(sentence))`: the items of the sentence split
      on single spaces, each glossed in turn; the first failure propagates. */
  function SentenceToGlosses(sentence: string): (r: Result<seq<(string, string)>>)
  {
    var items := Split(sentence, ' ');
    var glossed := AllOk(seq(|items|, i requires 0 <= i < |items| => ItemGlosses(items[i])));
    if glossed.Err? then Err(glossed.error) else Ok(Flatten(glossed.value))
  }

  /** An item holds no space, so its content is one sub-item: the item
      gives exactly the pair of its content. */
  lemma ItemGlossesOne(item: string)
    requires ' ' !in Content(item)
    ensures ItemGlosses(item) == (match SubItemPair(Content(item))
                                  case Ok(p) => Ok([p])
                                  case Err(e) => Err(e))
  {
    var content := Content(item);
    SplitWithoutSeparator(content, ' ');
    var subs := Split(content, ' ');
    var rs := seq(|subs|, i requires 0 <= i < |subs| => SubItemPair(subs[i]));
    assert ItemGlosses(item) == AllOk(rs);
    assert rs == [SubItemPair(content)];
    assert rs[..0] == [];
    assert AllOk(rs[..0]) == Ok([]);
    match SubItemPair(content)
    case Ok(p) =>
      assert AllOk(rs) == Ok([] + [p]);
      assert [] + [p] == [p];
    case Err(e) =>
  }

  /** An item without spaces fails exactly when its content holds more
      than one '/', and otherwise gives the one pair of its content. */
  lemma ItemGlossesSpec(item: string)
    requires ' ' !in item
    ensures ItemGlosses(item).Ok? <==> Count(Content(item), '/') <= 1
    ensures ItemGlosses(item).Ok? ==> SubItemPair(Content(item)).Ok? && ItemGlosses(item).value == [SubItemPair(Content(item)).value]
    ensures ItemGlosses(item).Err? ==> ItemGlosses(item).error == ValueError
  {
    ItemGlossesOne(item);
    SubItemPairSpec(Content(item));
  }

  /** One pair per space-separated item, in order: the pair of the item's
      content. The sentence fails, with `ValueError`, exactly when the
      content of some item holds more than one '/'. */
  lemma {:induction false} SentenceToGlossesSpec(sentence: string)
    ensures var items := Split(sentence, ' ');
      SentenceToGlosses(sentence).Ok? ==>
        && |SentenceToGlosses(sentence).value| == |items|
        && forall i :: 0 <= i < |items| ==> SubItemPair(Content(items[i])) == Ok(SentenceToGlosses(sentence).value[i])
    ensures SentenceToGlosses(sentence).Err? ==> exists i :: 0 <= i < |Split(sentence, ' ')| && Count(Content(Split(sentence, ' ')[i]), '/') > 1
    ensures (exists i :: 0 <= i < |Split(sentence, ' ')| && Count(Content(Split(sentence, ' ')[i]), '/') > 1) ==> SentenceToGlosses(sentence).Err?
    ensures SentenceToGlosses(sentence).Err? ==> SentenceToGlosses(sentence).error == ValueError
  {
    var items := Split(sentence, ' ');
    var perItem := seq(|items|, i requires 0 <= i < |items| => ItemGlosses(items[i]));
    AllOkSpec(perItem);
    forall i | 0 <= i < |items|
      ensures perItem[i].Ok? <==> Count(Content(items[i]), '/') <= 1
      ensures perItem[i].Ok? ==> SubItemPair(Content(items[i])).Ok? && perItem[i].value == [SubItemPair(Content(items[i])).value]
      ensures perItem[i].Err? ==> perItem[i].error == ValueError
    {
      ItemGlossesSpec(items[i]);
    }
    if AllOk(perItem).Ok? {
      var per := AllOk(perItem).value;
      assert forall i :: 0 <= i < |per| ==> per[i] == perItem[i].value;
      assert SentenceToGlosses(sentence) == Ok(Flatten(per));
      assert forall i :: 0 <= i < |items| ==> Count(Content(items[i]), '/') <= 1;
      FlattenSingletons(per);
    } else {
      var k := AllOkErrorFrom(perItem);
      assert Count(Content(items[k]), '/') > 1;
      assert SentenceToGlosses(sentence) == Err(AllOk(perItem).error);
    }
  }

  /** The sentence the model is asked for: each pair as "GLOSS/word",
      separated by single spaces. */
  function Render(pairs: seq<(string, string)>): string {
    Join(seq(|pairs|, i requires 0 <= i < |pairs| => pairs[i].1 + "/" + pairs[i].0), " ")
  }

  /** Words and glosses that hold no space, '/' or line break, and glosses
      that do not start with '⌘'. */
  predicate Plain(pairs: seq<(string, string)>) {
    forall i :: 0 <= i < |pairs| ==>
      && ' ' !in pairs[i].0 && '/' !in pairs[i].0
      && ' ' !in pairs[i].1 && '/' !in pairs[i].1
      && (pairs[i].1 == [] || pairs[i].1[0] != Mouthing)
  }

  /** Parsing a rendered sentence gives its pairs back. */
  lemma RenderParses(pairs: seq<(string, string)>)
    requires |pairs| >= 1 && Plain(pairs)
    ensures SentenceToGlosses(Render(pairs)) == Ok(pairs)
  {
    var items := seq(|pairs|, i requires 0 <= i < |pairs| => pairs[i].1 + "/" + pairs[i].0);
    forall i | 0 <= i < |items| ensures ' ' !in items[i] {
      assert items[i] == pairs[i].1 + "/" + pairs[i].0;
    }
    SplitJoin(items, ' ');
    assert Split(Render(pairs), ' ') == items;
    forall i | 0 <= i < |items|
      ensures Content(items[i]) == items[i]
      ensures SubItemPair(Content(items[i])) == Ok(pairs[i])
    {
      var item := items[i];
      assert item[0] != Mouthing by {
        if pairs[i].1 == [] {
          assert item[0] == '/';
        } else {
          assert item[0] == pairs[i].1[0];
        }
      }
      SubItemPairOfSlash(pairs[i].1, pairs[i].0);
    }
    SentenceToGlossesSpec(Render(pairs));
    var r := SentenceToGlosses(Render(pairs));
    if r.Err? {
      var k :| 0 <= k < |items| && Count(Content(items[k]), '/') > 1;
      SubItemPairSpec(Content(items[k]));
      assert false;
    }
    assert r.value == pairs;
  }

  lemma MouthedContent(m: string, c: string)
    requires '(' !in m && '\n' !in m && '\n' !in c && ')' !in c
    ensures Content([Mouthing] + m + "(" + c + ")") == c
  {
    var item := [Mouthing] + m + "(" + c + ")";
    assert item[..|m| + |c| + 3] == [Mouthing] + m + ['('] + c + [')'];
    MatchMouthingExact(item, m, c);
  }

  /** A mouthed item `⌘m(GLOSS/word)` gives (word, GLOSS); the mouthing is
      dropped. */
  lemma MouthedItem(m: string, gloss: string, word: string)
    requires '(' !in m && '\n' !in m && ' ' !in m
    requires '/' !in gloss && ')' !in gloss && '\n' !in gloss && ' ' !in gloss
    requires '/' !in word && ')' !in word && '\n' !in word && ' ' !in word
    ensures ItemGlosses([Mouthing] + m + "(" + gloss + "/" + word + ")") == Ok([(word, gloss)])
  {
    var c := gloss + "/" + word;
    var item := [Mouthing] + m + "(" + c + ")";
    assert item == [Mouthing] + m + "(" + gloss + "/" + word + ")";
    MouthedContent(m, c);
    SubItemPairOfSlash(gloss, word);
    assert ' ' !in c;
    ItemGlossesOne(item);
  }

  // ---------------------------------------------------------------------
  // text_to_gloss

  /** The end of `text_to_gloss`: each sentence of the model's answer
      parsed into its pairs; the first sentence that fails fails all. */
  function SentencesToGlosses(sentences: seq<string>): (r: Result<seq<seq<(string, string)>>>)
  {
    AllOk(seq(|sentences|, i requires 0 <= i < |sentences| => SentenceToGlosses(sentences[i])))
  }

  /** The answer parses exactly when every sentence does, one list of pairs
      per sentence, in order. */
  lemma SentencesToGlossesSpec(sentences: seq<string>)
    ensures SentencesToGlosses(sentences).Ok? <==> forall i :: 0 <= i < |sentences| ==> SentenceToGlosses(sentences[i]).Ok?
    ensures SentencesToGlosses(sentences).Ok? ==>
      && |SentencesToGlosses(sentences).value| == |sentences|
      && forall i :: 0 <= i < |sentences| ==> Ok(SentencesToGlosses(sentences).value[i]) == SentenceToGlosses(sentences[i])
  {
    var rs := seq(|sentences|, i requires 0 <= i < |sentences| => SentenceToGlosses(sentences[i]));
    AllOkSpec(rs);
    assert forall i :: 0 <= i < |sentences| ==> rs[i] == SentenceToGlosses(sentences[i]);
  }
}
