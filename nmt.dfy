/** The string handling around the neural glossing back end
    (`spoken_to_signed/text_to_gloss/nmt.py`): the tagging of the pieced
    source text, the removal of the pieces from the model's output, and the
    pairing of the best translation's glosses with absent words.

    The sentencepiece encoder and the sockeye translator are foreign models:
    they are parameters here, `Encoder` giving the pieces of a text and
    `Translator` the n-best outputs for a tagged input. */
module Nmt {
  import opened Wrappers
  import opened PyStrings

  /** The one source language with a model, and the signed language its
      model produces. */
  const German: string := "de"
  const GermanSignLanguage: string := "dgs"

  type Encoder = string -> seq<string>
  type Translator = string -> seq<string>

  /** The word-boundary marker of the output, as the source spells it: the
      two characters U+00E2 U+2013. */
  const MarkerAsWritten: string := "\U{E2}\U{2013}"

  /** The word-boundary marker sentencepiece writes, U+2581. */
  const Marker: string := "\U{2581}"

  // ---------------------------------------------------------------------
  // remove_pieces

  /** `remove_pieces` with the marker to replace: every space is dropped,
      then each marker becomes a space, then the result is stripped. */
  function RemovePiecesWith(translation: string, marker: string): string
    requires |marker| > 0
  {
    Strip(Replace(Replace(translation, " ", ""), marker, " "))
  }

  /** `remove_pieces` as written. */
  function RemovePiecesAsWritten(translation: string): string {
    RemovePiecesWith(translation, MarkerAsWritten)
  }

  /** `remove_pieces` with the marker sentencepiece writes. */
  function RemovePieces(translation: string): string {
    RemovePiecesWith(translation, Marker)
  }

  /** The result has no whitespace at either end. */
  lemma RemovePiecesStripped(translation: string, marker: string)
    requires |marker| > 0
    ensures Stripped(RemovePiecesWith(translation, marker))
  {
    StripIsInfix(Replace(Replace(translation, " ", ""), marker, " "));
  }

  /** The marker `remove_pieces` replaces: the one the source spells, or
      the one sentencepiece writes. */
  function MarkerFor(asWritten: bool): (r: string)
    ensures |r| > 0
  {
    if asWritten then MarkerAsWritten else Marker
  }

  /** `[remove_pieces(t) for t in translations]`, with the marker
      `remove_pieces` replaces. */
  function RemovePiecesAll(translations: seq<string>, marker: string): (r: seq<string>)
    requires |marker| > 0
    ensures |r| == |translations|
    ensures forall i :: 0 <= i < |r| ==> r[i] == RemovePiecesWith(translations[i], marker)
  {
    if translations == [] then []
    else [RemovePiecesWith(translations[0], marker)] + RemovePiecesAll(translations[1..], marker)
  }

  /** The text of `words` as sentencepiece renders it: each word after a
      marker. */
  function Marked(words: seq<string>, marker: string): string {
    if words == [] then "" else marker + words[0] + Marked(words[1..], marker)
  }

  /** Each word after a space. */
  function Spaced(words: seq<string>): string {
    if words == [] then "" else " " + words[0] + Spaced(words[1..])
  }

  /** Dropping the spaces of pieces joined by spaces gives the pieces run
      together. */
  lemma {:induction false} DropSpaces(pieces: seq<string>)
    requires forall i :: 0 <= i < |pieces| ==> ' ' !in pieces[i]
    ensures Replace(Join(pieces, " "), " ", "") == Flatten(pieces)
    decreases |pieces|
  {
    if |pieces| == 1 {
      ReplaceAfterPrefix(pieces[0], "", " ", "");
      assert pieces[0] + "" == pieces[0];
      assert Flatten(pieces[1..]) == [];
    } else if |pieces| > 1 {
      var tail := Join(pieces[1..], " ");
      JoinCons(pieces[0], pieces[1..], " ");
      assert [pieces[0]] + pieces[1..] == pieces;
      assert Join(pieces, " ") == pieces[0] + (" " + tail);
      ReplaceAfterPrefix(pieces[0], " " + tail, " ", "");
      ReplaceAtStart(tail, " ", "");
      DropSpaces(pieces[1..]);
    }
  }

  /** Replacing the markers of a marked text by spaces gives the spaced
      text, when no word holds the marker's first character. */
  lemma {:induction false} MarkersToSpaces(words: seq<string>, marker: string)
    requires |marker| > 0
    requires forall i :: 0 <= i < |words| ==> marker[0] !in words[i]
    ensures Replace(Marked(words, marker), marker, " ") == Spaced(words)
    decreases |words|
  {
    if words != [] {
      var rest := Marked(words[1..], marker);
      assert Marked(words, marker) == marker + (words[0] + rest);
      ReplaceAtStart(words[0] + rest, marker, " ");
      ReplaceAfterPrefix(words[0], rest, marker, " ");
      MarkersToSpaces(words[1..], marker);
    }
  }

  /** A spaced text is a space before the words joined by spaces. */
  lemma {:induction false} SpacedJoin(words: seq<string>)
    requires |words| >= 1
    ensures Spaced(words) == " " + Join(words, " ")
    decreases |words|
  {
    if |words| == 1 {
      assert Spaced(words[1..]) == "";
    } else {
      SpacedJoin(words[1..]);
      JoinCons(words[0], words[1..], " ");
      assert [words[0]] + words[1..] == words;
    }
  }

  /** Words that are non-empty and stripped join into a stripped text. */
  lemma {:induction false} JoinStripped(words: seq<string>)
    requires |words| >= 1
    requires forall i :: 0 <= i < |words| ==> words[i] != [] && Stripped(words[i])
    ensures Join(words, " ") != [] && Stripped(Join(words, " "))
    decreases |words|
  {
    if |words| > 1 {
      JoinStripped(words[1..]);
      var tail := Join(words[1..], " ");
      JoinCons(words[0], words[1..], " ");
      assert [words[0]] + words[1..] == words;
      var j := words[0] + " " + tail;
      assert j[0] == words[0][0];
      assert j[|j| - 1] == tail[|tail| - 1];
    }
  }

  /** Stripping a space in front of a stripped text gives the text. */
  lemma StripSpaceBefore(j: string)
    requires Stripped(j)
    ensures Strip(" " + j) == j
  {
    assert (" " + j)[1..] == j;
    assert LStrip(" " + j) == LStrip(j);
    StripOfStripped(j);
  }

  /** The round trip: the pieces of marked words, joined by spaces as the
      translator emits them, lose their pieces and give the words joined by
      single spaces. The words are non-empty, stripped and free of the
      marker's first character; how the pieces cut the words is free. */
  lemma RemovePiecesOfMarked(pieces: seq<string>, words: seq<string>, marker: string)
    requires |marker| > 0 && ' ' !in marker
    requires forall i :: 0 <= i < |pieces| ==> ' ' !in pieces[i]
    requires Flatten(pieces) == Marked(words, marker)
    requires |words| >= 1
    requires forall i :: 0 <= i < |words| ==> words[i] != [] && Stripped(words[i]) && marker[0] !in words[i]
    ensures RemovePiecesWith(Join(pieces, " "), marker) == Join(words, " ")
  {
    DropSpaces(pieces);
    MarkersToSpaces(words, marker);
    SpacedJoin(words);
    JoinStripped(words);
    StripSpaceBefore(Join(words, " "));
  }

  /** The output `▁HAUS ▁GEHEN` as two pieces joined by a space; its
      pieces run together are the marked glosses. */
  lemma HausGehen()
    ensures Marker + "HAUS " + Marker + "GEHEN" == Join([Marker + "HAUS", Marker + "GEHEN"], " ")
    ensures Flatten([Marker + "HAUS", Marker + "GEHEN"]) == Marker + "HAUS" + Marker + "GEHEN"
    ensures Marked(["HAUS", "GEHEN"], Marker) == Marker + "HAUS" + Marker + "GEHEN"
  {
    var a, b := Marker + "HAUS", Marker + "GEHEN";
    JoinCons(a, [b], " ");
    assert [a] + [b] == [a, b];
    assert [a, b][1..] == [b] && [b][1..] == [];
    assert Flatten([b]) == b + Flatten([b][1..]);
    assert Flatten([a, b]) == a + Flatten([b]);
    var words := ["HAUS", "GEHEN"];
    assert words[1..] == ["GEHEN"] && ["GEHEN"][1..] == [];
  }

  /** As written, the marker sentencepiece writes survives: the model's
      output `▁HAUS ▁GEHEN` keeps both markers and loses the space between
      the glosses. */
  lemma RemovePiecesAsWrittenKeepsMarker()
    ensures RemovePiecesAsWritten(Marker + "HAUS " + Marker + "GEHEN") == Marker + "HAUS" + Marker + "GEHEN"
  {
    HausGehen();
    DropSpaces([Marker + "HAUS", Marker + "GEHEN"]);
    var dropped := Marker + "HAUS" + Marker + "GEHEN";
    assert MarkerAsWritten[0] !in dropped;
    ReplaceAfterPrefix(dropped, "", MarkerAsWritten, " ");
    assert dropped + "" == dropped;
    StripOfStripped(dropped);
  }

  /** With the marker sentencepiece writes, the same output gives the two
      glosses separated by a space. */
  lemma RemovePiecesSeparatesGlosses()
    ensures RemovePieces(Marker + "HAUS " + Marker + "GEHEN") == "HAUS GEHEN"
  {
    HausGehen();
    RemovePiecesOfMarked([Marker + "HAUS", Marker + "GEHEN"], ["HAUS", "GEHEN"], Marker);
    JoinCons("HAUS", ["GEHEN"], " ");
    assert ["HAUS"] + ["GEHEN"] == ["HAUS", "GEHEN"];
  }

  // ---------------------------------------------------------------------
  // apply_pieces / add_tag_to_text

  /** `apply_pieces`: the pieces of the stripped text, joined by spaces. */
  function ApplyPieces(text: string, encode: Encoder): (r: string)
  {
    Join(encode(Strip(text)), " ")
  }

  /** `add_tag_to_text`: nothing for a blank text; otherwise the tag, then
      the stripped text's space-separated tokens. */
  function AddTagToText(text: string, tag: string): (r: string)
  {
    var stripped := Strip(text);
    if stripped == "" then "" else Join([tag] + Split(stripped, ' '), " ")
  }

  /** A blank text gives nothing; any other gives the tag, a space and the
      stripped text: splitting and re-joining on " " changes nothing. */
  lemma AddTagToTextSpec(text: string, tag: string)
    ensures Strip(text) == "" ==> AddTagToText(text, tag) == ""
    ensures Strip(text) != "" ==> AddTagToText(text, tag) == tag + " " + Strip(text)
  {
    var stripped := Strip(text);
    if stripped != "" {
      JoinCons(tag, Split(stripped, ' '), " ");
      JoinSplit(stripped, ' ');
    }
  }

  // ---------------------------------------------------------------------
  // translate

  /** The tag that selects the target language: `<2{target}>`. */
  function Tag(target: string): string {
    "<2" + target + ">"
  }

  /** The target language is read back from its tag. */
  lemma TagReadsBack(target: string)
    ensures var t := Tag(target); |t| == |target| + 3 && t[..2] == "<2" && t[|t| - 1] == '>' && t[2..|t| - 1] == target
  {
  }

  /** The dictionary `translate` returns. */
  datatype Translation = Translation(
    sourceLanguageCode: string,
    targetLanguageCode: string,
    nbestSize: int,
    text: string,
    translations: seq<string>)

  /** `translate`: only German sources have a model; the tagged pieces go to
      the translator and each of its outputs loses its pieces. `asWritten`
      picks the marker `remove_pieces` replaces. */
  function Translate(text: string, source: string, target: string, nbestSize: int,
                     encode: Encoder, translator: Translator, asWritten: bool): (r: Result<Translation>)
    ensures source != German <==> r == Err(NotImplementedError)
    ensures r.Ok? ==>
      && r.value.text == text && r.value.sourceLanguageCode == source
      && r.value.targetLanguageCode == target && r.value.nbestSize == nbestSize
  {
    if source != German then Err(NotImplementedError)
    else
      var outputs := translator(AddTagToText(ApplyPieces(text, encode), Tag(target)));
      Ok(Translation(source, target, nbestSize, text, RemovePiecesAll(outputs, MarkerFor(asWritten))))
  }

  /** What the translator is given, for a German text whose pieces are not
      blank: the target's tag, a space and the pieces joined by spaces; and
      what comes back is its outputs without pieces, one for one. */
  lemma TranslateSpec(text: string, target: string, nbestSize: int, encode: Encoder, translator: Translator, asWritten: bool)
    requires Stripped(ApplyPieces(text, encode)) && ApplyPieces(text, encode) != ""
    ensures var input := Tag(target) + " " + Join(encode(Strip(text)), " ");
      var r := Translate(text, German, target, nbestSize, encode, translator, asWritten);
      && r.Ok?
      && |r.value.translations| == |translator(input)|
      && forall i :: 0 <= i < |translator(input)| ==>
           r.value.translations[i] == RemovePiecesWith(translator(input)[i], MarkerFor(asWritten))
  {
    var pieced := ApplyPieces(text, encode);
    StripOfStripped(pieced);
    AddTagToTextSpec(pieced, Tag(target));
  }

  // ---------------------------------------------------------------------
  // text_to_gloss

  /** `text_to_gloss`: the best translation's glosses, split on single
      spaces, each paired with no word; one sentence. Only German has a
      model, and an empty n-best list has no best translation. `asWritten`
      picks the marker `remove_pieces` replaces. */
  function TextToGloss(text: string, language: string, nbestSize: int,
                       encode: Encoder, translator: Translator, asWritten: bool): (r: Result<seq<seq<(Option<string>, string)>>>)
  {
    if language != German then Err(NotImplementedError)
    else
      var translated :- Translate(text, German, GermanSignLanguage, nbestSize, encode, translator, asWritten);
      if |translated.translations| == 0 then Err(IndexError)
      else
        var glosses := Split(translated.translations[0], ' ');
        Ok([seq(|glosses|, i requires 0 <= i < |glosses| => (None, glosses[i]))])
  }

  /** Languages other than German raise; otherwise there is one sentence
      with one pair per space-separated gloss of the best translation, no
      word in any pair, and the glosses joined by spaces are that
      translation. */
  lemma TextToGlossSpec(text: string, language: string, nbestSize: int, encode: Encoder, translator: Translator, asWritten: bool)
    ensures language != German ==> TextToGloss(text, language, nbestSize, encode, translator, asWritten) == Err(NotImplementedError)
    ensures var r := TextToGloss(text, language, nbestSize, encode, translator, asWritten);
      r.Ok? ==>
        var best := Translate(text, German, GermanSignLanguage, nbestSize, encode, translator, asWritten).value.translations[0];
        && |r.value| == 1
        && |r.value[0]| == |Split(best, ' ')|
        && (forall i :: 0 <= i < |r.value[0]| ==> r.value[0][i].0 == None)
        && Join(seq(|r.value[0]|, i requires 0 <= i < |r.value[0]| => r.value[0][i].1), " ") == best
  {
    var r := TextToGloss(text, language, nbestSize, encode, translator, asWritten);
    if r.Ok? {
      var best := Translate(text, German, GermanSignLanguage, nbestSize, encode, translator, asWritten).value.translations[0];
      var glosses := Split(best, ' ');
      assert seq(|r.value[0]|, i requires 0 <= i < |r.value[0]| => r.value[0][i].1) == glosses;
      JoinSplit(best, ' ');
    }
  }

  /** End to end, with the marker sentencepiece writes: when the best
      output is the pieces of marked glosses, the glosses come back one per
      pair, in order. */
  lemma TextToGlossOfMarked(text: string, nbestSize: int, encode: Encoder, translator: Translator,
                            pieces: seq<string>, glosses: seq<string>)
    requires |translator(AddTagToText(ApplyPieces(text, encode), Tag(GermanSignLanguage)))| >= 1
    requires translator(AddTagToText(ApplyPieces(text, encode), Tag(GermanSignLanguage)))[0] == Join(pieces, " ")
    requires forall i :: 0 <= i < |pieces| ==> ' ' !in pieces[i]
    requires Flatten(pieces) == Marked(glosses, Marker)
    requires |glosses| >= 1
    requires forall i :: 0 <= i < |glosses| ==>
      glosses[i] != [] && Stripped(glosses[i]) && Marker[0] !in glosses[i] && ' ' !in glosses[i]
    ensures TextToGloss(text, German, nbestSize, encode, translator, false)
      == Ok([seq(|glosses|, i requires 0 <= i < |glosses| => (None, glosses[i]))])
  {
    RemovePiecesOfMarked(pieces, glosses, Marker);
    SplitJoin(glosses, ' ');
  }

  /** A character in neither the marker nor any word is not in the marked
      text. */
  lemma {:induction false} MarkedFree(words: seq<string>, marker: string, c: char)
    requires c !in marker
    requires forall i :: 0 <= i < |words| ==> c !in words[i]
    ensures c !in Marked(words, marker)
    decreases |words|
  {
    if words != [] {
      MarkedFree(words[1..], marker, c);
    }
  }

  /** A marked text starts with the marker and ends with the last word's
      last character. */
  lemma {:induction false} MarkedEnds(words: seq<string>, marker: string)
    requires |marker| > 0 && |words| >= 1 && words[|words| - 1] != []
    ensures |Marked(words, marker)| > 0 && Marked(words, marker)[0] == marker[0]
    ensures Marked(words, marker)[|Marked(words, marker)| - 1] == words[|words| - 1][|words[|words| - 1]| - 1]
    decreases |words|
  {
    if |words| > 1 {
      MarkedEnds(words[1..], marker);
    } else {
      assert Marked(words[1..], marker) == "";
    }
  }

  /** A marked text of non-empty stripped words is stripped. */
  lemma MarkedStripped(words: seq<string>, marker: string)
    requires |marker| > 0 && !IsSpace(marker[0]) && |words| >= 1
    requires forall i :: 0 <= i < |words| ==> words[i] != [] && Stripped(words[i])
    ensures Stripped(Marked(words, marker))
  {
    MarkedEnds(words, marker);
    var last := words[|words| - 1];
    assert Stripped(last);
  }

  /** A text without the pattern's first character is left by `Replace`. */
  lemma ReplaceAbsent(m: string, pat: string, rep: string)
    requires |pat| > 0 && pat[0] !in m
    ensures Replace(m, pat, rep) == m
  {
    ReplaceAfterPrefix(m, "", pat, rep);
    assert m + "" == m;
  }

  /** As written, removing the pieces of marked words keeps the markers
      and only drops the spaces between the pieces. */
  lemma RemovePiecesAsWrittenOfMarked(pieces: seq<string>, words: seq<string>)
    requires forall i :: 0 <= i < |pieces| ==> ' ' !in pieces[i]
    requires Flatten(pieces) == Marked(words, Marker)
    requires |words| >= 1
    requires forall i :: 0 <= i < |words| ==>
      words[i] != [] && Stripped(words[i]) && MarkerAsWritten[0] !in words[i]
    ensures RemovePiecesAsWritten(Join(pieces, " ")) == Marked(words, Marker)
  {
    var m := Marked(words, Marker);
    var dropped := Replace(Join(pieces, " "), " ", "");
    assert dropped == m by {
      DropSpaces(pieces);
    }
    assert Replace(m, MarkerAsWritten, " ") == m by {
      MarkedFree(words, Marker, MarkerAsWritten[0]);
      ReplaceAbsent(m, MarkerAsWritten, " ");
    }
    assert Strip(m) == m by {
      MarkedStripped(words, Marker);
      StripOfStripped(m);
    }
  }

  /** End to end, as written: the same best output keeps its markers, loses
      the spaces between its pieces, and comes back as one gloss, the
      marked glosses run together. */
  lemma TextToGlossOfMarkedAsWritten(text: string, nbestSize: int, encode: Encoder, translator: Translator,
                                     pieces: seq<string>, glosses: seq<string>)
    requires |translator(AddTagToText(ApplyPieces(text, encode), Tag(GermanSignLanguage)))| >= 1
    requires translator(AddTagToText(ApplyPieces(text, encode), Tag(GermanSignLanguage)))[0] == Join(pieces, " ")
    requires forall i :: 0 <= i < |pieces| ==> ' ' !in pieces[i]
    requires Flatten(pieces) == Marked(glosses, Marker)
    requires |glosses| >= 1
    requires forall i :: 0 <= i < |glosses| ==>
      glosses[i] != [] && Stripped(glosses[i]) && MarkerAsWritten[0] !in glosses[i] && ' ' !in glosses[i]
    ensures TextToGloss(text, German, nbestSize, encode, translator, true)
      == Ok([[(None, Marked(glosses, Marker))]])
  {
    var m := Marked(glosses, Marker);
    RemovePiecesAsWrittenOfMarked(pieces, glosses);
    MarkedFree(glosses, Marker, ' ');
    TextToGlossOneGloss(text, nbestSize, encode, translator, true, m);
  }

  /** A best translation without a space is one gloss. */
  lemma TextToGlossOneGloss(text: string, nbestSize: int, encode: Encoder, translator: Translator, asWritten: bool, best: string)
    requires var t := Translate(text, German, GermanSignLanguage, nbestSize, encode, translator, asWritten);
      t.Ok? && |t.value.translations| >= 1 && t.value.translations[0] == best
    requires ' ' !in best
    ensures TextToGloss(text, German, nbestSize, encode, translator, asWritten) == Ok([[(None, best)]])
  {
    var gs := Split(best, ' ');
    SplitWithoutSeparator(best, ' ');
    var one: seq<(Option<string>, string)> := seq(|gs|, i requires 0 <= i < |gs| => (None, gs[i]));
    assert one == [(None, best)];
  }
}
