/** The gloss normalisers of `gloss_normalization_helpers.py`.

    Each is a pure string transform; the regular expressions of the source
    are stated with ASCII character predicates. The ladder of normalisers is
    modelled as a constant list; nothing in the lookup applies it. */
module GlossNormalization {
  import opened Wrappers
  import opened PyStrings

  // ---------------------------------------------------------------------
  // preprocess_lower_strip

  /** `str(s).strip().lower()`. */
  function LowerStrip(s: string): (r: string)
  {
    Lower(Strip(s))
  }

  /** The result carries no surrounding whitespace and no upper-case letter. */
  lemma LowerStripShape(s: string)
    ensures Stripped(LowerStrip(s))
    ensures NoUpper(LowerStrip(s))
  {
    StripIsInfix(s);
  }

  /** Normalising twice is normalising once. */
  lemma LowerStripIdempotent(s: string)
    ensures LowerStrip(LowerStrip(s)) == LowerStrip(s)
  {
    LowerStripShape(s);
    StripOfStripped(LowerStrip(s));
    LowerOfNoUpper(LowerStrip(s));
  }

  // ---------------------------------------------------------------------
  // preprocess_rule_based

  /** Removes every '+', then one trailing "-ix" (case-sensitive). */
  function RuleBased(s: string): (r: string)
  {
    var t := Replace(s, "+", "");
    if EndsWith(t, "-ix") then t[..|t| - 3] else t
  }

  /** The '+'-free form of `s` is the result, followed by "-ix" exactly when
      that form ends with it; no '+' is left. */
  lemma RuleBasedSpec(s: string)
    ensures var f := Filter(s, (x: char) => x != '+');
      (EndsWith(f, "-ix") ==> RuleBased(s) + "-ix" == f)
      && (!EndsWith(f, "-ix") ==> RuleBased(s) == f)
    ensures '+' !in RuleBased(s)
  {
    ReplaceCharByEmpty(s, '+');
    var f := Filter(s, (x: char) => x != '+');
    assert forall i :: 0 <= i < |f| ==> f[i] != '+';
    if EndsWith(f, "-ix") {
      assert f == f[..|f| - 3] + f[|f| - 3..];
    }
  }

  /** Without a '+', the first step changes nothing. */
  lemma RemovePlusAbsent(s: string)
    requires '+' !in s
    ensures Replace(s, "+", "") == s
  {
    ReplaceCharByEmpty(s, '+');
    FilterAll(s, (x: char) => x != '+');
  }

  /** Only one "-ix" goes, and an upper-case "-IX" stays. */
  lemma RuleBasedExamples()
    ensures RuleBased("X-ix-ix") == "X-ix"
    ensures RuleBased("ICH-IX") == "ICH-IX"
  {
    RemovePlusAbsent("X-ix-ix");
    RemovePlusAbsent("ICH-IX");
    assert "X-ix-ix"[4..] == "-ix";
    assert "ICH-IX"[3..] != "-ix" by { assert "ICH-IX"[3..][1] == 'I'; }
  }

  // ---------------------------------------------------------------------
  // preprocess_spacylemma

  /** `s.replace("--", "")`. */
  function SpacyLemma(s: string): (r: string)
  {
    Replace(s, "--", "")
  }

  predicate NoDoubleDash(s: string) {
    forall i :: 0 <= i < |s| - 1 ==> !(s[i] == '-' && s[i + 1] == '-')
  }

  /** A result that starts with '-' comes from an input that does. */
  lemma {:induction false} SpacyLemmaHead(s: string)
    requires SpacyLemma(s) != [] && SpacyLemma(s)[0] == '-'
    ensures s != [] && s[0] == '-'
    decreases |s|
  {
    if |s| >= 2 && s[..2] == "--" {
      SpacyLemmaHead(s[2..]);
    }
  }

  /** Removal scans left to right without overlap, so no "--" survives. */
  lemma {:induction false} SpacyLemmaNoDoubleDash(s: string)
    ensures NoDoubleDash(SpacyLemma(s))
    decreases |s|
  {
    if |s| < 2 {
    } else if s[..2] == "--" {
      SpacyLemmaNoDoubleDash(s[2..]);
    } else {
      var rest := SpacyLemma(s[1..]);
      SpacyLemmaNoDoubleDash(s[1..]);
      assert SpacyLemma(s) == [s[0]] + rest;
      if rest != [] && rest[0] == '-' {
        SpacyLemmaHead(s[1..]);
        assert s[..2] == [s[0], s[1]];
      }
    }
  }

  /** "---" becomes "-" and "----" becomes "". */
  lemma SpacyLemmaExamples()
    ensures SpacyLemma("---") == "-"
    ensures SpacyLemma("----") == ""
    ensures SpacyLemma("A--B") == "AB"
  {
    assert "---"[..2] == "--" && "---"[2..] == "-";
    assert "----"[..2] == "--" && "----"[2..] == "--";
    assert "A--B"[1..] == "--B" && "--B"[..2] == "--" && "--B"[2..] == "B";
  }

  // ---------------------------------------------------------------------
  // preprocess_integer_with_punctuation / should_normalize_integer_token

  predicate NoAlnum(s: string) {
    forall i :: 0 <= i < |s| ==> !IsAlnum(s[i])
  }

  predicate HasDigit(s: string) {
    exists i :: 0 <= i < |s| && IsDigit(s[i])
  }

  /** `re.fullmatch(r"\d+[.,]\d+", s)`. */
  predicate IsDecimal(s: string) {
    exists k :: 0 < k < |s| - 1 && (s[k] == '.' || s[k] == ',')
      && AllDigits(s[..k]) && AllDigits(s[k + 1..])
  }

  /** `re.search(r"[A-Za-z]\d|\d[A-Za-z]", s)`. */
  predicate LetterDigitAdjacent(s: string) {
    exists i :: 0 <= i < |s| - 1
      && ((IsLetter(s[i]) && IsDigit(s[i + 1])) || (IsDigit(s[i]) && IsLetter(s[i + 1])))
  }

  /** `s` is `pre + s[i..j] + post` with a non-empty run of digits between
      two parts free of letters and digits: a full match of
      `[^A-Za-z0-9]*([0-9]+)[^A-Za-z0-9]*` whose group is `s[i..j]`. */
  predicate IntegerShape(s: string, i: int, j: int) {
    0 <= i < j <= |s| && NoAlnum(s[..i]) && AllDigits(s[i..j]) && NoAlnum(s[j..])
  }

  /** The index of the first digit at or after `k`, or `|s|`. */
  function FirstDigitFrom(s: string, k: nat): (r: nat)
    requires k <= |s|
    ensures k <= r <= |s|
    ensures forall m :: k <= m < r ==> !IsDigit(s[m])
    ensures r < |s| ==> IsDigit(s[r])
    decreases |s| - k
  {
    if k == |s| || IsDigit(s[k]) then k else FirstDigitFrom(s, k + 1)
  }

  /** The end of the run of digits starting at `k`. */
  function DigitRunEnd(s: string, k: nat): (r: nat)
    requires k <= |s|
    ensures k <= r <= |s|
    ensures forall m :: k <= m < r ==> IsDigit(s[m])
    ensures r < |s| ==> !IsDigit(s[r])
    decreases |s| - k
  {
    if k == |s| || !IsDigit(s[k]) then k else DigitRunEnd(s, k + 1)
  }

  /** The group of the full match, found by scanning: it starts at the first
      digit and runs to the end of that digit run. */
  function IntegerGroup(s: string): (r: Option<string>)
  {
    var i := FirstDigitFrom(s, 0);
    var j := DigitRunEnd(s, i);
    if i < |s| && NoAlnum(s[..i]) && NoAlnum(s[j..]) then Some(s[i..j]) else None
  }

  /** The scan finds a group exactly when the string has the shape, and the
      group is the digit run of that shape. */
  lemma IntegerGroupSound(s: string)
    requires IntegerGroup(s).Some?
    ensures exists i, j :: IntegerShape(s, i, j) && IntegerGroup(s).value == s[i..j]
  {
    var i := FirstDigitFrom(s, 0);
    var j := DigitRunEnd(s, i);
    assert IntegerShape(s, i, j);
  }

  /** The characters of a string of the integer shape, by position. */
  lemma IntegerShapeChars(s: string, i: int, j: int)
    requires IntegerShape(s, i, j)
    ensures forall m :: 0 <= m < i ==> !IsAlnum(s[m])
    ensures forall m :: i <= m < j ==> IsDigit(s[m])
    ensures forall m :: j <= m < |s| ==> !IsAlnum(s[m])
  {
    forall m | 0 <= m < i ensures !IsAlnum(s[m]) {
      assert s[..i][m] == s[m];
    }
    forall m | i <= m < j ensures IsDigit(s[m]) {
      assert s[i..j][m - i] == s[m];
    }
    forall m | j <= m < |s| ensures !IsAlnum(s[m]) {
      assert s[j..][m - j] == s[m];
    }
  }

  lemma IntegerGroupComplete(s: string, i: int, j: int)
    requires IntegerShape(s, i, j)
    ensures IntegerGroup(s) == Some(s[i..j])
  {
    IntegerShapeChars(s, i, j);
    var r := FirstDigitFrom(s, 0);
    assert IsDigit(s[i]);
    assert r <= i;
    assert IsDigit(s[r]);
    assert r == i;
    var e := DigitRunEnd(s, i);
    assert e < |s| ==> !IsDigit(s[e]);
    assert j < |s| ==> !IsDigit(s[j]);
    assert e == j;
  }

  /** A string with the integer shape is neither a decimal nor has a letter
      next to a digit: it holds no letter at all. */
  lemma IntegerShapeExcludes(s: string, i: int, j: int)
    requires IntegerShape(s, i, j)
    ensures !IsDecimal(s)
    ensures !LetterDigitAdjacent(s)
  {
    IntegerShapeChars(s, i, j);
    forall k | 0 < k < |s| - 1 && (s[k] == '.' || s[k] == ',')
      ensures !(AllDigits(s[..k]) && AllDigits(s[k + 1..]))
    {
      if k < i {
        assert s[..k][0] == s[0];
      } else {
        assert s[k + 1..][|s| - k - 2] == s[|s| - 1];
      }
    }
  }

  /** `preprocess_integer_with_punctuation(s)`. */
  function IntegerWithPunctuation(s: string): (r: string)
  {
    var t := Strip(s);
    if IsDecimal(t) then t
    else if LetterDigitAdjacent(t) then t
    else match IntegerGroup(t)
      case Some(g) => g
      case None => t
  }

  /** Decimals and letter-digit tokens come back stripped and otherwise as
      they were. */
  lemma IntegerKeepsDecimalsAndAlnum(s: string)
    requires IsDecimal(Strip(s)) || LetterDigitAdjacent(Strip(s))
    ensures IntegerWithPunctuation(s) == Strip(s)
  {
  }

  /** An integer wrapped in non-alphanumerics comes back as its digits. */
  lemma IntegerUnwraps(s: string, i: int, j: int)
    requires IntegerShape(Strip(s), i, j)
    ensures IntegerWithPunctuation(s) == Strip(s)[i..j]
  {
    IntegerShapeExcludes(Strip(s), i, j);
    IntegerGroupComplete(Strip(s), i, j);
  }

  /** Any other token comes back stripped and otherwise unchanged. */
  lemma IntegerOtherwiseStripped(s: string)
    requires forall i, j :: !IntegerShape(Strip(s), i, j)
    ensures IntegerWithPunctuation(s) == Strip(s)
  {
    if IntegerGroup(Strip(s)).Some? {
      IntegerGroupSound(Strip(s));
    }
  }

  /** `should_normalize_integer_token(s)`. */
  predicate ShouldNormalizeIntegerToken(s: string) {
    var t := Strip(s);
    if !HasDigit(t) then false
    else if IsDecimal(t) then false
    else if LetterDigitAdjacent(t) then false
    else IntegerGroup(t).Some?
  }

  /** The predicate holds exactly for tokens of the integer shape. */
  lemma ShouldNormalizeIffShape(s: string)
    ensures ShouldNormalizeIntegerToken(s) <==> exists i, j :: IntegerShape(Strip(s), i, j)
  {
    var t := Strip(s);
    if ShouldNormalizeIntegerToken(s) {
      IntegerGroupSound(t);
    }
    if exists i, j :: IntegerShape(t, i, j) {
      var i, j :| IntegerShape(t, i, j);
      IntegerShapeExcludes(t, i, j);
      IntegerGroupComplete(t, i, j);
      assert IsDigit(t[i..j][0]) && t[i..j][0] == t[i];
    }
  }

  /** When the predicate holds, the normaliser yields a non-empty run of
      digits; a token without a digit is never normalised. */
  lemma ShouldNormalizeGivesDigits(s: string)
    ensures ShouldNormalizeIntegerToken(s) ==>
      |IntegerWithPunctuation(s)| > 0 && AllDigits(IntegerWithPunctuation(s))
    ensures !HasDigit(Strip(s)) ==> !ShouldNormalizeIntegerToken(s)
  {
    if ShouldNormalizeIntegerToken(s) {
      ShouldNormalizeIffShape(s);
      var i, j :| IntegerShape(Strip(s), i, j);
      IntegerUnwraps(s, i, j);
    }
  }

  // ---------------------------------------------------------------------
  // preprocess_keep_letters_only

  /** `"".join(ch for ch in s if ch.isalpha())`. */
  function KeepLettersOnly(s: string): (r: string)
  {
    Filter(s, IsLetter)
  }

  /** The result is letters only, no longer than the input, keeps every
      letter and is a fixed point; a single character is kept exactly when
      it is a letter, which with `KeepLettersOnlyConcat` fixes the result
      character by character, in order. */
  lemma KeepLettersOnlySpec(s: string)
    ensures |s| == 1 ==> KeepLettersOnly(s) == (if IsLetter(s[0]) then s else [])
    ensures |KeepLettersOnly(s)| <= |s|
    ensures forall i :: 0 <= i < |KeepLettersOnly(s)| ==> IsLetter(KeepLettersOnly(s)[i])
    ensures forall i :: 0 <= i < |s| && IsLetter(s[i]) ==> s[i] in KeepLettersOnly(s)
    ensures KeepLettersOnly(KeepLettersOnly(s)) == KeepLettersOnly(s)
  {
    FilterAll(KeepLettersOnly(s), IsLetter);
    FilterMembers(s, IsLetter);
    if |s| == 1 {
      assert s[1..] == [];
    }
  }

  /** Dropping non-letters distributes over concatenation. */
  lemma KeepLettersOnlyConcat(a: string, b: string)
    ensures KeepLettersOnly(a + b) == KeepLettersOnly(a) + KeepLettersOnly(b)
  {
    FilterConcat(a, b, IsLetter);
  }

  // ---------------------------------------------------------------------
  // get_progressive_gloss_normalizers

  /** One rung of the ladder; `Original` stands for the `None` entry. */
  datatype Normalizer =
    | Original
    | LowerStripStep
    | RuleBasedStep
    | SpacyLemmaStep
    | IntegerStep
    | LettersOnlyStep

  const PROGRESSIVE_GLOSS_NORMALIZERS: seq<Normalizer> :=
    [Original, LowerStripStep, RuleBasedStep, SpacyLemmaStep, IntegerStep, LettersOnlyStep]

  /** The gloss a rung produces; every rung starts from the original gloss. */
  function Normalize(n: Normalizer, s: string): (r: string)
  {
    match n
    case Original => s
    case LowerStripStep => LowerStrip(s)
    case RuleBasedStep => RuleBased(s)
    case SpacyLemmaStep => SpacyLemma(s)
    case IntegerStep => IntegerWithPunctuation(s)
    case LettersOnlyStep => KeepLettersOnly(s)
  }

  /** The ladder starts with the gloss itself, lists each rung once and ends
      with the most aggressive rung, whose result is letters only. */
  lemma LadderShape(s: string)
    ensures |PROGRESSIVE_GLOSS_NORMALIZERS| == 6
    ensures Normalize(PROGRESSIVE_GLOSS_NORMALIZERS[0], s) == s
    ensures forall i, j :: 0 <= i < j < 6 ==> PROGRESSIVE_GLOSS_NORMALIZERS[i] != PROGRESSIVE_GLOSS_NORMALIZERS[j]
    ensures forall i :: 0 <= i < |Normalize(PROGRESSIVE_GLOSS_NORMALIZERS[5], s)| ==>
      IsLetter(Normalize(PROGRESSIVE_GLOSS_NORMALIZERS[5], s)[i])
  {
  }
}
