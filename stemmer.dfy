/**
 * The suffix-stripping stemmer (stemmer.cpp). `stem_word` repeats a round
 * of four rewrites (plural endings; "ing"/"ed" with a doubled-letter rule;
 * "ly"/"ness"/"ful"; a final 'e') until a round changes nothing. Every
 * rewrite replaces the word by a shorter prefix of it, so the loop ends and
 * the result is a prefix of the input.
 *
 * One rewrite can throw: at length 3 a word that does not end in "ly" makes
 * `substr(length() - 4)` start past the end, and `std::string::substr`
 * throws `std::out_of_range`. The model returns `None` there.
 */
module Stemmer {
  import opened Common

  predicate IsAsciiLetter(c: Char8)
  {
    'a' <= c <= 'z' || 'A' <= c <= 'Z'
  }

  /** `is_vowel`: one of a, e, i, o, u in either case. */
  predicate IsVowel(c: Char8)
  {
    var l := ToLower(c);
    l == 'a' || l == 'e' || l == 'i' || l == 'o' || l == 'u'
  }

  /** `is_consonant`: an ASCII letter that is not a vowel. */
  predicate IsConsonant(c: Char8)
  {
    !IsVowel(c) && IsAsciiLetter(c)
  }

  /** Every ASCII letter is a vowel or a consonant and not both; nothing else is either; case does not matter. */
  lemma LetterClasses(c: Char8)
    ensures IsVowel(c) || IsConsonant(c) <==> IsAsciiLetter(c)
    ensures !(IsVowel(c) && IsConsonant(c))
    ensures IsVowel(c) <==> IsVowel(ToLower(c))
    ensures IsConsonant(c) <==> IsConsonant(ToLower(c))
  {
  }

  predicate EndsWith(w: Str, suffix: Str)
  {
    |w| >= |suffix| && w[|w| - |suffix|..] == suffix
  }

  /** `remove_suffix`: the word without `suffix` when it ends with it, otherwise the word itself. */
  function RemoveSuffix(word: Str, suffix: Str): (r: Str)
    ensures EndsWith(word, suffix) ==> r + suffix == word
    ensures !EndsWith(word, suffix) ==> r == word
  {
    if EndsWith(word, suffix) then word[..|word| - |suffix|] else word
  }

  /** Removing a suffix and putting it back gives back the word. */
  lemma RemoveSuffixRoundTrip(stem: Str, suffix: Str)
    ensures RemoveSuffix(stem + suffix, suffix) == stem
  {
    assert (stem + suffix)[|stem|..] == suffix;
    assert (stem + suffix)[..|stem|] == stem;
  }

  // ---------------------------------------------------------------------------
  // has_vowel_before_last_consonant

  /**
   * Scanning back from the last-but-one character and passing over anything
   * that is not a letter, the first letter met is a vowel.
   */
  predicate VowelBeforeLastConsonant(w: Str)
  {
    |w| >= 2 && exists i :: 0 <= i <= |w| - 2 && IsVowel(w[i]) && forall j :: i < j <= |w| - 2 ==> !IsAsciiLetter(w[j])
  }

  /** `has_vowel_before_last_consonant`: the backward loop with its early return and its `break`. */
  method HasVowelBeforeLastConsonant(word: Str) returns (b: bool)
    ensures b <==> VowelBeforeLastConsonant(word)
  {
    if |word| < 2 {
      return false;
    }
    var i := |word| - 2;
    while i >= 0
      invariant -1 <= i <= |word| - 2
      invariant forall j :: i < j <= |word| - 2 ==> !IsAsciiLetter(word[j])
      decreases i
    {
      if IsVowel(word[i]) {
        return true;
      }
      if IsConsonant(word[i]) {
        break;
      }
      i := i - 1;
    }
    if i >= 0 {
      forall k | 0 <= k <= |word| - 2 && IsVowel(word[k])
        ensures exists j :: k < j <= |word| - 2 && IsAsciiLetter(word[j])
      {
        LetterClasses(word[k]);
        assert k < i;
      }
    } else {
      forall k | 0 <= k <= |word| - 2
        ensures !IsVowel(word[k])
      {
        LetterClasses(word[k]);
      }
    }
    return false;
  }

  // ---------------------------------------------------------------------------
  // One round of stem_word's loop, as functions: the new word and whether it changed

  /** Plural endings: "ies" becomes "i", else "es" is dropped, else an 's' not after another 's'. */
  function StripPlural(w: Str): (Str, bool)
  {
    if |w| > 2 && w[|w| - 1] == 's' then
      if |w| > 3 && EndsWith(w, "ies") then (w[..|w| - 3] + "i", true)
      else if EndsWith(w, "es") then (w[..|w| - 2], true)
      else if EndsWith(w, "s") && w[|w| - 2] != 's' then (w[..|w| - 1], true)
      else (w, false)
    else (w, false)
  }

  /** After "ing" or "ed" is dropped: one of two equal last characters goes when a vowel comes before the last consonant. */
  function Undouble(w: Str): Str
  {
    if VowelBeforeLastConsonant(w) && |w| > 1 && w[|w| - 1] == w[|w| - 2] then w[..|w| - 1] else w
  }

  /** "ing", else "ed", from a word longer than three characters. */
  function StripVerbal(w: Str): (Str, bool)
  {
    if |w| > 3 then
      if EndsWith(w, "ing") then (Undouble(w[..|w| - 3]), true)
      else if EndsWith(w, "ed") then (Undouble(w[..|w| - 2]), true)
      else (w, false)
    else (w, false)
  }

  /** "ly", else "ness", else "ful"; `None` where the "ness" test throws `std::out_of_range`. */
  function StripAdverbial(w: Str): Option<(Str, bool)>
  {
    if |w| > 2 then
      if EndsWith(w, "ly") then Some((w[..|w| - 2], true))
      else if |w| < 4 then None
      else if EndsWith(w, "ness") then Some((w[..|w| - 4], true))
      else if EndsWith(w, "ful") then Some((w[..|w| - 3], true))
      else Some((w, false))
    else Some((w, false))
  }

  /** A final 'e' goes when a vowel comes before the last consonant of the rest. */
  function StripFinalE(w: Str): (Str, bool)
  {
    if |w| > 1 && w[|w| - 1] == 'e' && VowelBeforeLastConsonant(w[..|w| - 1]) then (w[..|w| - 1], true)
    else (w, false)
  }

  /** One iteration of the `while (changed)` loop. */
  function Round(w: Str): Option<(Str, bool)>
  {
    var (w1, c1) := StripPlural(w);
    var (w2, c2) := StripVerbal(w1);
    match StripAdverbial(w2)
    case None => None
    case Some((w3, c3)) =>
      var (w4, c4) := StripFinalE(w3);
      Some((w4, c1 || c2 || c3 || c4))
  }

  /** A rewrite step that leaves a prefix of its input, strictly shorter exactly when it reports a change. */
  predicate Shortens(w: Str, r: (Str, bool))
  {
    r.0 <= w && (r.1 <==> |r.0| < |w|)
  }

  lemma StripPluralShortens(w: Str)
    ensures Shortens(w, StripPlural(w))
  {
    if |w| > 3 && w[|w| - 1] == 's' && EndsWith(w, "ies") {
      assert w[|w| - 3] == w[|w| - 3..][0] == 'i';
      assert w[..|w| - 3] + "i" == w[..|w| - 2];
    }
  }

  lemma StripVerbalShortens(w: Str)
    ensures Shortens(w, StripVerbal(w))
  {
  }

  lemma StripAdverbialShortens(w: Str)
    requires StripAdverbial(w).Some?
    ensures Shortens(w, StripAdverbial(w).value)
  {
  }

  lemma StripFinalEShortens(w: Str)
    ensures Shortens(w, StripFinalE(w))
  {
  }

  /** A round that does not throw leaves a prefix of the word, strictly shorter exactly when it reports a change. */
  lemma RoundShortens(w: Str)
    requires Round(w).Some?
    ensures Shortens(w, Round(w).value)
  {
    var (w1, c1) := StripPlural(w);
    var (w2, c2) := StripVerbal(w1);
    var (w3, c3) := StripAdverbial(w2).value;
    StripPluralShortens(w);
    StripVerbalShortens(w1);
    StripAdverbialShortens(w2);
    StripFinalEShortens(w3);
  }

  /** The loop from word `w` on: rounds until one changes nothing, or one throws. */
  function StemLoop(w: Str): Option<Str>
    decreases |w|
  {
    match Round(w)
    case None => None
    case Some((w', changed)) =>
      if changed then
        RoundShortens(w);
        StemLoop(w')
      else Some(w)
  }

  /** `stem_word`: words shorter than three characters are returned as they are. */
  function Stem(word: Str): Option<Str>
  {
    if |word| < 3 then Some(word) else StemLoop(word)
  }

  // ---------------------------------------------------------------------------
  // What stem_word promises

  /** The loop ends on a prefix of its word on which a further round changes nothing. */
  lemma {:induction false} StemLoopResult(w: Str)
    requires StemLoop(w).Some?
    ensures StemLoop(w).value <= w
    ensures Round(StemLoop(w).value) == Some((StemLoop(w).value, false))
    decreases |w|
  {
    var (w', changed) := Round(w).value;
    RoundShortens(w);
    if changed {
      StemLoopResult(w');
    }
  }

  /**
   * A stem is a prefix of its word, and stemming it again changes nothing;
   * only words of three or more characters can fail.
   */
  lemma StemIdempotent(word: Str)
    ensures Stem(word).Some? ==> Stem(word).value <= word && Stem(Stem(word).value) == Stem(word)
    ensures Stem(word).None? ==> |word| >= 3
  {
    if |word| >= 3 && Stem(word).Some? {
      StemLoopResult(word);
    }
  }

  /**
   * A three-character word not ending in 's' reaches the "ly"/"ness" block
   * unchanged: it fails unless it ends in "ly".
   */
  lemma ThreeCharacterWords(w: Str)
    requires |w| == 3 && w[2] != 's'
    ensures Stem(w).None? <==> !EndsWith(w, "ly")
  {
    assert StripPlural(w) == (w, false);
    assert StripVerbal(w) == (w, false);
    if EndsWith(w, "ly") {
      var w' := w[..1];
      assert StripAdverbial(w) == Some((w', true));
      assert StripFinalE(w') == (w', false);
      assert Round(w) == Some((w', true));
      assert StripPlural(w') == (w', false) && StripVerbal(w') == (w', false);
      assert StripAdverbial(w') == Some((w', false));
      assert Round(w') == Some((w', false));
      assert StemLoop(w') == Some(w');
      assert StemLoop(w) == StemLoop(w');
    } else {
      assert StripAdverbial(w) == None;
    }
  }

  /** "cat" fails, and so does "cats", whose 's' is dropped first. */
  lemma CatAndCatsFail()
    ensures Stem("cat") == None
    ensures Stem("cats") == None
  {
    ThreeCharacterWords("cat");
    assert !EndsWith("cat", "ly");
    assert EndsWith("cats", "s") && !EndsWith("cats", "es") && !EndsWith("cats", "ies");
    var cats: Str := "cats";
    assert cats[..3] == "cat";
    assert StripPlural(cats) == ("cat", true);
    assert StripVerbal("cat") == ("cat", false);
    assert StripAdverbial("cat") == None;
  }

  /** Neither the plural nor the verbal rules apply to "happiness": its "s" follows an "s". */
  lemma HappinessKeptByPlural()
    ensures StripPlural("happiness") == ("happiness", false)
  {
    var w: Str := "happiness";
    assert EndsWith(w, "s") && !EndsWith(w, "es") && !EndsWith(w, "ies") && w[|w| - 2] == 's';
  }

  /** The adverbial rule strips "ness" from "happiness". */
  lemma HappinessStripsNess()
    ensures StripVerbal("happiness") == ("happiness", false)
    ensures StripAdverbial("happiness") == Some(("happi", true))
  {
    var w: Str := "happiness";
    assert !EndsWith(w, "ing") && !EndsWith(w, "ed");
    assert !EndsWith(w, "ly") && EndsWith(w, "ness");
    assert w[..5] == "happi";
  }

  /** The first round on "happiness" strips "ness". */
  lemma HappinessFirstRound()
    ensures Round("happiness") == Some(("happi", true))
  {
    HappinessKeptByPlural();
    HappinessStripsNess();
    assert StripFinalE("happi") == ("happi", false);
  }

  /** No suffix rule applies to "happi". */
  lemma HappiNoSuffix()
    ensures StripPlural("happi") == ("happi", false) && StripVerbal("happi") == ("happi", false)
    ensures StripAdverbial("happi") == Some(("happi", false))
  {
    var v: Str := "happi";
    assert v[|v| - 2..] == "pi" && v[|v| - 3..] == "ppi" && v[|v| - 4..] == "appi";
    assert !EndsWith(v, "ing") && !EndsWith(v, "ed") && !EndsWith(v, "ly") && !EndsWith(v, "ness") && !EndsWith(v, "ful");
  }

  /** No rule applies to "happi". */
  lemma HappiUnchanged()
    ensures Round("happi") == Some(("happi", false))
  {
    HappiNoSuffix();
  }

  /** "ness" is dropped and the loop stops: "happiness" stems to "happi". */
  lemma HappinessExample()
    ensures Stem("happiness") == Some("happi")
  {
    HappinessFirstRound();
    HappiUnchanged();
  }

  /** An 's' after another 's' is never dropped, nor any ending of a word ending in "ss". */
  lemma DoubleSKept(w: Str)
    requires EndsWith(w, "ss")
    ensures StripPlural(w) == (w, false)
  {
    assert w[|w| - 2] == w[|w| - 2..][0] == 's';
  }

  /**
   * The doubled-letter rule never drops a consonant: when the last two
   * characters are the same consonant, the backward scan meets that
   * consonant first and the rule does not apply.
   */
  lemma DoubledConsonantKept(w: Str)
    requires |w| > 1 && w[|w| - 1] == w[|w| - 2] && IsConsonant(w[|w| - 1])
    ensures Undouble(w) == w
  {
    LetterClasses(w[|w| - 2]);
  }

  // ---------------------------------------------------------------------------
  // The code of stem_word: the four blocks of the loop body, then the loop

  /** The plural block of the loop body. */
  method PluralBlock(w: Str) returns (w': Str, changed: bool)
    ensures (w', changed) == StripPlural(w)
  {
    w', changed := w, false;
    if |w| > 2 && w[|w| - 1] == 's' {
      if |w| > 3 && w[|w| - 3..] == "ies" {
        w' := w[..|w| - 3] + "i";
        changed := true;
      } else if |w| > 2 && w[|w| - 2..] == "es" {
        w' := w[..|w| - 2];
        changed := true;
      } else if |w| > 1 && w[|w| - 1..] == "s" && w[|w| - 2] != 's' {
        w' := w[..|w| - 1];
        changed := true;
      }
    }
  }

  /** The "ing"/"ed" block of the loop body, with its doubled-letter rule. */
  method VerbalBlock(w: Str) returns (w': Str, changed: bool)
    ensures (w', changed) == StripVerbal(w)
  {
    w', changed := w, false;
    if |w| > 3 {
      if w[|w| - 3..] == "ing" {
        w' := w[..|w| - 3];
        var v := HasVowelBeforeLastConsonant(w');
        if v {
          if |w'| > 1 && w'[|w'| - 1] == w'[|w'| - 2] {
            w' := w'[..|w'| - 1];
          }
        }
        changed := true;
      } else if w[|w| - 2..] == "ed" {
        w' := w[..|w| - 2];
        var v := HasVowelBeforeLastConsonant(w');
        if v {
          if |w'| > 1 && w'[|w'| - 1] == w'[|w'| - 2] {
            w' := w'[..|w'| - 1];
          }
        }
        changed := true;
      }
    }
  }

  /** The "ly"/"ness"/"ful" block of the loop body; `None` where it throws. */
  method AdverbialBlock(w: Str) returns (r: Option<(Str, bool)>)
    ensures r == StripAdverbial(w)
  {
    r := Some((w, false));
    if |w| > 2 {
      if w[|w| - 2..] == "ly" {
        r := Some((w[..|w| - 2], true));
      } else if |w| < 4 {
        // `substr` starting past the end of the word
        r := None;
      } else if w[|w| - 4..] == "ness" {
        r := Some((w[..|w| - 4], true));
      } else if w[|w| - 3..] == "ful" {
        r := Some((w[..|w| - 3], true));
      }
    }
  }

  /** The final-'e' block of the loop body. */
  method FinalEBlock(w: Str) returns (w': Str, changed: bool)
    ensures (w', changed) == StripFinalE(w)
  {
    w', changed := w, false;
    if |w| > 1 && w[|w| - 1] == 'e' {
      var v := HasVowelBeforeLastConsonant(w[..|w| - 1]);
      if v {
        w' := w[..|w| - 1];
        changed := true;
      }
    }
  }

  /** One pass of the `while (changed)` body: the four rule blocks in order. */
  method OneRound(w: Str) returns (r: Option<(Str, bool)>)
    ensures r == Round(w)
  {
    var w1, c1 := PluralBlock(w);
    var w2, c2 := VerbalBlock(w1);
    var adverbial := AdverbialBlock(w2);
    if adverbial.None? {
      return None;
    }
    var (w3, c3) := adverbial.value;
    var w4, c4 := FinalEBlock(w3);
    return Some((w4, c1 || c2 || c3 || c4));
  }

  /** `stem_word`: the `while (changed)` loop; `None` where it throws. */
  method StemWord(word: Str) returns (r: Option<Str>)
    ensures r == Stem(word)
  {
    if |word| < 3 {
      return Some(word);
    }
    var w: Str := word;
    var changed := true;
    while changed
      invariant changed ==> StemLoop(w) == Stem(word)
      invariant !changed ==> Some(w) == Stem(word)
      decreases |w| + (if changed then 1 else 0)
    {
      ghost var w0 := w;
      var round := OneRound(w);
      if round.None? {
        return None;
      }
      w, changed := round.value.0, round.value.1;
      RoundShortens(w0);
    }
    return Some(w);
  }
}
