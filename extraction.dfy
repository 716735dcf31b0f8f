/**
 * The two extractions from an item's CSV export: the nutrient table
 * (getNutrientCsv) and the ingredient list (getIngredientsArray), each built
 * from a greedy match, a global replace, trim and, for the ingredients, a
 * bracket clean-up and a split at commas.
 */
module Extraction {
  import opened Wrappers
  import opened Text

  // ---------------------------------------------------------------------------
  // getNutrientCsv

  /** NUTRIENT_PATTERN is `NutrientOpen[^]+NutrientClose`. */
  const NutrientOpen: string := "Nutrient,Unit"
  const NutrientClose: string := "Other"

  /** The alternatives of NUTRIENT_SUBTRACTION_PATTERN, in the order the engine tries them. */
  const NutrientLabels: seq<string> := ["Proximates\n", "Minerals\n", "Vitamins\n", "Lipids\n", "Amino Acids\n", "Other\n", "Ingredients"]

  /**
   * getNutrientCsv: the greedy match from the first "Nutrient,Unit" to the last
   * "Other", with the section labels deleted and the result trimmed; None
   * (the source's `undefined`) when there is no such match.
   */
  function NutrientCsv(csv: string): (r: Option<string>)
    ensures r.None? <==> !SpanExists(csv, NutrientOpen, NutrientClose, 0)
    ensures r.Some? ==> |r.value| <= |csv|
  {
    match MatchedText(csv, NutrientOpen, NutrientClose)
    case None => None
    case Some(block) => Some(Trim(DeleteAll(block, NutrientLabels)))
  }

  /** Every section label holds a line feed, if at all, only at its end. */
  lemma LabelsNewlineAtEnd()
    ensures forall b | 0 <= b < |NutrientLabels| :: OnlyAtEnd(NutrientLabels[b], '\n')
  {
    assert OnlyAtEnd("Proximates\n", '\n');
    assert OnlyAtEnd("Minerals\n", '\n');
    assert OnlyAtEnd("Vitamins\n", '\n');
    assert OnlyAtEnd("Lipids\n", '\n');
    assert OnlyAtEnd("Amino Acids\n", '\n');
    assert OnlyAtEnd("Other\n", '\n');
    assert OnlyAtEnd("Ingredients", '\n');
  }

  /** "Ingredients" holds none of the labels' first characters after its own first one. */
  lemma IngredientsLabelFirstChars()
    ensures forall b, d | 0 <= b < |NutrientLabels| && 1 <= d < 11 :: "Ingredients"[d] != NutrientLabels[b][0]
    ensures forall b | 0 <= b < 6 :: NutrientLabels[b][0] != 'I'
  {
    assert forall d | 1 <= d < 11 :: "Ingredients"[d] !in "PMVLAOI";
  }

  /** No two section labels can overlap in any text. */
  lemma NutrientLabelsNonOverlapping()
    ensures NonOverlapping(NutrientLabels)
  {
    forall a, b | 0 <= a < |NutrientLabels| && 0 <= b < |NutrientLabels|
      ensures NoSuffixIsPrefix(NutrientLabels[a], NutrientLabels[b], 0)
    {
      if a < 6 {
        assert NutrientLabels[a][|NutrientLabels[a]| - 1] == '\n';
        LabelsNewlineAtEnd();
        LastCharOnlyAtEnd(NutrientLabels[a], NutrientLabels[b]);
      } else {
        IngredientsLabelFirstChars();
        FirstCharOnlyAtStart(NutrientLabels[a], NutrientLabels[b]);
      }
      SuffixEndsDifferSuffices(NutrientLabels[a], NutrientLabels[b], 0);
    }
  }

  /** No section label starts with a character of "Nutrient,Unit" or ends with one of "Other". */
  lemma NutrientLabelsApart()
    ensures EndsApart(NutrientLabels, NutrientOpen, NutrientClose)
  {
  }

  /** "Nutrient,Unit" starts, and "Other" ends, with a character that is not white space. */
  lemma NutrientEndsSolid()
    ensures NutrientOpen != [] && !IsWhitespace(NutrientOpen[0])
    ensures NutrientClose != [] && !IsWhitespace(NutrientClose[|NutrientClose| - 1])
  {
    assert NutrientOpen[0] == 'N' && NutrientClose[|NutrientClose| - 1] == 'r';
  }

  /** The nutrient table is the matched block, cleaned up. */
  lemma NutrientCsvOfBlock(csv: string)
    ensures MatchedText(csv, NutrientOpen, NutrientClose).Some? ==>
      NutrientCsv(csv) == Some(Trim(DeleteAll(MatchedText(csv, NutrientOpen, NutrientClose).value, NutrientLabels)))
  {
  }

  /**
   * The cleaned-up text of a matched block: it is exactly the block with
   * every occurrence of a section label deleted and nothing else changed, it
   * keeps the block's leading "Nutrient,Unit" and trailing "Other", and the
   * trim has nothing left to remove.
   */
  lemma NutrientBlockShape(block: string)
    requires |block| >= |NutrientOpen| + |NutrientClose|
    requires OccursAt(block, 0, NutrientOpen) && OccursAt(block, |block| - |NutrientClose|, NutrientClose)
    ensures Trim(DeleteAll(block, NutrientLabels)) == Uncovered(block, NutrientLabels, 0, |block|)
    ensures Trim(DeleteAll(block, NutrientLabels))
         == NutrientOpen + Uncovered(block, NutrientLabels, |NutrientOpen|, |block| - |NutrientClose|) + NutrientClose
  {
    NutrientLabelsNonOverlapping();
    NutrientLabelsApart();
    NutrientEndsSolid();
    DeleteAllThenTrim(block, NutrientLabels, NutrientOpen, NutrientClose);
  }

  lemma NutrientBlockEnds(block: string)
    requires |block| >= |NutrientOpen| + |NutrientClose|
    requires OccursAt(block, 0, NutrientOpen) && OccursAt(block, |block| - |NutrientClose|, NutrientClose)
    ensures var r := Trim(DeleteAll(block, NutrientLabels));
      && |r| >= |NutrientOpen| + |NutrientClose|
      && OccursAt(r, 0, NutrientOpen) && OccursAt(r, |r| - |NutrientClose|, NutrientClose)
  {
    NutrientBlockShape(block);
    ConcatEnds(NutrientOpen, Uncovered(block, NutrientLabels, |NutrientOpen|, |block| - |NutrientClose|), NutrientClose);
  }

  /**
   * A nutrient table, once found, starts with "Nutrient,Unit" and ends with
   * "Other"; in particular it is never empty, so the source's truthiness test
   * on it is the same as its presence.
   */
  lemma NutrientCsvEnds(csv: string)
    requires NutrientCsv(csv).Some?
    ensures var r := NutrientCsv(csv).value;
      && |r| >= |NutrientOpen| + |NutrientClose|
      && OccursAt(r, 0, NutrientOpen) && OccursAt(r, |r| - |NutrientClose|, NutrientClose)
  {
    var block := MatchedText(csv, NutrientOpen, NutrientClose).value;
    assert |block| >= |NutrientOpen| + |NutrientClose| && OccursAt(block, 0, NutrientOpen)
      && OccursAt(block, |block| - |NutrientClose|, NutrientClose);
    NutrientBlockEnds(block);
    NutrientCsvOfBlock(csv);
  }

  // ---------------------------------------------------------------------------
  // getIngredientsArray

  /** INGREDIENTS_PATTERN is `IngredientsOpen[^]+IngredientsClose`. */
  const IngredientsOpen: string := "Ingredients\n\""
  const IngredientsClose: string := "\""

  /** The alternatives of INGREDIENTS_SUBTRACTION_PATTERN: the header and a full stop before a quote. */
  const IngredientArtifacts: seq<string> := ["Ingredients\n\"", ".\""]

  /**
   * The ingredient text of getIngredientsArray before the split: the greedy
   * match from the first `Ingredients` header line to the last double quote,
   * with the header and every `."` deleted, trimmed, and rid of brackets.
   */
  function IngredientsText(csv: string): (r: Option<string>)
    ensures r.None? <==> !SpanExists(csv, IngredientsOpen, IngredientsClose, 0)
    ensures r.Some? ==> NoBrackets(r.value) && |r.value| <= |csv|
  {
    match MatchedText(csv, IngredientsOpen, IngredientsClose)
    case None => None
    case Some(block) => Some(StripBrackets(Trim(DeleteAll(block, IngredientArtifacts))))
  }

  /**
   * getIngredientsArray: the ingredient text split at every comma and the one
   * white-space character after it; None (the source's `null`) when the
   * export has no ingredients block. The list is never empty, and no
   * ingredient holds a comma or a bracket.
   */
  function IngredientsArray(csv: string): (r: Option<seq<string>>)
    ensures r.None? <==> !SpanExists(csv, IngredientsOpen, IngredientsClose, 0)
    ensures r.Some? ==> |r.value| >= 1
    ensures r.Some? ==> forall i :: 0 <= i < |r.value| ==> NoComma(r.value[i]) && NoBrackets(r.value[i])
  {
    match IngredientsText(csv)
    case None => None
    case Some(t) =>
      var parts := Split(t);
      assert forall i :: 0 <= i < |parts| ==> NoBrackets(parts[i]) by {
        forall i, k | 0 <= i < |parts| && 0 <= k < |parts[i]| ensures !IsBracket(parts[i][k]) {
          var c := parts[i][k];
          assert c in parts[i];
          assert c in t;
          var j :| 0 <= j < |t| && t[j] == c;
        }
      }
      Some(parts)
  }

  /**
   * The ingredients are the ingredient text cut at its commas, in text order:
   * joined with bare commas they give the text less the one white-space
   * character after each comma, and there is one more of them than commas.
   */
  lemma IngredientsInOrder(csv: string)
    requires IngredientsText(csv).Some?
    ensures IngredientsArray(csv).Some?
    ensures Join(IngredientsArray(csv).value, ",") == DropSpaceAfterComma(IngredientsText(csv).value)
    ensures |IngredientsArray(csv).value| == multiset(IngredientsText(csv).value)[','] + 1
  {
    SplitDropsSpaceAfterComma(IngredientsText(csv).value);
    SplitCount(IngredientsText(csv).value);
  }

  /** When each comma of the text is followed by one space, joining the ingredients with ", " gives the text back. */
  lemma IngredientsRejoined(csv: string)
    requires IngredientsText(csv).Some? && CommaSpaced(IngredientsText(csv).value)
    ensures IngredientsArray(csv).Some? && Join(IngredientsArray(csv).value, ", ") == IngredientsText(csv).value
  {
    JoinSplit(IngredientsText(csv).value);
  }

  /** An ingredient text without a comma is a single ingredient. */
  lemma SingleIngredient(csv: string)
    requires IngredientsText(csv).Some? && NoComma(IngredientsText(csv).value)
    ensures IngredientsArray(csv) == Some([IngredientsText(csv).value])
  {
    SplitWithoutComma(IngredientsText(csv).value);
  }

  lemma IngredientArtifactsNonOverlapping()
    ensures NonOverlapping(IngredientArtifacts)
  {
    assert OnlyAtEnd(IngredientArtifacts[0], '"') && OnlyAtEnd(IngredientArtifacts[1], '"');
    forall a, b | 0 <= a < |IngredientArtifacts| && 0 <= b < |IngredientArtifacts|
      ensures NoSuffixIsPrefix(IngredientArtifacts[a], IngredientArtifacts[b], 0)
    {
      assert IngredientArtifacts[a][|IngredientArtifacts[a]| - 1] == '"';
      LastCharOnlyAtEnd(IngredientArtifacts[a], IngredientArtifacts[b]);
      SuffixEndsDifferSuffices(IngredientArtifacts[a], IngredientArtifacts[b], 0);
    }
  }

  /**
   * Deleting the artifacts from a matched ingredients block removes its
   * header and then exactly the characters that some `."` or further header
   * covers.
   */
  lemma IngredientsBlockShape(block: string)
    requires |block| >= |IngredientsOpen| && OccursAt(block, 0, IngredientsOpen)
    ensures DeleteAll(block, IngredientArtifacts) == Uncovered(block, IngredientArtifacts, |IngredientsOpen|, |block|)
  {
    IngredientArtifactsNonOverlapping();
    DeleteAllUncovered(block, IngredientArtifacts);
    forall t | 0 <= t < |IngredientsOpen| ensures Covered(block, IngredientArtifacts, t) {
      assert OccursAt(block, 0, IngredientArtifacts[0]);
    }
    UncoveredSkip(block, IngredientArtifacts, 0, |IngredientsOpen|);
  }

  /** The ingredient text is the matched block past its header, with the artifacts deleted, trimmed and rid of brackets. */
  lemma IngredientsTextOfBlock(csv: string)
    requires IngredientsText(csv).Some?
    ensures var block := MatchedText(csv, IngredientsOpen, IngredientsClose).value;
      IngredientsText(csv).value
        == StripBrackets(Trim(Uncovered(block, IngredientArtifacts, |IngredientsOpen|, |block|)))
  {
    IngredientsBlockShape(MatchedText(csv, IngredientsOpen, IngredientsClose).value);
  }

  /** A label with ingredients in brackets and a closing full stop. */
  const ExampleLabel := "Ingredients\n\"WATER, SUGAR (CANE).\""

  /** The ingredients match of the example is the whole label. */
  lemma ExampleMatch()
    ensures MatchedText(ExampleLabel, IngredientsOpen, IngredientsClose) == Some(ExampleLabel)
  {
    var csv := ExampleLabel;
    assert |csv| == 34;
    assert OccursAt(csv, 0, IngredientsOpen);
    assert !OccursAt(csv, 34, IngredientsClose) && OccursAt(csv, 33, IngredientsClose);
    assert LastOccurrenceDownFrom(csv, IngredientsClose, 14, 33) == Some(33);
    assert LastOccurrenceDownFrom(csv, IngredientsClose, 14, 34) == Some(33);
    assert GreedySpanFrom(csv, IngredientsOpen, IngredientsClose, 0) == Some((0, 34));
    assert csv[0..34] == csv;
  }

  /** Neither artifact can occur in a text that holds no `I` and no `.`. */
  lemma NoArtifactIn(w: string)
    requires forall k :: 0 <= k < |w| ==> w[k] != 'I' && w[k] != '.'
    ensures forall t, m :: 0 <= m < |IngredientArtifacts| ==> !OccursAt(w, t, IngredientArtifacts[m])
  {
    forall t, m | 0 <= m < |IngredientArtifacts| ensures !OccursAt(w, t, IngredientArtifacts[m]) {
      if 0 <= t < |w| {
        FirstCharMismatch(w, t, IngredientArtifacts[m]);
      }
    }
  }

  /** A full stop occurs in the artifacts at most as their first character. */
  lemma ArtifactsDotFirst()
    ensures forall m, d :: 0 <= m < |IngredientArtifacts| && 1 <= d < |IngredientArtifacts[m]| ==> IngredientArtifacts[m][d] != '.'
  {
    assert forall d | 1 <= d < |IngredientArtifacts[0]| :: IngredientArtifacts[0][d] in "ngredients\n\"" && '.' !in "ngredients\n\"";
  }

  /** A label `Ingredients\n"` + w + `."` loses its header and its closing `."`, when `w` holds neither artifact. */
  lemma DeleteWrapped(w: string)
    requires forall t, m :: 0 <= m < |IngredientArtifacts| ==> !OccursAt(w, t, IngredientArtifacts[m])
    ensures DeleteAll(IngredientsOpen + w + ".\"", IngredientArtifacts) == w
  {
    var csv := IngredientsOpen + w + ".\"";
    var n, e := |IngredientsOpen|, |IngredientsOpen| + |w|;
    assert csv[n..e] == w;
    assert csv[e] == '.' && csv[e + 1] == '"';
    ArtifactsDotFirst();
    forall t, m | n <= t < e && 0 <= m < |IngredientArtifacts| ensures !OccursAt(csv, t, IngredientArtifacts[m]) {
      var pat := IngredientArtifacts[m];
      if t + |pat| <= e {
        NotInSlice(csv, n, e, t, pat);
      } else {
        CharMismatch(csv, t, pat, e - t);
      }
    }
    DeleteFromPlain(csv, IngredientArtifacts, n, e);
    assert !OccursAt(csv, e, IngredientArtifacts[0]) by { FirstCharMismatch(csv, e, IngredientArtifacts[0]); }
    assert OccursAt(csv, e, IngredientArtifacts[1]);
    assert DeleteFrom(csv, IngredientArtifacts, e) == [];
    assert OccursAt(csv, 0, IngredientArtifacts[0]);
  }

  /** Removing the brackets of the example. */
  lemma ExampleStrip()
    ensures StripBrackets("WATER, SUGAR (CANE)") == "WATER, SUGAR CANE"
  {
    var w1, w2 := "WATER, SUGAR ", "CANE";
    assert NoBrackets(w1) && NoBrackets(w2);
    StripBracketPair(w1, '(', w2, ')');
    assert "WATER, SUGAR (CANE)" == w1 + ['('] + w2 + [')'];
    assert w1 + w2 == "WATER, SUGAR CANE";
  }

  /** The words of the example are already trimmed. */
  lemma ExampleTrim()
    ensures Trim("WATER, SUGAR (CANE)") == "WATER, SUGAR (CANE)"
  {
    var w := "WATER, SUGAR (CANE)";
    assert w[0] == 'W' && w[|w| - 1] == ')';
    TrimKeepsTrimmed(w);
  }

  /** The ingredient text of the example: header, full stop and brackets gone. */
  lemma ExampleText()
    ensures IngredientsText(ExampleLabel) == Some("WATER, SUGAR CANE")
  {
    var words := "WATER, SUGAR (CANE)";
    ExampleMatch();
    assert ExampleLabel == IngredientsOpen + words + ".\"";
    assert forall k :: 0 <= k < |words| ==> words[k] != 'I' && words[k] != '.';
    NoArtifactIn(words);
    DeleteWrapped(words);
    ExampleTrim();
    ExampleStrip();
  }

  /** The split of the example text at its one `, `. */
  lemma ExampleSplit()
    ensures Split("WATER, SUGAR CANE") == ["WATER", "SUGAR CANE"]
  {
    var xs := ["WATER", "SUGAR CANE"];
    assert NoComma(xs[0]) && NoComma(xs[1]);
    assert Join(xs, ", ") == "WATER, SUGAR CANE";
    SplitJoin(xs);
  }

  /** The example gives two ingredients, brackets gone and full stop gone. */
  lemma IngredientsExample()
    ensures IngredientsArray(ExampleLabel) == Some(["WATER", "SUGAR CANE"])
  {
    ExampleText();
    ExampleSplit();
  }

  /**
   * A label `Ingredients\n"` + w + `"` keeps its closing quote, when `w` and
   * the quote hold neither artifact (so, in particular, `w` does not end with
   * a full stop).
   */
  lemma DeleteQuoted(w: string)
    requires forall t, m :: 0 <= m < |IngredientArtifacts| ==> !OccursAt(w + "\"", t, IngredientArtifacts[m])
    ensures DeleteAll(IngredientsOpen + w + "\"", IngredientArtifacts) == w + "\""
  {
    var csv := IngredientsOpen + w + "\"";
    var n := |IngredientsOpen|;
    assert csv[n..|csv|] == w + "\"";
    forall t, m | n <= t < |csv| && 0 <= m < |IngredientArtifacts| ensures !OccursAt(csv, t, IngredientArtifacts[m]) {
      if t + |IngredientArtifacts[m]| <= |csv| {
        NotInSlice(csv, n, |csv|, t, IngredientArtifacts[m]);
      }
    }
    DeleteFromPlain(csv, IngredientArtifacts, n, |csv|);
    assert OccursAt(csv, 0, IngredientArtifacts[0]);
  }

  const QuotedLabel := "Ingredients\n\"SALT\""

  /** The ingredients match of a one-word label is the whole label. */
  lemma QuotedMatch()
    ensures MatchedText(QuotedLabel, IngredientsOpen, IngredientsClose) == Some(QuotedLabel)
  {
    var csv := QuotedLabel;
    assert |csv| == 18;
    assert OccursAt(csv, 0, IngredientsOpen);
    assert !OccursAt(csv, 18, IngredientsClose) && OccursAt(csv, 17, IngredientsClose);
    assert LastOccurrenceDownFrom(csv, IngredientsClose, 14, 17) == Some(17);
    assert LastOccurrenceDownFrom(csv, IngredientsClose, 14, 18) == Some(17);
    assert GreedySpanFrom(csv, IngredientsOpen, IngredientsClose, 0) == Some((0, 18));
    assert csv[0..18] == csv;
  }

  /** The ingredient text of the one-word label keeps the closing quote. */
  lemma QuotedText()
    ensures IngredientsText(QuotedLabel) == Some("SALT\"")
  {
    QuotedMatch();
    var w := "SALT";
    assert QuotedLabel == IngredientsOpen + w + "\"";
    assert forall k :: 0 <= k < |w + "\""| ==> (w + "\"")[k] != 'I' && (w + "\"")[k] != '.';
    NoArtifactIn(w + "\"");
    DeleteQuoted(w);
    assert w + "\"" == "SALT\"";
    QuotedClean();
  }

  /** Trimming and bracket removal leave `SALT"` as it is. */
  lemma QuotedClean()
    ensures StripBrackets(Trim("SALT\"")) == "SALT\""
  {
    var t := "SALT\"";
    assert t[0] == 'S' && t[|t| - 1] == '"';
    TrimKeepsTrimmed(t);
    assert NoBrackets(t);
    StripBracketsKeepsClean(t);
  }

  /**
   * Without a full stop before it, the closing quote of the label is not
   * deleted and ends up in the last ingredient.
   */
  lemma TrailingQuoteExample()
    ensures IngredientsArray(QuotedLabel) == Some(["SALT\""])
  {
    QuotedText();
    var t := "SALT\"";
    assert NoComma(t);
    SplitWithoutComma(t);
  }
}
