/**
 * What `get_answer_on_type_change` promises, path by path: when a change is
 * safe, when it is lossy, and what value it installs or proposes.
 */
module ConversionProperties {
  import opened Wrappers
  import opened JsText
  import opened Answers
  import opened ValueOrder
  import opened Registry
  import opened Conversion

  /** On the tags of two distinct types, the tag-level dispatch is the typed one. */
  lemma TagsDispatchToConvert(to: QType, from: QType, a: Answer)
    requires to != from && Fits(from, a)
    ensures ConvertTags(Tag(to), Tag(from), a) == Convert(to, from, a)
  {
    ParseTag(to);
    ParseTag(from);
  }

  /** Keeping the type keeps the answer, with no emptiness check. */
  lemma Identity(t: QType, a: Answer)
    requires Fits(t, a)
    ensures Convert(t, t, a) == Safe(a)
  {
  }

  /** A true/false answer is dropped silently: free text becomes "", choices become []. */
  lemma FromTrueFalse(to: QType, b: bool)
    requires to != TrueFalse
    ensures Convert(to, TrueFalse, Bool(b)) == Safe(if to == FreeForm then Text("") else Choices([]))
  {
  }

  /**
   * Changing to true/false always yields `false`; it is lossy exactly when
   * the old answer held some non-blank text (an empty sequence holds none).
   */
  lemma ToTrueFalse(from: QType, a: Answer)
    requires from != TrueFalse && Fits(from, a)
    ensures Convert(TrueFalse, from, a) in {Safe(Bool(false)), Lossy(Bool(false))}
    ensures Convert(TrueFalse, from, a).Lossy? <==>
      if from == FreeForm then !IsBlank(a.s)
      else exists i :: 0 <= i < |a.cs| && !IsBlank(a.cs[i].text)
  {
    if from == FreeForm {
      TrimIsEmptyIff(a.s);
    } else {
      AreEmptyIff(a.cs);
    }
  }

  /**
   * Multiple choice to free text: safe "" when every text is blank, and
   * otherwise lossy, proposing the trimmed texts of the selected choices in
   * input order, joined with ", ".
   */
  lemma McToFreeForm(from: QType, cs: seq<Choice>)
    requires from == McSingle || from == McMultiple
    ensures (forall i :: 0 <= i < |cs| ==> IsBlank(cs[i].text)) ==>
      Convert(FreeForm, from, Choices(cs)) == Safe(Text(""))
    ensures (exists i :: 0 <= i < |cs| && !IsBlank(cs[i].text)) ==>
      Convert(FreeForm, from, Choices(cs)) == Lossy(Text(Join(TrimmedTexts(Selected(cs)), ", ")))
  {
    assert Convert(FreeForm, from, Choices(cs)) == FreeFromMc(cs);
    AreEmptyIff(cs);
  }

  /** Lossiness does not look at the selection: a non-blank but unselected choice still proposes "". */
  lemma UnselectedTextIsStillLossy(from: QType, cs: seq<Choice>)
    requires from == McSingle || from == McMultiple
    requires forall i :: 0 <= i < |cs| ==> !Truthy(cs[i].value)
    requires exists i :: 0 <= i < |cs| && !IsBlank(cs[i].text)
    ensures Convert(FreeForm, from, Choices(cs)) == Lossy(Text(""))
  {
    McToFreeForm(from, cs);
    NoneSelected(cs);
  }

  /**
   * Ordered to free text: safe "" when every text is blank; otherwise lossy,
   * proposing the untrimmed texts of the non-blank choices, ordered by value
   * (stably), joined with ", ".
   */
  lemma OrderedToFreeForm(cs: seq<Choice>)
    ensures (forall i :: 0 <= i < |cs| ==> IsBlank(cs[i].text)) ==>
      Convert(FreeForm, Ordered, Choices(cs)) == Safe(Text(""))
    ensures (exists i :: 0 <= i < |cs| && !IsBlank(cs[i].text)) ==>
      Convert(FreeForm, Ordered, Choices(cs)) == Lossy(Text(Join(Texts(SortByValue(WithText(cs))), ", ")))
  {
    assert Convert(FreeForm, Ordered, Choices(cs)) == FreeFromOrdered(cs);
    AreEmptyIff(cs);
  }

  /** The proposal's choices: sorted by value, exactly the non-blank choices, equal values in input order. */
  lemma OrderedProposalParts(cs: seq<Choice>, v: Val)
    ensures SortedByValue(SortByValue(WithText(cs)))
    ensures forall c :: multiset(SortByValue(WithText(cs)))[c] == if IsBlank(c.text) then 0 else multiset(cs)[c]
    ensures WithValue(SortByValue(WithText(cs)), v) == WithValue(WithText(cs), v)
  {
    WithTextMultiset(cs);
    forall c: Choice {
      TrimIsEmptyIff(c.text);
    }
    SortByValueStable(WithText(cs), v);
  }

  /**
   * Free text to a choice type never loses data: a blank text gives no
   * choice; otherwise one key-less choice holding the trimmed text, unset
   * (`''`) for ordered and selected for multiple choice.
   */
  lemma FreeFormToChoices(to: QType, s: string)
    requires to.IsChoiceBased()
    ensures Convert(to, FreeForm, Text(s)) == Safe(Choices(
      if IsBlank(s) then []
      else [Choice(None, Trim(s), if to == Ordered then VStr("") else VBool(true))]))
  {
    TrimIsEmptyIff(s);
  }

  /** The filters, maps and sort applied to a one-choice answer. */
  lemma OneChoiceSequence(c: Choice)
    ensures |Trim(c.text)| > 0 ==> !AreEmpty([c]) && WithText([c]) == [c]
    ensures Truthy(c.value) ==> Selected([c]) == [c]
    ensures TrimmedTexts([c]) == [Trim(c.text)] && Texts([c]) == [c.text]
    ensures SortByValue([c]) == [c]
  {
    assert [c][0] == c;
  }

  /** A single selected choice with text becomes its trimmed text, lossily. */
  lemma OneSelectedToFreeForm(c: Choice)
    requires Truthy(c.value) && |Trim(c.text)| > 0
    ensures FreeFromMc([c]) == Lossy(Text(Trim(c.text)))
  {
    OneChoiceSequence(c);
  }

  /** A single ordered choice with text becomes its untrimmed text, lossily. */
  lemma OneOrderedToFreeForm(c: Choice)
    requires |Trim(c.text)| > 0
    ensures FreeFromOrdered([c]) == Lossy(Text(c.text))
  {
    OneChoiceSequence(c);
  }

  /** An answer without choices becomes "", safely. */
  lemma NoChoiceToFreeForm(from: QType)
    requires from.IsChoiceBased()
    ensures Convert(FreeForm, from, Choices([])) == Safe(Text(""))
  {
  }

  /**
   * Free text taken to a choice type and back yields its trimmed self, and
   * the way back is lossy exactly when the text was not blank.
   */
  lemma FreeFormRoundTrip(to: QType, s: string)
    requires to.IsChoiceBased()
    ensures Convert(to, FreeForm, Text(s)).Safe?
    ensures var mid := Convert(to, FreeForm, Text(s)).value;
      Convert(FreeForm, to, mid) == if IsBlank(s) then Safe(Text("")) else Lossy(Text(Trim(s)))
  {
    FreeFormToChoices(to, s);
    TrimIsEmptyIff(s);
    if IsBlank(s) {
      NoChoiceToFreeForm(to);
    } else {
      var c := Choice(None, Trim(s), if to == Ordered then VStr("") else VBool(true));
      TrimIdempotent(s);
      if to == Ordered {
        OneOrderedToFreeForm(c);
        assert Convert(FreeForm, to, Choices([c])) == FreeFromOrdered([c]);
      } else {
        OneSelectedToFreeForm(c);
        assert Convert(FreeForm, to, Choices([c])) == FreeFromMc([c]);
      }
    }
  }

  /**
   * Multiple answers to a single answer is always safe: same length, keys
   * and texts; the first selected choice stays selected and every later
   * one is deselected.
   */
  lemma McMultipleToMcSingle(cs: seq<Choice>)
    ensures Convert(McSingle, McMultiple, Choices(cs)) == Safe(Choices(SingleFromMultiple(cs)))
    ensures var r := Convert(McSingle, McMultiple, Choices(cs)).value.cs;
      |r| == |cs|
      && (forall i :: 0 <= i < |cs| ==> r[i].key == cs[i].key && r[i].text == cs[i].text)
      && (forall i :: 0 <= i < |cs| ==> (Truthy(r[i].value) <==> Truthy(cs[i].value) && !SelectedBefore(cs, i)))
      && (forall i :: 0 <= i < |cs| && Truthy(cs[i].value) && SelectedBefore(cs, i) ==> r[i].value == VBool(false))
      && (forall i :: 0 <= i < |cs| && (!Truthy(cs[i].value) || !SelectedBefore(cs, i)) ==> r[i] == cs[i])
      && AtMostOneSelected(r)
  {
  }

  /**
   * Ordered to either multiple-choice type: every choice kept and
   * deselected, whether safe or lossy; lossy exactly when some choice had
   * both a defined value and non-blank text.
   */
  lemma OrderedToMc(to: QType, cs: seq<Choice>)
    requires to == McSingle || to == McMultiple
    ensures Convert(to, Ordered, Choices(cs)) in {Safe(Choices(AllUnselected(cs))), Lossy(Choices(AllUnselected(cs)))}
    ensures Convert(to, Ordered, Choices(cs)).Lossy? <==>
      exists i :: 0 <= i < |cs| && cs[i].value != VUnset && !IsBlank(cs[i].text)
  {
    forall i | 0 <= i < |cs| {
      TrimIsEmptyIff(cs[i].text);
    }
  }

  /** Single answer to multiple answers is safe and keeps, in order, exactly the non-blank choices. */
  lemma McSingleToMcMultiple(cs: seq<Choice>)
    ensures Convert(McMultiple, McSingle, Choices(cs)) == Safe(Choices(WithText(cs)))
    ensures forall i :: 0 <= i < |WithText(cs)| ==> !IsBlank(WithText(cs)[i].text)
    ensures forall c :: multiset(WithText(cs))[c] == if IsBlank(c.text) then 0 else multiset(cs)[c]
    ensures (forall i :: 0 <= i < |cs| ==> !IsBlank(cs[i].text)) ==> WithText(cs) == cs
  {
    assert Convert(McMultiple, McSingle, Choices(cs)) == Safe(Choices(McMultipleFromMcSingle(cs)));
    var kept := WithText(cs);
    WithTextHasText(cs);
    forall i | 0 <= i < |kept| ensures !IsBlank(kept[i].text) {
      TrimIsEmptyIff(kept[i].text);
    }
    WithTextMultiset(cs);
    forall c: Choice ensures multiset(kept)[c] == if IsBlank(c.text) then 0 else multiset(cs)[c] {
      TrimIsEmptyIff(c.text);
    }
    if forall i :: 0 <= i < |cs| ==> !IsBlank(cs[i].text) {
      forall i | 0 <= i < |cs| ensures HasText(cs[i]) {
        HasTextIff(cs[i]);
      }
      KeepsNonBlank(cs);
    }
  }

  /** Multiple choice to ordered is safe: every text kept in place, keys dropped, positions unset. */
  lemma McToOrdered(from: QType, cs: seq<Choice>)
    requires from == McSingle || from == McMultiple
    ensures Convert(Ordered, from, Choices(cs)).Safe?
    ensures var r := Convert(Ordered, from, Choices(cs)).value.cs;
      |r| == |cs| && forall i :: 0 <= i < |cs| ==> r[i] == Choice(None, cs[i].text, VStr(""))
  {
  }
}
