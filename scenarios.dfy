/**
 * Concrete type changes, stated on the tags the editor stores, with the
 * outcome the source computes for each.
 */
module Scenarios {
  import opened Wrappers
  import opened JsText
  import opened Answers
  import opened Conversion
  import opened ConversionProperties

  /** `are_empty` holds of an empty sequence. */
  lemma EmptySequenceIsEmpty()
    ensures AreEmpty([])
  {
  }

  /** `are_empty` holds of a sequence whose only text is blank. */
  lemma BlankChoiceIsEmpty()
    ensures AreEmpty([Choice(None, "  ", VUnset)])
  {
    HasTextIff(Choice(None, "  ", VUnset));
  }

  /** `are_empty` fails for a sequence with a real text. */
  lemma FilledChoiceIsNotEmpty()
    ensures !AreEmpty([Choice(None, "x", VUnset)])
  {
    var filled := Choice(None, "x", VUnset);
    XIsNotBlank();
    HasTextIff(filled);
    assert [filled][0] == filled;
  }

  lemma XIsNotBlank()
    ensures !IsBlank("x")
  {
    StartsNonBlank("x");
  }

  /** A text that starts with a non-whitespace character is not blank. */
  lemma StartsNonBlank(s: string)
    requires |s| > 0 && !IsWhitespace(s[0])
    ensures !IsBlank(s)
  {
  }

  /** "Paris" has no whitespace to trim. */
  lemma TrimParis()
    ensures Trim("Paris") == "Paris"
  {
    assert "Paris"[0] == 'P' && "Paris"[4] == 's';
    assert TrimStart("Paris") == "Paris";
    assert TrimEnd("Paris") == "Paris";
  }

  lemma TrimStartSkipsSpace(s: string)
    requires |s| > 0 && s[0] == ' '
    ensures TrimStart(s) == TrimStart(s[1..])
  {
  }

  lemma TrimEndSkipsSpace(s: string)
    requires |s| > 0 && s[|s| - 1] == ' '
    ensures TrimEnd(s) == TrimEnd(s[..|s| - 1])
  {
  }

  lemma TrimStartHello()
    ensures TrimStart("  hello  ") == "hello  "
  {
    TrimStartSkipsSpace("  hello  ");
    assert "  hello  "[1..] == " hello  ";
    TrimStartSkipsSpace(" hello  ");
    assert " hello  "[1..] == "hello  ";
    assert !IsWhitespace("hello  "[0]);
  }

  lemma TrimEndHello()
    ensures TrimEnd("hello  ") == "hello"
  {
    TrimEndSkipsSpace("hello  ");
    assert "hello  "[..6] == "hello ";
    TrimEndSkipsSpace("hello ");
    assert "hello "[..5] == "hello";
    assert !IsWhitespace("hello"[4]);
  }

  /** "  hello  " trims to "hello". */
  lemma TrimHello()
    ensures !IsBlank("  hello  ") && Trim("  hello  ") == "hello"
  {
    TrimStartHello();
    TrimEndHello();
    assert !IsWhitespace("  hello  "[2]);
  }

  lemma SelectParis(cs: seq<Choice>)
    requires cs == [Choice(Some(1), "Paris", VBool(true)), Choice(Some(2), "Berlin", VBool(false))]
    ensures Selected(cs) == [cs[0]]
  {
    assert cs[1..][1..] == [];
  }

  /** Only "Paris" is selected, so the proposal is its trimmed text alone. */
  lemma ParisProposal(cs: seq<Choice>)
    requires cs == [Choice(Some(1), "Paris", VBool(true)), Choice(Some(2), "Berlin", VBool(false))]
    ensures Join(TrimmedTexts(Selected(cs)), ", ") == "Paris"
  {
    SelectParis(cs);
    OneChoiceSequence(cs[0]);
    TrimParis();
  }

  /** Selecting "Paris" and switching to free text proposes "Paris". */
  lemma SelectedChoiceToFreeForm()
    ensures ConvertTags("free_form", "mc_single",
      Choices([Choice(Some(1), "Paris", VBool(true)), Choice(Some(2), "Berlin", VBool(false))]))
      == Lossy(Text("Paris"))
  {
    var cs := [Choice(Some(1), "Paris", VBool(true)), Choice(Some(2), "Berlin", VBool(false))];
    TagsDispatchToConvert(FreeForm, McSingle, Choices(cs));
    StartsNonBlank("Paris");
    assert cs[0].text == "Paris";
    McToFreeForm(McSingle, cs);
    ParisProposal(cs);
  }

  /** With nothing selected, a non-blank choice still makes the change lossy, proposing "". */
  lemma UnselectedChoiceToFreeForm()
    ensures ConvertTags("free_form", "mc_single", Choices([Choice(Some(1), "Paris", VBool(false))]))
      == Lossy(Text(""))
  {
    var cs := [Choice(Some(1), "Paris", VBool(false))];
    TagsDispatchToConvert(FreeForm, McSingle, Choices(cs));
    StartsNonBlank("Paris");
    assert cs[0].text == "Paris";
    UnselectedTextIsStillLossy(McSingle, cs);
  }

  /** Padded free text becomes one trimmed, unpositioned choice. */
  lemma PaddedTextToOrdered()
    ensures ConvertTags("ordered", "free_form", Text("  hello  "))
      == Safe(Choices([Choice(None, "hello", VStr(""))]))
  {
    TagsDispatchToConvert(Ordered, FreeForm, Text("  hello  "));
    TrimHello();
    FreeFormToChoices(Ordered, "  hello  ");
  }

  /** Blank free text becomes no choice at all. */
  lemma BlankTextToOrdered()
    ensures ConvertTags("ordered", "free_form", Text("   ")) == Safe(Choices([]))
  {
    TagsDispatchToConvert(Ordered, FreeForm, Text("   "));
    FreeFormToChoices(Ordered, "   ");
  }

  /** Two selections in a multiple-answer question: the second is deselected, safely. */
  lemma TwoSelectionsToSingle()
    ensures ConvertTags("mc_single", "mc_multiple",
      Choices([Choice(Some(1), "a", VBool(true)), Choice(Some(2), "b", VBool(true))]))
      == Safe(Choices([Choice(Some(1), "a", VBool(true)), Choice(Some(2), "b", VBool(false))]))
  {
    var cs := [Choice(Some(1), "a", VBool(true)), Choice(Some(2), "b", VBool(true))];
    TagsDispatchToConvert(McSingle, McMultiple, Choices(cs));
    assert Truthy(cs[0].value);
    assert SelectedBefore(cs, 1);
  }

  /** An ordered answer with a positioned, non-blank choice loses data when made true/false. */
  lemma PositionedChoiceToTrueFalse()
    ensures ConvertTags("true_false", "ordered", Choices([Choice(Some(1), "x", VStr("0"))]))
      == Lossy(Bool(false))
  {
    var cs := [Choice(Some(1), "x", VStr("0"))];
    TagsDispatchToConvert(TrueFalse, Ordered, Choices(cs));
    ToTrueFalse(Ordered, Choices(cs));
    XIsNotBlank();
    assert cs[0].text == "x";
  }
}
