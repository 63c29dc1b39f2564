/**
 * `get_answer_on_type_change` and its helpers (src/meta.js): the answer a
 * question gets when its author changes the question's type.
 */
module Conversion {
  import opened Wrappers
  import opened JsText
  import opened Answers
  import opened ValueOrder
  import opened Registry

  /**
   * The outcome of a type change: a value to install silently, a proposal
   * the author must confirm because data would be lost (the source throws
   * an `AnswerConversionError` carrying it), the "bad case" error for an
   * unknown source type, or no value at all when the target type is unknown
   * (the source's outer switch falls through and returns `undefined`).
   */
  datatype Outcome =
    | Safe(value: Answer)
    | Lossy(proposed: Answer)
    | BadCase(fromTag: string, toTag: string)
    | FellThrough

  /** The separator of `.join(', ')`. */
  const Separator: string := ", "

  /** `mc_multiple_from_mc_single`: drop the choices whose text is blank. */
  function McMultipleFromMcSingle(cs: seq<Choice>): seq<Choice>
  {
    WithText(cs)
  }

  /** `answer.map(a => ({...a, value: false}))`. */
  function AllUnselected(cs: seq<Choice>): (r: seq<Choice>)
    ensures |r| == |cs|
    ensures forall i :: 0 <= i < |cs| ==>
      r[i].key == cs[i].key && r[i].text == cs[i].text && !Truthy(r[i].value) && r[i].value.VBool?
  {
    seq(|cs|, i requires 0 <= i < |cs| => cs[i].(value := VBool(false)))
  }

  /** `mc_from_ordered`: deselect everything; lossy when some choice had a value and text. */
  function McFromOrdered(cs: seq<Choice>): Outcome
  {
    var atLeastOneCompleteAnswer := exists i :: 0 <= i < |cs| && cs[i].value != VUnset && |Trim(cs[i].text)| > 0;
    var withFalseValues := AllUnselected(cs);
    if atLeastOneCompleteAnswer then Lossy(Choices(withFalseValues)) else Safe(Choices(withFalseValues))
  }

  /** Some choice before position `i` is selected. */
  predicate SelectedBefore(cs: seq<Choice>, i: int)
    requires 0 <= i <= |cs|
  {
    exists j :: 0 <= j < i && Truthy(cs[j].value)
  }

  /**
   * `mc_single_from_mc_multiple_answer`, stated position by position: a
   * selected choice is deselected exactly when an earlier one is selected.
   * The selection that survives is the first, and it is the only one.
   */
  function SingleFromMultiple(cs: seq<Choice>): (r: seq<Choice>)
    ensures |r| == |cs|
    ensures forall i :: 0 <= i < |cs| ==> r[i].key == cs[i].key && r[i].text == cs[i].text
    ensures forall i :: 0 <= i < |cs| ==> (Truthy(r[i].value) <==> Truthy(cs[i].value) && !SelectedBefore(cs, i))
    ensures forall i :: 0 <= i < |cs| && !Truthy(r[i].value) && Truthy(cs[i].value) ==> r[i].value == VBool(false)
    ensures forall i :: 0 <= i < |cs| && (!Truthy(cs[i].value) || !SelectedBefore(cs, i)) ==> r[i] == cs[i]
    ensures AtMostOneSelected(r)
    ensures (exists i :: 0 <= i < |cs| && Truthy(cs[i].value)) ==> (exists i :: 0 <= i < |r| && Truthy(r[i].value))
  {
    var r := seq(|cs|, i requires 0 <= i < |cs| =>
      if Truthy(cs[i].value) && SelectedBefore(cs, i) then cs[i].(value := VBool(false)) else cs[i]);
    assert AtMostOneSelected(r) by {
      forall i, j | 0 <= i < j < |cs| && Truthy(cs[i].value) ensures SelectedBefore(cs, j) {
      }
    }
    assert (exists i :: 0 <= i < |cs| && Truthy(cs[i].value)) ==> (exists i :: 0 <= i < |r| && Truthy(r[i].value)) by {
      if exists i :: 0 <= i < |cs| && Truthy(cs[i].value) {
        var first := FirstSelected(cs);
        assert Truthy(r[first].value);
      }
    }
    r
  }

  /** The position of the first selected choice. */
  function FirstSelected(cs: seq<Choice>): (i: nat)
    requires exists k :: 0 <= k < |cs| && Truthy(cs[k].value)
    ensures i < |cs| && Truthy(cs[i].value) && !SelectedBefore(cs, i)
  {
    if Truthy(cs[0].value) then 0
    else
      var i := FirstSelected(cs[1..]);
      assert forall j :: 0 < j <= i ==> cs[j] == cs[1..][j - 1];
      i + 1
  }

  /**
   * The source's pass over the answer: one `map` threading the flag
   * `encountered_true`, set at the first selected choice.
   */
  method DemoteExtraSelections(answer: seq<Choice>) returns (r: seq<Choice>)
    ensures r == SingleFromMultiple(answer)
  {
    r := [];
    var encounteredTrue := false;
    var i := 0;
    while i < |answer|
      invariant 0 <= i <= |answer|
      invariant |r| == i
      invariant forall k :: 0 <= k < i ==> r[k] == SingleFromMultiple(answer)[k]
      invariant encounteredTrue <==> SelectedBefore(answer, i)
    {
      var a := answer[i];
      if Truthy(a.value) {
        if encounteredTrue {
          r := r + [a.(value := VBool(false))];
        } else {
          encounteredTrue := true;
          r := r + [a];
        }
      } else {
        r := r + [a];
      }
      i := i + 1;
    }
  }

  /** `arrayed_from_free_form`: one choice holding the trimmed text, or none when it is blank. */
  function ArrayedFromFreeForm(answer: string, to: QType): seq<Choice>
  {
    var text := Trim(answer);
    if |text| > 0 then [Choice(None, text, if to == Ordered then VStr("") else VBool(true))]
    else []
  }

  /** `free_from_from_mc_answer`. */
  function FreeFromMc(cs: seq<Choice>): Outcome
  {
    if !AreEmpty(cs) then Lossy(Text(Join(TrimmedTexts(Selected(cs)), Separator)))
    else Safe(Text(""))
  }

  /** `free_from_from_ordered_answer`. */
  function FreeFromOrdered(cs: seq<Choice>): Outcome
  {
    if !AreEmpty(cs) then Lossy(Text(Join(Texts(SortByValue(WithText(cs))), Separator)))
    else Safe(Text(""))
  }

  /** `ordered_from_mc_answer`: keep each text, drop the key, leave the position unset. */
  function OrderedFromMc(cs: seq<Choice>): (r: seq<Choice>)
    ensures |r| == |cs|
    ensures forall i :: 0 <= i < |cs| ==> r[i].text == cs[i].text && r[i].key.None? && r[i].value == VStr("")
  {
    seq(|cs|, i requires 0 <= i < |cs| => Choice(None, cs[i].text, VStr("")))
  }

  /**
   * `get_answer_on_type_change` over the five types. Every one of the twenty
   * pairs of distinct types has a rule, and the answer it yields always has
   * the target type's shape.
   */
  function Convert(to: QType, from: QType, answer: Answer): (r: Outcome)
    requires Fits(from, answer)
    ensures r.Safe? || r.Lossy?
    ensures r.Safe? ==> Fits(to, r.value)
    ensures r.Lossy? ==> Fits(to, r.proposed)
  {
    if to == from then Safe(answer)
    else match to
      case FreeForm => (
        match from
        case TrueFalse => Safe(Text(""))
        case McSingle | McMultiple => FreeFromMc(answer.cs)
        case Ordered => FreeFromOrdered(answer.cs)
        case _ => BadCase(Tag(from), Tag(to)))
      case TrueFalse => (
        match from
        case FreeForm => if |Trim(answer.s)| > 0 then Lossy(Bool(false)) else Safe(Bool(false))
        case McSingle | McMultiple | Ordered => if !AreEmpty(answer.cs) then Lossy(Bool(false)) else Safe(Bool(false))
        case _ => BadCase(Tag(from), Tag(to)))
      case Ordered => (
        match from
        case TrueFalse => Safe(Choices([]))
        case FreeForm => Safe(Choices(ArrayedFromFreeForm(answer.s, to)))
        case McSingle | McMultiple => Safe(Choices(OrderedFromMc(answer.cs)))
        case _ => BadCase(Tag(from), Tag(to)))
      case McSingle => (
        match from
        case TrueFalse => Safe(Choices([]))
        case FreeForm => Safe(Choices(ArrayedFromFreeForm(answer.s, to)))
        case McMultiple => Safe(Choices(SingleFromMultiple(answer.cs)))
        case Ordered => McFromOrdered(answer.cs)
        case _ => BadCase(Tag(from), Tag(to)))
      case McMultiple => (
        match from
        case TrueFalse => Safe(Choices([]))
        case Ordered => McFromOrdered(answer.cs)
        case McSingle => Safe(Choices(McMultipleFromMcSingle(answer.cs)))
        case FreeForm => Safe(Choices(ArrayedFromFreeForm(answer.s, to)))
        case _ => BadCase(Tag(from), Tag(to)))
  }

  /**
   * `get_answer_on_type_change` on the stored string tags. Equal tags return
   * the answer as it is, whatever they are; an unknown target falls through;
   * a known target with an unknown source is the "bad case" error.
   */
  function ConvertTags(toTag: string, fromTag: string, answer: Answer): (r: Outcome)
    requires ParseType(fromTag).Some? ==> Fits(ParseType(fromTag).value, answer)
    ensures toTag == fromTag ==> r == Safe(answer)
    ensures r.FellThrough? <==> toTag != fromTag && ParseType(toTag).None?
    ensures r.BadCase? <==> toTag != fromTag && ParseType(toTag).Some? && ParseType(fromTag).None?
    ensures r.BadCase? ==> r.fromTag == fromTag && r.toTag == toTag
    ensures toTag != fromTag && r.Safe? ==> Fits(ParseType(toTag).value, r.value)
    ensures toTag != fromTag && r.Lossy? ==> Fits(ParseType(toTag).value, r.proposed)
  {
    if toTag == fromTag then Safe(answer)
    else match ParseType(toTag)
      case None => FellThrough
      case Some(to) =>
        match ParseType(fromTag)
        case None => BadCase(fromTag, toTag)
        case Some(from) => Convert(to, from, answer)
  }
}
