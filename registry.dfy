/**
 * The type table `TYPE_CONFIGS`, its reverse index `TYPES_BY_DISPLAY`, and
 * the dispatch of a choice toggle to the rule of the question's type
 * (src/meta.js).
 */
module Registry {
  import opened Wrappers
  import opened Answers
  import opened ChoiceToggle

  /** The editing component a choice-based type renders its choices with (an opaque tag). */
  datatype Component = ChoiceView | OrderedChoiceView

  /** Which `on_choice_toggled` rule a type has. */
  datatype ToggleRule = SingleSelect | MultiSelect

  /** One entry of the type table; absent parts are missing from the source's entry. */
  datatype TypeConfig = TypeConfig(
    display: string,
    component: Option<Component>,
    emptyChoice: Option<Choice>,
    toggle: Option<ToggleRule>)

  /** The table's keys in declaration order (`VALID_TYPES`). */
  const AllTypes: seq<QType> := [FreeForm, TrueFalse, McSingle, McMultiple, Ordered]

  /** Every type appears in the table exactly once. */
  lemma AllTypesListsEachTypeOnce(t: QType)
    ensures t in AllTypes
    ensures forall i, j :: 0 <= i < j < |AllTypes| ==> AllTypes[i] != AllTypes[j]
  {
  }

  /** The string tag the editor stores for a type. */
  function Tag(t: QType): string
  {
    match t
    case FreeForm => "free_form"
    case TrueFalse => "true_false"
    case McSingle => "mc_single"
    case McMultiple => "mc_multiple"
    case Ordered => "ordered"
  }

  /** The type a stored tag names, if it names one. */
  function ParseType(tag: string): (r: Option<QType>)
    ensures r.Some? ==> Tag(r.value) == tag
    ensures r.None? ==> forall t :: Tag(t) != tag
  {
    if tag == "free_form" then Some(FreeForm)
    else if tag == "true_false" then Some(TrueFalse)
    else if tag == "mc_single" then Some(McSingle)
    else if tag == "mc_multiple" then Some(McMultiple)
    else if tag == "ordered" then Some(Ordered)
    else None
  }

  /** Reading back a stored tag gives the type that was stored. */
  lemma ParseTag(t: QType)
    ensures ParseType(Tag(t)) == Some(t)
  {
  }

  /** `TYPE_CONFIGS[t]`. */
  function Config(t: QType): (c: TypeConfig)
    ensures c.component.Some? <==> t.IsChoiceBased()
    ensures c.emptyChoice.Some? <==> t.IsChoiceBased()
    ensures c.toggle.Some? <==> t == McSingle || t == McMultiple
    ensures c.emptyChoice.Some? ==>
      c.emptyChoice.value.key.None? && !HasText(c.emptyChoice.value)
      && !Truthy(c.emptyChoice.value.value)
      && (c.emptyChoice.value.value.VStr? <==> t == Ordered)
    ensures c.emptyChoice.Some? ==>
      c.emptyChoice.value == Choice(None, "", if t == Ordered then VStr("") else VBool(false))
    ensures t == McSingle ==> c.toggle == Some(SingleSelect)
    ensures t == McMultiple ==> c.toggle == Some(MultiSelect)
  {
    match t
    case FreeForm => TypeConfig("Simple", None, None, None)
    case TrueFalse => TypeConfig("True/False", None, None, None)
    case McSingle => TypeConfig("Multiple Choice -- Single Answer",
      Some(ChoiceView), Some(Choice(None, "", VBool(false))), Some(SingleSelect))
    case McMultiple => TypeConfig("Multiple Choice -- Multiple Answers",
      Some(ChoiceView), Some(Choice(None, "", VBool(false))), Some(MultiSelect))
    case Ordered => TypeConfig("Ordered",
      Some(OrderedChoiceView), Some(Choice(None, "", VStr(""))), None)
  }

  function Display(t: QType): string
  {
    Config(t).display
  }

  /** Display labels are unique, so the reverse index loses no type. */
  lemma DisplayInjective(t1: QType, t2: QType)
    ensures Display(t1) == Display(t2) ==> t1 == t2
  {
    if t1 != t2 {
      assert Display(t1)[..3] != Display(t2)[..3] || |Display(t1)| != |Display(t2)|;
    }
  }

  /**
   * `TYPES_BY_DISPLAY`: one pass over the table, writing each entry's type
   * under its display label. The result maps every label to its own type
   * and holds nothing else.
   */
  method BuildTypesByDisplay() returns (byDisplay: map<string, QType>)
    ensures forall t :: Display(t) in byDisplay && byDisplay[Display(t)] == t
    ensures forall d :: d in byDisplay ==> Display(byDisplay[d]) == d
  {
    byDisplay := map[];
    var i := 0;
    while i < |AllTypes|
      invariant 0 <= i <= |AllTypes|
      invariant forall k :: 0 <= k < i ==>
        Display(AllTypes[k]) in byDisplay && byDisplay[Display(AllTypes[k])] == AllTypes[k]
      invariant forall d :: d in byDisplay ==> Display(byDisplay[d]) == d
    {
      var t := AllTypes[i];
      forall k | 0 <= k < i {
        DisplayInjective(AllTypes[k], t);
      }
      byDisplay := byDisplay[Display(t) := t];
      i := i + 1;
    }
    forall t ensures Display(t) in byDisplay && byDisplay[Display(t)] == t {
      AllTypesListsEachTypeOnce(t);
      var k :| 0 <= k < |AllTypes| && AllTypes[k] == t;
    }
  }

  /**
   * `TYPE_CONFIGS[t].on_choice_toggled(choices, key)`. `None` when the type
   * has no such rule or, for a single answer, when no choice has the key
   * (both fail in the source).
   */
  function OnChoiceToggled(t: QType, cs: seq<Choice>, key: Option<Key>): (r: Option<seq<Choice>>)
    ensures r.None? <==>
      (Config(t).toggle.None? || (t == McSingle && forall j :: 0 <= j < |cs| ==> cs[j].key != key))
    ensures r.Some? ==> |r.value| == |cs|
    ensures r.Some? ==> forall j :: 0 <= j < |cs| ==> r.value[j].key == cs[j].key && r.value[j].text == cs[j].text
    ensures t == McSingle ==> r == ToggleSingle(cs, key)
    ensures t == McMultiple ==> r == Some(ToggleMultiple(cs, key))
    ensures t == McSingle && r.Some? && KeysDistinct(cs) && AtMostOneSelected(cs) ==> AtMostOneSelected(r.value)
  {
    match Config(t).toggle
    case None => None
    case Some(SingleSelect) =>
      var toggled := ToggleSingle(cs, key);
      if toggled.Some? && KeysDistinct(cs) && AtMostOneSelected(cs) then
        ToggleSingleKeepsAtMostOne(cs, key);
        toggled
      else toggled
    case Some(MultiSelect) => Some(ToggleMultiple(cs, key))
  }
}
