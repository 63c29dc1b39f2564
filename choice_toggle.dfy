/**
 * The `on_choice_toggled` rules of the two multiple-choice types
 * (src/meta.js): what the editor does to the choices when the author clicks
 * the choice whose key is `key`.
 */
module ChoiceToggle {
  import opened Wrappers
  import opened Answers

  /** `choices.find(c => c.key === key)`, as the index of the first match. */
  function FindByKey(cs: seq<Choice>, key: Option<Key>): (r: Option<nat>)
    ensures r.Some? ==> r.value < |cs| && cs[r.value].key == key
    ensures r.Some? ==> forall j :: 0 <= j < r.value ==> cs[j].key != key
    ensures r.None? ==> forall j :: 0 <= j < |cs| ==> cs[j].key != key
  {
    if cs == [] then None
    else if cs[0].key == key then Some(0)
    else match FindByKey(cs[1..], key)
      case None => None
      case Some(i) => Some(i + 1)
  }

  /** Multiple answers: flip the selection of the toggled choice, leave the rest alone. */
  function ToggleMultiple(cs: seq<Choice>, key: Option<Key>): (r: seq<Choice>)
    ensures |r| == |cs|
    ensures forall i :: 0 <= i < |cs| ==> r[i].key == cs[i].key && r[i].text == cs[i].text
    ensures forall i :: 0 <= i < |cs| ==> (Truthy(r[i].value) <==> Truthy(cs[i].value) != (cs[i].key == key))
    ensures forall i :: 0 <= i < |cs| && cs[i].key == key ==> r[i].value.VBool?
    ensures forall i :: 0 <= i < |cs| && cs[i].key != key ==> r[i] == cs[i]
  {
    seq(|cs|, i requires 0 <= i < |cs| =>
      if cs[i].key == key then cs[i].(value := VBool(!Truthy(cs[i].value))) else cs[i])
  }

  /** Toggling the same choice twice restores an answer whose values are all booleans. */
  lemma ToggleMultipleTwice(cs: seq<Choice>, key: Option<Key>)
    requires forall i :: 0 <= i < |cs| ==> cs[i].value.VBool?
    ensures ToggleMultiple(ToggleMultiple(cs, key), key) == cs
  {
    var once := ToggleMultiple(cs, key);
    var twice := ToggleMultiple(once, key);
    forall i | 0 <= i < |cs| ensures twice[i] == cs[i] {
      if cs[i].key == key {
        assert Truthy(twice[i].value) == Truthy(cs[i].value);
      }
    }
  }

  /** `make_toggled_false`: every choice with the key is deselected. */
  function MakeToggledFalse(cs: seq<Choice>, key: Option<Key>): seq<Choice>
  {
    seq(|cs|, i requires 0 <= i < |cs| =>
      if cs[i].key == key then cs[i].(value := VBool(false)) else cs[i])
  }

  /** `make_toggled_the_only_true`: the choices with the key are selected, every other selected one is deselected. */
  function MakeToggledTheOnlyTrue(cs: seq<Choice>, key: Option<Key>): seq<Choice>
  {
    seq(|cs|, i requires 0 <= i < |cs| =>
      if cs[i].key == key then cs[i].(value := VBool(true))
      else if Truthy(cs[i].value) then cs[i].(value := VBool(false))
      else cs[i])
  }

  /**
   * Single answer. The toggled choice is the first with the key; when none
   * has it, reading its value fails in the source, which is `None` here.
   */
  function ToggleSingle(cs: seq<Choice>, key: Option<Key>): (r: Option<seq<Choice>>)
    ensures r.None? <==> forall j :: 0 <= j < |cs| ==> cs[j].key != key
    ensures r.Some? ==> |r.value| == |cs|
    ensures r.Some? ==> forall j :: 0 <= j < |cs| ==> r.value[j].key == cs[j].key && r.value[j].text == cs[j].text
    ensures r.Some? ==> forall j :: 0 <= j < |cs| && cs[j].key != key && !Truthy(cs[j].value) ==> r.value[j] == cs[j]
  {
    match FindByKey(cs, key)
    case None => None
    case Some(i) =>
      if Truthy(cs[i].value) then Some(MakeToggledFalse(cs, key))
      else Some(MakeToggledTheOnlyTrue(cs, key))
  }

  /** Toggling a selected choice deselects it and changes nothing else. */
  lemma ToggleSingleOff(cs: seq<Choice>, key: Option<Key>, i: nat)
    requires i < |cs| && cs[i].key == key && Truthy(cs[i].value)
    requires forall j :: 0 <= j < i ==> cs[j].key != key
    ensures ToggleSingle(cs, key).Some?
    ensures var r := ToggleSingle(cs, key).value;
      forall j :: 0 <= j < |cs| ==>
        (cs[j].key == key ==> r[j].value == VBool(false) && !Truthy(r[j].value))
        && (cs[j].key != key ==> r[j] == cs[j])
  {
  }

  /** Toggling an unselected choice selects it and deselects every other choice. */
  lemma ToggleSingleOn(cs: seq<Choice>, key: Option<Key>, i: nat)
    requires i < |cs| && cs[i].key == key && !Truthy(cs[i].value)
    requires forall j :: 0 <= j < i ==> cs[j].key != key
    ensures ToggleSingle(cs, key).Some?
    ensures var r := ToggleSingle(cs, key).value;
      forall j :: 0 <= j < |cs| ==>
        (Truthy(r[j].value) <==> cs[j].key == key)
        && (cs[j].key == key ==> r[j].value == VBool(true))
        && (cs[j].key != key && Truthy(cs[j].value) ==> r[j].value == VBool(false))
        && (cs[j].key != key && !Truthy(cs[j].value) ==> r[j] == cs[j])
  {
  }

  /** With distinct keys, toggling keeps "at most one selected". */
  lemma ToggleSingleKeepsAtMostOne(cs: seq<Choice>, key: Option<Key>)
    requires KeysDistinct(cs) && AtMostOneSelected(cs)
    requires ToggleSingle(cs, key).Some?
    ensures AtMostOneSelected(ToggleSingle(cs, key).value)
  {
    var i := FindByKey(cs, key).value;
    var r := ToggleSingle(cs, key).value;
    if Truthy(cs[i].value) {
      ToggleSingleOff(cs, key, i);
      assert forall j :: 0 <= j < |cs| && Truthy(r[j].value) ==> Truthy(cs[j].value);
    } else {
      ToggleSingleOn(cs, key, i);
      assert forall j :: 0 <= j < |cs| && Truthy(r[j].value) ==> cs[j].key == cs[i].key;
    }
  }
}
