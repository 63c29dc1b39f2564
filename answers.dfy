/**
 * The values the conversion engine works on: the five question types, a
 * choice `{key, text, value}` and the three shapes an answer can take, with
 * the emptiness predicates `has_text` and `are_empty` (src/meta.js).
 */
module Answers {
  import opened Wrappers
  import opened JsText

  /** The identity the editor gives a choice; the engine only copies or drops it. */
  type Key = int

  /** The `value` of a choice: a boolean (multiple choice), a string (ordered) or undefined. */
  datatype Val = VBool(b: bool) | VStr(s: string) | VUnset

  /** JavaScript truthiness of a choice value. */
  predicate Truthy(v: Val)
  {
    match v
    case VBool(b) => b
    case VStr(s) => |s| > 0
    case VUnset => false
  }

  /** A choice; `key` is absent on the choices the engine builds from scratch. */
  datatype Choice = Choice(key: Option<Key>, text: string, value: Val)

  /** The closed set of question types, in the order of the type table. */
  datatype QType = FreeForm | TrueFalse | McSingle | McMultiple | Ordered
  {
    /** The three types whose answer is a sequence of choices. */
    predicate IsChoiceBased()
    {
      this == McSingle || this == McMultiple || this == Ordered
    }
  }

  /** A stored answer: free text, a boolean, or a sequence of choices. */
  datatype Answer = Text(s: string) | Bool(b: bool) | Choices(cs: seq<Choice>)

  /** The answer has the shape its question type stores. */
  predicate Fits(t: QType, a: Answer)
  {
    match t
    case FreeForm => a.Text?
    case TrueFalse => a.Bool?
    case _ => a.Choices?
  }

  /** `has_text`: an empty text has none; otherwise the trimmed text must be non-empty. */
  predicate HasText(c: Choice)
  {
    |c.text| > 0 && |Trim(c.text)| > 0
  }

  /** `are_empty`: an empty sequence, or one in which no choice has text. */
  predicate AreEmpty(cs: seq<Choice>)
  {
    |cs| == 0 || !(exists i :: 0 <= i < |cs| && HasText(cs[i]))
  }

  /** A choice has text exactly when its text is not all whitespace. */
  lemma HasTextIff(c: Choice)
    ensures HasText(c) <==> !IsBlank(c.text)
  {
    TrimIsEmptyIff(c.text);
  }

  /** A choice sequence is empty exactly when every text in it is blank. */
  lemma AreEmptyIff(cs: seq<Choice>)
    ensures AreEmpty(cs) <==> forall i :: 0 <= i < |cs| ==> IsBlank(cs[i].text)
  {
    forall i | 0 <= i < |cs| {
      HasTextIff(cs[i]);
    }
  }

  /** `answer.filter(a => a.value)`: the selected choices, in order. */
  function Selected(cs: seq<Choice>): (r: seq<Choice>)
    ensures |r| <= |cs|
    ensures forall i :: 0 <= i < |r| ==> Truthy(r[i].value)
  {
    if cs == [] then []
    else if Truthy(cs[0].value) then [cs[0]] + Selected(cs[1..])
    else Selected(cs[1..])
  }

  /** `answer.filter(a => a.text.trim())`: the choices whose trimmed text is non-empty, in order. */
  function WithText(cs: seq<Choice>): (r: seq<Choice>)
    ensures |r| <= |cs|
  {
    if cs == [] then []
    else if |Trim(cs[0].text)| > 0 then [cs[0]] + WithText(cs[1..])
    else WithText(cs[1..])
  }

  /** Selection keeps every selected choice as often as it occurs, and nothing else. */
  lemma {:induction false} SelectedMultiset(cs: seq<Choice>)
    ensures forall c :: multiset(Selected(cs))[c] == if Truthy(c.value) then multiset(cs)[c] else 0
  {
    if cs != [] {
      SelectedMultiset(cs[1..]);
      assert cs == [cs[0]] + cs[1..];
    }
  }

  /** Nothing selected, nothing kept. */
  lemma {:induction false} NoneSelected(cs: seq<Choice>)
    requires forall i :: 0 <= i < |cs| ==> !Truthy(cs[i].value)
    ensures Selected(cs) == []
  {
    if cs != [] {
      assert forall i :: 0 <= i < |cs| - 1 ==> cs[1..][i] == cs[i + 1];
      NoneSelected(cs[1..]);
    }
  }

  /** Filtering by text keeps every choice with text as often as it occurs, and nothing else. */
  lemma {:induction false} WithTextMultiset(cs: seq<Choice>)
    ensures forall c :: multiset(WithText(cs))[c] == if |Trim(c.text)| > 0 then multiset(cs)[c] else 0
  {
    if cs != [] {
      WithTextMultiset(cs[1..]);
      assert cs == [cs[0]] + cs[1..];
    }
  }

  /** Filtering by selection keeps the input order: it distributes over concatenation. */
  lemma {:induction false} SelectedAppend(a: seq<Choice>, b: seq<Choice>)
    ensures Selected(a + b) == Selected(a) + Selected(b)
  {
    if a == [] {
      assert a + b == b;
    } else {
      assert (a + b)[1..] == a[1..] + b;
      SelectedAppend(a[1..], b);
    }
  }

  /** Every choice the text filter keeps has text. */
  lemma WithTextHasText(cs: seq<Choice>)
    ensures forall i :: 0 <= i < |WithText(cs)| ==> |Trim(WithText(cs)[i].text)| > 0
  {
    var kept := WithText(cs);
    WithTextMultiset(cs);
    forall i | 0 <= i < |kept| ensures |Trim(kept[i].text)| > 0 {
      assert kept[i] in multiset(kept);
    }
  }

  /** Filtering by text keeps a sequence none of whose texts is blank. */
  lemma {:induction false} KeepsNonBlank(cs: seq<Choice>)
    requires forall i :: 0 <= i < |cs| ==> HasText(cs[i])
    ensures WithText(cs) == cs
  {
    if cs != [] {
      KeepsNonBlank(cs[1..]);
      assert [cs[0]] + cs[1..] == cs;
    }
  }

  /** Filtering by text keeps the input order: it distributes over concatenation. */
  lemma {:induction false} WithTextAppend(a: seq<Choice>, b: seq<Choice>)
    ensures WithText(a + b) == WithText(a) + WithText(b)
  {
    if a == [] {
      assert a + b == b;
    } else {
      assert (a + b)[1..] == a[1..] + b;
      WithTextAppend(a[1..], b);
    }
  }

  /** `.map(a => a.text)`. */
  function Texts(cs: seq<Choice>): (r: seq<string>)
    ensures |r| == |cs| && forall i :: 0 <= i < |cs| ==> r[i] == cs[i].text
  {
    seq(|cs|, i requires 0 <= i < |cs| => cs[i].text)
  }

  /** `.map(a => a.text.trim())`. */
  function TrimmedTexts(cs: seq<Choice>): (r: seq<string>)
    ensures |r| == |cs| && forall i :: 0 <= i < |cs| ==> r[i] == Trim(cs[i].text)
  {
    seq(|cs|, i requires 0 <= i < |cs| => Trim(cs[i].text))
  }

  /** At most one choice is selected: the invariant of a single-answer question. */
  predicate AtMostOneSelected(cs: seq<Choice>)
  {
    forall i, j :: 0 <= i < |cs| && 0 <= j < |cs| && Truthy(cs[i].value) && Truthy(cs[j].value) ==> i == j
  }

  /** No two choices share a key. */
  predicate KeysDistinct(cs: seq<Choice>)
  {
    forall i, j :: 0 <= i < j < |cs| ==> cs[i].key != cs[j].key
  }
}
