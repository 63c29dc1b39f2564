/**
 * The order lodash's `sortBy(answer_with_text, 'value')` puts ordered
 * choices in: ascending by `value`, undefined values last, and stable
 * (choices with equal values keep their input order).
 */
module ValueOrder {
  import opened Answers

  /** Lexicographic string order, character by character. */
  predicate StrLt(a: string, b: string)
  {
    if a == [] then b != []
    else if b == [] then false
    else if a[0] != b[0] then a[0] < b[0]
    else StrLt(a[1..], b[1..])
  }

  /** Booleans, then strings, then undefined (lodash places undefined last). */
  function Rank(v: Val): nat
  {
    match v
    case VBool(_) => 0
    case VStr(_) => 1
    case VUnset => 2
  }

  /** The strict order on choice values that the sort uses. */
  predicate ValLt(a: Val, b: Val)
  {
    if Rank(a) != Rank(b) then Rank(a) < Rank(b)
    else match (a, b)
      case (VBool(x), VBool(y)) => !x && y
      case (VStr(x), VStr(y)) => StrLt(x, y)
      case _ => false
  }

  lemma {:induction false} StrLtIrreflexive(a: string)
    ensures !StrLt(a, a)
  {
    if a != [] {
      StrLtIrreflexive(a[1..]);
    }
  }

  lemma {:induction false} StrLtTransitive(a: string, b: string, c: string)
    requires StrLt(a, b) && StrLt(b, c)
    ensures StrLt(a, c)
  {
    if a != [] && b != [] && c != [] && a[0] == b[0] && b[0] == c[0] {
      StrLtTransitive(a[1..], b[1..], c[1..]);
    }
  }

  lemma {:induction false} StrLtTotal(a: string, b: string)
    ensures a == b || StrLt(a, b) || StrLt(b, a)
  {
    if a != [] && b != [] && a[0] == b[0] {
      StrLtTotal(a[1..], b[1..]);
      if a[1..] == b[1..] {
        assert a == [a[0]] + a[1..] && b == [b[0]] + b[1..];
      }
    }
  }

  /** ValLt is a strict total order. */
  lemma ValLtIsStrictTotalOrder(a: Val, b: Val, c: Val)
    ensures !ValLt(a, a)
    ensures ValLt(a, b) && ValLt(b, c) ==> ValLt(a, c)
    ensures a == b || ValLt(a, b) || ValLt(b, a)
  {
    if a.VStr? {
      StrLtIrreflexive(a.s);
      if b.VStr? {
        StrLtTotal(a.s, b.s);
        if c.VStr? && StrLt(a.s, b.s) && StrLt(b.s, c.s) {
          StrLtTransitive(a.s, b.s, c.s);
        }
      }
    }
  }

  /** Non-strict order: `a` may come before `b`. */
  predicate ValLe(a: Val, b: Val)
  {
    !ValLt(b, a)
  }

  lemma ValLeTransitive(a: Val, b: Val, c: Val)
    requires ValLe(a, b) && ValLe(b, c)
    ensures ValLe(a, c)
  {
    ValLtIsStrictTotalOrder(a, b, c);
    ValLtIsStrictTotalOrder(c, a, b);
    ValLtIsStrictTotalOrder(b, c, a);
  }

  /** Every choice's value is at most every later choice's value. */
  predicate SortedByValue(cs: seq<Choice>)
  {
    forall i, j :: 0 <= i < j < |cs| ==> ValLe(cs[i].value, cs[j].value)
  }

  /** Inserts `c` before the first choice whose value is not smaller than its own. */
  function InsertByValue(c: Choice, sorted: seq<Choice>): (r: seq<Choice>)
    requires SortedByValue(sorted)
    ensures SortedByValue(r)
    ensures multiset(r) == multiset(sorted) + multiset{c}
  {
    if sorted == [] || ValLe(c.value, sorted[0].value) then
      assert forall j :: 0 <= j < |sorted| ==> ValLe(c.value, sorted[j].value) by {
        forall j | 0 < j < |sorted| ensures ValLe(c.value, sorted[j].value) {
          ValLeTransitive(c.value, sorted[0].value, sorted[j].value);
        }
      }
      [c] + sorted
    else
      var rest := InsertByValue(c, sorted[1..]);
      assert sorted == [sorted[0]] + sorted[1..];
      assert forall j :: 0 <= j < |rest| ==> ValLe(sorted[0].value, rest[j].value) by {
        forall j | 0 <= j < |rest| ensures ValLe(sorted[0].value, rest[j].value) {
          assert rest[j] in multiset(rest);
          if rest[j] != c {
            assert rest[j] in multiset(sorted[1..]);
            var k :| 0 <= k < |sorted[1..]| && sorted[1..][k] == rest[j];
            assert sorted[k + 1] == rest[j];
          } else {
            ValLtIsStrictTotalOrder(sorted[0].value, c.value, sorted[0].value);
          }
        }
      }
      [sorted[0]] + rest
  }

  /** Stable insertion sort by value: the model of `sortBy(answer, 'value')`. */
  function SortByValue(cs: seq<Choice>): (r: seq<Choice>)
    ensures SortedByValue(r)
    ensures multiset(r) == multiset(cs)
  {
    if cs == [] then []
    else
      assert cs == [cs[0]] + cs[1..];
      InsertByValue(cs[0], SortByValue(cs[1..]))
  }

  /** The choices whose value is `v`, in order. */
  function WithValue(cs: seq<Choice>, v: Val): seq<Choice>
  {
    if cs == [] then []
    else if cs[0].value == v then [cs[0]] + WithValue(cs[1..], v)
    else WithValue(cs[1..], v)
  }

  lemma WithValueCons(c: Choice, cs: seq<Choice>, v: Val)
    ensures WithValue([c] + cs, v) == (if c.value == v then [c] else []) + WithValue(cs, v)
  {
    assert ([c] + cs)[1..] == cs;
  }

  lemma {:induction false} InsertByValueStable(c: Choice, sorted: seq<Choice>, v: Val)
    requires SortedByValue(sorted)
    ensures WithValue(InsertByValue(c, sorted), v)
         == (if c.value == v then [c] else []) + WithValue(sorted, v)
  {
    if sorted == [] || ValLe(c.value, sorted[0].value) {
      WithValueCons(c, sorted, v);
    } else {
      ValLtIsStrictTotalOrder(sorted[0].value, c.value, c.value);
      InsertByValueStable(c, sorted[1..], v);
      WithValueCons(sorted[0], InsertByValue(c, sorted[1..]), v);
      WithValueCons(sorted[0], sorted[1..], v);
      assert [sorted[0]] + sorted[1..] == sorted;
    }
  }

  /**
   * The sort is stable: for every value, the choices carrying it appear in
   * the output in the same order as in the input.
   */
  lemma {:induction false} SortByValueStable(cs: seq<Choice>, v: Val)
    ensures WithValue(SortByValue(cs), v) == WithValue(cs, v)
  {
    if cs != [] {
      SortByValueStable(cs[1..], v);
      InsertByValueStable(cs[0], SortByValue(cs[1..]), v);
    }
  }
}
