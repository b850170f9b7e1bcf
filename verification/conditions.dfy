/** WHERE-clause predicates: Condition.java. */
module Conditions {
  import opened Wrappers
  import opened JavaText

  const OPERATION_EQUAL: int := 0
  const OPERATION_NOT_EQUAL: int := 1
  const OPERATION_LESS: int := 2
  const OPERATION_MORE: int := 3
  const OPERATION_LESS_EQUAL: int := 4
  const OPERATION_MORE_EQUAL: int := 5

  /** `attribute_name operate value`; the value is kept as the text the user typed. */
  datatype Condition = Condition(attributeName: string, value: string, operate: int)

  /** `if_right(int)`: the value is parsed with `Integer.parseInt` first, so a
      non-numeric value is a NumberFormatException. The two inclusive operators are
      kept exactly as written: LESS_EQUAL tests `content >= value` and MORE_EQUAL
      tests `content <= value`. */
  function IfRightInt(c: Condition, content: int): (r: Result<bool>)
    ensures r.Success? <==> ParseInt(c.value).Some?
    ensures r.Failure? ==> r.error == NumberFormat
  {
    match ParseInt(c.value)
    case None => Failure(NumberFormat)
    case Some(tmp) =>
      Success(
        if c.operate == OPERATION_EQUAL then content == tmp
        else if c.operate == OPERATION_NOT_EQUAL then content != tmp
        else if c.operate == OPERATION_LESS then content < tmp
        else if c.operate == OPERATION_MORE then content > tmp
        else if c.operate == OPERATION_LESS_EQUAL then content >= tmp
        else if c.operate == OPERATION_MORE_EQUAL then content <= tmp
        else true)
  }

  /** `if_right(String)`: equality by `equals`, the orderings by the sign of `compareTo`. */
  function IfRightString(c: Condition, content: string): bool
  {
    var cmp := CompareTo(Codes(content), Codes(c.value));
    if c.operate == OPERATION_EQUAL then content == c.value
    else if c.operate == OPERATION_NOT_EQUAL then content != c.value
    else if c.operate == OPERATION_LESS then cmp < 0
    else if c.operate == OPERATION_MORE then cmp > 0
    else if c.operate == OPERATION_LESS_EQUAL then cmp <= 0
    else if c.operate == OPERATION_MORE_EQUAL then cmp >= 0
    else true
  }

  predicate KnownOperator(op: int) { OPERATION_EQUAL <= op <= OPERATION_MORE_EQUAL }

  /** EQUAL and NOT_EQUAL are complements in the int overload. */
  lemma IntEqualNotEqualComplement(a: string, value: string, content: int)
    requires ParseInt(value).Some?
    ensures IfRightInt(Condition(a, value, OPERATION_EQUAL), content).value
        == !IfRightInt(Condition(a, value, OPERATION_NOT_EQUAL), content).value
  {
  }

  /** The int overload's LESS_EQUAL is the complement of its LESS, and MORE_EQUAL of
      MORE: the inclusive operators test the opposite direction of their names. */
  lemma IntInclusiveOperatorsSwapped(a: string, value: string, content: int)
    requires ParseInt(value).Some?
    ensures IfRightInt(Condition(a, value, OPERATION_LESS_EQUAL), content).value
        == !IfRightInt(Condition(a, value, OPERATION_LESS), content).value
    ensures IfRightInt(Condition(a, value, OPERATION_MORE_EQUAL), content).value
        == !IfRightInt(Condition(a, value, OPERATION_MORE), content).value
  {
  }

  /** EQUAL and NOT_EQUAL are complements in the String overload. */
  lemma StringEqualNotEqualComplement(a: string, value: string, content: string)
    ensures IfRightString(Condition(a, value, OPERATION_EQUAL), content)
        == !IfRightString(Condition(a, value, OPERATION_NOT_EQUAL), content)
  {
  }

  /** In the String overload the inclusive operators are the strict ones or equality. */
  lemma {:induction false} StringInclusiveOperators(a: string, value: string, content: string)
    ensures IfRightString(Condition(a, value, OPERATION_LESS_EQUAL), content)
        == (IfRightString(Condition(a, value, OPERATION_LESS), content)
            || IfRightString(Condition(a, value, OPERATION_EQUAL), content))
    ensures IfRightString(Condition(a, value, OPERATION_MORE_EQUAL), content)
        == (IfRightString(Condition(a, value, OPERATION_MORE), content)
            || IfRightString(Condition(a, value, OPERATION_EQUAL), content))
  {
    CompareToZeroIffEqual(Codes(content), Codes(value));
    if Codes(content) == Codes(value) {
      CodesInjective(content, value);
    }
  }

  /** LESS and MORE of the String overload are mirror images. */
  lemma {:induction false} StringLessMoreMirror(a: string, value: string, content: string)
    ensures IfRightString(Condition(a, value, OPERATION_LESS), content)
        == IfRightString(Condition(a, content, OPERATION_MORE), value)
  {
    CompareToAntisymmetric(Codes(content), Codes(value));
  }

  /** An operator code outside 0..5 accepts every row. */
  lemma UnknownOperatorAccepts(c: Condition, n: int, s: string)
    requires !KnownOperator(c.operate)
    ensures ParseInt(c.value).Some? ==> IfRightInt(c, n) == Success(true)
    ensures IfRightString(c, s)
  {
  }
}
