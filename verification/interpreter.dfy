/** The tokenizer of Interpreter.java and the token-to-code mappings `interprete` applies.
    The static cursor `pos` becomes an explicit argument and result. */
module Interpreter {
  import opened Wrappers
  import opened JavaText
  import Conditions
  import Catalog
  import Bytes

  const NUL: char := 0 as char
  const NEWLINE: char := 10 as char
  const QUOTE: char := 39 as char

  /** The characters the leading-space loop skips. */
  predicate IsBlank(c: char) { c == ' ' || c == NEWLINE || c == '\t' }

  /** The characters that end a bare word. */
  predicate EndsWord(c: char) { c == '(' || c == ')' || c == ' ' || c == ',' || c == NUL || c == NEWLINE }

  predicate IsPunct(c: char) { c == '(' || c == ')' || c == ',' }

  /** The leading-space loop. It reads `s.charAt(pos)` without a bounds check, so a
      suffix of blanks only ends in StringIndexOutOfBoundsException. */
  function SkipBlanks(s: string, p: nat): (r: Result<nat>)
    requires p <= |s|
    ensures r.Success? ==> p <= r.value < |s| && !IsBlank(s[r.value])
    ensures r.Success? ==> forall i :: p <= i < r.value ==> IsBlank(s[i])
    ensures r.Failure? ==> r.error == IndexOutOfBounds && forall i :: p <= i < |s| ==> IsBlank(s[i])
    decreases |s| - p
  {
    if p == |s| then Failure(IndexOutOfBounds)
    else if IsBlank(s[p]) then SkipBlanks(s, p + 1)
    else Success(p)
  }

  /** The loop inside a quoted token: the first quote or NUL at or after `p`. */
  function ScanQuoted(s: string, p: nat): (r: Result<nat>)
    requires p <= |s|
    ensures r.Success? ==> p <= r.value < |s| && (s[r.value] == QUOTE || s[r.value] == NUL)
    ensures r.Success? ==> forall i :: p <= i < r.value ==> s[i] != QUOTE && s[i] != NUL
    ensures r.Failure? ==> forall i :: p <= i < |s| ==> s[i] != QUOTE && s[i] != NUL
    decreases |s| - p
  {
    if p == |s| then Failure(IndexOutOfBounds)
    else if s[p] == QUOTE || s[p] == NUL then Success(p)
    else ScanQuoted(s, p + 1)
  }

  /** The loop of a bare word: the first word-ending character at or after `p`, or the end. */
  function ScanWord(s: string, p: nat): (r: nat)
    requires p <= |s|
    ensures p <= r <= |s|
    ensures r < |s| ==> EndsWord(s[r])
    ensures forall i :: p <= i < r ==> !EndsWord(s[i])
    decreases |s| - p
  {
    if p == |s| || EndsWord(s[p]) then p else ScanWord(s, p + 1)
  }

  /** `get_word`: the next token of `s` from `pos`, and the cursor after it. */
  function GetWord(s: string, pos: nat): (r: Result<(string, nat)>)
    ensures pos >= |s| ==> r == Success(("", pos))
    ensures r.Success? ==> pos <= r.value.1 && (pos < |s| ==> r.value.1 <= |s|)
  {
    if pos >= |s| then Success(("", pos))
    else
      var idx1 :- SkipBlanks(s, pos);
      if IsPunct(s[idx1]) then Success((s[idx1..idx1 + 1], idx1 + 1))
      else if s[idx1] == QUOTE then
        var close :- ScanQuoted(s, idx1 + 1);
        if s[close] == QUOTE then Success((s[idx1 + 1..close], close + 1))
        else Success(("", close))
      else
        var idx2 := ScanWord(s, idx1);
        Success((s[idx1..idx2], idx2))
  }

  /** What a token is, stated without the scanning loops: after the blanks skipped up to
      `start` comes either a single punctuation character, a quoted text, or a maximal run
      of non-delimiters. */
  lemma GetWordShape(s: string, pos: nat)
    requires pos < |s|
    requires GetWord(s, pos).Success?
    ensures var start := SkipBlanks(s, pos).value;
      var (w, p) := GetWord(s, pos).value;
      && (IsPunct(s[start]) ==> w == [s[start]] && p == start + 1)
      && (s[start] == QUOTE ==>
            (start + 2 <= p <= |s| && s[p - 1] == QUOTE && w == s[start + 1..p - 1]
             && QUOTE !in w && NUL !in w)
            || (w == "" && start < p < |s| && s[p] == NUL
                && forall i :: start < i < p ==> s[i] != QUOTE))
      && (!IsPunct(s[start]) && s[start] != QUOTE ==>
            start <= p <= |s| && w == s[start..p]
            && (forall i :: 0 <= i < |w| ==> !EndsWord(w[i]))
            && (p == |s| || EndsWord(s[p])))
  {
    var start := SkipBlanks(s, pos).value;
    var (w, p) := GetWord(s, pos).value;
    if s[start] == QUOTE {
      var close := ScanQuoted(s, start + 1).value;
      if s[close] == QUOTE {
        assert p == close + 1;
        assert w == s[start + 1..close];
        forall i | 0 <= i < |w| ensures w[i] != QUOTE && w[i] != NUL {
          assert w[i] == s[start + 1 + i];
        }
      } else {
        assert p == close && w == "";
      }
    }
    if !IsPunct(s[start]) && s[start] != QUOTE {
      assert forall i :: 0 <= i < |w| ==> w[i] == s[start + i];
    }
  }

  /** `get_word` fails exactly when only blanks remain, or a quote is never closed. */
  lemma GetWordFailure(s: string, pos: nat)
    requires pos < |s|
    ensures GetWord(s, pos).Failure? <==>
      (forall i :: pos <= i < |s| ==> IsBlank(s[i]))
      || (exists q :: pos <= q < |s| && s[q] == QUOTE
            && (forall i :: pos <= i < q ==> IsBlank(s[i]))
            && (forall i :: q < i < |s| ==> s[i] != QUOTE && s[i] != NUL))
  {
    var sk := SkipBlanks(s, pos);
    if sk.Success? {
      var q := sk.value;
      forall q' | pos <= q' < |s| && s[q'] == QUOTE && (forall i :: pos <= i < q' ==> IsBlank(s[i]))
        ensures q' == q
      {
        assert !IsBlank(s[q']);
        assert !IsBlank(s[q]);
      }
      if s[q] == QUOTE {
        var sc := ScanQuoted(s, q + 1);
        if sc.Success? {
          assert q < sc.value < |s|;
        }
      }
    }
  }

  /** get_word at `pos` succeeds with the token `word`. */
  predicate TokenIs(s: string, pos: nat, word: string)
  {
    GetWord(s, pos).Success? && GetWord(s, pos).value.0 == word
  }

  /** The cursor get_word leaves after the token at `pos`. */
  function After(s: string, pos: nat): nat
    requires GetWord(s, pos).Success?
  {
    GetWord(s, pos).value.1
  }

  /** The column-type mapping of `create table`: `int` is -1, `float` is 0 and
      `char ( n )` is n as `Integer.parseInt` reads it. The cursor starts at the type word. */
  function ColumnType(s: string, pos: nat): (r: Result<(int, nat)>)
    ensures r.Success? ==> pos <= r.value.1 && Bytes.IsInt32(r.value.0)
    ensures GetWord(s, pos).Failure? ==> r.Failure?
    ensures GetWord(s, pos).Success? && GetWord(s, pos).value.0 == "int" ==> r == Success((Catalog.INT_TYPE, GetWord(s, pos).value.1))
    ensures GetWord(s, pos).Success? && GetWord(s, pos).value.0 == "float" ==> r == Success((Catalog.FLOAT_TYPE, GetWord(s, pos).value.1))
    ensures GetWord(s, pos).Success? && GetWord(s, pos).value.0 !in {"int", "float", "char"} ==> r == Failure(SyntaxError)
    ensures TokenIs(s, pos, "char") ==>
      var p1 := After(s, pos);
      && (GetWord(s, p1).Failure? ==> r == Failure(GetWord(s, p1).error))
      && (GetWord(s, p1).Success? && GetWord(s, p1).value.0 != "(" ==> r == Failure(SyntaxError))
      && (TokenIs(s, p1, "(") ==>
            var p2 := After(s, p1);
            && (GetWord(s, p2).Failure? ==> r == Failure(GetWord(s, p2).error))
            && (GetWord(s, p2).Success? && ParseInt(GetWord(s, p2).value.0).None? ==> r == Failure(SyntaxError))
            && (GetWord(s, p2).Success? && ParseInt(GetWord(s, p2).value.0).Some? ==>
                  var n := ParseInt(GetWord(s, p2).value.0).value;
                  var p3 := After(s, p2);
                  && (GetWord(s, p3).Failure? ==> r == Failure(GetWord(s, p3).error))
                  && (GetWord(s, p3).Success? && GetWord(s, p3).value.0 != ")" ==> r == Failure(SyntaxError))
                  && (TokenIs(s, p3, ")") ==> r == Success((n, After(s, p3))))))
  {
    var (word, p1) :- GetWord(s, pos);
    if word == "int" then Success((Catalog.INT_TYPE, p1))
    else if word == "float" then Success((Catalog.FLOAT_TYPE, p1))
    else if word == "char" then
      var (open, p2) :- GetWord(s, p1);
      if open != "(" then Failure(SyntaxError)
      else
        var (size, p3) :- GetWord(s, p2);
        match ParseInt(size)
        case None => Failure(SyntaxError)
        case Some(n) =>
          var (close, p4) :- GetWord(s, p3);
          if close != ")" then Failure(SyntaxError) else Success((n, p4))
    else Failure(SyntaxError)
  }

  /** The comparison-operator mapping of the `where` clauses. */
  function OperatorCode(word: string): (r: Option<int>)
    ensures r.Some? ==> Conditions.KnownOperator(r.value)
    ensures r.Some? <==> word in {"<=", ">=", "=", "<>", "<", ">"}
  {
    if word == "<=" then Some(Conditions.OPERATION_LESS_EQUAL)
    else if word == ">=" then Some(Conditions.OPERATION_MORE_EQUAL)
    else if word == "=" then Some(Conditions.OPERATION_EQUAL)
    else if word == "<>" then Some(Conditions.OPERATION_NOT_EQUAL)
    else if word == "<" then Some(Conditions.OPERATION_LESS)
    else if word == ">" then Some(Conditions.OPERATION_MORE)
    else None
  }

  /** Distinct operator words map to distinct codes, so the mapping can be read back. */
  lemma OperatorCodeInjective(a: string, b: string)
    requires OperatorCode(a).Some? && OperatorCode(a) == OperatorCode(b)
    ensures a == b
  {
  }

  /** `int` maps to -1 and leaves the cursor on the comma. */
  lemma ColumnTypeIntExample()
    ensures ColumnType("int,", 0) == Success((-1, 3))
  {
    var a := "int,";
    assert SkipBlanks(a, 0) == Success(0);
    assert ScanWord(a, 3) == 3;
    assert ScanWord(a, 1) == 3;
    assert a[0..3] == "int";
  }

  /** The first two tokens of `char ( 12 ) ,`. */
  lemma CharExampleOpening()
    ensures GetWord("char ( 12 ) ,", 0) == Success(("char", 4))
    ensures GetWord("char ( 12 ) ,", 4) == Success(("(", 6))
  {
    var s := "char ( 12 ) ,";
    assert SkipBlanks(s, 0) == Success(0);
    assert ScanWord(s, 4) == 4;
    assert ScanWord(s, 2) == 4;
    assert ScanWord(s, 0) == 4;
    assert s[0..4] == "char";
    assert SkipBlanks(s, 4) == Success(5);
    assert s[5..6] == "(";
  }

  /** The size and the closing parenthesis of `char ( 12 ) ,`. */
  lemma CharExampleClosing()
    ensures GetWord("char ( 12 ) ,", 6) == Success(("12", 9))
    ensures ParseInt("12") == Some(12)
    ensures GetWord("char ( 12 ) ,", 9) == Success((")", 11))
  {
    var s := "char ( 12 ) ,";
    assert SkipBlanks(s, 6) == Success(7);
    assert ScanWord(s, 9) == 9;
    assert ScanWord(s, 7) == 9;
    assert s[7..9] == "12";
    assert AllDigits("12");
    assert DigitsValue("12"[..1]) == 1;
    assert SkipBlanks(s, 9) == Success(10);
    assert s[10..11] == ")";
  }

  /** `char ( 12 )` maps to 12, read through four tokens. */
  lemma ColumnTypeCharExample()
    ensures ColumnType("char ( 12 ) ,", 0) == Success((12, 11))
  {
    CharExampleOpening();
    CharExampleClosing();
  }
}
