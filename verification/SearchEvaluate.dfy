/** Evaluating a parsed query on a record, and what its conditions mean in terms of the texts alone. */
module SearchEvaluate {
  import opened Common
  import opened Text
  import opened SearchParser
  import opened SearchBuilder

  /** needle stands in hay from position i on. */
  predicate StandsAt(hay: string, needle: string, i: int) {
    0 <= i <= |hay| - |needle| && hay[i..i + |needle|] == needle
  }

  /** Some value of the field has the needle at some position. */
  ghost predicate SomePart(norm: string -> string, values: seq<string>, needle: string) {
    exists k, i :: 0 <= k < |values| && StandsAt(norm(values[k]), needle, i)
  }

  lemma IncludedStands(hay: string, needle: string)
    ensures Includes(hay, needle) <==> exists i :: StandsAt(hay, needle, i)
  {
    if Includes(hay, needle) {
      var before, after :| hay == before + needle + after;
      assert StandsAt(hay, needle, |before|);
    }
    if i :| StandsAt(hay, needle, i) {
      assert hay == hay[..i] + needle + hay[i + |needle|..];
    }
  }

  /**
   * Conditions in terms of the texts alone. A blank value is true of every record.
   * Otherwise contains is true exactly when some normalised value of the field has the
   * normalised needle at some position, eq when some normalised value is the needle, and
   * ne when none is; a field the record does not have has no value.
   */
  lemma ConditionsExactly(norm: string -> string, field: Field, value: string, record: Values)
    ensures norm(value) == "" ==> forall op :: Eval(norm, Term(field, op, value), record)
    ensures norm(value) != "" ==>
      (Eval(norm, Term(field, OpContains, value), record) <==>
        field in record && exists k, i :: 0 <= k < |record[field]| && StandsAt(norm(record[field][k]), norm(value), i))
    ensures norm(value) != "" ==>
      (Eval(norm, Term(field, OpEq, value), record) <==>
        field in record && exists k :: 0 <= k < |record[field]| && norm(record[field][k]) == norm(value))
    ensures norm(value) != "" ==>
      (Eval(norm, Term(field, OpNe, value), record) <==>
        field in record ==> forall k :: 0 <= k < |record[field]| ==> norm(record[field][k]) != norm(value))
  {
    var values, needle := FieldValues(record, field), norm(value);
    forall k | 0 <= k < |values|
      ensures Includes(norm(values[k]), needle) <==> exists i :: StandsAt(norm(values[k]), needle, i)
    {
      IncludedStands(norm(values[k]), needle);
    }
    hide Includes, StandsAt;
  }

  /** A value with the needle inside matches contains; values shorter than the needle never do. */
  lemma PartsMatch(norm: string -> string, field: Field, value: string, record: Values)
    requires field in record && norm(value) != ""
    ensures forall before, after, k :: 0 <= k < |record[field]| && norm(record[field][k]) == before + norm(value) + after ==>
      Eval(norm, Term(field, OpContains, value), record)
    ensures (forall k :: 0 <= k < |record[field]| ==> |norm(record[field][k])| < |norm(value)|) ==>
      !Eval(norm, Term(field, OpContains, value), record)
  {
    hide Eval;
    ConditionsExactly(norm, field, value, record);
    forall before, after, k | 0 <= k < |record[field]| && norm(record[field][k]) == before + norm(value) + after
      ensures Eval(norm, Term(field, OpContains, value), record)
    {
      assert StandsAt(norm(record[field][k]), norm(value), |before|);
    }
  }

  // ---- the loops ----

  method Contains(hay: string, needle: string) returns (r: bool)
    ensures r <==> exists i :: StandsAt(hay, needle, i)
  {
    var i := 0;
    while i + |needle| <= |hay|
      invariant forall j :: 0 <= j < i ==> !StandsAt(hay, needle, j)
    {
      if hay[i..i + |needle|] == needle {
        assert StandsAt(hay, needle, i);
        return true;
      }
      i := i + 1;
    }
    r := false;
  }

  /** One condition: some or every normalised value of the field. */
  method EvaluateTerm(norm: string -> string, field: Field, op: Op, value: string, record: Values) returns (r: bool)
    ensures r <==> Eval(norm, Term(field, op, value), record)
  {
    ConditionsExactly(norm, field, value, record);
    hide Eval;
    var needle := norm(value);
    if needle == "" {
      return true;
    }
    if field !in record {
      return op == OpNe;
    }
    var values := record[field];
    var k := 0;
    while k < |values|
      invariant k <= |values|
      invariant op == OpContains ==> forall j, i :: 0 <= j < k ==> !StandsAt(norm(values[j]), needle, i)
      invariant op != OpContains ==> forall j :: 0 <= j < k ==> norm(values[j]) != needle
    {
      if op == OpContains {
        var part := Contains(norm(values[k]), needle);
        if part {
          return true;
        }
      } else if norm(values[k]) == needle {
        return op == OpEq;
      }
      k := k + 1;
    }
    r := op == OpNe;
  }

  method EvaluateAst(norm: string -> string, ast: Ast, record: Values) returns (r: bool)
    ensures r <==> Eval(norm, ast, record)
    decreases ast
  {
    match ast
    case Term(field, op, value) =>
      r := EvaluateTerm(norm, field, op, value, record);
    case NotE(e) =>
      var inner := EvaluateAst(norm, e, record);
      r := !inner;
    case AndE(left, right) =>
      r := EvaluateAst(norm, left, record);
      if r {
        r := EvaluateAst(norm, right, record);
      }
    case OrE(left, right) =>
      r := EvaluateAst(norm, left, record);
      if !r {
        r := EvaluateAst(norm, right, record);
      }
  }

  /** No query keeps every record. */
  method EvaluateSearchAst(norm: string -> string, q: Option<Ast>, record: Values) returns (r: bool)
    ensures r <==> EvalQuery(norm, q, record)
  {
    if q.None? {
      return true;
    }
    r := EvaluateAst(norm, q.value, record);
  }
}
