/**
 The operator vocabulary of filter keys: the fixed table from short tokens to
 SQL operator text, and the resolution of a token through it.
 */
module Operators {
  import opened GoStrings

  /** The operator table; read-only for the life of the program. */
  const Operator: map<string, string> := map[
    "gt" := ">",
    "lt" := "<",
    "eq" := "=",
    "ne" := "!=",
    "gte" := ">=",
    "lte" := "<=",
    "like" := "LIKE",
    "in" := "IN",
    "or" := "OR"
  ]

  /**
   The SQL operator of a token: the table entry of the lower-cased token, and
   equality for a token the table does not know (including the empty token).
   */
  function TranslateOperator(s: string): (r: string)
    ensures r in Operator.Values
    ensures ToLower(s) in Operator ==> r == Operator[ToLower(s)]
    ensures ToLower(s) !in Operator ==> r == "="
  {
    var t := ToLower(s);
    var op := if t in Operator then Operator[t] else "";
    if op == "" then Operator["eq"] else op
  }

  /** Resolution ignores the case of the token: `GTE`, `Gte` and `gte` all resolve alike. */
  lemma TranslateIgnoresCase(s: string)
    ensures TranslateOperator(s) == TranslateOperator(ToLower(s))
  {
    ToLowerIdempotent(s);
  }

  /**
   Each operator other than equality is reached from exactly one lower-case
   token, and equality from `eq` and from every unknown token.
   */
  lemma TranslateInverse(s: string)
    ensures forall tok :: tok in Operator && tok != "eq" ==>
              (TranslateOperator(s) == Operator[tok] <==> ToLower(s) == tok)
    ensures TranslateOperator(s) == "=" <==> (ToLower(s) == "eq" || ToLower(s) !in Operator)
  {
  }
}
