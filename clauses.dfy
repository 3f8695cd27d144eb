/**
 The clause compiler's specification: filter values and entries, the key
 grammar `column$operator[!]`, the per-operator shaping of a clause and its
 bind argument, and the WHERE fragment with its argument list for a whole
 filter taken in a given order.
 */
module Clauses {
  import opened GoStrings
  import opened Operators

  /** A filter value: Go's `interface{}` as a tagged variant. */
  datatype Value = Str(s: string) | Int(i: int) | Bool(b: bool) | List(items: seq<Value>) | Nil

  /** One filter entry: a key `column$operator[!]` and its value. */
  type Entry = (string, Value)

  /**
   What one entry contributes to the WHERE fragment: the tautology ` 1 = 1 `
   with no bind argument, or a clause with exactly one bind argument.
   */
  datatype Fragment = Placeholder | Clause(text: string, arg: Value)

  const Tautology: string := " 1 = 1 "

  function Text(f: Fragment): string
  {
    if f.Placeholder? then Tautology else f.text
  }

  // ---------------------------------------------------------------------------
  // The key grammar

  /**
   A key the compiler can take apart: it has a `$`, and the segment after the
   first `$` is not empty. Any other key makes `query.go` fail at run time.
   */
  predicate WellFormedKey(key: string)
  {
    var fields := Split(key, '$');
    |fields| >= 2 && fields[1] != ""
  }

  predicate WellFormedFilter(filter: seq<Entry>)
  {
    forall i :: 0 <= i < |filter| ==> WellFormedKey(filter[i].0)
  }

  /** The column: everything before the first `$`. */
  function Column(key: string): string
    requires WellFormedKey(key)
  {
    Split(key, '$')[0]
  }

  /** The operator token with its optional `!`: the segment after the first `$`. */
  function OperatorSegment(key: string): string
    requires WellFormedKey(key)
  {
    Split(key, '$')[1]
  }

  /** A segment that ends in `!` marks a required filter. */
  predicate IsRequired(segment: string)
    requires segment != ""
  {
    segment[|segment| - 1] == '!'
  }

  /** The required mark is exactly a trailing `!`, the suffix the operator token drops. */
  lemma RequiredMark(segment: string)
    requires segment != ""
    ensures IsRequired(segment) <==> HasSuffix(segment, "!")
    ensures IsRequired(segment) <==> TrimSuffix(segment, "!") != segment
  {
    assert segment[|segment| - 1..] == [segment[|segment| - 1]];
  }

  /** The operator token: the segment with one trailing `!` removed. */
  function OperatorToken(key: string): string
    requires WellFormedKey(key)
  {
    TrimSuffix(OperatorSegment(key), "!")
  }

  /** A well-formed key is its column, a `$`, its segment, and then nothing or another `$`. */
  lemma {:induction false} KeySegments(key: string)
    requires WellFormedKey(key)
    ensures HasPrefix(key, Column(key) + "$" + OperatorSegment(key))
    ensures var n := |Column(key) + "$" + OperatorSegment(key)|;
            n == |key| || key[n] == '$'
  {
    var fields := Split(key, '$');
    JoinSplit(key, '$');
    assert Join(fields, "$") == fields[0] + "$" + Join(fields[1..], "$");
    if |fields| > 2 {
      assert Join(fields[1..], "$") == fields[1] + "$" + Join(fields[2..], "$");
    }
  }

  /**
   The key grammar read forwards: a column without `$`, a token without `$`,
   an optional `!` and an ignored tail starting with `$` make a well-formed key
   whose column, token and required mark are the ones put in.
   */
  lemma KeyGrammar(column: string, token: string, required: bool, tail: string)
    requires '$' !in column && '$' !in token
    requires required || (token != "" && token[|token| - 1] != '!')
    requires tail == "" || tail[0] == '$'
    ensures var key := column + "$" + token + (if required then "!" else "") + tail;
            && WellFormedKey(key)
            && Column(key) == column
            && IsRequired(OperatorSegment(key)) == required
            && OperatorToken(key) == token
  {
    var segment := token + (if required then "!" else "");
    var key := column + "$" + token + (if required then "!" else "") + tail;
    assert key == column + ['$'] + (segment + tail);
    SplitAt(column, segment + tail, '$');
    if tail == "" {
      assert segment + tail == segment;
      SplitWithout(segment, '$');
    } else {
      assert segment + tail == segment + ['$'] + tail[1..];
      SplitAt(segment, tail[1..], '$');
    }
    assert Split(key, '$')[1] == segment;
    SegmentMark(token, required);
  }

  /** The segment of the key grammar: the token and, when required, one `!`. */
  lemma SegmentMark(token: string, required: bool)
    requires required || (token != "" && token[|token| - 1] != '!')
    ensures var segment := token + (if required then "!" else "");
            && segment != ""
            && IsRequired(segment) == required
            && TrimSuffix(segment, "!") == token
  {
    var segment := token + (if required then "!" else "");
    if required {
      assert HasSuffix(segment, "!");
      assert segment[..|segment| - 1] == token;
    } else {
      assert segment == token;
      assert segment[|segment| - 1..][0] == segment[|segment| - 1];
      assert !HasSuffix(segment, "!");
    }
  }

  // ---------------------------------------------------------------------------
  // Argument shaping

  predicate IsDigit(c: char)
  {
    '0' <= c <= '9'
  }

  predicate AllDigits(s: string)
  {
    forall i :: 0 <= i < |s| ==> IsDigit(s[i])
  }

  /**
   The anchored pattern `^[0-9]{4}-[0-9]{2}-[0-9]{2}$`: exactly ten
   characters, ASCII digits except for `-` at positions 4 and 7.
   */
  predicate ValidDate(s: string)
  {
    && |s| == 10
    && s[4] == '-'
    && s[7] == '-'
    && forall i :: 0 <= i < 10 && i != 4 && i != 7 ==> IsDigit(s[i])
  }

  /** The date pattern read as three digit groups joined by `-`. */
  lemma ValidDateParts(s: string)
    ensures ValidDate(s) <==>
            && |s| == 10
            && AllDigits(s[..4])
            && s == s[..4] + "-" + s[5..7] + "-" + s[8..]
            && AllDigits(s[5..7]) && AllDigits(s[8..])
  {
    if |s| == 10 && AllDigits(s[..4]) && AllDigits(s[5..7]) && AllDigits(s[8..]) {
      forall i | 0 <= i < 10 && i != 4 && i != 7
        ensures IsDigit(s[i])
      {
        if i < 4 {
          assert s[..4][i] == s[i];
        } else if i < 7 {
          assert s[5..7][i - 5] == s[i];
        } else {
          assert s[8..][i - 8] == s[i];
        }
      }
    }
  }

  /** `v.(string)` with the ok flag dropped: the string, or `""` for any other dynamic type. */
  function AsString(v: Value): (s: string)
    ensures v == Str(s) || (!v.Str? && s == "")
  {
    if v.Str? then v.s else ""
  }

  /** The end of the day for a date; any other string is left as it is. */
  function EndOfDay(s: string): (r: string)
    ensures HasPrefix(r, s)
    ensures r != s <==> ValidDate(s)
    ensures ValidDate(s) ==> |r| == 19 && HasSuffix(r, " 23:59:59")
  {
    if ValidDate(s) then s + " 23:59:59" else s
  }

  /** The start of the day for a date; any other string is left as it is. */
  function StartOfDay(s: string): (r: string)
    ensures HasPrefix(r, s)
    ensures r != s <==> ValidDate(s)
    ensures ValidDate(s) ==> |r| == 19 && HasSuffix(r, " 00:00:00")
  {
    if ValidDate(s) then s + " 00:00:00" else s
  }

  /** The `switch` on the resolved operator: the clause text and its one argument. */
  function Shape(column: string, opr: string, v: Value): (f: Fragment)
    ensures f.Clause?
  {
    if opr == Operator["like"] then Clause(column + " " + opr + " ?", Str("%" + AsString(v) + "%"))
    else if opr == Operator["in"] then Clause(column + " " + opr + " (?)", v)
    else if opr == Operator["lte"] then Clause(column + " " + opr + " ?", Str(EndOfDay(AsString(v))))
    else if opr == Operator["gte"] then Clause(column + " " + opr + " ?", Str(StartOfDay(AsString(v))))
    else if opr == Operator["or"] then Clause(column + " " + opr + " (?)", v)
    else Clause(column + " " + opr + " ?", v)
  }

  /**
   What one entry contributes. The placeholder is chosen exactly when the
   filter is optional and the value counts as absent.
   */
  function Compile(e: Entry, isArgNil: Value -> bool): (f: Fragment)
    requires WellFormedKey(e.0)
    ensures f.Placeholder? <==> !IsRequired(OperatorSegment(e.0)) && isArgNil(e.1)
  {
    var fields := Split(e.0, '$');
    var opr := TranslateOperator(TrimSuffix(fields[1], "!"));
    if IsRequired(fields[1]) || !isArgNil(e.1) then Shape(fields[0], opr, e.1) else Placeholder
  }

  /** An entry that is compiled to a real clause: required, or with a value present. */
  predicate Included(e: Entry, isArgNil: Value -> bool)
    requires WellFormedKey(e.0)
  {
    IsRequired(OperatorSegment(e.0)) || !isArgNil(e.1)
  }

  /** `like`: the column, `LIKE ?`, and the value inside `%` wildcards (`%%` for a non-string). */
  lemma LikeClause(e: Entry, isArgNil: Value -> bool)
    requires WellFormedKey(e.0) && Included(e, isArgNil)
    requires ToLower(OperatorToken(e.0)) == "like"
    ensures e.1.Str? ==> Compile(e, isArgNil) == Clause(Column(e.0) + " LIKE ?", Str("%" + e.1.s + "%"))
    ensures !e.1.Str? ==> Compile(e, isArgNil) == Clause(Column(e.0) + " LIKE ?", Str("%%"))
  {
    assert "%" + "" + "%" == "%%";
  }

  /** `in` and `or`: the column, the operator, `(?)`, and the value unchanged as the one argument. */
  lemma InOrClause(e: Entry, isArgNil: Value -> bool)
    requires WellFormedKey(e.0) && Included(e, isArgNil)
    requires ToLower(OperatorToken(e.0)) in {"in", "or"}
    ensures ToLower(OperatorToken(e.0)) == "in" ==> Compile(e, isArgNil) == Clause(Column(e.0) + " IN (?)", e.1)
    ensures ToLower(OperatorToken(e.0)) == "or" ==> Compile(e, isArgNil) == Clause(Column(e.0) + " OR (?)", e.1)
  {
  }

  /**
   `lte` and `gte`: a date `DDDD-DD-DD` is widened to the end or the start of
   its day, any other string is passed unchanged, and a non-string becomes `""`.
   */
  lemma DateClause(e: Entry, isArgNil: Value -> bool)
    requires WellFormedKey(e.0) && Included(e, isArgNil)
    requires ToLower(OperatorToken(e.0)) in {"lte", "gte"}
    ensures var opr := if ToLower(OperatorToken(e.0)) == "lte" then "<=" else ">=";
            Compile(e, isArgNil).text == Column(e.0) + " " + opr + " ?"
    ensures e.1.Str? && ValidDate(e.1.s) && ToLower(OperatorToken(e.0)) == "lte" ==>
              Compile(e, isArgNil).arg == Str(e.1.s + " 23:59:59")
    ensures e.1.Str? && ValidDate(e.1.s) && ToLower(OperatorToken(e.0)) == "gte" ==>
              Compile(e, isArgNil).arg == Str(e.1.s + " 00:00:00")
    ensures e.1.Str? && !ValidDate(e.1.s) ==> Compile(e, isArgNil).arg == e.1
    ensures !e.1.Str? ==> Compile(e, isArgNil).arg == Str("")
  {
  }

  /**
   Every other operator, and every unknown token through equality: the
   column, the operator, `?`, and the value unchanged.
   */
  lemma PassthroughClause(e: Entry, isArgNil: Value -> bool)
    requires WellFormedKey(e.0) && Included(e, isArgNil)
    requires ToLower(OperatorToken(e.0)) !in {"like", "in", "or", "lte", "gte"}
    ensures TranslateOperator(OperatorToken(e.0)) in {">", "<", "=", "!="}
    ensures Compile(e, isArgNil) == Clause(Column(e.0) + " " + TranslateOperator(OperatorToken(e.0)) + " ?", e.1)
    ensures ToLower(OperatorToken(e.0)) !in Operator ==> Compile(e, isArgNil) == Clause(Column(e.0) + " = ?", e.1)
  {
  }

  /** Only the operator text matters: two keys whose tokens differ in case compile alike. */
  lemma CompileIgnoresCase(e: Entry, e': Entry, isArgNil: Value -> bool)
    requires WellFormedKey(e.0) && WellFormedKey(e'.0)
    requires e.1 == e'.1 && Column(e.0) == Column(e'.0)
    requires IsRequired(OperatorSegment(e.0)) == IsRequired(OperatorSegment(e'.0))
    requires ToLower(OperatorToken(e.0)) == ToLower(OperatorToken(e'.0))
    ensures Compile(e, isArgNil) == Compile(e', isArgNil)
  {
    TranslateIgnoresCase(OperatorToken(e.0));
    TranslateIgnoresCase(OperatorToken(e'.0));
  }

  /**
   Compiling an entry whose key is built by the grammar: only the column, the
   token and the required mark matter, and any further `$` segments are ignored.
   */
  lemma CompileKey(column: string, token: string, required: bool, tail: string, v: Value, isArgNil: Value -> bool)
    requires '$' !in column && '$' !in token
    requires required || (token != "" && token[|token| - 1] != '!')
    requires tail == "" || tail[0] == '$'
    ensures var key := column + "$" + token + (if required then "!" else "") + tail;
            && WellFormedKey(key)
            && Compile((key, v), isArgNil) ==
               if required || !isArgNil(v) then Shape(column, TranslateOperator(token), v) else Placeholder
  {
    KeyGrammar(column, token, required, tail);
  }

  /** `col$eq!` keeps its clause `col = ?` whatever the value, absent or not. */
  lemma RequiredExample(column: string, v: Value, isArgNil: Value -> bool)
    requires '$' !in column
    ensures WellFormedKey(column + "$eq!")
    ensures Compile((column + "$eq!", v), isArgNil) == Clause(column + " = ?", v)
  {
    assert column + "$eq!" == column + "$" + "eq" + "!" + "";
    assert TranslateOperator("eq") == "=" by {
      assert ToLower("eq") == "eq";
    }
    assert Shape(column, "=", v) == Clause(column + " = ?", v);
    CompileKey(column, "eq", true, "", v, isArgNil);
  }

  /** `col$eq` with an absent value is the tautology, which takes no argument. */
  lemma OptionalExample(column: string, v: Value, isArgNil: Value -> bool)
    requires '$' !in column && isArgNil(v)
    ensures WellFormedKey(column + "$eq")
    ensures Compile((column + "$eq", v), isArgNil) == Placeholder
    ensures Text(Compile((column + "$eq", v), isArgNil)) == " 1 = 1 "
  {
    CompileKey(column, "eq", false, "", v, isArgNil);
    assert column + "$eq" == column + "$" + "eq" + "" + "";
  }

  /** An unknown token resolves to equality: `col$xyz` gives `col = ?`. */
  lemma UnknownTokenExample(column: string, v: Value, isArgNil: Value -> bool)
    requires '$' !in column && !isArgNil(v)
    ensures WellFormedKey(column + "$xyz")
    ensures Compile((column + "$xyz", v), isArgNil) == Clause(column + " = ?", v)
  {
    assert column + "$xyz" == column + "$" + "xyz" + "" + "";
    assert TranslateOperator("xyz") == "=" by {
      assert ToLower("xyz") == "xyz";
    }
    assert Shape(column, "=", v) == Clause(column + " = ?", v);
    CompileKey(column, "xyz", false, "", v, isArgNil);
  }

  /** `col$like` with a string `s` gives `col LIKE ?` and the argument `%s%`. */
  lemma LikeExample(column: string, s: string, isArgNil: Value -> bool)
    requires '$' !in column && !isArgNil(Str(s))
    ensures WellFormedKey(column + "$like")
    ensures Compile((column + "$like", Str(s)), isArgNil) == Clause(column + " LIKE ?", Str("%" + s + "%"))
  {
    assert column + "$like" == column + "$" + "like" + "" + "";
    assert TranslateOperator("like") == "LIKE" by {
      assert ToLower("like") == "like";
    }
    assert Shape(column, "LIKE", Str(s)) == Clause(column + " LIKE ?", Str("%" + s + "%"));
    CompileKey(column, "like", false, "", Str(s), isArgNil);
  }

  /** `col$GTE` with a date `d` gives `col >= ?` and the start of that day. */
  lemma DateExample(column: string, d: string, isArgNil: Value -> bool)
    requires '$' !in column && ValidDate(d) && !isArgNil(Str(d))
    ensures WellFormedKey(column + "$GTE")
    ensures Compile((column + "$GTE", Str(d)), isArgNil) == Clause(column + " >= ?", Str(d + " 00:00:00"))
  {
    assert column + "$GTE" == column + "$" + "GTE" + "" + "";
    assert TranslateOperator("GTE") == ">=" by {
      assert ToLower("GTE") == "gte";
    }
    assert Shape(column, ">=", Str(d)) == Clause(column + " >= ?", Str(d + " 00:00:00"));
    CompileKey(column, "GTE", false, "", Str(d), isArgNil);
  }

  // ---------------------------------------------------------------------------
  // A whole filter

  function Fragments(filter: seq<Entry>, isArgNil: Value -> bool): (fs: seq<Fragment>)
    requires WellFormedFilter(filter)
    ensures |fs| == |filter|
  {
    seq(|filter|, i requires 0 <= i < |filter| && WellFormedFilter(filter) => Compile(filter[i], isArgNil))
  }

  function Texts(fs: seq<Fragment>): (ts: seq<string>)
    ensures |ts| == |fs|
  {
    seq(|fs|, i requires 0 <= i < |fs| => Text(fs[i]))
  }

  /** The bind arguments of the real clauses, in clause order. */
  function BindArgs(fs: seq<Fragment>): seq<Value>
  {
    if |fs| == 0 then []
    else BindArgs(fs[..|fs| - 1]) + (if fs[|fs| - 1].Clause? then [fs[|fs| - 1].arg] else [])
  }

  /** Number of real clauses. */
  function ClauseCount(fs: seq<Fragment>): nat
  {
    if |fs| == 0 then 0
    else ClauseCount(fs[..|fs| - 1]) + (if fs[|fs| - 1].Clause? then 1 else 0)
  }

  /** The WHERE fragment (clauses joined by ` AND `) and its bind arguments. */
  function WhereOf(filter: seq<Entry>, isArgNil: Value -> bool): (string, seq<Value>)
    requires WellFormedFilter(filter)
  {
    var fs := Fragments(filter, isArgNil);
    (Join(Texts(fs), " AND "), BindArgs(fs))
  }

  /**
   One bind argument per real clause, and the argument of the clause at
   position i sits at the position given by the real clauses before it.
   */
  lemma {:induction false} ArgsAlignment(fs: seq<Fragment>)
    ensures |BindArgs(fs)| == ClauseCount(fs)
    ensures forall i :: 0 <= i < |fs| && fs[i].Clause? ==>
              ClauseCount(fs[..i]) < |BindArgs(fs)| && BindArgs(fs)[ClauseCount(fs[..i])] == fs[i].arg
  {
    if |fs| > 0 {
      var p := fs[..|fs| - 1];
      ArgsAlignment(p);
      forall i | 0 <= i < |fs| && fs[i].Clause?
        ensures ClauseCount(fs[..i]) < |BindArgs(fs)| && BindArgs(fs)[ClauseCount(fs[..i])] == fs[i].arg
      {
        if i < |p| {
          assert fs[..i] == p[..i];
          assert fs[i] == p[i];
        } else {
          assert fs[..i] == p;
        }
      }
    }
  }

  /** The number of `?` in a fragment's text: one for a real clause, none for the placeholder. */
  predicate Marked(f: Fragment)
  {
    CountChar(Text(f), '?') == if f.Clause? then 1 else 0
  }

  lemma {:induction false} MarksCount(fs: seq<Fragment>)
    requires forall i :: 0 <= i < |fs| ==> Marked(fs[i])
    ensures SumCount(Texts(fs), '?') == ClauseCount(fs)
  {
    if |fs| > 0 {
      var p := fs[..|fs| - 1];
      assert Texts(fs)[..|fs| - 1] == Texts(p);
      MarksCount(p);
      assert Marked(fs[|fs| - 1]);
    }
  }

  /** No operator text of the table contains `?`. */
  lemma OperatorsUnmarked(s: string)
    ensures '?' !in TranslateOperator(s)
  {
    var t := ToLower(s);
    if t !in {"gt", "lt", "eq", "ne", "gte", "lte", "like", "in", "or"} {
      assert t !in Operator;
    }
  }

  lemma {:induction false} ClauseTextMarked(column: string, opr: string, tail: string)
    requires '?' !in column && '?' !in opr
    requires tail == " ?" || tail == " (?)"
    ensures CountChar(column + " " + opr + tail, '?') == 1
  {
    CountCharAbsent(column + " " + opr, '?');
    CountCharConcat(column + " " + opr, tail, '?');
    assert CountChar(tail, '?') == 1 by {
      if tail == " ?" {
        assert tail[1..] == "?" && tail[1..][1..] == "";
        assert CountChar("?", '?') == 1;
      } else {
        assert tail[1..] == "(?)" && tail[1..][1..] == "?)" && tail[1..][1..][1..] == ")";
        assert ")"[1..] == "";
        assert CountChar(")", '?') == 0;
        assert CountChar("?)", '?') == 1;
        assert CountChar("(?)", '?') == 1;
      }
    }
  }

  lemma ShapeMarked(column: string, opr: string, v: Value)
    requires '?' !in column && '?' !in opr
    ensures Marked(Shape(column, opr, v))
  {
    if opr == Operator["in"] || opr == Operator["or"] {
      ClauseTextMarked(column, opr, " (?)");
    } else {
      ClauseTextMarked(column, opr, " ?");
    }
  }

  /** A compiled entry whose column has no `?` carries exactly as many `?` as arguments. */
  lemma CompileMarked(e: Entry, isArgNil: Value -> bool)
    requires WellFormedKey(e.0) && '?' !in Column(e.0)
    ensures Marked(Compile(e, isArgNil))
  {
    if Compile(e, isArgNil).Placeholder? {
      CountCharAbsent(Tautology, '?');
    } else {
      OperatorsUnmarked(OperatorToken(e.0));
      ShapeMarked(Column(e.0), TranslateOperator(OperatorToken(e.0)), e.1);
    }
  }

  /**
   When no column contains `?`, the WHERE fragment has exactly as many `?`
   placeholders as there are bind arguments.
   */
  lemma PlaceholdersMatchArgs(filter: seq<Entry>, isArgNil: Value -> bool)
    requires WellFormedFilter(filter)
    requires forall i :: 0 <= i < |filter| ==> '?' !in Column(filter[i].0)
    ensures CountChar(WhereOf(filter, isArgNil).0, '?') == |WhereOf(filter, isArgNil).1|
  {
    var fs := Fragments(filter, isArgNil);
    forall i | 0 <= i < |fs|
      ensures Marked(fs[i])
    {
      CompileMarked(filter[i], isArgNil);
    }
    MarksCount(fs);
    ArgsAlignment(fs);
    CountCharJoin(Texts(fs), " AND ", '?');
  }

  /** Taking the first element of one sequence out of another that holds the same elements. */
  lemma PermutationStep<T>(s1: seq<T>, s2: seq<T>, j: nat)
    requires multiset(s1) == multiset(s2) && |s1| > 0 && j < |s2| && s2[j] == s1[0]
    ensures multiset(s1[1..]) == multiset(s2[..j] + s2[j + 1..])
  {
    assert s1 == [s1[0]] + s1[1..];
    assert s2 == s2[..j] + [s2[j]] + s2[j + 1..];
    var a, b := multiset(s1[1..]), multiset(s2[..j] + s2[j + 1..]);
    assert multiset(s1) == a + multiset{s1[0]};
    assert multiset(s2) == b + multiset{s1[0]};
    assert forall y :: a[y] == b[y] by {
      forall y ensures a[y] == b[y] {
        assert (a + multiset{s1[0]})[y] == (b + multiset{s1[0]})[y];
      }
    }
  }

  /** The converse of PermutationStep: putting the same element back into both. */
  lemma PermutationUnstep<T>(s1: seq<T>, s2: seq<T>, j: nat)
    requires |s1| > 0 && j < |s2| && s2[j] == s1[0]
    requires multiset(s1[1..]) == multiset(s2[..j] + s2[j + 1..])
    ensures multiset(s1) == multiset(s2)
  {
    assert s1 == [s1[0]] + s1[1..];
    assert s2 == s2[..j] + [s2[j]] + s2[j + 1..];
  }

  /** The same entries, in any order, are all well formed when one ordering is. */
  lemma WellFormedPermutation(f1: seq<Entry>, f2: seq<Entry>)
    requires WellFormedFilter(f1) && multiset(f1) == multiset(f2)
    ensures WellFormedFilter(f2)
  {
    forall i | 0 <= i < |f2|
      ensures WellFormedKey(f2[i].0)
    {
      assert f2[i] in multiset(f1);
      var j :| 0 <= j < |f1| && f1[j] == f2[i];
    }
  }

  lemma FragmentsRemove(f: seq<Entry>, j: nat, isArgNil: Value -> bool)
    requires WellFormedFilter(f) && j < |f|
    ensures WellFormedFilter(f[..j] + f[j + 1..])
    ensures var fs := Fragments(f, isArgNil);
            Fragments(f[..j] + f[j + 1..], isArgNil) == fs[..j] + fs[j + 1..]
  {
    var r := f[..j] + f[j + 1..];
    assert forall i :: 0 <= i < |r| ==> r[i] == if i < j then f[i] else f[i + 1];
  }

  /**
   Iteration order does not matter up to order: two filters holding the same
   entries compile to the same clauses with the same arguments.
   */
  lemma {:induction false} FragmentsIgnoreOrder(f1: seq<Entry>, f2: seq<Entry>, isArgNil: Value -> bool)
    requires WellFormedFilter(f1) && multiset(f1) == multiset(f2)
    ensures WellFormedFilter(f2)
    ensures multiset(Fragments(f1, isArgNil)) == multiset(Fragments(f2, isArgNil))
    decreases |f1|
  {
    WellFormedPermutation(f1, f2);
    if |f1| > 0 {
      var x := f1[0];
      assert x in multiset(f2);
      var j :| 0 <= j < |f2| && f2[j] == x;
      var rest2 := f2[..j] + f2[j + 1..];
      PermutationStep(f1, f2, j);
      assert f1[..0] + f1[1..] == f1[1..];
      FragmentsRemove(f1, 0, isArgNil);
      FragmentsRemove(f2, j, isArgNil);
      FragmentsIgnoreOrder(f1[1..], rest2, isArgNil);
      var fs1, fs2 := Fragments(f1, isArgNil), Fragments(f2, isArgNil);
      assert fs1[..0] + fs1[1..] == fs1[1..];
      PermutationUnstep(fs1, fs2, j);
    }
  }
}
