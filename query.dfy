/**
 The query container: a sort string and a filter, the accessors that replace
 and return the filter, and the two compilers that turn them into a WHERE
 fragment with its bind arguments and an ORDER BY body.
 */
module Qibo {
  import opened GoStrings
  import opened Operators
  import opened Clauses
  import opened Sorting

  class Query {
    /** Comma-separated sort tokens, each a column optionally preceded by `-`. */
    var Sort: string
    /** The filter entries, in the order the compiler visits them. */
    var Filter: seq<Entry>

    constructor (sort: string, filter: seq<Entry>)
      ensures Sort == sort && Filter == filter
    {
      Sort := sort;
      Filter := filter;
    }

    /** Replaces the filter; the sort string is left as it was. */
    method SetFilter(filter: seq<Entry>)
      modifies this
      ensures Filter == filter && Sort == old(Sort)
    {
      Filter := filter;
    }

    /** The filter as last stored. */
    method GetFilter() returns (filter: seq<Entry>)
      ensures filter == Filter
    {
      filter := Filter;
    }

    /**
     The WHERE fragment and its bind arguments: one clause per entry, in
     order, joined by ` AND `, and one argument per real clause.
     `isArgNil` is the caller's test for a value that counts as absent.
     */
    method Where(isArgNil: Value -> bool) returns (where: string, args: seq<Value>)
      requires WellFormedFilter(Filter)
      ensures (where, args) == WhereOf(Filter, isArgNil)
    {
      ghost var fs := Fragments(Filter, isArgNil);
      var wheres: seq<string> := [];
      args := [];
      for i := 0 to |Filter|
        invariant wheres == Texts(fs[..i])
        invariant args == BindArgs(fs[..i])
      {
        var (k, v) := Filter[i];
        var fields := Split(k, '$');
        var columnName := fields[0];
        var isRequire := IsRequired(fields[1]);
        var opr := TranslateOperator(TrimSuffix(fields[1], "!"));
        var clause: string;
        var arg: Value := v;
        if isRequire || !isArgNil(v) {
          if opr == Operator["like"] {
            clause := columnName + " " + opr + " ?";
            var tmpArgs := AsString(v);
            arg := Str("%" + tmpArgs + "%");
          } else if opr == Operator["in"] {
            clause := columnName + " " + opr + " (?)";
          } else if opr == Operator["lte"] {
            clause := columnName + " " + opr + " ?";
            var tmpArgs := AsString(v);
            if ValidDate(tmpArgs) {
              tmpArgs := tmpArgs + " 23:59:59";
            }
            arg := Str(tmpArgs);
          } else if opr == Operator["gte"] {
            clause := columnName + " " + opr + " ?";
            var tmpArgs := AsString(v);
            if ValidDate(tmpArgs) {
              tmpArgs := tmpArgs + " 00:00:00";
            }
            arg := Str(tmpArgs);
          } else if opr == Operator["or"] {
            clause := columnName + " " + opr + " (?)";
          } else {
            clause := columnName + " " + opr + " ?";
          }
          wheres := wheres + [clause];
          args := args + [arg];
        } else {
          wheres := wheres + [Tautology];
        }
        FragmentsSnoc(fs, i);
      }
      assert fs[..|fs|] == fs;
      where := Join(wheres, " AND ");
    }

    /**
     The ORDER BY body: `""` for an empty sort string, and otherwise one
     `column ASC` or `column DESC` item per comma-separated token, joined by `,`.
     */
    method Order() returns (order: string)
      ensures order == OrderOf(Sort)
    {
      if |Sort| > 0 {
        var field := Split(Sort, ',');
        var sort := "";
        for i := 0 to |field|
          invariant i == 0 ==> sort == ""
          invariant i > 0 ==> sort == Join(SortItems(field[..i]), ",") + ","
        {
          var v := field[i];
          var item := TrimPrefix(v, "-") + " " + SortType(v);
          assert item == SortItem(v);
          SortItemsSnoc(field, i);
          sort := sort + item + ",";
        }
        assert field[..|field|] == field;
        order := sort[..|sort| - 1];
      } else {
        order := "";
      }
    }
  }

  /** One more fragment adds its text, and its argument when it is a real clause. */
  lemma FragmentsSnoc(fs: seq<Fragment>, i: nat)
    requires i < |fs|
    ensures Texts(fs[..i + 1]) == Texts(fs[..i]) + [Text(fs[i])]
    ensures BindArgs(fs[..i + 1]) == BindArgs(fs[..i]) + (if fs[i].Clause? then [fs[i].arg] else [])
  {
    assert fs[..i + 1][..i] == fs[..i];
  }

  /** One more token's item, followed by the separator. */
  lemma SortItemsSnoc(tokens: seq<string>, i: nat)
    requires i < |tokens|
    ensures i == 0 ==> Join(SortItems(tokens[..i + 1]), ",") == SortItem(tokens[i])
    ensures i > 0 ==> Join(SortItems(tokens[..i + 1]), ",") == Join(SortItems(tokens[..i]), ",") + "," + SortItem(tokens[i])
  {
    assert SortItems(tokens[..i + 1]) == SortItems(tokens[..i]) + [SortItem(tokens[i])];
    if i > 0 {
      JoinSnoc(SortItems(tokens[..i]), SortItem(tokens[i]), ",");
    }
  }
}
