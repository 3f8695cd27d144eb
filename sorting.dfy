/**
 The sort compiler's specification: a comma-separated list of sort tokens,
 each a column optionally preceded by `-`, becomes a comma-separated list of
 `column ASC` / `column DESC` items.
 */
module Sorting {
  import opened GoStrings

  /** The direction of one token: descending exactly when it starts with `-`. */
  function SortType(token: string): (r: string)
    ensures r in {"ASC", "DESC"}
    ensures r == "DESC" <==> |token| > 0 && token[0] == '-'
  {
    if HasPrefix(token, "-") then "DESC" else "ASC"
  }

  /** One ORDER BY item: the token without one leading `-`, a space, and its direction. */
  function SortItem(token: string): (r: string)
    ensures |token| > 0 && token[0] == '-' ==> r == token[1..] + " DESC"
    ensures !(|token| > 0 && token[0] == '-') ==> r == token + " ASC"
  {
    TrimPrefix(token, "-") + " " + SortType(token)
  }

  function SortItems(tokens: seq<string>): (items: seq<string>)
    ensures |items| == |tokens|
  {
    seq(|tokens|, i requires 0 <= i < |tokens| => SortItem(tokens[i]))
  }

  /** The ORDER BY body for a sort string: `""` for an empty one. */
  function OrderOf(sort: string): string
  {
    if |sort| == 0 then "" else Join(SortItems(Split(sort, ',')), ",")
  }

  /** Reads one ORDER BY item back into the token it came from. */
  function UnsortItem(item: string): string
  {
    if HasSuffix(item, " DESC") then "-" + item[..|item| - 5]
    else if HasSuffix(item, " ASC") then item[..|item| - 4]
    else item
  }

  /** Reads an ORDER BY body back into a sort string. */
  function Unorder(order: string): string
  {
    var items := Split(order, ',');
    Join(seq(|items|, i requires 0 <= i < |items| => UnsortItem(items[i])), ",")
  }

  /**
   Each item is the token with one leading `-` removed, followed by `DESC`
   when the token started with `-` and by `ASC` otherwise.
   */
  lemma SortItemShape(token: string)
    ensures HasPrefix(token, "-") ==> SortItem(token) == token[1..] + " DESC"
    ensures !HasPrefix(token, "-") ==> SortItem(token) == token + " ASC"
    ensures HasSuffix(SortItem(token), " DESC") <==> HasPrefix(token, "-")
  {
    var item := SortItem(token);
    if HasPrefix(token, "-") {
      assert item[|item| - 5..] == " DESC";
    } else {
      assert item[|item| - 4..] == " ASC";
      if |item| >= 5 {
        assert item[|item| - 5..][1] == item[|item| - 4] == ' ';
      }
    }
  }

  /** Only the last character of an item may change from its token, and no `,` is added. */
  lemma SortItemNoComma(token: string)
    requires ',' !in token
    ensures ',' !in SortItem(token)
  {
    SortItemShape(token);
    if HasPrefix(token, "-") {
      assert forall i :: 0 <= i < |token| - 1 ==> token[1..][i] == token[i + 1];
    }
  }

  lemma UnsortSortItem(token: string)
    ensures UnsortItem(SortItem(token)) == token
  {
    SortItemShape(token);
    var item := SortItem(token);
    if HasPrefix(token, "-") {
      assert item[..|item| - 5] == token[1..];
      assert token == "-" + token[1..];
    } else {
      assert item[..|item| - 4] == token;
    }
  }

  /**
   A non-empty sort string yields one item per comma-separated token (empty
   tokens included), in order, and the ORDER BY body splits back into them.
   */
  lemma OrderItems(sort: string)
    requires sort != ""
    ensures Split(OrderOf(sort), ',') == SortItems(Split(sort, ','))
    ensures |Split(OrderOf(sort), ',')| == CountChar(sort, ',') + 1
  {
    var items := SortItems(Split(sort, ','));
    forall i | 0 <= i < |items|
      ensures ',' !in items[i]
    {
      SortItemNoComma(Split(sort, ',')[i]);
    }
    SplitJoin(items, ',');
  }

  /** Reading the ORDER BY body back gives the sort string it came from. */
  lemma OrderRoundTrip(sort: string)
    ensures Unorder(OrderOf(sort)) == sort
  {
    if sort == "" {
      assert Split("", ',') == [""];
      assert Unorder("") == UnsortItem("");
      return;
    }
    var tokens := Split(sort, ',');
    OrderItems(sort);
    var items := Split(OrderOf(sort), ',');
    var back := seq(|items|, i requires 0 <= i < |items| => UnsortItem(items[i]));
    forall i | 0 <= i < |tokens|
      ensures back[i] == tokens[i]
    {
      UnsortSortItem(tokens[i]);
    }
    assert back == tokens;
    JoinSplit(sort, ',');
  }

  /** The empty sort string yields the empty ORDER BY body. */
  lemma OrderEmpty()
    ensures OrderOf("") == ""
  {
  }

  lemma JoinPair(a: string, b: string, sep: string)
    ensures Join([a, b], sep) == a + sep + b
  {
    assert [a, b][1..] == [b];
  }

  lemma SplitAscDesc(a: string, b: string)
    requires ',' !in a && ',' !in b
    ensures Split(a + ",-" + b, ',') == [a, "-" + b]
  {
    assert a + ",-" + b == a + [','] + ("-" + b);
    assert ',' !in "-" + b;
    SplitWithout("-" + b, ',');
    SplitAt(a, "-" + b, ',');
  }

  lemma ItemsAscDesc(a: string, b: string)
    requires !HasPrefix(a, "-")
    ensures SortItems([a, "-" + b]) == [a + " ASC", b + " DESC"]
  {
    assert ("-" + b)[1..] == b;
  }

  /** `a,-b` yields `a ASC,b DESC`, for instance `name,-age` yields `name ASC,age DESC`. */
  lemma OrderExampleAscDesc(a: string, b: string)
    requires ',' !in a && ',' !in b && !HasPrefix(a, "-")
    ensures OrderOf(a + ",-" + b) == a + " ASC," + b + " DESC"
  {
    SplitAscDesc(a, b);
    ItemsAscDesc(a, b);
    JoinPair(a + " ASC", b + " DESC", ",");
    assert a + " ASC" + "," + (b + " DESC") == a + " ASC," + b + " DESC";
  }

  /** Only one leading `-` is taken off: `--a` yields `-a DESC`. */
  lemma OrderExampleDoubleDash()
    ensures OrderOf("--a") == "-a DESC"
  {
    SplitWithout("--a", ',');
    assert "--a"[1..] == "-a";
    assert SortItem("--a") == "-a DESC";
    assert SortItems(["--a"]) == ["-a DESC"];
  }

  /** Empty tokens are kept: `,` yields two items with an empty column. */
  lemma OrderExampleEmptyTokens()
    ensures OrderOf(",") == " ASC, ASC"
  {
    assert "," == "" + [','] + "";
    SplitWithout("", ',');
    SplitAt("", "", ',');
    assert Split(",", ',') == ["", ""];
    JoinPair(" ASC", " ASC", ",");
    assert SortItem("") == " ASC";
    assert SortItems(["", ""]) == [" ASC", " ASC"];
  }
}
