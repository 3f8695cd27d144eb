# qibo query-fragment compiler, modelled in Dafny

The Go package `qibo` turns the filter and sort parameters of a request into
SQL text. A `Query` holds a sort string and a filter map. `Where` compiles the
filter into a WHERE fragment (clauses joined by ` AND `) and a parallel list of
bind arguments. `Order` compiles the sort string into an ORDER BY body such as
`name ASC,age DESC`. No database is involved.

The model has five modules, one per component:

- `GoStrings` (`go_strings.dfy`) models the parts of Go's `strings` package that
  the compiler uses: `Split` on one character, `Join`, `HasPrefix`/`HasSuffix`,
  `TrimPrefix`/`TrimSuffix` and ASCII `ToLower`. It also proves that `Split` and
  `Join` undo each other.
- `Operators` (`operators.dfy`) holds the fixed operator table and
  `TranslateOperator`.
- `Clauses` (`clauses.dfy`) specifies the WHERE compiler:
  - filter values, as a tagged variant;
  - the key grammar `column$operator[!]`;
  - the `switch` that shapes each clause and its argument (`Shape`);
  - what one entry contributes (`Compile`: the tautology ` 1 = 1 ` or a clause
    with one argument);
  - the fragment and argument list of a whole filter (`WhereOf`).
- `Sorting` (`sorting.dfy`) specifies the ORDER BY compiler (`OrderOf`) and
  its inverse (`Unorder`).
- `Qibo` (`query.dfy`) holds the class `Query` with the fields `Sort` and
  `Filter` and the methods `SetFilter`, `GetFilter`, `Where` and `Order`.
  `Where` and `Order` are loops, as in `query.go`. Each is proved equal to its
  specification function.

Where the doc comments of `query.go` and its code differ, the model follows the
code:

- The doc comment of `Where` (query.go:37-46) shows a key `"status"` without
  `$` that defaults to equality. The code indexes `fields[1]`, so such a key
  fails at run time. The model requires every key to be well formed
  (`WellFormedKey`).
- The same comment shows `"amount$gte": 19200.00` becoming `amount >= 19200.00`.
  The code asserts the value to `string` and drops the failure flag. A number
  therefore becomes the argument `""`. `DateClause` states that behaviour.
- A `gte`/`lte` value that is not a string becomes `""` (query.go:70, 77).
  Only a string that is not a date passes through unchanged (`DateClause`).

## Model

| member | source | states |
|---|---|---|
| `Operators.TranslateOperator` | query.go:116-122 | The result is always an operator of the table (query.go:15-25). It is the table entry of the lower-cased token when the table has one, and `=` for every other token, the empty token included. |
| `Operators.TranslateIgnoresCase` | query.go:116-118 | Resolving a token gives the same operator as resolving its lower-cased form, so `GTE`, `Gte` and `gte` resolve alike. |
| `Operators.TranslateInverse` | query.go:15-25 | Each operator other than `=` comes from exactly one lower-case token (both directions). `=` comes from `eq` and from every unknown token (both directions). |
| `Clauses.KeySegments` | query.go:53-54 | A well-formed key starts with its column, a `$` and its operator segment. After that comes nothing or another `$`, so any further segments are ignored. |
| `Clauses.KeyGrammar` | query.go:53-58 | Build a key from a column without `$`, a token without `$`, an optional `!` and a tail that is empty or starts with `$`. That key is well formed, and parsing it gives back that column, that token and that required mark. |
| `Clauses.RequiredMark` | query.go:55-58 | The `isRequire` test on the segment holds exactly when the segment ends in `!`, which is exactly when trimming the suffix `!` changes it. So a segment is required exactly when its operator token has had a `!` removed. |
| `Clauses.CompileKey` | query.go:53-91 | For such a key, tail included, the entry becomes the shaped clause of the resolved token when the filter is required or the value is present. Otherwise it becomes the placeholder. So `$` segments after the second never change the compiled entry. |
| `Clauses.ValidDateParts` | query.go:52 | The date test holds exactly when the string is four digits, `-`, two digits, `-`, two digits, with nothing before or after. |
| `Clauses.AsString` | query.go:63 | `v.(string)` with the ok flag dropped, as at query.go:63, 70 and 77: the result is the string held by the value, or `""` when the value holds no string. |
| `Clauses.EndOfDay` | query.go:71-73 | The result always starts with its input and differs from it exactly when the input is a date. A date gets ` 23:59:59` appended, giving 19 characters. |
| `Clauses.StartOfDay` | query.go:78-80 | The result always starts with its input and differs from it exactly when the input is a date. A date gets ` 00:00:00` appended, giving 19 characters. |
| `Clauses.Shape` | query.go:60-88 | Every branch of the operator `switch` produces a real clause (never the placeholder). |
| `Clauses.Compile` | query.go:55-91 | An entry becomes the placeholder exactly when its segment does not end in `!` and the value counts as absent. A trailing `!` forces a real clause. |
| `Clauses.LikeClause` | query.go:61-64 | `like` gives `column LIKE ?`. The argument is `%s%` for a string `s`, and `%%` for any other value. |
| `Clauses.InOrClause` | query.go:65-84 | `in` and `or` give `column IN (?)` and `column OR (?)`. The value itself is the one argument, unchanged. |
| `Clauses.DateClause` | query.go:68-81 | `lte` and `gte` give `column <= ?` and `column >= ?`. A string `DDDD-DD-DD` gets ` 23:59:59` or ` 00:00:00` appended. Any other string passes unchanged. A non-string becomes `""`. |
| `Clauses.PassthroughClause` | query.go:85-87 | Every other token resolves to `>`, `<`, `=` or `!=` and gives `column op ?` with the value unchanged. A token the table does not know gives `column = ?`. |
| `Clauses.CompileIgnoresCase` | query.go:58-60 | Two entries that differ only in the case of their operator token compile to the same fragment. |
| `Clauses.RequiredExample` | query.go:55-59 | `col$eq!` gives `col = ?` with the value as its argument, whether or not the value counts as absent. |
| `Clauses.OptionalExample` | query.go:89-90 | `col$eq` with an absent value gives the placeholder ` 1 = 1 ` and no argument. |
| `Clauses.UnknownTokenExample` | query.go:116-122 | `col$xyz` with a present value gives `col = ?` and the value. |
| `Clauses.LikeExample` | query.go:61-64 | `col$like` with the string `s` gives `col LIKE ?` and the argument `%s%`. |
| `Clauses.DateExample` | query.go:75-81 | `col$GTE` with a date `d` gives `col >= ?` and the argument `d 00:00:00`. The upper-case token behaves like `gte`. |
| `Clauses.ArgsAlignment` | query.go:51-91 | There is one bind argument per real clause. The argument of the clause at position i is at the index equal to the number of real clauses before i. So arguments keep the order of their clauses. |
| `Clauses.PlaceholdersMatchArgs` | query.go:59-94 | When no column contains `?`, the WHERE fragment holds exactly as many `?` placeholders as there are bind arguments. |
| `Clauses.FragmentsIgnoreOrder` | query.go:51 | Two orderings of the same entries compile to the same multiset of fragments, that is the same clauses with the same arguments. Go's map iteration order only changes their order. |
| `Sorting.SortType` | query.go:103-108 | The direction is `ASC` or `DESC`. It is `DESC` exactly when the token's first character is `-`. |
| `Sorting.SortItem` | query.go:109 | A token starting with `-` gives the rest of the token, then ` DESC`. Any other token, the empty one included, gives the whole token, then ` ASC`. |
| `Sorting.SortItemShape` | query.go:103-109 | A token starting with `-` gives itself without that one `-`, then ` DESC`. Any other token gives itself, then ` ASC`. The item ends in ` DESC` exactly when the token starts with `-`. |
| `Sorting.OrderItems` | query.go:99-111 | For a non-empty sort string, the ORDER BY body splits on `,` into exactly one item per comma-separated token, empty tokens included, in token order. |
| `Sorting.OrderRoundTrip` | query.go:98-113 | Reading the ORDER BY body back with `Unorder` gives the original sort string, whatever it is (the empty one included). |
| `Sorting.OrderEmpty` | query.go:99-113 | An empty sort string gives an empty ORDER BY body. |
| `Sorting.OrderExampleAscDesc` | query.go:98-113 | For columns `a` and `b` without `,`, `a` not starting with `-`, the sort string `a,-b` gives `a ASC,b DESC`. For instance `name,-age` gives `name ASC,age DESC`. |
| `Sorting.OrderExampleDoubleDash` | query.go:104-109 | `--a` gives `-a DESC`: only one leading `-` is removed. |
| `Sorting.OrderExampleEmptyTokens` | query.go:100-111 | `,` gives ` ASC, ASC`: each empty token still yields an item. |
| `Qibo.Query.constructor` | query.go:9-12 | A query holds the given sort string and filter. |
| `Qibo.Query.SetFilter` | query.go:28-30 | The filter is replaced by the given one, and the sort string is unchanged. |
| `Qibo.Query.GetFilter` | query.go:33-35 | Returns the filter as last stored. |
| `Qibo.Query.Where` | query.go:47-95 | The loop's result equals `WhereOf` of the stored filter. That is the fragments of the entries in order, joined by ` AND `, with the bind arguments of the real clauses in the same order. |
| `Qibo.Query.Order` | query.go:98-114 | The loop builds items each followed by `,` and drops the last character. Its result equals `OrderOf` of the stored sort string. |

## Left out

- The test for an absent value (`IsArgNil`) is defined outside `query.go`. The
  model does not fix its meaning: `Where` takes it as a parameter
  `isArgNil: Value -> bool`.
- Go's map iteration order is unspecified. The filter is an explicit sequence
  of entries, compiled in sequence order. `FragmentsIgnoreOrder` shows that
  any order gives the same clauses and arguments. The model does not require
  keys to be distinct, because nothing in `Where` depends on it.
- A key without `$`, or with an empty segment after the first `$`, makes the
  Go code fail at run time. The model does not represent that failure. `Where`
  requires every key to be well formed.
- The regular expression engine is replaced by an explicit check of the same
  anchored pattern (`ValidDate`).
- `TranslateOperator`: `strings.ToLower` is modelled on ASCII letters only,
  with no Unicode case mapping. Go lower-cases some non-ASCII capitals to ASCII
  letters: U+0130 `İ` to `i` and the Kelvin sign U+212A to `k`. So tokens the
  model resolves to `=` resolve to an operator in Go. Examples are `İN` and
  `LİKE` (to `IN` and `LIKE`) and `LI` followed by the Kelvin sign and `E`
  (to `LIKE`) (query.go:117).
- Go strings are bytes and the model's are characters. For valid UTF-8 this
  does not change any result. Every byte the code splits on, trims or tests
  (`!`, `-`, `,`, `$`) is ASCII, and no multi-byte UTF-8 sequence contains an
  ASCII byte.
- Filter values are collapsed into a small variant type (string, integer,
  boolean, list, nil). The code only distinguishes strings from everything
  else. Floating-point values are not modelled separately.
- The package-level `Operator` map can be changed in Go. The model makes it a
  constant.
- JSON struct tags, request binding and SQL execution are not part of the
  model.
- `GetFilter` returns a Go map by reference. The model returns the stored
  value and does not model aliasing.
