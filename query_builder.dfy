/**
  `QueryBuilder` of helpers/queryBuilder.ts: it turns the raw query options of
  a list request into a descriptor with a projection, a limit, a one-key sort,
  a filter map and an optional list of relations to populate.
 */
module QueryBuilder {
  import opened Wrappers
  import opened JsStrings
  import opened JsNumbers

  /**
    The raw options, as the query string delivers them: every option is text
    or absent. `limit` is the text of the page size.
   */
  datatype QueryOptions = QueryOptions(
    fields: Option<string>,
    limit: Option<string>,
    sort: Option<string>,
    order: Option<string>,
    filter: Option<string>,
    populate: Option<string>)

  /** What one filter condition asks of its field; every operand stays a string. */
  datatype Predicate =
    | Gte(operand: string)
    | Lte(operand: string)
    | Gt(operand: string)
    | Lt(operand: string)
    | Regex(pattern: string, options: string)
    | Eq(value: string)

  /** The descriptor `parse` returns; `sort` maps the sort field to 1 or -1. */
  datatype ParsedQueryOptions = ParsedQueryOptions(
    select: string,
    limit: Number,
    sort: map<string, int>,
    filter: map<string, Predicate>,
    populate: Option<seq<string>>)

  const DefaultLimit: int := 10
  const DefaultSelect: string := "_id"
  const DefaultSortField: string := "createdAt"
  const Ascending: string := "asc"

  /** JavaScript truthiness of an optional string: present and non-empty. */
  predicate Truthy(o: Option<string>) {
    o.Some? && o.value != ""
  }

  /** `o || fallback` for an optional string. */
  function OrElse(o: Option<string>, fallback: string): string
  {
    if Truthy(o) then o.value else fallback
  }

  /** The global replacement of every `*` in a condition value by `.*`. */
  function ExpandWildcards(s: string): (r: string)
    ensures |r| >= |s|
    ensures r == [] || r[0] != '*'
  {
    if s == [] then []
    else (if s[0] == '*' then ".*" else [s[0]]) + ExpandWildcards(s[1..])
  }

  /** The inverse of ExpandWildcards: each `.*` read left to right becomes `*` again. */
  function CollapseWildcards(r: string): string
    decreases |r|
  {
    if r == [] then []
    else if |r| >= 2 && r[0] == '.' && r[1] == '*' then "*" + CollapseWildcards(r[2..])
    else [r[0]] + CollapseWildcards(r[1..])
  }

  /** In a regex pattern every `*` follows a `.`: each wildcard reads as "any run of characters". */
  predicate StarsFollowDots(r: string) {
    forall i :: 0 <= i < |r| && r[i] == '*' ==> 0 < i && r[i - 1] == '.'
  }

  /** The compiled pattern has no bare `*`. */
  lemma {:induction false} ExpandedStarsFollowDots(s: string)
    ensures StarsFollowDots(ExpandWildcards(s))
    decreases |s|
  {
    if s != [] {
      ExpandedStarsFollowDots(s[1..]);
      var head := if s[0] == '*' then ".*" else [s[0]];
      var tail := ExpandWildcards(s[1..]);
      assert ExpandWildcards(s) == head + tail;
      forall i | 0 <= i < |head + tail| && (head + tail)[i] == '*'
        ensures 0 < i && (head + tail)[i - 1] == '.'
      {
        if i >= |head| {
          assert (head + tail)[i] == tail[i - |head|];
        }
      }
    }
  }

  /** Expanding the wildcards loses nothing: collapsing gives the value back. */
  lemma {:induction false} CollapseExpand(s: string)
    ensures CollapseWildcards(ExpandWildcards(s)) == s
    decreases |s|
  {
    if s != [] {
      CollapseExpand(s[1..]);
      var tail := ExpandWildcards(s[1..]);
      if s[0] == '*' {
        assert ExpandWildcards(s) == ".*" + tail;
        assert (".*" + tail)[2..] == tail;
      } else {
        assert ExpandWildcards(s) == [s[0]] + tail;
        assert ([s[0]] + tail)[1..] == tail;
      }
    }
  }

  /**
    The predicate of one condition value, by the fixed priority `>=`, `<=`,
    `>`, `<`, a `*` anywhere, and plain equality otherwise.
   */
  function CompilePredicate(value: string): (p: Predicate)
    ensures p.Gte? <==> StartsWith(value, ">=")
    ensures p.Lte? <==> StartsWith(value, "<=")
    ensures p.Gt? <==> StartsWith(value, ">") && !StartsWith(value, ">=")
    ensures p.Lt? <==> StartsWith(value, "<") && !StartsWith(value, "<=")
    ensures p.Regex? <==> !StartsWith(value, ">") && !StartsWith(value, "<") && '*' in value
    ensures p.Regex? ==> p.options == "i" && StarsFollowDots(p.pattern)
  {
    if StartsWith(value, ">=") then Gte(value[2..])
    else if StartsWith(value, "<=") then Lte(value[2..])
    else if StartsWith(value, ">") then Gt(value[1..])
    else if StartsWith(value, "<") then Lt(value[1..])
    else if '*' in value then
      assert StarsFollowDots(ExpandWildcards(value)) by {
        ExpandedStarsFollowDots(value);
      }
      Regex(ExpandWildcards(value), "i")
    else Eq(value)
  }

  /** The condition value a predicate was compiled from. */
  function Render(p: Predicate): string
  {
    match p
    case Gte(x) => ">=" + x
    case Lte(x) => "<=" + x
    case Gt(x) => ">" + x
    case Lt(x) => "<" + x
    case Regex(pattern, _) => CollapseWildcards(pattern)
    case Eq(x) => x
  }

  /** Compilation keeps the whole value: the operand is the value minus its operator. */
  lemma RenderCompile(value: string)
    ensures Render(CompilePredicate(value)) == value
  {
    var p := CompilePredicate(value);
    match p
    case Gte(x) =>
      assert value == value[..2] + value[2..];
    case Lte(x) =>
      assert value == value[..2] + value[2..];
    case Gt(x) =>
      assert value == value[..1] + value[1..];
    case Lt(x) =>
      assert value == value[..1] + value[1..];
    case Regex(_, _) =>
      CollapseExpand(value);
    case Eq(_) =>
  }

  /** `field` of `const [field, value] = condition.split(":").map(s => s.trim())`. */
  function FieldPart(condition: string): string
  {
    Trim(Split(condition, ':')[0])
  }

  /** `value` of the same destructuring: undefined when the condition has no `:`. */
  function ValuePart(condition: string): (value: Option<string>)
    ensures value.None? <==> ':' !in condition
  {
    var parts := Split(condition, ':');
    assert ':' in condition ==> |parts| >= 2;
    if |parts| >= 2 then Some(Trim(parts[1])) else None
  }

  /** The condition is kept and assigns `field`: both of its parts are non-empty. */
  predicate Defines(condition: string, field: string) {
    field != "" && FieldPart(condition) == field && Truthy(ValuePart(condition))
  }

  /** One step of the `forEach`: a valid condition sets its field, an invalid one is skipped. */
  function Assign(filter: map<string, Predicate>, condition: string): (r: map<string, Predicate>)
    ensures forall f :: f in r <==> f in filter || Defines(condition, f)
    ensures forall f :: Defines(condition, f) ==> r[f] == CompilePredicate(ValuePart(condition).value)
    ensures forall f :: f in filter && !Defines(condition, f) ==> r[f] == filter[f]
  {
    var field := FieldPart(condition);
    var value := ValuePart(condition);
    if field != "" && Truthy(value) then filter[field := CompilePredicate(value.value)] else filter
  }

  /** The filter map after the conditions have been applied in order. */
  function FilterOf(conditions: seq<string>): map<string, Predicate>
  {
    if conditions == [] then map[]
    else Assign(FilterOf(conditions[..|conditions| - 1]), conditions[|conditions| - 1])
  }

  /** What `parseFilter` returns: the empty map for the empty string, else the comma-separated conditions applied in order. */
  function CompileFilter(filterString: string): map<string, Predicate>
  {
    if filterString == "" then map[] else FilterOf(Split(filterString, ','))
  }

  /** `parseFilter`: a loop over the conditions that assigns into a map. */
  method ParseFilter(filterString: string) returns (filter: map<string, Predicate>)
    ensures filter == CompileFilter(filterString)
  {
    if filterString == "" {
      return map[];
    }
    filter := map[];
    var conditions := Split(filterString, ',');
    for i := 0 to |conditions|
      invariant filter == FilterOf(conditions[..i])
    {
      assert conditions[..i + 1][..i] == conditions[..i];
      ghost var previous := filter;
      var field := FieldPart(conditions[i]);
      var value := ValuePart(conditions[i]);
      if field != "" && Truthy(value) {
        if StartsWith(value.value, ">=") {
          filter := filter[field := Gte(value.value[2..])];
        } else if StartsWith(value.value, "<=") {
          filter := filter[field := Lte(value.value[2..])];
        } else if StartsWith(value.value, ">") {
          filter := filter[field := Gt(value.value[1..])];
        } else if StartsWith(value.value, "<") {
          filter := filter[field := Lt(value.value[1..])];
        } else if '*' in value.value {
          filter := filter[field := Regex(ExpandWildcards(value.value), "i")];
        } else {
          filter := filter[field := Eq(value.value)];
        }
        assert filter == previous[field := CompilePredicate(value.value)];
      }
      assert filter == Assign(previous, conditions[i]);
    }
    assert conditions[..|conditions|] == conditions;
  }

  /** The keys of the filter are exactly the fields of the valid conditions. */
  lemma {:induction false} FilterKeys(conditions: seq<string>, f: string)
    ensures f in FilterOf(conditions) <==> exists k :: 0 <= k < |conditions| && Defines(conditions[k], f)
    decreases |conditions|
  {
    if conditions != [] {
      var n := |conditions| - 1;
      var init := conditions[..n];
      FilterKeys(init, f);
      if f in FilterOf(conditions) {
        if f in FilterOf(init) {
          var k :| 0 <= k < |init| && Defines(init[k], f);
          assert conditions[k] == init[k];
        } else {
          assert Defines(conditions[n], f);
        }
      } else {
        forall k | 0 <= k < |conditions|
          ensures !Defines(conditions[k], f)
        {
          if k < n {
            assert conditions[k] == init[k];
          }
        }
      }
    }
  }

  /** For a repeated field the last valid condition wins. */
  lemma {:induction false} LastConditionWins(conditions: seq<string>, k: nat, f: string)
    requires k < |conditions| && Defines(conditions[k], f)
    requires forall j :: k < j < |conditions| ==> !Defines(conditions[j], f)
    ensures f in FilterOf(conditions)
    ensures FilterOf(conditions)[f] == CompilePredicate(ValuePart(conditions[k]).value)
    decreases |conditions|
  {
    var n := |conditions| - 1;
    var init := conditions[..n];
    if k < n {
      forall j | k < j < |init|
        ensures !Defines(init[j], f)
      {
        assert init[j] == conditions[j];
      }
      LastConditionWins(init, k, f);
      assert !Defines(conditions[n], f);
    }
  }

  /** A condition without `:` is dropped. */
  lemma NoColonDropped(condition: string, f: string)
    requires ':' !in condition
    ensures !Defines(condition, f)
  {
  }

  /** `field:value` destructures into the trimmed field and the trimmed value. */
  lemma ConditionParts(field: string, value: string)
    requires ':' !in field && ':' !in value
    ensures FieldPart(field + ":" + value) == Trim(field)
    ensures ValuePart(field + ":" + value) == Some(Trim(value))
  {
    SplitAtFirst(field, ':', value);
    SplitNone(value, ':');
    assert field + ":" + value == field + [':'] + value;
  }

  /** Whatever follows a second `:` is ignored. */
  lemma SecondColonIgnored(field: string, value: string, rest: string)
    requires ':' !in field && ':' !in value
    ensures FieldPart(field + ":" + value + ":" + rest) == FieldPart(field + ":" + value)
    ensures ValuePart(field + ":" + value + ":" + rest) == ValuePart(field + ":" + value)
  {
    ConditionParts(field, value);
    var s := field + ":" + value + ":" + rest;
    assert s == field + [':'] + (value + [':'] + rest);
    SplitAtFirst(field, ':', value + [':'] + rest);
    SplitAtFirst(value, ':', rest);
  }

  /** `parseFilter("")` is the empty map. */
  lemma EmptyFilter()
    ensures CompileFilter("") == map[]
  {
  }

  /** `QueryBuilder.parse(options, defaultLimit)`. */
  function Parse(options: QueryOptions, defaultLimit: int): (r: ParsedQueryOptions)
    ensures !Truthy(options.fields) ==> r.select == DefaultSelect
    ensures Truthy(options.fields) ==> r.select == ReplaceChar(options.fields.value, ',', ' ')
    ensures !Truthy(options.limit) ==> r.limit == Finite(defaultLimit)
    ensures |r.sort| == 1
    ensures (if Truthy(options.sort) then options.sort.value else DefaultSortField) in r.sort
    ensures forall k :: k in r.sort ==> (r.sort[k] == 1 <==> options.order == Some(Ascending)) && (r.sort[k] == 1 || r.sort[k] == -1)
    ensures !Truthy(options.filter) ==> r.filter == map[]
    ensures r.populate.None? <==> !Truthy(options.populate)
    ensures r.populate.Some? ==> Join(r.populate.value, ",") == options.populate.value
    ensures r.populate.Some? ==> forall k :: 0 <= k < |r.populate.value| ==> ',' !in r.populate.value[k]
  {
    var select := if Truthy(options.fields) then Join(Split(options.fields.value, ','), " ") else DefaultSelect;
    assert Truthy(options.fields) ==> select == ReplaceChar(options.fields.value, ',', ' ') by {
      if Truthy(options.fields) {
        JoinSplitReplace(options.fields.value, ',', ' ');
      }
    }
    var limit := if Truthy(options.limit) then ParseInt(options.limit.value) else Finite(defaultLimit);
    var sortField := OrElse(options.sort, DefaultSortField);
    var sortOrder := if options.order == Some(Ascending) then 1 else -1;
    var filter := CompileFilter(OrElse(options.filter, ""));
    var populate := if Truthy(options.populate) then Some(Split(options.populate.value, ',')) else None;
    assert Truthy(options.populate) ==> Join(populate.value, ",") == options.populate.value by {
      if Truthy(options.populate) {
        JoinSplit(options.populate.value, ',');
      }
    }
    ParsedQueryOptions(select, limit, map[sortField := sortOrder], filter, populate)
  }

  /** With no options at all: `_id`, the default page size, newest first, no filter, nothing populated. */
  lemma ParseNoOptions()
    ensures Parse(QueryOptions(None, None, None, None, None, None), DefaultLimit)
         == ParsedQueryOptions(DefaultSelect, Finite(DefaultLimit), map[DefaultSortField := -1], map[], None)
  {
  }

  /** A present filter option is compiled by `parseFilter`. */
  lemma ParseFilterOption(options: QueryOptions, defaultLimit: int)
    requires Truthy(options.filter)
    ensures Parse(options, defaultLimit).filter == FilterOf(Split(options.filter.value, ','))
  {
  }

  /** A present limit is the `parseInt` of its text. */
  lemma ParseLimitOption(options: QueryOptions, defaultLimit: int)
    requires Truthy(options.limit)
    ensures Parse(options, defaultLimit).limit == ParseInt(options.limit.value)
  {
  }

  /** A limit written as a decimal integer, possibly padded, is read back as that integer. */
  lemma LimitReadBack(options: QueryOptions, defaultLimit: int, ws: string, n: int, rest: string)
    requires forall i :: 0 <= i < |ws| ==> IsWhitespace(ws[i])
    requires rest == [] || !IsDigit(rest[0])
    requires options.limit == Some(ws + Decimal(n) + rest)
    ensures Parse(options, defaultLimit).limit == Finite(n)
  {
    ParseIntDecimal(ws, n, rest);
  }

  /**
    A limit with no digit after its leading whitespace and optional sign gives
    `NaN`, not the default; only the empty text falls back to the default.
   */
  lemma LimitNotANumber(options: QueryOptions, defaultLimit: int, ws: string, sign: string, rest: string)
    requires forall i :: 0 <= i < |ws| ==> IsWhitespace(ws[i])
    requires sign == "" || sign == "-" || sign == "+"
    requires rest == [] || !(IsDigit(rest[0]) || (sign == "" && (rest[0] == '-' || rest[0] == '+' || IsWhitespace(rest[0]))))
    requires options.limit == Some(ws + sign + rest)
    ensures Parse(options, defaultLimit).limit == if ws + sign + rest == "" then Finite(defaultLimit) else NaN
  {
    ParseIntNaN(ws, sign, rest);
  }

}
