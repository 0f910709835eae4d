# Query helpers of the Mongo user service, in Dafny

This project models the two query helpers that sit between the HTTP layer and
the data-access layer of the service:

- `QueryBuilder.parse` (helpers/queryBuilder.ts) turns the raw options of a list
  request into a query descriptor with five parts:
  - a projection;
  - a page size;
  - a one-key sort;
  - a filter map;
  - an optional list of relations to populate.
  Its private `parseFilter` compiles a comma-separated list of `field:value`
  conditions into a map from field to predicate (`$gte`, `$lte`, `$gt`, `$lt`,
  a case-insensitive regex built from `*` wildcards, or equality).
- `sanitizeSelect` (helpers/common.ts) rewrites a projection, split on the space
  character, so that no space-separated token of the result trims to
  `password`.

Files:

- `wrappers.dfy`: `Option`, for the options that may be absent.
- `js_strings.dfy`: the JavaScript string built-ins the helpers call, over
  `seq<char>`:
  - `split` on one character;
  - `join`;
  - `trim`, `trimStart` and `trimEnd`, over the ECMAScript whitespace and
    line-terminator set;
  - `startsWith`.
  It also proves their round trips.
- `js_numbers.dfy`: `parseInt(s, 10)`. It skips leading whitespace, reads one
  optional sign, then the longest run of decimal digits. With no digit the
  result is `NaN`.
- `common.dfy`: `sanitizeSelect` and its password-suppression properties.
- `query_builder.dfy`: `parse` as a function and `parseFilter` as a method.
  - The method has a loop that assigns into a map.
  - It is proved equal to the fold `CompileFilter`. `Parse` uses that fold,
    since a function cannot call a method.

Option values are modelled as text, the way the query string delivers them.
JavaScript truthiness of an option (`options.x ? … : …`, `options.x || …`) is
`Truthy`: present and non-empty.

Facts about the code that the model keeps:

- `sanitizeSelect` splits on the space character only. `name<TAB>password` is one
  token, kept unchanged (`TabSeparatedPasswordKept`).
- The `-` test of an exclusion is made on the untrimmed token. `<TAB>-email` is
  kept, but `-password` is not appended (`ExclusionTestIsUntrimmed`).
- For a consumer that splits the projection on any whitespace, these two inputs
  select the password. In the first it is included; in the second only `email`
  is excluded. What is proved holds for space-separated tokens only.
- `limit` can be 0, negative or `NaN`. `"0"` gives 0 and `"-5"` gives -5. Text
  with no digit after its leading whitespace and optional sign (`"abc"`,
  `" x"`, `"-x"`, `"+"`) gives `NaN`, not the default (`LimitNotANumber`).
- Each `*` of a filter value becomes `.*`, so every `*` in the pattern follows
  a `.` (`ExpandedStarsFollowDots`). The replacement can be undone
  (`CollapseExpand`).

## Model

| member | source | states |
|---|---|---|
| JsStrings.JoinSplitReplace | helpers/queryBuilder.ts:23 | `split(",").join(" ")` replaces every comma by a space and changes no other character |
| JsStrings.JoinSplit | helpers/queryBuilder.ts:33 | joining the pieces of a split with the same separator gives back the original string |
| JsStrings.SplitJoin | helpers/common.ts:13-15 | splitting a space-join of space-free tokens gives back exactly those tokens |
| JsNumbers.ParseIntDigits | helpers/queryBuilder.ts:25 | `parseInt` returns the value of the first digit run, negated after `-`, whatever whitespace precedes it and whatever non-digit text follows it |
| JsNumbers.ParseIntDecimal | helpers/queryBuilder.ts:25 | `parseInt` reads any decimal integer back as itself |
| JsNumbers.ParseIntNaN | helpers/queryBuilder.ts:25 | text with no digit after its leading whitespace and optional sign parses to `NaN`; with ParseIntDigits this covers every input |
| Common.FilterMembers | helpers/common.ts:2-7 | a token is kept exactly when it is in the split input and passes the filter callback |
| Common.SanitizeSelect | helpers/common.ts:1-19 | the result is never empty |
| Common.FieldsHaveNoSpace | helpers/common.ts:2-3 | kept tokens contain no space |
| Common.FieldsArePasswordFree | helpers/common.ts:4-7 | no kept token is `-password` or trims to `password` |
| Common.SanitizedTokens | helpers/common.ts:9-18 | the result's space-separated tokens are: `-password` alone when nothing is kept; otherwise the kept tokens, followed by `-password` exactly when one of them starts with `-` |
| Common.PasswordNeverIncluded | helpers/common.ts:1-19 | no token of the result, split on the space character, trims to `password`; tokens separated by other whitespace are not covered (see TabSeparatedPasswordKept) |
| Common.NothingKept | helpers/common.ts:9-18 | with no kept token the result is `-password` |
| Common.InclusionMode | helpers/common.ts:9-15 | with kept tokens and no exclusion among them, the result lists exactly those tokens; none starts with `-`, and `-password` is not added |
| Common.ExclusionMode | helpers/common.ts:10-13 | with an exclusion among the kept tokens, the result is those tokens followed by `-password`, which occurs once, at the end |
| Common.FieldsOfSanitized | helpers/common.ts:1-19 | the kept tokens of a sanitized projection are the kept tokens of the original |
| Common.SanitizeIdempotent | helpers/common.ts:1-19 | sanitizing twice gives the same result as sanitizing once |
| Common.SanitizeTwoInclusions | helpers/common.ts:14-15 | two kept inclusion tokens pass through unchanged |
| Common.SanitizeDropsPasswordAfter | helpers/common.ts:4-13 | a `password` token after one kept token is dropped; `-password` is added back only when that token is an exclusion |
| Common.SanitizeOneExclusion | helpers/common.ts:10-13 | a lone exclusion token gets ` -password` appended |
| Common.SanitizeEmpty | helpers/common.ts:18 | the empty projection becomes `-password` |
| Common.TabSeparatedPasswordKept | helpers/common.ts:2-7 | `name<TAB>password` contains no space, so it is one token; it is kept and returned unchanged |
| Common.ExclusionTestIsUntrimmed | helpers/common.ts:10 | the exclusion test is made on the untrimmed token: `\t-email` trims to `-email`, yet it is returned unchanged, with no `-password` added |
| QueryBuilder.ExpandedStarsFollowDots | helpers/queryBuilder.ts:56 | every `*` in the compiled regex pattern comes right after a `.` |
| QueryBuilder.CollapseExpand | helpers/queryBuilder.ts:56 | replacing `*` by `.*` loses nothing: collapsing each `.*` gives the value back |
| QueryBuilder.CompilePredicate | helpers/queryBuilder.ts:47-58 | the kind of predicate follows the fixed priority `>=`, `<=`, `>` (not `>=`), `<` (not `<=`), a `*` with no leading `>` or `<`, and equality otherwise; a regex has options `i` and no bare `*` |
| QueryBuilder.RenderCompile | helpers/queryBuilder.ts:47-58 | each operand is the value minus exactly its operator, so the value can be rebuilt from the predicate |
| QueryBuilder.ValuePart | helpers/queryBuilder.ts:45 | the destructured value is undefined exactly when the condition has no `:` |
| QueryBuilder.Assign | helpers/queryBuilder.ts:46-60 | one step adds exactly the field of a valid condition to the keys and maps it to the predicate compiled from its value; every other key keeps its predicate |
| QueryBuilder.ParseFilter | helpers/queryBuilder.ts:38-64 | the loop that assigns into the map returns the empty map for `""` and otherwise the conditions applied in order (`CompileFilter`) |
| QueryBuilder.FilterKeys | helpers/queryBuilder.ts:41-61 | the filter's keys are exactly the fields of valid conditions |
| QueryBuilder.LastConditionWins | helpers/queryBuilder.ts:44-61 | for a repeated field, the predicate of its last valid condition is the one kept |
| QueryBuilder.NoColonDropped | helpers/queryBuilder.ts:45-46 | a condition without `:` defines no field |
| QueryBuilder.ConditionParts | helpers/queryBuilder.ts:45 | `field:value` destructures into the trimmed field and the trimmed value |
| QueryBuilder.SecondColonIgnored | helpers/queryBuilder.ts:45 | whatever follows a second `:` is ignored |
| QueryBuilder.EmptyFilter | helpers/queryBuilder.ts:39 | the empty filter string compiles to the empty map |
| QueryBuilder.Parse | helpers/queryBuilder.ts:22-36 | `select` is `_id` when `fields` is absent or empty, and otherwise `fields` with commas replaced by spaces; when `limit` is absent or empty the limit is the default; the sort has exactly one key, `sort` (or `createdAt` when `sort` is absent or empty), whose value is 1 exactly when `order` is `asc` and -1 otherwise; a `filter` that is absent or empty gives the empty map; `populate` is absent exactly when its option is absent or empty, and otherwise it is comma-free pieces that join back to the option |
| QueryBuilder.ParseNoOptions | helpers/queryBuilder.ts:22-36 | with no options and the default limit the descriptor is `_id`, 10, `createdAt: -1`, no filter, nothing to populate |
| QueryBuilder.ParseFilterOption | helpers/queryBuilder.ts:31 | a present filter option is compiled condition by condition |
| QueryBuilder.ParseLimitOption | helpers/queryBuilder.ts:25 | a present limit is the `parseInt` of its text, with no fallback to the default |
| QueryBuilder.LimitReadBack | helpers/queryBuilder.ts:25 | a limit written as a decimal integer, possibly padded, is that integer |
| QueryBuilder.LimitNotANumber | helpers/queryBuilder.ts:25 | a limit with no digit after its leading whitespace and optional sign gives `NaN`, not the default; only the empty limit gives the default |

## Left out

- The HTTP layer (Express routes and controllers), Mongoose and the database are not part of this model. So are the other helpers and services (validation, uploads, cloud storage).
- Option values that arrive as arrays (a repeated query parameter) or as objects (an extended query string such as `filter[a]=b`) are not modelled. Every option is a string or absent.
- A numeric `limit` is modelled only through its decimal text. The JavaScript number 0, which is falsy and so selects the default, has no separate case.
- JsNumbers.ParseInt: returns an exact integer. The model has no `-0` (for `"-0"`), no `Infinity` (for a digit run beyond about 1.8e308) and no rounding above 2^53.
- QueryBuilder.CompilePredicate: builds the regex pattern text only. How MongoDB evaluates `$regex`, including unescaped metacharacters, is not modelled.
- The projection and filter are built but not checked against the store. Field names are not allow-listed, and mixing inclusion and exclusion tokens is not rejected.
- The typed MongoDB filter object is modelled as a map from field name to `Predicate`.
- QueryBuilder.Assign: treats `__proto__` as an ordinary field. On a plain JavaScript object, `filter["__proto__"] = …` creates no own key. An object predicate replaces the prototype; a string is ignored. So FilterKeys and LastConditionWins do not describe the object for that field name.
