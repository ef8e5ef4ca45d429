# KPT board core: card mapping, drag-and-drop positions, form validation errors

This project is a Dafny model of the three pure transformations at the core of
a Keep/Problem/Try retrospective board application:

- **ItemMapper** (`item_mapper.dfy`) — `mapRowToItem`. It turns a storage row
  of a card into the domain card `KptItem`. The row is joined with optional
  profile and vote aggregates. Fields are renamed, the viewer allow-list
  `allowed_user_ids` is dropped, and every property the row may lack gets an
  explicit default: null for the nicknames, assignee, due date, status and
  `updated_at`; `0` votes; `false` for has-voted; `[]` for voters. The
  lemmas prove that the mapping has a right inverse (`ItemToRow`). They also say
  exactly what the mapping forgets: the difference between missing and null
  or default values, and the allow-list.
- **PositionAllocator** (`position_allocator.dfy`) — `calculateNewPosition`.
  It gives the ordering key of a card dropped at index `i` of a column's
  sorted positions. An empty column gives 1000. At the head the key is half
  the first position. At the tail it is the last position plus 1000. In
  between it is the mean of the two neighbours. The lemmas prove that the new
  key lies strictly between its neighbours, and that inserting it keeps a
  column of increasing positive keys in order, so nothing is renumbered.
- **ZodResolver** (`zod_resolver.dfy`) — the resolver built by
  `zodResolverWithI18n`. On a successful parse it returns the parsed data and
  no errors. On a failed parse it returns `{}` and an error map. The map is
  keyed by each issue's path joined with `.`. The first issue for a key wins.
  An issue whose key is empty is dropped, and so is one whose key names a
  property every object inherits (`constructor`, `toString`, `__proto__`, …). A message marked `validation:`
  is translated by the translator `i18n.t`, with the rest of the message as
  the key, the namespace `validation`, and the issue's `minimum`/`maximum`.
  The method `ResolveWithI18n` keeps the source's loop over the issues. It is
  proved against the functions `FoldErrors` and `TranslationCalls`.
  `TranslationCalls` is defined apart from the map: it lists the call of
  each issue that is the first for a fillable key and carries the marker,
  in issue order. Lemmas prove first-error-wins and the exact key set. They
  also prove that the translator gets exactly one call per translated
  issue, in issue order.
- **JsValues** (`js_values.dfy`) — `Optional` (a property that may be
  missing, `undefined`) and `Nullable` (`T | null`), with `??` defaults.

The position allocator and the mapper are pinned by their test files
(`src/hooks/useKPTCardDnD.test.ts`, `src/lib/item-mapper.test.ts`). Their
implementation files, `src/hooks/useKPTCardDnD.ts` and
`src/lib/item-mapper.ts`, are not part of this model, so the contracts follow
what the tests assert.

Modelling choices:

- Positions are exact `real`s, not floating point.
- The translator is a function parameter `t(key, options)`. The resolver
  returns, in order, the calls it made to `t`. This is how "the translator is
  not consulted" is stated.
- The parse outcome is an input value: `ParseSuccess(data)` or
  `ParseFailure(issues)`.
- A path segment is an object key or an array index. An index is written in
  decimal, as `Array.prototype.join` writes it.
- The source tests the joined string (src/lib/zodResolverWithI18n.ts:22), so
  an issue whose path is `[""]` (one empty key) joins to the empty string and
  is dropped too, like one with the empty path (`EmptyKeyIff` states both
  cases).
- The error record starts as `{}` (src/lib/zodResolverWithI18n.ts:17), and
  `!errors[path]` (line 22) also finds the members every object inherits from
  `Object.prototype`. The model lists those names in `InheritedKeys`: an issue
  whose key is one of them makes no entry and no translator call, whether or
  not it is the first for that key (`InheritedKeyScenario`).
- The specification functions and lemmas take the set of inherited names as
  a parameter `inherited`, so they hold for any such set. The resolver
  itself uses `InheritedKeys`.

## Model

| member | source | states |
|---|---|---|
| ItemMapper.MapRowToItem | src/lib/item-mapper.test.ts:22-154 | required fields are copied under their domain names; each nullable field passes a present value (null included) and is null when missing; vote count, has-voted and voters pass a present value and otherwise are 0, false and [] |
| ItemMapper.MapAfterItemToRow | src/lib/item-mapper.test.ts:26-43 | the domain card holds all of its fields: mapping the row written for a card gives back that card |
| ItemMapper.ItemToRowAfterMap | src/lib/item-mapper.test.ts:26-43 | writing back a mapped card gives the row with every default filled in and the allow-list removed |
| ItemMapper.MapIgnoresDefaults | src/lib/item-mapper.test.ts:75-147 | filling in the defaults (null, 0, false, []) by hand does not change the mapped card |
| ItemMapper.MapEqualIff | src/lib/item-mapper.test.ts:17-43 | two rows map to the same card if and only if they agree once defaults are filled in and the allow-list is dropped |
| ItemMapper.AllowedUserIdsDropped | src/lib/item-mapper.test.ts:17-43 | the allow-list of viewers never affects the domain card |
| ItemMapper.AbsentAndNullCollapse | src/lib/item-mapper.test.ts:75-101 | a missing and an explicitly null nickname or update time give the same card |
| ItemMapper.BaseRowMapping | src/lib/item-mapper.test.ts:22-44 | the test's base row maps to the fully defaulted card |
| ItemMapper.TryRowMapping | src/lib/item-mapper.test.ts:156-177 | a Try row with every joined field present keeps column, status, assignee, due date, votes, has-voted and voters |
| JsValues.OrNull | src/lib/item-mapper.test.ts:75-101 | `x ?? null`: the result is non-null exactly when the property is present and non-null, and then it is that value; a missing property gives null |
| JsValues.Optional.OrElse | src/lib/item-mapper.test.ts:103-147 | `x ?? d`: a present property gives its value, a missing one the default `d` |
| PositionAllocator.CalculateNewPosition | src/hooks/useKPTCardDnD.test.ts:19-91 | empty column gives 1000; at the head the key is as far from 0 as from the first key; at the tail it is the last key plus 1000; in between it is as far from each neighbour; it is strictly between the neighbours when they are ordered, and positive below a positive first key |
| PositionAllocator.BetweenNeighbours | src/hooks/useKPTCardDnD.test.ts:27-90 | in a column of increasing positive keys the new key is positive and strictly between whichever neighbours exist |
| PositionAllocator.InsertKeepsOrder | src/hooks/useKPTCardDnD.test.ts:27-90 | inserting the new key at the drop index keeps the column strictly increasing and positive, so no other card is renumbered |
| PositionAllocator.OnlyNeighboursMatter | src/hooks/useKPTCardDnD.test.ts:48-84 | the key depends only on the neighbours at i-1 and i: the first item for a head drop, the last for an append |
| PositionAllocator.TestVectors | src/hooks/useKPTCardDnD.test.ts:20-90 | the values the tests expect: 1000, 500, 50, 2000, 4000, 1500, 1500, 2500, 1000.5 |
| ZodResolver.ResolveWithI18n | src/lib/zodResolverWithI18n.ts:9-42 | on success: the parsed data as values, no errors, no translator call; on failure: values `{}`, errors and translator calls exactly those of folding the issues in order, where an issue fills its key only when the key is non-empty, not an inherited member's name, and not yet filled |
| ZodResolver.IsErrorKey | src/lib/zodResolverWithI18n.ts:22 | defines the keys the loop fills: `path` is truthy, so not empty, and `errors[path]` does not find one of the inherited names on the empty record |
| ZodResolver.IndexAndNestedKeysFillable | src/lib/zodResolverWithI18n.ts:20-22 | a key made of digits, as an array index gives, and a dotted key, as a nested path gives, are never an inherited name, so the loop can fill them |
| ZodResolver.NatToDecimal | src/lib/zodResolverWithI18n.ts:20 | the text `join` gives an array index is never empty |
| ZodResolver.NatToDecimalDigits | src/lib/zodResolverWithI18n.ts:20 | the text of an array index is made of decimal digits only |
| ZodResolver.NatToDecimalCanonical | src/lib/zodResolverWithI18n.ts:20 | the text of an index has no leading zero, as JavaScript writes numbers: it starts with `0` only for the index 0, whose text is exactly `0` |
| ZodResolver.DecimalRoundTrip | src/lib/zodResolverWithI18n.ts:20 | an array index in a path is written in decimal and reads back as the same index |
| ZodResolver.JoinPath | src/lib/zodResolverWithI18n.ts:20 | defines `path.join('.')`: each segment's text (a key as written, an index in decimal) joined with `.` |
| ZodResolver.SegmentText | src/lib/zodResolverWithI18n.ts:20 | an index segment never gives empty text, so an issue under an array index is never dropped for an empty key |
| ZodResolver.EmptyKeyIff | src/lib/zodResolverWithI18n.ts:20-22 | the joined key is empty, so the issue is dropped, exactly for the empty path and the path of one empty key |
| ZodResolver.NestedPathDotted | src/lib/zodResolverWithI18n.ts:20 | a path of two or more segments always gives a dotted key |
| ZodResolver.JoinPathCollisions | src/lib/zodResolverWithI18n.ts:20 | a key with a dot and the nested path it spells share an error key, as do an index and its text |
| ZodResolver.HasValidationPrefix | src/lib/zodResolverWithI18n.ts:26 | defines `message.startsWith('validation:')`: the message is at least as long as the marker and begins with it |
| ZodResolver.MarkedIff | src/lib/zodResolverWithI18n.ts:26-27 | a message is marked exactly when it is the marker followed by a rest, and slicing the marker's length off gives that rest back |
| ZodResolver.CallFor | src/lib/zodResolverWithI18n.ts:26-30 | the translation key is the message with the `validation:` marker removed; the options are the `validation` namespace and the issue's own minimum and maximum, undefined when absent |
| ZodResolver.EntryFor | src/lib/zodResolverWithI18n.ts:23-36 | an entry's type is the issue's code; its message is the raw message when unmarked and the translator's answer when marked |
| ZodResolver.FoldErrors | src/lib/zodResolverWithI18n.ts:17-38 | the error map after the loop has seen the issues in order; it holds at most one entry per issue |
| ZodResolver.TranslationCalls | src/lib/zodResolverWithI18n.ts:19-31 | the translator calls, defined apart from the map as the call of each issue that is the first for a fillable key and carries the marker, in issue order; there are at most as many calls as issues |
| ZodResolver.FoldErrorsKeys | src/lib/zodResolverWithI18n.ts:17-37 | the error map's keys are exactly the joined paths of the issues that are neither empty nor the name of an inherited object member |
| ZodResolver.LastIsFirstIff | src/lib/zodResolverWithI18n.ts:22 | an issue is the first for its key exactly when its key is non-empty, not an inherited member's name, and not yet in the map built from the issues before it |
| ZodResolver.FoldErrorsFirstWins | src/lib/zodResolverWithI18n.ts:17-37 | each fillable key (non-empty, not an inherited member's name) holds the entry of the first issue with that key |
| ZodResolver.FoldErrorsGrows | src/lib/zodResolverWithI18n.ts:22-37 | one more issue adds exactly one entry when it is the first for its fillable key, and none otherwise |
| ZodResolver.FoldErrorsOrigin | src/lib/zodResolverWithI18n.ts:22-36 | every key of the map belongs to an issue that is the first for it, so its type is that issue's code |
| ZodResolver.LastCallAppended | src/lib/zodResolverWithI18n.ts:19-31 | one more issue appends its call to the trace when the resolver translates it, and nothing otherwise |
| ZodResolver.CallsOfPrefix | src/lib/zodResolverWithI18n.ts:19-31 | the calls made for the first k issues begin the calls made for them all: calls are never dropped or reordered |
| ZodResolver.IndicesWhereComplete | src/lib/zodResolverWithI18n.ts:19 | the listed indices of the issues that pass a test are increasing, each listed once, and none that passes is missing |
| ZodResolver.TranslationCallsInOrder | src/lib/zodResolverWithI18n.ts:19-31 | there are exactly as many calls as translated issues, and the i-th call is the call of the i-th translated issue in issue order |
| ZodResolver.TranslatedIssueCalled | src/lib/zodResolverWithI18n.ts:22-31 | a first issue of a fillable key with a marked message makes its translator call |
| ZodResolver.TranslatedIssuesAreCalled | src/lib/zodResolverWithI18n.ts:22-31 | every first issue of a fillable key with a marked message makes its translator call |
| ZodResolver.CallsComeFromTranslatedIssues | src/lib/zodResolverWithI18n.ts:22-31 | every translator call comes from a first issue of a fillable key with a marked message: none for an unmarked message, an empty or inherited key, or a later issue of a taken key |
| ZodResolver.TranslationCallsBounded | src/lib/zodResolverWithI18n.ts:22-31 | there are no more translator calls than error keys |
| ZodResolver.LaterIssueIgnored | src/lib/zodResolverWithI18n.ts:22-37 | an issue with an empty, inherited or already taken key changes neither the map nor the calls made |
| ZodResolver.NoMarkerNoTranslation | src/lib/zodResolverWithI18n.ts:23-26 | with no marked message the translator is never called and every entry is some issue's code and raw message |
| ZodResolver.NestedPathScenario | src/lib/zodResolverWithI18n.test.ts:68-83 | an issue at the nested path user/email gives the key `user.email` with its code and raw message |
| ZodResolver.FirstWinsScenario | src/lib/zodResolverWithI18n.test.ts:85-97 | of two issues on one field only the first, `too_small`, is kept |
| ZodResolver.MinBoundScenario | src/lib/zodResolverWithI18n.test.ts:117-131 | a marked message with minimum 8 makes exactly one translator call, with the stripped key, namespace `validation`, min 8 and max undefined, and the entry holds the translator's answer |
| ZodResolver.MaxBoundScenario | src/lib/zodResolverWithI18n.test.ts:133-147 | a marked message with maximum 10 makes exactly one translator call, with the stripped key, namespace `validation`, min undefined and max 10, and the entry holds the translator's answer |
| ZodResolver.UnmarkedScenario | src/lib/zodResolverWithI18n.test.ts:149-159 | an unmarked message is kept as written and makes no translator call |
| ZodResolver.InheritedKeyScenario | src/lib/zodResolverWithI18n.ts:17-22 | an issue at the key `constructor` makes no entry and, though marked, no translator call |

## Left out

- The schema engine (zod) and the schemas in `src/lib/schemas.ts`: a schema check is an input value, the list of issues it reports.
- The `async`/`await` around `safeParseAsync`: the resolver takes the settled parse outcome. A schema engine that throws is not modelled; such an exception simply propagates in the source.
- The translator's own behaviour (lookup and `{{min}}`/`{{max}}` interpolation): it is an arbitrary function of its key and options.
- Symbol path segments (which `join` cannot render) and bounds given as `bigint`: bounds are reals, segments are keys or indices.
- The `values` of a successful parse are returned as an opaque value of any type; what the schema transforms (trimming, for instance) belongs to the schema engine.
- PositionAllocator.CalculateNewPosition: requires a drop index between 0 and the column's length, because the implementation file is not part of this model and its behaviour for other indices is not known.
- Floating-point behaviour of positions: repeated midpoints between the same neighbours lose precision under IEEE doubles and may tie or invert; with reals this cannot happen, and there is no rebalancing in the source either.
- The type of the mapped card's fields is taken on trust: the mapper does not check that `column_name` or `status` hold one of their enumerated tags, and the model's enumerations assume it.
- Page components, routing, styling, the authentication store, and the serverless request handlers (account deletion, timers, vote toggling, owned boards): UI and remote database I/O outside this core.
