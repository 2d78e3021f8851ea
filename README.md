# Source-id extraction in the CF auth proxy

The metric store's auth proxy refuses a PromQL query before it reaches
storage unless every selector in it is scoped to a tenant. A tenant is a
`source_id`. The proxy parses the query and walks the syntax tree with a
visitor. For every vector and matrix selector the visitor looks at the label
matchers on `source_id`:

- a regular-expression matcher (`=~`) with a non-empty pattern rejects the
  query with "regular expressions are unavailable on source ids";
- a selector with no `source_id` matcher whose value is non-empty rejects the
  query with "one or more terms lack a sourceId";
- the values of the equality matchers (`=`) are collected into a set.

The first error stops the walk, and the proxy then returns no ids. Otherwise
it returns the collected set as a list. The proxy later checks that list
against the tenants the caller may read.

The project has three modules:

- `PromQL` (`promql.dfy`) holds the part of the PromQL syntax tree the
  extractor sees: selectors with their matchers, the inner expression kinds,
  and `Children`, the order in which a walk visits sub-expressions.
- `SourceIds` (`source_ids.dfy`) is the functional specification.
  `SelectorIds` gives the verdict on one selector. `Selectors` lists a
  query's selectors in pre-order. `Decide` takes the error of the first
  rejected selector, or else the union of the ids. `Extract` is `Decide`
  applied to `Selectors`. Lemmas state what these mean for whole queries.
- `CfAuthProxy` (`cfauthproxy.dfy`) is the imperative code. `SourceIdVisitor`
  is a class whose `sourceIds` set field is updated in place. `Visit` and the
  loop in `AddSourceIdsFromMatchers` are proved against `SelectorIds`. The
  recursive `Walk` is proved against `Extract`. `QueryParser.ExtractSourceIds`
  turns the set into a duplicate-free list with a loop.

The documented design intent of the query authorizer and the code disagree
in two places. The model follows the code:

- The design says that a selector "lacking a `source_id` equality matcher"
  is rejected as unscoped, and that a successful result is "the deduplicated
  set of all source ids referenced by any selector in the query". In the
  code, any `source_id` matcher with a non-empty value scopes a selector,
  `!=` and `!~` included (`query_parsing.go:71-82`). So
  `cpu{source_id!="a"}` is accepted with no ids, and so is a query with no
  selectors at all, such as `1 + 1`. This is shown by
  `NegatedMatchersScopeWithoutIds`, `NotEqualQueryExample` and
  `NoSelectorsExample`.
- The design says that a regex on `source_id` yields the regex error
  "regardless of other selectors". In the code the first rejected selector
  in pre-order decides the error (`query_parsing.go:56-63`). An earlier
  unscoped selector therefore reports the missing source id instead. The
  query is rejected either way (`RegexOnSourceIdRejects`).

## Model

| member | source | states |
|---|---|---|
| `CfAuthProxy.QueryParser.ExtractSourceIds` | src/pkg/cfauthproxy/query_parsing.go:12-36 | A parse failure is returned unchanged with no ids. Otherwise the error is the walk's verdict `Extract`, and an error comes with no ids. On success the list has no duplicates and holds exactly the ids in `Extract`'s set. |
| `CfAuthProxy.Walk` | src/pkg/cfauthproxy/query_parsing.go:20-27 | Walking a tree returns the error of `Extract` on it, so the first rejected selector in pre-order aborts the walk. On success exactly `Extract`'s ids are added to the visitor. On failure the visitor only gains ids named by equality matchers in the tree. |
| `CfAuthProxy.SourceIdVisitor.constructor` | src/pkg/cfauthproxy/query_parsing.go:42-46 | A new visitor starts with an empty id set. |
| `CfAuthProxy.SourceIdVisitor.Visit` | src/pkg/cfauthproxy/query_parsing.go:48-66 | The closing nil visit stops descent, changes nothing and never fails. A non-selector node changes nothing and never fails. A vector or matrix selector is decided by `SelectorIds` on its matchers, and the walk continues only if it is accepted. The set changes as `AddSourceIdsFromMatchers` says. |
| `CfAuthProxy.SourceIdVisitor.AddSourceIdsFromMatchers` | src/pkg/cfauthproxy/query_parsing.go:68-85 | The loop's result is `SelectorIds`: the regex error if some non-empty `source_id` matcher is a regex, else the missing-id error if no `source_id` matcher has a non-empty value, else the equality values are added. A missing-id error adds nothing. A regex error leaves added exactly the equality values of the matchers before the first non-empty `source_id` regex. |
| `CfAuthProxy.AddSourceIdsFromLabelMatcher` | src/pkg/cfauthproxy/query_parsing.go:87-95 | A regex matcher is the regex error. An equality matcher adds its value to the set. The negated kinds add nothing and do not fail. |
| `SourceIds.DecideMeaning` | src/pkg/cfauthproxy/query_parsing.go:25-35 | A list of selectors is accepted exactly when every selector is. The accepted ids are then the union of the equality ids of all selectors. |
| `SourceIds.DecideFirstFailure` | src/pkg/cfauthproxy/query_parsing.go:61-63 | When some selector is rejected and every earlier one is accepted, the verdict is that selector's error. |
| `SourceIds.DecideAppend` | src/pkg/cfauthproxy/query_parsing.go:20-27 | Deciding two selector lists one after the other gives the left list's error if it has one, then the right list's, and otherwise the union of their ids. |
| `SourceIds.DecideSingle` | src/pkg/cfauthproxy/query_parsing.go:56-58 | A query made of a single selector is decided by that selector's verdict alone. |
| `SourceIds.FailedPrefixDecides` | src/pkg/cfauthproxy/query_parsing.go:61-63 | Once the selectors under a node's first children are rejected, the later children change neither the verdict nor the ids named so far. |
| `SourceIds.BinaryExprDecidesLeftFirst` | src/pkg/cfauthproxy/query_parsing.go:20-24 | A binary expression's verdict is its left operand's error, else its right operand's error, else the union of both operands' ids. |
| `SourceIds.FirstRejectedSelectorDecides` | src/pkg/cfauthproxy/query_parsing.go:25-27 | One rejected selector rejects the whole query. The error is that of the first rejected selector in pre-order, whatever the other selectors contain. |
| `SourceIds.RegexOnSourceIdRejects` | src/pkg/cfauthproxy/query_parsing.go:71-76 | A selector with a `source_id=~` matcher whose pattern is non-empty rejects the query. The error is the regex error when no earlier selector was rejected. |
| `SourceIds.UnscopedSelectorRejects` | src/pkg/cfauthproxy/query_parsing.go:69-82 | A selector whose `source_id` matchers all have empty values, or which has none, rejects the query. The error is the missing-id error when no earlier selector was rejected. |
| `SourceIds.SourceIdMatchers` | src/pkg/cfauthproxy/query_parsing.go:71 | The filtered list holds exactly the matchers on the `source_id` label. |
| `SourceIds.OtherLabelsIgnored` | src/pkg/cfauthproxy/query_parsing.go:71 | A selector's verdict and ids are the same when all matchers on other labels are dropped. |
| `SourceIds.NegatedMatchersScopeWithoutIds` | src/pkg/cfauthproxy/query_parsing.go:88-94 | A selector whose non-empty `source_id` matchers are all `!=` or `!~` is accepted and names no id. |
| `SourceIds.AcceptedIdsAreNamedIds` | src/pkg/cfauthproxy/query_parsing.go:91-92 | An accepted query's ids are exactly the non-empty values of `source_id=` matchers, taken from all its selectors. |
| `SourceIds.NotEqualQueryExample` | src/pkg/cfauthproxy/query_parsing.go:71-73 | `cpu{source_id!="a"}` is accepted with an empty id set. |
| `SourceIds.EmptySourceIdExample` | src/pkg/cfauthproxy/query_parsing.go:80-82 | `cpu{source_id=""}` is rejected with the missing-id error. |
| `SourceIds.NoSelectorsExample` | src/pkg/cfauthproxy/query_parsing.go:49-65 | `1 + 1` has no selectors and is accepted with an empty id set. |
| `SourceIds.DuplicateIdsExample` | src/pkg/cfauthproxy/query_parsing.go:92 | Two selectors naming `app-1` give the set `{"app-1"}`, with the id once. |
| `SourceIds.TwoTenantsExample` | src/pkg/cfauthproxy/query_parsing.go:91-92 | `a{source_id="app-1"} or b{source_id="app-2"}` gives `{"app-1", "app-2"}`: ids from different selectors are united. |
| `SourceIds.OnlyChildDecides` | src/pkg/cfauthproxy/query_parsing.go:20-24 | A node with a single child, such as a call, a parenthesis or a unary expression, has the same verdict and ids as that child: inner nodes add nothing. |

## Left out

- `promql.ParseExpr` is not part of this model. `ExtractSourceIds` takes the parser's outcome, a tree or a parse error message, as its input.
- The real `promql.Walk`, `promql.Children` and node types are not part of this model. The `PromQL` module rebuilds them: the walk visits a node, then its children left to right, then makes a closing nil visit. The first error or a nil visitor stops it. `EvalStmt` is left out, because the proxy parses a single expression.
- `Visit`'s path argument is left out; the visitor never reads it.
- The Go map `map[string]struct{}` is modelled as a `set<string>` field. `addSourceIdsFromLabelMatcher` receives the visitor that owns the set instead of the bare map.
- `ExtractSourceIds` returns ids in map-iteration order, which Go leaves unspecified. The model picks elements of the set in an arbitrary order and promises only the set of ids and no duplicates.
- Go returns a nil slice when no ids are collected. The model returns `[]` there as well.
- `CfAuthProxy.Walk`: on a rejected query, the model bounds the ids the visitor has collected by the ids the tree names but does not say exactly which were added before the error. The caller discards them.
- Number literals are reals, not 64-bit floats. Their value plays no part in the decision.
- The test spies, the rule-manager client tests, configuration loading, debug metric names and the performance benchmark in the repository are I/O, concurrency or test plumbing, and are not modelled.
- The persistence store, shard retention and the point codec have no source here, so they are not modelled.
