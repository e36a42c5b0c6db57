# AsyncRedisDocuments — a Dafny model of the query and index core

AsyncRedisDocuments stores C# "documents" in Redis. Each document keeps its fields as
separate keys under `indexName:id`. RediSearch indexes are derived from the attributes
on those fields. This project models the library's core:

- **Query construction.** `IndexQuery` is the fluent builder with its escaping. The LINQ
  expression visitor (`RedisQueryVisitor`) compiles a predicate into RediSearch syntax.
  The two regex-based converters rewrite the compiled text, and `QueryBuilder` ties the
  steps together.
- **Query execution.** This covers the `FT.SEARCH` request with its `LIMIT` paging, the
  parsing of replies, the fail-soft policy that turns every error, including a failed counter update, into an empty page,
  the per-index usage counter, the projection of selected fields, and the key scan of
  `QueryExecutor.GetAllAsync`.
- **Document helpers.** `DocumentFactory` creates documents, and `GetKey` forms their
  keys. `DeleteAsync` deletes a document's components and then scans the key space
  for leftovers. `RedisExtensions` converts values to and from stored text.
- **Index generation.** `DocumentAnalyzer` walks the index attributes, with a
  per-type cache. `IndexDefinitionBuilder` builds a definition and its fingerprint.
  `IndexManager` reconciles an index with the fingerprint stored under
  `index:<name>`, and `IndexBuilder` gives each document type one pass.

Everything is modelled as pure functions over immutable data. The Redis server is
replaced by oracle parameters:
- a function from a request to a reply or an exception;
- a sequence of `SCAN` replies;
- a `Store` of hashes, indexes and stamps.

Reflection is replaced by descriptor datatypes (`ClrType`, `DocType`, `Property`,
`Constructor`, `Component`, `MemberInfo`). A `DocType`'s properties are what
`GetProperties()` lists, static ones and indexers included; the analyzer, which asks
for instance properties only, skips the static ones. Each operation's contract says what the source promises, and lemmas relate
operations to their partners:
- escaping is proved reversible;
- compilation succeeds exactly on the supported expressions;
- reconciliation is idempotent;
- value conversion round-trips;
- the counter goes up by exactly one per successful search whose counter update succeeds, and an error leaves it alone;
- the builder indexes each type at most once.

### How the code differs from its documented behaviour

Where the library's written description and its code disagree, the model follows the
code:

- **Instance `Contains`.** The visitor reads `Arguments[1]` for every `Contains` call. An
  instance call `x.Name.Contains("v")` has only one argument, so it throws. It is not
  compiled to `*v*` (`Visitor.Compile` yields an error).
- **Index initialisation.** `IndexManager.InitializeIndexes` waits on each type in turn.
  The first exception ends the whole run, and the remaining types are never reconciled
  (`Lifecycle.ManagerInitStopsAtFailure`).
- **Dropping an index.** `UpdateIndexAsync` swallows every failure to drop the old
  index, not only "index not found" (`Lifecycle.Update`).
- **The stored fingerprint.** The fingerprint stored as the index "hash" is the details
  text itself. `ComputeBase64` is never called.
- **Builder-side converter.** The `QueryBuilder` converter's condition regex captures
  a single character of `[#$~]` as the kind indicator. The evaluator compares that
  indicator with the kind markers `|Numeric|`, `|Text|` and `|Tag|`, which it can
  never equal. So every matched condition loses its indicator and operator and
  becomes a bare `field:value` (`BuilderConverter.OneCharIndicator`,
  `BuilderConverter.LowerIsBare`).
- **Component cleanup.** The cleanup pattern of `DeleteAsync` is `key*` rather than
  `key:*`. It therefore also matches the keys of other documents whose id extends
  this one's (`Documents.CleanupPatternOverreaches`, `Documents.CleanupPatternExample`).

## Model

| member | source | states |
|---|---|---|
| Escaping.ChainIsMap | AsyncRedisDocuments/Index/Query.cs:77-98 | For distinct characters with no backslash after the first position, the chain of one-character `Replace` calls equals escaping every listed character with one backslash in a single pass |
| Escaping.UnescapeEscape | AsyncRedisDocuments/Index/Query.cs:72-99 | Removing the escapes from an escaped text gives back the original text |
| IndexQuery.Create | AsyncRedisDocuments/Index/Query.cs:13 | A new query has no clauses and renders as the empty text |
| IndexQuery.ReservedIsWellOrdered | AsyncRedisDocuments/Index/Query.cs:77-98 | The builder's 21 reserved characters are distinct, the backslash is replaced first, and `@` is not among them |
| IndexQuery.EscapeSpecialCharacters | AsyncRedisDocuments/Index/Query.cs:72-99 | A null value stays null; any other value has each reserved character escaped with one backslash and nothing else changed |
| IndexQuery.EscapeSpecialCharactersReversible | AsyncRedisDocuments/Index/Query.cs:72-99 | The original value can be recovered from its escaped form |
| IndexQuery.EscapeSpecialCharactersPlain | AsyncRedisDocuments/Index/Query.cs:72-99 | A value with no reserved character is unchanged |
| IndexQuery.TextClause | AsyncRedisDocuments/Index/Query.cs:15-24 | A fuzzy level outside 0 to 3 is an argument error; otherwise exactly one clause is appended: the escaped value in single quotes with that many `%` on each side, after `@name:` |
| IndexQuery.TextExact | AsyncRedisDocuments/Index/Query.cs:26-32 | Appends exactly one clause: the escaped value in double quotes inside single quotes, after `@name:` |
| IndexQuery.TagClause | AsyncRedisDocuments/Index/Query.cs:34-39 | A null value is a null-reference error; otherwise exactly one clause is appended: the escaped value in braces after `@name:` |
| IndexQuery.NumericClause | AsyncRedisDocuments/Index/Query.cs:41-47 | Appends exactly one clause and keeps the earlier ones; the clause is `@name:[min max]` with `-inf` for an absent lower bound and `+inf` for an absent upper bound, in all four combinations |
| IndexQuery.Or | AsyncRedisDocuments/Index/Query.cs:49-57 | An empty list is an argument error; otherwise one clause is appended: the rendered sub-queries joined by the union bar, in parentheses |
| IndexQuery.Not | AsyncRedisDocuments/Index/Query.cs:59-67 | Negating a query with no clauses is an invalid-operation error; otherwise only the last clause changes, gaining a `-` prefix |
| IndexQuery.RenderAdd | AsyncRedisDocuments/Index/Query.cs:69 | A query with one more clause renders as the earlier text, one space, then the clause, with no space before the first clause |
| IndexQuery.RenderKeepsPrefix | AsyncRedisDocuments/Index/Query.cs:69 | Adding a clause never changes the text rendered so far |
| IndexQuery.GetPropertyName | AsyncRedisDocuments/Index/Query.cs:106-118 | Succeeds exactly on a member access or a unary node directly around one, with the name `ExpressionHelper` gives; anything else is an argument error |
| IndexQuery.GetPropertyNameStricter | AsyncRedisDocuments/Index/Query.cs:106-118 | A member under two conversions is rejected here but resolved by `ExpressionHelper`, so the two helpers differ |
| IndexQuery.TypedText | AsyncRedisDocuments/Index/Query.cs:120-125 | An unresolvable selector is an argument error; otherwise the result is the text clause on the resolved name |
| IndexQuery.TypedTextExact | AsyncRedisDocuments/Index/Query.cs:127-132 | Fails exactly when the selector cannot be resolved; otherwise the exact-text clause on the resolved name |
| IndexQuery.TypedTag | AsyncRedisDocuments/Index/Query.cs:134-139 | An unresolvable selector is an argument error; otherwise the tag clause on the resolved name |
| IndexQuery.TypedNumeric | AsyncRedisDocuments/Index/Query.cs:141-146 | Fails exactly when the selector cannot be resolved; otherwise the numeric clause on the resolved name |
| Ints.Wrap | AsyncRedisDocuments/Query/RedisSearchFunctions.cs:110 | The result lies in the signed range of the width, and a value already in range is unchanged |
| Ints.WrapIncrement | AsyncRedisDocuments/Query/RedisSearchFunctions.cs:141-144 | Incrementing a value in range adds one, except at the maximum, which goes to the minimum; the result always differs from the input |
| Kinds.IndexTypeNameInjective | AsyncRedisDocuments/Index/IndexDefinitionBuilder.cs:45 | Different index kinds have different enum names in the fingerprint |
| IndexTypeHelper.GetIndexType | AsyncRedisDocuments/Helper/IndexTypeHelper.cs:9-23 | Never Auto: exactly the numeric type codes give Numeric, string gives Text, and every other type gives Tag |
| IndexTypeHelper.IsNumericTypeIsCodeSet | AsyncRedisDocuments/Helper/IndexTypeHelper.cs:30-51 | The numeric test holds exactly when the type code is one of the eleven numeric codes |
| GenericIndexTypeHelper.GetIndexType | AsyncRedisDocuments/Index/IndexTypeHelper.cs:9-47 | The generic helper never gives Auto and agrees with the non-generic one on every type |
| Expressions.GetMemberName | AsyncRedisDocuments/QueryBuilder/ExpressionHelper.cs:10-28 | A member access gives its name; a node that is not a member, lambda or unary node is an argument error, and every failure is an argument error |
| Expressions.GetMemberNameWrapped | AsyncRedisDocuments/QueryBuilder/ExpressionHelper.cs:16-23 | Any stack of lambda and unary wrappers around an expression resolves to the same result as the expression itself |
| Expressions.ResolveMemberExpression | AsyncRedisDocuments/Extensions/ExpressionExtensions.cs:29-45 | Every success is a member access; a unary node gives its operand if that is a member and an invalid-cast error otherwise; any other non-member is not supported |
| Expressions.ResolveMemberExpressionIdempotent | AsyncRedisDocuments/Extensions/ExpressionExtensions.cs:29-45 | Resolving an already resolved expression gives it back |
| Expressions.GetValue | AsyncRedisDocuments/Extensions/ExpressionExtensions.cs:47-74 | A member whose target is neither a constant nor a member access is a not-implemented error |
| Expressions.GetValuePath | AsyncRedisDocuments/Extensions/ExpressionExtensions.cs:47-74 | A chain of field reads on a captured closure reads the first field of the closure object and follows the rest of the path from there |
| Expressions.ResolveArgs | AsyncRedisDocuments/Extensions/ExpressionExtensions.cs:11-27 | A non-call is an invalid-cast error; on success there is one value per argument, each that argument's resolution; on failure the error is that of the first failing argument |
| Visitor.OpToken | AsyncRedisDocuments/Query/RedisQueryVisitor.cs:20-48 | Each supported operator has its token: `==`, `!=`, `>`, `>=`, `<`, `<=`, ` AND `, ` OR `; every other operator is a not-supported error |
| Visitor.OpTokenInjective | AsyncRedisDocuments/Query/RedisQueryVisitor.cs:20-48 | Distinct supported operators emit distinct tokens, so the operator can be read back from the text |
| Visitor.ResolvedKind | AsyncRedisDocuments/Query/RedisQueryVisitor.cs:79-95 | Never Auto: a declared kind other than Auto wins, and Auto falls back to the kind of the component's type argument |
| Visitor.Delimiter | AsyncRedisDocuments/Query/RedisQueryVisitor.cs:67-108 | An indexed property of a generic component type gets `\|Kind\|` for its resolved kind, which is never Auto; every other member gets no marker |
| Visitor.RenderConstant | AsyncRedisDocuments/Query/RedisQueryVisitor.cs:166-185 | Null renders as nothing; booleans as `true` or `false`; an integer as decimal text that parses back to it; a date as its ISO text; the query-side visitor writes strings as they are and the builder-side one writes their cleaned form; any other value as its own rendering |
| Visitor.Unquoted | AsyncRedisDocuments/Query/RedisQueryVisitor.cs:118-119 | Removes every double quote: the result is a subsequence of the text with every other character kept as often as it occurs |
| Visitor.Compile | AsyncRedisDocuments/Query/RedisQueryVisitor.cs:15-164 | A constant renders as its value; the lambda's parameter leaves no text; a captured member renders the value read from its closure, or fails with that read's error; a `new` is the text of its arguments; a member renders as its field reference; a call with fewer than two arguments is an argument-out-of-range error, so the instance form of `Contains` fails; unknown methods and operators are not supported; a failing left operand's error propagates |
| Visitor.CompileBinary | AsyncRedisDocuments/Query/RedisQueryVisitor.cs:15-52 | A compiled binary node is `(`, the left text, the operator's token, the right text and `)` |
| Visitor.CompileUnary | AsyncRedisDocuments/Query/RedisQueryVisitor.cs:149-164 | A conversion and a lambda compile to their operand's text; a negation to `NOT ` followed by it |
| Visitor.CompileCall | AsyncRedisDocuments/Query/RedisQueryVisitor.cs:116-147 | `Contains` emits the object, `*value*`, then the first argument; `StartsWith` the object, the first argument, then `value*`; `EndsWith` the object, `*value`, then the first argument; the value is the second argument's rendering without double quotes |
| Visitor.FieldExample | AsyncRedisDocuments/Query/RedisQueryVisitor.cs:54-103 | A plain property `Name` compiles to `@Name:` |
| Visitor.EqualityExample | AsyncRedisDocuments/Query/RedisQueryVisitor.cs:15-52 | `Name == "Bob"` compiles to `(@Name:==Bob)` |
| Visitor.CompileAll | AsyncRedisDocuments/Query/RedisQueryVisitor.cs:15-164 | No children give no text, one child gives its own text, and success needs every child to compile |
| Visitor.ComparisonExample | AsyncRedisDocuments/Query/RedisQueryVisitor.cs:15-52 | `x.Age > 5` over a plain field compiles to `(@Age:>5)` |
| Visitor.NegationExample | AsyncRedisDocuments/Query/RedisQueryVisitor.cs:149-164 | `!(Name == "Bob")` compiles to `NOT (@Name:==Bob)`, and the conversion around it adds nothing |
| Visitor.CompileSucceedsIffSupported | AsyncRedisDocuments/Query/RedisQueryVisitor.cs:15-164 | Compilation succeeds exactly on expressions built only from supported nodes |
| Visitor.CompileAllSucceedsIffSupported | AsyncRedisDocuments/Query/RedisQueryVisitor.cs:15-164 | Compiling a list succeeds exactly when every element is supported |
| Visitor.ParenthesesCountBinaries | AsyncRedisDocuments/Query/RedisQueryVisitor.cs:15-52 | When no leaf renders a parenthesis, the compiled text has exactly one opening and one closing parenthesis per binary node |
| Visitor.CapturedMember | AsyncRedisDocuments/Query/RedisQueryVisitor.cs:58-64 | A captured string field compiles to its value in the query-side visitor but to a field reference in the builder-side one |
| Visitor.Clean | AsyncRedisDocuments/QueryBuilder/RedisQueryVisitor.cs:161 | Every character outside letters, digits and `_,.!?` becomes `*`, and all others stay in place, so the cleaned text has as many characters as the original |
| Visitor.CleanIdempotent | AsyncRedisDocuments/QueryBuilder/RedisQueryVisitor.cs:161 | Cleaning twice is the same as cleaning once |
| Visitor.CleanFixedPoint | AsyncRedisDocuments/QueryBuilder/RedisQueryVisitor.cs:161 | Cleaning leaves a text unchanged exactly when each character is allowed or is `*` |
| Visitor.SnapshotsAgree | AsyncRedisDocuments/QueryBuilder/RedisQueryVisitor.cs:54-178 | On expressions with no captured member and only clean strings, both visitor copies give the same result |
| QueryConverter.RewriteLogicalAbsent | AsyncRedisDocuments/Query/LinkToRedisConverter.cs:18-19 | A text with no whole-word `AND` or `OR` is unchanged by the logical-operator rewrite |
| QueryConverter.TagReservedIsWellOrdered | AsyncRedisDocuments/Query/LinkToRedisConverter.cs:80-100 | The 20 reserved tag characters are distinct and include neither the backslash nor the double quote |
| QueryConverter.EscapeTag | AsyncRedisDocuments/Query/LinkToRedisConverter.cs:76-101 | Each reserved tag character is escaped with one backslash in a single pass |
| QueryConverter.EscapeTextSearch | AsyncRedisDocuments/Query/LinkToRedisConverter.cs:69-73 | Drops every character that is neither a word nor a space character, then escapes each space with a backslash |
| QueryConverter.EscapeTextSearchWords | AsyncRedisDocuments/Query/LinkToRedisConverter.cs:69-73 | A value made only of word characters passes unchanged |
| QueryConverter.NumericRange | AsyncRedisDocuments/Query/LinkToRedisConverter.cs:43-51 | Equality and inequality give the one-point range, lower bounds give `[v +inf]` and upper bounds `[-inf v]` |
| QueryConverter.Evaluate | AsyncRedisDocuments/Query/LinkToRedisConverter.cs:33-67 | An unrecognised kind or operator gives `(field:value)`; numeric, text and tag conditions give their clauses, negated with `-` for inequality |
| QueryConverter.StrictBoundsIndistinct | AsyncRedisDocuments/Query/LinkToRedisConverter.cs:47-50 | `>` and `>=`, and `<` and `<=`, give the same inclusive range, so strictness is lost |
| QueryConverter.NegationIsPrefix | AsyncRedisDocuments/Query/LinkToRedisConverter.cs:40-64 | A negated condition evaluates to `-` followed by the clause of the equality condition |
| QueryConverter.TagValueRecoverable | AsyncRedisDocuments/Query/LinkToRedisConverter.cs:59-64 | The tag value can be recovered by unescaping the term inside the clause's braces |
| QueryConverter.LowerPlain | AsyncRedisDocuments/Query/LinkToRedisConverter.cs:23 | Text in which the condition pattern matches nothing passes the condition pass unchanged |
| QueryConverter.Convert | AsyncRedisDocuments/Query/LinkToRedisConverter.cs:15-31 | The result is the condition-pass output in single quotes, less one leading parenthesis when it starts with two |
| QueryConverter.ConvertPlain | AsyncRedisDocuments/Query/LinkToRedisConverter.cs:15-31 | Text with no condition match and no whole-word `AND` or `OR` converts to itself in single quotes, less one leading parenthesis when it starts with two |
| BuilderConverter.ReservedIsWellOrdered | AsyncRedisDocuments/QueryBuilder/LinkToRedisConverter.cs:80-102 | The 22 reserved characters are distinct, the backslash is replaced first, and `@` and the double quote are among them |
| BuilderConverter.EscapeTag | AsyncRedisDocuments/QueryBuilder/LinkToRedisConverter.cs:76-103 | Each reserved character is escaped with one backslash in a single pass |
| BuilderConverter.EscapeTagReversible | AsyncRedisDocuments/QueryBuilder/LinkToRedisConverter.cs:76-103 | The value can be recovered from its escaped form |
| BuilderConverter.TrimQuotes | AsyncRedisDocuments/QueryBuilder/LinkToRedisConverter.cs:58 | The result is a contiguous part of the value with only double quotes before and after it, and neither starts nor ends with a double quote: the maximal leading and trailing quotes are removed |
| BuilderConverter.TextTerm | AsyncRedisDocuments/QueryBuilder/LinkToRedisConverter.cs:58-60 | The text term holds only ASCII letters and digits; it is a subsequence of the trimmed value that keeps each of its letters and digits as often as it occurs, so it is exactly those characters in order |
| BuilderConverter.TextTermOfWord | AsyncRedisDocuments/QueryBuilder/LinkToRedisConverter.cs:58-60 | A value made only of ASCII letters and digits is its own text term |
| BuilderConverter.Evaluate | AsyncRedisDocuments/QueryBuilder/LinkToRedisConverter.cs:35-73 | An unrecognised indicator gives `field:value`; the Numeric, Text and Tag kind markers give their clauses, negated with `-` for inequality |
| BuilderConverter.StrictBoundsIndistinct | AsyncRedisDocuments/QueryBuilder/LinkToRedisConverter.cs:49-52 | Strict and non-strict comparisons give the same range |
| BuilderConverter.OneCharIndicator | AsyncRedisDocuments/QueryBuilder/LinkToRedisConverter.cs:35-73 | A one-character indicator, which is all the pattern can capture, is never a kind marker, so the condition becomes `field:value` |
| BuilderConverter.Marker | AsyncRedisDocuments/QueryBuilder/LinkToRedisConverter.cs:28 | Each marker is longer than two characters, starts and ends with the vertical bar, and holds no single quote |
| BuilderConverter.LowerIsBare | AsyncRedisDocuments/QueryBuilder/LinkToRedisConverter.cs:19-21 | The condition pass amounts to writing `field:value` for every match and keeping the rest |
| BuilderConverter.StripMarkersKeepsQuotes | AsyncRedisDocuments/QueryBuilder/LinkToRedisConverter.cs:26-30 | Removing markers from a quoted text removes them inside the quotes only |
| BuilderConverter.StripMarkersAbsent | AsyncRedisDocuments/QueryBuilder/LinkToRedisConverter.cs:26-30 | A text without a vertical bar has no marker to remove |
| BuilderConverter.ReplaceMarkerKeepsQuotes | AsyncRedisDocuments/QueryBuilder/LinkToRedisConverter.cs:26-30 | Removing one kind marker from a quoted text leaves both enclosing single quotes in place |
| BuilderConverter.Convert | AsyncRedisDocuments/QueryBuilder/LinkToRedisConverter.cs:11-33 | The result is in single quotes around the whitespace-trimmed text with each match reduced to `field:value` and every kind marker removed |
| BuilderConverter.ConvertWithoutMarkers | AsyncRedisDocuments/QueryBuilder/LinkToRedisConverter.cs:11-33 | With no vertical bar left, the result is that trimmed text in single quotes |
| Scanning.Consumed | AsyncRedisDocuments/Extensions/AsyncDocumentExtensions.cs:51-66 | The replies a cursor loop reads are a prefix of the replies, ending at the first failure or cursor 0 |
| Documents.Fewest | AsyncRedisDocuments/Factory/DocumentFactory.cs:36-41 | Picks a constructor with the fewest parameters; among ties it takes the first in the list given, while .NET's `GetConstructors` promises no order, so which tied constructor is invoked is unspecified there (the instance the model returns does not depend on which one is chosen) |
| Documents.CreateEmpty | AsyncRedisDocuments/Factory/DocumentFactory.cs:26-54 | A null type is an argument-null error, and a non-document type or one without public constructors an invalid-operation error; an abstract type is a member-access error when its constructor is invoked; otherwise the first constructor with fewest parameters gets defaults for value types and null otherwise, giving a document with no id |
| Documents.Create | AsyncRedisDocuments/Factory/DocumentFactory.cs:13-24 | Fails with the empty instance's error, or with a null-reference error for a null id; otherwise the document has the type's index name, and an id not containing the key prefix is kept as given |
| Documents.GetKey | AsyncRedisDocuments/Extensions/AsyncDocumentExtensions.cs:13 | The key starts with `indexName:` and the rest is the id, empty for a null id |
| Documents.CreateFromKey | AsyncRedisDocuments/Factory/DocumentFactory.cs:13-24 | Creating a document from its own key gives back the document with the same id |
| Documents.StripAbsent | AsyncRedisDocuments/Factory/DocumentFactory.cs:19 | Removing every occurrence of the key prefix leaves an id without it unchanged |
| Documents.KeysFor | AsyncRedisDocuments/Components/BaseComponent.cs:15-30 | A component's key is its owner's key, or the global settings key without an owner, then a colon and the property name |
| Documents.KeysForDistinct | AsyncRedisDocuments/Components/BaseComponent.cs:29 | Components with different names get different keys |
| Documents.DeletedComponents | AsyncRedisDocuments/Extensions/AsyncDocumentExtensions.cs:28-43 | Exactly the readable properties, other than indexers, holding a deletable component are deleted: the effects are the deletions of those properties' names, and there are at most as many as properties |
| Documents.Cleanup | AsyncRedisDocuments/Extensions/AsyncDocumentExtensions.cs:46-73 | Every deletion is one non-empty batch of keys from the replies |
| Documents.Delete | AsyncRedisDocuments/Extensions/AsyncDocumentExtensions.cs:20-74 | The cleanup scan's pattern is the document's key followed by `*`; the deletion succeeds exactly when the listener does not throw, no readable property is an indexer and no deleted component throws; then the effects are the listener's notification, the component deletions and the cleanup of the scan's replies; otherwise they are the calls that returned before the first exception, with no scan, and the error is the next call's exception or an indexer read's |
| Documents.FirstThrow | AsyncRedisDocuments/Extensions/AsyncDocumentExtensions.cs:22-43 | The position of the first step that throws: every earlier step returns |
| Documents.PropertyStepsCalls | AsyncRedisDocuments/Extensions/AsyncDocumentExtensions.cs:28-43 | The calls the property loop makes are exactly the component deletions |
| Documents.PropertyStepsSucceed | AsyncRedisDocuments/Extensions/AsyncDocumentExtensions.cs:28-43 | The property loop gets through exactly when no readable property is an indexer and no deleted component throws |
| Documents.StepsMeaning | AsyncRedisDocuments/Extensions/AsyncDocumentExtensions.cs:20-43 | The steps before the scan make the uneventful deletion's calls, and none throws exactly when the deletion succeeds |
| Documents.DeleteListenerThrows | AsyncRedisDocuments/Extensions/AsyncDocumentExtensions.cs:22-26 | A listener that throws ends the deletion at once, with nothing deleted and its exception raised |
| Documents.DeleteListenerFirst | AsyncRedisDocuments/Extensions/AsyncDocumentExtensions.cs:22-26 | The listener is notified first and nowhere else |
| Documents.DeleteCoversComponents | AsyncRedisDocuments/Extensions/AsyncDocumentExtensions.cs:28-43 | When nothing throws, every deletable component is deleted |
| Documents.DeleteScansLast | AsyncRedisDocuments/Extensions/AsyncDocumentExtensions.cs:46-73 | Key deletions come only after every other call returned, and a deletion ended by an exception deletes no keys |
| Documents.CleanupReadsConsumed | AsyncRedisDocuments/Extensions/AsyncDocumentExtensions.cs:51-66 | The cleanup depends only on the replies the loop reads |
| Documents.CleanupDeletesEveryBatch | AsyncRedisDocuments/Extensions/AsyncDocumentExtensions.cs:51-66 | The cleanup deletes every non-empty batch the loop reads, in order, and nothing else |
| Documents.CleanupPatternOverreaches | AsyncRedisDocuments/Extensions/AsyncDocumentExtensions.cs:54 | The key of any document whose id extends this one's matches this document's cleanup pattern |
| Documents.CleanupPatternExample | AsyncRedisDocuments/Extensions/AsyncDocumentExtensions.cs:54 | Deleting `cars:1` scans a pattern that matches the different key `cars:10` |
| RedisValues.ConvertTo | AsyncRedisDocuments/Extensions/RedisExtensions.cs:12-45 | Null and only null gives nil; a bool stores `1` or `0`, and a string stores itself |
| RedisValues.EnumParse | AsyncRedisDocuments/Extensions/RedisExtensions.cs:53-54 | Fails exactly when the text is neither a member name nor an integer in the 32-bit range; a success is a value of the enum type |
| RedisValues.Default | AsyncRedisDocuments/Extensions/RedisExtensions.cs:50-51 | The default of every type except string has that type |
| RedisValues.ParseBits | AsyncRedisDocuments/Extensions/RedisExtensions.cs:62-66 | An optional `+` or `-` sign followed by ASCII digits succeeds with exactly the number it denotes when that fits the width; any other text is a format error and a number out of range an overflow error |
| RedisValues.ConvertFrom | AsyncRedisDocuments/Extensions/RedisExtensions.cs:48-90 | Nil gives the default; a bool reads `1` as true and anything else as false; a string reads itself; an `int` or `long` is the 32- or 64-bit `ParseBits` of the text, with its error; an enum is `EnumParse` of the text; any other success has the target type |
| RedisValues.EnumRoundTrip | AsyncRedisDocuments/Extensions/RedisExtensions.cs:17-54 | An enum value's stored name parses back to the value |
| RedisValues.RoundTrip | AsyncRedisDocuments/Extensions/RedisExtensions.cs:12-90 | Every value of a modelled type survives conversion to a stored value and back |
| RedisValues.BoolReadsOnlyOne | AsyncRedisDocuments/Extensions/RedisExtensions.cs:59-60 | Any stored text other than `1` reads as false |
| Search.Offset | AsyncRedisDocuments/Query/RedisSearchFunctions.cs:110 | The offset is in the 32-bit range and equals (page - 1) * size whenever that product fits |
| Search.RequestPaging | AsyncRedisDocuments/Query/RedisSearchFunctions.cs:106-124 | The search request carries the query, or `*` when it is blank, then `LIMIT` with the offset and the size; the select request carries the same, then `RETURN`, the field count and the fields |
| Search.Pages | AsyncRedisDocuments/Query/RedisSearchFunctions.cs:133 | A size of 0 gives none; otherwise the page count is the least number of pages of that size holding all results |
| Search.PagesExample | AsyncRedisDocuments/Query/RedisSearchFunctions.cs:133 | 45 results in pages of 20 make 3 pages, 40 make 2, and 0 make 0 |
| Search.Bump | AsyncRedisDocuments/Query/RedisSearchFunctions.cs:141-144 | The index's counter goes up by one with 32-bit wrap-around, starting from 0 when absent, and every other counter is unchanged |
| Search.BumpChanges | AsyncRedisDocuments/Query/RedisSearchFunctions.cs:141-144 | A bump always changes the index's counter |
| Search.ReadPage | AsyncRedisDocuments/Query/RedisSearchFunctions.cs:126-139 | An empty array gives no page; otherwise the total is the first element and the ids are the other elements in order; every well-formed reply reads |
| Search.Execute | AsyncRedisDocuments/Query/RedisSearchFunctions.cs:106-153 | A readable reply gives its page and bumps the counter when the counter's own Get/Set round trip succeeds; an exception, including one from that round trip, or an unreadable reply gives the empty page and leaves the counters |
| Search.ExecuteCountsOnce | AsyncRedisDocuments/Query/RedisSearchFunctions.cs:141-152 | The searched index's counter changes exactly when the search and the counter's round trip succeed, and then by one; no other counter changes |
| Search.ExecuteReadsIds | AsyncRedisDocuments/Query/RedisSearchFunctions.cs:132-152 | A reply of a total and some ids gives exactly those ids in order, that total, and its page count, unless the counter's round trip fails, which gives the empty page |
| Search.Properties | AsyncRedisDocuments/Query/RedisSearchFunctions.cs:93-98 | Succeeds exactly when the list has even length, no more pairs than requested fields, and no null value |
| Search.PropertiesKeys | AsyncRedisDocuments/Query/RedisSearchFunctions.cs:95-98 | The keys of the map are exactly the requested fields of the pairs present |
| Search.PropertiesLastWrite | AsyncRedisDocuments/Query/RedisSearchFunctions.cs:95-98 | The value of pair m is stored under field m when no later pair writes the same field |
| Search.PropertiesContents | AsyncRedisDocuments/Query/RedisSearchFunctions.cs:95-98 | Every field not rewritten by a later pair holds its own pair's value, the last write winning |
| Search.PropertiesIgnoreNames | AsyncRedisDocuments/Query/RedisSearchFunctions.cs:95-98 | The names in the reply do not matter: replies that differ only in them give the same map |
| Search.ParseOne | AsyncRedisDocuments/Query/RedisSearchFunctions.cs:89-100 | Succeeds exactly when element i is a non-null id the type can be created from and element i + 1 is a property list that parses, and then gives that document with that map |
| Search.ParsePairs | AsyncRedisDocuments/Query/RedisSearchFunctions.cs:87-101 | Past the end gives nothing; a successful parse from i takes one result per pair of elements up to the end |
| Search.ParsePairsDrop | AsyncRedisDocuments/Query/RedisSearchFunctions.cs:87-101 | Parsing resumed k pairs later gives the results after the first k |
| Search.ParsePairsAt | AsyncRedisDocuments/Query/RedisSearchFunctions.cs:87-101 | The k-th result is what element i + 2k parses to |
| Search.ParseResultsAt | AsyncRedisDocuments/Query/RedisSearchFunctions.cs:83-104 | The k-th result is the document created from element 2k + 1 with the property map of element 2k + 2 |
| Search.ParseResults | AsyncRedisDocuments/Query/RedisSearchFunctions.cs:83-104 | On success the reply is a total followed by one id and field list per result, and each result is the document with that id and its property map |
| Search.ReadSelection | AsyncRedisDocuments/Query/RedisSearchFunctions.cs:39-51 | An empty array gives no selection; otherwise the total is the first element, the page count follows from it, and the results are the parsed pairs |
| Search.Select | AsyncRedisDocuments/Query/RedisSearchFunctions.cs:14-58 | A readable reply gives its selection; an exception or an unreadable or empty reply gives the empty selection |
| Search.GetSelectedFields | AsyncRedisDocuments/Query/RedisSearchFunctions.cs:63-79 | An anonymous object gives its member names, a `new` of a named type, whose member list is null, an argument-null error, and a member access its name; a unary node around a value-typed operand cannot be re-wrapped as an `object` lambda and is an argument error; anything other than those or a unary node is an argument error |
| Search.SelectedThroughUnary | AsyncRedisDocuments/Query/RedisSearchFunctions.cs:70-76 | Any depth of unary nodes around reference-typed operands over a member access selects exactly that member's name |
| Search.SelectedFieldsAgreeWithMemberName | AsyncRedisDocuments/Query/RedisSearchFunctions.cs:63-79 | Through unary nodes whose operands are reference-typed, the selected field is the name `ExpressionHelper` resolves; a unary node around a value-typed operand, and a lambda, make the selector an argument error |
| Search.Extract | AsyncRedisDocuments/Index/QueryExtensions.cs:46-52 | Gives at most one id per element, and no id contains a colon |
| Search.ExtractConcat | AsyncRedisDocuments/Index/QueryExtensions.cs:46-52 | Extracting from joined replies joins the extractions |
| Search.ExtractKey | AsyncRedisDocuments/Index/QueryExtensions.cs:50-51 | The key `prefix:id` of a colon-free id extracts to the id |
| Search.SearchIds | AsyncRedisDocuments/Index/QueryExtensions.cs:39-66 | An exception, including one from the counter's Get/Set round trip, gives no ids and leaves the counters; otherwise any reply bumps the counter and gives the ids extracted from the elements after the count; no id contains a colon |
| Search.Contains | AsyncRedisDocuments/Index/QueryExtensions.cs:34-37 | True exactly when the id search finds an id, with the same counter effect |
| Search.CreateAll | AsyncRedisDocuments/Index/QueryExtensions.cs:21 | Succeeds exactly when there are no ids or the type can be created; then each id, in order, gives the document `Create` makes from it |
| Search.TypedSearch | AsyncRedisDocuments/Index/QueryExtensions.cs:14-22 | As written it always fails: with the type's own error when it cannot be created, and with a null-reference error otherwise |
| Search.TypedSearchFixed | AsyncRedisDocuments/Index/QueryExtensions.cs:14-22 | Succeeds exactly when the type can be created, giving one document per id found on the type's index, in order, with the id search's counters |
| Search.TypedContains | AsyncRedisDocuments/Index/QueryExtensions.cs:29-32 | As written it always fails, with the error of the typed search it awaits |
| Search.TypedContainsFixed | AsyncRedisDocuments/Index/QueryExtensions.cs:29-32 | Over the corrected typed search: succeeds exactly when the type can be created, and then agrees with the untyped check on the type's index |
| Pipeline.BuildQuery | AsyncRedisDocuments/Query/QueryBuilder.cs:36-41 | Building succeeds exactly when the visitor supports the predicate |
| Pipeline.QueryFor | AsyncRedisDocuments/Query/QueryBuilder.cs:8-18 | An empty query on the type's index, or the creation error when the type cannot be created |
| Pipeline.QueryOf | AsyncRedisDocuments/Query/QueryBuilder.cs:20-33 | Succeeds exactly when the predicate is supported and the type can be created, else the first of those errors; the query is on the type's index, keeps the predicate's text, and its query text is the converter's lowering of the compiled predicate, in single quotes |
| Pipeline.QueryOfPlain | AsyncRedisDocuments/Query/QueryBuilder.cs:20-33 | A compiled text with no condition match and no whole-word `AND` or `OR` becomes the query as it is, in single quotes |
| Pipeline.Refine | AsyncRedisDocuments/Query/RedisQueryExtensions.cs:13-20 | Fails exactly when the new predicate does; otherwise the index and predicate text are kept and the new filter follows the old one after a space |
| Pipeline.RefineUnfiltered | AsyncRedisDocuments/Query/RedisQueryExtensions.cs:13-20 | Refining the empty query of a type gives a space followed by the new filter |
| Pipeline.ToPagedList | AsyncRedisDocuments/Query/RedisQueryExtensions.cs:22-29 | Same counters as the search; total and page count are kept and each returned id, key or bare id, becomes the document `DocumentFactory.Create` makes of it, in order; fails only when there are ids and the type cannot be created |
| Pipeline.ToPagedListKeys | AsyncRedisDocuments/Query/RedisQueryExtensions.cs:22-29 | A returned key `indexName:id` gives the document with id `id`, the prefix stripped again |
| Search.CreateAllKeys | AsyncRedisDocuments/Factory/DocumentFactory.cs:13-24 | Among the ids made into documents, a document's full key gives back the document with that id, and making them fails exactly when the type cannot be created |
| Pipeline.ToList | AsyncRedisDocuments/Query/RedisQueryExtensions.cs:31-36 | The documents of the paged list, with the same counter effect |
| Pipeline.Any | AsyncRedisDocuments/Query/RedisQueryExtensions.cs:38-46 | An empty query is false without a search; otherwise a search of page 1 with size 1, true exactly when it returns an id |
| Pipeline.AnyOnBlank | AsyncRedisDocuments/Query/RedisQueryExtensions.cs:38-46 | A whitespace-only query is sent as `*`, the same as an empty one |
| Pipeline.AnyAgreesWithToList | AsyncRedisDocuments/Query/RedisQueryExtensions.cs:38-46 | For a creatable type and a non-empty query, the check is true exactly when the list of page 1 with size 1 is non-empty, with the same counters |
| Pipeline.FieldsOf | AsyncRedisDocuments/Query/RedisQueryExtensions.cs:60-61 | Succeeds exactly when every selector does, else fails with the first failing selector's error; the fields are the selectors' fields in order |
| Pipeline.Dedup | AsyncRedisDocuments/Query/RedisQueryExtensions.cs:62 | No repeats, the same names as the input, and never longer |
| Pipeline.DedupDistinct | AsyncRedisDocuments/Query/RedisQueryExtensions.cs:62 | A list with no repeats is unchanged |
| Pipeline.DedupIdempotent | AsyncRedisDocuments/Query/RedisQueryExtensions.cs:62 | Deduplicating twice is the same as once |
| Pipeline.DedupPrefix | AsyncRedisDocuments/Query/RedisQueryExtensions.cs:62 | Deduplicating a list gives a prefix of deduplicating any extension of it, so first occurrences keep their order |
| Pipeline.SelectedFields | AsyncRedisDocuments/Query/RedisQueryExtensions.cs:60-63 | Succeeds exactly when the selectors do, giving their fields without repeats |
| Pipeline.PagedSelect | AsyncRedisDocuments/Query/RedisQueryExtensions.cs:70-82 | Succeeds exactly when every selector resolves, and then is the selection for the distinct fields |
| Pipeline.SelectFirstPage | AsyncRedisDocuments/Query/RedisQueryExtensions.cs:54-68 | The results of the paged selection of page 1 with size 1000 |
| Pipeline.SelectRequestShape | AsyncRedisDocuments/Query/RedisQueryExtensions.cs:54-68 | The unpaged selection sends `LIMIT 0 1000`, then `RETURN` with the number of distinct fields |
| QueryExecutor.KeptIffOneColon | AsyncRedisDocuments/Index/QueryExecutor.cs:49 | The filter keeps a key exactly when it has one colon |
| QueryExecutor.KeptKeys | AsyncRedisDocuments/Index/QueryExecutor.cs:45-53 | Every kept key is a key of the batch with one colon, and every such key is kept |
| QueryExecutor.Scan | AsyncRedisDocuments/Index/QueryExecutor.cs:35-55 | The loop ends exactly when a reply fails or returns cursor 0, and aborts exactly on a failure; listed keys have one colon |
| QueryExecutor.ScanListsAllKept | AsyncRedisDocuments/Index/QueryExecutor.cs:35-55 | A completed scan lists the one-colon keys of every batch it read, batch after batch in scan order |
| QueryExecutor.KeepOneColon | AsyncRedisDocuments/Index/QueryExecutor.cs:45-53 | The inner loop collects exactly the batch's kept keys |
| QueryExecutor.GetAll | AsyncRedisDocuments/Index/QueryExecutor.cs:25-58 | Scans with the pattern `indexName:*`, and the loop's outcome is that of the whole scan |
| QueryExecutor.ListedKeyShape | AsyncRedisDocuments/Index/QueryExecutor.cs:30-49 | Every listed key under the pattern is `indexName:id` with a colon-free id, so an index name with a colon lists none of its keys |
| QueryExecutor.ListedDocumentIds | AsyncRedisDocuments/Index/QueryExecutor.cs:45-52 | Each listed key becomes the document whose id is the text after the colon |
| Analysis.Resolve | AsyncRedisDocuments/DocumentAnalyzer.cs:58-72 | Never Auto; a declared kind other than Auto is kept; Auto resolves from the first generic argument of a generic property type, agreeing with the visitor, and from the property type itself otherwise |
| Analysis.Traverse | AsyncRedisDocuments/DocumentAnalyzer.cs:49-85 | At most one entry per member, none of kind Auto |
| Analysis.TraverseConcat | AsyncRedisDocuments/DocumentAnalyzer.cs:55-84 | Traversing joined member lists joins the entries |
| Analysis.TraverseMembers | AsyncRedisDocuments/DocumentAnalyzer.cs:55-84 | Every indexed instance property has its entry, and every entry comes from one; static properties are skipped |
| Analysis.Analyze | AsyncRedisDocuments/DocumentAnalyzer.cs:27-47 | A cached name returns the cached result and leaves the cache; otherwise the traversal is stored under the name; other entries are kept |
| Analysis.AnalyzeIdempotent | AsyncRedisDocuments/DocumentAnalyzer.cs:29-32 | A second analysis gives the same result and the same cache |
| Analysis.AnalyzeSharesByName | AsyncRedisDocuments/DocumentAnalyzer.cs:29-44 | A second type with the same name gets the first type's result from the cache |
| IndexDefinitions.IsSubclassOfRawGeneric | AsyncRedisDocuments/Index/IndexDefinitionBuilder.cs:130-142 | True exactly when some type on the base-type chain has the given generic definition |
| IndexDefinitions.Find | AsyncRedisDocuments/Index/IndexDefinitionBuilder.cs:116 | The position of the first pair with the name, or none exactly when no pair has it |
| IndexDefinitions.Put | AsyncRedisDocuments/Index/IndexDefinitionBuilder.cs:116 | Names stay distinct and the name maps to the data; an existing name is updated in place and a new one appended; other pairs are unchanged |
| IndexDefinitions.GetProperties | AsyncRedisDocuments/Index/IndexDefinitionBuilder.cs:92-127 | Fails exactly when some qualifying property cannot be read, with the first such property's exception: an argument error without a getter, a parameter-count error for an indexer; the result has distinct names |
| IndexDefinitions.GetPropertiesStep | AsyncRedisDocuments/Index/IndexDefinitionBuilder.cs:100-124 | Each included property puts its data under its name on top of the result for the earlier properties |
| IndexDefinitions.GetPropertiesCollects | AsyncRedisDocuments/Index/IndexDefinitionBuilder.cs:100-124 | Every included property's name is in the result |
| IndexDefinitions.GetPropertiesOnlyIncluded | AsyncRedisDocuments/Index/IndexDefinitionBuilder.cs:100-124 | Every name in the result belongs to an included property |
| IndexDefinitions.LastWriteWins | AsyncRedisDocuments/Index/IndexDefinitionBuilder.cs:116-120 | The last included property's data is what its name maps to |
| IndexDefinitions.Field | AsyncRedisDocuments/Index/IndexDefinitionBuilder.cs:29-42 | Auto gives no schema field; every other kind gives a field with the property's name |
| IndexDefinitions.Fingerprint | AsyncRedisDocuments/Index/IndexDefinitionBuilder.cs:45-54 | The fingerprint is empty exactly when there are no properties |
| IndexDefinitions.GetIndexNameFromType | AsyncRedisDocuments/Index/IndexDefinitionBuilder.cs:64-76 | A non-document type is an invalid-operation error and one without a usable constructor a missing-constructor error; otherwise the type's index name |
| IndexDefinitions.Build | AsyncRedisDocuments/Index/IndexDefinitionBuilder.cs:13-62 | Succeeds exactly when the type can be activated and its properties read; no properties gives no index; otherwise the definition has the `name:` prefix, one field per property in order, and the non-empty fingerprint |
| IndexDefinitions.AutoStillCounts | AsyncRedisDocuments/Index/IndexDefinitionBuilder.cs:29-45 | A single Auto property gives a definition with no real field but a fingerprint naming it |
| IndexDefinitions.DetailInjective | AsyncRedisDocuments/Index/IndexDefinitionBuilder.cs:45 | Property lines free of separators can be read back uniquely from the start of a fingerprint |
| IndexDefinitions.FingerprintInjective | AsyncRedisDocuments/Index/IndexDefinitionBuilder.cs:45-54 | Property lists free of separators with equal fingerprints are equal |
| Lifecycle.RecordKey | AsyncRedisDocuments/Index/Data/IndexDocument.cs:25-28 | The record of an index is the key `index:` followed by the name |
| Lifecycle.RecordKeysDistinct | AsyncRedisDocuments/Index/Data/IndexDocument.cs:25-28 | Different indexes have different record keys |
| Lifecycle.EnsureIdempotent | AsyncRedisDocuments/Index/Data/IndexDocument.cs:16-23 | After one reconciliation of a type with indexed properties, a second one makes no change |
| Lifecycle.CreateNew | AsyncRedisDocuments/Index/IndexManager.cs:74-88 | Creates the index and stores its hash only for a built definition with a non-empty hash, always stamps the record, and touches only that index |
| Lifecycle.Update | AsyncRedisDocuments/Index/IndexManager.cs:90-102 | Drops the index first, then does what index creation does on the store without the old index, touching only that index |
| Lifecycle.Ensure | AsyncRedisDocuments/Index/IndexManager.cs:40-52 | Fails exactly when the definition cannot be built, with the builder's error |
| Lifecycle.EnsureEffects | AsyncRedisDocuments/Index/IndexManager.cs:40-52 | Makes no change exactly when the stored hash already matches; otherwise stores the new index and hash, or for no indexed properties drops the index and leaves the hashes; touches only that index |
| Lifecycle.SentinelKeepsDropping | AsyncRedisDocuments/Index/IndexManager.cs:79-85 | For a type with no indexed properties, every run drops and stamps the index again and keeps the stored hash |
| Lifecycle.ManagerInit | AsyncRedisDocuments/Index/IndexManager.cs:21-35 | With no selected type nothing happens, and every effect concerns a selected type |
| Lifecycle.ManagerInitStopsAtFailure | AsyncRedisDocuments/Index/IndexManager.cs:21-35 | Once a type fails, the types after it are never reconciled: a failing run is unchanged by appending more types |
| Lifecycle.Filter | AsyncRedisDocuments/Index/Generation/IndexBuilder.cs:50-53 | Keeps exactly the discoverable types |
| Lifecycle.DedupByFullName | AsyncRedisDocuments/Index/Generation/IndexBuilder.cs:50-55 | No two kept types share a full name, and every kept type is an input type |
| Lifecycle.DedupByFullNameFirst | AsyncRedisDocuments/Index/Generation/IndexBuilder.cs:50-55 | Every full name is kept, and the type kept for it is the first input type with that name |
| Lifecycle.BuilderFrom | AsyncRedisDocuments/Index/Generation/IndexBuilder.cs:21-34 | A pass over types that are all recorded already changes nothing |
| Lifecycle.BuilderEnsuresNew | AsyncRedisDocuments/Index/Generation/IndexBuilder.cs:21-34 | A type not yet recorded is ensured whether or not it has indexed properties: its `Ensure` effects come first and the pass continues from the store it leaves, or the pass ends with its error |
| Lifecycle.BuilderCovers | AsyncRedisDocuments/Index/Generation/IndexBuilder.cs:21-34 | After a pass with no failure, every given type is recorded |
| Lifecycle.BuilderGrows | AsyncRedisDocuments/Index/Generation/IndexBuilder.cs:25-27 | A pass only appends to the record, each new entry a given type not recorded before |
| Lifecycle.BuilderRecordsFirst | AsyncRedisDocuments/Index/Generation/IndexBuilder.cs:21-34 | A type not yet recorded is recorded next, whether or not it has indexed properties |
| Lifecycle.BuilderAtMostOnce | AsyncRedisDocuments/Index/Generation/IndexBuilder.cs:19-34 | After a pass with no failure, a second pass over the same types does nothing |

## Left out

- **The Redis client, async and the network.** The server is a parameter: a reply function, a sequence of `SCAN` replies, or a `Store`. `Task`, `await` and `.Wait()` are left out. The exception wrapping that `.Wait()` adds is not modelled; the inner error is kept.
- **Reflection.** Types, members, attributes and constructors are given as descriptor datatypes, not read from assemblies.
- **`Expression.ToString()` and the regex engines.** They are oracle parameters: `show`, the condition matches `cut`, and the `\w`/`\s` classes. The leftmost-longest matching of .NET regexes is not enforced.
- **Value types.** `DateTime`, `double`, `decimal`, `Guid` and JSON-serialised classes in `RedisExtensions` are left out: their text formats depend on culture and serialiser settings. Enums, `bool`, `int`, `long` and `string` are modelled.
- **Concurrency.** The unsynchronised static caches of `DocumentAnalyzer` and `IndexBuilder` are left out; the model runs one call at a time.
- **Console logging** in the catch blocks is left out.
- **`AsyncDocumentFactory`** is not part of this model. `QueryExecutor.GetAll` lists the kept keys, and `QueryExecutor.ListedDocumentIds` relates them to `DocumentFactory.Create`.
- **`IndexDefinitionBuilder.Build(document)`.** `IndexBuilder` calls this overload, which is not part of this model. It is modelled as `Build` of the document's type.
- **`CreateIndexAsync` failures.** Index creation is assumed to succeed.
- **Counter round trips per call.** `Search.Counters.reachable` says whether the counter's Get and Set succeed, and it holds for a whole run; a store whose update fails for one search and succeeds for the next is not modelled.
- **`ComputeBase64`.** It is never called, so it is left out.
- **`RedisQueryExtensions.SearchAsync`** (`Query/RedisQueryExtensions.cs:48-52`) is an unused internal helper that returns the ids of `Search.Execute`.
- **`QueryExtensions.SearchAsync(query, indexName)`** (`Index/QueryExtensions.cs:24-27`) is `Search.SearchIds` with its arguments in the other order.
- **`QueryExecutor.Query`** factories (`Index/QueryExecutor.cs:15-23`) return `IndexQuery.Create`'s empty query.
- **`GlobalSettings`** (`Query/RedisQueryExtensions.cs:85-89`) is a settings holder with no behaviour.
- **The RediSearch client's request objects** (`SearchResult`, `Schema` and their `ToString`) are left out. Requests are modelled as argument lists, and definitions as `Definition`.
- Expressions.GetValue: the contract states only the not-implemented case; what a successful read gives is stated by `Expressions.GetValuePath`.
- Search.Extract: the contract bounds the ids and rules out colons; which ids come out is stated by `Search.ExtractKey` and `Search.ExtractConcat`.
- Analysis.Traverse: the contract bounds the entries; which entries come out is stated by `Analysis.TraverseMembers` and `Analysis.TraverseConcat`.
- IndexDefinitions.Fingerprint: the contract states only when it is empty; that it identifies the property list is `IndexDefinitions.FingerprintInjective`.
- Documents.Delete: a property getter that throws for a reason of its own is not modelled; exceptions come only from reading an indexer and from the listener's and the components' calls, which `throws` gives.
- Documents.Cleanup: the contract says where each deletion comes from, not that every non-empty batch read is deleted; that is `Documents.CleanupDeletesEveryBatch`.
- Lifecycle.ManagerInit: the contract states the no-op and which types are touched; stopping at the first failure is `Lifecycle.ManagerInitStopsAtFailure`.
- Search.Pages: a page size of 0 gives `None`, not the value of .NET's cast of an infinite or NaN quotient, which depends on the platform.
- Pipeline.Refine: it returns a new query, whereas `query.Query(expression)` appends to the receiver and returns it, so a caller holding the earlier reference sees the change in .NET; the same holds for `IndexQuery.TextClause`, `IndexQuery.TextExact`, `IndexQuery.TagClause`, `IndexQuery.NumericClause`, `IndexQuery.Or` and `IndexQuery.Not`, which add to or rewrite the receiver's clause list in place. Aliasing between query objects is not modelled.
- RedisValues.ParseBits: only an optional `+` or `-` followed by ASCII digits is read. `int.Parse` and `long.Parse` also accept leading and trailing white space, and honour the current culture's signs and digits; those texts are format errors here.
- RedisValues.EnumParse: only an exact member name or an integer text in the sense of `ParseBits` is read. `Enum.Parse` also trims white space and accepts a comma-separated list of names combined as flags.
- RedisValues.ConvertFrom: its number and enum cases inherit the two restrictions above, and formatting ignores the current culture.
- Visitor.Clean: texts are sequences of Unicode scalar values, not UTF-16 code units. A character outside the Basic Multilingual Plane becomes one `*` here but two in .NET, one per surrogate, so lengths agree only for texts without such characters; the same holds for every other length stated about texts.
- **The order of `IndexType`.** Its declaration is not part of this model; the marker removal of the builder-side converter assumes `Enum.GetValues` lists `Auto, Tag, Text, Numeric` (`BuilderConverter.KindOrder`).
- **Other expression nodes.** `Conditional`, `Invocation`, `MemberInit` and the other node kinds the default `ExpressionVisitor` walks are not part of `Expr`; only the nodes the visitors override, lambdas, parameters and `new` are modelled.
- Pipeline.QueryOf: the caller's condition matches are required to be consistent with the compiled text; the regex search that finds them is not modelled.

## Findings

| source | as written | input that shows it | evidently intended | confidence | as-written member | corrected member |
|---|---|---|---|---|---|---|
| AsyncRedisDocuments/Index/QueryExtensions.cs:14-22 | `DocumentFactory.Create<TDocument>(null)` sets the id from a null string and throws `NullReferenceException`, so the typed `SearchAsync<TDocument>` always fails | any document type with a public constructor | read the index name from an empty instance (`CreateEmpty`), as `IndexDefinitionBuilder` does | not executed | Search.TypedSearch | Search.TypedSearchFixed |
| AsyncRedisDocuments/Index/QueryExtensions.cs:29-32 | `ContainsAsync<TDocument>` awaits the typed `SearchAsync<TDocument>`, which always throws, so it never answers | any document type with a public constructor | true exactly when the type's index has a match, over the corrected search | not executed | Search.TypedContains | Search.TypedContainsFixed |
