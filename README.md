# Azure Table Storage query translation and change batching, in Dafny

This project models the core of a LINQ provider for Azure Table Storage:

- **Query-to-filter compiler.** This is the visitor that renders a predicate tree as the service's infix filter text. It appends to one text buffer and cuts from it. A clean-up pass then removes parentheses with a stack over a character array.
- **Operator translators.** `Where`, `Select`, `Take`, `First`, `FirstOrDefault`, `Single` and `SingleOrDefault` each check the call they receive. Each writes into one shared translation result.
- **Query translator.** It builds a registry of those translators, keyed by name. It walks a chain of operator calls outermost first and dispatches each call by method name.
- **Segmented fetch.** A do-while loop fetches pages until one of three things happens: the continuation cursor runs out, cancellation is requested, or the row cap is reached.
- **Change ledger of an entity set.** The last write wins. A flush splits the entries into batches by an index-modulo rule, skips empty batches and clears the ledger.
- **Entity base, naming attributes and context.** The entity base pluralises the partition key and hashes on its keys. The two attributes validate their names. The context keeps a get-or-create registry of sets and saves them one by one.

The modules follow the source files:

| module | file |
|---|---|
| `Wrappers` | `wrappers.dfy` (`Option`, `Result`, `Outcome`) |
| `Expressions` | `expressions.dfy` (expression trees, exceptions, uninterpreted runtime helpers) |
| `TranslationResult` | `translation_result.dfy` (the shared result as a log of calls) |
| `ExpressionTranslator` | `expression_translator.dfy` |
| `MethodTranslators` | `method_translators.dfy` |
| `QueryTranslator` | `query_translator.dfy` |
| `CloudTableExtensions` | `cloud_table_extensions.dfy` |
| `AzureSet` | `azure_set.dfy` |
| `TableEntity` | `table_entity.dfy` |
| `Attributes` | `attributes.dfy` |
| `AzureContext` | `azure_context.dfy` |

Code that changes state in place is modelled imperatively. Each imperative method is proved against a specification function, and the properties are proved about those functions:

- The visitor is a class with a `filter` field. `Render`, `RenderBinary`, `RenderContains` and the related functions specify it.
- `TrimString` fills an `array<char>` in a loop. `Trimmed` specifies it.
- The translators write into a `TranslationLog`. `*Effect` specifies them.
- The fetch loop is specified by `FetchCount` and `ItemsAfter`.
- The ledger is a class field. `Record`, `RecordAll` and `FlushPlan` specify it.

Exceptions become `Result`/`Outcome` values named after the .NET exception type thrown.

Several behaviours of the code are reproduced exactly as written, not idealised:

- The first batch of a flush holds one entry. The batches are `[0]`, `[1..100]`, `[101..200]`, … (`TwoHundredFifty`).
- The "middle parenthesis" rule of the clean-up pass reads the next cell before it has been copied, so it never fires (`MiddleRuleNeverFires`). A final `)` whose partner follows a `(` makes that read go past the end (`NestedCloseAtEndThrows`).
- Every `$` is dropped from the filter, including any `$` inside a literal (`TrimmedHasNoMarker`).
- A `CompareTo`/`Compare` call on the left of a binary node returns early. This drops the right operand and leaves the opened parenthesis unclosed (`CompareToLeavesParenthesisOpen`).
- The remaining-row budget is computed but never sent: every request carries the original query (`ExecuteQuery`). The rows are never cut to the cap (`OvershootKept`).
- `First(Where(...))` translates the `Where` predicate twice, once through the base translator and once through the chain walk (`WhereThenFirstFiltersTwice`).

Four further facts about the code, which the model follows:

- **Batches.** Batches do not hold 100 entries each: a batch closes after every index divisible by 100. Entries are never grouped by partition key before batching.
- **`Take`.** `Take` does not cap the result exactly. The fetch loop stops once the cap is reached, but it keeps the whole last page.
- **Parentheses.** Whether a binary node is parenthesised does not depend on whether an operand is itself binary. The code decides it with the `IsSupported` test on the operator and on the two operand kinds. That test is uninterpreted here.
- **Caps.** The translators record every `AddTop` call, so one query may record several caps (`WhereThenFirstFiltersTwice` shows repeated calls). How the result combines caps and filters is not part of this model.

## Model

| member | source | states |
|---|---|---|
| `ExpressionTranslator.ExpressionTranslator.Translate` | src/Queryable/Methods/Expressions/ExpressionTranslator.cs:29-50 | Appends exactly the calls of `FilterCalls` to the result and reports its exception. At most one `AddFilter`, with the cleaned-up rendering of the quote-stripped lambda body. |
| `ExpressionTranslator.FilterCallsShape` | src/Queryable/Methods/Expressions/ExpressionTranslator.cs:29-50 | No filter when the call does not have 2 arguments or the lambda body is a constant. `InvalidCastException` when the second argument is not a lambda. Otherwise, if rendering and clean-up succeed, exactly one filter, and it holds no `$`. |
| `ExpressionTranslator.ExpressionTranslator.AddPostProcessing` | src/Queryable/Methods/Expressions/ExpressionTranslator.cs:52-66 | Records one replay marker naming the operator. A call without arguments throws `ArgumentOutOfRangeException` before anything is recorded. |
| `ExpressionTranslator.TrimString` | src/Queryable/Methods/Expressions/ExpressionTranslator.cs:68-93 | The array-and-stack clean-up returns exactly `Trimmed(input)`: the text without its outer pair (if any), without `$`, trimmed; or the exception of the scan. |
| `ExpressionTranslator.MarkParentheses` | src/Queryable/Methods/Expressions/ExpressionTranslator.cs:70-89 | The scan loop fails exactly when the stack scan `StackAfter` fails. On success the array holds the input with only the outer pair overwritten by `$`. |
| `ExpressionTranslator.CloseParenthesis` | src/Queryable/Methods/Expressions/ExpressionTranslator.cs:80-87 | Pops the partner, or throws `InvalidOperationException` on an empty stack. Marks a pair only when it spans the whole text. The middle test reads an unfilled cell, or one past the end. |
| `ExpressionTranslator.DropMarkers` | src/Queryable/Methods/Expressions/ExpressionTranslator.cs:90 | Keeps every character but `$`, in order. |
| `ExpressionTranslator.TrimmedHasNoMarker` | src/Queryable/Methods/Expressions/ExpressionTranslator.cs:72-92 | A successful clean-up never contains `$`. |
| `ExpressionTranslator.CleanTextUnchanged` | src/Queryable/Methods/Expressions/ExpressionTranslator.cs:75-92 | Text the stack scan accepts, with no outer pair, no `$` and no white space at either end, comes back unchanged. |
| `ExpressionTranslator.OuterPairRemoved` | src/Queryable/Methods/Expressions/ExpressionTranslator.cs:81-87 | When the first `(` matches the last `)`, exactly that pair is removed and nothing else is. |
| `ExpressionTranslator.SeparateGroupsKept` | src/Queryable/Methods/Expressions/ExpressionTranslator.cs:81-87 | `(a) or (b)` is kept whole: the outer characters are parentheses that do not match each other. |
| `ExpressionTranslator.MiddleRuleNeverFires` | src/Queryable/Methods/Expressions/ExpressionTranslator.cs:77-84 | `((a))` becomes `(a)`: the inner pair directly inside another pair is not removed. |
| `ExpressionTranslator.NestedCloseAtEndThrows` | src/Queryable/Methods/Expressions/ExpressionTranslator.cs:83 | `((a)` throws `IndexOutOfRangeException`: the lookahead reads past the end. |
| `ExpressionTranslator.UnmatchedCloseThrows` | src/Queryable/Methods/Expressions/ExpressionTranslator.cs:80-82 | `a)` throws `InvalidOperationException` from `Stack.Pop`. |
| `ExpressionTranslator.UnmatchedCloseAlwaysThrows` | src/Queryable/Methods/Expressions/ExpressionTranslator.cs:80-82 | A `)` reached with an empty stack makes the whole pass throw, whatever follows. |
| `ExpressionTranslator.StackErrorPersists` | src/Queryable/Methods/Expressions/ExpressionTranslator.cs:75-89 | Once the scan has thrown, no later character changes the outcome. |
| `ExpressionTranslator.StripQuotes` | src/Queryable/Methods/Expressions/ExpressionTranslator.cs:95-103 | The loop returns the expression under every enclosing quote node. |
| `ExpressionTranslator.UnquotedIsNotQuoted` | src/Queryable/Methods/Expressions/ExpressionTranslator.cs:95-103 | The stripped expression is not a quote, and stripping it again changes nothing. |
| `ExpressionTranslator.ExpressionTranslator.VisitUnary` | src/Queryable/Methods/Expressions/ExpressionTranslator.cs:105-112 | Appends ` op ` and then the operand's rendering, as `Render` specifies. |
| `ExpressionTranslator.ExpressionTranslator.VisitBinary` | src/Queryable/Methods/Expressions/ExpressionTranslator.cs:114-165 | The buffer and the outcome agree with `RenderBinary`: the optional `(`, the left part or a comparison call, ` op `, the right part, then the optional `)`. |
| `ExpressionTranslator.ComparisonRendering` | src/Queryable/Methods/Expressions/ExpressionTranslator.cs:114-165 | A column compared with a constant renders `column op value`. It is in parentheses exactly when `IsSupported(op)` holds and `IsSupported` holds for the left or the right kind. |
| `ExpressionTranslator.ComparisonCallsComplete` | src/Queryable/Methods/Expressions/ExpressionTranslator.cs:307-338 | A call operand renders the whole node exactly when it is `CompareTo`, `Compare` or `CompareOrdinal`. |
| `ExpressionTranslator.CompareToLeavesParenthesisOpen` | src/Queryable/Methods/Expressions/ExpressionTranslator.cs:120-133 | A left `CompareTo` renders the optional `(` then `column op value`, and the node ends there, without `)`. |
| `ExpressionTranslator.LeftComparisonIgnoresRight` | src/Queryable/Methods/Expressions/ExpressionTranslator.cs:127-133 | With a comparison call on the left, the rendering does not depend on the right operand. |
| `ExpressionTranslator.RightComparisonThrows` | src/Queryable/Methods/Expressions/ExpressionTranslator.cs:139-149 | A comparison call on the right always fails. Once both sides have rendered, it fails with `ArgumentException`. |
| `ExpressionTranslator.CompareNeedsTwoArguments` | src/Queryable/Methods/Expressions/ExpressionTranslator.cs:317-330 | `Compare`/`CompareOrdinal` with fewer than 2 arguments throws `ArgumentException`. |
| `ExpressionTranslator.ExpressionTranslator.AppendBinaryPart` | src/Queryable/Methods/Expressions/ExpressionTranslator.cs:167-214 | Agrees with `RenderBinaryPart` for each case: invocation, constants, conversions, a member of the parameter or a closed-over member, a supported node, and otherwise `ArgumentException`. |
| `ExpressionTranslator.ExpressionTranslator.AppendBinaryCall` | src/Queryable/Methods/Expressions/ExpressionTranslator.cs:307-338 | Agrees with `RenderBinaryCall`, including whether the call completed the node. |
| `ExpressionTranslator.ExpressionTranslator.VisitMethodCall` | src/Queryable/Methods/Expressions/ExpressionTranslator.cs:216-299 | Agrees with `RenderMethodCall` for `Contains`, `ToString` and the evaluated default. |
| `ExpressionTranslator.ExpressionTranslator.AppendMembership` | src/Queryable/Methods/Expressions/ExpressionTranslator.cs:232-268 | Agrees with `RenderContains`: a trailing ` not ` is cut and turns `eq` into `ne`. |
| `ExpressionTranslator.ExpressionTranslator.AppendDisjunction` | src/Queryable/Methods/Expressions/ExpressionTranslator.cs:248-268 | The loop appends `(` + the comparisons joined by ` or ` + `)`, or nothing for an empty collection. A non-member parameter throws `NotSupportedException`. |
| `ExpressionTranslator.MembershipOfTwo` | src/Queryable/Methods/Expressions/ExpressionTranslator.cs:220-268 | Two elements render `(col eq a or col eq b)`. |
| `ExpressionTranslator.NegationAbsorbed` | src/Queryable/Methods/Expressions/ExpressionTranslator.cs:237-246 | After ` not `, the token is removed and every comparison uses ` ne `. The joiner stays ` or `. |
| `ExpressionTranslator.EmptyMembership` | src/Queryable/Methods/Expressions/ExpressionTranslator.cs:260-268 | An empty collection emits nothing, and it still removes a preceding ` not `. |
| `ExpressionTranslator.ContainsRejects` | src/Queryable/Methods/Expressions/ExpressionTranslator.cs:220-230 | `Contains` with an argument count other than 1, or over a non-enumerable object, throws `ArgumentException`. |
| `ExpressionTranslator.ExpressionTranslator.VisitMember` | src/Queryable/Methods/Expressions/ExpressionTranslator.cs:340-344 | A member node renders as its parameter name. |
| `ExpressionTranslator.ExpressionTranslator.AppendParameter` | src/Queryable/Methods/Expressions/ExpressionTranslator.cs:346-364 | Agrees with `RenderParameter`: it appends the mapped name, or throws for a non-member node. |
| `ExpressionTranslator.ParameterNaming` | src/Queryable/Methods/Expressions/ExpressionTranslator.cs:346-364 | A non-member node throws `NotSupportedException`. A member appends its entry in the name map, or its own name when it has no entry. |
| `ExpressionTranslator.ExpressionTranslator.AppendConstant` | src/Queryable/Methods/Expressions/ExpressionTranslator.cs:366-383 | Appends the serialised constant, evaluating it first when needed. A result that is not a constant throws `InvalidDataException`. |
| `MethodTranslators.NameChecked` | src/Queryable/Methods/MethodTranslatorBase.cs:23-26 | Every translator rejects a call of another name with `ArgumentOutOfRangeException` and records nothing. |
| `MethodTranslators.TargetCall` | src/Queryable/Methods/MethodTranslatorBase.cs:30-35 | The translated call is the sole argument when that argument is a call, and the call itself otherwise. |
| `MethodTranslators.TranslateBase` | src/Queryable/Methods/MethodTranslatorBase.cs:21-39 | Checks the name, then records the target call's filter, then the replay marker, as `BaseEffect` specifies. |
| `MethodTranslators.CappedOrder` | src/Queryable/Methods/MethodTranslatorBase.cs:37-38 | A successful capped translation records at most one filter, then the marker, then the cap. The cap is recorded exactly once. |
| `MethodTranslators.CappedCalls` | src/Queryable/Methods/FirstTranslator.cs:12-16 | A successful `First`-like translation has the right name and records the filter calls, the marker and then `AddTop(cap)`. |
| `MethodTranslators.CappedRejectsWithoutCap` | src/Queryable/Methods/FirstTranslator.cs:14 | A name mismatch throws from the base, so no cap is recorded. |
| `MethodTranslators.CappedTranslatesTheInnerCall` | src/Queryable/Methods/MethodTranslatorBase.cs:32-38 | `First(Where(s, p))` translates the predicate of the inner `Where` call. |
| `MethodTranslators.TranslateCapped` | src/Queryable/Methods/SingleTranslator.cs:12-16 | The base runs first. If it does not throw, `AddTop(cap)` follows. |
| `MethodTranslators.CapsOfTheSubclasses` | src/Queryable/Methods/SingleOrDefaultTranslator.cs:8-16 | The names are `First`, `FirstOrDefault`, `Single` and `SingleOrDefault`, with caps 1, 1, 2 and 2. |
| `MethodTranslators.FiltersCarryNoCap` | src/Queryable/Methods/FirstOrDefaultTranslator.cs:14-15 | The filter step adds at most one call and never a cap. |
| `MethodTranslators.TranslateWhere` | src/Queryable/Methods/WhereTranslator.cs:20-29 | Checks the name, then delegates the whole call to a fresh expression translator, as `WhereEffect` specifies. |
| `MethodTranslators.WhereAddsOnlyAFilter` | src/Queryable/Methods/WhereTranslator.cs:20-29 | `Where` records at most one call, and that call is a filter. A `Where` that does not have 2 arguments records nothing. |
| `MethodTranslators.TranslateSelect` | src/Queryable/Methods/SelectTranslator.cs:28-69 | Agrees with `SelectEffect`: the name and arity check, the columns of the body, then one replay marker. |
| `MethodTranslators.SelectColumnsThenMarker` | src/Queryable/Methods/SelectTranslator.cs:40-68 | A successful projection records one mapped column per binding or constructor argument, in order, and then exactly one marker. |
| `MethodTranslators.ArgumentColumnsInOrder` | src/Queryable/Methods/SelectTranslator.cs:50-60 | Constructor arguments give their columns in order. Everything succeeds exactly when every argument is a member access. Otherwise the first non-member argument fails the cast. |
| `MethodTranslators.SelectRejectsOtherShapes` | src/Queryable/Methods/SelectTranslator.cs:61-64 | A body that is neither a member initialiser nor a constructor call throws `NotSupportedException` and records no column. |
| `MethodTranslators.AddBindingColumns` | src/Queryable/Methods/SelectTranslator.cs:44-48 | The loop records the mapped column of each binding, in binding order. |
| `MethodTranslators.AddArgumentColumns` | src/Queryable/Methods/SelectTranslator.cs:54-59 | The loop records the columns up to the first failed cast, as `ArgumentColumns` specifies. |
| `MethodTranslators.AddColumn` | src/Queryable/Methods/SelectTranslator.cs:71-79 | Records the entry for the member in the name map, or the member's own name when it has no entry. |
| `MethodTranslators.TranslateTake` | src/Queryable/Methods/TakeTranslator.cs:12-22 | Agrees with `TakeEffect`: the name and arity check, a constant second argument, then `AddTop` with its integer value. |
| `MethodTranslators.TakeRecordsTheCap` | src/Queryable/Methods/TakeTranslator.cs:19-21 | `Take(s, n)` records exactly `AddTop(n)` and nothing else. |
| `MethodTranslators.TakeNeedsAConstant` | src/Queryable/Methods/TakeTranslator.cs:19 | A second argument that is not a constant fails the cast. |
| `QueryTranslator.RegistryBuiltIffDistinct` | src/Queryable/QueryTranslator.cs:27 | `ToDictionary` succeeds exactly when the translators' names are distinct. Otherwise it throws `ArgumentException`. |
| `QueryTranslator.RegistryHoldsEach` | src/Queryable/QueryTranslator.cs:27 | A built registry has exactly the translators' names as keys, each mapped to its translator. |
| `QueryTranslator.RegisteredUnderOwnName` | src/Queryable/QueryTranslator.cs:27 | Every registered translator's `Name` is its key. |
| `QueryTranslator.DefaultRegistry` | src/Queryable/QueryTranslator.cs:69-81 | The default registry builds. Its keys are exactly the seven operators, each mapped to its translator. |
| `QueryTranslator.DefaultRegistryKeys` | src/Queryable/QueryTranslator.cs:69-81 | The default registry's keys are exactly Where, First, FirstOrDefault, Single, SingleOrDefault, Select and Take. |
| `QueryTranslator.Translate` | src/Queryable/QueryTranslator.cs:41-67 | The walk records exactly `ChainEffect`: the call's own dispatch first, then each call argument, recursively and in order. |
| `QueryTranslator.VisitMethodCall` | src/Queryable/QueryTranslator.cs:83-99 | A foreign declaring type or an unregistered name throws `NotSupportedException`. Otherwise the registered translator runs. |
| `QueryTranslator.NonCallUnchanged` | src/Queryable/QueryTranslator.cs:43-46 | A non-call expression leaves the result as it was. |
| `QueryTranslator.ForeignCallRefused` | src/Queryable/QueryTranslator.cs:85-88 | A call declared outside `System.Linq.Queryable` throws `NotSupportedException` before any translator runs. |
| `QueryTranslator.UnknownOperatorRefused` | src/Queryable/QueryTranslator.cs:91-95 | A method name with no registered translator throws `NotSupportedException`. |
| `QueryTranslator.OnlyCallArgumentsCount` | src/Queryable/QueryTranslator.cs:53-61 | Arguments that are not calls contribute nothing. |
| `QueryTranslator.WhereThenFirstFiltersTwice` | src/Queryable/QueryTranslator.cs:41-67 | `First(Where(s, p))` records the filter, the marker, `AddTop(1)` and then the same filter again. |
| `CloudTableExtensions.ExecuteQuery` | src/Extensions/CloudTableExtensions.cs:26-59 | The items are the first `FetchCount` pages, resolved and concatenated in fetch order. Every request carries the original query and the previous cursor. Budgets are computed and not sent. Each progress snapshot is the cumulative list. |
| `CloudTableExtensions.FetchCount` | src/Extensions/CloudTableExtensions.cs:45-56 | At least one page is fetched. Fetching stops at the first page after which the loop condition fails, and the condition held after every earlier page. |
| `CloudTableExtensions.FetchedOnlyBelowCap` | src/Extensions/CloudTableExtensions.cs:55-56 | Every page but the last one fetched left the item count below the cap. |
| `CloudTableExtensions.CancellationStopsAfterOnePage` | src/Extensions/CloudTableExtensions.cs:45-56 | Cancellation during the first fetch stops the loop after exactly one page. |
| `CloudTableExtensions.UncappedFetchesToTheEnd` | src/Extensions/CloudTableExtensions.cs:55-56 | Without cancellation or a cap, every page up to the first without a cursor is fetched. |
| `CloudTableExtensions.OvershootKept` | src/Extensions/CloudTableExtensions.cs:51-58 | One page of 3 rows under a cap of 2 returns all 3: the result is not truncated. |
| `CloudTableExtensions.ItemsAfterLength` | src/Extensions/CloudTableExtensions.cs:51 | The items only grow, and earlier items are never changed or reordered. |
| `CloudTableExtensions.Created` | src/Extensions/CloudTableExtensions.cs:70-76 | The new entity carries the row's PartitionKey, RowKey, Timestamp and ETag, and an empty bag. |
| `CloudTableExtensions.GenericEntityResolver` | src/Extensions/CloudTableExtensions.cs:66-81 | The default resolver is the entity type's `ReadEntity` applied to that new entity and the row's property bag. |
| `CloudTableExtensions.ResolverCopiesRow` | src/Extensions/CloudTableExtensions.cs:66-81 | When `ReadEntity` only replaces the bag, the resolved entity carries all four system fields and exactly the row's properties. |
| `AzureSet.AzureSet.Add` | src/AzureSet.cs:141-145 | Sets the entity's action to Insert, overwriting any earlier one, and returns the entity. A null entity throws `ArgumentNullException` from the dictionary indexer and changes nothing. The ledger stays well formed. |
| `AzureSet.AzureSet.Remove` | src/AzureSet.cs:172-176 | Sets the entity's action to Delete, overwriting any earlier one, and returns the entity. A null entity throws `ArgumentNullException` from the dictionary indexer and changes nothing. The ledger stays well formed. |
| `AzureSet.AzureSet.AddRange` | src/AzureSet.cs:152-163 | With a null range, nothing changes and the result is empty. Otherwise it is `Add` on each element in turn, up to the first null element. With no null element, it returns all the elements in input order. With a null element, it throws `ArgumentNullException`, and the elements before the null stay recorded. |
| `AzureSet.BeforeNull` | src/AzureSet.cs:157-160 | The elements before the first null, unwrapped and in order. The element right after them, if any, is null. |
| `AzureSet.BeforeNullUnique` | src/AzureSet.cs:157-160 | Any prefix of unwrapped elements that ends at the end of the range or at a null is exactly `BeforeNull`. |
| `AzureSet.BeforeNullIsAllIffNoNull` | src/AzureSet.cs:157-160 | The whole range is recorded exactly when it holds no null element. |
| `AzureSet.AzureSet.RemoveRange` | src/AzureSet.cs:183-194 | With a null range, nothing changes and the result is empty. Otherwise it is `Remove` on each element in turn, up to the first null element. With no null element, it returns all the elements in input order. With a null element, it throws `ArgumentNullException`, and the elements before the null stay recorded. |
| `AzureSet.RecordSetsAction` | src/AzureSet.cs:141-145 | Recording sets this entity's action and leaves every other entry and its position alone. The ledger stays well formed. |
| `AzureSet.RecordAllSetsAction` | src/AzureSet.cs:152-163 | After a range, every element has the action and other entries are unchanged. No key outside the range is added. |
| `AzureSet.RecordAllKeepsOrder` | src/AzureSet.cs:183-194 | Recording a range keeps the ledger well formed and keeps the old keys in their places. |
| `AzureSet.RemoveAfterAdd` | src/AzureSet.cs:141-176 | Insert then Delete of the same entity leaves one entry, pending Delete. |
| `AzureSet.OrderIsDistinct` | src/AzureSet.cs:21 | Each entity appears once in the ledger's enumeration order. |
| `AzureSet.OperationOf` | src/AzureSet.cs:196-220 | An entry gives at most one operation, and none exactly when its action is None. |
| `AzureSet.OperationForAction` | src/AzureSet.cs:196-220 | Delete becomes a delete operation. Insert and Update become insert-or-replace. |
| `AzureSet.AzureSet.ExecuteBatchOperations` | src/AzureSet.cs:92-111 | Submits `FlushPlan` of the ledger's entries, then replaces the ledger with an empty one, whatever the submissions' outcome. |
| `AzureSet.SubmitBatches` | src/AzureSet.cs:98-108 | The loop, which closes a batch after each index divisible by 100 and once more at the end, submits exactly `FlushPlan(entries)`. |
| `AzureSet.BatchSizes` | src/AzureSet.cs:98-106 | The first batch holds at most one entry, and no batch holds more than 100. |
| `AzureSet.BatchesPartition` | src/AzureSet.cs:98-108 | The batches concatenate to the entries, each entry once and in order. |
| `AzureSet.TwoHundredFifty` | src/AzureSet.cs:98-108 | 250 entries make batches of 1, 100, 100 and 49. |
| `AzureSet.FlushSendsEveryOperation` | src/AzureSet.cs:98-108 | The submitted batches concatenate to every operation of the ledger, in enumeration order. |
| `AzureSet.SubmissionsFitTheService` | src/AzureSet.cs:222-227 | Every submitted batch holds between 1 and 100 operations. |
| `AzureSet.EmptyLedgerSubmitsNothing` | src/AzureSet.cs:108 | Flushing an empty ledger submits nothing. |
| `TableEntity.Pluralize` | src/TableEntity.cs:116-126 | An empty type name throws. Otherwise the result ends in `s`/`S`. |
| `TableEntity.PluralForms` | src/TableEntity.cs:116-126 | A trailing `y`/`Y` becomes `ies`. A trailing `s`/`S` keeps the name. Any other ending gets `s` appended. |
| `TableEntity.PluralizeIdempotent` | src/TableEntity.cs:116-126 | Applying the rule to its own output returns that output unchanged. |
| `TableEntity.PluralOfUser` | src/TableEntity.cs:116-126 | User becomes Users. |
| `TableEntity.PluralOfCategory` | src/TableEntity.cs:116-126 | Category becomes Categories. |
| `TableEntity.PluralOfAddress` | src/TableEntity.cs:116-126 | Address stays Address. |
| `TableEntity.GeneratePartitionKey` | src/TableEntity.cs:108-127 | With a table attribute, the key is its name unchanged. Otherwise it is the pluralised type name. |
| `TableEntity.TableEntity.Initialize` | src/TableEntity.cs:17-23 | Only a null or empty partition key is replaced by the generated one. The row key is untouched. |
| `TableEntity.KeyString` | src/TableEntity.cs:34 | The string `"{PartitionKey}_{RowKey}"`: the partition key, one `_`, then the row key, with a null key rendering as empty. |
| `TableEntity.TableEntity.GetHashCode` | src/TableEntity.cs:32-35 | The runtime's string hash of `KeyString` of the entity's two keys. |
| `TableEntity.EqualKeysHashEqual` | src/TableEntity.cs:32-35 | Entities with equal keys hash equal, whatever else differs. |
| `TableEntity.KeyStringCollides` | src/TableEntity.cs:34 | The hashed string does not separate the keys: `a_`/`b` and `a`/`_b` give the same string. |
| `Attributes.TableAttributeBuiltIffValid` | src/Attributes/TableAttribute.cs:16-24 | The attribute is built exactly when the name is non-empty and free of white space, and it then holds that name. |
| `Attributes.NewTableAttribute` | src/Attributes/TableAttribute.cs:16-29 | A null or empty name, or one with white space, throws `ArgumentException`. A built attribute holds the given name exactly, and that name is valid. |
| `Attributes.ForeignRowKeyAttributeBuiltIffValid` | src/Attributes/ForeignRowKeyAttribute.cs:16-24 | The attribute is built exactly when the name is non-empty and free of white space, and it then holds that name. |
| `Attributes.NewForeignRowKeyAttribute` | src/Attributes/ForeignRowKeyAttribute.cs:16-29 | A null or empty name, or one with white space, throws `ArgumentException`. A built attribute holds the given name exactly, and that name is valid. |
| `Attributes.BlankRefused` | src/Attributes/TableAttribute.cs:18-21 | A name containing a blank is refused by both constructors. |
| `AzureContext.AzureContext.Set` | src/AzureContext.cs:55-66 | A registered type returns its set and nothing changes. Otherwise a fresh empty set is created and registered last and returned, and creation is requested for the table named by the partition key a new entity of the type gets (`GeneratePartitionKey`). When that key cannot be generated, the set's construction throws and nothing is registered. The context's invariant covers every registered set's ledger, so the set returned is always valid. |
| `AzureContext.AzureContext.SaveChanges` | src/AzureContext.cs:37-45 | Flushes each registered set exactly once, in registry order, leaves every ledger empty, keeps the context valid and returns 1. |
| `AzureContext.FlushAll` | src/AzureContext.cs:39-43 | Flushing distinct sets one after another sends exactly each set's own plan, in order, and leaves every ledger empty. |

## Left out

- **Network calls.** `ExecuteQuerySegmentedAsync`, `table.ExecuteBatchAsync` and `CreateTableIfNotExistsAsync` are not modelled as calls. The service's pages are a given sequence whose last page has no cursor. Submissions and table-creation requests are returned as recorded lists.
- **Asynchrony.** `Task.WhenAll` over the batches, the fire-and-forget table creation and the awaits are modelled as sequential steps. A failing submission is not modelled, and the ledger is cleared whatever the outcome.
- **Cancellation.** The cancellation token is an oracle read once after each page.
- **Uninterpreted helpers.** The constant evaluator, `ExpressionType.IsSupported` and `Serialize`, `ConstantExpression.Serialize`, the `IEnumerable` view of a value, `Expression.ToString` and `char.IsWhiteSpace` are function-valued parameters (`Runtime`). Nothing is claimed about them, with one exception, described in the next line.
- `ExpressionTranslator.RenderBinaryCall`, `ExpressionTranslator.RenderMethodCall`: a `CompareTo` or `Contains` call with no target object hands a null to the constant evaluator. The model fixes the outcome as `NullReferenceException` instead of leaving it to the evaluator. The same holds for the methods `AppendBinaryCall` and `VisitMethodCall`.
- `CloudTableExtensions.GenericEntityResolver`: the entity type's `ReadEntity` is a parameter (`read`). Only `ResolverCopiesRow` assumes the SDK's usual behaviour, which replaces the bag.
- `CloudTableExtensions.ExecuteQuery`: the progress callback is modelled as receiving a snapshot of the items gathered so far. The callback's own effects are not modelled. The real callback gets the live list and could change it, and with it the cap test and the result.
- **Translation result.** The concrete `TranslationResult` is not part of this model. Its calls are recorded in order, with no claim about how caps or filters combine.
- **Post-processing lambdas.** The lambdas that `AddPostProcessing` builds by reflection are opaque markers. `src/Queryable/QueryProvider.cs` is not part of this model.
- **Entity identity and ordering.** The ledger is keyed on the entity type's own equality. `Equals` comes from a base class not shown here, and .NET string hashing is not modelled. `Dictionary` enumeration is modelled as first-insertion order.
- `TableEntity.TableEntity.GetHashCode`: the runtime's string hash is a parameter. Only its dependence on the key string is stated.
- **Reflection hooks.** `AddComplexProperties` and `SetForeignRowKeyAttribute` (foreign-key propagation through reflection) are treated as a no-op hook before insert-or-replace.
- **Entity type.** The context keys its registry by type name. The entity type is a name plus the table attribute found on it.
- `AzureContext.AzureContext.Set`: `new T().PartitionKey` is modelled as the generated key. A subclass that sets `PartitionKey` itself before the base constructor body runs is not modelled.
- **Node kinds.** Expression node kinds outside the translator's switch cases are grouped under `OtherBinary`/`OtherUnary` and the shared `Children` walk of the base visitor.
- **Integer width.** `Take` and the row counts use unbounded integers. The service's 32-bit counts do not matter for any property stated here.
