# Expression alerter: DSL compiler and trigger selection

The external alerter of Hawkular APM evaluates alert conditions written in a
small DSL,

    event:groupBy(<field>|tags.<name>)[:filter(<frag>,...)]:having(<frag>,...)

by compiling each one into a Drools rule (DRL). The rule groups incoming
events by a key and accumulates them, and it emits one alert event when the
post-aggregate constraints hold. This project models two parts of it:

- **the compiler** (`Expression.java`). Module `DslSpec` (dsl_spec.dfy)
  states what the compiler computes, as pure functions. The clauses are
  groupBy, filter with its tag rewriting, and having with its firstTime,
  lastTime, count.tags and count rewriting; the file also covers the
  constructor's checks and the rule text. Class `Expressions.Expression`
  (expression.dfy) is the compiler as the object it is: fields that its
  methods update step by step, loops over arrays, and HashSets iterated in
  an order the model does not fix. Each method is proved to compute what the
  `DslSpec` functions say. Module `TagRewriting` (tag_rewriting.dfy) shows
  that the tag rewriting, which replaces every copy of each reference found,
  rewrites every reference of a fragment however many there are.
- **the trigger selection of `ExpressionManager.refresh`**. Module `Selection`
  (expression_manager.dfy) covers which tagged triggers, with which of their
  conditions, are handed to the event-processing engine.

Supporting modules:
- `Results` (results.dfy): Option and Result.
- `AlertsModel` (alerts_model.dfy): triggers and conditions as the alerter sees them.
- `JavaStrings` (java_strings.dfy): the `java.lang.String` operations the
  compiler uses, with Java's edge cases:
  - `trim` removes every character up to the space;
  - `split` drops trailing empty pieces;
  - `substring` out of range throws;
  - `indexOf` / `lastIndexOf` return -1 when nothing is found.

Java exceptions become the error values of `DslSpec.ExprError`:
- the constructor's own `IllegalArgumentException`s, one per check;
- `StringIndexOutOfBoundsException` from `substring`, as `IndexOutOfBounds`.

The constructor becomes `Expression.Create`, which returns
`Result<Expression, ExprError>`.

The four-section check is modelled as written. A four-section expression is
refused only when the third section does not start with `filter(` AND the
fourth does not start with `having(`. So with `filter(` third, the fourth
section is compiled as a having clause even without its keyword.
`DslSpec.FourSectionsCheckAsWritten` states this. The intent was probably
to require both keywords, but the code is what is modelled.

## Model

| member | source | states |
|---|---|---|
| JavaStrings.IndexOfFinds | src/main/java/org/hawkular/apm/alerter/Expression.java:263 | `indexOf(p, from)` answers the first occurrence at or after `from`, and -1 only when there is none |
| JavaStrings.IndexOfCharFinds | src/main/java/org/hawkular/apm/alerter/Expression.java:264 | `indexOf(' ', start)` answers the first space at or after `start`, and -1 only when there is none |
| JavaStrings.LastIndexOfFinds | src/main/java/org/hawkular/apm/alerter/Expression.java:128 | `lastIndexOf(')')` is the last `)`; -1 exactly when there is none |
| JavaStrings.TrimStartDrops | src/main/java/org/hawkular/apm/alerter/Expression.java:132 | trimming the front keeps a suffix, drops only characters up to the space, and stops at the first other one |
| JavaStrings.TrimEndDrops | src/main/java/org/hawkular/apm/alerter/Expression.java:132 | trimming the end keeps a prefix, drops only characters up to the space, and stops at the last other one |
| JavaStrings.TrimmedText | src/main/java/org/hawkular/apm/alerter/Expression.java:289-291 | `trim` gives the empty text exactly when every character is trimmable. Otherwise it gives a piece of the text with no trimmable character at either end and only trimmable characters around it |
| JavaStrings.TrimOfUnique | src/main/java/org/hawkular/apm/alerter/Expression.java:132 | a text has only one such trimmed piece, so that description fixes what `trim` returns |
| JavaStrings.TrimSlice | src/main/java/org/hawkular/apm/alerter/Expression.java:132 | the trimmed text lies in the original where the leading blanks end |
| JavaStrings.PiecesSeparate | src/main/java/org/hawkular/apm/alerter/Expression.java:99 | no piece between separators contains the separator |
| JavaStrings.PiecesGlue | src/main/java/org/hawkular/apm/alerter/Expression.java:99 | splitting loses nothing: joining the pieces with the separator gives back the text |
| JavaStrings.DropTrailingEmptyDrops | src/main/java/org/hawkular/apm/alerter/Expression.java:175 | what split drops is exactly the run of empty pieces at the end |
| JavaStrings.SplitPieces | src/main/java/org/hawkular/apm/alerter/Expression.java:99 | `split` returns the whole text when the separator is absent. Otherwise it returns the pieces up to the last non-empty one, and no piece holds the separator |
| JavaStrings.ReplaceAllAbsent | src/main/java/org/hawkular/apm/alerter/Expression.java:193 | replacing a pattern that does not occur changes nothing |
| JavaStrings.ReplaceAllFirst | src/main/java/org/hawkular/apm/alerter/Expression.java:193 | `replaceAll` works from the left: the text before the first occurrence is kept, that occurrence becomes the replacement, and the rest is replaced in the same way; without an occurrence the text is unchanged |
| JavaStrings.ReplaceAllOnce | src/main/java/org/hawkular/apm/alerter/Expression.java:284 | a pattern that occurs once is replaced there and nowhere else |
| JavaStrings.MarkingPreserves | src/main/java/org/hawkular/apm/alerter/Expression.java:193-198 | replacing a token by `$` plus the token neither creates nor removes an occurrence of a text without `$` in which the token's first character can only come first |
| JavaStrings.ReplaceAllChar | src/main/java/org/hawkular/apm/alerter/Expression.java:251 | replacing `"` by `'` keeps the length and changes exactly the `"` positions |
| JavaStrings.ToUpper | src/main/java/org/hawkular/apm/alerter/Expression.java:272 | no ASCII lower-case letter is left; each one becomes the upper-case letter at the same distance from `A`; every other character is kept |
| DslSpec.IsEmptyBlank | src/main/java/org/hawkular/apm/alerter/Expression.java:289-291 | `isEmpty` holds exactly for a null text or one made only of trimmable characters |
| DslSpec.MakeType | src/main/java/org/hawkular/apm/alerter/Expression.java:271-273 | `makeType` fails (substring out of range) exactly on the empty field. Otherwise it returns the field with its first letter upper-cased and the rest kept |
| DslSpec.ClauseBodyText | src/main/java/org/hawkular/apm/alerter/Expression.java:128-132 | a clause without `)` fails with its own error, and one whose last `)` falls inside the keyword fails the substring. Otherwise the body is the trim of the text between the keyword and the last `)`: no trimmable character at either end, only trimmable characters around it. A clause that starts with its keyword fails only for want of `)` |
| DslSpec.GroupByClauseParses | src/main/java/org/hawkular/apm/alerter/Expression.java:127-150 | groupBy fails with the clause's error, or on an empty key or a bare `tags.`. Otherwise the field is the key minus `tags.`, the type is the capitalised field, and the join constraint compares the field or tag with `$field` |
| DslSpec.WordRun | src/main/java/org/hawkular/apm/alerter/Expression.java:66 | `\w+` is greedy: the run is all word characters and is followed by a non-word character or the end |
| DslSpec.TagMatchAt | src/main/java/org/hawkular/apm/alerter/Expression.java:280-282 | a match's text (group 0) is the non-empty slice from its start to its end |
| DslSpec.FindTag | src/main/java/org/hawkular/apm/alerter/Expression.java:279 | `find(from)` returns the leftmost match at or after `from`, and none only when no position from there matches |
| DslSpec.ScanTags | src/main/java/org/hawkular/apm/alerter/Expression.java:277-285 | every match the replaceTags loop visits is a real match, at or after the search start |
| DslSpec.TagsDoNotOverlap | src/main/java/org/hawkular/apm/alerter/Expression.java:66 | no `tags.<name><space>` match starts inside another one |
| DslSpec.ScanTagsComplete | src/main/java/org/hawkular/apm/alerter/Expression.java:277-285 | searching on from the end of each match visits exactly the positions where a match starts, none skipped |
| DslSpec.TagsReplacedWithoutTags | src/main/java/org/hawkular/apm/alerter/Expression.java:275-287 | a text without `tags.` is returned unchanged |
| DslSpec.ScanOneReference | src/main/java/org/hawkular/apm/alerter/Expression.java:277-285 | with no other `tags.` before or after it, the find loop visits one reference: `tags.<name>` and the whitespace after it, with group 1 the name |
| DslSpec.TagsReplacedReference | src/main/java/org/hawkular/apm/alerter/Expression.java:275-287 | inside any text with no other `tags.`, `tags.<name><space>` becomes `tags["<name>"]`, the whitespace consumed with it and the text around it kept |
| TagRewriting.TagsReplacedRewritesAll | src/main/java/org/hawkular/apm/alerter/Expression.java:275-287 | for any fragment, however many tag references it holds, replaceTags comes to one left-to-right pass that turns each `tags.<name><space>` into `tags["<name>"]` where it stands and keeps every other character |
| TagRewriting.TagsReplacedStep | src/main/java/org/hawkular/apm/alerter/Expression.java:275-287 | the first tag reference of any fragment becomes its lookup (the text before it may hold `tags.`, but no reference starts there), the text before it is kept, and the rest of the fragment comes out exactly as replaceTags would rewrite it on its own, whatever references it holds |
| DslSpec.FilterFragmentIsTagsReplaced | src/main/java/org/hawkular/apm/alerter/Expression.java:177-179 | the `contains("tags.")` guard changes nothing: each filter fragment is just tag-rewritten |
| DslSpec.FilterConstraintsMembers | src/main/java/org/hawkular/apm/alerter/Expression.java:175-181 | the filter's event constraints are exactly the tag-rewritten fragments |
| DslSpec.CollectSetFunction | src/main/java/org/hawkular/apm/alerter/Expression.java:267 | a tag-set function never coincides with the events, time or count functions |
| DslSpec.CountTagsRewrites | src/main/java/org/hawkular/apm/alerter/Expression.java:262-269 | processCountTags fails (substring with end -1) exactly when no space follows the first `count.tags.`. Otherwise the tag name is the space-free run up to that space, and the result refers to that tag's set size |
| DslSpec.CountTagsText | src/main/java/org/hawkular/apm/alerter/Expression.java:263-268 | the text before the first `count.tags.<name>` is kept, that reference becomes `$<name>Set.size`, and every later occurrence of it is replaced in the same way |
| DslSpec.TimeStepRewrites | src/main/java/org/hawkular/apm/alerter/Expression.java:192-201 | a `firstTime `/`lastTime ` token is replaced from the left by its variable (the text before its first occurrence kept), adds exactly `$ctime` and its function; without the token nothing changes |
| DslSpec.TimeStepKeeps | src/main/java/org/hawkular/apm/alerter/Expression.java:192-201 | the time rewriting neither creates nor removes a text without `$` in which the token's first letter can only come first, such as `lastTime `, `count.tags.` or `count ` |
| DslSpec.TimeStepsRegister | src/main/java/org/hawkular/apm/alerter/Expression.java:192-201 | the two time checks register `min( $ctime )` exactly for `firstTime `, `max( $ctime )` exactly for `lastTime `, `$ctime` exactly with either and nothing else, and leave `count.tags.` and `count ` as they were |
| DslSpec.CountTagsStepRewrites | src/main/java/org/hawkular/apm/alerter/Expression.java:202-204 | the count.tags step fails only on an unreadable tag name. Otherwise it registers that tag's set function and leaves the events alone |
| DslSpec.CountStepRewrites | src/main/java/org/hawkular/apm/alerter/Expression.java:205-208 | `count ` is replaced from the left by `$count ` (the text before its first occurrence kept) and adds exactly the count function; without it nothing changes |
| DslSpec.HavingFragmentFailure | src/main/java/org/hawkular/apm/alerter/Expression.java:191-209 | a having fragment fails exactly when its count.tags cannot be read, always with the substring error |
| DslSpec.HavingFragmentRegisters | src/main/java/org/hawkular/apm/alerter/Expression.java:192-208 | a fragment registers only having functions, and `$ctime` exactly with a time function. `min( $ctime )` is registered exactly when the fragment mentions `firstTime `, `max( $ctime )` exactly when it mentions `lastTime `. A fragment without `count.tags.` cannot fail and registers `count( $event )` exactly when it mentions `count ` |
| DslSpec.HavingFragmentCountTags | src/main/java/org/hawkular/apm/alerter/Expression.java:202-204 | a fragment mentioning `count.tags.` registers the set function of the tag it names |
| DslSpec.MergeFailure | src/main/java/org/hawkular/apm/alerter/Expression.java:191-210 | the loop fails exactly when some fragment fails, with that fragment's error |
| DslSpec.MergeConstraints | src/main/java/org/hawkular/apm/alerter/Expression.java:209 | each fragment gives exactly one post-aggregate constraint, and there are no others |
| DslSpec.MergeRegisters | src/main/java/org/hawkular/apm/alerter/Expression.java:192-208 | the loop registers exactly what its fragments register |
| DslSpec.HavingFragmentsFailure | src/main/java/org/hawkular/apm/alerter/Expression.java:190-210 | the having section fails exactly when one fragment does, only with the substring error |
| DslSpec.HavingFragmentFails | src/main/java/org/hawkular/apm/alerter/Expression.java:203 | one unreadable count.tags aborts the whole having section |
| DslSpec.HavingFragmentsConstraints | src/main/java/org/hawkular/apm/alerter/Expression.java:209 | the post-aggregate constraints are exactly the fragments, rewritten and trimmed |
| DslSpec.HavingFragmentsRegisters | src/main/java/org/hawkular/apm/alerter/Expression.java:190-210 | the having section registers only having functions, with `$ctime` exactly alongside a time function. `min( $ctime )` and `max( $ctime )` are registered exactly when some fragment mentions `firstTime `, respectively `lastTime `. Without `count.tags.` anywhere, `count( $event )` is registered exactly when some fragment mentions `count ` |
| DslSpec.HavingClauseRegisters | src/main/java/org/hawkular/apm/alerter/Expression.java:184-211 | a compiled having clause registers only what fragments may register |
| DslSpec.ShapeError | src/main/java/org/hawkular/apm/alerter/Expression.java:100-108 | the first checks pass exactly for 3 or 4 sections with `event` first and `groupBy(` second |
| DslSpec.KeywordError | src/main/java/org/hawkular/apm/alerter/Expression.java:111-117 | the keyword checks pass exactly with `having(` third of three, or with `filter(` third or `having(` fourth of four |
| DslSpec.Compile | src/main/java/org/hawkular/apm/alerter/Expression.java:85-98 | a null trigger or condition is refused first; an accepted condition has an expression |
| DslSpec.CompileRejectsBlank | src/main/java/org/hawkular/apm/alerter/Expression.java:96-98 | a null or blank expression is refused with the empty-expression error |
| DslSpec.CompileShape | src/main/java/org/hawkular/apm/alerter/Expression.java:99-108 | wrong section count, missing `event` and missing `groupBy(` are refused in that order |
| DslSpec.AssembleAccepted | src/main/java/org/hawkular/apm/alerter/Expression.java:118-123 | once the clauses compile, the groupBy pieces, the filter and having contributions and the identity fields are those of the compiled state |
| DslSpec.CompileParts | src/main/java/org/hawkular/apm/alerter/Expression.java:96-123 | an accepted expression passed every check, and its groupBy compiled |
| DslSpec.CompileAccepted | src/main/java/org/hawkular/apm/alerter/Expression.java:85-123 | an accepted expression has the accepted shape; its groupBy pieces, functions, post-aggregate constraints and identity come from its clauses, trigger and condition |
| DslSpec.CompileSucceeds | src/main/java/org/hawkular/apm/alerter/Expression.java:96-123 | conversely, passing the checks with every clause compiling is accepted |
| DslSpec.AssembleSucceeds | src/main/java/org/hawkular/apm/alerter/Expression.java:118-123 | filter and having compiling is enough for the last step to succeed |
| DslSpec.CompileUnfold | src/main/java/org/hawkular/apm/alerter/Expression.java:109-123 | after the checks and groupBy, the filter and having sections decide the outcome |
| DslSpec.CompileGroupByFails | src/main/java/org/hawkular/apm/alerter/Expression.java:109 | a groupBy failure is the constructor's failure, before the keyword checks |
| DslSpec.CompileKeywordFails | src/main/java/org/hawkular/apm/alerter/Expression.java:111-117 | a keyword-check failure after groupBy is the constructor's failure |
| DslSpec.AssembleFails | src/main/java/org/hawkular/apm/alerter/Expression.java:118-123 | the filter is compiled before the having section, and its failure comes first |
| DslSpec.FourSectionsCheckAsWritten | src/main/java/org/hawkular/apm/alerter/Expression.java:114-117 | with `filter(` third, a fourth section without `having(` still compiles as the having clause |
| DslSpec.CompileRegisters | src/main/java/org/hawkular/apm/alerter/Expression.java:85-123 | the join constraint is an event constraint. The events list is always a function, and every other function is one a fragment registers. A time function comes with `$ctime` |
| DslSpec.AssembleRegisters | src/main/java/org/hawkular/apm/alerter/Expression.java:118-123 | the same four facts for the last compilation step |
| DslSpec.CompileThreeSections | src/main/java/org/hawkular/apm/alerter/Expression.java:118-119 | with three sections the only event constraints are the join constraint and `$ctime` |
| DslSpec.CompileFilter | src/main/java/org/hawkular/apm/alerter/Expression.java:120-122 | with four sections every tag-rewritten filter fragment is an event constraint |
| DslSpec.ListingContains | src/main/java/org/hawkular/apm/alerter/Expression.java:221-228 | every element visited appears in the listing after its indent |
| DslSpec.QuotesNormalised | src/main/java/org/hawkular/apm/alerter/Expression.java:251 | the quoted expression has every `"` turned into `'`, and no `"` left |
| DslSpec.RuleTextOpening | src/main/java/org/hawkular/apm/alerter/Expression.java:214-215 | the rule text starts with the header and the group declaration and names the rule |
| DslSpec.RuleTextEvent | src/main/java/org/hawkular/apm/alerter/Expression.java:221-228 | every event constraint listed appears, doubly indented |
| DslSpec.RuleTextFunction | src/main/java/org/hawkular/apm/alerter/Expression.java:230-236 | every aggregate function listed appears, indented |
| DslSpec.RuleTextConstraint | src/main/java/org/hawkular/apm/alerter/Expression.java:238-244 | every post-aggregate constraint listed appears, indented |
| DslSpec.RuleTextExpression | src/main/java/org/hawkular/apm/alerter/Expression.java:251 | the alert event quotes the expression with its quotes normalised |
| DslSpec.RuleTextContains | src/main/java/org/hawkular/apm/alerter/Expression.java:213-256 | whatever order the HashSets are iterated in, every element of the three sets is in the rule text |
| Expressions.Expression.Init | src/main/java/org/hawkular/apm/alerter/Expression.java:79-95 | the field initialisers and the identity fields taken from the trigger and condition |
| Expressions.Expression.ClauseText | src/main/java/org/hawkular/apm/alerter/Expression.java:128-132 | lastIndexOf, substring and trim compute the clause body of the spec |
| Expressions.Expression.ParseGroupBy | src/main/java/org/hawkular/apm/alerter/Expression.java:127-167 | on success the three groupBy strings are the compiled ones and the join constraint is added; on failure nothing changes |
| Expressions.Expression.ParseGroupKey | src/main/java/org/hawkular/apm/alerter/Expression.java:133-166 | the same from the trimmed key on |
| Expressions.Expression.DeclareGroupType | src/main/java/org/hawkular/apm/alerter/Expression.java:151-166 | the three appends build the group declaration and its extraction rule |
| Expressions.Expression.ReplaceTags | src/main/java/org/hawkular/apm/alerter/Expression.java:275-287 | the find loop computes the spec's tag rewriting (invariant: the rewrites still due, applied to the current text, give the result) |
| Expressions.Expression.ParseFilter | src/main/java/org/hawkular/apm/alerter/Expression.java:169-182 | adds exactly the filter clause's constraints; on failure nothing changes |
| Expressions.Expression.AddFilterConstraints | src/main/java/org/hawkular/apm/alerter/Expression.java:175-181 | the array loop adds the tag-rewritten fragments |
| Expressions.Expression.ProcessCountTags | src/main/java/org/hawkular/apm/alerter/Expression.java:262-269 | registers the tag's set function and returns the rewritten text, or fails with nothing changed |
| Expressions.Expression.ParseHaving | src/main/java/org/hawkular/apm/alerter/Expression.java:184-211 | adds exactly the having clause's events, functions and post-aggregate constraints, or reports its error |
| Expressions.Expression.AddHavingConstraints | src/main/java/org/hawkular/apm/alerter/Expression.java:190-210 | the array loop merges the fragments in order and stops at the first failure |
| Expressions.Expression.AddHavingFragment | src/main/java/org/hawkular/apm/alerter/Expression.java:191-209 | one iteration: the fragment's registrations plus its trimmed text as a constraint |
| Expressions.Expression.RewriteHavingFragment | src/main/java/org/hawkular/apm/alerter/Expression.java:192-208 | the four checks in order give the spec's rewriting of one fragment |
| Expressions.Expression.TimeChecks | src/main/java/org/hawkular/apm/alerter/Expression.java:192-201 | the firstTime and lastTime checks |
| Expressions.Expression.CountChecks | src/main/java/org/hawkular/apm/alerter/Expression.java:202-208 | the count.tags and count checks |
| Expressions.Expression.ListItems | src/main/java/org/hawkular/apm/alerter/Expression.java:221-228 | an iterator loop over a HashSet visits every element once, in some order, and the text is their listing |
| Expressions.Expression.BuildDrl | src/main/java/org/hawkular/apm/alerter/Expression.java:213-256 | the rule text is the spec's rule text for the orders visited; the compiled state is unchanged |
| Expressions.Expression.Parse | src/main/java/org/hawkular/apm/alerter/Expression.java:96-123 | the checks and parsers in the constructor's order fail exactly as the spec does, or leave the compiled state |
| Expressions.Expression.ParseSections | src/main/java/org/hawkular/apm/alerter/Expression.java:109-123 | from parseGroupBy on, the same |
| Expressions.Expression.ParseHavingSection | src/main/java/org/hawkular/apm/alerter/Expression.java:118-119 | three sections: parseHaving gives the compiled state |
| Expressions.Expression.ParseFilterAndHaving | src/main/java/org/hawkular/apm/alerter/Expression.java:120-123 | four sections: parseFilter then parseHaving give the compiled state; the filter's error comes first |
| Expressions.Expression.Create | src/main/java/org/hawkular/apm/alerter/Expression.java:85-125 | the constructor fails exactly when the compiler refuses, with the same error. Otherwise it yields a new object whose state is the compiled one and whose rule text is built from it |
| Selection.ApmConditionsAppend | src/main/java/org/hawkular/apm/alerter/ExpressionManager.java:107-114 | conditions are kept in the order fetched, independently for any split of the list |
| Selection.ApmConditionsMembers | src/main/java/org/hawkular/apm/alerter/ExpressionManager.java:107-114 | a condition is kept exactly when it is an external condition for `HawkularAPM` |
| Selection.ActiveTriggersAppend | src/main/java/org/hawkular/apm/alerter/ExpressionManager.java:90-121 | triggers are handed over in the order listed |
| Selection.SkippedTrigger | src/main/java/org/hawkular/apm/alerter/ExpressionManager.java:94-106 | a disabled trigger, or one whose conditions could not be fetched, is skipped without affecting the others |
| Selection.ActiveTriggersMembers | src/main/java/org/hawkular/apm/alerter/ExpressionManager.java:90-121 | a trigger is handed over exactly when it is enabled and fetched and has at least one condition for this alerter. Its conditions are exactly those |
| Selection.ActiveConditionsAreApm | src/main/java/org/hawkular/apm/alerter/ExpressionManager.java:110 | every condition handed over is addressed to `HawkularAPM` |
| Selection.Refresh | src/main/java/org/hawkular/apm/alerter/ExpressionManager.java:84-129 | the engine is updated once with the active triggers, and not at all when the listing failed or nothing is active |

## Left out

- JavaStrings.ReplaceAll: replaces its pattern literally, where Java's `replaceAll` reads the pattern as a regular expression and the replacement as a template with `$` group references and `\` escapes. The other patterns, the time and count tokens (`firstTime `, `lastTime `, `count `) and the `"` of the rule text, hold no metacharacter, and every replacement (the `\$`-escaped variables, the tag lookups, `'`) reads as the text it stands for. The patterns of the two tag rewritings do: a tag reference `tags.<name><space>` holds the `.` of `tags.`, and a count reference `count.tags.<name>` holds both dots of `count.tags.`. As a regular expression each of these dots matches any character, so Java also replaces look-alike text that the model leaves alone: in replaceTags (Expression.java:276-287) `tags.x ` also rewrites `tagsAx `, and in processCountTags (Expression.java:268) `count.tags.x > 1 && countAtagsAx > 2` has both references replaced, where `DslSpec.TagsReplaced` and `DslSpec.CountTagsText` replace only the literal ones. `TAGS_SEARCH` itself is modelled exactly, with `\w` as `[A-Za-z0-9_]` and `\s` as the six ASCII whitespace characters.
- DslSpec.CountTags: the tag name is every character up to the next space, so it may hold regular-expression metacharacters, and there Java's `processCountTags` (Expression.java:268) departs from the model. A `(`, `[` or unbalanced `)` makes the pattern invalid and Java throws `PatternSyntaxException`; for example the having fragment `(count.tags.location) > 1` names the tag `location)`. A `*`, `+`, `?` or `|` changes what the pattern matches. A `$` or `\` in the name breaks the replacement template, and Java throws `IllegalArgumentException` (or `IndexOutOfBoundsException` for a missing group). The model replaces the text literally and has no error value for these cases.
- JavaStrings.ToUpper: only ASCII letters are upper-cased; other Unicode case mappings are not modelled.
- HashSet iteration order: any order is allowed, recorded in ghost fields. The sets' contents, not their order, are what is proved.
- `getDrl` is a plain getter of the `drl` field and is not a separate member.
- The other constructors, `init` (JNDI lookup, listener registration), the CEP engine, the REST events handler, logging and the `UUID`/`JsonUtil` calls inside the generated rule text are not part of this model. The generated text contains those calls verbatim.
- Java `null`: a null trigger or condition is `None` (`NullArgument`), and a null expression is `None`. The other string fields are never null in the model.
- `Selection.Refresh`: the definitions service's answers are inputs, not calls. The tag listing either fails or returns the tagged triggers. Each trigger's conditions are either fetched or fail, and a null conditions collection counts as a failed fetch. An exception from `cep.updateConditions` is not modelled; the method returns the one update it would make.
- Concurrent refreshes are not modelled.
