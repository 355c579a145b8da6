# IsPojo, modelled in Dafny

This project models `IsPojo` from hamcrest-pojo. `IsPojo` is a Hamcrest matcher over a Java object's zero-argument accessors. It has three parts:

- **Immutable builder.** `pojo(cls)`, `where(methodName, matcher)` and `withProperty(property, matcher)` build an insertion-ordered map from accessor name to sub-matcher. Each call returns a new matcher.
- **Evaluator.** `matchesSafely` first checks that the item is an instance of the class. It then calls every accessor, with no early exit. It sorts each call into one of four outcomes and puts every failure into an insertion-ordered mismatch map. It matches exactly when that map is empty.
- **Renderer.** `describeTo` writes the expected shape: the simple class name and `" {\n"`, one `"  name(): description\n"` per binding, then `"}"`. Multi-line inner descriptions are re-indented by splitting on `'\n'` and joining with `"\n  "`.

Files:

- `strings.dfy` (module `Strings`): the observable effect of Guava's `Splitter.on('\n')`, `Joiner.on(sep)` and `CaseFormat.LOWER_CAMEL.to(UPPER_CAMEL, …)`, and the re-indentation `Indent` built from them.
- `ordered_map.dfy` (module `OrderedMap`): insertion-ordered maps as sequences of entries. `Put` has `LinkedHashMap.put` semantics.
- `hamcrest.dfy` (module `Hamcrest`): a sub-matcher as a record, and `Description` as an append-only text buffer class.
- `is_pojo.dfy` (module `PojoMatcher`): the builder as functions, `matchesSafely`, `describeTo` and `indentDescription` as methods over a `Description`, the pure specifications they are proved against, and the lemmas.

Reflection is abstract. The matched object is a `Target`: an `isInstance` flag plus a map from method name to an `Outcome`. An outcome is one of:

- `Returned(v)`;
- `NoSuchMethod` (this is also what any name missing from the map gives);
- `IllegalAccess`;
- `InvocationTarget(causeName, causeMessage)`.

**Duplicate binding names.** `where` builds its map with `ImmutableMap.builder().putAll(...).put(...).build()`, and Guava's `build()` rejects a duplicate key with `IllegalArgumentException` rather than overwriting the earlier entry. So `Where` returns `Failure(DuplicateKey(name))` for a name that is already bound. Every matcher the builder produces has distinct names (`Valid`).

## Model

| member | source | states |
|---|---|---|
| PojoMatcher.Pojo | pojo/src/main/java/com/spotify/hamcrest/pojo/IsPojo.java:48-50 | `pojo(cls)` has class `cls`, no bindings, and is valid |
| PojoMatcher.Where | pojo/src/main/java/com/spotify/hamcrest/pojo/IsPojo.java:52-60 | fails exactly when the name is already bound (duplicate key). On success: same class, the receiver's bindings unchanged and in order, then the new name; lookup of the new name gives the new matcher and every other name reads as before; distinct names are preserved |
| PojoMatcher.AccessorName | pojo/src/main/java/com/spotify/hamcrest/pojo/IsPojo.java:63 | the derived name is `"get"` followed by the property with its first character upper-cased and the rest unchanged; for a lower-camel property the conversion can be undone |
| PojoMatcher.DescribeMethod | pojo/src/main/java/com/spotify/hamcrest/pojo/IsPojo.java:133-135 | no contract of its own: the accessor followed by `"()"`; `DescribeMethodInjective` states that distinct accessors get distinct labels |
| PojoMatcher.WithProperty | pojo/src/main/java/com/spotify/hamcrest/pojo/IsPojo.java:62-65 | behaves as `where` on `AccessorName(property)`: fails iff that name is bound, with `DuplicateKey` of that name; otherwise the receiver's bindings stay unchanged in front, the name is appended with the given matcher, every other name reads as before, and distinct names are preserved |
| Strings.UpperCamel | pojo/src/main/java/com/spotify/hamcrest/pojo/IsPojo.java:63 | no contract of its own: `CaseFormat.LOWER_CAMEL.to(UPPER_CAMEL, …)`; `UpperCamelShape` and `CamelRoundTrip` state its effect |
| Strings.UpperCamelShape | pojo/src/main/java/com/spotify/hamcrest/pojo/IsPojo.java:63 | LOWER_CAMEL to UPPER_CAMEL keeps length and every character after the first; a lower-case first letter becomes its own capital; any other first character leaves the name unchanged |
| Strings.CamelRoundTrip | pojo/src/main/java/com/spotify/hamcrest/pojo/IsPojo.java:63 | converting a lower-camel name to upper camel and back gives the name back |
| OrderedMap.GetPut | pojo/src/main/java/com/spotify/hamcrest/pojo/IsPojo.java:84-98 | after a map `put(k, v)`, `get(k)` is `v` and every other key reads as before |
| OrderedMap.Put | pojo/src/main/java/com/spotify/hamcrest/pojo/IsPojo.java:84-98 | `LinkedHashMap.put` keeps a present key in place and appends an absent key at the end of the key order |
| OrderedMap.Keys | pojo/src/main/java/com/spotify/hamcrest/pojo/IsPojo.java:105 | `keySet()` in iteration order: one key per entry, the k-th key being the k-th entry's key |
| OrderedMap.PutFresh | pojo/src/main/java/com/spotify/hamcrest/pojo/IsPojo.java:84-98 | putting an absent key appends one entry at the end and keeps keys distinct; the mismatch map relies on it here, and the builder at lines 53-57 through `AppendFresh` |
| OrderedMap.AppendFresh | pojo/src/main/java/com/spotify/hamcrest/pojo/IsPojo.java:53-57 | `putAll(old).put(k, v)` with an absent key: the key order gains `k` at the end, the old entries stay in front, `get` gives `v` for `k` and the old value elsewhere, and distinct keys stay distinct |
| PojoMatcher.Invoke | pojo/src/main/java/com/spotify/hamcrest/pojo/IsPojo.java:82 | no contract of its own: the reflective call, where a name the object lacks gives `NoSuchMethod`; `BindingRecordsNothing` and `ClassifyOutcome` state its effect on a binding |
| PojoMatcher.Check | pojo/src/main/java/com/spotify/hamcrest/pojo/IsPojo.java:80-99 | an outcome records no mismatch exactly when it is a returned value the matcher accepts; `ClassifyOutcome` gives the text of each recorded mismatch |
| PojoMatcher.CheckBinding | pojo/src/main/java/com/spotify/hamcrest/pojo/IsPojo.java:80-99 | no contract of its own: `Check` applied to the binding's matcher and the reflective call; `BindingRecordsNothing` states when it records nothing |
| PojoMatcher.BindingRecordsNothing | pojo/src/main/java/com/spotify/hamcrest/pojo/IsPojo.java:80-99 | a binding records nothing exactly when the object has the accessor, the call returns, and the matcher accepts the value; a missing accessor always records a mismatch |
| PojoMatcher.Mismatches | pojo/src/main/java/com/spotify/hamcrest/pojo/IsPojo.java:74-100 | no contract of its own: the loop's mismatch map as a fold of `put` over the bindings; `MismatchesFollowBindings`, `MismatchKeysAreBindingKeys`, `NoMismatchIffAllMatch` and `SingleMismatch` state its contents |
| PojoMatcher.ClassifyOutcome | pojo/src/main/java/com/spotify/hamcrest/pojo/IsPojo.java:80-99 | for an outcome that records a mismatch (which `Check`'s own contract characterises), the recorded text is one of: the matcher's own `describeMismatch` of the value; `"was not accessible"`; `"threw an exception: " + causeName + ": " + causeMessage`; `"did not exist"` |
| PojoMatcher.MismatchText | pojo/src/main/java/com/spotify/hamcrest/pojo/IsPojo.java:84-98 | no contract of its own: the text each recorded mismatch's `Consumer<Description>` appends; `ClassifyOutcome` states it per outcome |
| PojoMatcher.Rendered | pojo/src/main/java/com/spotify/hamcrest/pojo/IsPojo.java:104-108 | the mismatch map handed to `describeNestedMismatches` has one entry per recorded mismatch, in the same order, each under the same accessor name with the text that mismatch appends |
| PojoMatcher.FailingIndices | pojo/src/main/java/com/spotify/hamcrest/pojo/IsPojo.java:76-100 | the failing bindings' indices, strictly increasing; every index is a failing binding, and every failing binding is included |
| PojoMatcher.MismatchesFollowBindings | pojo/src/main/java/com/spotify/hamcrest/pojo/IsPojo.java:74-100 | entry k of the mismatch map is the mismatch of the k-th failing binding, under that binding's name. So every binding is attempted, and the map follows binding order with no entry overwritten |
| PojoMatcher.MismatchKeysAreBindingKeys | pojo/src/main/java/com/spotify/hamcrest/pojo/IsPojo.java:74-100 | every key of the mismatch map is a binding name |
| PojoMatcher.NoMismatchIffAllMatch | pojo/src/main/java/com/spotify/hamcrest/pojo/IsPojo.java:102-112 | the mismatch map is empty iff every accessor returned a value its matcher accepts |
| PojoMatcher.SingleMismatch | pojo/src/main/java/com/spotify/hamcrest/pojo/IsPojo.java:76-100 | when exactly one binding fails, the mismatch map is exactly that binding's entry |
| PojoMatcher.MatchesSafely | pojo/src/main/java/com/spotify/hamcrest/pojo/IsPojo.java:68-113 | non-instance: result false, and exactly `"not an instance of " + cls.getName()` is appended. Instance: the loop builds the specified mismatch map, and the result is true iff the map is empty. When true, nothing is appended; when false, `simpleName + " "` is appended, followed by the nested report built from the binding names in order, the rendered map and `describeMethod` |
| PojoMatcher.DescribeMethodInjective | pojo/src/main/java/com/spotify/hamcrest/pojo/IsPojo.java:133-135 | `describeMethod` names distinct accessors distinctly |
| PojoMatcher.IndentDescription | pojo/src/main/java/com/spotify/hamcrest/pojo/IsPojo.java:137-142 | appends the re-indented inner text followed by a newline |
| PojoMatcher.DescribeBinding | pojo/src/main/java/com/spotify/hamcrest/pojo/IsPojo.java:120-127 | one pass of the `describeTo` loop appends exactly `"  " + name + "(): "`, the sub-matcher's description re-indented, and a newline |
| PojoMatcher.DescribeTo | pojo/src/main/java/com/spotify/hamcrest/pojo/IsPojo.java:116-130 | appends exactly `Expectation(p)`: the simple name and `" {\n"`, then `"  " + name + "(): " + indented description + "\n"` for each binding in order, then `"}"` |
| PojoMatcher.ExpectationOfPojo | pojo/src/main/java/com/spotify/hamcrest/pojo/IsPojo.java:116-130 | a matcher with no bindings describes itself as exactly `simpleName + " {\n}"` |
| PojoMatcher.ExpectationOfWhere | pojo/src/main/java/com/spotify/hamcrest/pojo/IsPojo.java:116-130 | a binding added by `where` appears as the last line before the closing brace; earlier bindings' text is unchanged |
| PojoMatcher.ExpectationLines | pojo/src/main/java/com/spotify/hamcrest/pojo/IsPojo.java:116-142 | split into lines, the description is: the simple name with `" {"`; then each binding's lines in binding order, where the first line holds the accessor and the first line of the sub-description, and the sub-description's later lines are two spaces further in; then `"}"` |
| PojoMatcher.OneLinePerBinding | pojo/src/main/java/com/spotify/hamcrest/pojo/IsPojo.java:116-130 | with single-line descriptions, the description has exactly one line per binding, `"  " + name + "(): " + description`, between the opening and closing lines |
| Strings.Split | pojo/src/main/java/com/spotify/hamcrest/pojo/IsPojo.java:140 | `Splitter.on('\n')` always yields at least one piece, and no piece contains a newline |
| Strings.Join | pojo/src/main/java/com/spotify/hamcrest/pojo/IsPojo.java:140 | no contract of its own: `Joiner.on(sep).join(…)`; `JoinSplit`, `JoinSplitRoundTrip` and `SplitJoinRoundTrip` state its effect together with `Split` |
| Strings.JoinSplit | pojo/src/main/java/com/spotify/hamcrest/pojo/IsPojo.java:140 | joining the pieces of a text with `sep` is the text with every newline replaced by `sep` |
| Strings.JoinSplitRoundTrip | pojo/src/main/java/com/spotify/hamcrest/pojo/IsPojo.java:140 | splitting on `'\n'` and joining on `"\n"` gives the text back |
| Strings.SplitJoinRoundTrip | pojo/src/main/java/com/spotify/hamcrest/pojo/IsPojo.java:140 | joining newline-free lines on `"\n"` and splitting again gives the lines back |
| Strings.Indent | pojo/src/main/java/com/spotify/hamcrest/pojo/IsPojo.java:140 | no contract of its own: the `Joiner`/`Splitter` pair of `indentDescription`; `IndentReplacesNewlines`, `IndentSingleLine`, `IndentLines` and `IndentNested` state its effect |
| Strings.IndentReplacesNewlines | pojo/src/main/java/com/spotify/hamcrest/pojo/IsPojo.java:137-142 | re-indentation replaces every `'\n'` with `"\n  "` and leaves every other character unchanged |
| Strings.IndentSingleLine | pojo/src/main/java/com/spotify/hamcrest/pojo/IsPojo.java:137-142 | text without a newline passes through unchanged |
| Strings.IndentLines | pojo/src/main/java/com/spotify/hamcrest/pojo/IsPojo.java:137-142 | re-indentation keeps the number of lines and the first line, and every later line gains exactly two leading spaces |
| Strings.IndentNested | pojo/src/main/java/com/spotify/hamcrest/pojo/IsPojo.java:137-142 | after `depth` nested re-indentations, every line after the first carries exactly `2 * depth` more leading spaces |

## Left out

- Java reflection (`cls.getMethod(name).invoke(item)`, `cls.isInstance(item)`) is replaced by the `Target` value: a flag plus a per-name `Outcome`. Class loading, overloads and visibility rules are not modelled.
- `DescriptionUtils.describeNestedMismatches` is not part of this model. `MatchesSafely` takes it as a function parameter. The parameter receives the binding names in order, the rendered mismatch map and `DescribeMethod`. The layout of the failure report after `simpleName + " "` is therefore not asserted.
- Null arguments cannot be expressed: Dafny strings and records are never null. `Objects.requireNonNull` (lines 44-45) and Guava's null checks have no counterpart.
- A `Mismatch` entry stores the data its `Consumer<Description>` appends, not the closure. Rendering it later appends the same text, because sub-matchers are modelled as deterministic functions.
- Exceptions thrown by a sub-matcher's own `matches` or `describeMismatch` escape `matchesSafely` in Java. Here those are total functions, so the model does not cover this.
- `getCanonicalName()` and `getMessage()` can return null in Java, and `appendText` then writes `"null"`. The model takes both as plain strings, so a caller models that case by passing `"null"`.
- Guava internals are modelled only by their net effect. For `CaseFormat`, `UpperCamel` upper-cases an ASCII first letter, since LOWER_CAMEL word boundaries are ASCII capitals. Non-ASCII letters are unchanged.
- Hamcrest's `TypeSafeDiagnosingMatcher` wrappers (`matches`, `describeMismatch`, the null and type checks they make before calling `matchesSafely`) are not part of this model.
- Using an `IsPojo` as the sub-matcher of another `IsPojo` is not built as a model. A sub-matcher is given by its description strings. `IndentNested` states the indentation such nesting produces.
- The sibling matchers `IsRightEither` and `IsSuccessfulTry` are not part of this model. Their implementation sources are not available, so a model of them would be invented.
