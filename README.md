# Annotation queries and Gradle navigation-test string logic, in Dafny

This project models three small pieces of the Kotlin IDE plugin's FIR-based frontend and of one of its Gradle integration tests, with the host types replaced by plain datatypes:

- **Annotation selection** (`annotationsUtils.kt`). A symbol's annotations each have an optional class id, an optional use-site target and constant arguments. For a requested target, an annotation *applies* when it has no target of its own or the same one. On that rule sit `hasAnnotation` and its fixed-id wrappers, `getJvmNameFromAnnotation` (first applicable `@JvmName`, then its first argument when that is a String constant), `isHiddenByDeprecation` (first applicable `@Deprecated` on the FIR declaration, then a `level = DeprecationLevel.HIDDEN` argument) and `computeAnnotations` (the applicable annotations in order, then one synthetic `@NotNull`/`@Nullable` annotation when nullability is known). The loop of `computeAnnotations` is an imperative method proved against a filtering function.
- **Annotation conversion** (`firUtils.kt`). Each FIR annotation call becomes one `KtAnnotationCall` with the same use-site target, the class id of a class-like type, the PSI element when it is a call element, and one named constant per argument-mapping entry: `Simple(value)` for a constant expression with a non-null value, `Unsupported` otherwise. A missing mapping gives no arguments. `overriddenDeclaration` is modelled as well. Lemmas connect the two levels: looking up an annotation, or a JVM name, on the converted list gives the same answer as on the FIR calls.
- **Gradle test strings** (`ImportAndCheckNavigation.kt`). The error-message compaction and the failure message (built by `append` calls inside `buildString`, modelled as a method that appends to a local string step by step). Comment unwrapping, extraction of the `NAVIGATION-TARGET:` marker, and the loop that fills the reference map from the comments in document order. The `relPath` getter.

Kotlin's string functions used there (`startsWith`, `removePrefix`, `removeSuffix`, `trim`, `trimStart`, `indexOf`, `in`, `substringAfter`, `isBlank`) are modelled in module `Strings`, each with a contract that characterises its result. `Char.isWhitespace` is the fixed set of characters for which the JVM's `Character.isWhitespace` or `Character.isSpaceChar` holds on JDK 9 and later (JDK 8 also counts U+180E).

Files: `wrappers.dfy` (Option), `strings.dfy`, `annotation_model.dfy` (datatypes for the host types), `annotations_utils.dfy`, `fir_utils.dfy`, `navigation.dfy`.

## Model

| member | source | states |
|---|---|---|
| AnnotationsUtils.HasAnnotation | idea/idea-frontend-fir/src/org/jetbrains/kotlin/idea/asJava/annotations/annotationsUtils.kt:88-92 | true exactly when some annotation has the class id and a use-site target that is absent or equal to the requested one |
| AnnotationsUtils.HasJvmSyntheticAnnotation | idea/idea-frontend-fir/src/org/jetbrains/kotlin/idea/asJava/annotations/annotationsUtils.kt:24-25 | true exactly when some `kotlin/jvm/JvmSynthetic` annotation has no target or the requested one |
| AnnotationsUtils.HasJvmFieldAnnotation | idea/idea-frontend-fir/src/org/jetbrains/kotlin/idea/asJava/annotations/annotationsUtils.kt:76-77 | true exactly when some `kotlin/jvm/JvmField` annotation has no use-site target (a null target is asked for) |
| AnnotationsUtils.HasJvmOverloadsAnnotation | idea/idea-frontend-fir/src/org/jetbrains/kotlin/idea/asJava/annotations/annotationsUtils.kt:79-80 | true exactly when some `kotlin/jvm/JvmOverloads` annotation has no use-site target |
| AnnotationsUtils.HasJvmStaticAnnotation | idea/idea-frontend-fir/src/org/jetbrains/kotlin/idea/asJava/annotations/annotationsUtils.kt:82-83 | true exactly when some `kotlin/jvm/JvmStatic` annotation has no use-site target |
| AnnotationsUtils.HasInlineOnlyAnnotation | idea/idea-frontend-fir/src/org/jetbrains/kotlin/idea/asJava/annotations/annotationsUtils.kt:85-86 | true exactly when some `kotlin/internal/InlineOnly` annotation has no use-site target |
| AnnotationsUtils.FirstSelected | idea/idea-frontend-fir/src/org/jetbrains/kotlin/idea/asJava/annotations/annotationsUtils.kt:28-32 | `firstOrNull`: the index found is selected and no earlier annotation is; nothing is found exactly when `HasAnnotation` is false |
| AnnotationsUtils.FirstSelectedAppend | idea/idea-frontend-fir/src/org/jetbrains/kotlin/idea/asJava/annotations/annotationsUtils.kt:28-32 | the first selected annotation of `a + b` is the first of `a`, or else the first of `b` shifted by `|a|` |
| AnnotationsUtils.FirstStringArgument | idea/idea-frontend-fir/src/org/jetbrains/kotlin/idea/asJava/annotations/annotationsUtils.kt:35 | a name exactly when the first argument is a simple String constant, and then that string |
| AnnotationsUtils.GetJvmNameFromAnnotation | idea/idea-frontend-fir/src/org/jetbrains/kotlin/idea/asJava/annotations/annotationsUtils.kt:27-37 | the target defaults to null; the result is the String first argument of the first applicable `@JvmName`; a non-null result implies `hasAnnotation("kotlin/jvm/JvmName", t)`; null when there is none |
| AnnotationsUtils.JvmNameIgnoresLater | idea/idea-frontend-fir/src/org/jetbrains/kotlin/idea/asJava/annotations/annotationsUtils.kt:28-36 | annotations after an applicable `@JvmName` never change the name, whatever they hold |
| AnnotationsUtils.JvmNameSkipsUnselected | idea/idea-frontend-fir/src/org/jetbrains/kotlin/idea/asJava/annotations/annotationsUtils.kt:28-36 | annotations before the list that are not applicable `@JvmName`s never change the name |
| AnnotationsUtils.FirstFirSelected | idea/idea-frontend-fir/src/org/jetbrains/kotlin/idea/asJava/annotations/annotationsUtils.kt:47-51 | `firstOrNull` over FIR calls: the index found is the first applicable call of the class id; none exactly when no call is |
| AnnotationsUtils.AnyHiddenLevel | idea/idea-frontend-fir/src/org/jetbrains/kotlin/idea/asJava/annotations/annotationsUtils.kt:55-70 | true exactly when some mapping entry is parameter `level` with a named-argument qualified access of receiver `kotlin/DeprecationLevel` and callee `HIDDEN` |
| AnnotationsUtils.IsHiddenByDeprecation | idea/idea-frontend-fir/src/org/jetbrains/kotlin/idea/asJava/annotations/annotationsUtils.kt:39-73 | true exactly when the declaration is annotated and the first applicable `kotlin/Deprecated` call has a mapping holding a HIDDEN `level`; false when not annotated, when no applicable Deprecated exists, or when its mapping is null |
| AnnotationsUtils.HiddenOnlyByFirstDeprecated | idea/idea-frontend-fir/src/org/jetbrains/kotlin/idea/asJava/annotations/annotationsUtils.kt:47-53 | once an applicable `@Deprecated` exists, later annotations (even a HIDDEN one) do not change the answer |
| AnnotationsUtils.NullabilityAnnotation | idea/idea-frontend-fir/src/org/jetbrains/kotlin/idea/asJava/annotations/annotationsUtils.kt:102-108 | none exactly for `Unknown`; `org.jetbrains.annotations.NotNull` for NotNull and `org.jetbrains.annotations.Nullable` for Nullable |
| AnnotationsUtils.ApplicableAppend | idea/idea-frontend-fir/src/org/jetbrains/kotlin/idea/asJava/annotations/annotationsUtils.kt:114-121 | the filtered light annotations of `a + b` are those of `a` followed by those of `b`: the original order is kept |
| AnnotationsUtils.ApplicableMembers | idea/idea-frontend-fir/src/org/jetbrains/kotlin/idea/asJava/annotations/annotationsUtils.kt:115-120 | an element is in the filtered list exactly when it wraps an annotation whose target applies |
| AnnotationsUtils.ApplicableLength | idea/idea-frontend-fir/src/org/jetbrains/kotlin/idea/asJava/annotations/annotationsUtils.kt:114-121 | the filtered list is no longer than the input, equals the wrapped input when all apply and is empty when none does |
| AnnotationsUtils.ComputeAnnotations | idea/idea-frontend-fir/src/org/jetbrains/kotlin/idea/asJava/annotations/annotationsUtils.kt:94-128 | the result is the applicable annotations in order followed by exactly one nullability annotation iff nullability is known; its length is their count plus 0 or 1; empty for Unknown with no annotations |
| FirUtils.OverriddenDeclaration | idea/idea-frontend-fir/src/org/jetbrains/kotlin/idea/frontend/api/fir/utils/firUtils.kt:23-27 | null when the declaration is not a symbol owner or its symbol is not callable; otherwise the callable symbol's overridden declaration |
| FirUtils.ConvertConstant | idea/idea-frontend-fir/src/org/jetbrains/kotlin/idea/frontend/api/fir/utils/firUtils.kt:36-38 | `Simple(v)` exactly for a constant expression with non-null value `v`; every other expression and the null constant give `Unsupported` |
| FirUtils.ConvertArguments | idea/idea-frontend-fir/src/org/jetbrains/kotlin/idea/frontend/api/fir/utils/firUtils.kt:35-41 | same length and order as the mapping, each entry named by its parameter and valued by `ConvertConstant` |
| FirUtils.ConvertAnnotationCall | idea/idea-frontend-fir/src/org/jetbrains/kotlin/idea/frontend/api/fir/utils/firUtils.kt:29-43 | same use-site target; class id of a class-like type, else null; PSI only when it is a call element; a null mapping gives no arguments, otherwise one converted argument per entry in order |
| FirUtils.ConvertAnnotations | idea/idea-frontend-fir/src/org/jetbrains/kotlin/idea/frontend/api/fir/utils/firUtils.kt:45-48 | exactly one converted record per annotation call, in the same order |
| FirUtils.ConvertedFirstSelected | idea/idea-frontend-fir/src/org/jetbrains/kotlin/idea/frontend/api/fir/utils/firUtils.kt:29-48 | on the converted list, the first applicable annotation of a class id is the one found on the FIR calls, and `hasAnnotation` agrees with the FIR calls |
| FirUtils.ConvertedJvmName | idea/idea-frontend-fir/src/org/jetbrains/kotlin/idea/frontend/api/fir/utils/firUtils.kt:29-48 | the JVM name read off converted annotations is `s` exactly when the first applicable FIR `@JvmName` call's first mapping entry is the String constant `s`; null when no FIR call is an applicable JvmName |
| Strings.StartsWithConcat | idea/idea-gradle/tests/org/jetbrains/kotlin/gradle/ImportAndCheckNavigation.kt:96-102 | `startsWith` holds exactly when the string is the prefix followed by some rest |
| Strings.EndsWithConcat | idea/idea-gradle/tests/org/jetbrains/kotlin/gradle/ImportAndCheckNavigation.kt:97 | the `endsWith` test inside `removeSuffix` holds exactly when the string is some rest followed by the suffix |
| Strings.ContainsIff | idea/idea-gradle/tests/org/jetbrains/kotlin/gradle/ImportAndCheckNavigation.kt:66 | `theRest in gradleOutput` holds exactly when the text occurs in the output at some index |
| Strings.IsBlankIff | idea/idea-gradle/tests/org/jetbrains/kotlin/gradle/ImportAndCheckNavigation.kt:72 | a string is blank exactly when trimming its whitespace leaves the empty string |
| ImportAndCheckNavigation.IsNullOrBlankIff | idea/idea-gradle/tests/org/jetbrains/kotlin/gradle/ImportAndCheckNavigation.kt:72 | `isNullOrBlank` holds exactly for null or for a string that trims to empty |
| Strings.IndexOfChar | idea/idea-gradle/tests/org/jetbrains/kotlin/gradle/ImportAndCheckNavigation.kt:61 | -1 exactly when the character is absent; otherwise the index of its first occurrence |
| Strings.IndexOf | idea/idea-gradle/tests/org/jetbrains/kotlin/gradle/ImportAndCheckNavigation.kt:66 | -1 exactly when the substring occurs nowhere; otherwise the first index where it occurs |
| Strings.RemovePrefix | idea/idea-gradle/tests/org/jetbrains/kotlin/gradle/ImportAndCheckNavigation.kt:97-99 | with the prefix present, prefix + result is the input; otherwise the input unchanged |
| Strings.RemoveSuffix | idea/idea-gradle/tests/org/jetbrains/kotlin/gradle/ImportAndCheckNavigation.kt:97 | with the suffix present, result + suffix is the input; otherwise the input unchanged |
| Strings.LeadingCount | idea/idea-gradle/tests/org/jetbrains/kotlin/gradle/ImportAndCheckNavigation.kt:103 | the length of the longest prefix made of trimmed characters: all of them are, and the next one is not |
| Strings.TrailingCount | idea/idea-gradle/tests/org/jetbrains/kotlin/gradle/ImportAndCheckNavigation.kt:100 | the length of the longest suffix made of trimmed characters: all of them are, and the one before is not |
| Strings.TrimStart | idea/idea-gradle/tests/org/jetbrains/kotlin/gradle/ImportAndCheckNavigation.kt:103 | a suffix of the input whose dropped prefix consists of trimmed characters and which does not start with one |
| Strings.TrimEnd | idea/idea-gradle/tests/org/jetbrains/kotlin/gradle/ImportAndCheckNavigation.kt:100 | a prefix of the input whose dropped suffix consists of trimmed characters and which does not end with one |
| Strings.TrimIsTrimEndOfTrimStart | idea/idea-gradle/tests/org/jetbrains/kotlin/gradle/ImportAndCheckNavigation.kt:100 | `trim` is `trimEnd` after `trimStart`: a second characterisation of the call, independent of the window description |
| Strings.Trim | idea/idea-gradle/tests/org/jetbrains/kotlin/gradle/ImportAndCheckNavigation.kt:100 | a window of the input with only trimmed characters outside it and none at either end |
| Strings.TrimmedOfUnique | idea/idea-gradle/tests/org/jetbrains/kotlin/gradle/ImportAndCheckNavigation.kt:100 | that description of trimming admits exactly one result, so it pins `Trim` down |
| Strings.SubstringAfter | idea/idea-gradle/tests/org/jetbrains/kotlin/gradle/ImportAndCheckNavigation.kt:103 | a suffix of the input: the text after the first occurrence of the delimiter, found by `IndexOf`; the text after the delimiter when the input starts with it; the whole input when the delimiter does not occur |
| ImportAndCheckNavigation.CompactErrorMessage | idea/idea-gradle/tests/org/jetbrains/kotlin/gradle/ImportAndCheckNavigation.kt:61-68 | never longer than and always a prefix of the message; the message itself without a newline; with one, its first line iff the text after the first newline occurs in the Gradle output, else the full message |
| ImportAndCheckNavigation.DetailsLine | idea/idea-gradle/tests/org/jetbrains/kotlin/gradle/ImportAndCheckNavigation.kt:72-73 | empty exactly when the details are null or blank; otherwise `"Error details: " + details + "\n"` |
| ImportAndCheckNavigation.FailureHeader | idea/idea-gradle/tests/org/jetbrains/kotlin/gradle/ImportAndCheckNavigation.kt:71 | starts with `"Gradle import failed: "`, ends with a newline and holds exactly the compact message between them |
| ImportAndCheckNavigation.FailureFooter | idea/idea-gradle/tests/org/jetbrains/kotlin/gradle/ImportAndCheckNavigation.kt:74-75 | `"Gradle process output:\n"` followed by exactly the Gradle output |
| ImportAndCheckNavigation.BuildFailureMessage | idea/idea-gradle/tests/org/jetbrains/kotlin/gradle/ImportAndCheckNavigation.kt:70-76 | the appends produce header, then the details line only for non-blank details, then the footer with the Gradle output |
| ImportAndCheckNavigation.HandleImportFailure | idea/idea-gradle/tests/org/jetbrains/kotlin/gradle/ImportAndCheckNavigation.kt:59-78 | the message the test fails with is the header around the compact error message, the optional details line and the Gradle output |
| ImportAndCheckNavigation.CommentBody | idea/idea-gradle/tests/org/jetbrains/kotlin/gradle/ImportAndCheckNavigation.kt:96-99 | a `/*` comment loses `/*` and a trailing `*/` when present; any other comment loses a leading `//` when present |
| ImportAndCheckNavigation.UnwrapComment | idea/idea-gradle/tests/org/jetbrains/kotlin/gradle/ImportAndCheckNavigation.kt:96-100 | the result is the comment body with a whitespace-only prefix and a whitespace-only suffix removed, the window being unique |
| ImportAndCheckNavigation.UnwrappedHasNoOuterWhitespace | idea/idea-gradle/tests/org/jetbrains/kotlin/gradle/ImportAndCheckNavigation.kt:96-100 | the unwrapped text neither starts nor ends with whitespace |
| ImportAndCheckNavigation.ExpectedElementText | idea/idea-gradle/tests/org/jetbrains/kotlin/gradle/ImportAndCheckNavigation.kt:102-103 | present exactly when the text starts with `NAVIGATION-TARGET:` |
| ImportAndCheckNavigation.ExpectedTextFollowsMarker | idea/idea-gradle/tests/org/jetbrains/kotlin/gradle/ImportAndCheckNavigation.kt:102-103 | for a marker comment, the expected text is the end of the text, separated from the marker only by whitespace, and does not start with whitespace |
| ImportAndCheckNavigation.VisitComment | idea/idea-gradle/tests/org/jetbrains/kotlin/gradle/ImportAndCheckNavigation.kt:93-126 | a marker comment sets its expected text for the reference after it; a comment without text or marker leaves the map unchanged |
| ImportAndCheckNavigation.CollectedReferencesKeys | idea/idea-gradle/tests/org/jetbrains/kotlin/gradle/ImportAndCheckNavigation.kt:83-124 | a reference is a key of the map exactly when some marker comment precedes it |
| ImportAndCheckNavigation.CollectedReferencesValues | idea/idea-gradle/tests/org/jetbrains/kotlin/gradle/ImportAndCheckNavigation.kt:124 | a key is mapped to the expected text of the last marker comment before it (later assignments overwrite) |
| ImportAndCheckNavigation.MarksOfIndex | idea/idea-gradle/tests/org/jetbrains/kotlin/gradle/ImportAndCheckNavigation.kt:92-126 | the visitor sees one mark per comment, in document order |
| ImportAndCheckNavigation.CollectReferencesSpecKotlin | idea/idea-gradle/tests/org/jetbrains/kotlin/gradle/ImportAndCheckNavigation.kt:80-132 | for a `kt` file: keys exactly the references after marker comments, each with the last such comment's expected text |
| ImportAndCheckNavigation.NonKotlinFilesAreSkipped | idea/idea-gradle/tests/org/jetbrains/kotlin/gradle/ImportAndCheckNavigation.kt:81 | a file whose extension is not `kt` yields the empty map |
| ImportAndCheckNavigation.CollectReferencesToTest | idea/idea-gradle/tests/org/jetbrains/kotlin/gradle/ImportAndCheckNavigation.kt:80-132 | the loop over the comments returns exactly the specified map; empty for non-`kt` files |
| ImportAndCheckNavigation.RelPath | idea/idea-gradle/tests/org/jetbrains/kotlin/gradle/ImportAndCheckNavigation.kt:134-135 | the file name without a canonical path; otherwise a suffix of the path left after removing the project path (only if it is a prefix), from which only leading `/` and `\` were dropped, not starting with either |

## Left out

- `AbstractContinuationStackTraceTest.kt` is not part of this model: it drives a live debuggee and the coroutine stack-trace provider.
- Project import, PSI parsing, `resolve()`, `findReferenceAt` and `PsiTreeUtil.skipSiblingsForward`: each comment carries, as an input, the reference found after it.
- `runReadAction` and `runInEdtAndGet` thread dispatch, and `GradleProcessOutputInterceptor`: the Gradle output is a parameter (the caller passes `""` when there is no interceptor, as `orEmpty()` does).
- The `assert*` calls and `fail`: `HandleImportFailure` returns the message it would fail with; the check that the expected text is non-empty and the null checks on the PSI file, next element and reference are not modelled. `testNavigationToCommonizedLibrary`, which only resolves references and asserts, is not modelled.
- The iteration order of the `LinkedHashMap` in `collectReferencesToTest`: the result is a Dafny `map`, so only keys and values are modelled.
- FIR lazy resolution (`firRef.withFir(FirResolvePhase.TYPES)`) and the `require(this is KtFirSymbol<*>)` cast: `IsHiddenByDeprecation` takes the resolved FIR declaration.
- `FirLightSimpleAnnotation` and `FirLightAnnotationForAnnotationCall` are records that remember their class name or source annotation and parent; their PSI behaviour is host code.
- The compiler's symbol table behind `overriddenSymbol?.fir`: a callable symbol carries its overridden declaration directly.
- The discarded read `it.argumentList.arguments` in `convertAnnotation(declaration)` has no effect and is not modelled.
- Floating-point constants are kept as opaque bits; no floating-point semantics is modelled.
- Unicode character classification: `Char.isWhitespace` is a fixed list of the JVM's whitespace and space-separator characters rather than derived from Unicode data.
- Strings are sequences of Unicode scalar values, while JVM strings are UTF-16 code units: on text with supplementary characters the indices of `indexOf` and `substring` differ, and lone surrogates cannot be written; on such text only the results, not the indices, agree with the JVM. No case folding is modelled, as the source uses none.
- Integer constants keep their kind (`Byte` to `ULong`) and their mathematical value; the kind's range is not enforced. Floating constants keep only whether they are `Float` or `Double` and their bits.
