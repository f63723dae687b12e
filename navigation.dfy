/**
 * The string logic of the Gradle import-and-navigate test: compacting and
 * assembling the import-failure message, reading `NAVIGATION-TARGET:`
 * markers out of source comments into a reference map, and the relative
 * path of a file used in messages. The Gradle output, paths and comment
 * texts are plain inputs; the PSI reference that follows a comment is an
 * opaque token given with the comment.
 */
module ImportAndCheckNavigation {
  import opened Wrappers
  import opened Strings

  // ---- handleImportFailure ----

  /** The error message shortened to its first line when everything after the first
      newline already appears in the Gradle output. */
  function CompactErrorMessage(errorMessage: string, gradleOutput: string): (r: string)
    ensures |r| <= |errorMessage| && StartsWith(errorMessage, r)
    ensures '\n' !in errorMessage ==> r == errorMessage
    ensures forall i :: 0 <= i < |errorMessage| && errorMessage[i] == '\n' && '\n' !in errorMessage[..i] ==>
              r == (if Contains(gradleOutput, errorMessage[i + 1..]) then errorMessage[..i] else errorMessage)
    ensures r == errorMessage || '\n' !in r
  {
    var indexOfNewLine := IndexOfChar(errorMessage, '\n');
    if indexOfNewLine == -1 then errorMessage
    else
      var compactErrorMessage := errorMessage[..indexOfNewLine];
      var theRest := errorMessage[indexOfNewLine + 1..];
      assert compactErrorMessage[..indexOfNewLine] == compactErrorMessage;
      assert forall i :: 0 <= i < |errorMessage| && errorMessage[i] == '\n' && '\n' !in errorMessage[..i] ==>
                         i == indexOfNewLine by {
        forall i | 0 <= i < |errorMessage| && errorMessage[i] == '\n' && '\n' !in errorMessage[..i]
          ensures i == indexOfNewLine
        {
          FirstIndexUnique(errorMessage, '\n', i, indexOfNewLine);
        }
      }
      if Contains(gradleOutput, theRest) then compactErrorMessage else errorMessage
  }

  /** `errorDetails.isNullOrBlank()` */
  predicate IsNullOrBlank(s: Option<string>) {
    s.None? || IsBlank(s.value)
  }

  /** Null or blank: absent, or nothing left once whitespace is trimmed. */
  lemma IsNullOrBlankIff(s: Option<string>)
    ensures IsNullOrBlank(s) <==> s.None? || Trim(s.value, Whitespace) == []
  {
    if s.Some? {
      IsBlankIff(s.value);
    }
  }

  /** The optional "Error details" line of the failure message. */
  function DetailsLine(errorDetails: Option<string>): (r: string)
    ensures r == [] <==> IsNullOrBlank(errorDetails)
    ensures r != [] ==> r == "Error details: " + errorDetails.value + "\n"
  {
    if IsNullOrBlank(errorDetails) then [] else "Error details: " + errorDetails.value + "\n"
  }

  /** The first line of the failure message. */
  function FailureHeader(compactErrorMessage: string): (r: string)
    ensures StartsWith(r, "Gradle import failed: ") && EndsWith(r, "\n")
    ensures |r| == |"Gradle import failed: "| + |compactErrorMessage| + 1
    ensures r[|"Gradle import failed: "|..|r| - 1] == compactErrorMessage
  {
    "Gradle import failed: " + compactErrorMessage + "\n"
  }

  /** The last part of the failure message: the whole Gradle output under a heading. */
  function FailureFooter(gradleOutput: string): (r: string)
    ensures StartsWith(r, "Gradle process output:\n")
    ensures r[|"Gradle process output:\n"|..] == gradleOutput
  {
    "Gradle process output:\n" + gradleOutput
  }

  /** The `buildString { ... }` block of `handleImportFailure`: the header with the
      compact message, the details line when there are details, then the Gradle output. */
  method BuildFailureMessage(compactErrorMessage: string, errorDetails: Option<string>, gradleOutput: string)
    returns (failureMessage: string)
    ensures failureMessage == FailureHeader(compactErrorMessage) + DetailsLine(errorDetails) + FailureFooter(gradleOutput)
  {
    // the string being built by `buildString`, appended to step by step
    failureMessage := "";
    failureMessage := failureMessage + "Gradle import failed: ";
    failureMessage := failureMessage + compactErrorMessage;
    failureMessage := failureMessage + "\n";
    ghost var header := failureMessage;
    if !IsNullOrBlank(errorDetails) {
      failureMessage := failureMessage + "Error details: ";
      failureMessage := failureMessage + errorDetails.value;
      failureMessage := failureMessage + "\n";
    }
    ghost var withDetails := failureMessage;
    failureMessage := failureMessage + "Gradle process output:\n";
    failureMessage := failureMessage + gradleOutput;
    assert header == FailureHeader(compactErrorMessage);
    assert withDetails == header + DetailsLine(errorDetails);
    assert failureMessage == withDetails + FailureFooter(gradleOutput);
  }

  /** `handleImportFailure(errorMessage, errorDetails)`: the message the test fails with,
      given the output captured from the Gradle process. */
  method HandleImportFailure(errorMessage: string, errorDetails: Option<string>, gradleOutput: string)
    returns (failureMessage: string)
    ensures failureMessage ==
            FailureHeader(CompactErrorMessage(errorMessage, gradleOutput)) +
            DetailsLine(errorDetails) +
            FailureFooter(gradleOutput)
  {
    var compactErrorMessage := CompactErrorMessage(errorMessage, gradleOutput);
    failureMessage := BuildFailureMessage(compactErrorMessage, errorDetails, gradleOutput);
  }

  // ---- collectReferencesToTest ----

  const NavigationTargetMarker: string := "NAVIGATION-TARGET:"

  /** The comment text without its delimiters: a block comment loses `/*` and, when
      present, a closing `*/`; any other comment loses a leading `//` when present. */
  function CommentBody(text: string): (body: string)
    ensures StartsWith(text, "/*") && EndsWith(text[2..], "*/") ==> "/*" + body + "*/" == text
    ensures StartsWith(text, "/*") && !EndsWith(text[2..], "*/") ==> "/*" + body == text
    ensures !StartsWith(text, "/*") && StartsWith(text, "//") ==> "//" + body == text
    ensures !StartsWith(text, "/*") && !StartsWith(text, "//") ==> body == text
  {
    if StartsWith(text, "/*") then
      assert RemovePrefix(text, "/*") == text[2..];
      RemoveSuffix(RemovePrefix(text, "/*"), "*/")
    else RemovePrefix(text, "//")
  }

  /** The unwrapped comment text: its body with surrounding whitespace trimmed. */
  function UnwrapComment(text: string): (r: string)
    ensures TrimmedOf(CommentBody(text), r, Whitespace)
  {
    Trim(CommentBody(text), Whitespace)
  }

  /** The unwrapped text neither starts nor ends with whitespace. */
  lemma UnwrappedHasNoOuterWhitespace(text: string)
    ensures var r := UnwrapComment(text);
            r == [] || (r[0] !in Whitespace && r[|r| - 1] !in Whitespace)
  {
    var body := CommentBody(text);
    var r := UnwrapComment(text);
    var a: nat, b: nat :| TrimWindow(body, r, Whitespace, a, b);
  }

  /** The expected element text of a marker comment: what follows `NAVIGATION-TARGET:`,
      without leading whitespace; `None` when the comment is not a marker. */
  function ExpectedElementText(unwrapped: string): (r: Option<string>)
    ensures r.Some? <==> StartsWith(unwrapped, NavigationTargetMarker)
  {
    if StartsWith(unwrapped, NavigationTargetMarker) then
      Some(TrimStart(SubstringAfter(unwrapped, NavigationTargetMarker), Whitespace))
    else None
  }

  /** The expected text is the end of the marker comment, separated from the marker
      only by whitespace, and does not itself start with whitespace. */
  lemma ExpectedTextFollowsMarker(unwrapped: string)
    requires StartsWith(unwrapped, NavigationTargetMarker)
    ensures var expected := ExpectedElementText(unwrapped).value;
            |NavigationTargetMarker| + |expected| <= |unwrapped| &&
            expected == unwrapped[|unwrapped| - |expected|..] &&
            (forall k :: |NavigationTargetMarker| <= k < |unwrapped| - |expected| ==> unwrapped[k] in Whitespace) &&
            (expected == [] || expected[0] !in Whitespace)
  {
    TrimStartAfterPrefix(unwrapped, NavigationTargetMarker, Whitespace);
  }

  /** An opaque PSI reference. */
  datatype Reference = Reference(id: nat)

  /** A comment of the file, in document order: its text (`None` when the PSI has none)
      and the reference found in the first element after it that is neither
      whitespace nor a comment. */
  datatype Comment = Comment(text: Option<string>, nextReference: Reference)

  /** A project file as far as the test looks at it. */
  datatype VirtualFile = VirtualFile(
    name: string,
    extension: Option<string>,
    canonicalPath: Option<string>,
    comments: seq<Comment>)

  /** The expected text a comment contributes, if it is a marker comment. */
  function TargetOf(comment: Comment): Option<string> {
    match comment.text
    case None => None
    case Some(text) => ExpectedElementText(UnwrapComment(text))
  }

  /** What visiting one comment records: the reference after it and, for a marker
      comment, the expected text. */
  datatype Mark = Mark(reference: Reference, expected: Option<string>)

  function MarkOf(comment: Comment): Mark {
    Mark(comment.nextReference, TargetOf(comment))
  }

  /** The marks of the comments, in document order. */
  function MarksOf(comments: seq<Comment>): seq<Mark> {
    if |comments| == 0 then []
    else MarksOf(comments[..|comments| - 1]) + [MarkOf(comments[|comments| - 1])]
  }

  lemma {:induction false} MarksOfIndex(comments: seq<Comment>)
    ensures |MarksOf(comments)| == |comments|
    ensures forall i :: 0 <= i < |comments| ==> MarksOf(comments)[i] == MarkOf(comments[i])
  {
    if |comments| > 0 {
      var n := |comments| - 1;
      MarksOfIndex(comments[..n]);
      assert forall i :: 0 <= i < n ==> comments[..n][i] == comments[i];
    }
  }

  /** The reference map built from the marks in order; a later marker for the
      same reference overwrites an earlier one (specification of the visitor loop). */
  function CollectedReferences(marks: seq<Mark>): map<Reference, string> {
    if |marks| == 0 then map[]
    else
      var last := marks[|marks| - 1];
      var before := CollectedReferences(marks[..|marks| - 1]);
      match last.expected
      case Some(expected) => before[last.reference := expected]
      case None => before
  }

  /** Mark `i` is the last marker for `ref`. */
  predicate IsLastMarkerFor(marks: seq<Mark>, ref: Reference, i: int) {
    0 <= i < |marks| && marks[i].expected.Some? && marks[i].reference == ref &&
    forall j :: i < j < |marks| ==> !(marks[j].expected.Some? && marks[j].reference == ref)
  }

  /** A reference is in the map exactly when some marker comment precedes it. */
  lemma {:induction false} CollectedReferencesKeys(marks: seq<Mark>, ref: Reference)
    ensures ref in CollectedReferences(marks) <==>
            exists i :: 0 <= i < |marks| && marks[i].expected.Some? && marks[i].reference == ref
  {
    if |marks| > 0 {
      var n := |marks| - 1;
      CollectedReferencesKeys(marks[..n], ref);
      assert forall i :: 0 <= i < n ==> marks[..n][i] == marks[i];
    }
  }

  /** A reference in the map is mapped to the expected text of the last marker
      comment it follows. */
  lemma {:induction false} CollectedReferencesValues(marks: seq<Mark>, ref: Reference)
    requires ref in CollectedReferences(marks)
    ensures exists i :: IsLastMarkerFor(marks, ref, i) &&
                        marks[i].expected == Some(CollectedReferences(marks)[ref])
  {
    var n := |marks| - 1;
    var init := marks[..n];
    if marks[n].expected.Some? && marks[n].reference == ref {
      assert IsLastMarkerFor(marks, ref, n);
    } else {
      CollectedReferencesValues(init, ref);
      var i :| IsLastMarkerFor(init, ref, i) && init[i].expected == Some(CollectedReferences(init)[ref]);
      assert init[i] == marks[i];
      assert IsLastMarkerFor(marks, ref, i);
    }
  }

  /** What `collectReferencesToTest` returns for `file`. */
  function CollectReferencesSpec(file: VirtualFile): map<Reference, string> {
    if file.extension != Some("kt") then map[] else CollectedReferences(MarksOf(file.comments))
  }

  /** For a Kotlin file, the result holds a reference exactly when a marker comment precedes
      it, with the expected text of the last such comment. */
  lemma CollectReferencesSpecKotlin(file: VirtualFile, ref: Reference)
    requires file.extension == Some("kt")
    ensures ref in CollectReferencesSpec(file) <==>
            exists i :: 0 <= i < |file.comments| && MarkOf(file.comments[i]).expected.Some? &&
                        file.comments[i].nextReference == ref
    ensures ref in CollectReferencesSpec(file) ==>
            exists i :: 0 <= i < |file.comments| && IsLastMarkerFor(MarksOf(file.comments), ref, i) &&
                        MarkOf(file.comments[i]).expected == Some(CollectReferencesSpec(file)[ref])
  {
    var marks := MarksOf(file.comments);
    MarksOfIndex(file.comments);
    CollectedReferencesKeys(marks, ref);
    if ref in CollectedReferences(marks) {
      CollectedReferencesValues(marks, ref);
      var i :| IsLastMarkerFor(marks, ref, i) && marks[i].expected == Some(CollectedReferences(marks)[ref]);
      assert marks[i] == MarkOf(file.comments[i]);
    }
    if exists i :: 0 <= i < |file.comments| && MarkOf(file.comments[i]).expected.Some? &&
                   file.comments[i].nextReference == ref {
      var i :| 0 <= i < |file.comments| && MarkOf(file.comments[i]).expected.Some? &&
               file.comments[i].nextReference == ref;
      assert marks[i] == MarkOf(file.comments[i]);
    }
  }

  /** Files that are not Kotlin sources contribute nothing. */
  lemma NonKotlinFilesAreSkipped(file: VirtualFile)
    requires file.extension != Some("kt")
    ensures CollectReferencesSpec(file) == map[]
  {
  }

  /** `visitComment(comment)`: a marker comment records its expected text under the
      reference that follows it; any other comment leaves the map as it is. */
  method VisitComment(comment: Comment, referencesToTest: map<Reference, string>)
    returns (updated: map<Reference, string>)
    ensures TargetOf(comment).Some? ==> updated == referencesToTest[comment.nextReference := TargetOf(comment).value]
    ensures TargetOf(comment).None? ==> updated == referencesToTest
  {
    updated := referencesToTest;
    if comment.text.Some? {
      var unwrappedCommentText := UnwrapComment(comment.text.value);
      assert TargetOf(comment) == ExpectedElementText(unwrappedCommentText);
      if StartsWith(unwrappedCommentText, NavigationTargetMarker) {
        var expectedElementText := ExpectedElementText(unwrappedCommentText).value;
        updated := updated[comment.nextReference := expectedElementText];
      }
    }
  }

  /** `collectReferencesToTest()`: visits the comments in document order and records
      every marker comment's expected text under the reference that follows it. */
  method CollectReferencesToTest(file: VirtualFile) returns (referencesToTest: map<Reference, string>)
    ensures referencesToTest == CollectReferencesSpec(file)
    ensures file.extension != Some("kt") ==> referencesToTest == map[]
  {
    if file.extension != Some("kt") {
      return map[];
    }
    referencesToTest := map[];
    var comments := file.comments;
    for i := 0 to |comments|
      invariant referencesToTest == CollectedReferences(MarksOf(comments[..i]))
    {
      assert comments[..i + 1][..i] == comments[..i];
      referencesToTest := VisitComment(comments[i], referencesToTest);
    }
    assert comments[..|comments|] == comments;
  }

  // ---- relPath ----

  const PathSeparators: set<char> := {'/', '\\'}

  /** `relPath`: the canonical path without the project path prefix and without leading
      separators; the file name when there is no canonical path. */
  function RelPath(file: VirtualFile, projectPath: string): (r: string)
    ensures file.canonicalPath.None? ==> r == file.name
    ensures file.canonicalPath.Some? ==>
              var path := file.canonicalPath.value;
              var rest := if StartsWith(path, projectPath) then path[|projectPath|..] else path;
              |r| <= |rest| && r == rest[|rest| - |r|..] &&
              (forall k :: 0 <= k < |rest| - |r| ==> rest[k] in PathSeparators) &&
              (r == [] || r[0] !in PathSeparators)
  {
    match file.canonicalPath
    case None => file.name
    case Some(path) =>
      assert StartsWith(path, projectPath) ==> RemovePrefix(path, projectPath) == path[|projectPath|..];
      TrimStart(RemovePrefix(path, projectPath), PathSeparators)
  }
}
