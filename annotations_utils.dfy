/**
 * Annotation queries on an annotated symbol: whether an annotation with a
 * given class id is present for a use-site target, the name given by
 * `@JvmName`, whether `@Deprecated(level = HIDDEN)` hides the declaration,
 * and the list of light (PSI-facing) annotations of a symbol.
 *
 * Throughout, an annotation is considered for a requested use-site target
 * when it has no target of its own or exactly that one (`Applies`).
 */
module AnnotationsUtils {
  import opened Wrappers
  import opened AnnotationModel

  const JvmSynthetic: ClassId := "kotlin/jvm/JvmSynthetic"
  const JvmName: ClassId := "kotlin/jvm/JvmName"
  const JvmField: ClassId := "kotlin/jvm/JvmField"
  const JvmOverloads: ClassId := "kotlin/jvm/JvmOverloads"
  const JvmStatic: ClassId := "kotlin/jvm/JvmStatic"
  const InlineOnly: ClassId := "kotlin/internal/InlineOnly"
  const Deprecated: ClassId := "kotlin/Deprecated"
  const DeprecationLevel: ClassId := "kotlin/DeprecationLevel"

  /** `a` is an annotation of class `id` that is seen for target `t`. */
  predicate Selects(a: KtAnnotationCall, id: ClassId, t: Option<UseSiteTarget>) {
    Applies(a.useSiteTarget, t) && a.classId == Some(id)
  }

  /** `hasAnnotation(classIdString, annotationUseSiteTarget)` */
  function HasAnnotation(annotations: seq<KtAnnotationCall>, id: ClassId, t: Option<UseSiteTarget>): (r: bool)
    ensures r <==> exists i :: 0 <= i < |annotations| && Selects(annotations[i], id, t)
  {
    if |annotations| == 0 then false
    else
      assert forall i :: 1 <= i < |annotations| ==> annotations[i] == annotations[1..][i - 1];
      Selects(annotations[0], id, t) || HasAnnotation(annotations[1..], id, t)
  }

  /** `hasJvmSyntheticAnnotation(annotationUseSiteTarget)` */
  function HasJvmSyntheticAnnotation(annotations: seq<KtAnnotationCall>, t: Option<UseSiteTarget>): (r: bool)
    ensures r <==> exists i :: 0 <= i < |annotations| && annotations[i].classId == Some(JvmSynthetic) &&
                              (annotations[i].useSiteTarget.None? || annotations[i].useSiteTarget == t)
  {
    HasAnnotation(annotations, JvmSynthetic, t)
  }

  /** `hasJvmFieldAnnotation()`: asks for no target, so only untargeted annotations count. */
  function HasJvmFieldAnnotation(annotations: seq<KtAnnotationCall>): (r: bool)
    ensures r <==> exists i :: 0 <= i < |annotations| && annotations[i].classId == Some(JvmField) &&
                              annotations[i].useSiteTarget.None?
  {
    HasAnnotation(annotations, JvmField, None)
  }

  /** `hasJvmOverloadsAnnotation()` */
  function HasJvmOverloadsAnnotation(annotations: seq<KtAnnotationCall>): (r: bool)
    ensures r <==> exists i :: 0 <= i < |annotations| && annotations[i].classId == Some(JvmOverloads) &&
                              annotations[i].useSiteTarget.None?
  {
    HasAnnotation(annotations, JvmOverloads, None)
  }

  /** `hasJvmStaticAnnotation()` */
  function HasJvmStaticAnnotation(annotations: seq<KtAnnotationCall>): (r: bool)
    ensures r <==> exists i :: 0 <= i < |annotations| && annotations[i].classId == Some(JvmStatic) &&
                              annotations[i].useSiteTarget.None?
  {
    HasAnnotation(annotations, JvmStatic, None)
  }

  /** `hasInlineOnlyAnnotation()` */
  function HasInlineOnlyAnnotation(annotations: seq<KtAnnotationCall>): (r: bool)
    ensures r <==> exists i :: 0 <= i < |annotations| && annotations[i].classId == Some(InlineOnly) &&
                              annotations[i].useSiteTarget.None?
  {
    HasAnnotation(annotations, InlineOnly, None)
  }

  /** Index `i` holds the first annotation selected by `id` and `t`. */
  predicate IsFirstSelected(annotations: seq<KtAnnotationCall>, id: ClassId, t: Option<UseSiteTarget>, i: int) {
    0 <= i < |annotations| && Selects(annotations[i], id, t) &&
    forall j :: 0 <= j < i ==> !Selects(annotations[j], id, t)
  }

  /** `annotations.firstOrNull { ... }`, as the index of the element found. */
  function FirstSelected(annotations: seq<KtAnnotationCall>, id: ClassId, t: Option<UseSiteTarget>): (r: Option<nat>)
    ensures r.Some? ==> IsFirstSelected(annotations, id, t, r.value)
    ensures r.None? <==> !HasAnnotation(annotations, id, t)
  {
    if |annotations| == 0 then None
    else if Selects(annotations[0], id, t) then Some(0)
    else match FirstSelected(annotations[1..], id, t)
      case None => None
      case Some(k) =>
        assert forall j :: 1 <= j <= k ==> annotations[j] == annotations[1..][j - 1];
        Some(k + 1)
  }

  /** At most one index holds the first selected annotation. */
  lemma FirstSelectedUnique(annotations: seq<KtAnnotationCall>, id: ClassId, t: Option<UseSiteTarget>, i: int, j: int)
    requires IsFirstSelected(annotations, id, t, i) && IsFirstSelected(annotations, id, t, j)
    ensures i == j
  {
    assert !(i < j) && !(j < i);
  }

  /** The index holding the first selected annotation is the one `FirstSelected` finds. */
  lemma FirstSelectedIs(annotations: seq<KtAnnotationCall>, id: ClassId, t: Option<UseSiteTarget>, i: int)
    requires IsFirstSelected(annotations, id, t, i)
    ensures FirstSelected(annotations, id, t) == Some(i)
  {
    assert HasAnnotation(annotations, id, t) by { assert Selects(annotations[i], id, t); }
    FirstSelectedUnique(annotations, id, t, FirstSelected(annotations, id, t).value, i);
  }

  lemma FirstSelectedInPrefix(a: seq<KtAnnotationCall>, b: seq<KtAnnotationCall>,
                              id: ClassId, t: Option<UseSiteTarget>, i: int)
    requires IsFirstSelected(a, id, t, i)
    ensures IsFirstSelected(a + b, id, t, i)
  {
    assert forall j :: 0 <= j <= i ==> (a + b)[j] == a[j];
  }

  lemma FirstSelectedInSuffix(a: seq<KtAnnotationCall>, b: seq<KtAnnotationCall>,
                              id: ClassId, t: Option<UseSiteTarget>, k: int)
    requires !HasAnnotation(a, id, t) && IsFirstSelected(b, id, t, k)
    ensures IsFirstSelected(a + b, id, t, |a| + k)
  {
    var ab := a + b;
    forall j | 0 <= j < |a| + k ensures !Selects(ab[j], id, t) {
      if j < |a| { assert ab[j] == a[j]; } else { assert ab[j] == b[j - |a|]; }
    }
    assert ab[|a| + k] == b[k];
  }

  lemma NoneSelectedInAppend(a: seq<KtAnnotationCall>, b: seq<KtAnnotationCall>,
                             id: ClassId, t: Option<UseSiteTarget>)
    requires !HasAnnotation(a, id, t) && !HasAnnotation(b, id, t)
    ensures !HasAnnotation(a + b, id, t)
  {
    var ab := a + b;
    forall j | 0 <= j < |ab| ensures !Selects(ab[j], id, t) {
      if j < |a| { assert ab[j] == a[j]; } else { assert ab[j] == b[j - |a|]; }
    }
  }

  /** The first selected annotation of `a + b` is the first of `a`, or else the first of `b`. */
  lemma {:induction false} FirstSelectedAppend(a: seq<KtAnnotationCall>, b: seq<KtAnnotationCall>,
                                               id: ClassId, t: Option<UseSiteTarget>)
    ensures FirstSelected(a, id, t).Some? ==> FirstSelected(a + b, id, t) == FirstSelected(a, id, t)
    ensures FirstSelected(a, id, t).None? && FirstSelected(b, id, t).Some? ==>
            FirstSelected(a + b, id, t) == Some(|a| + FirstSelected(b, id, t).value)
    ensures FirstSelected(a, id, t).None? && FirstSelected(b, id, t).None? ==>
            FirstSelected(a + b, id, t).None?
  {
    var fa, fb := FirstSelected(a, id, t), FirstSelected(b, id, t);
    if fa.Some? {
      FirstSelectedInPrefix(a, b, id, t, fa.value);
      FirstSelectedIs(a + b, id, t, fa.value);
    } else if fb.Some? {
      FirstSelectedInSuffix(a, b, id, t, fb.value);
      FirstSelectedIs(a + b, id, t, |a| + fb.value);
    } else {
      NoneSelectedInAppend(a, b, id, t);
    }
  }

  /** The string held by the first argument, when it is a simple String constant:
      `(arguments.firstOrNull()?.expression as? KtSimpleConstantValue<*>)?.constant as? String` */
  function FirstStringArgument(arguments: seq<NamedConstantValue>): (r: Option<string>)
    ensures r.Some? ==> |arguments| > 0 && arguments[0].expression == Simple(StringConst(r.value))
    ensures r.None? ==> |arguments| == 0 || !(arguments[0].expression.Simple? && arguments[0].expression.constant.StringConst?)
  {
    if |arguments| > 0 then
      match arguments[0].expression
      case Simple(StringConst(s)) => Some(s)
      case _ => None
    else None
  }

  /** `getJvmNameFromAnnotation(annotationUseSiteTarget)`: only the first selected
      `@JvmName` is looked at, and it yields a name only through a String first argument. */
  function GetJvmNameFromAnnotation(annotations: seq<KtAnnotationCall>, t: Option<UseSiteTarget> := None): (r: Option<string>)
    ensures r.Some? ==> HasAnnotation(annotations, JvmName, t)
    ensures !HasAnnotation(annotations, JvmName, t) ==> r.None?
    ensures forall i :: IsFirstSelected(annotations, JvmName, t, i) ==>
              r == FirstStringArgument(annotations[i].arguments)
  {
    match FirstSelected(annotations, JvmName, t)
    case None => None
    case Some(i) => FirstStringArgument(annotations[i].arguments)
  }

  /** Annotations after the first selected `@JvmName` do not change the name. */
  lemma JvmNameIgnoresLater(annotations: seq<KtAnnotationCall>, later: seq<KtAnnotationCall>, t: Option<UseSiteTarget>)
    requires HasAnnotation(annotations, JvmName, t)
    ensures GetJvmNameFromAnnotation(annotations + later, t) == GetJvmNameFromAnnotation(annotations, t)
  {
    FirstSelectedAppend(annotations, later, JvmName, t);
    assert forall i :: 0 <= i < |annotations| ==> (annotations + later)[i] == annotations[i];
  }

  /** Annotations before the list that are not selected do not change the name. */
  lemma JvmNameSkipsUnselected(earlier: seq<KtAnnotationCall>, annotations: seq<KtAnnotationCall>, t: Option<UseSiteTarget>)
    requires !HasAnnotation(earlier, JvmName, t)
    ensures GetJvmNameFromAnnotation(earlier + annotations, t) == GetJvmNameFromAnnotation(annotations, t)
  {
    FirstSelectedAppend(earlier, annotations, JvmName, t);
    assert forall k :: 0 <= k < |annotations| ==> (earlier + annotations)[|earlier| + k] == annotations[k];
  }

  // ---- isHiddenByDeprecation, on the FIR declaration ----

  /** The FIR annotation call `c` is of class `id` and seen for target `t`. */
  predicate FirSelects(c: FirAnnotationCall, id: ClassId, t: Option<UseSiteTarget>) {
    Applies(c.useSiteTarget, t) && FirClassId(c) == Some(id)
  }

  predicate IsFirstFirSelected(calls: seq<FirAnnotationCall>, id: ClassId, t: Option<UseSiteTarget>, i: int) {
    0 <= i < |calls| && FirSelects(calls[i], id, t) &&
    forall j :: 0 <= j < i ==> !FirSelects(calls[j], id, t)
  }

  /** At most one index holds the first selected FIR call. */
  lemma FirstFirSelectedUnique(calls: seq<FirAnnotationCall>, id: ClassId, t: Option<UseSiteTarget>, i: int, j: int)
    requires IsFirstFirSelected(calls, id, t, i) && IsFirstFirSelected(calls, id, t, j)
    ensures i == j
  {
    assert !(i < j) && !(j < i);
  }

  /** `it.annotations.firstOrNull { ... }` on FIR annotation calls, as an index. */
  function FirstFirSelected(calls: seq<FirAnnotationCall>, id: ClassId, t: Option<UseSiteTarget>): (r: Option<nat>)
    ensures r.Some? ==> IsFirstFirSelected(calls, id, t, r.value)
    ensures r.None? <==> forall i :: 0 <= i < |calls| ==> !FirSelects(calls[i], id, t)
  {
    if |calls| == 0 then None
    else if FirSelects(calls[0], id, t) then Some(0)
    else
      assert forall i :: 1 <= i < |calls| ==> calls[i] == calls[1..][i - 1];
      match FirstFirSelected(calls[1..], id, t)
      case None => None
      case Some(k) => Some(k + 1)
  }

  /** One entry of a `@Deprecated` call's argument mapping reads `level = DeprecationLevel.HIDDEN`. */
  predicate IsHiddenLevel(entry: (FirExpression, ValueParameter)) {
    entry.1.name == "level" &&
    entry.0.NamedArgumentExpression? &&
    entry.0.expression.QualifiedAccessExpression? &&
    entry.0.expression.receiverClassId == Some(DeprecationLevel) &&
    entry.0.expression.calleeName == Some("HIDDEN")
  }

  /** `deprecatedCallArguments.any { ... }` */
  function AnyHiddenLevel(mapping: seq<(FirExpression, ValueParameter)>): (r: bool)
    ensures r <==> exists k :: 0 <= k < |mapping| && IsHiddenLevel(mapping[k])
  {
    if |mapping| == 0 then false
    else
      assert forall k :: 1 <= k < |mapping| ==> mapping[k] == mapping[1..][k - 1];
      IsHiddenLevel(mapping[0]) || AnyHiddenLevel(mapping[1..])
  }

  /** An argument mapping exists and one of its entries is `level = DeprecationLevel.HIDDEN`. */
  predicate DeclaresHiddenLevel(mapping: Option<seq<(FirExpression, ValueParameter)>>) {
    mapping.Some? && exists k :: 0 <= k < |mapping.value| && IsHiddenLevel(mapping.value[k])
  }

  /** `isHiddenByDeprecation(annotationUseSiteTarget)` on the resolved FIR declaration. */
  function IsHiddenByDeprecation(declaration: FirDeclaration, t: Option<UseSiteTarget>): (r: bool)
    ensures r <==> declaration.annotations.Some? &&
                   exists i :: IsFirstFirSelected(declaration.annotations.value, Deprecated, t, i) &&
                               DeclaresHiddenLevel(declaration.annotations.value[i].argumentMapping)
    ensures declaration.annotations.None? ==> !r
    ensures (declaration.annotations.Some? &&
             forall i :: 0 <= i < |declaration.annotations.value| ==>
                         !FirSelects(declaration.annotations.value[i], Deprecated, t)) ==> !r
    ensures forall i :: (declaration.annotations.Some? &&
                         IsFirstFirSelected(declaration.annotations.value, Deprecated, t, i) &&
                         declaration.annotations.value[i].argumentMapping.None?) ==> !r
  {
    match declaration.annotations
    case None => false
    case Some(calls) =>
      match FirstFirSelected(calls, Deprecated, t)
      case None => false
      case Some(i) =>
        assert forall j :: IsFirstFirSelected(calls, Deprecated, t, j) ==> j == i by {
          forall j | IsFirstFirSelected(calls, Deprecated, t, j) ensures j == i {
            FirstFirSelectedUnique(calls, Deprecated, t, i, j);
          }
        }
        match calls[i].argumentMapping
        case None => false
        case Some(mapping) => AnyHiddenLevel(mapping)
  }

  /** Only the first selected `@Deprecated` counts: a HIDDEN level on a later one is ignored. */
  lemma HiddenOnlyByFirstDeprecated(calls: seq<FirAnnotationCall>, later: seq<FirAnnotationCall>,
                                    symbol: Option<FirSymbol>, t: Option<UseSiteTarget>)
    requires exists i :: 0 <= i < |calls| && FirSelects(calls[i], Deprecated, t)
    ensures IsHiddenByDeprecation(FirDeclaration(Some(calls + later), symbol), t) ==
            IsHiddenByDeprecation(FirDeclaration(Some(calls), symbol), t)
  {
    var first := FirstFirSelected(calls, Deprecated, t);
    var i := first.value;
    assert IsFirstFirSelected(calls + later, Deprecated, t, i) by {
      assert forall j :: 0 <= j <= i ==> (calls + later)[j] == calls[j];
    }
    assert (calls + later)[i] == calls[i];
    forall j | IsFirstFirSelected(calls + later, Deprecated, t, j) ensures j == i {
    }
  }

  // ---- computeAnnotations ----

  datatype NullabilityType = NotNull | Nullable | Unknown

  /** A light annotation: `FirLightSimpleAnnotation` (by qualified class name) or
      `FirLightAnnotationForAnnotationCall` (wrapping a symbol's annotation call). */
  datatype LightAnnotation =
    | LightSimpleAnnotation(qualifiedName: string, parent: PsiNode)
    | LightAnnotationForCall(call: KtAnnotationCall, parent: PsiNode)

  const NotNullName: string := "org.jetbrains.annotations.NotNull"
  const NullableName: string := "org.jetbrains.annotations.Nullable"

  /** The synthetic nullability annotation: none for `Unknown`, else one. */
  function NullabilityAnnotation(nullability: NullabilityType, parent: PsiNode): (r: Option<LightAnnotation>)
    ensures r.None? <==> nullability == Unknown
    ensures nullability == NotNull ==> r == Some(LightSimpleAnnotation(NotNullName, parent))
    ensures nullability == Nullable ==> r == Some(LightSimpleAnnotation(NullableName, parent))
  {
    match nullability
    case NotNull => Some(LightSimpleAnnotation(NotNullName, parent))
    case Nullable => Some(LightSimpleAnnotation(NullableName, parent))
    case Unknown => None
  }

  /** The list form of `NullabilityAnnotation`. */
  function NullabilityTail(nullability: NullabilityType, parent: PsiNode): seq<LightAnnotation> {
    match NullabilityAnnotation(nullability, parent)
    case Some(a) => [a]
    case None => []
  }

  /** The light annotations of the calls that apply to `t`, in their original order
      (specification of the loop in `computeAnnotations`). */
  function ApplicableAnnotations(annotations: seq<KtAnnotationCall>, parent: PsiNode, t: Option<UseSiteTarget>): seq<LightAnnotation>
  {
    if |annotations| == 0 then []
    else
      var last := annotations[|annotations| - 1];
      ApplicableAnnotations(annotations[..|annotations| - 1], parent, t) +
      (if Applies(last.useSiteTarget, t) then [LightAnnotationForCall(last, parent)] else [])
  }

  /** Filtering distributes over concatenation, so it keeps the original order. */
  lemma {:induction false} ApplicableAppend(a: seq<KtAnnotationCall>, b: seq<KtAnnotationCall>,
                                            parent: PsiNode, t: Option<UseSiteTarget>)
    ensures ApplicableAnnotations(a + b, parent, t) ==
            ApplicableAnnotations(a, parent, t) + ApplicableAnnotations(b, parent, t)
  {
    if |b| == 0 {
      assert a + b == a;
    } else {
      var b' := b[..|b| - 1];
      assert (a + b)[..|a + b| - 1] == a + b';
      assert (a + b)[|a + b| - 1] == b[|b| - 1];
      ApplicableAppend(a, b', parent, t);
    }
  }

  /** An element is in the filtered list exactly when it wraps an applicable call. */
  lemma {:induction false} ApplicableMembers(annotations: seq<KtAnnotationCall>, parent: PsiNode,
                                             t: Option<UseSiteTarget>, x: LightAnnotation)
    ensures x in ApplicableAnnotations(annotations, parent, t) <==>
            exists i :: 0 <= i < |annotations| && Applies(annotations[i].useSiteTarget, t) &&
                        x == LightAnnotationForCall(annotations[i], parent)
  {
    if |annotations| > 0 {
      var init := annotations[..|annotations| - 1];
      ApplicableMembers(init, parent, t, x);
      assert forall i :: 0 <= i < |init| ==> init[i] == annotations[i];
    }
  }

  /** The filtered list is never longer than the input; it keeps everything when
      every call applies and nothing when none does. */
  lemma {:induction false} ApplicableLength(annotations: seq<KtAnnotationCall>, parent: PsiNode, t: Option<UseSiteTarget>)
    ensures |ApplicableAnnotations(annotations, parent, t)| <= |annotations|
    ensures (forall i :: 0 <= i < |annotations| ==> Applies(annotations[i].useSiteTarget, t)) ==>
            ApplicableAnnotations(annotations, parent, t) ==
            seq(|annotations|, i requires 0 <= i < |annotations| => LightAnnotationForCall(annotations[i], parent))
    ensures (forall i :: 0 <= i < |annotations| ==> !Applies(annotations[i].useSiteTarget, t)) ==>
            ApplicableAnnotations(annotations, parent, t) == []
  {
    if |annotations| > 0 {
      var init := annotations[..|annotations| - 1];
      ApplicableLength(init, parent, t);
      assert forall i :: 0 <= i < |init| ==> init[i] == annotations[i];
    }
  }

  /** `computeAnnotations(parent, nullability, annotationUseSiteTarget)` */
  method ComputeAnnotations(annotations: seq<KtAnnotationCall>, parent: PsiNode,
                            nullability: NullabilityType, t: Option<UseSiteTarget>)
    returns (result: seq<LightAnnotation>)
    ensures result == ApplicableAnnotations(annotations, parent, t) + NullabilityTail(nullability, parent)
    ensures |result| == |ApplicableAnnotations(annotations, parent, t)| + (if nullability == Unknown then 0 else 1)
    ensures nullability == Unknown && annotations == [] ==> result == []
    ensures nullability == Unknown ==> result == ApplicableAnnotations(annotations, parent, t)
    ensures nullability == NotNull ==> result[|result| - 1] == LightSimpleAnnotation(NotNullName, parent)
    ensures nullability == Nullable ==> result[|result| - 1] == LightSimpleAnnotation(NullableName, parent)
  {
    if nullability == Unknown && |annotations| == 0 {
      return [];
    }
    var nullabilityAnnotation := NullabilityAnnotation(nullability, parent);
    if |annotations| == 0 {
      return if nullabilityAnnotation.Some? then [nullabilityAnnotation.value] else [];
    }
    result := [];
    for i := 0 to |annotations|
      invariant result == ApplicableAnnotations(annotations[..i], parent, t)
    {
      var annotation := annotations[i];
      assert annotations[..i + 1][..i] == annotations[..i];
      if Applies(annotation.useSiteTarget, t) {
        result := result + [LightAnnotationForCall(annotation, parent)];
      }
    }
    assert annotations[..|annotations|] == annotations;
    if nullabilityAnnotation.Some? {
      result := result + [nullabilityAnnotation.value];
    }
  }
}
