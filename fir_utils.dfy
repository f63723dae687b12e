/**
 * Conversion of compiler-side FIR annotation calls into the light
 * `KtAnnotationCall` records of the symbol API, and the overridden
 * declaration of a FIR declaration.
 */
module FirUtils {
  import opened Wrappers
  import opened AnnotationModel
  import opened AnnotationsUtils

  /** `overriddenDeclaration`: only a symbol owner whose symbol is callable can name one. */
  function OverriddenDeclaration(declaration: FirDeclaration): (r: Option<FirDeclaration>)
    ensures declaration.symbol.None? ==> r.None?
    ensures (declaration.symbol.Some? && declaration.symbol.value.OtherSymbol?) ==> r.None?
    ensures r.Some? ==> declaration.symbol == Some(CallableSymbol(r))
    ensures (declaration.symbol.Some? && declaration.symbol.value.CallableSymbol?) ==>
            r == declaration.symbol.value.overridden
  {
    match declaration.symbol
    case None => None
    case Some(CallableSymbol(overridden)) => overridden
    case Some(OtherSymbol) => None
  }

  /** The value of one argument: a constant expression with a non-null value becomes
      `Simple(value)`; anything else, including the `null` literal, is `Unsupported`. */
  function ConvertConstant(expression: FirExpression): (v: ConstantValue)
    ensures v.Simple? <==> expression.ConstExpression? && expression.value.Some?
    ensures v.Simple? ==> expression == ConstExpression(Some(v.constant))
  {
    match expression
    case ConstExpression(Some(c)) => Simple(c)
    case _ => Unsupported
  }

  /** `argumentMapping.map { (expression, parameter) -> KtNamedConstantValue(...) }` */
  function ConvertArguments(mapping: seq<(FirExpression, ValueParameter)>): (r: seq<NamedConstantValue>)
    ensures |r| == |mapping|
    ensures forall k :: 0 <= k < |mapping| ==>
              r[k].name == mapping[k].1.name && r[k].expression == ConvertConstant(mapping[k].0)
  {
    if |mapping| == 0 then []
    else [NamedConstantValue(mapping[0].1.name, ConvertConstant(mapping[0].0))] + ConvertArguments(mapping[1..])
  }

  /** `convertAnnotation(annotationCall)` */
  function ConvertAnnotationCall(call: FirAnnotationCall): (r: KtAnnotationCall)
    ensures r.classId == (if call.annotationType.ClassLikeType? then Some(call.annotationType.classId) else None)
    ensures r.useSiteTarget == call.useSiteTarget
    ensures r.psi == (if call.psi.Some? && call.psi.value.CallElement? then call.psi else None)
    ensures call.argumentMapping.None? ==> r.arguments == []
    ensures call.argumentMapping.Some? ==>
              |r.arguments| == |call.argumentMapping.value| &&
              forall k :: 0 <= k < |r.arguments| ==>
                r.arguments[k].name == call.argumentMapping.value[k].1.name &&
                r.arguments[k].expression == ConvertConstant(call.argumentMapping.value[k].0)
  {
    var psi := match call.psi
      case Some(CallElement(id)) => call.psi
      case _ => None;
    var arguments := match call.argumentMapping
      case Some(mapping) => ConvertArguments(mapping)
      case None => [];
    KtAnnotationCall(FirClassId(call), call.useSiteTarget, psi, arguments)
  }

  /** `convertAnnotation(declaration)`: one record per annotation call, in order. */
  function ConvertAnnotations(declaration: FirDeclaration): (r: seq<KtAnnotationCall>)
    requires declaration.annotations.Some?
    ensures |r| == |declaration.annotations.value|
    ensures forall i :: 0 <= i < |r| ==> r[i] == ConvertAnnotationCall(declaration.annotations.value[i])
  {
    var calls := declaration.annotations.value;
    seq(|calls|, i requires 0 <= i < |calls| => ConvertAnnotationCall(calls[i]))
  }

  /** Conversion keeps exactly what annotation selection looks at. */
  lemma ConvertedSelects(call: FirAnnotationCall, id: ClassId, t: Option<UseSiteTarget>)
    ensures Selects(ConvertAnnotationCall(call), id, t) <==> FirSelects(call, id, t)
  {
  }

  /** Looking an annotation up on the converted list finds the same call as on the FIR list. */
  lemma ConvertedFirstSelected(declaration: FirDeclaration, id: ClassId, t: Option<UseSiteTarget>)
    requires declaration.annotations.Some?
    ensures FirstSelected(ConvertAnnotations(declaration), id, t) ==
            FirstFirSelected(declaration.annotations.value, id, t)
    ensures HasAnnotation(ConvertAnnotations(declaration), id, t) <==>
            exists i :: 0 <= i < |declaration.annotations.value| && FirSelects(declaration.annotations.value[i], id, t)
  {
    var calls := declaration.annotations.value;
    var converted := ConvertAnnotations(declaration);
    forall i | 0 <= i < |calls| ensures Selects(converted[i], id, t) <==> FirSelects(calls[i], id, t) {
      ConvertedSelects(calls[i], id, t);
    }
    var fir := FirstFirSelected(calls, id, t);
    var light := FirstSelected(converted, id, t);
    if fir.Some? {
      assert IsFirstSelected(converted, id, t, fir.value);
      assert light.Some?;
      assert !(light.value < fir.value) && !(fir.value < light.value);
    } else {
      assert forall i :: 0 <= i < |converted| ==> !Selects(converted[i], id, t);
    }
  }

  /** The FIR call's first mapped argument is the String constant `s`. */
  predicate FirstArgumentIsString(call: FirAnnotationCall, s: string) {
    call.argumentMapping.Some? && |call.argumentMapping.value| > 0 &&
    call.argumentMapping.value[0].0 == ConstExpression(Some(StringConst(s)))
  }

  /** The JVM name read off the converted annotations, in FIR terms: the first mapped
      argument of the first selected `@JvmName` call, when it is a String constant. */
  lemma ConvertedJvmName(declaration: FirDeclaration, t: Option<UseSiteTarget>)
    requires declaration.annotations.Some?
    ensures (forall i :: 0 <= i < |declaration.annotations.value| ==>
               !FirSelects(declaration.annotations.value[i], JvmName, t)) ==>
            GetJvmNameFromAnnotation(ConvertAnnotations(declaration), t) == None
    ensures forall i, s :: IsFirstFirSelected(declaration.annotations.value, JvmName, t, i) ==>
              (GetJvmNameFromAnnotation(ConvertAnnotations(declaration), t) == Some(s) <==>
               FirstArgumentIsString(declaration.annotations.value[i], s))
  {
    var calls := declaration.annotations.value;
    var converted := ConvertAnnotations(declaration);
    ConvertedFirstSelected(declaration, JvmName, t);
    forall i, s | IsFirstFirSelected(calls, JvmName, t, i)
      ensures GetJvmNameFromAnnotation(converted, t) == Some(s) <==> FirstArgumentIsString(calls[i], s)
    {
      assert FirstFirSelected(calls, JvmName, t) == Some(i) by {
        var f := FirstFirSelected(calls, JvmName, t);
        assert f.Some?;
        assert !(f.value < i) && !(i < f.value);
      }
      assert IsFirstSelected(converted, JvmName, t, i);
    }
  }
}
