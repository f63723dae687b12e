/**
 * The host types the annotation code works on, reduced to plain values:
 * the light annotation calls of the symbol API (`KtAnnotationCall` with its
 * constant arguments) and the compiler-side FIR trees they are made from
 * (annotation calls with an argument mapping, declarations and symbols).
 * PSI elements are opaque tokens.
 */
module AnnotationModel {
  import opened Wrappers

  /** A class id in its string form, such as "kotlin/jvm/JvmName". */
  type ClassId = string

  /** Kotlin's `AnnotationUseSiteTarget`: the `field:`, `get:`, ... prefix of an annotation. */
  datatype UseSiteTarget =
    | Field | File | Property | PropertyGetter | PropertySetter | Receiver
    | ConstructorParameter | SetterParameter | PropertyDelegateField

  /** An opaque PSI element; only whether it is a call element matters here. */
  datatype PsiNode = CallElement(id: nat) | OtherElement(id: nat)

  /** The kind of an integer constant, so that `1` and `1L` stay different values. */
  datatype IntegerKind = ByteKind | ShortKind | IntKind | LongKind | UByteKind | UShortKind | UIntKind | ULongKind

  /** A non-null compile-time constant. Floating-point values are kept as opaque bits
      of a `Float` or a `Double`. */
  datatype Constant =
    | StringConst(s: string)
    | IntegerConst(kind: IntegerKind, i: int)
    | BooleanConst(b: bool)
    | CharConst(c: char)
    | FloatingConst(isDouble: bool, bits: nat)

  /** `KtSimpleConstantValue` or `KtUnsupportedConstantValue`. */
  datatype ConstantValue = Simple(constant: Constant) | Unsupported

  /** `KtNamedConstantValue`: an annotation argument with its parameter's name. */
  datatype NamedConstantValue = NamedConstantValue(name: string, expression: ConstantValue)

  /** `KtAnnotationCall` as the symbol API exposes it. */
  datatype KtAnnotationCall = KtAnnotationCall(
    classId: Option<ClassId>,
    useSiteTarget: Option<UseSiteTarget>,
    psi: Option<PsiNode>,
    arguments: seq<NamedConstantValue>)

  /** The resolved type of an annotation call: class-like (with its class id) or not. */
  datatype ConeType = ClassLikeType(classId: ClassId) | OtherType

  /** The FIR argument expressions the code distinguishes. A constant expression's
      value is `None` for the `null` literal. A qualified access keeps the class id of
      a resolved-qualifier receiver and the name of a resolved callee, each `None`
      when the receiver or callee is of another kind. */
  datatype FirExpression =
    | ConstExpression(value: Option<Constant>)
    | NamedArgumentExpression(expression: FirExpression)
    | QualifiedAccessExpression(receiverClassId: Option<ClassId>, calleeName: Option<string>)
    | OtherExpression

  datatype ValueParameter = ValueParameter(name: string)

  /** `FirAnnotationCall`. The argument mapping is `None` when the call is not
      resolved; otherwise it lists (argument, parameter) pairs in insertion order. */
  datatype FirAnnotationCall = FirAnnotationCall(
    annotationType: ConeType,
    useSiteTarget: Option<UseSiteTarget>,
    psi: Option<PsiNode>,
    argumentMapping: Option<seq<(FirExpression, ValueParameter)>>)

  /** A FIR declaration: `annotations` is `None` when it is not a
      `FirAnnotatedDeclaration`, `symbol` is `None` when it is not a symbol owner. */
  datatype FirDeclaration = FirDeclaration(
    annotations: Option<seq<FirAnnotationCall>>,
    symbol: Option<FirSymbol>)

  /** A declaration's symbol; a callable symbol may know the declaration it overrides. */
  datatype FirSymbol = CallableSymbol(overridden: Option<FirDeclaration>) | OtherSymbol

  /** `annotationCall.classId`: the class id of the annotation's type when it is class-like. */
  function FirClassId(call: FirAnnotationCall): Option<ClassId> {
    match call.annotationType
    case ClassLikeType(id) => Some(id)
    case OtherType => None
  }

  /** An annotation with use-site target `useSite` is seen when `requested` is asked for:
      it has no target of its own, or the same one. */
  predicate Applies(useSite: Option<UseSiteTarget>, requested: Option<UseSiteTarget>) {
    useSite.None? || useSite == requested
  }
}
