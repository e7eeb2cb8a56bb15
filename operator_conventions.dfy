/**
 * The convention model: how an operator implementation receives its operands and returns
 * its result, the operator kinds a type may declare, and the structural view of a Java
 * method and of a method handle that the registration code inspects.
 */
module OperatorConventions {
  import opened Wrappers
  import opened JavaTypes

  /** How one logical operand is passed (`InvocationArgumentConvention`). */
  datatype ArgumentConvention =
    | NeverNull       // the native value; never null
    | NullFlag        // the native value followed by a boolean "is null" flag
    | BoxedNullable   // the boxed value; null encodes SQL NULL
    | BlockPosition   // a Block followed by an int position
    | Function        // a lambda; never valid for a type operator

  /** `InvocationArgumentConvention.getParameterCount`: Java parameters taken by one operand. */
  function ParameterCount(c: ArgumentConvention): nat
  {
    match c
    case NullFlag => 2
    case BlockPosition => 2
    case _ => 1
  }

  /** The sum of `ParameterCount` over a list of conventions. */
  function ParameterCountSum(cs: seq<ArgumentConvention>): nat
  {
    if cs == [] then 0 else ParameterCount(cs[0]) + ParameterCountSum(cs[1..])
  }

  lemma {:induction false} ParameterCountSumAppend(a: seq<ArgumentConvention>, b: seq<ArgumentConvention>)
    ensures ParameterCountSum(a + b) == ParameterCountSum(a) + ParameterCountSum(b)
  {
    if a == [] {
      assert a + b == b;
    } else {
      assert (a + b)[1..] == a[1..] + b;
      ParameterCountSumAppend(a[1..], b);
    }
  }

  /** How the result is returned (`InvocationReturnConvention`). */
  datatype ReturnConvention = FailOnNull | NullableReturn

  /** Argument conventions in operand order, and the return convention. */
  datatype InvocationConvention = InvocationConvention(
    argumentConventions: seq<ArgumentConvention>,
    returnConvention: ReturnConvention)

  /** The part of a `MethodHandle` that registration looks at: its `type()`, and a name for identity. */
  datatype MethodHandle = MethodHandle(target: string, parameterTypes: seq<JavaClass>, returnType: JavaClass)

  /** `OperatorMethodHandle`: a claimed calling convention paired with an implementation. */
  datatype OperatorMethodHandle = OperatorMethodHandle(callingConvention: InvocationConvention, methodHandle: MethodHandle)

  /** The nine operators a type operator declaration keeps a list for. */
  datatype OperatorKind =
    | Equal
    | HashCode
    | XxHash64
    | IsDistinctFrom
    | Indeterminate
    | ComparisonUnorderedLast
    | ComparisonUnorderedFirst
    | LessThan
    | LessThanOrEqual

  /** The number of operands each operator takes. */
  function Arity(kind: OperatorKind): nat
  {
    match kind
    case HashCode => 1
    case XxHash64 => 1
    case Indeterminate => 1
    case _ => 2
  }

  /** The primitive result type each operator must return. */
  function ReturnJavaType(kind: OperatorKind): JavaClass
  {
    match kind
    case HashCode => Primitive(Long)
    case XxHash64 => Primitive(Long)
    case ComparisonUnorderedLast => Primitive(Long)
    case ComparisonUnorderedFirst => Primitive(Long)
    case _ => Primitive(Boolean)
  }

  /** The value of a `@ScalarOperator` annotation: one of the nine, or any other `OperatorType` (ADD, CAST, ...). */
  datatype OperatorType = Operator(kind: OperatorKind) | OtherOperator(name: string)

  /** One declared parameter of a Java method, with the annotations the classifier looks for. */
  datatype Parameter = Parameter(
    parameterType: JavaClass,
    sqlNullable: bool,     // @SqlNullable
    blockPosition: bool,   // @BlockPosition
    blockIndex: bool,      // @BlockIndex
    isNull: bool)          // @IsNull

  /** A declared method of an operators class, as reflection shows it. */
  datatype JavaMethod = JavaMethod(
    name: string,
    parameters: seq<Parameter>,
    returnType: JavaClass,
    sqlNullable: bool,                       // @SqlNullable on the method
    scalarOperator: Option<OperatorType>,    // @ScalarOperator, if present
    isStatic: bool,                          // Modifier.isStatic
    declaringClass: JavaClass)               // the operators class that declares it

  function ParameterTypes(ps: seq<Parameter>): (ts: seq<JavaClass>)
    ensures |ts| == |ps|
    ensures forall i :: 0 <= i < |ps| ==> ts[i] == ps[i].parameterType
  {
    seq(|ps|, i requires 0 <= i < |ps| => ps[i].parameterType)
  }

  /**
   * `Lookup.unreflect`: the handle of a static method has the method's own parameter and
   * return types; the handle of an instance method takes the receiver, of the declaring
   * class, before them.
   */
  function Unreflect(m: JavaMethod): (h: MethodHandle)
    ensures m.isStatic ==> h.parameterTypes == ParameterTypes(m.parameters)
    ensures !m.isStatic ==> |h.parameterTypes| == |m.parameters| + 1 && h.parameterTypes[0] == m.declaringClass
                            && h.parameterTypes[1..] == ParameterTypes(m.parameters)
    ensures h.returnType == m.returnType
  {
    var receiver := if m.isStatic then [] else [m.declaringClass];
    MethodHandle(m.name, receiver + ParameterTypes(m.parameters), m.returnType)
  }

  /** Every way registering a type's operators can fail, one per distinct check that `TypeOperatorDeclaration` makes. */
  datatype OperatorError =
    // verifyMethodHandleSignature
    | ArgumentCountMismatch
    | SessionNotSupported
    | ParameterCountMismatch
    | ArgumentTypeMismatch
    | NullFlagNotBoolean
    | BlockPositionMismatch
    | FunctionNotSupported
    | ReturnTypeMismatch
    // parseInvocationConvention, getReturnConvention, extractNextArgumentConvention
    | ReturnTypeNotPrimitive
    | UnexpectedReturnType
    | UnexpectedParameters
    | MissingParameter
    // addOperators
    | UnsupportedOperator
    | NoOperators
    // the Builder constructor and build()
    | VoidNotSupported
    | HashCodeWithoutEqual
    | XxHash64WithoutEqual
    | EqualWithoutXxHash64
    | LessThanWithoutComparison
    | LessThanOrEqualWithoutComparison
}
