/**
 * `TypeOperatorDeclaration` and its `Builder`: the builder collects, per operator kind, the
 * implementations of a type's operators, validating each one as it is added, and `build()`
 * checks the rules that tie the operators together before sealing them into a read-only declaration.
 */
module TypeOperatorDeclarations {
  import opened Wrappers
  import opened JavaTypes
  import opened OperatorConventions
  import opened OperatorSignatures

  /** The sealed declaration: one list of implementations per operator kind, read-only to its users. */
  datatype TypeOperatorDeclaration = TypeOperatorDeclaration(
    equalOperators: seq<OperatorMethodHandle>,
    hashCodeOperators: seq<OperatorMethodHandle>,
    xxHash64Operators: seq<OperatorMethodHandle>,
    distinctFromOperators: seq<OperatorMethodHandle>,
    indeterminateOperators: seq<OperatorMethodHandle>,
    comparisonUnorderedLastOperators: seq<OperatorMethodHandle>,
    comparisonUnorderedFirstOperators: seq<OperatorMethodHandle>,
    lessThanOperators: seq<OperatorMethodHandle>,
    lessThanOrEqualOperators: seq<OperatorMethodHandle>)
  {
    /** `isComparable()`: some equal operator was declared. */
    predicate IsComparable()
      ensures IsComparable() <==> Operators(Equal) != []
    {
      equalOperators != []
    }

    /** `isOrderable()`: some unordered-last comparison was declared. */
    predicate IsOrderable()
      ensures IsOrderable() <==> Operators(ComparisonUnorderedLast) != []
    {
      comparisonUnorderedLastOperators != []
    }

    /** The getter for one operator kind. */
    function Operators(kind: OperatorKind): (hs: seq<OperatorMethodHandle>)
      ensures |hs| <= Size()
    {
      match kind
      case Equal => equalOperators
      case HashCode => hashCodeOperators
      case XxHash64 => xxHash64Operators
      case IsDistinctFrom => distinctFromOperators
      case Indeterminate => indeterminateOperators
      case ComparisonUnorderedLast => comparisonUnorderedLastOperators
      case ComparisonUnorderedFirst => comparisonUnorderedFirstOperators
      case LessThan => lessThanOperators
      case LessThanOrEqual => lessThanOrEqualOperators
    }

    /** The same declaration with the list of one kind replaced. */
    function WithOperators(kind: OperatorKind, hs: seq<OperatorMethodHandle>): (d: TypeOperatorDeclaration)
      ensures d.Operators(kind) == hs
      ensures forall k :: k != kind ==> d.Operators(k) == Operators(k)
    {
      match kind
      case Equal => this.(equalOperators := hs)
      case HashCode => this.(hashCodeOperators := hs)
      case XxHash64 => this.(xxHash64Operators := hs)
      case IsDistinctFrom => this.(distinctFromOperators := hs)
      case Indeterminate => this.(indeterminateOperators := hs)
      case ComparisonUnorderedLast => this.(comparisonUnorderedLastOperators := hs)
      case ComparisonUnorderedFirst => this.(comparisonUnorderedFirstOperators := hs)
      case LessThan => this.(lessThanOperators := hs)
      case LessThanOrEqual => this.(lessThanOrEqualOperators := hs)
    }

    /** The total number of implementations, over all nine kinds. */
    function Size(): nat
    {
      |equalOperators| + |hashCodeOperators| + |xxHash64Operators| + |distinctFromOperators|
      + |indeterminateOperators| + |comparisonUnorderedLastOperators| + |comparisonUnorderedFirstOperators|
      + |lessThanOperators| + |lessThanOrEqualOperators|
    }
  }

  /** A declaration without any operator: what a fresh builder holds. */
  function EmptyDeclaration(): TypeOperatorDeclaration
  {
    TypeOperatorDeclaration([], [], [], [], [], [], [], [], [])
  }

  /** Every implementation of kind `kind` in `hs` passed the validator for that kind. */
  ghost predicate AllVerified(javaType: JavaClass, kind: OperatorKind, hs: seq<OperatorMethodHandle>)
  {
    forall i :: 0 <= i < |hs| ==> VerifySignature(Arity(kind), ReturnJavaType(kind), javaType, hs[i]).Pass?
  }

  /** Every implementation in the declaration passed the validator for its kind. */
  ghost predicate WellFormed(javaType: JavaClass, d: TypeOperatorDeclaration)
  {
    forall kind :: AllVerified(javaType, kind, d.Operators(kind))
  }

  /** The rules `build()` enforces between the operator lists. */
  predicate CrossOperatorConsistent(d: TypeOperatorDeclaration)
  {
    && (d.equalOperators == [] ==> d.hashCodeOperators == [] && d.xxHash64Operators == [])
    && (d.equalOperators != [] ==> d.xxHash64Operators != [])
    && (d.comparisonUnorderedLastOperators == [] && d.comparisonUnorderedFirstOperators == [] ==>
          d.lessThanOperators == [] && d.lessThanOrEqualOperators == [])
  }

  /**
   * `build()`: the checks in the order `build()` makes them, then the declaration with the
   * builder's lists as they are.
   */
  function Seal(d: TypeOperatorDeclaration): (r: Result<TypeOperatorDeclaration, OperatorError>)
    ensures r.Success? <==> CrossOperatorConsistent(d)
    ensures r.Success? ==> r.value == d
  {
    if d.equalOperators == [] && d.hashCodeOperators != [] then Failure(HashCodeWithoutEqual)
    else if d.equalOperators == [] && d.xxHash64Operators != [] then Failure(XxHash64WithoutEqual)
    else if d.equalOperators != [] && d.xxHash64Operators == [] then Failure(EqualWithoutXxHash64)
    else if d.comparisonUnorderedLastOperators == [] && d.comparisonUnorderedFirstOperators == [] && d.lessThanOperators != []
      then Failure(LessThanWithoutComparison)
    else if d.comparisonUnorderedLastOperators == [] && d.comparisonUnorderedFirstOperators == [] && d.lessThanOrEqualOperators != []
      then Failure(LessThanOrEqualWithoutComparison)
    else Success(d)
  }

  /**
   * What the queries of a sealed declaration promise: a comparable type always has an
   * xxHash64 implementation, a hash of either kind implies the type is comparable, and an
   * ordering operator implies some comparison operator.
   */
  lemma SealedDeclarationQueries(d: TypeOperatorDeclaration)
    requires Seal(d).Success?
    ensures Seal(d).value.IsComparable() <==> d.equalOperators != []
    ensures Seal(d).value.IsOrderable() <==> d.comparisonUnorderedLastOperators != []
    ensures Seal(d).value.IsComparable() <==> Seal(d).value.xxHash64Operators != []
    ensures Seal(d).value.hashCodeOperators != [] ==> Seal(d).value.IsComparable()
    ensures Seal(d).value.lessThanOperators != [] || Seal(d).value.lessThanOrEqualOperators != [] ==>
      Seal(d).value.IsOrderable() || Seal(d).value.comparisonUnorderedFirstOperators != []
  {
  }

  /** `NO_TYPE_OPERATOR_DECLARATION`: the empty builder seals, and the result is neither comparable nor orderable. */
  lemma EmptyDeclarationSeals()
    ensures Seal(EmptyDeclaration()) == Success(EmptyDeclaration())
    ensures !EmptyDeclaration().IsComparable() && !EmptyDeclaration().IsOrderable()
  {
  }

  /**
   * One `addOperators` step: an unannotated method is skipped, an unsupported operator
   * fails, and an annotated one is classified, wrapped in a handle and added to its list.
   */
  datatype Registration = Registration(declaration: TypeOperatorDeclaration, outcome: Outcome<OperatorError>, added: bool)

  function RegisterMethod(javaType: JavaClass, r: Registration, m: JavaMethod): (next: Registration)
    ensures m.scalarOperator.None? ==> next == r
    ensures m.scalarOperator.Some? && m.scalarOperator.value.OtherOperator? ==> next.outcome == Fail(UnsupportedOperator)
    ensures next.outcome.Fail? ==> next.declaration == r.declaration && next.added == r.added
    ensures m.scalarOperator.Some? && !m.isStatic ==> next.outcome.Fail?
    ensures next.outcome.Pass? && m.scalarOperator.Some? ==>
      var kind := m.scalarOperator.value.kind;
      && next.added
      && ParseInvocationConvention(javaType, m, ReturnJavaType(kind)).Success?
      && next.declaration.Operators(kind) == r.declaration.Operators(kind) + [OperatorMethodHandle(ParseInvocationConvention(javaType, m, ReturnJavaType(kind)).value, Unreflect(m))]
      && forall k :: k != kind ==> next.declaration.Operators(k) == r.declaration.Operators(k)
    ensures m.scalarOperator.Some? && m.scalarOperator.value.Operator? ==>
      var kind := m.scalarOperator.value.kind;
      var parsed := ParseInvocationConvention(javaType, m, ReturnJavaType(kind));
      && (parsed.Failure? ==> next.outcome == Fail(parsed.error))
      && (parsed.Success? ==>
            next.outcome == VerifySignature(Arity(kind), ReturnJavaType(kind), javaType, OperatorMethodHandle(parsed.value, Unreflect(m))))
  {
    match m.scalarOperator
    case None => r
    case Some(OtherOperator(_)) => r.(outcome := Fail(UnsupportedOperator))
    case Some(Operator(kind)) =>
      match ParseInvocationConvention(javaType, m, ReturnJavaType(kind))
      case Failure(e) => r.(outcome := Fail(e))
      case Success(c) =>
        var h := OperatorMethodHandle(c, Unreflect(m));
        match VerifySignature(Arity(kind), ReturnJavaType(kind), javaType, h)
        case Fail(e) => r.(outcome := Fail(e))
        case Pass =>
          var d := r.declaration;
          Registration(d.WithOperators(kind, d.Operators(kind) + [h]), Pass, true)
  }

  /**
   * A static method annotated with one of the nine operators, whose convention is inferred
   * with as many operands as the operator takes, is always registered: its handle is
   * appended to that operator's list.
   */
  lemma ClassifiedStaticMethodRegisters(javaType: JavaClass, r: Registration, m: JavaMethod, kind: OperatorKind)
    requires javaType != SessionClass
    requires m.isStatic
    requires m.scalarOperator == Some(Operator(kind))
    requires ParseInvocationConvention(javaType, m, ReturnJavaType(kind)).Success?
    requires |ParseInvocationConvention(javaType, m, ReturnJavaType(kind)).value.argumentConventions| == Arity(kind)
    ensures RegisterMethod(javaType, r, m).outcome.Pass?
    ensures RegisterMethod(javaType, r, m).added
    ensures RegisterMethod(javaType, r, m).declaration.Operators(kind) ==
      r.declaration.Operators(kind) + [OperatorMethodHandle(ParseInvocationConvention(javaType, m, ReturnJavaType(kind)).value, Unreflect(m))]
  {
    ClassifiedConventionVerifies(kind, javaType, m);
  }

  /** The `addOperators` loop over a prefix of the methods: it stops at the first failure. */
  function RegisterMethods(javaType: JavaClass, d: TypeOperatorDeclaration, ms: seq<JavaMethod>): (r: Registration)
    ensures r.outcome.Pass? ==> forall i :: 0 <= i < |ms| && ms[i].scalarOperator.Some? ==> ms[i].isStatic
    ensures r.added ==> exists i :: 0 <= i < |ms| && ms[i].scalarOperator.Some?
    decreases |ms|
  {
    if ms == [] then Registration(d, Pass, false)
    else
      var previous := RegisterMethods(javaType, d, ms[..|ms| - 1]);
      if previous.outcome.Fail? then previous else RegisterMethod(javaType, previous, ms[|ms| - 1])
  }

  /** One more method of the scan, after a prefix that passed: that method is registered. */
  lemma RegisterMethodsNext(javaType: JavaClass, d: TypeOperatorDeclaration, ms: seq<JavaMethod>, i: nat)
    requires i < |ms|
    requires RegisterMethods(javaType, d, ms[..i]).outcome.Pass?
    ensures RegisterMethods(javaType, d, ms[..i + 1]) == RegisterMethod(javaType, RegisterMethods(javaType, d, ms[..i]), ms[i])
  {
    assert ms[..i + 1][..i] == ms[..i];
  }

  /** The outcome of `addOperators`: the loop's, or an error when no method was annotated. */
  function AddOperatorsOutcome(r: Registration): Outcome<OperatorError>
  {
    if r.outcome.Pass? && !r.added then Fail(NoOperators) else r.outcome
  }

  function AnnotatedCount(ms: seq<JavaMethod>): nat
  {
    if ms == [] then 0
    else AnnotatedCount(ms[..|ms| - 1]) + (if ms[|ms| - 1].scalarOperator.Some? then 1 else 0)
  }

  lemma {:induction false} RegisterMethodsStopsAtFailure(javaType: JavaClass, d: TypeOperatorDeclaration, ms: seq<JavaMethod>, i: nat)
    requires i <= |ms|
    requires RegisterMethods(javaType, d, ms[..i]).outcome.Fail?
    ensures RegisterMethods(javaType, d, ms) == RegisterMethods(javaType, d, ms[..i])
    decreases |ms| - i
  {
    if i < |ms| {
      assert ms[..i + 1][..i] == ms[..i];
      RegisterMethodsStopsAtFailure(javaType, d, ms, i + 1);
    } else {
      assert ms[..i] == ms;
    }
  }

  /**
   * A successful `addOperators` adds exactly one implementation per annotated method, and
   * reports that it added something exactly when some method was annotated.
   */
  lemma {:induction false} RegisterMethodsCounts(javaType: JavaClass, d: TypeOperatorDeclaration, ms: seq<JavaMethod>)
    requires RegisterMethods(javaType, d, ms).outcome.Pass?
    ensures RegisterMethods(javaType, d, ms).declaration.Size() == d.Size() + AnnotatedCount(ms)
    ensures RegisterMethods(javaType, d, ms).added <==> AnnotatedCount(ms) > 0
    decreases |ms|
  {
    if ms != [] {
      var previous := RegisterMethods(javaType, d, ms[..|ms| - 1]);
      RegisterMethodsCounts(javaType, d, ms[..|ms| - 1]);
      RegisterMethodCounts(javaType, previous, ms[|ms| - 1]);
    }
  }

  /** One successful step adds one implementation for an annotated method and none otherwise. */
  lemma RegisterMethodCounts(javaType: JavaClass, r: Registration, m: JavaMethod)
    requires RegisterMethod(javaType, r, m).outcome.Pass?
    ensures RegisterMethod(javaType, r, m).declaration.Size() == r.declaration.Size() + (if m.scalarOperator.Some? then 1 else 0)
    ensures RegisterMethod(javaType, r, m).added <==> r.added || m.scalarOperator.Some?
  {
    if m.scalarOperator.Some? {
      var kind := m.scalarOperator.value.kind;
      var d := r.declaration;
      var hs := d.Operators(kind) + [OperatorMethodHandle(ParseInvocationConvention(javaType, m, ReturnJavaType(kind)).value, Unreflect(m))];
      WithOperatorsSize(d, kind, hs);
    }
  }

  /** Replacing one list changes the total size by the change in that list's length. */
  lemma WithOperatorsSize(d: TypeOperatorDeclaration, kind: OperatorKind, hs: seq<OperatorMethodHandle>)
    ensures d.WithOperators(kind, hs).Size() == d.Size() - |d.Operators(kind)| + |hs|
  {
  }

  /** A class without any `@ScalarOperator` method is rejected by `addOperators`, and nothing is added. */
  lemma NoAnnotatedMethodFails(javaType: JavaClass, d: TypeOperatorDeclaration, ms: seq<JavaMethod>)
    requires forall i :: 0 <= i < |ms| ==> ms[i].scalarOperator.None?
    ensures AddOperatorsOutcome(RegisterMethods(javaType, d, ms)) == Fail(NoOperators)
    ensures RegisterMethods(javaType, d, ms).declaration == d
  {
    assert AnnotatedCount(ms) == 0 by { AnnotatedCountZero(ms); }
    NoAnnotatedMethodKeeps(javaType, d, ms);
  }

  lemma {:induction false} AnnotatedCountZero(ms: seq<JavaMethod>)
    requires forall i :: 0 <= i < |ms| ==> ms[i].scalarOperator.None?
    ensures AnnotatedCount(ms) == 0
    decreases |ms|
  {
    if ms != [] {
      AnnotatedCountZero(ms[..|ms| - 1]);
    }
  }

  lemma {:induction false} NoAnnotatedMethodKeeps(javaType: JavaClass, d: TypeOperatorDeclaration, ms: seq<JavaMethod>)
    requires forall i :: 0 <= i < |ms| ==> ms[i].scalarOperator.None?
    ensures RegisterMethods(javaType, d, ms) == Registration(d, Pass, false)
    decreases |ms|
  {
    if ms != [] {
      NoAnnotatedMethodKeeps(javaType, d, ms[..|ms| - 1]);
    }
  }

  /** Whatever `addOperators` adds passed the validator, so a well-formed declaration stays well-formed. */
  lemma {:induction false} RegisterMethodsKeepsWellFormed(javaType: JavaClass, d: TypeOperatorDeclaration, ms: seq<JavaMethod>)
    requires WellFormed(javaType, d)
    ensures WellFormed(javaType, RegisterMethods(javaType, d, ms).declaration)
    decreases |ms|
  {
    if ms != [] {
      var previous := RegisterMethods(javaType, d, ms[..|ms| - 1]);
      RegisterMethodsKeepsWellFormed(javaType, d, ms[..|ms| - 1]);
      var r := RegisterMethod(javaType, previous, ms[|ms| - 1]);
      if previous.outcome.Pass? && r.declaration != previous.declaration {
        var m := ms[|ms| - 1];
        var kind := m.scalarOperator.value.kind;
        var c := ParseInvocationConvention(javaType, m, ReturnJavaType(kind)).value;
        var h := OperatorMethodHandle(c, Unreflect(m));
        assert AllVerified(javaType, kind, [h]);
        WellFormedExtend(javaType, previous.declaration, kind, [h]);
      }
    }
  }

  /** Adding implementations that passed the validator to one list keeps a declaration well-formed. */
  lemma WellFormedExtend(javaType: JavaClass, d: TypeOperatorDeclaration, kind: OperatorKind, hs: seq<OperatorMethodHandle>)
    requires WellFormed(javaType, d)
    requires AllVerified(javaType, kind, hs)
    ensures WellFormed(javaType, d.WithOperators(kind, d.Operators(kind) + hs))
  {
    var old_ := d.Operators(kind);
    var joined := old_ + hs;
    assert AllVerified(javaType, kind, joined) by {
      forall i | 0 <= i < |joined| ensures VerifySignature(Arity(kind), ReturnJavaType(kind), javaType, joined[i]).Pass? {
        if i < |old_| {
          assert joined[i] == old_[i];
        } else {
          assert joined[i] == hs[i - |old_|];
        }
      }
    }
  }

  /** `extractOperatorDeclaration`: a new builder, `addOperators` over the class, then `build()`. */
  function ExtractedDeclaration(typeJavaType: JavaClass, operatorsClass: seq<JavaMethod>): Result<TypeOperatorDeclaration, OperatorError>
  {
    if typeJavaType == Primitive(Void) then Failure(VoidNotSupported)
    else
      var registration := RegisterMethods(typeJavaType, EmptyDeclaration(), operatorsClass);
      match AddOperatorsOutcome(registration)
      case Fail(e) => Failure(e)
      case Pass => Seal(registration.declaration)
  }

  /** `TypeOperatorDeclaration.Builder`: nine growing lists of implementations for one Java carrier type. */
  class Builder {
    const typeJavaType: JavaClass
    var equalOperators: seq<OperatorMethodHandle>
    var hashCodeOperators: seq<OperatorMethodHandle>
    var xxHash64Operators: seq<OperatorMethodHandle>
    var distinctFromOperators: seq<OperatorMethodHandle>
    var indeterminateOperators: seq<OperatorMethodHandle>
    var comparisonUnorderedLastOperators: seq<OperatorMethodHandle>
    var comparisonUnorderedFirstOperators: seq<OperatorMethodHandle>
    var lessThanOperators: seq<OperatorMethodHandle>
    var lessThanOrEqualOperators: seq<OperatorMethodHandle>

    /** The nine lists as a declaration value. */
    function Snapshot(): TypeOperatorDeclaration
      reads this
    {
      TypeOperatorDeclaration(
        equalOperators, hashCodeOperators, xxHash64Operators, distinctFromOperators, indeterminateOperators,
        comparisonUnorderedLastOperators, comparisonUnorderedFirstOperators, lessThanOperators, lessThanOrEqualOperators)
    }

    /** The builder's invariant: a non-void carrier type, and only validated implementations in its lists. */
    ghost predicate Valid()
      reads this
    {
      typeJavaType != Primitive(Void) && WellFormed(typeJavaType, Snapshot())
    }

    constructor (typeJavaType: JavaClass)
      requires typeJavaType != Primitive(Void)
      ensures Valid()
      ensures this.typeJavaType == typeJavaType
      ensures Snapshot() == EmptyDeclaration()
    {
      this.typeJavaType := typeJavaType;
      equalOperators, hashCodeOperators, xxHash64Operators := [], [], [];
      distinctFromOperators, indeterminateOperators := [], [];
      comparisonUnorderedLastOperators, comparisonUnorderedFirstOperators := [], [];
      lessThanOperators, lessThanOrEqualOperators := [], [];
    }

    /** `add`/`addAll` on the list of one kind. */
    method Append(kind: OperatorKind, hs: seq<OperatorMethodHandle>)
      modifies this
      ensures Snapshot() == old(Snapshot()).WithOperators(kind, old(Snapshot()).Operators(kind) + hs)
    {
      match kind {
        case Equal => equalOperators := equalOperators + hs;
        case HashCode => hashCodeOperators := hashCodeOperators + hs;
        case XxHash64 => xxHash64Operators := xxHash64Operators + hs;
        case IsDistinctFrom => distinctFromOperators := distinctFromOperators + hs;
        case Indeterminate => indeterminateOperators := indeterminateOperators + hs;
        case ComparisonUnorderedLast => comparisonUnorderedLastOperators := comparisonUnorderedLastOperators + hs;
        case ComparisonUnorderedFirst => comparisonUnorderedFirstOperators := comparisonUnorderedFirstOperators + hs;
        case LessThan => lessThanOperators := lessThanOperators + hs;
        case LessThanOrEqual => lessThanOrEqualOperators := lessThanOrEqualOperators + hs;
      }
    }

    /**
     * `verifyMethodHandleSignature`: the operand count, the session ban and the parameter
     * count, then a walk over the operands with a running parameter index, then the return.
     */
    method VerifyMethodHandleSignature(expectedArgumentCount: nat, returnJavaType: JavaClass, h: OperatorMethodHandle)
      returns (outcome: Outcome<OperatorError>)
      ensures outcome == VerifySignature(expectedArgumentCount, returnJavaType, typeJavaType, h)
    {
      var methodType := h.methodHandle;
      var convention := h.callingConvention;
      var cs := convention.argumentConventions;
      var parameterTypes := methodType.parameterTypes;
      if |cs| != expectedArgumentCount {
        return Fail(ArgumentCountMismatch);
      }
      if SessionClass in parameterTypes {
        return Fail(SessionNotSupported);
      }
      if ParameterCountSum(cs) != |parameterTypes| {
        return Fail(ParameterCountMismatch);
      }
      var parameterIndex: nat := 0;
      var i := 0;
      assert cs[0..] == cs;
      while i < |cs|
        invariant 0 <= i <= |cs|
        invariant parameterIndex + ParameterCountSum(cs[i..]) == |parameterTypes|
        invariant CheckArguments(typeJavaType, parameterTypes, cs, 0) == CheckArguments(typeJavaType, parameterTypes, cs[i..], parameterIndex)
      {
        var c := cs[i];
        assert cs[i..][1..] == cs[i + 1..];
        var parameterType := parameterTypes[parameterIndex];
        match c {
          case NeverNull =>
            if !IsAssignableFrom(parameterType, typeJavaType) {
              return Fail(ArgumentTypeMismatch);
            }
          case NullFlag =>
            if !IsAssignableFrom(parameterType, typeJavaType) {
              return Fail(ArgumentTypeMismatch);
            }
            if parameterTypes[parameterIndex + 1] != Primitive(Boolean) {
              return Fail(NullFlagNotBoolean);
            }
          case BoxedNullable =>
            if !IsAssignableFrom(parameterType, Wrap(typeJavaType)) {
              return Fail(ArgumentTypeMismatch);
            }
          case BlockPosition =>
            if !(parameterType == BlockClass && parameterTypes[parameterIndex + 1] == Primitive(Int)) {
              return Fail(BlockPositionMismatch);
            }
          case Function =>
            return Fail(FunctionNotSupported);
        }
        parameterIndex := parameterIndex + ParameterCount(c);
        i := i + 1;
      }
      match convention.returnConvention {
        case FailOnNull =>
          if methodType.returnType != returnJavaType {
            return Fail(ReturnTypeMismatch);
          }
        case NullableReturn =>
          if methodType.returnType != Wrap(returnJavaType) {
            return Fail(ReturnTypeMismatch);
          }
      }
      return Pass;
    }

    /**
     * `addEqualOperator`, `addHashCodeOperator`, ... (one per kind): validate the handle
     * against the kind's operand count and return type; store it only if it passes.
     */
    method AddOperator(kind: OperatorKind, h: OperatorMethodHandle) returns (outcome: Outcome<OperatorError>)
      requires Valid()
      modifies this
      ensures Valid()
      ensures outcome == VerifySignature(Arity(kind), ReturnJavaType(kind), typeJavaType, h)
      ensures Snapshot() == if outcome.Pass? then old(Snapshot()).WithOperators(kind, old(Snapshot()).Operators(kind) + [h])
                            else old(Snapshot())
    {
      outcome := VerifyMethodHandleSignature(Arity(kind), ReturnJavaType(kind), h);
      if outcome.Pass? {
        WellFormedExtend(typeJavaType, Snapshot(), kind, [h]);
        Append(kind, [h]);
      }
    }

    /**
     * `addEqualOperators`, `addHashCodeOperators`, ... (one per kind): validate every handle
     * first; store all of them, or none when any fails.
     */
    method AddOperators(kind: OperatorKind, hs: seq<OperatorMethodHandle>) returns (outcome: Outcome<OperatorError>)
      requires Valid()
      modifies this
      ensures Valid()
      ensures outcome == VerifyEach(Arity(kind), ReturnJavaType(kind), typeJavaType, hs)
      ensures Snapshot() == if outcome.Pass? then old(Snapshot()).WithOperators(kind, old(Snapshot()).Operators(kind) + hs)
                            else old(Snapshot())
    {
      var i := 0;
      assert hs[0..] == hs;
      while i < |hs|
        invariant 0 <= i <= |hs|
        invariant Snapshot() == old(Snapshot())
        invariant VerifyEach(Arity(kind), ReturnJavaType(kind), typeJavaType, hs) ==
                  VerifyEach(Arity(kind), ReturnJavaType(kind), typeJavaType, hs[i..])
      {
        assert hs[i..][1..] == hs[i + 1..];
        var verified := VerifyMethodHandleSignature(Arity(kind), ReturnJavaType(kind), hs[i]);
        if verified.Fail? {
          return verified;
        }
        i := i + 1;
      }
      outcome := Pass;
      VerifyEachPassIff(Arity(kind), ReturnJavaType(kind), typeJavaType, hs);
      WellFormedExtend(typeJavaType, Snapshot(), kind, hs);
      Append(kind, hs);
    }

    /**
     * One pass of the `addOperators` loop: an unannotated method is skipped, an operator
     * outside the nine fails, and any other method is classified and added through the
     * single-handle add of its kind.
     */
    method AddAnnotatedMethod(method_: JavaMethod, addedBefore: bool) returns (outcome: Outcome<OperatorError>, addedOperator: bool)
      requires Valid()
      modifies this
      ensures Valid()
      ensures RegisterMethod(typeJavaType, Registration(old(Snapshot()), Pass, addedBefore), method_)
              == Registration(Snapshot(), outcome, addedOperator)
    {
      addedOperator := addedBefore;
      match method_.scalarOperator {
        case None =>
          outcome := Pass;
        case Some(OtherOperator(_)) =>
          outcome := Fail(UnsupportedOperator);
        case Some(Operator(kind)) =>
          var convention := ParseInvocationConvention(typeJavaType, method_, ReturnJavaType(kind));
          if convention.Failure? {
            return Fail(convention.error), addedOperator;
          }
          outcome := AddOperator(kind, OperatorMethodHandle(convention.value, Unreflect(method_)));
          if outcome.Pass? {
            addedOperator := true;
          }
      }
    }

    /**
     * `addOperators(Class, Lookup)`: the loop over the declared methods with its
     * `addedOperator` flag. A failure stops the loop, and the implementations added before
     * it stay; a class with no annotated method is an error.
     */
    method AddOperatorsFrom(operatorsClass: seq<JavaMethod>) returns (outcome: Outcome<OperatorError>)
      requires Valid()
      modifies this
      ensures Valid()
      ensures Snapshot() == RegisterMethods(typeJavaType, old(Snapshot()), operatorsClass).declaration
      ensures outcome == AddOperatorsOutcome(RegisterMethods(typeJavaType, old(Snapshot()), operatorsClass))
    {
      var addedOperator := false;
      var i := 0;
      while i < |operatorsClass|
        invariant 0 <= i <= |operatorsClass|
        invariant Valid()
        invariant RegisterMethods(typeJavaType, old(Snapshot()), operatorsClass[..i]) == Registration(Snapshot(), Pass, addedOperator)
      {
        RegisterMethodsNext(typeJavaType, old(Snapshot()), operatorsClass, i);
        var step;
        step, addedOperator := AddAnnotatedMethod(operatorsClass[i], addedOperator);
        if step.Fail? {
          RegisterMethodsStopsAtFailure(typeJavaType, old(Snapshot()), operatorsClass, i + 1);
          return step;
        }
        i := i + 1;
      }
      assert operatorsClass[..i] == operatorsClass;
      if !addedOperator {
        return Fail(NoOperators);
      }
      return Pass;
    }

    /** `build()`: enforce the rules between the lists, then seal them. */
    method Build() returns (r: Result<TypeOperatorDeclaration, OperatorError>)
      requires Valid()
      ensures r == Seal(Snapshot())
      ensures r.Success? ==> WellFormed(typeJavaType, r.value) && CrossOperatorConsistent(r.value)
    {
      if equalOperators == [] {
        if hashCodeOperators != [] {
          return Failure(HashCodeWithoutEqual);
        }
        if xxHash64Operators != [] {
          return Failure(XxHash64WithoutEqual);
        }
      } else {
        if xxHash64Operators == [] {
          return Failure(EqualWithoutXxHash64);
        }
      }
      if comparisonUnorderedLastOperators == [] && comparisonUnorderedFirstOperators == [] {
        if lessThanOperators != [] {
          return Failure(LessThanWithoutComparison);
        }
        if lessThanOrEqualOperators != [] {
          return Failure(LessThanOrEqualWithoutComparison);
        }
      }
      return Success(Snapshot());
    }
  }

  /** `TypeOperatorDeclaration.builder`: a builder for a carrier type, refused for `void`. */
  method NewBuilder(typeJavaType: JavaClass) returns (r: Result<Builder, OperatorError>)
    ensures r.Failure? <==> typeJavaType == Primitive(Void)
    ensures r.Failure? ==> r.error == VoidNotSupported
    ensures r.Success? ==> fresh(r.value) && r.value.Valid() && r.value.typeJavaType == typeJavaType
                           && r.value.Snapshot() == EmptyDeclaration()
  {
    if typeJavaType == Primitive(Void) {
      return Failure(VoidNotSupported);
    }
    var b := new Builder(typeJavaType);
    return Success(b);
  }

  /** `extractOperatorDeclaration`: every operator of a class, registered and sealed in one go. */
  method ExtractOperatorDeclaration(operatorsClass: seq<JavaMethod>, typeJavaType: JavaClass)
    returns (r: Result<TypeOperatorDeclaration, OperatorError>)
    ensures r == ExtractedDeclaration(typeJavaType, operatorsClass)
    ensures r.Success? ==> WellFormed(typeJavaType, r.value) && CrossOperatorConsistent(r.value)
    ensures (forall i :: 0 <= i < |operatorsClass| ==> operatorsClass[i].scalarOperator.None?) ==> r.Failure?
  {
    var created := NewBuilder(typeJavaType);
    if created.Failure? {
      return Failure(created.error);
    }
    var builder := created.value;
    var added := builder.AddOperatorsFrom(operatorsClass);
    if added.Fail? {
      r := Failure(added.error);
    } else {
      r := builder.Build();
    }
    if forall i :: 0 <= i < |operatorsClass| ==> operatorsClass[i].scalarOperator.None? {
      NoAnnotatedMethodFails(typeJavaType, EmptyDeclaration(), operatorsClass);
    }
  }

  /** `NO_TYPE_OPERATOR_DECLARATION`: the declaration built from an empty `boolean` builder. */
  method NoTypeOperatorDeclaration() returns (d: TypeOperatorDeclaration)
    ensures d == EmptyDeclaration()
    ensures !d.IsComparable() && !d.IsOrderable()
  {
    var builder := new Builder(Primitive(Boolean));
    var r := builder.Build();
    d := r.value;
  }
}
