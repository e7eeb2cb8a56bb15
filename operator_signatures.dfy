/**
 * The two halves of signature handling in `TypeOperatorDeclaration.Builder`: the validator
 * that checks an implementation against the convention it claims
 * (`verifyMethodHandleSignature`), and the classifier that infers a convention from an
 * annotated method (`parseInvocationConvention`, `getReturnConvention`,
 * `extractNextArgumentConvention`).
 */
module OperatorSignatures {
  import opened Wrappers
  import opened JavaTypes
  import opened OperatorConventions

  // ---------------------------------------------------------------------------------------
  // Validation against a claimed convention
  // ---------------------------------------------------------------------------------------

  /**
   * The check applied to one operand whose parameters start at `index`: `None` when the
   * parameters have the shape the convention requires, else the error raised.
   */
  function ArgumentError(javaType: JavaClass, parameterTypes: seq<JavaClass>, c: ArgumentConvention, index: nat): Option<OperatorError>
    requires index + ParameterCount(c) <= |parameterTypes|
  {
    match c
    case NeverNull =>
      if IsAssignableFrom(parameterTypes[index], javaType) then None else Some(ArgumentTypeMismatch)
    case NullFlag =>
      if !IsAssignableFrom(parameterTypes[index], javaType) then Some(ArgumentTypeMismatch)
      else if parameterTypes[index + 1] != Primitive(Boolean) then Some(NullFlagNotBoolean)
      else None
    case BoxedNullable =>
      if IsAssignableFrom(parameterTypes[index], Wrap(javaType)) then None else Some(ArgumentTypeMismatch)
    case BlockPosition =>
      if parameterTypes[index] == BlockClass && parameterTypes[index + 1] == Primitive(Int) then None
      else Some(BlockPositionMismatch)
    case Function =>
      Some(FunctionNotSupported)
  }

  /** The operand with convention `c` at `index` fits inside the parameter list and passes its check. */
  predicate ArgumentAccepted(javaType: JavaClass, parameterTypes: seq<JavaClass>, c: ArgumentConvention, index: nat)
  {
    index + ParameterCount(c) <= |parameterTypes| && ArgumentError(javaType, parameterTypes, c, index).None?
  }

  /** The per-operand loop: operands are checked in order, each starting where the previous one ended. */
  function CheckArguments(javaType: JavaClass, parameterTypes: seq<JavaClass>, cs: seq<ArgumentConvention>, index: nat): Outcome<OperatorError>
    requires index + ParameterCountSum(cs) <= |parameterTypes|
    decreases |cs|
  {
    if cs == [] then Pass
    else match ArgumentError(javaType, parameterTypes, cs[0], index)
      case Some(e) => Fail(e)
      case None => CheckArguments(javaType, parameterTypes, cs[1..], index + ParameterCount(cs[0]))
  }

  /** The return-side check: `FAIL_ON_NULL` wants the primitive itself, `NULLABLE_RETURN` its wrapper. */
  predicate ReturnAccepted(rc: ReturnConvention, returnJavaType: JavaClass, actualReturnType: JavaClass)
  {
    match rc
    case FailOnNull => actualReturnType == returnJavaType
    case NullableReturn => actualReturnType == Wrap(returnJavaType)
  }

  /** `verifyMethodHandleSignature`, check by check in the order that method makes them. */
  function VerifySignature(expectedArgumentCount: nat, returnJavaType: JavaClass, javaType: JavaClass, h: OperatorMethodHandle): (r: Outcome<OperatorError>)
    ensures |h.callingConvention.argumentConventions| != expectedArgumentCount ==> r == Fail(ArgumentCountMismatch)
    ensures SessionClass in h.methodHandle.parameterTypes ==> r.Fail?
    ensures r.Pass? ==> ParameterCountSum(h.callingConvention.argumentConventions) == |h.methodHandle.parameterTypes|
    ensures r.Pass? ==> ReturnAccepted(h.callingConvention.returnConvention, returnJavaType, h.methodHandle.returnType)
  {
    var cs := h.callingConvention.argumentConventions;
    var parameterTypes := h.methodHandle.parameterTypes;
    if |cs| != expectedArgumentCount then Fail(ArgumentCountMismatch)
    else if SessionClass in parameterTypes then Fail(SessionNotSupported)
    else if ParameterCountSum(cs) != |parameterTypes| then Fail(ParameterCountMismatch)
    else match CheckArguments(javaType, parameterTypes, cs, 0)
      case Fail(e) => Fail(e)
      case Pass =>
        if ReturnAccepted(h.callingConvention.returnConvention, returnJavaType, h.methodHandle.returnType) then Pass
        else Fail(ReturnTypeMismatch)
  }

  /** Where the parameters of operand `k` start: the parameter counts of the operands before it. */
  function Offset(cs: seq<ArgumentConvention>, k: nat): nat
    requires k <= |cs|
  {
    ParameterCountSum(cs[..k])
  }

  /**
   * The declarative reading of the validator: every condition it checks, stated at once,
   * with operand `k` checked at the parameter index reached after the operands before it.
   */
  ghost predicate SignatureMatches(expectedArgumentCount: nat, returnJavaType: JavaClass, javaType: JavaClass, h: OperatorMethodHandle)
  {
    var cs := h.callingConvention.argumentConventions;
    var parameterTypes := h.methodHandle.parameterTypes;
    && |cs| == expectedArgumentCount
    && SessionClass !in parameterTypes
    && ParameterCountSum(cs) == |parameterTypes|
    && (forall k :: 0 <= k < |cs| ==> ArgumentAccepted(javaType, parameterTypes, cs[k], Offset(cs, k)))
    && ReturnAccepted(h.callingConvention.returnConvention, returnJavaType, h.methodHandle.returnType)
  }

  /** Past the first convention, offsets are those of the rest shifted by the first one's count. */
  lemma OffsetTail(cs: seq<ArgumentConvention>, k: nat)
    requires 1 <= k < |cs|
    ensures Offset(cs, k) == ParameterCount(cs[0]) + Offset(cs[1..], k - 1)
  {
    assert cs[..k] == [cs[0]] + cs[1..][..k - 1];
    ParameterCountSumAppend([cs[0]], cs[1..][..k - 1]);
    assert ParameterCountSum([cs[0]]) == ParameterCount(cs[0]) by {
      assert [cs[0]][1..] == [];
    }
  }

  lemma CheckArgumentsPassIff(javaType: JavaClass, parameterTypes: seq<JavaClass>, cs: seq<ArgumentConvention>, index: nat)
    requires index + ParameterCountSum(cs) <= |parameterTypes|
    ensures CheckArguments(javaType, parameterTypes, cs, index).Pass? <==>
      forall k :: 0 <= k < |cs| ==> ArgumentAccepted(javaType, parameterTypes, cs[k], index + Offset(cs, k))
  {
    if CheckArguments(javaType, parameterTypes, cs, index).Pass? {
      CheckArgumentsPassSound(javaType, parameterTypes, cs, index);
    }
    if forall k :: 0 <= k < |cs| ==> ArgumentAccepted(javaType, parameterTypes, cs[k], index + Offset(cs, k)) {
      CheckArgumentsPassComplete(javaType, parameterTypes, cs, index);
    }
  }

  /** A passing operand walk accepted every operand at its offset. */
  lemma {:induction false} CheckArgumentsPassSound(javaType: JavaClass, parameterTypes: seq<JavaClass>, cs: seq<ArgumentConvention>, index: nat)
    requires index + ParameterCountSum(cs) <= |parameterTypes|
    requires CheckArguments(javaType, parameterTypes, cs, index).Pass?
    ensures forall k :: 0 <= k < |cs| ==> ArgumentAccepted(javaType, parameterTypes, cs[k], index + Offset(cs, k))
    decreases |cs|
  {
    if cs != [] {
      var next := index + ParameterCount(cs[0]);
      CheckArgumentsPassSound(javaType, parameterTypes, cs[1..], next);
      assert Offset(cs, 0) == 0 by { assert cs[..0] == []; }
      forall k | 0 <= k < |cs|
        ensures ArgumentAccepted(javaType, parameterTypes, cs[k], index + Offset(cs, k))
      {
        if k > 0 {
          OffsetTail(cs, k);
          assert cs[k] == cs[1..][k - 1];
          assert ArgumentAccepted(javaType, parameterTypes, cs[1..][k - 1], next + Offset(cs[1..], k - 1));
        }
      }
    }
  }

  /** An operand walk in which every operand is accepted at its offset passes. */
  lemma {:induction false} CheckArgumentsPassComplete(javaType: JavaClass, parameterTypes: seq<JavaClass>, cs: seq<ArgumentConvention>, index: nat)
    requires index + ParameterCountSum(cs) <= |parameterTypes|
    requires forall k :: 0 <= k < |cs| ==> ArgumentAccepted(javaType, parameterTypes, cs[k], index + Offset(cs, k))
    ensures CheckArguments(javaType, parameterTypes, cs, index).Pass?
    decreases |cs|
  {
    if cs != [] {
      var next := index + ParameterCount(cs[0]);
      assert Offset(cs, 0) == 0 by { assert cs[..0] == []; }
      assert ArgumentAccepted(javaType, parameterTypes, cs[0], index + Offset(cs, 0));
      forall k | 0 <= k < |cs[1..]|
        ensures ArgumentAccepted(javaType, parameterTypes, cs[1..][k], next + Offset(cs[1..], k))
      {
        OffsetTail(cs, k + 1);
        assert cs[1..][k] == cs[k + 1];
        assert ArgumentAccepted(javaType, parameterTypes, cs[k + 1], index + Offset(cs, k + 1));
      }
      CheckArgumentsPassComplete(javaType, parameterTypes, cs[1..], next);
    }
  }

  /** The validator accepts exactly the handles that meet every condition at once. */
  lemma VerifySignatureAcceptsIff(expectedArgumentCount: nat, returnJavaType: JavaClass, javaType: JavaClass, h: OperatorMethodHandle)
    ensures VerifySignature(expectedArgumentCount, returnJavaType, javaType, h).Pass? <==>
      SignatureMatches(expectedArgumentCount, returnJavaType, javaType, h)
  {
    var cs := h.callingConvention.argumentConventions;
    var parameterTypes := h.methodHandle.parameterTypes;
    if ParameterCountSum(cs) == |parameterTypes| {
      CheckArgumentsPassIff(javaType, parameterTypes, cs, 0);
    }
  }

  /** A convention that lists `FUNCTION` for any operand is never accepted. */
  lemma FunctionConventionRejected(expectedArgumentCount: nat, returnJavaType: JavaClass, javaType: JavaClass, h: OperatorMethodHandle)
    requires Function in h.callingConvention.argumentConventions
    ensures VerifySignature(expectedArgumentCount, returnJavaType, javaType, h).Fail?
  {
    var cs := h.callingConvention.argumentConventions;
    var k :| 0 <= k < |cs| && cs[k] == Function;
    VerifySignatureAcceptsIff(expectedArgumentCount, returnJavaType, javaType, h);
    assert !ArgumentAccepted(javaType, h.methodHandle.parameterTypes, cs[k], Offset(cs, k));
  }

  /**
   * `addXs`: every handle is verified, in order, before any is stored; the first failure is
   * the one reported.
   */
  function VerifyEach(expectedArgumentCount: nat, returnJavaType: JavaClass, javaType: JavaClass, hs: seq<OperatorMethodHandle>): (r: Outcome<OperatorError>)
    ensures r.Fail? ==>
      exists i :: (&& 0 <= i < |hs|
                   && VerifySignature(expectedArgumentCount, returnJavaType, javaType, hs[i]) == r
                   && forall j :: 0 <= j < i ==> VerifySignature(expectedArgumentCount, returnJavaType, javaType, hs[j]).Pass?)
  {
    if hs == [] then Pass
    else match VerifySignature(expectedArgumentCount, returnJavaType, javaType, hs[0])
      case Fail(e) => Fail(e)
      case Pass => VerifyEach(expectedArgumentCount, returnJavaType, javaType, hs[1..])
  }

  /** The batch check passes exactly when each handle passes on its own. */
  lemma {:induction false} VerifyEachPassIff(expectedArgumentCount: nat, returnJavaType: JavaClass, javaType: JavaClass, hs: seq<OperatorMethodHandle>)
    ensures VerifyEach(expectedArgumentCount, returnJavaType, javaType, hs).Pass? <==>
      forall i :: 0 <= i < |hs| ==> VerifySignature(expectedArgumentCount, returnJavaType, javaType, hs[i]).Pass?
  {
    if hs != [] {
      VerifyEachPassIff(expectedArgumentCount, returnJavaType, javaType, hs[1..]);
      assert forall i :: 1 <= i < |hs| ==> hs[i] == hs[1..][i - 1];
    }
  }

  // ---------------------------------------------------------------------------------------
  // Classification of an annotated method
  // ---------------------------------------------------------------------------------------

  /**
   * `extractNextArgumentConvention`: the convention of the operand whose parameters start
   * the list. The markers are tried in a fixed order and the first one present decides:
   * a marker whose types are wrong fails outright instead of letting a later rule apply.
   */
  function ExtractNextArgumentConvention(javaType: JavaClass, ps: seq<Parameter>): (r: Result<ArgumentConvention, OperatorError>)
    ensures r == Success(BoxedNullable) <==>
      |ps| > 0 && ps[0].sqlNullable && ps[0].parameterType == Wrap(javaType)
    ensures r == Success(BlockPosition) <==>
      |ps| > 1 && !ps[0].sqlNullable && ps[0].blockPosition && ps[1].blockIndex
      && ps[0].parameterType == BlockClass && ps[1].parameterType == Primitive(Int)
    ensures r == Success(NullFlag) <==>
      |ps| > 1 && !ps[0].sqlNullable && !ps[0].blockPosition && ps[1].isNull
      && ps[0].parameterType == javaType && ps[1].parameterType == Primitive(Boolean)
    ensures r == Success(NeverNull) <==>
      |ps| > 0 && !ps[0].sqlNullable && !ps[0].blockPosition && !(|ps| > 1 && ps[1].isNull)
      && ps[0].parameterType == javaType
    ensures r != Success(Function)
    ensures r.Failure? ==> r.error == (if |ps| == 0 then MissingParameter else UnexpectedParameters)
  {
    if |ps| == 0 then
      Failure(MissingParameter)
    else if ps[0].sqlNullable then
      if ps[0].parameterType == Wrap(javaType) then Success(BoxedNullable) else Failure(UnexpectedParameters)
    else if ps[0].blockPosition then
      if |ps| > 1 && ps[1].blockIndex && ps[0].parameterType == BlockClass && ps[1].parameterType == Primitive(Int)
      then Success(BlockPosition) else Failure(UnexpectedParameters)
    else if |ps| > 1 && ps[1].isNull then
      if ps[0].parameterType == javaType && ps[1].parameterType == Primitive(Boolean)
      then Success(NullFlag) else Failure(UnexpectedParameters)
    else if ps[0].parameterType == javaType then
      Success(NeverNull)
    else
      Failure(UnexpectedParameters)
  }

  /** `getReturnConvention`: the method's `@SqlNullable` marker and return type decide. */
  function GetReturnConvention(expectedReturnType: JavaClass, m: JavaMethod): (r: Result<ReturnConvention, OperatorError>)
    ensures r == Success(FailOnNull) <==> !m.sqlNullable && m.returnType == expectedReturnType
    ensures r == Success(NullableReturn) <==> m.sqlNullable && m.returnType == Wrap(expectedReturnType)
    ensures r.Failure? ==> r.error == UnexpectedReturnType
  {
    if !m.sqlNullable && m.returnType == expectedReturnType then Success(FailOnNull)
    else if m.sqlNullable && m.returnType == Wrap(expectedReturnType) then Success(NullableReturn)
    else Failure(UnexpectedReturnType)
  }

  /**
   * When classification succeeds: the expected return type is primitive, the return
   * convention is recognised, and the first operand recognised at the front of the
   * parameters either uses them all or is followed by a second one recognised where it
   * ends that uses the rest.
   */
  ghost predicate SuccessiveOperands(javaType: JavaClass, m: JavaMethod, expectedReturnType: JavaClass)
  {
    var ps := m.parameters;
    && expectedReturnType.Primitive?
    && GetReturnConvention(expectedReturnType, m).Success?
    && ExtractNextArgumentConvention(javaType, ps).Success?
    && var first := ParameterCount(ExtractNextArgumentConvention(javaType, ps).value);
       || first == |ps|
       || (&& first < |ps|
           && ExtractNextArgumentConvention(javaType, ps[first..]).Success?
           && first + ParameterCount(ExtractNextArgumentConvention(javaType, ps[first..]).value) == |ps|)
  }

  /**
   * `parseInvocationConvention`: classify the return, then the first operand; if parameters
   * remain, classify a second operand from where the first ended, which must use them all.
   */
  function ParseInvocationConvention(javaType: JavaClass, m: JavaMethod, expectedReturnType: JavaClass): (r: Result<InvocationConvention, OperatorError>)
    ensures !expectedReturnType.Primitive? ==> r == Failure(ReturnTypeNotPrimitive)
    ensures r.Success? ==> 1 <= |r.value.argumentConventions| <= 2
    ensures r.Success? ==> ParameterCountSum(r.value.argumentConventions) == |m.parameters|
    ensures r.Success? ==> Function !in r.value.argumentConventions
    ensures r.Success? ==> GetReturnConvention(expectedReturnType, m) == Success(r.value.returnConvention)
    ensures r.Success? ==> ExtractNextArgumentConvention(javaType, m.parameters) == Success(r.value.argumentConventions[0])
    ensures r.Success? && |r.value.argumentConventions| == 2 ==>
      var first := ParameterCount(r.value.argumentConventions[0]);
      first < |m.parameters| && ExtractNextArgumentConvention(javaType, m.parameters[first..]) == Success(r.value.argumentConventions[1])
    ensures r.Success? <==> SuccessiveOperands(javaType, m, expectedReturnType)
  {
    if !expectedReturnType.Primitive? then Failure(ReturnTypeNotPrimitive)
    else match GetReturnConvention(expectedReturnType, m)
      case Failure(e) => Failure(e)
      case Success(returnConvention) =>
        var ps := m.parameters;
        match ExtractNextArgumentConvention(javaType, ps)
        case Failure(e) => Failure(e)
        case Success(left) =>
          if ParameterCount(left) == |ps| then
            Success(InvocationConvention([left], returnConvention))
          else
            match ExtractNextArgumentConvention(javaType, ps[ParameterCount(left)..])
            case Failure(e) => Failure(e)
            case Success(right) =>
              if ParameterCount(left) + ParameterCount(right) == |ps| then
                assert ParameterCountSum([right]) == ParameterCount(right) by { assert [right][1..] == []; }
                assert ParameterCountSum([left, right]) == ParameterCount(left) + ParameterCountSum([right]) by {
                  assert [left, right][1..] == [right];
                }
                Success(InvocationConvention([left, right], returnConvention))
              else
                Failure(UnexpectedParameters)
  }

  // ---------------------------------------------------------------------------------------
  // The classifier and the validator agree
  // ---------------------------------------------------------------------------------------

  /** An operand the classifier recognises at the front of `ps` passes the validator's check there, and is not a session. */
  lemma ExtractedOperandAccepted(javaType: JavaClass, ps: seq<Parameter>, c: ArgumentConvention)
    requires javaType != SessionClass
    requires ExtractNextArgumentConvention(javaType, ps) == Success(c)
    ensures ArgumentAccepted(javaType, ParameterTypes(ps), c, 0)
    ensures forall i :: 0 <= i < ParameterCount(c) ==> ParameterTypes(ps)[i] != SessionClass
  {
    AssignableIsReflexive(javaType);
    AssignableIsReflexive(Wrap(javaType));
  }

  /** The check of an operand depends only on the parameters from its own index on. */
  lemma ArgumentAcceptedShift(javaType: JavaClass, ts: seq<JavaClass>, c: ArgumentConvention, start: nat)
    requires start <= |ts|
    ensures ArgumentAccepted(javaType, ts[start..], c, 0) <==> ArgumentAccepted(javaType, ts, c, start)
  {
    if start + ParameterCount(c) <= |ts| {
      assert ts[start..][0] == ts[start];
      if ParameterCount(c) == 2 {
        assert ts[start..][1] == ts[start + 1];
      }
    }
  }

  /**
   * Round trip: a convention the classifier infers for a method passes the validator on
   * that method's own handle whenever it has the operand count the operator expects
   * (and the type is not the session class, which the validator refuses everywhere).
   */
  lemma ClassifiedConventionVerifies(kind: OperatorKind, javaType: JavaClass, m: JavaMethod)
    requires javaType != SessionClass
    requires m.isStatic
    requires ParseInvocationConvention(javaType, m, ReturnJavaType(kind)).Success?
    requires |ParseInvocationConvention(javaType, m, ReturnJavaType(kind)).value.argumentConventions| == Arity(kind)
    ensures VerifySignature(Arity(kind), ReturnJavaType(kind), javaType,
      OperatorMethodHandle(ParseInvocationConvention(javaType, m, ReturnJavaType(kind)).value, Unreflect(m))).Pass?
  {
    if |ParseInvocationConvention(javaType, m, ReturnJavaType(kind)).value.argumentConventions| == 1 {
      ClassifiedUnaryVerifies(kind, javaType, m);
    } else {
      ClassifiedBinaryVerifies(kind, javaType, m);
    }
  }

  lemma ClassifiedUnaryVerifies(kind: OperatorKind, javaType: JavaClass, m: JavaMethod)
    requires javaType != SessionClass
    requires m.isStatic
    requires ParseInvocationConvention(javaType, m, ReturnJavaType(kind)).Success?
    requires |ParseInvocationConvention(javaType, m, ReturnJavaType(kind)).value.argumentConventions| == Arity(kind)
    requires |ParseInvocationConvention(javaType, m, ReturnJavaType(kind)).value.argumentConventions| == 1
    ensures VerifySignature(Arity(kind), ReturnJavaType(kind), javaType,
      OperatorMethodHandle(ParseInvocationConvention(javaType, m, ReturnJavaType(kind)).value, Unreflect(m))).Pass?
  {
    var c := ParseInvocationConvention(javaType, m, ReturnJavaType(kind)).value;
    var h := OperatorMethodHandle(c, Unreflect(m));
    var ps := m.parameters;
    var ts := ParameterTypes(ps);
    assert h.methodHandle.parameterTypes == ts;
    var cs := c.argumentConventions;
    var left := ExtractNextArgumentConvention(javaType, ps).value;
    ExtractedOperandAccepted(javaType, ps, left);
    assert Offset(cs, 0) == 0 by { assert cs[..0] == []; }
    assert cs == [left];
    assert ParameterCountSum(cs) == ParameterCount(left) by { assert cs[1..] == []; }
    assert SessionClass !in ts by {
      forall i | 0 <= i < |ts| ensures ts[i] != SessionClass { }
    }
    VerifySignatureAcceptsIff(Arity(kind), ReturnJavaType(kind), javaType, h);
  }

  lemma ClassifiedBinaryVerifies(kind: OperatorKind, javaType: JavaClass, m: JavaMethod)
    requires javaType != SessionClass
    requires m.isStatic
    requires ParseInvocationConvention(javaType, m, ReturnJavaType(kind)).Success?
    requires |ParseInvocationConvention(javaType, m, ReturnJavaType(kind)).value.argumentConventions| == Arity(kind)
    requires |ParseInvocationConvention(javaType, m, ReturnJavaType(kind)).value.argumentConventions| != 1
    ensures VerifySignature(Arity(kind), ReturnJavaType(kind), javaType,
      OperatorMethodHandle(ParseInvocationConvention(javaType, m, ReturnJavaType(kind)).value, Unreflect(m))).Pass?
  {
    var c := ParseInvocationConvention(javaType, m, ReturnJavaType(kind)).value;
    var h := OperatorMethodHandle(c, Unreflect(m));
    var ps := m.parameters;
    assert h.methodHandle.parameterTypes == ParameterTypes(ps);
    var left := c.argumentConventions[0];
    var right := c.argumentConventions[1];
    assert c.argumentConventions == [left, right];
    OperandPairAccepted(javaType, ps, left, right);
    VerifySignatureAcceptsIff(Arity(kind), ReturnJavaType(kind), javaType, h);
  }

  /** Two operands recognised one after the other, using every parameter, pass the validator's operand checks. */
  lemma OperandPairAccepted(javaType: JavaClass, ps: seq<Parameter>, left: ArgumentConvention, right: ArgumentConvention)
    requires javaType != SessionClass
    requires ExtractNextArgumentConvention(javaType, ps) == Success(left)
    requires ParameterCount(left) < |ps|
    requires ExtractNextArgumentConvention(javaType, ps[ParameterCount(left)..]) == Success(right)
    requires ParameterCount(left) + ParameterCount(right) == |ps|
    ensures SessionClass !in ParameterTypes(ps)
    ensures ParameterCountSum([left, right]) == |ps|
    ensures forall k :: 0 <= k < 2 ==> ArgumentAccepted(javaType, ParameterTypes(ps), [left, right][k], Offset([left, right], k))
  {
    var cs := [left, right];
    var ts := ParameterTypes(ps);
    var cl := ParameterCount(left);
    var rest := ps[cl..];
    ExtractedOperandAccepted(javaType, ps, left);
    ExtractedOperandAccepted(javaType, rest, right);
    assert ParameterTypes(rest) == ts[cl..];
    ArgumentAcceptedShift(javaType, ts, right, cl);
    assert Offset(cs, 0) == 0 by { assert cs[..0] == []; }
    assert Offset(cs, 1) == cl by {
      assert cs[..1] == [left];
      assert [left][1..] == [];
    }
    assert ParameterCountSum(cs) == |ps| by {
      assert cs[1..] == [right] && [right][1..] == [];
    }
    forall i | 0 <= i < |ts| ensures ts[i] != SessionClass {
      if i >= cl {
        assert i - cl < ParameterCount(right);
        assert ts[i] == ParameterTypes(rest)[i - cl];
      }
    }
  }

  /**
   * An annotated instance method never verifies: its handle carries the receiver ahead of
   * the declared parameters, which the classified convention does not count.
   */
  lemma InstanceMethodRejected(kind: OperatorKind, javaType: JavaClass, m: JavaMethod)
    requires !m.isStatic
    requires ParseInvocationConvention(javaType, m, ReturnJavaType(kind)).Success?
    ensures VerifySignature(Arity(kind), ReturnJavaType(kind), javaType,
      OperatorMethodHandle(ParseInvocationConvention(javaType, m, ReturnJavaType(kind)).value, Unreflect(m))).Fail?
  {
  }

  /**
   * The classifier compares operand types exactly while the validator accepts any
   * assignable parameter type: a method taking two `Object`s is refused when scanned from
   * an operators class, yet its handle passes when added directly as a never-null pair.
   */
  lemma ValidatorWiderThanClassifier()
    ensures
      var javaType := Named("io.airlift.slice.Slice");
      var operand := Parameter(ObjectClass, false, false, false, false);
      var m := JavaMethod("equal", [operand, operand], Primitive(Boolean), false, Some(Operator(Equal)), true, Named("SliceOperators"));
      && ParseInvocationConvention(javaType, m, ReturnJavaType(Equal)) == Failure(UnexpectedParameters)
      && VerifySignature(Arity(Equal), ReturnJavaType(Equal), javaType,
           OperatorMethodHandle(InvocationConvention([NeverNull, NeverNull], FailOnNull), Unreflect(m))) == Pass
  {
    var javaType := Named("io.airlift.slice.Slice");
    var operand := Parameter(ObjectClass, false, false, false, false);
    var m := JavaMethod("equal", [operand, operand], Primitive(Boolean), false, Some(Operator(Equal)), true, Named("SliceOperators"));
    assert ParameterTypes(m.parameters) == [ObjectClass, ObjectClass];
    assert [NeverNull, NeverNull][1..] == [NeverNull];
    assert [NeverNull][1..] == [];
  }
}
