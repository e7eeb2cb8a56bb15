# Type operator declarations, Iceberg helpers and the Parquet decimal writer, in Dafny

This project models three pieces of the hetu-core SQL engine and proves properties of them.

**`TypeOperatorDeclaration`** (modules `JavaTypes`, `OperatorConventions`, `OperatorSignatures`
and `TypeOperatorDeclarations`). A SQL type declares the Java implementations of nine
operators:

- equal, hash code, xxHash64 and is-distinct-from;
- indeterminate;
- comparison with unordered values last or first;
- less-than and less-than-or-equal.

The mutable `Builder` is a class with nine `seq` fields. Each add validates an
implementation's handle against its calling convention before storing it. The validator
checks:

- the operand count and the session ban;
- the parameter count;
- each operand's parameters, walking them with a running index;
- the return type.

`addOperators` scans the methods of an operators class. It infers each method's calling
convention from its parameter annotations and adds it. `build()` checks the rules that
tie the lists together, then hands them to a `TypeOperatorDeclaration` that offers only
read-only views of them. Java exceptions become `Failure`/`Fail` values carrying an `OperatorError`, with
one constructor per distinct check. A Java `Class` becomes the `JavaClass` datatype:

- the primitives and their boxes;
- `Block`, `ConnectorSession` and `Object`;
- any other class, by name.

**`IcebergUtil`** covers:

- identifier quoting (`quotedName`, `quotedTableName`);
- the selection of identity partition fields (`getIdentityPartitions`);
- the null, BOOLEAN and VARCHAR branches of `deserializePartitionValue`;
- the `checkNotNull`/`checkArgument`/`checkState` guards.

Errors are `IcebergError` values.

**`ParquetDecimal`** covers `DecimalValueWriter`. It writes:

- decimals of precision up to 9 as INT32;
- decimals of precision up to 18 as INT64;
- longer decimals as fixed-length big-endian two's-complement bytes, as the DECIMAL
  logical type of the Apache Parquet format specifies.

`paddingBigInteger` sign-extends `BigInteger.toByteArray()` to the column's length. The
model proves that the padded bytes read back as the same number. The writer is a class
that records the values it hands to the Parquet values writer and to the column
statistics.

## Model

| member | source | states |
|---|---|---|
| JavaTypes.Wrap | presto-spi/src/main/java/io/prestosql/spi/type/TypeOperatorDeclaration.java:527-530 | the result is never primitive; a primitive becomes its box and any other class is unchanged |
| JavaTypes.IsAssignableFrom | presto-spi/src/main/java/io/prestosql/spi/type/TypeOperatorDeclaration.java:398 | a primitive is assignable only from itself and to itself; `Object` accepts exactly the reference classes; any other class accepts only itself |
| OperatorConventions.Unreflect | presto-spi/src/main/java/io/prestosql/spi/type/TypeOperatorDeclaration.java:328-334 | a static method's handle takes exactly the declared parameter types; an instance method's handle takes the declaring class first and then them; the return type is kept |
| OperatorSignatures.VerifySignature | presto-spi/src/main/java/io/prestosql/spi/type/TypeOperatorDeclaration.java:375-435 | a wrong operand count is the argument-count error; a session parameter always fails; acceptance implies the parameter counts add up and the return convention holds |
| OperatorSignatures.CheckArgumentsPassIff | presto-spi/src/main/java/io/prestosql/spi/type/TypeOperatorDeclaration.java:392-421 | the operand walk passes iff every operand's parameters are accepted at the index that the preceding operands' parameter counts add up to |
| OperatorSignatures.CheckArgumentsPassSound | presto-spi/src/main/java/io/prestosql/spi/type/TypeOperatorDeclaration.java:392-421 | a passing operand walk accepted every operand at its offset |
| OperatorSignatures.CheckArgumentsPassComplete | presto-spi/src/main/java/io/prestosql/spi/type/TypeOperatorDeclaration.java:392-421 | an operand walk in which every operand is accepted at its offset passes |
| OperatorSignatures.VerifySignatureAcceptsIff | presto-spi/src/main/java/io/prestosql/spi/type/TypeOperatorDeclaration.java:375-435 | the validator accepts iff all hold: arity, no session, count sum, per-operand checks, return check |
| OperatorSignatures.FunctionConventionRejected | presto-spi/src/main/java/io/prestosql/spi/type/TypeOperatorDeclaration.java:414-416 | a handle with a FUNCTION operand is always rejected |
| OperatorSignatures.VerifyEach | presto-spi/src/main/java/io/prestosql/spi/type/TypeOperatorDeclaration.java:181-188 | a failing batch fails with the error of some handle that fails while every handle before it passes |
| OperatorSignatures.VerifyEachPassIff | presto-spi/src/main/java/io/prestosql/spi/type/TypeOperatorDeclaration.java:181-188 | validating a batch passes iff every handle in it passes |
| OperatorSignatures.ExtractNextArgumentConvention | presto-spi/src/main/java/io/prestosql/spi/type/TypeOperatorDeclaration.java:485-518 | each convention is inferred exactly under its condition, in priority order: nullable, then block position, then a null flag on the next parameter, then the exact type; a present marker with wrong types fails rather than falling through; FUNCTION is never inferred |
| OperatorSignatures.GetReturnConvention | presto-spi/src/main/java/io/prestosql/spi/type/TypeOperatorDeclaration.java:470-482 | FAIL_ON_NULL iff not nullable and the exact return type; NULLABLE_RETURN iff nullable and the boxed type; otherwise the return-type error |
| OperatorSignatures.ParseInvocationConvention | presto-spi/src/main/java/io/prestosql/spi/type/TypeOperatorDeclaration.java:438-463 | a non-primitive expected type is refused; parsing succeeds iff the return convention is recognised and one operand recognised at the front uses every parameter or is followed by a second one, recognised where the first ends, that uses the rest; the result holds exactly those operands, in that order, and the recognised return convention |
| OperatorSignatures.ExtractedOperandAccepted | presto-spi/src/main/java/io/prestosql/spi/type/TypeOperatorDeclaration.java:485-518 | an inferred operand convention is accepted by the validator's per-operand check at index 0 |
| OperatorSignatures.ClassifiedConventionVerifies | presto-spi/src/main/java/io/prestosql/spi/type/TypeOperatorDeclaration.java:338-364 | round trip: a convention inferred for a static method passes the validator on that method's handle whenever its operand count is the operator's |
| OperatorSignatures.ClassifiedUnaryVerifies | presto-spi/src/main/java/io/prestosql/spi/type/TypeOperatorDeclaration.java:338-364 | the round trip for an inferred convention with one operand |
| OperatorSignatures.ClassifiedBinaryVerifies | presto-spi/src/main/java/io/prestosql/spi/type/TypeOperatorDeclaration.java:338-364 | the round trip for an inferred convention with two operands, the second checked at the index the first one's parameters reach |
| OperatorSignatures.OperandPairAccepted | presto-spi/src/main/java/io/prestosql/spi/type/TypeOperatorDeclaration.java:447-462 | two operands recognised one after the other that use every parameter pass the per-operand checks at their offsets, and no parameter is a session |
| OperatorSignatures.InstanceMethodRejected | presto-spi/src/main/java/io/prestosql/spi/type/TypeOperatorDeclaration.java:321 | an annotated instance method that classifies never verifies: its handle carries the receiver, which the classified convention does not count |
| OperatorSignatures.ValidatorWiderThanClassifier | presto-spi/src/main/java/io/prestosql/spi/type/TypeOperatorDeclaration.java:396-400 | the validator tests assignability but the classifier tests equality: a method over two `Object`s is refused by classification yet passes validation |
| TypeOperatorDeclarations.TypeOperatorDeclaration.IsComparable | presto-spi/src/main/java/io/prestosql/spi/type/TypeOperatorDeclaration.java:87-90 | comparable iff the equal-operator list is non-empty |
| TypeOperatorDeclarations.TypeOperatorDeclaration.IsOrderable | presto-spi/src/main/java/io/prestosql/spi/type/TypeOperatorDeclaration.java:92-95 | orderable iff the unordered-last comparison list is non-empty |
| TypeOperatorDeclarations.TypeOperatorDeclaration.Operators | presto-spi/src/main/java/io/prestosql/spi/type/TypeOperatorDeclaration.java:97-140 | each getter's list is part of the declaration's implementations: no longer than their total |
| TypeOperatorDeclarations.Seal | presto-spi/src/main/java/io/prestosql/spi/type/TypeOperatorDeclaration.java:532-565 | `build()` succeeds iff the cross-operator rules hold, and then seals the lists unchanged (equal without hash code is accepted) |
| TypeOperatorDeclarations.SealedDeclarationQueries | presto-spi/src/main/java/io/prestosql/spi/type/TypeOperatorDeclaration.java:87-95 | on a sealed declaration: comparable iff equal is non-empty iff xxHash64 is non-empty; orderable iff unordered-last is non-empty; a hash implies comparable; an ordering operator implies a comparison operator |
| TypeOperatorDeclarations.EmptyDeclarationSeals | presto-spi/src/main/java/io/prestosql/spi/type/TypeOperatorDeclaration.java:53 | the empty declaration builds, and is neither comparable nor orderable |
| TypeOperatorDeclarations.RegisterMethod | presto-spi/src/main/java/io/prestosql/spi/type/TypeOperatorDeclaration.java:322-367 | an unannotated method changes nothing; an unsupported operator fails; a failure leaves the lists and the flag as they were; an annotated instance method always fails; an annotated method with one of the nine operators fails with the convention's parse error, or else has exactly the verdict of verifying its handle; a success sets the flag and appends the method's handle to its operator's list only |
| TypeOperatorDeclarations.ClassifiedStaticMethodRegisters | presto-spi/src/main/java/io/prestosql/spi/type/TypeOperatorDeclaration.java:338-364 | a static method annotated with one of the nine operators, whose convention is inferred with as many operands as the operator takes, always registers: the flag is set and its handle is appended to that operator's list |
| TypeOperatorDeclarations.RegisterMethods | presto-spi/src/main/java/io/prestosql/spi/type/TypeOperatorDeclaration.java:318-368 | a scan that passes met only static annotated methods, and records an addition only if some method was annotated |
| TypeOperatorDeclarations.RegisterMethodsNext | presto-spi/src/main/java/io/prestosql/spi/type/TypeOperatorDeclaration.java:321-367 | after a prefix that passed, the scan of one more method is that method's registration |
| TypeOperatorDeclarations.RegisterMethodsStopsAtFailure | presto-spi/src/main/java/io/prestosql/spi/type/TypeOperatorDeclaration.java:318-368 | once a method fails, the later methods change nothing |
| TypeOperatorDeclarations.RegisterMethodsCounts | presto-spi/src/main/java/io/prestosql/spi/type/TypeOperatorDeclaration.java:318-368 | a successful scan adds exactly one implementation per annotated method, and records an addition iff some method is annotated |
| TypeOperatorDeclarations.RegisterMethodCounts | presto-spi/src/main/java/io/prestosql/spi/type/TypeOperatorDeclaration.java:322-367 | one successful method grows the stored implementations by one iff it is annotated, and sets the added flag iff it is annotated or was already set |
| TypeOperatorDeclarations.NoAnnotatedMethodFails | presto-spi/src/main/java/io/prestosql/spi/type/TypeOperatorDeclaration.java:369-371 | a class without annotated methods is refused, with no list changed |
| TypeOperatorDeclarations.RegisterMethodsKeepsWellFormed | presto-spi/src/main/java/io/prestosql/spi/type/TypeOperatorDeclaration.java:318-368 | scanning keeps every stored implementation validated for its kind |
| TypeOperatorDeclarations.WellFormedExtend | presto-spi/src/main/java/io/prestosql/spi/type/TypeOperatorDeclaration.java:174-178 | appending validated handles to one list keeps every stored implementation validated |
| TypeOperatorDeclarations.Builder.constructor | presto-spi/src/main/java/io/prestosql/spi/type/TypeOperatorDeclaration.java:168-172 | a new builder holds nine empty lists for a non-void type |
| TypeOperatorDeclarations.Builder.VerifyMethodHandleSignature | presto-spi/src/main/java/io/prestosql/spi/type/TypeOperatorDeclaration.java:375-435 | the loop with a running parameter index returns exactly the validator's verdict |
| TypeOperatorDeclarations.Builder.AddOperator | presto-spi/src/main/java/io/prestosql/spi/type/TypeOperatorDeclaration.java:174-179 | each single add either fails with all nine lists unchanged, or appends exactly that handle to its own list and leaves the other eight as they were; the builder stays valid |
| TypeOperatorDeclarations.Builder.AddOperators | presto-spi/src/main/java/io/prestosql/spi/type/TypeOperatorDeclaration.java:181-188 | a batch add is all-or-nothing: every handle is validated before any is appended |
| TypeOperatorDeclarations.Builder.AddAnnotatedMethod | presto-spi/src/main/java/io/prestosql/spi/type/TypeOperatorDeclaration.java:322-367 | one pass of the scan loop leaves exactly the lists, outcome and added flag of registering that method: unannotated methods are skipped, an unsupported operator or a failed inference fails with nothing changed, otherwise the inferred handle is added |
| TypeOperatorDeclarations.Builder.AddOperatorsFrom | presto-spi/src/main/java/io/prestosql/spi/type/TypeOperatorDeclaration.java:318-373 | the `addedOperator` loop leaves the lists and outcome of the method-by-method registration, stopping at the first failure and failing when nothing was annotated |
| TypeOperatorDeclarations.Builder.Build | presto-spi/src/main/java/io/prestosql/spi/type/TypeOperatorDeclaration.java:532-565 | the result is the sealing of the current lists; a sealed declaration holds only validated implementations and satisfies the cross-operator rules |
| TypeOperatorDeclarations.NewBuilder | presto-spi/src/main/java/io/prestosql/spi/type/TypeOperatorDeclaration.java:142-145 | a builder is refused exactly for `void`, and is otherwise fresh and empty |
| TypeOperatorDeclarations.ExtractOperatorDeclaration | presto-spi/src/main/java/io/prestosql/spi/type/TypeOperatorDeclaration.java:568-573 | new builder, scan, build: the result is well-formed and consistent, and a class without operators is refused |
| TypeOperatorDeclarations.NoTypeOperatorDeclaration | presto-spi/src/main/java/io/prestosql/spi/type/TypeOperatorDeclaration.java:53 | the empty `boolean` builder builds the empty declaration, neither comparable nor orderable |
| IcebergUtil.EscapeQuotes | hetu-iceberg/src/main/java/io/hetu/core/plugin/iceberg/IcebergUtil.java:259 | doubling quotes lengthens the name by its number of quotes |
| IcebergUtil.QuotedName | hetu-iceberg/src/main/java/io/hetu/core/plugin/iceberg/IcebergUtil.java:254-260 | the name is returned unchanged iff it matches `[a-z][a-z0-9]*`; otherwise the result starts and ends with a quote and has length len + 2 + number of quotes |
| IcebergUtil.QuotedTableName | hetu-iceberg/src/main/java/io/hetu/core/plugin/iceberg/IcebergUtil.java:249-252 | two simple names are joined by a dot unquoted; the result is never shorter than both names and the dot |
| IcebergUtil.ParseEscapedName | hetu-iceberg/src/main/java/io/hetu/core/plugin/iceberg/IcebergUtil.java:259 | collapsing doubled quotes up to the closing quote recovers the original name |
| IcebergUtil.ParseQuotedName | hetu-iceberg/src/main/java/io/hetu/core/plugin/iceberg/IcebergUtil.java:254-260 | a quoted name followed by a dot or by nothing reads back as the name |
| IcebergUtil.ParseSimpleName | hetu-iceberg/src/main/java/io/hetu/core/plugin/iceberg/IcebergUtil.java:123 | an unquoted simple name ends at the following dot |
| IcebergUtil.QuotedTableNameRoundTrip | hetu-iceberg/src/main/java/io/hetu/core/plugin/iceberg/IcebergUtil.java:249-252 | the schema and table are recovered from `quotedName(schema) + "." + quotedName(table)` |
| IcebergUtil.QuotedTableNameInjective | hetu-iceberg/src/main/java/io/hetu/core/plugin/iceberg/IcebergUtil.java:249-252 | different schema-table pairs never quote to the same string |
| IcebergUtil.BuildMap | hetu-iceberg/src/main/java/io/hetu/core/plugin/iceberg/IcebergUtil.java:204 | the map builder refuses a repeated key; otherwise its keys are exactly the entries' keys, each mapped to its entry's value |
| IcebergUtil.MapOfKeys | hetu-iceberg/src/main/java/io/hetu/core/plugin/iceberg/IcebergUtil.java:204 | the keys of the built map are exactly the keys of the entries |
| IcebergUtil.MapOfValues | hetu-iceberg/src/main/java/io/hetu/core/plugin/iceberg/IcebergUtil.java:204 | with distinct keys, every entry's key maps to that entry's value |
| IcebergUtil.CollectIdentity | hetu-iceberg/src/main/java/io/hetu/core/plugin/iceberg/IcebergUtil.java:197-202 | one loop step keeps the collection invariant: entries pair identity fields with their positions, in increasing order, and every identity field seen so far has an entry |
| IcebergUtil.IdentityMapKeys | hetu-iceberg/src/main/java/io/hetu/core/plugin/iceberg/IcebergUtil.java:194-205 | after the whole spec, the entries' keys are exactly the identity fields |
| IcebergUtil.IdentityMapValues | hetu-iceberg/src/main/java/io/hetu/core/plugin/iceberg/IcebergUtil.java:194-205 | after the whole spec, each identity field maps to a position below the field count that holds it |
| IcebergUtil.GetIdentityPartitions | hetu-iceberg/src/main/java/io/hetu/core/plugin/iceberg/IcebergUtil.java:194-205 | the keys are exactly the fields with the `identity` transform, each mapped to a position below the field count that holds it; a repeated identity field is an illegal-argument failure |
| IcebergUtil.IdentityColumnsDistinct | hetu-iceberg/src/main/java/io/hetu/core/plugin/iceberg/IcebergUtil.java:197-204 | the collected entries have distinct keys iff no identity field repeats |
| IcebergUtil.DeserializePartitionValue | hetu-iceberg/src/main/java/io/hetu/core/plugin/iceberg/IcebergUtil.java:262-336 | a missing value gives null; the invalid-value error names the value and the key; a type that matches no branch (`NonPrimitiveType`) is the internal error |
| IcebergUtil.BooleanPartitionValue | hetu-iceberg/src/main/java/io/hetu/core/plugin/iceberg/IcebergUtil.java:269-277 | BOOLEAN yields true iff the string equals "true" ignoring case, false iff "false", and the invalid-value error otherwise |
| IcebergUtil.BooleanSpellings | hetu-iceberg/src/main/java/io/hetu/core/plugin/iceberg/IcebergUtil.java:270-276 | "TRUE", "fAlSe" and "falſe" are accepted, "yes" is not |
| IcebergUtil.VarcharPartitionValue | hetu-iceberg/src/main/java/io/hetu/core/plugin/iceberg/IcebergUtil.java:302-309 | a VARCHAR value is accepted unchanged iff the type is unbounded or its code-point count is within the bound |
| IcebergUtil.CheckNotNull | hetu-iceberg/src/main/java/io/hetu/core/plugin/iceberg/IcebergUtil.java:433-453 | returns the reference unchanged iff it is non-null, else a null-pointer failure |
| IcebergUtil.CheckArgument | hetu-iceberg/src/main/java/io/hetu/core/plugin/iceberg/IcebergUtil.java:455-460 | fails with an illegal-argument error iff the expression is false |
| IcebergUtil.CheckState | hetu-iceberg/src/main/java/io/hetu/core/plugin/iceberg/IcebergUtil.java:462-467 | fails with an illegal-state error iff the expression is false |
| ParquetDecimal.ToByteArray | presto-parquet/src/main/java/io/prestosql/parquet/writer/valuewriter/DecimalValueWriter.java:80 | `toByteArray` gives at least one byte, the value lies in the signed range of that many bytes, and not in the range of one byte fewer |
| ParquetDecimal.FitsBytesShift | presto-parquet/src/main/java/io/prestosql/parquet/writer/valuewriter/DecimalValueWriter.java:80 | a value fits k bytes iff its quotient by 256 fits k - 1 |
| ParquetDecimal.ToByteArrayDecodes | presto-parquet/src/main/java/io/prestosql/parquet/writer/valuewriter/DecimalValueWriter.java:80 | the bytes of `toByteArray` read back, as big-endian two's complement, as the value |
| ParquetDecimal.ToByteArraySign | presto-parquet/src/main/java/io/prestosql/parquet/writer/valuewriter/DecimalValueWriter.java:77-80 | the leading byte of `toByteArray` is 0x80 or more iff the value is negative, so the fill byte agrees with it |
| ParquetDecimal.ToByteArrayLength | presto-parquet/src/main/java/io/prestosql/parquet/writer/valuewriter/DecimalValueWriter.java:80 | a value in the signed range of k bytes needs at most k bytes |
| ParquetDecimal.SignExtension | presto-parquet/src/main/java/io/prestosql/parquet/writer/valuewriter/DecimalValueWriter.java:77-79 | prefixing copies of the sign byte keeps the two's-complement value |
| ParquetDecimal.Padded | presto-parquet/src/main/java/io/prestosql/parquet/writer/valuewriter/DecimalValueWriter.java:74-85 | padding fails iff the value's bytes outnumber the column length; otherwise it has the column length and reads back as the value |
| ParquetDecimal.PaddedSignExtends | presto-parquet/src/main/java/io/prestosql/parquet/writer/valuewriter/DecimalValueWriter.java:74-85 | padding fails iff the bytes outnumber the column length; otherwise the result has the column length, leading 0xFF for a negative value and 0x00 otherwise, ends with the value's bytes right-aligned, and reads back as the value |
| ParquetDecimal.PaddedFits | presto-parquet/src/main/java/io/prestosql/parquet/writer/valuewriter/DecimalValueWriter.java:74-85 | a value in the signed range of the column length always pads |
| ParquetDecimal.Int128Fits | presto-parquet/src/main/java/io/prestosql/parquet/writer/valuewriter/DecimalValueWriter.java:64-66 | an `Int128` always pads into a column of at least 16 bytes |
| ParquetDecimal.PaddingBigInteger | presto-parquet/src/main/java/io/prestosql/parquet/writer/valuewriter/DecimalValueWriter.java:74-85 | the fill-then-copy loops fail iff the bytes outnumber the column length, and otherwise produce exactly the padded bytes in a fresh array |
| ParquetDecimal.PaddedFromLayout | presto-parquet/src/main/java/io/prestosql/parquet/writer/valuewriter/DecimalValueWriter.java:77-84 | sign bytes in front and the value's bytes right-aligned behind them are exactly the padded form |
| ParquetDecimal.ToInt32 | presto-parquet/src/main/java/io/prestosql/parquet/writer/valuewriter/DecimalValueWriter.java:46 | the `(int)` cast yields a 32-bit value congruent to the input modulo 2^32 |
| ParquetDecimal.ToInt32Lossless | presto-parquet/src/main/java/io/prestosql/parquet/writer/valuewriter/DecimalValueWriter.java:46 | the cast keeps every value already in the 32-bit range |
| ParquetDecimal.EncodeBlock | presto-parquet/src/main/java/io/prestosql/parquet/writer/valuewriter/DecimalValueWriter.java:43-71 | a block writes at most one value per position, and a short decimal never fails |
| ParquetDecimal.EncodeBlockNonNull | presto-parquet/src/main/java/io/prestosql/parquet/writer/valuewriter/DecimalValueWriter.java:44-70 | a block is written whole iff every non-null value encodes; then exactly one value per non-null position is written, in position order, and none for nulls |
| ParquetDecimal.EncodingFollowsPrecision | presto-parquet/src/main/java/io/prestosql/parquet/writer/valuewriter/DecimalValueWriter.java:43-71 | precision up to 9 writes INT32 values, up to 18 INT64 values, above that byte arrays of the column length |
| ParquetDecimal.EncodeBlockFailure | presto-parquet/src/main/java/io/prestosql/parquet/writer/valuewriter/DecimalValueWriter.java:61-70 | only a long decimal whose bytes exceed the column length can stop a write |
| ParquetDecimal.EncodeBlockStopsAtFailure | presto-parquet/src/main/java/io/prestosql/parquet/writer/valuewriter/DecimalValueWriter.java:62-70 | once a position fails, the rest of the block writes nothing |
| ParquetDecimal.EncodeBlockStep | presto-parquet/src/main/java/io/prestosql/parquet/writer/valuewriter/DecimalValueWriter.java:44-70 | one more position writes nothing for a null, appends the encoded value for a non-null one, or fails with the values so far when padding fails |
| ParquetDecimal.DecimalValueWriter.constructor | presto-parquet/src/main/java/io/prestosql/parquet/writer/valuewriter/DecimalValueWriter.java:34-38 | a new writer has written nothing |
| ParquetDecimal.DecimalValueWriter.Write | presto-parquet/src/main/java/io/prestosql/parquet/writer/valuewriter/DecimalValueWriter.java:41-72 | the three loops append to the written values exactly the encoding of the block, and the statistics see exactly the same sequence |
| ParquetDecimal.DecimalValueWriter.WriteInts | presto-parquet/src/main/java/io/prestosql/parquet/writer/valuewriter/DecimalValueWriter.java:43-50 | the INT32 loop never fails and appends the narrowed non-null values, to the writer and the statistics alike |
| ParquetDecimal.DecimalValueWriter.WriteLongs | presto-parquet/src/main/java/io/prestosql/parquet/writer/valuewriter/DecimalValueWriter.java:52-59 | the INT64 loop never fails and appends the non-null values, to the writer and the statistics alike |
| ParquetDecimal.DecimalValueWriter.WriteBinaries | presto-parquet/src/main/java/io/prestosql/parquet/writer/valuewriter/DecimalValueWriter.java:61-70 | the byte-array loop appends the padded non-null values and stops at the first value that does not fit the column |

## Left out

- Reflection is not modelled: `getDeclaredMethods` and `getAnnotation`. A method is a record of its parameters with their annotations, its return type, its `@SqlNullable` marker, its `@ScalarOperator` value, whether it is static and its declaring class. `unreflect` is modelled only for the parameter and return types of the handle. It is total; its `IllegalAccessException` path is not modelled.
- `getDeclaredMethods` returns methods in no specified order. The model takes one given order, and every property holds for every order.
- `Class.isAssignableFrom` is modelled for identity and for `Object` accepting any reference type. The rest of the Java class hierarchy is not modelled.
- Exception messages and their formatting are not modelled. Each distinct check has its own error constructor instead.
- The null checks on constructor arguments are not modelled: the model has no null references.
- The session check inside the operand loop (TypeOperatorDeclaration.java:395) is not modelled. It can never fail, because the check at line 383 has already refused any session parameter.
- The `UnsupportedOperationException` branches for unknown conventions are not modelled: the conventions are closed datatypes.
- The eighteen `addX`/`addXs` methods are modelled as two methods, `AddOperator` and `AddOperators`. Both are parameterised by the operator kind, whose operand count and return type come from `Arity` and `ReturnJavaType`.
- TypeOperatorDeclarations.Builder.Build: the declaration `build()` returns wraps the builder's own lists in read-only views (TypeOperatorDeclaration.java:76-84, 556-565); it does not copy them. A later add on the same builder shows through every declaration already built, and two builds share their lists. The model returns a value. Its guarantees, and those of `SealedDeclarationQueries`, hold at build time only; aliasing between builder and declaration is not modelled.
- Builder.AddOperatorsFrom: the scan is not all-or-nothing, and neither is the model. Implementations added before a failing method stay in the builder.
- OperatorSignatures.ExtractNextArgumentConvention: an empty parameter list is the `MissingParameter` error. It stands for the `IndexOutOfBoundsException` that `get(0)` raises.
- Not every `deserializePartitionValue` branch is modelled. Left out:
  - INTEGER, BIGINT, DATE, TIME and TIMESTAMP (`parseLong`);
  - REAL and DOUBLE (floating point);
  - timestamp with time zone, VARBINARY (Base64), UUID and DECIMAL (`BigDecimal`), which are library conversions.
  
  The DECIMAL `ArithmeticException` from `setScale` is therefore also left out. These primitive types have deserialisers, but the model's `PartitionType` has no constructor for them, so they cannot be represented. `NonPrimitiveType` stands only for a type that matches none of the branches; such a type, and only such a type, takes the internal-error path.
- VARCHAR values are Dafny strings of Unicode scalar values, so the code-point count is the length. Java strings holding unpaired surrogates are not modelled.
- The Iceberg catalog and table plumbing in IcebergUtil.java is not modelled: table loading, snapshots, partition keys, file formats, location providers, schema conversion and transactions. These are thin calls into the Iceberg library.
- `primitiveFieldTypes` is not modelled.
- `ValuesWriter` and `Statistics` internals are not modelled. The writer records the values it passes to each of them, in order.
- `BigInteger.toByteArray` is modelled by `ToByteArray`, the shortest two's-complement encoding. `Int128.toBigInteger` is the identity on the unscaled value.
- DecimalValueWriter.Write requires the block's values to fit the Java type the block stores them in: `long` for short decimals, `Int128` for long ones. The column's type length is a constructor parameter, not derived from the precision.
