/**
 * The small pure helpers of the Iceberg connector: identifier quoting, the selection of
 * identity partitions, the boolean and varchar branches of partition-value
 * deserialisation, and the precondition guards. Java exceptions become `Failure`/`Fail`
 * values carrying an `IcebergError`.
 */
module IcebergUtil {
  import opened Wrappers

  datatype IcebergError =
    | NullPointer
    | IllegalArgument
    | IllegalState
      /** `ICEBERG_INVALID_PARTITION_VALUE`, naming the rejected string and the partition key. */
    | InvalidPartitionValue(value: string, key: string)
      /** `GENERIC_INTERNAL_ERROR`: a partition type with no deserialiser. */
    | InvalidPartitionType

  // ---------------------------------------------------------------------------
  // Identifier quoting
  // ---------------------------------------------------------------------------

  predicate IsLowerAsciiLetter(c: char) { 'a' <= c <= 'z' }

  predicate IsNameChar(c: char) { IsLowerAsciiLetter(c) || '0' <= c <= '9' }

  /** The whole name matches `[a-z][a-z0-9]*`. */
  predicate IsSimpleName(name: string)
  {
    |name| > 0 && IsLowerAsciiLetter(name[0]) && forall i :: 1 <= i < |name| ==> IsNameChar(name[i])
  }

  function CountQuotes(s: string): nat
  {
    if s == [] then 0 else (if s[0] == '"' then 1 else 0) + CountQuotes(s[1..])
  }

  /** `replace("\"", "\"\"")`: every double quote doubled, every other character kept. */
  function EscapeQuotes(s: string): (r: string)
    ensures |r| == |s| + CountQuotes(s)
  {
    if s == [] then [] else (if s[0] == '"' then "\"\"" else [s[0]]) + EscapeQuotes(s[1..])
  }

  /** `quotedName`: a simple name as it is, any other name in double quotes with its quotes doubled. */
  function QuotedName(name: string): (r: string)
    ensures r == name <==> IsSimpleName(name)
    ensures !IsSimpleName(name) ==> |r| == |name| + 2 + CountQuotes(name) && r[0] == '"' && r[|r| - 1] == '"'
  {
    if IsSimpleName(name) then name else "\"" + EscapeQuotes(name) + "\""
  }

  /** `quotedTableName`: the quoted schema, a dot, the quoted table. */
  function QuotedTableName(schemaName: string, tableName: string): (r: string)
    ensures IsSimpleName(schemaName) && IsSimpleName(tableName) ==> r == schemaName + "." + tableName
    ensures |r| >= |schemaName| + 1 + |tableName|
  {
    QuotedName(schemaName) + "." + QuotedName(tableName)
  }

  /**
   * Reads the inside of a quoted identifier up to its closing quote, collapsing each doubled
   * quote into one; yields the identifier and what follows the closing quote.
   */
  function ParseQuotedBody(s: string): Option<(string, string)>
  {
    if s == [] then None
    else if s[0] == '"' then
      if |s| >= 2 && s[1] == '"' then
        match ParseQuotedBody(s[2..])
        case None => None
        case Some((name, rest)) => Some(("\"" + name, rest))
      else Some(("", s[1..]))
    else
      match ParseQuotedBody(s[1..])
      case None => None
      case Some((name, rest)) => Some(([s[0]] + name, rest))
  }

  /** The length of the longest prefix of `s` made of `[a-z0-9]`. */
  function NameCharsPrefix(s: string): (k: nat)
    ensures k <= |s|
    ensures forall i :: 0 <= i < k ==> IsNameChar(s[i])
    ensures k < |s| ==> !IsNameChar(s[k])
  {
    if s == [] || !IsNameChar(s[0]) then 0 else 1 + NameCharsPrefix(s[1..])
  }

  /** Reads one identifier as `quotedName` writes it, yielding it and the text after it. */
  function ParseName(s: string): Option<(string, string)>
  {
    if |s| > 0 && s[0] == '"' then ParseQuotedBody(s[1..])
    else
      var k := NameCharsPrefix(s);
      if k > 0 then Some((s[..k], s[k..])) else None
  }

  /** Reads a whole `schema.table` string as `quotedTableName` writes it. */
  function ParseTableName(s: string): Option<(string, string)>
  {
    match ParseName(s)
    case None => None
    case Some((schemaName, afterSchema)) =>
      if |afterSchema| > 0 && afterSchema[0] == '.' then
        match ParseName(afterSchema[1..])
        case None => None
        case Some((tableName, rest)) => if rest == [] then Some((schemaName, tableName)) else None
      else None
  }

  /** Collapsing the doubled quotes of an escaped name, up to a lone closing quote, gives the name back. */
  lemma {:induction false} ParseEscapedName(name: string, rest: string)
    requires rest == [] || rest[0] != '"'
    ensures ParseQuotedBody(EscapeQuotes(name) + "\"" + rest) == Some((name, rest))
  {
    var s := EscapeQuotes(name) + "\"" + rest;
    if name == [] {
      assert s == "\"" + rest;
      assert s[1..] == rest;
    } else {
      ParseEscapedName(name[1..], rest);
      var tail := EscapeQuotes(name[1..]) + "\"" + rest;
      if name[0] == '"' {
        assert s == "\"\"" + tail;
        assert s[2..] == tail;
        assert "\"" + name[1..] == name;
      } else {
        assert s == [name[0]] + tail;
        assert s[1..] == tail;
        assert [name[0]] + name[1..] == name;
      }
    }
  }

  /** A quoted name followed by a dot or by nothing reads back as the original name. */
  lemma ParseQuotedName(name: string, rest: string)
    requires rest == [] || rest[0] == '.'
    ensures ParseName(QuotedName(name) + rest) == Some((name, rest))
  {
    if IsSimpleName(name) {
      ParseSimpleName(name, rest);
    } else {
      var body := EscapeQuotes(name) + "\"" + rest;
      assert QuotedName(name) + rest == "\"" + body;
      assert ("\"" + body)[1..] == body;
      ParseEscapedName(name, rest);
    }
  }

  /** A simple name ends where the first character outside `[a-z0-9]` begins. */
  lemma ParseSimpleName(name: string, rest: string)
    requires IsSimpleName(name)
    requires rest == [] || rest[0] == '.'
    ensures ParseName(name + rest) == Some((name, rest))
  {
    var s := name + rest;
    assert s[0] == name[0];
    var k := NameCharsPrefix(s);
    assert forall i :: 0 <= i < |name| ==> IsNameChar(s[i]);
    if |rest| > 0 {
      assert s[|name|] == '.';
    }
    assert k <= |name|;
    assert k < |s| ==> !IsNameChar(s[k]);
    assert s[..k] == name && s[k..] == rest;
  }

  /** `quotedTableName` round-trip: the schema and the table are recovered from the quoted form. */
  lemma QuotedTableNameRoundTrip(schemaName: string, tableName: string)
    ensures ParseTableName(QuotedTableName(schemaName, tableName)) == Some((schemaName, tableName))
  {
    var quotedTable := QuotedName(tableName);
    ParseQuotedName(schemaName, "." + quotedTable);
    assert QuotedTableName(schemaName, tableName) == QuotedName(schemaName) + ("." + quotedTable);
    assert ("." + quotedTable)[1..] == quotedTable + "";
    ParseQuotedName(tableName, "");
  }

  /** Distinct schema-table pairs never quote to the same string. */
  lemma QuotedTableNameInjective(s1: string, t1: string, s2: string, t2: string)
    requires QuotedTableName(s1, t1) == QuotedTableName(s2, t2)
    ensures s1 == s2 && t1 == t2
  {
    QuotedTableNameRoundTrip(s1, t1);
    QuotedTableNameRoundTrip(s2, t2);
  }

  // ---------------------------------------------------------------------------
  // Identity partitions
  // ---------------------------------------------------------------------------

  /** An Iceberg partition field; two fields are equal when all four components are. */
  datatype PartitionField = PartitionField(sourceId: int, fieldId: int, name: string, transform: string)

  /** One `put` into the map builder: a field and its position. */
  type Entry = (PartitionField, nat)

  predicate IsIdentity(field: PartitionField) { field.transform == "identity" }

  /** No identity field occurs twice in the partition spec. */
  predicate IdentityFieldsDistinct(fields: seq<PartitionField>)
  {
    forall i, j :: 0 <= i < j < |fields| && IsIdentity(fields[i]) ==> fields[i] != fields[j]
  }

  predicate DistinctKeys(entries: seq<Entry>)
  {
    forall k, l :: 0 <= k < l < |entries| ==> entries[k].0 != entries[l].0
  }

  /** The map holding the entries of a map builder, later entries written last. */
  function MapOf(entries: seq<Entry>): map<PartitionField, nat>
  {
    if entries == [] then map[] else MapOf(entries[..|entries| - 1])[entries[|entries| - 1].0 := entries[|entries| - 1].1]
  }

  lemma {:induction false} MapOfKeys(entries: seq<Entry>)
    ensures MapOf(entries).Keys == set k | 0 <= k < |entries| :: entries[k].0
  {
    if entries != [] {
      var n := |entries| - 1;
      var prefix := entries[..n];
      var last := entries[n];
      MapOfKeys(prefix);
      var keys := set k | 0 <= k < |entries| :: entries[k].0;
      var prefixKeys := set k | 0 <= k < n :: prefix[k].0;
      assert MapOf(entries).Keys == prefixKeys + {last.0};
      forall x | x in keys ensures x in prefixKeys + {last.0} {
        var k :| 0 <= k < |entries| && entries[k].0 == x;
        if k < n {
          assert prefix[k].0 == x;
        }
      }
      forall x | x in prefixKeys ensures x in keys {
        var k :| 0 <= k < n && prefix[k].0 == x;
        assert entries[k].0 == x;
      }
    }
  }

  lemma {:induction false} MapOfValues(entries: seq<Entry>)
    requires DistinctKeys(entries)
    ensures forall k :: 0 <= k < |entries| ==> entries[k].0 in MapOf(entries) && MapOf(entries)[entries[k].0] == entries[k].1
  {
    if entries != [] {
      var n := |entries| - 1;
      var prefix := entries[..n];
      var last := entries[n];
      assert DistinctKeys(prefix) by {
        forall k, l | 0 <= k < l < |prefix| ensures prefix[k].0 != prefix[l].0 {
          assert prefix[k] == entries[k] && prefix[l] == entries[l];
        }
      }
      MapOfValues(prefix);
      forall k | 0 <= k < |entries| ensures entries[k].0 in MapOf(entries) && MapOf(entries)[entries[k].0] == entries[k].1 {
        if k < n {
          assert prefix[k] == entries[k];
          assert entries[k].0 != last.0;
        }
      }
    }
  }

  /** `ImmutableMap.Builder.build()`: the map of the entries, refused when a key repeats. */
  function BuildMap(entries: seq<Entry>): (r: Result<map<PartitionField, nat>, IcebergError>)
    ensures r.Success? <==> DistinctKeys(entries)
    ensures r.Failure? ==> r.error == IllegalArgument
    ensures r.Success? ==> r.value.Keys == set k | 0 <= k < |entries| :: entries[k].0
    ensures r.Success? ==> forall k :: 0 <= k < |entries| ==> r.value[entries[k].0] == entries[k].1
  {
    if DistinctKeys(entries) then
      MapOfKeys(entries);
      MapOfValues(entries);
      Success(MapOf(entries))
    else Failure(IllegalArgument)
  }

  /**
   * The map-builder entries after the first `i` fields: the identity fields among them,
   * each paired with its position, in position order.
   */
  ghost predicate CollectedIdentity(fields: seq<PartitionField>, columns: seq<Entry>, i: nat)
  {
    && i <= |fields|
    && (forall k :: 0 <= k < |columns| ==> columns[k].1 < i && columns[k].0 == fields[columns[k].1] && IsIdentity(columns[k].0))
    && (forall k, l :: 0 <= k < l < |columns| ==> columns[k].1 < columns[l].1)
    && (forall j :: 0 <= j < i && IsIdentity(fields[j]) ==> exists k :: 0 <= k < |columns| && columns[k].1 == j)
  }

  lemma CollectIdentity(fields: seq<PartitionField>, columns: seq<Entry>, i: nat)
    requires i < |fields|
    requires CollectedIdentity(fields, columns, i)
    ensures IsIdentity(fields[i]) ==> CollectedIdentity(fields, columns + [(fields[i], i)], i + 1)
    ensures !IsIdentity(fields[i]) ==> CollectedIdentity(fields, columns, i + 1)
  {
    if IsIdentity(fields[i]) {
      var next := columns + [(fields[i], i)];
      forall j | 0 <= j <= i && IsIdentity(fields[j]) ensures exists k :: 0 <= k < |next| && next[k].1 == j {
        if j == i {
          assert next[|next| - 1].1 == j;
        } else {
          var k :| 0 <= k < |columns| && columns[k].1 == j;
          assert next[k] == columns[k];
        }
      }
    }
  }

  /** The keys of the map built from all the entries are exactly the identity fields. */
  lemma IdentityMapKeys(fields: seq<PartitionField>, columns: seq<Entry>)
    requires CollectedIdentity(fields, columns, |fields|)
    ensures MapOf(columns).Keys == set i | 0 <= i < |fields| && IsIdentity(fields[i]) :: fields[i]
  {
    var keys := set k | 0 <= k < |columns| :: columns[k].0;
    var identity := set i | 0 <= i < |fields| && IsIdentity(fields[i]) :: fields[i];
    assert keys <= identity by {
      forall f | f in keys ensures f in identity {
        var k :| 0 <= k < |columns| && columns[k].0 == f;
        assert fields[columns[k].1] == f;
      }
    }
    assert identity <= keys by {
      forall j | 0 <= j < |fields| && IsIdentity(fields[j]) ensures fields[j] in keys {
        var k :| 0 <= k < |columns| && columns[k].1 == j;
        assert columns[k].0 == fields[j];
      }
    }
    MapOfKeys(columns);
  }

  /** Each identity field is mapped to a position of the partition spec that holds it. */
  lemma IdentityMapValues(fields: seq<PartitionField>, columns: seq<Entry>)
    requires CollectedIdentity(fields, columns, |fields|)
    requires DistinctKeys(columns)
    ensures forall f :: f in MapOf(columns) ==> MapOf(columns)[f] < |fields| && fields[MapOf(columns)[f]] == f
  {
    MapOfKeys(columns);
    MapOfValues(columns);
    var m := MapOf(columns);
    forall f | f in m ensures m[f] < |fields| && fields[m[f]] == f {
      assert f in set k | 0 <= k < |columns| :: columns[k].0;
      var k :| 0 <= k < |columns| && columns[k].0 == f;
      assert m[columns[k].0] == columns[k].1;
    }
  }

  /**
   * `getIdentityPartitions`: each field whose transform is `identity`, mapped to its position
   * in the partition spec.
   */
  method GetIdentityPartitions(fields: seq<PartitionField>) returns (r: Result<map<PartitionField, nat>, IcebergError>)
    ensures r.Success? <==> IdentityFieldsDistinct(fields)
    ensures r.Failure? ==> r.error == IllegalArgument
    ensures r.Success? ==> r.value.Keys == set i | 0 <= i < |fields| && IsIdentity(fields[i]) :: fields[i]
    ensures r.Success? ==> forall f :: f in r.value ==> r.value[f] < |fields| && fields[r.value[f]] == f
  {
    var columns: seq<Entry> := [];
    var i := 0;
    while i < |fields|
      invariant i <= |fields|
      invariant CollectedIdentity(fields, columns, i)
    {
      var field := fields[i];
      CollectIdentity(fields, columns, i);
      if field.transform == "identity" {
        columns := columns + [(field, i)];
      }
      i := i + 1;
    }
    IdentityColumnsDistinct(fields, columns);
    r := BuildMap(columns);
    if r.Success? {
      IdentityMapKeys(fields, columns);
      IdentityMapValues(fields, columns);
    }
  }

  /** The collected entries have distinct keys exactly when no identity field repeats. */
  lemma IdentityColumnsDistinct(fields: seq<PartitionField>, columns: seq<Entry>)
    requires CollectedIdentity(fields, columns, |fields|)
    ensures DistinctKeys(columns) <==> IdentityFieldsDistinct(fields)
  {
    if DistinctKeys(columns) {
      forall i, j | 0 <= i < j < |fields| && IsIdentity(fields[i]) ensures fields[i] != fields[j] {
        var k :| 0 <= k < |columns| && columns[k].1 == i;
        assert IsIdentity(fields[j]) ==> exists l :: 0 <= l < |columns| && columns[l].1 == j;
        if IsIdentity(fields[j]) {
          var l :| 0 <= l < |columns| && columns[l].1 == j;
          assert k < l;
        }
      }
    }
    if IdentityFieldsDistinct(fields) {
      forall k, l | 0 <= k < l < |columns| ensures columns[k].0 != columns[l].0 {
        assert columns[k].1 < columns[l].1;
      }
    }
  }

  // ---------------------------------------------------------------------------
  // Partition values
  // ---------------------------------------------------------------------------

  /**
   * The partition types the model represents: BOOLEAN, VARCHAR, and `NonPrimitiveType`,
   * which stands only for a type that matches none of the branches (a non-primitive type)
   * and reaches the internal error. The other primitive types, which do have a branch
   * (the integer, floating-point, date, time, timestamp, VARBINARY, UUID and DECIMAL
   * types), have no constructor here and so cannot be passed in.
   */
  datatype PartitionType = BooleanType | VarcharType(boundedLength: Option<nat>) | NonPrimitiveType

  datatype PartitionValue = BooleanValue(b: bool) | VarcharValue(s: string)

  function UpperAscii(c: char): char
  {
    if 'a' <= c <= 'z' then (c as int - 32) as char else c
  }

  /**
   * `equalsIgnoreCase` on one character against a lower-case ASCII letter: the letter, its
   * upper case, or a non-ASCII character whose upper or lower case is one of those
   * (dotted and dotless i, the Kelvin sign, the long s).
   */
  predicate CharEqualsIgnoreCase(c: char, letter: char)
    requires IsLowerAsciiLetter(letter)
  {
    c == letter || c == UpperAscii(letter)
    || (letter == 'i' && (c == 'İ' || c == 'ı'))
    || (letter == 'k' && c == 'K')
    || (letter == 's' && c == 'ſ')
  }

  /** `s.equalsIgnoreCase(word)` for a word of lower-case ASCII letters. */
  predicate EqualsIgnoreCase(s: string, word: string)
    requires forall i :: 0 <= i < |word| ==> IsLowerAsciiLetter(word[i])
  {
    |s| == |word| && forall i :: 0 <= i < |s| ==> CharEqualsIgnoreCase(s[i], word[i])
  }

  /**
   * `deserializePartitionValue` for a missing value and for the BOOLEAN and VARCHAR types;
   * an unparseable value is `ICEBERG_INVALID_PARTITION_VALUE`, a type without a branch is
   * `GENERIC_INTERNAL_ERROR`.
   */
  function DeserializePartitionValue(partitionType: PartitionType, valueString: Option<string>, name: string)
    : (r: Result<Option<PartitionValue>, IcebergError>)
    ensures valueString.None? ==> r == Success(None)
    ensures r.Success? && r.value.Some? ==> valueString.Some?
    ensures r.Failure? && r.error.InvalidPartitionValue? ==> r.error == InvalidPartitionValue(valueString.value, name)
    ensures partitionType.NonPrimitiveType? && valueString.Some? ==> r == Failure(InvalidPartitionType)
  {
    match valueString
    case None => Success(None)
    case Some(s) =>
      match partitionType
      case BooleanType =>
        if EqualsIgnoreCase(s, "true") then Success(Some(BooleanValue(true)))
        else if EqualsIgnoreCase(s, "false") then Success(Some(BooleanValue(false)))
        else Failure(InvalidPartitionValue(s, name))
      case VarcharType(boundedLength) =>
        if boundedLength.Some? && |s| > boundedLength.value then Failure(InvalidPartitionValue(s, name))
        else Success(Some(VarcharValue(s)))
      case NonPrimitiveType => Failure(InvalidPartitionType)
  }

  /** A BOOLEAN partition value is true or false exactly for the case-insensitive words, else invalid. */
  lemma BooleanPartitionValue(s: string, name: string)
    ensures DeserializePartitionValue(BooleanType, Some(s), name) == Success(Some(BooleanValue(true))) <==> EqualsIgnoreCase(s, "true")
    ensures DeserializePartitionValue(BooleanType, Some(s), name) == Success(Some(BooleanValue(false))) <==> EqualsIgnoreCase(s, "false")
    ensures DeserializePartitionValue(BooleanType, Some(s), name).Failure? <==> !EqualsIgnoreCase(s, "true") && !EqualsIgnoreCase(s, "false")
    ensures DeserializePartitionValue(BooleanType, Some(s), name).Failure? ==> DeserializePartitionValue(BooleanType, Some(s), name).error == InvalidPartitionValue(s, name)
  {
    if EqualsIgnoreCase(s, "true") {
      assert |s| == 4;
      assert !EqualsIgnoreCase(s, "false");
    }
  }

  /** The words in any mix of ASCII case are accepted; the long s counts as an `s`. */
  lemma BooleanSpellings(name: string)
    ensures DeserializePartitionValue(BooleanType, Some("TRUE"), name) == Success(Some(BooleanValue(true)))
    ensures DeserializePartitionValue(BooleanType, Some("fAlSe"), name) == Success(Some(BooleanValue(false)))
    ensures DeserializePartitionValue(BooleanType, Some("falſe"), name) == Success(Some(BooleanValue(false)))
    ensures DeserializePartitionValue(BooleanType, Some("yes"), name) == Failure(InvalidPartitionValue("yes", name))
  {
    assert EqualsIgnoreCase("TRUE", "true");
    assert EqualsIgnoreCase("fAlSe", "false");
    assert EqualsIgnoreCase("falſe", "false");
  }

  /** A VARCHAR value is kept as it is when it fits the bound (an unbounded varchar always fits), else invalid. */
  lemma VarcharPartitionValue(boundedLength: Option<nat>, s: string, name: string)
    ensures DeserializePartitionValue(VarcharType(boundedLength), Some(s), name).Success?
            <==> boundedLength.None? || |s| <= boundedLength.value
    ensures DeserializePartitionValue(VarcharType(boundedLength), Some(s), name).Success?
            ==> DeserializePartitionValue(VarcharType(boundedLength), Some(s), name).value == Some(VarcharValue(s))
    ensures DeserializePartitionValue(VarcharType(boundedLength), Some(s), name).Failure?
            ==> DeserializePartitionValue(VarcharType(boundedLength), Some(s), name).error == InvalidPartitionValue(s, name)
  {
  }

  // ---------------------------------------------------------------------------
  // Guards
  // ---------------------------------------------------------------------------

  /** `checkNotNull` (both overloads): the reference itself, or a null-pointer failure. */
  function CheckNotNull<T>(reference: Option<T>): (r: Result<T, IcebergError>)
    ensures r.Success? <==> reference.Some?
    ensures r.Success? ==> r.value == reference.value
    ensures r.Failure? ==> r.error == NullPointer
  {
    match reference
    case None => Failure(NullPointer)
    case Some(v) => Success(v)
  }

  /** `checkArgument` (both overloads): fails with an illegal-argument error iff the expression is false. */
  function CheckArgument(expression: bool): (r: Outcome<IcebergError>)
    ensures r.Pass? <==> expression
    ensures r.Fail? ==> r.error == IllegalArgument
  {
    if expression then Pass else Fail(IllegalArgument)
  }

  /** `checkState`: fails with an illegal-state error iff the expression is false. */
  function CheckState(expression: bool): (r: Outcome<IcebergError>)
    ensures r.Pass? <==> expression
    ensures r.Fail? ==> r.error == IllegalState
  {
    if expression then Pass else Fail(IllegalState)
  }
}
