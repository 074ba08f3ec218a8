/**
 * `lineagedb/to_sql.h`: `ToSql<T>().Type()` names the SQL type that stores a
 * C++ type and `ToSql<T>().Value(x)` renders a C++ value as a SQL literal.
 * Floating-point types and time points are not part of this model.
 */
module ToSql {
  import opened Wrappers
  import opened StringUtil
  import opened Decimal

  /** The C++ types with a `ToSql` specialisation that this model covers. */
  datatype SqlType =
    | BoolT | CharT | StringT
    | ShortT | IntT | LongT | LongLongT | ULongT | ULongLongT
    | VectorT(elem: SqlType)
    | ArrayT(elem: SqlType, size: nat)

  /** C++ values; all integer types share `IntV`, ranged by `HasType`. */
  datatype Value = BoolV(b: bool) | CharV(c: char) | StringV(s: string) | IntV(x: int) | ListV(xs: seq<Value>)

  const INT16_MIN: int := -0x8000
  const INT16_MAX: int := 0x7FFF
  const UINT64_MAX: int := 0xFFFF_FFFF_FFFF_FFFF

  /** The inclusive range of an integer type: 2, 4 and 8 bytes as the static_asserts fix them. */
  function Range(t: SqlType): (int, int)
  {
    match t
    case ShortT => (INT16_MIN, INT16_MAX)
    case IntT => (INT32_MIN, INT32_MAX)
    case LongT => (INT64_MIN, INT64_MAX)
    case LongLongT => (INT64_MIN, INT64_MAX)
    case ULongT => (0, UINT64_MAX)
    case ULongLongT => (0, UINT64_MAX)
    case _ => (0, -1)
  }

  predicate IsInteger(t: SqlType)
  {
    t.ShortT? || t.IntT? || t.LongT? || t.LongLongT? || t.ULongT? || t.ULongLongT?
  }

  predicate IsScalar(t: SqlType)
  {
    t.BoolT? || t.CharT? || t.StringT? || IsInteger(t)
  }

  /** v is a value of the C++ type t (a `std::array<T, N>` holds exactly N elements). */
  predicate HasType(v: Value, t: SqlType)
  {
    match t
    case BoolT => v.BoolV?
    case CharT => v.CharV?
    case StringT => v.StringV?
    case VectorT(e) => v.ListV? && forall i :: 0 <= i < |v.xs| ==> HasType(v.xs[i], e)
    case ArrayT(e, n) => v.ListV? && |v.xs| == n && forall i :: 0 <= i < |v.xs| ==> HasType(v.xs[i], e)
    case _ => v.IntV? && Range(t).0 <= v.x <= Range(t).1
  }

  /** `ToSql<T>().Type()`. */
  function TypeName(t: SqlType): string
  {
    match t
    case BoolT => "boolean"
    case CharT => "char(1)"
    case StringT => "text"
    case ShortT => "smallint"
    case IntT => "integer"
    case LongT => "bigint"
    case LongLongT => "bigint"
    case ULongT => "numeric(20)"
    case ULongLongT => "numeric(20)"
    case VectorT(e) => TypeName(e) + "[]"
    case ArrayT(e, _) => TypeName(e) + "[]"
  }

  function Quote(s: string): string
  {
    "'" + s + "'"
  }

  /**
   * A SQL array literal of the element literals, cast to the element type's
   * array type so that an empty array has a type.
   */
  function ArrayLiteral(typeName: string, values: seq<string>): string
  {
    "ARRAY[" + Join(Texts(values)) + "]::" + typeName + "[]"
  }

  /** The array format string as the vector and array specialisations write it. */
  function ArrayLiteralAsWritten(typeName: string, values: seq<string>): string
  {
    "ARRAY[]::" + typeName + "[" + Join(Texts(values)) + "]"
  }

  /**
   * `ToSql<T>().Value(x)`. Characters and strings are quoted without
   * escaping. Vectors and arrays render the corrected `ArrayLiteral`, not
   * the format string as written (`ArrayLiteralAsWritten`).
   */
  function ValueText(t: SqlType, v: Value): string
    requires HasType(v, t)
    decreases v
  {
    match t
    case BoolT => if v.b then "true" else "false"
    case CharT => Quote([v.c])
    case StringT => Quote(v.s)
    case VectorT(e) =>
      ArrayLiteral(TypeName(e), seq(|v.xs|, i requires 0 <= i < |v.xs| => ValueText(e, v.xs[i])))
    case ArrayT(e, _) =>
      ArrayLiteral(TypeName(e), seq(|v.xs|, i requires 0 <= i < |v.xs| => ValueText(e, v.xs[i])))
    case _ => IntToString(v.x)
  }

  /**
   * The loop of `ToSql<std::vector<T>>::Value` and `ToSql<std::array<T, N>>::Value`:
   * each element's literal is pushed in order, then the literals are joined.
   */
  method ListValue(t: SqlType, v: Value) returns (s: string)
    requires (t.VectorT? || t.ArrayT?) && HasType(v, t)
    ensures s == ValueText(t, v)
  {
    var values: seq<string> := [];
    var i := 0;
    while i < |v.xs|
      invariant 0 <= i <= |v.xs|
      invariant |values| == i && forall j :: 0 <= j < i ==> values[j] == ValueText(t.elem, v.xs[j])
    {
      values := values + [ValueText(t.elem, v.xs[i])];
      i := i + 1;
    }
    assert values == seq(|v.xs|, j requires 0 <= j < |v.xs| => ValueText(t.elem, v.xs[j]));
    s := ArrayLiteral(TypeName(t.elem), values);
  }

  /** Reading a scalar literal back: the inverse of `ValueText` on scalar types. */
  function ParseValue(t: SqlType, s: string): (r: Option<Value>)
    requires IsScalar(t)
    ensures r.Some? ==> HasType(r.value, t)
  {
    match t
    case BoolT => if s == "true" then Some(BoolV(true)) else if s == "false" then Some(BoolV(false)) else None
    case CharT => if |s| == 3 && s[0] == '\'' && s[2] == '\'' then Some(CharV(s[1])) else None
    case StringT => if |s| >= 2 && s[0] == '\'' && s[|s| - 1] == '\'' then Some(StringV(s[1..|s| - 1])) else None
    case VectorT(_) => None
    case ArrayT(_, _) => None
    case _ =>
      var r := ParseInteger(s, Range(t).0, Range(t).1);
      if r.Some? then Some(IntV(r.value)) else None
  }

  /** Every scalar literal reads back as the value it renders. */
  lemma ScalarRoundTrip(t: SqlType, v: Value)
    requires IsScalar(t) && HasType(v, t)
    ensures ParseValue(t, ValueText(t, v)) == Some(v)
  {
    if IsInteger(t) {
      IntToStringRoundTrip(v.x, Range(t).0, Range(t).1);
    } else if t.StringT? {
      var q := Quote(v.s);
      assert q[1..|q| - 1] == v.s;
    }
  }

  /** The element list of an array literal of element type typeName. */
  function ArrayElements(s: string, typeName: string): Option<string>
  {
    var suffix := "]::" + typeName + "[]";
    if |s| >= 6 + |suffix| && s[..6] == "ARRAY[" && s[|s| - |suffix|..] == suffix
    then Some(s[6..|s| - |suffix|])
    else None
  }

  /** An array literal carries exactly the joined element literals, followed by its type. */
  lemma ArrayLiteralRoundTrip(typeName: string, values: seq<string>)
    ensures ArrayElements(ArrayLiteral(typeName, values), typeName) == Some(Join(Texts(values)))
  {
    var s := ArrayLiteral(typeName, values);
    var j := Join(Texts(values));
    var suffix := "]::" + typeName + "[]";
    assert s == "ARRAY[" + j + suffix;
    assert s[..6] == "ARRAY[";
    assert s[|s| - |suffix|..] == suffix;
    assert s[6..|s| - |suffix|] == j;
  }

  /**
   * A vector's or array's literal is the array literal of its elements'
   * literals, in order, and each scalar element reads back as itself.
   */
  lemma ListValueSpec(t: SqlType, v: Value)
    requires (t.VectorT? || t.ArrayT?) && HasType(v, t)
    ensures var values := seq(|v.xs|, i requires 0 <= i < |v.xs| => ValueText(t.elem, v.xs[i]));
      ArrayElements(ValueText(t, v), TypeName(t.elem)) == Some(Join(Texts(values))) &&
      TypeName(t) == TypeName(t.elem) + "[]" &&
      (IsScalar(t.elem) ==> forall i :: 0 <= i < |v.xs| ==> ParseValue(t.elem, values[i]) == Some(v.xs[i]))
  {
    var values := seq(|v.xs|, i requires 0 <= i < |v.xs| => ValueText(t.elem, v.xs[i]));
    ArrayLiteralRoundTrip(TypeName(t.elem), values);
    if IsScalar(t.elem) {
      forall i | 0 <= i < |v.xs| ensures ParseValue(t.elem, values[i]) == Some(v.xs[i]) {
        ScalarRoundTrip(t.elem, v.xs[i]);
      }
    }
  }

  /**
   * The format string as written puts the elements after the type, where
   * SQL expects the array type's brackets: the result is not an array
   * literal holding the elements unless there are none.
   */
  lemma AsWrittenLosesElements(typeName: string, values: seq<string>)
    requires Join(Texts(values)) != "" && Join(Texts(values))[0] != ']'
    ensures ArrayElements(ArrayLiteralAsWritten(typeName, values), typeName) != Some(Join(Texts(values)))
  {
    var s := ArrayLiteralAsWritten(typeName, values);
    var j := Join(Texts(values));
    var suffix := "]::" + typeName + "[]";
    if ArrayElements(s, typeName).Some? {
      assert s[6] == ']';
      assert ArrayElements(s, typeName).value[0] == ']';
    }
  }

  /** The text between the brackets of a literal in the format as written. */
  function AsWrittenElements(s: string, typeName: string): Option<string>
  {
    var prefix := "ARRAY[]::" + typeName + "[";
    if |s| >= |prefix| + 1 && s[..|prefix|] == prefix && s[|s| - 1] == ']'
    then Some(s[|prefix|..|s| - 1])
    else None
  }

  /**
   * The format as written still carries the joined element literals, but
   * after the element type, where SQL expects the array type's brackets.
   */
  lemma AsWrittenRoundTrip(typeName: string, values: seq<string>)
    ensures AsWrittenElements(ArrayLiteralAsWritten(typeName, values), typeName) == Some(Join(Texts(values)))
  {
    var s := ArrayLiteralAsWritten(typeName, values);
    var j := Join(Texts(values));
    var prefix := "ARRAY[]::" + typeName + "[";
    assert s == prefix + j + "]";
    assert s[..|prefix|] == prefix;
    assert s[|prefix|..|s| - 1] == j;
  }

  /** `ToSql<std::array<bool, 2>>().Value({{true, false}})` as written. */
  lemma AsWrittenBoolArray()
    ensures ArrayLiteralAsWritten("boolean", ["true", "false"]) == "ARRAY[]::boolean[true, false]"
    ensures ArrayElements(ArrayLiteralAsWritten("boolean", ["true", "false"]), "boolean") != Some("true, false")
    ensures ArrayElements(ArrayLiteral("boolean", ["true", "false"]), "boolean") == Some("true, false")
  {
    BoolArrayAsWrittenText();
    BoolElementsJoined();
    AsWrittenLosesElements("boolean", ["true", "false"]);
    ArrayLiteralRoundTrip("boolean", ["true", "false"]);
  }

  lemma BoolArrayAsWrittenText()
    ensures ArrayLiteralAsWritten("boolean", ["true", "false"]) == "ARRAY[]::boolean[true, false]"
  {
    BoolElementsJoined();
  }

  lemma BoolElementsJoined()
    ensures Join(Texts(["true", "false"])) == "true, false"
  {
    assert Texts(["true", "false"]) == [Text("true"), Text("false")];
    assert Texts(["true", "false"])[1..] == [Text("false")];
  }

  /** With no elements the two formats agree on "ARRAY[]::T[]". */
  lemma EmptyArraysAgree(typeName: string)
    ensures ArrayLiteralAsWritten(typeName, []) == ArrayLiteral(typeName, []) == "ARRAY[]::" + typeName + "[]"
  {
  }

  /** Powers of ten. */
  function Pow10(k: nat): nat
  {
    if k == 0 then 1 else 10 * Pow10(k - 1)
  }

  lemma {:induction false} NatToStringLength(n: nat, k: nat)
    requires 1 <= k && n < Pow10(k)
    ensures |NatToString(n)| <= k
  {
    if n >= 10 {
      NatToStringLength(n / 10, k - 1);
    }
  }

  /**
   * "numeric(20)" is wide enough: every unsigned 64-bit value renders in at
   * most 20 digits.
   */
  lemma UnsignedFitsNumeric20(t: SqlType, v: Value)
    requires (t.ULongT? || t.ULongLongT?) && HasType(v, t)
    ensures |ValueText(t, v)| <= 20 && AllDigits(ValueText(t, v))
  {
    assert Pow10(5) == 100_000;
    assert Pow10(10) == 10_000_000_000;
    assert Pow10(15) == 1_000_000_000_000_000;
    assert Pow10(20) == 100_000_000_000_000_000_000;
    NatToStringLength(v.x, 20);
  }
}
