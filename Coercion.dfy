/** `ConvertArgumentValue` and `GetDefaultValue`, the coercion of a string
    value to a property's declared type, shared by both binders. Strings pass
    through; `int` and `bool` go through `Convert.ChangeType`, that is
    `Int32.Parse` and `Boolean.Parse`; enumerations go through `Enum.Parse`
    ignoring case; `Nullable<T>` converts to `T` and boxes the result. */
module Coercion {
  import opened Text
  import opened Metadata

  /** A conversion succeeds, throws a `FormatException` (the one failure the
      binders catch and rethrow as `CliRuntimeException`), or throws anything
      else. */
  datatype Conversion = Converted(value: Value) | FormatFailure | OtherFailure(failure: Failure)

  const Int32Min: int := -0x8000_0000
  const Int32Max: int := 0x7FFF_FFFF

  predicate IsDigit(c: char) {
    '0' <= c <= '9'
  }

  predicate AllDigits(d: string) {
    forall i :: 0 <= i < |d| ==> IsDigit(d[i])
  }

  /** The white space `NumberStyles.Integer` allows around an integer. */
  predicate IsNumberWhite(c: char) {
    c == ' ' || ('\U{0009}' <= c <= '\U{000D}')
  }

  /** The white space `Boolean.Parse` trims. */
  predicate IsBooleanWhite(c: char) {
    IsWhiteSpace(c) || c == '\0'
  }

  /** The number a string of decimal digits denotes. */
  function DigitsValue(d: string): nat
    requires AllDigits(d)
  {
    if d == [] then 0 else DigitsValue(d[..|d| - 1]) * 10 + (d[|d| - 1] as int - '0' as int)
  }

  /** `Int32.Parse`: optional white space, an optional sign, one or more
      decimal digits, optional white space; a well-formed number outside the
      32-bit range overflows. */
  function ParseInt32(s: string): (r: Conversion)
    ensures r.Converted? ==> r.value.Int? && Int32Min <= r.value.i <= Int32Max
    ensures r.OtherFailure? ==> r.failure == Overflow
  {
    var t := TrimBy(s, IsNumberWhite);
    var signed := t != [] && (t[0] == '-' || t[0] == '+');
    var digits := if signed then t[1..] else t;
    if digits == [] || !AllDigits(digits) then FormatFailure
    else
      var magnitude: int := DigitsValue(digits);
      var n: int := if t[0] == '-' then -magnitude else magnitude;
      if Int32Min <= n <= Int32Max then Converted(Int(n)) else OtherFailure(Overflow)
  }

  /** `Boolean.Parse`: `True` or `False` in any casing, white space trimmed. */
  function ParseBoolean(s: string): (r: Conversion)
    ensures r.Converted? ==> r.value.Bool?
    ensures !r.OtherFailure?
  {
    var t := TrimBy(s, IsBooleanWhite);
    if EqualsIgnoreCase(t, "True") then Converted(Bool(true))
    else if EqualsIgnoreCase(t, "False") then Converted(Bool(false))
    else FormatFailure
  }

  /** The first member at or after `k` equal to `name` ignoring case. */
  function FirstMatch(members: seq<string>, name: string, k: nat): (r: Option<nat>)
    requires k <= |members|
    ensures r.Some? ==> k <= r.value < |members| && EqualsIgnoreCase(members[r.value], name)
    ensures r.Some? ==> forall j :: k <= j < r.value ==> !EqualsIgnoreCase(members[j], name)
    ensures r.None? ==> forall j :: k <= j < |members| ==> !EqualsIgnoreCase(members[j], name)
    decreases |members| - k
  {
    if k == |members| then None
    else if EqualsIgnoreCase(members[k], name) then Some(k)
    else FirstMatch(members, name, k + 1)
  }

  /** `Enum.Parse(type, s, ignoreCase: true)` for a member name. Every failure
      is an `ArgumentException`, never a `FormatException`. */
  function ParseEnum(s: string, members: seq<string>): (r: Conversion)
    ensures r.Converted? ==> r.value.Enum? && r.value.ordinal < |members|
    ensures !r.FormatFailure?
  {
    var t := TrimBy(s, IsWhiteSpace);
    if t == [] then OtherFailure(EnumValueEmpty)
    else
      match FirstMatch(members, t, 0)
      case Some(i) => Converted(Enum(i))
      case None => OtherFailure(EnumValueNotFound(s))
  }

  /** Whether `v` is a value of declared type `t`. */
  predicate HasType(v: Value, t: ArgType) {
    match t
    case StringType => v.Null? || v.Str?
    case Plain(b) => HasValueType(v, b)
    case Nullable(b) => v.Null? || HasValueType(v, b)
  }

  predicate HasValueType(v: Value, b: ValueType) {
    match b
    case Int32 => v.Int? && Int32Min <= v.i <= Int32Max
    case Double => false
    case Boolean => v.Bool?
    case Enumeration(_, _, members) => v.Enum? && (v.ordinal < |members| || v.ordinal == 0)
  }

  /** `GetDefaultValue`: `null` for a reference type and for `Nullable<T>`,
      the zero value of any other value type. */
  function DefaultValue(t: ArgType): (v: Value)
    requires Supported(t)
    ensures HasType(v, t)
    ensures v.Null? <==> (t.StringType? || t.Nullable?)
  {
    match t
    case StringType => Null
    case Nullable(_) => Null
    case Plain(b) =>
      match b
      case Int32 => Int(0)
      case Boolean => Bool(false)
      case Enumeration(_, _, _) => Enum(0)
  }

  /** `Convert.ChangeType(s, b)`, or `Enum.Parse` for an enumeration. */
  function ConvertValue(s: string, b: ValueType): (r: Conversion)
    requires !b.Double?
    ensures r.Converted? ==> HasValueType(r.value, b)
    ensures r.FormatFailure? ==> !b.Enumeration?
    ensures r.OtherFailure? ==> r.failure == Overflow || r.failure.EnumValueEmpty? || r.failure.EnumValueNotFound?
  {
    match b
    case Int32 => ParseInt32(s)
    case Boolean => ParseBoolean(s)
    case Enumeration(_, _, members) => ParseEnum(s, members)
  }

  /** `ConvertArgumentValue`; `None` stands for a null argument. A
      `Nullable<enum>` is not an enum, so it takes the `Convert.ChangeType`
      branch, which cannot produce an enumeration from a string. */
  function ConvertArgumentValue(arg: Option<string>, t: ArgType): (r: Conversion)
    requires Supported(t)
    ensures r.Converted? ==> HasType(r.value, t)
    ensures arg.None? ==> r.Converted?
  {
    match arg
    case None => Converted(DefaultValue(t))
    case Some(s) =>
      match t
      case StringType => Converted(Str(s))
      case Plain(b) => ConvertValue(s, b)
      case Nullable(b) => if b.Enumeration? then OtherFailure(InvalidCast(b.enumFullName)) else ConvertValue(s, b)
  }

  /** A `Nullable<T>` property converts present values as `T` does and takes
      `null` for an absent one; for an enumeration `T` every present value
      fails with an invalid cast to the enumeration's full name. */
  lemma NullableWraps(s: string, b: ValueType)
    requires !b.Double?
    ensures ConvertArgumentValue(None, Nullable(b)) == Converted(Null)
    ensures !b.Enumeration? ==> ConvertArgumentValue(Some(s), Nullable(b)) == ConvertArgumentValue(Some(s), Plain(b))
    ensures b.Enumeration? ==> ConvertArgumentValue(Some(s), Nullable(b)) == OtherFailure(InvalidCast(b.enumFullName))
  {
  }

  /** An `int` property converts its value with `int.Parse`. */
  lemma IntegerConverted(v: string)
    ensures ConvertArgumentValue(Some(v), Plain(Int32)) == ParseInt32(v)
  {
  }

  /** A `bool` property converts its value with `bool.Parse`. */
  lemma BooleanConverted(v: string)
    ensures ConvertArgumentValue(Some(v), Plain(Boolean)) == ParseBoolean(v)
  {
  }

  /** The decimal digits of `n`, as `Int32.ToString` writes them. */
  function DecimalDigits(n: nat): (d: string)
    ensures |d| >= 1 && AllDigits(d)
  {
    if n < 10 then [('0' as int + n) as char]
    else DecimalDigits(n / 10) + [('0' as int + n % 10) as char]
  }

  /** `Int32.ToString()`. */
  function IntToString(i: int): string {
    if i < 0 then "-" + DecimalDigits(-i) else DecimalDigits(i)
  }

  /** The rendering of an integer is a sign and digits only. */
  lemma IntToStringPlain(i: int)
    ensures forall k :: 0 <= k < |IntToString(i)| ==> IntToString(i)[k] == '-' || IsDigit(IntToString(i)[k])
    ensures '=' !in IntToString(i) && '"' !in IntToString(i) && ' ' !in IntToString(i)
  {
    var s := IntToString(i);
    forall k | 0 <= k < |s| ensures s[k] == '-' || IsDigit(s[k]) {
      if i < 0 && k > 0 { assert s[k] == DecimalDigits(-i)[k - 1]; }
    }
  }

  lemma {:induction false} DigitsValueOfDecimal(n: nat)
    ensures DigitsValue(DecimalDigits(n)) == n
  {
    if n >= 10 {
      DigitsValueOfDecimal(n / 10);
      var d := DecimalDigits(n);
      assert d[..|d| - 1] == DecimalDigits(n / 10);
    }
  }

  /** Parsing the decimal rendering of any 32-bit integer gives it back. */
  lemma ParseInt32RoundTrip(i: int)
    requires Int32Min <= i <= Int32Max
    ensures ParseInt32(IntToString(i)) == Converted(Int(i))
  {
    var s := IntToString(i);
    var d := DecimalDigits(if i < 0 then -i else i);
    TrimByUnchanged(s, IsNumberWhite);
    DigitsValueOfDecimal(if i < 0 then -i else i);
    if i < 0 {
      assert s[1..] == d;
    }
  }

  /** A string without a single decimal digit is a format error, never an
      integer. */
  lemma ParseInt32Rejects(s: string)
    requires forall k :: 0 <= k < |s| ==> !IsDigit(s[k])
    ensures ParseInt32(s) == FormatFailure
  {
  }

  /** Any casing of `True` or `False` without surrounding white space parses
      to that boolean: `Boolean.ToString()` output and the `"true"` a bare
      `--name` flag carries among them. */
  lemma ParseBooleanCasing(s: string, b: bool)
    requires EqualsIgnoreCase(s, if b then "True" else "False")
    requires !IsBooleanWhite(s[0]) && !IsBooleanWhite(s[|s| - 1])
    ensures ParseBoolean(s) == Converted(Bool(b))
  {
    TrimByUnchanged(s, IsBooleanWhite);
    if !b {
      assert ToLower(s)[0] == 'f';
    }
  }

  /** A member name in any casing (without surrounding white space) parses to
      the first member equal to it ignoring case. */
  lemma EnumIgnoresCase(members: seq<string>, i: nat, x: string)
    requires i < |members| && EqualsIgnoreCase(x, members[i])
    requires forall j :: 0 <= j < i ==> !EqualsIgnoreCase(members[j], members[i])
    requires x != [] && !IsWhiteSpace(x[0]) && !IsWhiteSpace(x[|x| - 1])
    ensures ParseEnum(x, members) == Converted(Enum(i))
  {
    TrimByUnchanged(x, IsWhiteSpace);
    var r := FirstMatch(members, x, 0);
    assert EqualsIgnoreCase(members[i], x);
    if r.None? {
      assert false;
    } else if r.value < i {
      assert EqualsIgnoreCase(members[r.value], members[i]);
    }
  }
}
