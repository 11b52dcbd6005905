/**
 * `converFieldValue` and `convertToNumber`: turn the text of one CSV cell
 * into a value of the destination field's declared type.
 *
 * The two library parsers are not modelled: the locale's `DecimalFormat`
 * and `SimpleDateFormat("dd/MM/yyyy")` are the functions `parseNumber` and
 * `parseDate` of a `Platform`, and so are the float and double roundings
 * that `floatValue` and `doubleValue` perform.
 */
module Conversion {
  import opened Wrappers
  import opened JavaLang
  import opened JavaText

  /** The numeric field types `convertToNumber` tells apart. */
  datatype NumberKind =
    | ByteKind | ShortKind | IntegerKind | LongKind
    | FloatKind | DoubleKind | BigIntegerKind | BigDecimalKind

  /**
   * A field's declared type. `primitive` tells `int` from `Integer` (both are
   * converted alike; only the setter lookup distinguishes them). `OtherType`
   * is any other class, which still goes through the number parser.
   */
  datatype FieldType =
    | StringType
    | DateType
    | NumberType(kind: NumberKind, primitive: bool)
    | OtherType(className: string)

  /** What `DecimalFormat.parse` returns: a `Long` when the text is integral
      and fits, a `Double` otherwise. A double is given by its bit pattern and
      by its value rounded toward zero (0 for NaN, beyond the `long` range for
      an infinity), which is all integral narrowing needs. */
  datatype ParsedNumber =
    | ParsedLong(value: Int64)
    | ParsedDouble(bits: Int64, truncated: int)

  /** The library behaviour the converter calls into. */
  datatype Platform = Platform(
    parseNumber: string -> Option<ParsedNumber>,
    parseDate: string -> Option<Date>,
    floatBits: ParsedNumber -> Int32,
    longToDoubleBits: Int64 -> Int64)

  /** A converted cell, as the object handed to the setter. */
  datatype Value =
    | NullValue
    | TextValue(text: string)
    | DateValue(date: Date)
    | ByteValue(b: Int8)
    | ShortValue(s: Int16)
    | IntValue(i: Int32)
    | LongValue(l: Int64)
    | FloatValue(floatBits: Int32)
    | DoubleValue(doubleBits: Int64)
    | NumberValue(number: ParsedNumber)

  /** The exceptions conversion throws, each with the offending text. */
  datatype ConversionError =
    | UnparseableDate(text: string)
    | UnparseableNumber(text: string)
    | NotABigDecimal(text: string)

  /** The value is an instance of the declared field type (`null` aside). A
      parsed number (a `Long` or a `Double`) is an instance of none of the
      field types the converter names. */
  predicate Conforms(v: Value, t: FieldType) {
    match v
    case NullValue => true
    case TextValue(_) => t == StringType
    case DateValue(_) => t == DateType
    case ByteValue(_) => t.NumberType? && t.kind == ByteKind
    case ShortValue(_) => t.NumberType? && t.kind == ShortKind
    case IntValue(_) => t.NumberType? && t.kind == IntegerKind
    case LongValue(_) => t.NumberType? && t.kind == LongKind
    case FloatValue(_) => t.NumberType? && t.kind == FloatKind
    case DoubleValue(_) => t.NumberType? && t.kind == DoubleKind
    case NumberValue(_) => false
  }

  /** The classes a `Long` and a `Double` are instances of, besides their own. */
  const NumberSupertypes: set<string> := {
    "java.lang.Object", "java.lang.Number", "java.io.Serializable", "java.lang.Comparable",
    "java.lang.constant.Constable", "java.lang.constant.ConstantDesc"
  }

  /** A primitive field type, which cannot hold `null`. */
  predicate IsPrimitive(t: FieldType) {
    (t.NumberType? && t.primitive) || (t.OtherType? && t.className in {"boolean", "char"})
  }

  /**
   * `Field.set` accepts the value for a field of type `t`: `null` for any
   * reference type, a parsed number for a supertype of `Long` and `Double`,
   * and otherwise an instance of the type (unboxed for a primitive one).
   */
  predicate Assignable(v: Value, t: FieldType) {
    match v
    case NullValue => !IsPrimitive(t)
    case NumberValue(_) => t.OtherType? && t.className in NumberSupertypes
    case _ => Conforms(v, t)
  }

  /** The field types that `convertToNumber` hands the parsed number to as it is. */
  predicate KeepsParsedNumber(t: FieldType) {
    t.OtherType? || (t.NumberType? && t.kind == BigDecimalKind)
  }

  /** The width of an integral kind. */
  function IntegralWidth(k: NumberKind): Option<Width> {
    match k
    case ByteKind => Some(W8)
    case ShortKind => Some(W16)
    case IntegerKind => Some(W32)
    case LongKind => Some(W64)
    case _ => None
  }

  /** `byteValue()`, `shortValue()`, `intValue()`, `longValue()` of a parsed
      number: a `Long` keeps its low bits; a `Double` is first brought to
      `int` (for byte, short and int) or `long` by rounding toward zero and
      saturating, and then keeps its low bits. */
  function IntegralValue(n: ParsedNumber, w: Width): (r: int)
    ensures InRange(r, w)
  {
    match n
    case ParsedLong(v) => Narrow(v, w)
    case ParsedDouble(_, t) =>
      if w == W64 then Saturate(t, W64) else Narrow(Saturate(t, W32), w)
  }

  function DoubleBits(n: ParsedNumber, p: Platform): Int64 {
    match n
    case ParsedLong(v) => p.longToDoubleBits(v)
    case ParsedDouble(bits, _) => bits
  }

  /**
   * `convertToNumber`: parse, then narrow to the declared kind. Integral
   * kinds truncate silently, as Java's narrowing does. A `BigInteger` field
   * casts the parsed number to `BigDecimal`, which the parser never returns,
   * so it always fails. `BigDecimal` and other classes keep the number as
   * parsed, a `Long` or a `Double`; that object is not an instance of a
   * `BigDecimal` field, so the assignment that follows throws.
   */
  function ConvertToNumber(t: FieldType, value: string, p: Platform): (r: Result<Value, ConversionError>)
    requires !t.StringType? && !t.DateType?
    ensures r.Ok? <==> p.parseNumber(value).Some? && !(t.NumberType? && t.kind == BigIntegerKind)
    ensures p.parseNumber(value).None? ==> r == Err(UnparseableNumber(value))
    ensures p.parseNumber(value).Some? && t.NumberType? && t.kind == BigIntegerKind ==> r == Err(NotABigDecimal(value))
    ensures p.parseNumber(value).Some? && KeepsParsedNumber(t) ==> r == Ok(NumberValue(p.parseNumber(value).value))
    ensures r.Ok? && !KeepsParsedNumber(t) ==> Conforms(r.value, t) && r.value != NullValue
    ensures r.Err? ==> r.error.text == value
  {
    match p.parseNumber(value)
    case None => Err(UnparseableNumber(value))
    case Some(n) =>
      match t
      case OtherType(_) => Ok(NumberValue(n))
      case NumberType(kind, _) =>
        match kind
        case ByteKind => Ok(ByteValue(IntegralValue(n, W8)))
        case ShortKind => Ok(ShortValue(IntegralValue(n, W16)))
        case IntegerKind => Ok(IntValue(IntegralValue(n, W32)))
        case LongKind => Ok(LongValue(IntegralValue(n, W64)))
        case FloatKind => Ok(FloatValue(p.floatBits(n)))
        case DoubleKind => Ok(DoubleValue(DoubleBits(n, p)))
        case BigIntegerKind => Err(NotABigDecimal(value))
        case BigDecimalKind => Ok(NumberValue(n))
  }

  /**
   * `converFieldValue`: a blank cell is `null` whatever the type; a `String`
   * field takes the text as it is; a `Date` field parses it; every other
   * field goes through `ConvertToNumber`.
   */
  function ConvertFieldValue(t: FieldType, value: string, p: Platform): (r: Result<Value, ConversionError>)
    ensures IsBlank(value) ==> r == Ok(NullValue)
    ensures r == Ok(NullValue) ==> IsBlank(value)
    ensures !IsBlank(value) && t == StringType ==> r == Ok(TextValue(value))
    ensures !IsBlank(value) && t == DateType ==>
              r == (if p.parseDate(value).Some? then Ok(DateValue(p.parseDate(value).value))
                    else Err(UnparseableDate(value)))
    ensures !IsBlank(value) && !t.StringType? && !t.DateType? ==> r == ConvertToNumber(t, value, p)
    ensures r.Ok? ==> Conforms(r.value, t) || (KeepsParsedNumber(t) && r.value.NumberValue?)
    ensures r.Err? ==> r.error.text == value
  {
    if IsBlank(value) then Ok(NullValue)
    else match t
      case StringType => Ok(TextValue(value))
      case DateType =>
        (match p.parseDate(value)
         case Some(d) => Ok(DateValue(d))
         case None => Err(UnparseableDate(value)))
      case _ => ConvertToNumber(t, value, p)
  }

  /**
   * An integral field receives the parsed number reduced to its width: the
   * result is in range, agrees with a parsed `Long` modulo 2^width, and
   * equals it when it fits. Out-of-range input wraps; it is not an error.
   */
  lemma IntegralNarrowing(k: NumberKind, primitive: bool, value: string, p: Platform, x: Int64)
    requires IntegralWidth(k).Some?
    requires !IsBlank(value) && p.parseNumber(value) == Some(ParsedLong(x))
    ensures var w := IntegralWidth(k).value;
            var r := ConvertFieldValue(NumberType(k, primitive), value, p);
            && r.Ok?
            && (r.value.ByteValue? || r.value.ShortValue? || r.value.IntValue? || r.value.LongValue?)
            && var y := AsInteger(r.value);
               InRange(y, w) && (x - y) % Modulus(w) == 0 && (InRange(x, w) ==> y == x)
  {
  }

  function AsInteger(v: Value): int
    requires v.ByteValue? || v.ShortValue? || v.IntValue? || v.LongValue?
  {
    match v
    case ByteValue(b) => b
    case ShortValue(s) => s
    case IntValue(i) => i
    case LongValue(l) => l
  }

  /** Feeding 99999999999 into an `Integer` field stores its low 32 bits, 1215752191. */
  lemma IntegerFieldWraps(value: string, p: Platform)
    requires !IsBlank(value) && p.parseNumber(value) == Some(ParsedLong(99_999_999_999))
    ensures ConvertFieldValue(NumberType(IntegerKind, false), value, p) == Ok(IntValue(1_215_752_191))
  {
  }

  /**
   * A parsed `Double` reaches an integral field through `(int)` or `(long)`
   * first: `int` and `long` fields receive the value rounded toward zero and
   * clamped to their range; `byte` and `short` fields then keep the low bits
   * of the clamped `int`.
   */
  lemma DoubleIntoIntegral(k: NumberKind, primitive: bool, value: string, p: Platform, bits: Int64, t: int)
    requires IntegralWidth(k).Some?
    requires !IsBlank(value) && p.parseNumber(value) == Some(ParsedDouble(bits, t))
    ensures var w := IntegralWidth(k).value;
            var r := ConvertFieldValue(NumberType(k, primitive), value, p);
            && r.Ok?
            && (r.value.ByteValue? || r.value.ShortValue? || r.value.IntValue? || r.value.LongValue?)
            && var y := AsInteger(r.value);
               && InRange(y, w)
               && (k == IntegerKind || k == LongKind ==>
                     (InRange(t, w) ==> y == t) && (t < MinOf(w) ==> y == MinOf(w)) && (t > MaxOf(w) ==> y == MaxOf(w)))
               && (k == ByteKind || k == ShortKind ==> (Saturate(t, W32) - y) % Modulus(w) == 0)
  {
  }

  /** 10^10 read into an `Integer` field sticks at `Integer.MAX_VALUE`; 300.7 read into a `Byte` field gives 44. */
  lemma DoubleSaturatesThenWraps(value: string, p: Platform, bits: Int64)
    requires !IsBlank(value)
    ensures p.parseNumber(value) == Some(ParsedDouble(bits, 10_000_000_000)) ==>
              ConvertFieldValue(NumberType(IntegerKind, true), value, p) == Ok(IntValue(0x7fff_ffff))
    ensures p.parseNumber(value) == Some(ParsedDouble(bits, 300)) ==>
              ConvertFieldValue(NumberType(ByteKind, false), value, p) == Ok(ByteValue(44))
  {
    assert Narrow(300, W8) == 44 by {
      MultipleMod(300 - 44, 1, 0x100);
      assert InRange(44, W8);
      NarrowCongruent(300, 44, W8);
    }
  }
}
