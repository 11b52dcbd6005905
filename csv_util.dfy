/**
 * The `CSVUtil` object: the header state it keeps between calls and its
 * methods, which change that state and the bean step by step. Each method is
 * tied to the function of `CsvSpec` that states what it computes.
 *
 * The file is handed over as its lines; the first is the header line.
 */
module Csv {
  import opened Wrappers
  import opened JavaLang
  import opened JavaText
  import opened EmployeeBean
  import opened Conversion
  import opened CsvSpec

  /** Exceptions that escape `csvToCollection` instead of dropping a line. */
  datatype FatalError =
    /** `readLine()` returned `null` for the header, and `split` threw. */
    | MissingHeaderLine

  /**
   * `Method.invoke(bean, c)` on the setter of slot `s`: a value of the wrong
   * class is an `IllegalArgumentException` and leaves the bean alone.
   */
  method InvokeSetter(bean: Employee, s: Slot, c: Value) returns (outcome: Outcome<BindError>)
    modifies bean
    ensures match WriteSlot(old(bean.Value()), s, c)
            case Ok(w) => outcome == Pass && bean.Value() == w
            case Err(e) => outcome == Fail(e) && bean.Value() == old(bean.Value())
  {
    match (s, c)
    case (NameSlot, NullValue) => bean.SetName(None); outcome := Pass;
    case (NameSlot, TextValue(t)) => bean.SetName(Some(t)); outcome := Pass;
    case (IdSlot, NullValue) => bean.SetId(None); outcome := Pass;
    case (IdSlot, IntValue(i)) => bean.SetId(Some(i)); outcome := Pass;
    case (DobSlot, NullValue) => bean.SetDob(None); outcome := Pass;
    case (DobSlot, DateValue(d)) => bean.SetDob(Some(d)); outcome := Pass;
    case (PercentageSlot, NullValue) => bean.SetPercentage(None); outcome := Pass;
    case (PercentageSlot, FloatValue(b)) => bean.SetPercentage(Some(b)); outcome := Pass;
    case _ => outcome := Fail(IllegalArgument);
  }

  class CsvUtil {
    /** Trimmed header name to the column it was last seen in. */
    var headerMap: map<string, int>
    /** The cells of the header line, untrimmed. */
    var headers: seq<string>
    /** Field name to field, accumulated over every `loadFields` call. */
    var fieldColumnMapping: FieldTable
    /** The locale's number parser and the other library code conversion calls. */
    const platform: Platform

    /** `new CSVUtil()`: empty maps, no header line read yet. */
    constructor (p: Platform)
      ensures headerMap == map[] && headers == [] && fieldColumnMapping == map[]
      ensures platform == p
    {
      headerMap, headers, fieldColumnMapping := map[], [], map[];
      platform := p;
    }

    /** `getHeader`: split the header line and map each trimmed name to its column. */
    method GetHeader(headLine: string)
      modifies this
      ensures headers == Split(headLine)
      ensures headerMap == HeaderIndex(headers)
      ensures fieldColumnMapping == old(fieldColumnMapping)
    {
      headers := Split(headLine);
      headerMap := map[];
      ghost var names := TrimAll(headers);
      var i := 0;
      while i < |headers|
        invariant 0 <= i <= |headers|
        invariant headers == Split(headLine) && fieldColumnMapping == old(fieldColumnMapping)
        invariant headerMap == LastIndex(names[..i])
      {
        assert names[..i + 1][..i] == names[..i] && names[i] == Trim(headers[i]);
        headerMap := headerMap[Trim(headers[i]) := i];
        i := i + 1;
      }
      assert names[..i] == names;
    }

    /** `loadFields`: put every field of the class under its name; the fields in order are returned. */
    method LoadFields(cls: ClassDesc) returns (fields: seq<FieldDesc>)
      modifies this
      ensures fields == cls
      ensures fieldColumnMapping == LoadedTable(old(fieldColumnMapping), cls)
      ensures headers == old(headers) && headerMap == old(headerMap)
    {
      fields := [];
      var k := 0;
      while k < |cls|
        invariant 0 <= k <= |cls|
        invariant fields == cls[..k]
        invariant fieldColumnMapping == LoadedTable(old(fieldColumnMapping), cls[..k])
        invariant headers == old(headers) && headerMap == old(headerMap)
      {
        assert cls[..k + 1][..k] == cls[..k];
        fields := fields + [cls[k]];
        fieldColumnMapping := fieldColumnMapping[cls[k].name := cls[k]];
        k := k + 1;
      }
      assert cls[..k] == cls;
    }

    /**
     * `assignValueToField`: find the setter, convert the text and call the
     * setter; without a setter, write the field directly. Whatever throws
     * leaves the bean as it was.
     */
    method AssignValueToField(bean: Employee, obj: string, field: FieldDesc) returns (outcome: Outcome<BindError>)
      modifies bean
      ensures match CsvSpec.AssignValueToField(old(bean.Value()), obj, field, platform)
              case Ok(w) => outcome == Pass && bean.Value() == w
              case Err(e) => outcome == Fail(e) && bean.Value() == old(bean.Value())
    {
      if |field.name| == 0 {
        // `charAt(0)` of the empty name
        return Fail(EmptyFieldName);
      }
      var setter := EmployeeSetter(SetterName(field.name), field.fieldType);
      var converted := ConvertFieldValue(field.fieldType, obj, platform);
      match setter
      case Some(s) =>
        if converted.Err? {
          return Fail(ConversionFailed(converted.error));
        }
        outcome := InvokeSetter(bean, s, converted.value);
      case None =>
        // `writeWithoutSetter`: the field is not one of `Employee`'s
        if converted.Err? {
          return Fail(ConversionFailed(converted.error));
        }
        var written := WriteWithoutSetter(bean.Value(), field, converted.value);
        outcome := if written.Ok? then Pass else Fail(written.error);
    }

    /** `setFieldValue`: bind the cell when its column is a known field. */
    method SetFieldValue(bean: Employee, value: string, column: string) returns (outcome: Outcome<BindError>)
      modifies bean
      ensures match CsvSpec.SetFieldValue(old(bean.Value()), value, column, fieldColumnMapping, platform)
              case Ok(w) => outcome == Pass && bean.Value() == w
              case Err(e) => outcome == Fail(e) && bean.Value() == old(bean.Value())
    {
      if column in fieldColumnMapping {
        outcome := AssignValueToField(bean, value, fieldColumnMapping[column]);
      } else {
        outcome := Pass;
      }
    }

    /** `populateBean(line, Employee.class)`: a new `Employee`, bound cell by cell. */
    method PopulateBean(line: seq<string>) returns (r: Result<Employee, BindError>)
      ensures r.Ok? <==> Bind(line, headers, fieldColumnMapping, platform).Ok?
      ensures r.Ok? ==> fresh(r.value) && r.value.Value() == Bind(line, headers, fieldColumnMapping, platform).value
      ensures r.Err? ==> r.error == Bind(line, headers, fieldColumnMapping, platform).error
    {
      var bean := new Employee();
      var col := 0;
      while col < |line|
        invariant 0 <= col <= |line|
        invariant fresh(bean)
        invariant BindFrom(bean.Value(), line, headers, fieldColumnMapping, platform, col) ==
                  Bind(line, headers, fieldColumnMapping, platform)
      {
        if col >= |headers| {
          // `headers[col]` past the end of the header array
          return Err(HeaderIndexOutOfBounds(col));
        }
        var outcome := SetFieldValue(bean, line[col], Trim(headers[col]));
        if outcome.Fail? {
          return Err(outcome.error);
        }
        col := col + 1;
      }
      return Ok(bean);
    }

    /** One pass of the loop in `csvToCollection`: a line that is not blank and
        not only commas is bound and its record added to the set; a line that
        is skipped, or whose binding or `add` throws, leaves the set as it is. */
    method AddLine(collectionSet: set<EmployeeValue>, line: string) returns (next: set<EmployeeValue>)
      ensures next == CollectLine(collectionSet, line, headers, fieldColumnMapping, platform)
    {
      next := collectionSet;
      if Eligible(line) {
        var bean := PopulateBean(Split(line));
        if bean.Ok? {
          var added := HashSetAdd(collectionSet, bean.value.Value());
          if added.Added? {
            next := added.s;
          }
        }
      }
    }

    /**
     * `csvToCollection`: read the header, load the fields of `cls`, then bind
     * every data line that is not blank and not only commas, and add each
     * record to a `HashSet`. A line whose binding or `add` throws is skipped.
     */
    method CsvToCollection(lines: seq<string>, cls: ClassDesc) returns (r: Result<set<EmployeeValue>, FatalError>)
      modifies this
      ensures |lines| == 0 ==> r == Err(MissingHeaderLine) && unchanged(this)
      ensures |lines| > 0 ==>
                && headers == Split(lines[0])
                && headerMap == HeaderIndex(headers)
                && fieldColumnMapping == LoadedTable(old(fieldColumnMapping), cls)
                && r == Ok(Collect({}, lines[1..], headers, fieldColumnMapping, platform))
    {
      if |lines| == 0 {
        return Err(MissingHeaderLine);
      }
      GetHeader(lines[0]);
      var _ := LoadFields(cls);
      var collectionSet: set<EmployeeValue> := {};
      var i := 1;
      while i < |lines|
        invariant 1 <= i <= |lines|
        invariant headers == Split(lines[0]) && headerMap == HeaderIndex(headers)
        invariant fieldColumnMapping == LoadedTable(old(fieldColumnMapping), cls)
        invariant Collect(collectionSet, lines[i..], headers, fieldColumnMapping, platform) ==
                  Collect({}, lines[1..], headers, fieldColumnMapping, platform)
      {
        assert lines[i..][0] == lines[i] && lines[i..][1..] == lines[i + 1..];
        collectionSet := AddLine(collectionSet, lines[i]);
        i := i + 1;
      }
      return Ok(collectionSet);
    }
  }
}
