/**
 * The behaviour of `CSVUtil` as functions of its inputs: the header index
 * built by `getHeader`, the field table built by `loadFields`, the binding
 * of one row by `populateBean` / `setFieldValue` / `assignValueToField`, the
 * `HashSet.add` that collects the records, and the per-line loop of
 * `csvToCollection`. The class in csv_util.dfy is proved to compute these.
 */
module CsvSpec {
  import opened Wrappers
  import opened JavaLang
  import opened JavaText
  import opened EmployeeBean
  import opened Conversion

  // ================================================================ getHeader

  /** `headers[i].trim()` for every column. */
  function TrimAll(headers: seq<string>): (names: seq<string>)
    ensures |names| == |headers| && forall i :: 0 <= i < |headers| ==> names[i] == Trim(headers[i])
  {
    seq(|headers|, i requires 0 <= i < |headers| => Trim(headers[i]))
  }

  /** Each name mapped to its position, filled from left to right so that the
      last of several equal names wins. */
  function LastIndex(names: seq<string>): (m: map<string, int>)
    ensures forall k :: k in m <==> k in names
    ensures forall k :: k in m ==> 0 <= m[k] < |names| && names[m[k]] == k
  {
    if |names| == 0 then map[]
    else LastIndex(names[..|names| - 1])[names[|names| - 1] := |names| - 1]
  }

  /** The `headerMap` that `getHeader` builds from the split header line. */
  function HeaderIndex(headers: seq<string>): (m: map<string, int>)
    ensures forall k :: k in m ==> 0 <= m[k] < |headers| && Trim(headers[m[k]]) == k
  {
    LastIndex(TrimAll(headers))
  }

  /** The entry of `LastIndex` for one name `k`: present exactly when `k`
      occurs, and then the position of its last occurrence. */
  lemma {:induction false} LastIndexAt(names: seq<string>, k: string)
    ensures k in LastIndex(names) <==> k in names
    ensures k in LastIndex(names) ==>
              var i := LastIndex(names)[k];
              0 <= i < |names| && names[i] == k && k !in names[i + 1..]
  {
    if |names| > 0 {
      var n := |names| - 1;
      var front := names[..n];
      LastIndexAt(front, k);
      assert names == front + [names[n]];
      if names[n] != k && k in LastIndex(front) {
        var i := LastIndex(front)[k];
        assert names[i + 1..] == front[i + 1..] + [names[n]];
      }
    }
  }

  /** `headerMap` holds exactly the trimmed header names, each at the last column carrying it. */
  lemma HeaderIndexExact(headers: seq<string>)
    ensures forall k :: k in HeaderIndex(headers) <==> exists i :: 0 <= i < |headers| && Trim(headers[i]) == k
    ensures forall k :: k in HeaderIndex(headers) ==>
              var i := HeaderIndex(headers)[k];
              0 <= i < |headers| && Trim(headers[i]) == k &&
              forall j :: i < j < |headers| ==> Trim(headers[j]) != k
  {
    var names := TrimAll(headers);
    forall k
      ensures k in HeaderIndex(headers) <==> exists i :: 0 <= i < |headers| && Trim(headers[i]) == k
      ensures k in HeaderIndex(headers) ==>
                var i := HeaderIndex(headers)[k];
                0 <= i < |headers| && Trim(headers[i]) == k &&
                forall j :: i < j < |headers| ==> Trim(headers[j]) != k
    {
      LastIndexAt(names, k);
      if k in HeaderIndex(headers) {
        var i := HeaderIndex(headers)[k];
        forall j | i < j < |headers| ensures Trim(headers[j]) != k {
          assert names[j] == names[i + 1..][j - i - 1];
        }
      }
    }
  }

  // ================================================================ loadFields

  /** A declared field of the target class: its name, its type and whether it
      is `static` and `final`. */
  datatype FieldDesc = FieldDesc(name: string, fieldType: FieldType, isStatic: bool, isFinal: bool)

  /** The fields `FieldUtils.getAllFields` lists for a class, in its order. */
  type ClassDesc = seq<FieldDesc>

  /** `fieldColumnMapping`: column name to field. */
  type FieldTable = map<string, FieldDesc>

  /** The declared fields of `Employee`. */
  const EmployeeClass: ClassDesc := [
    FieldDesc("name", StringType, false, false),
    FieldDesc("id", NumberType(IntegerKind, false), false, false),
    FieldDesc("dob", DateType, false, false),
    FieldDesc("percentage", NumberType(FloatKind, false), false, false)
  ]

  /** `fieldColumnMapping` after `loadFields(cls)`: the old entries, with each
      field of `cls` put under its name in order (the old mapping is not cleared). */
  function LoadedTable(table: FieldTable, cls: ClassDesc): (r: FieldTable)
    ensures table.Keys <= r.Keys
    ensures forall i :: 0 <= i < |cls| ==> cls[i].name in r
    ensures forall n :: n in r ==> n in table || r[n].name == n
  {
    if |cls| == 0 then table
    else LoadedTable(table, cls[..|cls| - 1])[cls[|cls| - 1].name := cls[|cls| - 1]]
  }

  /** After `loadFields`, a name is in the table when it was before or when
      `cls` declares it. */
  lemma {:induction false} LoadedTableAt(table: FieldTable, cls: ClassDesc, n: string)
    ensures n in LoadedTable(table, cls) <==> n in table || exists i :: 0 <= i < |cls| && cls[i].name == n
  {
    if |cls| > 0 {
      var last := |cls| - 1;
      var front := cls[..last];
      LoadedTableAt(table, front, n);
      if cls[last].name != n && exists i :: 0 <= i < |cls| && cls[i].name == n {
        var i :| 0 <= i < |cls| && cls[i].name == n;
        assert front[i].name == n;
      }
    }
  }

  /** The entry under `n` after `loadFields`: the last field of `cls` named
      `n`, or, when `cls` has none, the old entry. */
  lemma {:induction false} LoadedTableValue(table: FieldTable, cls: ClassDesc, n: string)
    ensures (forall i :: 0 <= i < |cls| ==> cls[i].name != n) && n in table ==> LoadedTable(table, cls)[n] == table[n]
    ensures forall i :: 0 <= i < |cls| && cls[i].name == n && (forall j :: i < j < |cls| ==> cls[j].name != n) ==>
              LoadedTable(table, cls)[n] == cls[i]
  {
    if |cls| > 0 {
      var last := |cls| - 1;
      var front := cls[..last];
      LoadedTableValue(table, front, n);
      assert forall i :: 0 <= i < last ==> front[i] == cls[i];
    }
  }

  // ================================================================ setter lookup

  /** The four properties of `Employee` a setter can write. */
  datatype Slot = NameSlot | IdSlot | DobSlot | PercentageSlot

  /** `Character.toUpperCase` on ASCII letters. */
  function UpperAscii(c: char): char {
    if 'a' <= c <= 'z' then (c as int - 32) as char else c
  }

  /** `getWriteMethod`'s name: "set" + upper-cased first letter + the rest. */
  function SetterName(fieldName: string): (r: string)
    requires |fieldName| > 0
    ensures |r| == |fieldName| + 3 && r[..3] == "set"
    ensures r[3] == UpperAscii(fieldName[0]) && r[4..] == fieldName[1..]
  {
    "set" + [UpperAscii(fieldName[0])] + fieldName[1..]
  }

  /** `Employee.class.getMethod(setterName, type)`: its four public setters. */
  function EmployeeSetter(setterName: string, t: FieldType): (r: Option<Slot>)
    ensures r.Some? ==> t == SlotType(r.value)
  {
    if setterName == "setName" && t == StringType then Some(NameSlot)
    else if setterName == "setId" && t == NumberType(IntegerKind, false) then Some(IdSlot)
    else if setterName == "setDob" && t == DateType then Some(DobSlot)
    else if setterName == "setPercentage" && t == NumberType(FloatKind, false) then Some(PercentageSlot)
    else None
  }

  /** The bean property a field of the loaded table is written through, if any. */
  function SetterSlot(f: FieldDesc): (r: Option<Slot>)
    ensures r.Some? ==> |f.name| > 0 && f.fieldType == SlotType(r.value)
  {
    if |f.name| == 0 then None else EmployeeSetter(SetterName(f.name), f.fieldType)
  }

  /** The declared type of each setter's parameter. */
  function SlotType(s: Slot): FieldType {
    match s
    case NameSlot => StringType
    case IdSlot => NumberType(IntegerKind, false)
    case DobSlot => DateType
    case PercentageSlot => NumberType(FloatKind, false)
  }

  lemma SetterNameParts(n: string, target: string)
    requires |n| > 0 && |target| >= 4 && SetterName(n) == target
    ensures |n| == |target| - 3 && UpperAscii(n[0]) == target[3] && n[1..] == target[4..]
  {
    assert SetterName(n)[3] == UpperAscii(n[0]);
    assert SetterName(n)[4..] == n[1..];
  }

  /**
   * A field reaches an `Employee` property exactly when its type is the
   * setter's parameter type and its name is the property's name, with the
   * first letter in either case (`Name` finds `setName` just as `name` does).
   */
  lemma SetterSlotIff(f: FieldDesc, s: Slot)
    ensures SetterSlot(f) == Some(s) <==>
              f.fieldType == SlotType(s) && |f.name| > 0 && f.name[1..] == SlotName(s)[1..] &&
              (f.name[0] == SlotName(s)[0] || f.name[0] == UpperAscii(SlotName(s)[0]))
  {
    if |f.name| > 0 {
      var target := "set" + [UpperAscii(SlotName(s)[0])] + SlotName(s)[1..];
      if SetterName(f.name) == target {
        SetterNameParts(f.name, target);
      }
      if f.name[1..] == SlotName(s)[1..] && (f.name[0] == SlotName(s)[0] || f.name[0] == UpperAscii(SlotName(s)[0])) {
        assert SetterName(f.name) == target;
      }
      EmployeeSetterIff(SetterName(f.name), f.fieldType, s);
    }
  }

  /** `getMethod` finds the setter of `s` exactly under its name and parameter type. */
  lemma EmployeeSetterIff(setterName: string, t: FieldType, s: Slot)
    ensures EmployeeSetter(setterName, t) == Some(s) <==>
              setterName == "set" + [UpperAscii(SlotName(s)[0])] + SlotName(s)[1..] && t == SlotType(s)
  {
    var target := "set" + [UpperAscii(SlotName(s)[0])] + SlotName(s)[1..];
    match s
    case NameSlot => assert target == "setName";
    case IdSlot => assert target == "setId";
    case DobSlot => assert target == "setDob";
    case PercentageSlot => assert target == "setPercentage";
  }

  function SlotName(s: Slot): string {
    match s
    case NameSlot => "name"
    case IdSlot => "id"
    case DobSlot => "dob"
    case PercentageSlot => "percentage"
  }

  /** Every field of `Employee` is written through its own setter. */
  lemma EmployeeFieldsHaveSetters()
    ensures forall i :: 0 <= i < |EmployeeClass| ==>
              SetterSlot(EmployeeClass[i]).Some? && SlotName(SetterSlot(EmployeeClass[i]).value) == EmployeeClass[i].name
  {
    assert SetterName("name") == "setName";
    assert SetterName("id") == "setId";
    assert SetterName("dob") == "setDob";
    assert SetterName("percentage") == "setPercentage";
  }

  // ================================================================ assignValueToField

  /** The exceptions that reject a row. */
  datatype BindError =
    | ConversionFailed(cause: ConversionError)
    | EmptyFieldName
    | NotAFieldOfBean(fieldName: string)
    | IllegalArgument
    | HeaderIndexOutOfBounds(column: int)

  /** A property of an `Employee`, as the object its getter returns. */
  function Get(v: EmployeeValue, s: Slot): Value {
    match s
    case NameSlot => if v.name.Some? then TextValue(v.name.value) else NullValue
    case IdSlot => if v.id.Some? then IntValue(v.id.value) else NullValue
    case DobSlot => if v.dob.Some? then DateValue(v.dob.value) else NullValue
    case PercentageSlot => if v.percentage.Some? then FloatValue(v.percentage.value) else NullValue
  }

  /** `Method.invoke(bean, c)` on the setter of `s`: the argument must be an
      instance of the parameter type or `null`. */
  function WriteSlot(v: EmployeeValue, s: Slot, c: Value): (r: Result<EmployeeValue, BindError>)
    ensures r.Ok? <==> Conforms(c, SlotType(s))
    ensures r.Ok? ==> Get(r.value, s) == c && forall o :: o != s ==> Get(r.value, o) == Get(v, o)
  {
    match (s, c)
    case (NameSlot, NullValue) => Ok(v.(name := None))
    case (NameSlot, TextValue(t)) => Ok(v.(name := Some(t)))
    case (IdSlot, NullValue) => Ok(v.(id := None))
    case (IdSlot, IntValue(i)) => Ok(v.(id := Some(i)))
    case (DobSlot, NullValue) => Ok(v.(dob := None))
    case (DobSlot, DateValue(d)) => Ok(v.(dob := Some(d)))
    case (PercentageSlot, NullValue) => Ok(v.(percentage := None))
    case (PercentageSlot, FloatValue(b)) => Ok(v.(percentage := Some(b)))
    case _ => Err(IllegalArgument)
  }

  /** `FieldUtils.writeField(field, bean, c, true)` succeeds or has its failure swallowed. */
  predicate WriteAccepted(f: FieldDesc, c: Value) {
    f.isStatic && (f.isFinal || Assignable(c, f.fieldType))
  }

  /**
   * `writeWithoutSetter` once the text has converted, for a field `Employee`
   * has no setter for. Such a field belongs to another class, so an instance
   * field rejects the bean. A `static` field ignores the bean: a `final` one
   * refuses the write with an `IllegalAccessException`, which is swallowed,
   * and any other one is written when `Field.set` accepts the value. A class's
   * static state is not part of the model, so the bean comes back unchanged.
   */
  function WriteWithoutSetter(v: EmployeeValue, f: FieldDesc, c: Value): (r: Result<EmployeeValue, BindError>)
    ensures r.Ok? <==> WriteAccepted(f, c)
    ensures r.Ok? ==> r.value == v
    ensures !f.isStatic ==> r == Err(NotAFieldOfBean(f.name))
  {
    if !f.isStatic then Err(NotAFieldOfBean(f.name))
    else if f.isFinal || Assignable(c, f.fieldType) then Ok(v)
    else Err(IllegalArgument)
  }

  /**
   * `assignValueToField`: build the setter's name (which fails on an empty
   * field name), convert the text, and call the setter with the result. A
   * field with no matching setter falls back to a direct write.
   */
  function AssignValueToField(v: EmployeeValue, value: string, f: FieldDesc, p: Platform): (r: Result<EmployeeValue, BindError>)
    ensures |f.name| == 0 ==> r == Err(EmptyFieldName)
    ensures r.Ok? <==>
              && |f.name| > 0
              && ConvertFieldValue(f.fieldType, value, p).Ok?
              && (SetterSlot(f).Some? || WriteAccepted(f, ConvertFieldValue(f.fieldType, value, p).value))
    ensures r.Ok? && SetterSlot(f).Some? ==> var s := SetterSlot(f).value;
              Get(r.value, s) == ConvertFieldValue(f.fieldType, value, p).value &&
              forall o :: o != s ==> Get(r.value, o) == Get(v, o)
    ensures r.Ok? && SetterSlot(f).None? ==> r.value == v
    ensures |f.name| > 0 && ConvertFieldValue(f.fieldType, value, p).Err? ==>
              r == Err(ConversionFailed(ConvertFieldValue(f.fieldType, value, p).error))
  {
    if |f.name| == 0 then Err(EmptyFieldName)
    else
      var converted := ConvertFieldValue(f.fieldType, value, p);
      match EmployeeSetter(SetterName(f.name), f.fieldType)
      case Some(s) =>
        if converted.Err? then Err(ConversionFailed(converted.error))
        else WriteSlot(v, s, converted.value)
      case None =>
        if converted.Err? then Err(ConversionFailed(converted.error))
        else WriteWithoutSetter(v, f, converted.value)
  }

  /** `setFieldValue`: a column with no entry in the table leaves the bean as it is. */
  function SetFieldValue(v: EmployeeValue, value: string, column: string, table: FieldTable, p: Platform): (r: Result<EmployeeValue, BindError>)
    ensures column !in table ==> r == Ok(v)
    ensures r.Ok? ==> forall s :: Get(r.value, s) != Get(v, s) ==> column in table && SetterSlot(table[column]) == Some(s)
  {
    if column in table then AssignValueToField(v, value, table[column], p) else Ok(v)
  }

  // ================================================================ populateBean

  /** The loop of `populateBean` from column `col` on, starting from bean state `v`.
      `headers[col]` is read for every cell, so a cell past the last header throws. */
  function BindFrom(v: EmployeeValue, line: seq<string>, headers: seq<string>, table: FieldTable, p: Platform, col: nat): (r: Result<EmployeeValue, BindError>)
    requires col <= |line|
    decreases |line| - col
  {
    if col == |line| then Ok(v)
    else if col >= |headers| then Err(HeaderIndexOutOfBounds(col))
    else match SetFieldValue(v, line[col], Trim(headers[col]), table, p)
      case Err(e) => Err(e)
      case Ok(w) => BindFrom(w, line, headers, table, p, col + 1)
  }

  /** `populateBean(line, Employee.class)`: a new blank `Employee` bound cell by cell. */
  function Bind(line: seq<string>, headers: seq<string>, table: FieldTable, p: Platform): (r: Result<EmployeeValue, BindError>)
    ensures r.Ok? ==> |line| == 0 || |line| <= |headers|
  {
    BindSucceedsIff(Blank, line, headers, table, p, 0);
    BindFrom(Blank, line, headers, table, p, 0)
  }

  /** Column `c` has a header whose trimmed name is in the table with a field written through `s`. */
  predicate Targets(headers: seq<string>, table: FieldTable, c: nat, s: Slot) {
    c < |headers| && Trim(headers[c]) in table && SetterSlot(table[Trim(headers[c])]) == Some(s)
  }

  /** Cell `c` can be bound: its header is unmapped, or its field has a name, its
      text converts, and the field has a setter or takes the direct write. */
  predicate CellBinds(line: seq<string>, headers: seq<string>, table: FieldTable, p: Platform, c: nat)
    requires c < |line| && c < |headers|
  {
    var column := Trim(headers[c]);
    column !in table ||
      var f := table[column];
      var converted := ConvertFieldValue(f.fieldType, line[c], p);
      |f.name| > 0 && converted.Ok? && (SetterSlot(f).Some? || WriteAccepted(f, converted.value))
  }

  /** The last column at or after `lo` that targets `s`, if any. */
  function LastTarget(line: seq<string>, headers: seq<string>, table: FieldTable, s: Slot, lo: nat): (r: Option<nat>)
    requires lo <= |line|
    ensures r.Some? ==> lo <= r.value < |line| && Targets(headers, table, r.value, s)
    decreases |line| - lo
  {
    if lo == |line| then None
    else
      var later := LastTarget(line, headers, table, s, lo + 1);
      if later.Some? then later else if Targets(headers, table, lo, s) then Some(lo) else None
  }

  /** The column `LastTarget` finds is the last one from `lo` on that targets
      `s`, and when it finds none, no column from `lo` on targets `s`. */
  lemma {:induction false} LastTargetIsLast(line: seq<string>, headers: seq<string>, table: FieldTable, s: Slot, lo: nat)
    requires lo <= |line|
    ensures var r := LastTarget(line, headers, table, s, lo);
            && (r.Some? ==> forall c :: r.value < c < |line| ==> !Targets(headers, table, c, s))
            && (r.None? ==> forall c :: lo <= c < |line| ==> !Targets(headers, table, c, s))
    decreases |line| - lo
  {
    if lo < |line| {
      LastTargetIsLast(line, headers, table, s, lo + 1);
    }
  }

  /** Every cell from `col` on has a header and binds. */
  predicate RowBinds(line: seq<string>, headers: seq<string>, table: FieldTable, p: Platform, col: nat)
    requires col <= |line|
    decreases |line| - col
  {
    col == |line| || (col < |headers| && CellBinds(line, headers, table, p, col) && RowBinds(line, headers, table, p, col + 1))
  }

  /** The loop from `col` on completes exactly when the rest of the row binds. */
  lemma {:induction false} BindFromOkIff(v: EmployeeValue, line: seq<string>, headers: seq<string>, table: FieldTable, p: Platform, col: nat)
    requires col <= |line|
    ensures BindFrom(v, line, headers, table, p, col).Ok? <==> RowBinds(line, headers, table, p, col)
    decreases |line| - col
  {
    if col < |line| && col < |headers| {
      var r := SetFieldValue(v, line[col], Trim(headers[col]), table, p);
      CellStep(v, line, headers, table, p, col);
      if r.Ok? {
        BindFromOkIff(r.value, line, headers, table, p, col + 1);
      }
    }
  }

  /** `RowBinds` spelled out: no cell past the headers, and every cell binds. */
  lemma {:induction false} RowBindsIff(line: seq<string>, headers: seq<string>, table: FieldTable, p: Platform, col: nat)
    requires col <= |line|
    ensures RowBinds(line, headers, table, p, col) <==>
              (col == |line| || |line| <= |headers|) &&
              forall c :: col <= c < |line| && c < |headers| ==> CellBinds(line, headers, table, p, c)
    decreases |line| - col
  {
    if col < |line| && col < |headers| {
      RowBindsIff(line, headers, table, p, col + 1);
      assert (col == |line| || |line| <= |headers|) <==> (col + 1 == |line| || |line| <= |headers|);
      if CellBinds(line, headers, table, p, col) {
        assert (forall c :: col <= c < |line| && c < |headers| ==> CellBinds(line, headers, table, p, c)) <==>
               (forall c :: col + 1 <= c < |line| && c < |headers| ==> CellBinds(line, headers, table, p, c));
      }
    }
  }

  /**
   * A row binds exactly when it has no more cells than there are headers and
   * every cell binds; otherwise the binding throws.
   */
  lemma BindSucceedsIff(v: EmployeeValue, line: seq<string>, headers: seq<string>, table: FieldTable, p: Platform, col: nat)
    requires col <= |line|
    ensures BindFrom(v, line, headers, table, p, col).Ok? <==>
              (col == |line| || |line| <= |headers|) &&
              forall c :: col <= c < |line| && c < |headers| ==> CellBinds(line, headers, table, p, c)
  {
    BindFromOkIff(v, line, headers, table, p, col);
    RowBindsIff(line, headers, table, p, col);
  }

  /** One cell of the loop succeeds exactly when the cell binds. */
  lemma CellStep(v: EmployeeValue, line: seq<string>, headers: seq<string>, table: FieldTable, p: Platform, col: nat)
    requires col < |line| && col < |headers|
    ensures SetFieldValue(v, line[col], Trim(headers[col]), table, p).Ok? <==> CellBinds(line, headers, table, p, col)
  {
  }

  /**
   * What a bound row holds: each property is the converted text of the last
   * cell whose header names it; a property no cell names keeps its value
   * (for a new bean, `null`). Unmapped columns change nothing.
   */
  lemma {:induction false} BindResult(v: EmployeeValue, line: seq<string>, headers: seq<string>, table: FieldTable, p: Platform, col: nat, s: Slot)
    requires col <= |line|
    requires BindFrom(v, line, headers, table, p, col).Ok?
    ensures var w := BindFrom(v, line, headers, table, p, col).value;
            match LastTarget(line, headers, table, s, col)
            case None => Get(w, s) == Get(v, s)
            case Some(c) => ConvertFieldValue(table[Trim(headers[c])].fieldType, line[c], p) == Ok(Get(w, s))
    decreases |line| - col
  {
    if col < |line| {
      var column := Trim(headers[col]);
      var r := SetFieldValue(v, line[col], column, table, p);
      assert r.Ok? && BindFrom(v, line, headers, table, p, col) == BindFrom(r.value, line, headers, table, p, col + 1);
      BindResult(r.value, line, headers, table, p, col + 1, s);
      CellResult(v, line, headers, table, p, col, s);
    }
  }

  /** What one bound cell leaves in property `s`: the converted text when its
      column targets `s`, and otherwise what was there. */
  lemma CellResult(v: EmployeeValue, line: seq<string>, headers: seq<string>, table: FieldTable, p: Platform, col: nat, s: Slot)
    requires col < |line| && col < |headers|
    requires SetFieldValue(v, line[col], Trim(headers[col]), table, p).Ok?
    ensures var w := SetFieldValue(v, line[col], Trim(headers[col]), table, p).value;
            if Targets(headers, table, col, s)
            then ConvertFieldValue(table[Trim(headers[col])].fieldType, line[col], p) == Ok(Get(w, s))
            else Get(w, s) == Get(v, s)
  {
  }

  /** On the fresh bean: a property that no cell of the row names is left `null`. */
  lemma UnnamedPropertyStaysNull(line: seq<string>, headers: seq<string>, table: FieldTable, p: Platform, s: Slot)
    requires Bind(line, headers, table, p).Ok?
    requires forall c :: 0 <= c < |line| ==> !Targets(headers, table, c, s)
    ensures Get(Bind(line, headers, table, p).value, s) == NullValue
  {
    BindResult(Blank, line, headers, table, p, 0, s);
  }

  // ================================================================ HashSet.add

  /** What `collectionSet.add(bean)` does. */
  datatype AddResult = Added(s: set<EmployeeValue>) | AlreadyPresent | AddThrewNullPointer

  /**
   * `HashSet.add(x)`: `x.equals(e)` is asked of the elements `e` with the
   * same hash code. If one of those calls throws, the exception escapes;
   * if one returns true, nothing is added; otherwise `x` is added.
   * `HashMap.putVal` asks them in bucket order and stops at the first true
   * answer, so this order-free reading agrees with it when at most one
   * element of the bucket answers other than false. Every set the line loop
   * builds is such a set (`Distinct`, `OneCandidate`, `CollectKeepsDistinct`).
   */
  function HashSetAdd(s: set<EmployeeValue>, x: EmployeeValue): (r: AddResult)
    ensures r.Added? ==> x !in s && r.s == s + {x}
    ensures r.AlreadyPresent? ==> x in s
    ensures x in s ==> !r.Added?
  {
    if exists e :: e in s && HashOf(e) == HashOf(x) && EqualsValue(x, e) == ThrowsNullPointer then AddThrewNullPointer
    else if exists e :: e in s && HashOf(e) == HashOf(x) && EqualsValue(x, e) == Returns(true) then AlreadyPresent
    else Added(s + {x})
  }

  /**
   * The invariant the set keeps: no two elements with the same hash code
   * agree on `dob`, `id` and `name`. So for a new record at most one element
   * of its bucket is compared without a `false` answer, and the outcome of
   * `add` does not depend on the order of the bucket.
   */
  ghost predicate Distinct(s: set<EmployeeValue>) {
    forall a, b :: a in s && b in s && a != b && HashOf(a) == HashOf(b) ==> !SameKey(a, b)
  }

  /** A set of one record keeps the invariant. */
  lemma SingletonDistinct(e: EmployeeValue)
    ensures Distinct({e})
  {
  }

  /** Under the invariant, at most one element is a candidate for a new record. */
  lemma OneCandidate(s: set<EmployeeValue>, x: EmployeeValue, a: EmployeeValue, b: EmployeeValue)
    requires Distinct(s) && a in s && b in s
    requires HashOf(a) == HashOf(x) && EqualsValue(x, a) != Returns(false)
    requires HashOf(b) == HashOf(x) && EqualsValue(x, b) != Returns(false)
    ensures a == b
  {
    assert SameKey(x, a) && SameKey(x, b);
    assert SameKey(a, b) && HashOf(a) == HashOf(b);
  }

  /** A record with the same hash and key as an element is never added. */
  lemma CandidateBlocksAdd(s: set<EmployeeValue>, x: EmployeeValue, e: EmployeeValue)
    requires e in s && HashOf(e) == HashOf(x) && SameKey(e, x)
    ensures !HashSetAdd(s, x).Added?
  {
    if e.percentage.Some? && x.percentage.Some? {
      SameKeySameHashIsSame(e, x);
      assert EqualsValue(x, e) == Returns(true);
    } else {
      assert EqualsValue(x, e) == ThrowsNullPointer;
    }
  }

  /** `add` keeps the invariant, and a record it adds is new (the set grows by one). */
  lemma AddKeepsDistinct(s: set<EmployeeValue>, x: EmployeeValue)
    requires Distinct(s)
    ensures HashSetAdd(s, x).Added? ==> Distinct(HashSetAdd(s, x).s) && x !in s && |HashSetAdd(s, x).s| == |s| + 1
  {
    forall e | e in s && HashOf(e) == HashOf(x) && SameKey(e, x) ensures !HashSetAdd(s, x).Added? {
      CandidateBlocksAdd(s, x, e);
    }
  }

  /** Adding a record `equals` to one already present leaves the set unchanged. */
  lemma AddOfEqualIsNoOp(s: set<EmployeeValue>, x: EmployeeValue, e: EmployeeValue)
    requires Distinct(s) && e in s && EqualsValue(x, e) == Returns(true)
    ensures HashSetAdd(s, x) == AlreadyPresent
  {
    forall e' | e' in s && HashOf(e') == HashOf(x) ensures EqualsValue(x, e') != ThrowsNullPointer {
      assert e == e' || !SameKey(e, e');
    }
  }

  /** An element of the bucket whose comparison throws makes `add` throw. */
  lemma ThrowingCandidate(s: set<EmployeeValue>, x: EmployeeValue, e: EmployeeValue)
    requires Distinct(s) && e in s && HashOf(e) == HashOf(x) && EqualsValue(x, e) == ThrowsNullPointer
    ensures HashSetAdd(s, x) == AddThrewNullPointer
  {
  }

  /** `{id=-961}` hashes to 0, since 31^3 + 31 * -961 = 0, and so does `{id=-961, percentage=0.0}`. */
  lemma ZeroHashes(v: EmployeeValue)
    requires v.name.None? && v.dob.None? && v.id == Some(-961)
    requires v.percentage.None? || v.percentage == Some(0)
    ensures HashOf(v) == 0
  {
    assert DobHash(v) == 0 && IdHash(v) == -961 && NameHash(v) == 0;
    ZeroPolynomialHash(v);
  }

  /** A record whose three-field polynomial vanishes, with no percentage or
      with one whose bits are 0, hashes to 0. */
  lemma ZeroPolynomialHash(v: EmployeeValue)
    requires 29791 + 961 * DobHash(v) + 31 * IdHash(v) + NameHash(v) == 0
    requires v.percentage.None? || v.percentage == Some(0)
    ensures HashOf(v) == 0
  {
    HashClosedForm(v);
    assert Narrow(0, W32) == 0;
  }

  /**
   * `equals` can throw inside `add` for records that are not duplicates:
   * `{id=-961, percentage=0.0}` and `{id=-961}` both hash to 0, and the
   * second one is then not added.
   */
  lemma NullPercentageCollision(e: EmployeeValue, x: EmployeeValue)
    requires e.name.None? && e.dob.None? && e.id == Some(-961) && e.percentage == Some(0)
    requires x.name.None? && x.dob.None? && x.id == Some(-961) && x.percentage.None?
    ensures x != e && HashOf(x) == HashOf(e)
    ensures HashSetAdd({e}, x) == AddThrewNullPointer
  {
    ZeroHashes(e);
    ZeroHashes(x);
    assert SameKey(x, e);
    assert EqualsValue(x, e) == ThrowsNullPointer;
    assert e in {e};
    SingletonDistinct(e);
    ThrowingCandidate({e}, x, e);
  }

  // ================================================================ csvToCollection

  /** The line filter: not blank, and not blank once every comma is removed. */
  predicate Eligible(line: string)
    ensures Eligible(line) <==> exists i :: 0 <= i < |line| && line[i] != ',' && !IsJavaWhitespace(line[i])
  {
    BlankAfterRemoving(line, ',');
    !IsBlank(line) && !IsBlank(RemoveAll(line, ','))
  }

  /** One iteration of the line loop: a rejected, unbound or unaddable line leaves the set alone. */
  function CollectLine(acc: set<EmployeeValue>, line: string, headers: seq<string>, table: FieldTable, p: Platform): (r: set<EmployeeValue>)
    ensures acc <= r
    ensures forall v :: v in r ==> v in acc || (Eligible(line) && Bind(Split(line), headers, table, p) == Ok(v))
  {
    if !Eligible(line) then acc
    else match Bind(Split(line), headers, table, p)
      case Err(_) => acc
      case Ok(v) =>
        match HashSetAdd(acc, v)
        case Added(s') => s'
        case _ => acc
  }

  /** The line loop over the data lines. */
  function Collect(acc: set<EmployeeValue>, lines: seq<string>, headers: seq<string>, table: FieldTable, p: Platform): (r: set<EmployeeValue>)
    ensures acc <= r
    decreases |lines|
  {
    if |lines| == 0 then acc else Collect(CollectLine(acc, lines[0], headers, table, p), lines[1..], headers, table, p)
  }

  /** The collected set keeps the `HashSet` invariant. */
  lemma {:induction false} CollectKeepsDistinct(acc: set<EmployeeValue>, lines: seq<string>, headers: seq<string>, table: FieldTable, p: Platform)
    requires Distinct(acc)
    ensures Distinct(Collect(acc, lines, headers, table, p))
    decreases |lines|
  {
    if |lines| > 0 {
      var line := lines[0];
      if Eligible(line) && Bind(Split(line), headers, table, p).Ok? {
        AddKeepsDistinct(acc, Bind(Split(line), headers, table, p).value);
      }
      CollectKeepsDistinct(CollectLine(acc, line, headers, table, p), lines[1..], headers, table, p);
    }
  }

  /** Nothing is ever removed, and everything collected is the binding of some eligible line. */
  lemma {:induction false} CollectSound(acc: set<EmployeeValue>, lines: seq<string>, headers: seq<string>, table: FieldTable, p: Platform)
    ensures acc <= Collect(acc, lines, headers, table, p)
    ensures forall v :: v in Collect(acc, lines, headers, table, p) ==>
              v in acc || exists i :: 0 <= i < |lines| && Eligible(lines[i]) && Bind(Split(lines[i]), headers, table, p) == Ok(v)
    decreases |lines|
  {
    if |lines| > 0 {
      var next := CollectLine(acc, lines[0], headers, table, p);
      CollectSound(next, lines[1..], headers, table, p);
      forall v | v in Collect(acc, lines, headers, table, p) && v !in acc
        ensures exists i :: 0 <= i < |lines| && Eligible(lines[i]) && Bind(Split(lines[i]), headers, table, p) == Ok(v)
      {
        if v in next {
          assert Eligible(lines[0]) && Bind(Split(lines[0]), headers, table, p) == Ok(v);
        } else {
          var i :| 0 <= i < |lines[1..]| && Eligible(lines[1..][i]) && Bind(Split(lines[1..][i]), headers, table, p) == Ok(v);
          assert lines[1..][i] == lines[i + 1];
        }
      }
    }
  }

  /** A bound line's record is in the set afterwards, unless `equals` threw
      against a same-hash record with the same key. */
  lemma CollectLineAdds(acc: set<EmployeeValue>, line: string, headers: seq<string>, table: FieldTable, p: Platform)
    requires Eligible(line) && Bind(Split(line), headers, table, p).Ok?
    ensures var v := Bind(Split(line), headers, table, p).value;
            v in CollectLine(acc, line, headers, table, p) ||
            exists e :: e in acc && HashOf(e) == HashOf(v) && EqualsValue(v, e) == ThrowsNullPointer
  {
  }

  /** Every eligible line that binds has its record in the collected set,
      unless adding it made `equals` throw against a same-hash record, which
      then is in the set. */
  lemma {:induction false} CollectComplete(acc: set<EmployeeValue>, lines: seq<string>, headers: seq<string>, table: FieldTable, p: Platform, i: nat)
    requires i < |lines| && Eligible(lines[i]) && Bind(Split(lines[i]), headers, table, p).Ok?
    ensures var v := Bind(Split(lines[i]), headers, table, p).value;
            var r := Collect(acc, lines, headers, table, p);
            v in r || exists e :: e in r && HashOf(e) == HashOf(v) && EqualsValue(v, e) == ThrowsNullPointer
    decreases i
  {
    var next := CollectLine(acc, lines[0], headers, table, p);
    assert Collect(acc, lines, headers, table, p) == Collect(next, lines[1..], headers, table, p);
    if i == 0 {
      CollectLineAdds(acc, lines[0], headers, table, p);
    } else {
      assert lines[1..][i - 1] == lines[i];
      CollectComplete(next, lines[1..], headers, table, p, i - 1);
    }
  }

  /** Two lines that bind to the same record leave one record: the second changes nothing. */
  lemma SameRecordKeptOnce(acc: set<EmployeeValue>, l1: string, l2: string, headers: seq<string>, table: FieldTable, p: Platform)
    requires Eligible(l1) && Eligible(l2)
    requires Bind(Split(l1), headers, table, p).Ok? && Bind(Split(l2), headers, table, p) == Bind(Split(l1), headers, table, p)
    ensures var once := CollectLine(acc, l1, headers, table, p);
            CollectLine(once, l2, headers, table, p) == once
  {
    var v := Bind(Split(l1), headers, table, p).value;
    var once := CollectLine(acc, l1, headers, table, p);
    if v in once {
      assert EqualsValue(v, v) != Returns(false);
      assert !HashSetAdd(once, v).Added?;
    }
  }

  /** A line with more cells than there are headers is dropped, and the loop goes on. */
  lemma LongLineDropped(acc: set<EmployeeValue>, line: string, rest: seq<string>, headers: seq<string>, table: FieldTable, p: Platform)
    requires |Split(line)| > |headers|
    ensures CollectLine(acc, line, headers, table, p) == acc
    ensures Collect(acc, [line] + rest, headers, table, p) == Collect(acc, rest, headers, table, p)
  {
    BindSucceedsIff(Blank, Split(line), headers, table, p, 0);
    assert ([line] + rest)[1..] == rest;
  }

  /** A line of commas only, such as ",,,", adds nothing, and the loop goes on. */
  lemma AllCommaLineDropped(acc: set<EmployeeValue>, line: string, rest: seq<string>, headers: seq<string>, table: FieldTable, p: Platform)
    requires forall i :: 0 <= i < |line| ==> line[i] == ','
    ensures CollectLine(acc, line, headers, table, p) == acc
    ensures Collect(acc, [line] + rest, headers, table, p) == Collect(acc, rest, headers, table, p)
  {
    assert ([line] + rest)[1..] == rest;
  }
}
