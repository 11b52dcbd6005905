# CSVUtil row binding, modelled in Dafny

`CSVUtil` reads a CSV file into a `HashSet` of `Employee` beans:

- The first line is the header. `getHeader` splits it on commas and maps every trimmed column name to its position.
- `loadFields` puts every declared field of the target class into `fieldColumnMapping`, under the field's name.
- Every later line is bound, provided it is not blank and is not blank once its commas are removed. Binding means three steps:
  - `populateBean` walks the cells and reads the header of each cell's column;
  - `setFieldValue` looks that column up among the fields;
  - `assignValueToField` converts the text with `converFieldValue` / `convertToNumber` and calls the setter.
- The resulting bean is added to the set. A line whose binding or `add` throws is logged and skipped.

The project models this engine and the `Employee` record whose `equals` and `hashCode` decide what the set keeps.

Modules, one per file:

- `Wrappers` (wrappers.dfy): `Option`, `Result` and `Outcome`.
- `JavaLang` (java_lang.dfy): Java's fixed-width integers; the two's-complement narrowing done by `byteValue()`, `intValue()` and the 32-bit arithmetic of `hashCode`; the saturating double-to-integer cast; `Date.hashCode` and `String.hashCode`.
- `JavaText` (java_text.dfy): `split(",", -1)` with its inverse `Join`, `trim`, `replace(",", "")` and `StringUtils.isBlank`.
- `EmployeeBean` (employee.dfy):
  - `EmployeeValue` is the state of an `Employee`;
  - the class `Employee` has its four nullable fields, its setters and getters, its step-by-step `hashCode`, and `equals`;
  - lemmas give the hash code's closed form and its consistency with `equals`.
- `Conversion` (conversion.dfy): `converFieldValue` and `convertToNumber`, with the integral narrowing they perform.
- `CsvSpec` (csv_spec.dfy): the engine as functions. It gives:
  - the header index and the field table;
  - the setter lookup of `getWriteMethod`;
  - binding one row;
  - `HashSet.add`, as a scan of the bucket of equal hash codes;
  - the line loop;
  - lemmas about each of these.
- `Csv` (csv_util.dfy): the class `CsvUtil` with its three fields and its methods. Each method is proved to compute the matching `CsvSpec` function and to leave the state that function describes.

Behaviour of the code that a reader of its comments and names might not expect, and that the model follows:

- A blank cell is converted to `null` and the setter is called with it. The field is not left untouched: when two columns map to the same field, the last one wins, even when it is blank (`CsvSpec.BindResult`).
- An out-of-range number stored into an integral field wraps modulo 2^width; it is not an error (`Conversion.IntegerFieldWraps`). A double is first clamped to the `int` or `long` range (`Conversion.DoubleSaturatesThenWraps`).
- A row with more cells than the header reads `headers[col]` past the end of the array. The exception drops the whole line (`CsvSpec.LongLineDropped`); the surplus cells are not ignored.
- `csvToCollection` always binds into `Employee.class`, whatever class it was given. The given class only decides the field table.
- `fieldColumnMapping` is never cleared, so fields loaded by an earlier call stay in it (`CsvSpec.LoadedTableAt`, `CsvSpec.LoadedTableValue`).
- `equals` unboxes `percentage` once `dob`, `id` and `name` agree, which throws when either record has none (it answers earlier for the same reference, for `null`, for another class and for differing keys). When a record with a null `percentage` meets a record in the set that has the same hash and the same other three fields, `add` throws and the line is dropped. Such a record can even be a different one (`CsvSpec.NullPercentageCollision`).

## Model

| member | source | states |
|---|---|---|
| JavaLang.Narrow | src/main/java/com/shopx/csv/framework/poc/CSVUtil.java:349-356 | Keeping the low bits gives a value in the width's range that is congruent to the input modulo 2^width, and returns the input unchanged when it already fits |
| JavaLang.NarrowCongruent | src/main/java/com/shopx/csv/framework/poc/sample/bean/Employee.java:57-61 | Inputs congruent modulo 2^width narrow to the same value, so wrapping after every step of a computation equals wrapping once at the end |
| JavaLang.NarrowOffsetInjective | src/main/java/com/shopx/csv/framework/poc/sample/bean/Employee.java:60-61 | Adding two different 32-bit ints to a common value gives different 32-bit results, so the last step of `hashCode` loses none of the percentage bits |
| JavaLang.HornerStep | src/main/java/com/shopx/csv/framework/poc/sample/bean/Employee.java:57-61 | One `31 * result + h` step on a wrapped accumulator equals the step on the exact value, wrapped |
| JavaLang.DateHash | src/main/java/com/shopx/csv/framework/poc/sample/bean/Employee.java:57 | `dob.hashCode()` of a time in [0, 2^32) is that time cast to `int` |
| JavaLang.DateHashBits | src/main/java/com/shopx/csv/framework/poc/sample/bean/Employee.java:57 | For every time, bit k of `dob.hashCode()` (read as an unsigned 32-bit number) is bit k XOR bit k+32 of the time's 64-bit two's-complement pattern |
| JavaLang.StringHash | src/main/java/com/shopx/csv/framework/poc/sample/bean/Employee.java:59 | `name.hashCode()`, accumulated in 32-bit arithmetic, is the low 32 bits of the polynomial s[0]·31^(n-1) + … + s[n-1] |
| JavaLang.Saturate | src/main/java/com/shopx/csv/framework/poc/CSVUtil.java:349-358 | The `(int)`/`(long)` cast of a value rounded toward zero stays in range: the value itself when it fits, otherwise MIN_VALUE below the range and MAX_VALUE above it |
| JavaText.Split | src/main/java/com/shopx/csv/framework/poc/CSVUtil.java:145 | `split("\\,", -1)` returns one cell more than there are commas (trailing empty cells are kept), and no cell holds a comma |
| JavaText.JoinSplit | src/main/java/com/shopx/csv/framework/poc/CSVUtil.java:180 | Joining the cells of a split line with commas gives back the line, so splitting loses no text |
| JavaText.SplitJoin | src/main/java/com/shopx/csv/framework/poc/CSVUtil.java:180 | Splitting the comma-join of a non-empty sequence of comma-free cells gives back those cells |
| JavaText.Trim | src/main/java/com/shopx/csv/framework/poc/CSVUtil.java:169 | `trim()` is empty, or it starts and ends with a character above U+0020 |
| JavaText.TrimLaws | src/main/java/com/shopx/csv/framework/poc/CSVUtil.java:184 | `trim()` is empty exactly when every character is at most U+0020; otherwise it is the slice from the first to the last character above U+0020 |
| JavaText.RemoveAll | src/main/java/com/shopx/csv/framework/poc/CSVUtil.java:144 | `replace(",", "")` shortens the line by its number of commas and keeps exactly the characters that are not commas |
| JavaText.BlankAfterRemoving | src/main/java/com/shopx/csv/framework/poc/CSVUtil.java:144 | `isBlank(line.replace(",", ""))` holds exactly when every character of the line is a comma or Java whitespace |
| EmployeeBean.NullSafeEquals | src/main/java/com/shopx/csv/framework/poc/sample/bean/Employee.java:74-88 | The null-safe comparison of `dob`, `id` or `name` is true exactly when both are null or both hold equal values |
| EmployeeBean.EqualsValue | src/main/java/com/shopx/csv/framework/poc/sample/bean/Employee.java:74-91 | Field equality of two objects: it throws exactly when `dob`, `id` and `name` agree and a `percentage` is null; it returns true exactly when the records are identical with a non-null `percentage`; a field null on one side only gives false |
| EmployeeBean.Employee.constructor | src/main/java/com/shopx/csv/framework/poc/sample/bean/Employee.java:6-14 | A new `Employee` has all four fields null |
| EmployeeBean.Employee.GetName | src/main/java/com/shopx/csv/framework/poc/sample/bean/Employee.java:16-18 | Returns the current `name` |
| EmployeeBean.Employee.GetId | src/main/java/com/shopx/csv/framework/poc/sample/bean/Employee.java:24-26 | Returns the current `id` |
| EmployeeBean.Employee.GetDob | src/main/java/com/shopx/csv/framework/poc/sample/bean/Employee.java:32-34 | Returns the current `dob` |
| EmployeeBean.Employee.GetPercentage | src/main/java/com/shopx/csv/framework/poc/sample/bean/Employee.java:40-42 | Returns the current `percentage` |
| EmployeeBean.Employee.SetName | src/main/java/com/shopx/csv/framework/poc/sample/bean/Employee.java:20-22 | Sets `name` and leaves the other three fields as they were |
| EmployeeBean.Employee.SetId | src/main/java/com/shopx/csv/framework/poc/sample/bean/Employee.java:28-30 | Sets `id` and leaves the other three fields as they were |
| EmployeeBean.Employee.SetDob | src/main/java/com/shopx/csv/framework/poc/sample/bean/Employee.java:36-38 | Sets `dob` and leaves the other three fields as they were |
| EmployeeBean.Employee.SetPercentage | src/main/java/com/shopx/csv/framework/poc/sample/bean/Employee.java:44-46 | Sets `percentage` and leaves the other three fields as they were |
| EmployeeBean.Employee.HashCode | src/main/java/com/shopx/csv/framework/poc/sample/bean/Employee.java:53-63 | The step-by-step `int` accumulation returns the record's hash code, whose closed form `HashClosedForm` gives |
| EmployeeBean.Employee.Equals | src/main/java/com/shopx/csv/framework/poc/sample/bean/Employee.java:65-92 | The same reference gives true, `null` or another class gives false, and any other `Employee` is compared field by field (which may throw) |
| EmployeeBean.HashPrefix | src/main/java/com/shopx/csv/framework/poc/sample/bean/Employee.java:56-59 | The first three steps give the low 32 bits of 31^3 + 31^2·h(dob) + 31·h(id) + h(name) |
| EmployeeBean.HashClosedForm | src/main/java/com/shopx/csv/framework/poc/sample/bean/Employee.java:53-63 | The hash code is that polynomial modulo 2^32, times 31 plus the percentage bits when a percentage is present |
| EmployeeBean.EqualsImpliesSameHash | src/main/java/com/shopx/csv/framework/poc/sample/bean/Employee.java:53-92 | Records that `equals` calls equal have equal hash codes |
| EmployeeBean.SameKeySameHashIsSame | src/main/java/com/shopx/csv/framework/poc/sample/bean/Employee.java:53-63 | Two records that agree on `dob`, `id` and `name`, both with a percentage, have equal hash codes only when they are identical |
| Conversion.IntegralValue | src/main/java/com/shopx/csv/framework/poc/CSVUtil.java:349-356 | `byteValue()` … `longValue()` of a parsed number always lie in the range of their type |
| Conversion.ConvertToNumber | src/main/java/com/shopx/csv/framework/poc/CSVUtil.java:338-369 | Text the number parser rejects is an `UnparseableNumber` error for that text. A `BigInteger` field always fails with `NotABigDecimal`. A `BigDecimal` field, or a field of any other class, receives the parsed `Long` or `Double` itself. Every other kind succeeds with a non-null instance of its own type. Every error carries the cell's text |
| Conversion.ConvertFieldValue | src/main/java/com/shopx/csv/framework/poc/CSVUtil.java:308-325 | The result is null exactly when the cell is blank. A `String` field takes the text unchanged. A `Date` field takes the parsed date or fails with an `UnparseableDate` error. Any other type goes through `convertToNumber`. A success conforms to the field's type, or is the parsed number handed on to a `BigDecimal` or other field. Every error carries the text |
| Conversion.IntegralNarrowing | src/main/java/com/shopx/csv/framework/poc/CSVUtil.java:349-356 | A parsed `Long` stored into a byte, short, int or long field is in range, congruent to the parsed value modulo 2^width, and equal to it when it fits |
| Conversion.IntegerFieldWraps | src/main/java/com/shopx/csv/framework/poc/CSVUtil.java:353-354 | 99999999999 parsed into an `Integer` field stores 1215752191, with no error |
| Conversion.DoubleIntoIntegral | src/main/java/com/shopx/csv/framework/poc/CSVUtil.java:349-356 | A parsed `Double` reaches an int or long field truncated and clamped to its range, and a byte or short field as the low bits of the clamped `int` |
| Conversion.DoubleSaturatesThenWraps | src/main/java/com/shopx/csv/framework/poc/CSVUtil.java:349-354 | 1e10 into an `int` field stores 2147483647; 300.x into a `Byte` field stores 44 |
| CsvSpec.TrimAll | src/main/java/com/shopx/csv/framework/poc/CSVUtil.java:184 | One trimmed name per header cell, in column order |
| CsvSpec.LastIndex | src/main/java/com/shopx/csv/framework/poc/CSVUtil.java:183-186 | The keys are exactly the names in the sequence, and each maps to a position that holds that name |
| CsvSpec.HeaderIndex | src/main/java/com/shopx/csv/framework/poc/CSVUtil.java:179-187 | Every key of `headerMap` maps to a column whose trimmed header is that key |
| CsvSpec.LastIndexAt | src/main/java/com/shopx/csv/framework/poc/CSVUtil.java:183-186 | After the `put` loop a name is a key exactly when it occurs, and it maps to its last occurrence |
| CsvSpec.HeaderIndexExact | src/main/java/com/shopx/csv/framework/poc/CSVUtil.java:179-187 | `headerMap` has a key for exactly the trimmed header names, and each maps to the last column with that trimmed name |
| CsvSpec.LoadedTable | src/main/java/com/shopx/csv/framework/poc/CSVUtil.java:288-295 | The old keys stay, every field of the class becomes a key, and every entry is an old one or a field of its own name |
| CsvSpec.LoadedTableAt | src/main/java/com/shopx/csv/framework/poc/CSVUtil.java:288-295 | After `loadFields` a name is mapped exactly when it was before or the class declares it |
| CsvSpec.LoadedTableValue | src/main/java/com/shopx/csv/framework/poc/CSVUtil.java:290-293 | A name maps to the last declared field of that name, and keeps its old entry when the class declares no such field |
| CsvSpec.SetterNameParts | src/main/java/com/shopx/csv/framework/poc/CSVUtil.java:277 | The setter name is "set", the upper-cased first letter, then the rest of the field name |
| CsvSpec.SetterName | src/main/java/com/shopx/csv/framework/poc/CSVUtil.java:277 | The setter name is three characters longer than the field name: "set", the upper-cased first letter, then the rest |
| CsvSpec.EmployeeSetter | src/main/java/com/shopx/csv/framework/poc/CSVUtil.java:278 | A setter that `getMethod` finds takes exactly the requested type as its parameter |
| CsvSpec.SetterSlot | src/main/java/com/shopx/csv/framework/poc/CSVUtil.java:276-279 | A field reaches a setter only when its name is non-empty and its type is the parameter type of that setter |
| CsvSpec.EmployeeSetterIff | src/main/java/com/shopx/csv/framework/poc/CSVUtil.java:278 | `getMethod` on `Employee` finds a setter exactly when the name is that setter's name and the parameter type is its declared type |
| CsvSpec.SetterSlotIff | src/main/java/com/shopx/csv/framework/poc/CSVUtil.java:276-279 | A field reaches a property's setter exactly when its type is the setter's parameter type and its name is the property's name, or that name with its first letter upper-cased |
| CsvSpec.EmployeeFieldsHaveSetters | src/main/java/com/shopx/csv/framework/poc/sample/bean/Employee.java:8-46 | Each declared field of `Employee` is written through the setter of the property of the same name |
| CsvSpec.WriteSlot | src/main/java/com/shopx/csv/framework/poc/CSVUtil.java:227 | `invoke` succeeds exactly when the argument is null or an instance of the parameter type. It then sets that property alone |
| CsvSpec.WriteWithoutSetter | src/main/java/com/shopx/csv/framework/poc/CSVUtil.java:253-263 | An instance field of another class fails with `NotAFieldOfBean`. A static field succeeds exactly when it is final, whose `IllegalAccessException` is swallowed, or when `Field.set` accepts the value. The bean is unchanged on success |
| CsvSpec.AssignValueToField | src/main/java/com/shopx/csv/framework/poc/CSVUtil.java:220-239 | An empty field name fails. Otherwise assignment succeeds exactly when the text converts and either the field has an `Employee` setter or the direct write accepts the value. Through a setter it sets that property to the converted value and nothing else. Without a setter the bean is unchanged. A conversion failure is the row's error |
| CsvSpec.SetFieldValue | src/main/java/com/shopx/csv/framework/poc/CSVUtil.java:201-206 | An unmapped column leaves the bean as it is. Only the property that the mapped field's setter writes can change |
| CsvSpec.Bind | src/main/java/com/shopx/csv/framework/poc/CSVUtil.java:165-172 | A bound row has no cells, or no more cells than there are headers |
| CsvSpec.LastTarget | src/main/java/com/shopx/csv/framework/poc/CSVUtil.java:168-170 | The column found lies in the line, from the starting column on, and its header maps to a field written through the given property |
| CsvSpec.LastTargetIsLast | src/main/java/com/shopx/csv/framework/poc/CSVUtil.java:168-170 | No later column targets the property. When none is found, no column from the starting one on targets it |
| CsvSpec.BindFromOkIff | src/main/java/com/shopx/csv/framework/poc/CSVUtil.java:167-170 | The cell loop from a column on succeeds, from any bean state, exactly when the recursive binding condition holds |
| CsvSpec.RowBindsIff | src/main/java/com/shopx/csv/framework/poc/CSVUtil.java:167-170 | That condition holds exactly when the remaining cells have headers and each remaining cell binds |
| CsvSpec.BindSucceedsIff | src/main/java/com/shopx/csv/framework/poc/CSVUtil.java:165-172 | A row binds exactly when it has no more cells than headers (or no cells left) and every cell binds. A cell binds when its column is unmapped, or when its field has a name, its text converts, and the field has a setter or takes the direct write |
| CsvSpec.CellStep | src/main/java/com/shopx/csv/framework/poc/CSVUtil.java:201-206 | `setFieldValue` on one cell succeeds exactly when that cell binds |
| CsvSpec.CellResult | src/main/java/com/shopx/csv/framework/poc/CSVUtil.java:168-169 | After one bound cell, a property holds that cell's converted text when the cell's column targets it, and otherwise keeps its value |
| CsvSpec.BindResult | src/main/java/com/shopx/csv/framework/poc/CSVUtil.java:165-172 | In a bound row, each property holds the converted text of the last column mapped to it, or keeps its earlier value when no column maps to it |
| CsvSpec.UnnamedPropertyStaysNull | src/main/java/com/shopx/csv/framework/poc/CSVUtil.java:165-172 | A property no column maps to stays null in the new bean |
| CsvSpec.HashSetAdd | src/main/java/com/shopx/csv/framework/poc/CSVUtil.java:145 | A record that is added was absent and is the only element added. It is reported present only when it is in the set. A record already in the set is never added again |
| CsvSpec.OneCandidate | src/main/java/com/shopx/csv/framework/poc/CSVUtil.java:145 | In a set meeting the invariant, at most one element of a record's bucket makes `equals` answer other than false |
| CsvSpec.CandidateBlocksAdd | src/main/java/com/shopx/csv/framework/poc/CSVUtil.java:145 | An element with the same hash and the same `dob`, `id` and `name` keeps `add` from inserting |
| CsvSpec.AddKeepsDistinct | src/main/java/com/shopx/csv/framework/poc/CSVUtil.java:145 | A successful `add` keeps the invariant, inserts a new element and grows the set by one |
| CsvSpec.AddOfEqualIsNoOp | src/main/java/com/shopx/csv/framework/poc/CSVUtil.java:145 | Adding a record equal to an element leaves the set unchanged and reports it present |
| CsvSpec.ThrowingCandidate | src/main/java/com/shopx/csv/framework/poc/CSVUtil.java:145-147 | An element of the bucket on which `equals` throws makes `add` throw |
| CsvSpec.ZeroHashes | src/main/java/com/shopx/csv/framework/poc/sample/bean/Employee.java:53-63 | A record with only `id` = -961 has hash code 0, with no percentage or with a percentage whose bits are 0 |
| CsvSpec.NullPercentageCollision | src/main/java/com/shopx/csv/framework/poc/sample/bean/Employee.java:89 | Two different records share hash code 0, and adding the one with no percentage to a set holding the other throws |
| CsvSpec.Eligible | src/main/java/com/shopx/csv/framework/poc/CSVUtil.java:144 | A line is bound exactly when it holds a character that is neither a comma nor whitespace |
| CsvSpec.CollectLine | src/main/java/com/shopx/csv/framework/poc/CSVUtil.java:144-147 | One pass of the loop only adds, and what it adds is the binding of an eligible line |
| CsvSpec.Collect | src/main/java/com/shopx/csv/framework/poc/CSVUtil.java:141-149 | The line loop never removes a record |
| CsvSpec.CollectKeepsDistinct | src/main/java/com/shopx/csv/framework/poc/CSVUtil.java:141-149 | The line loop keeps the set's invariant |
| CsvSpec.CollectSound | src/main/java/com/shopx/csv/framework/poc/CSVUtil.java:141-149 | The loop only adds, and every record it adds is the binding of an eligible line |
| CsvSpec.CollectComplete | src/main/java/com/shopx/csv/framework/poc/CSVUtil.java:141-149 | Every eligible data line that binds has its record in the returned set, unless adding it made `equals` throw against a same-hash element, which is then in the set |
| CsvSpec.CollectLineAdds | src/main/java/com/shopx/csv/framework/poc/CSVUtil.java:144-147 | An eligible line that binds ends up in the set, unless an element of its bucket makes `equals` throw |
| CsvSpec.SameRecordKeptOnce | src/main/java/com/shopx/csv/framework/poc/CSVUtil.java:141-149 | A second line that binds to the same record leaves the set unchanged |
| CsvSpec.LongLineDropped | src/main/java/com/shopx/csv/framework/poc/CSVUtil.java:168-169 | A line with more cells than headers changes nothing |
| CsvSpec.AllCommaLineDropped | src/main/java/com/shopx/csv/framework/poc/CSVUtil.java:144 | Any line made of commas alone, including the empty line, changes nothing, and the loop goes on |
| Csv.InvokeSetter | src/main/java/com/shopx/csv/framework/poc/CSVUtil.java:227 | Calling the setter on the bean sets the property exactly as `WriteSlot` says, or fails and leaves the bean as it was |
| Csv.CsvUtil.constructor | src/main/java/com/shopx/csv/framework/poc/CSVUtil.java:90-97 | A new `CsvUtil` has empty maps and no header, and keeps the given number parser |
| Csv.CsvUtil.GetHeader | src/main/java/com/shopx/csv/framework/poc/CSVUtil.java:179-187 | `headers` is the split header line, `headerMap` is its header index, and the field table is unchanged |
| Csv.CsvUtil.LoadFields | src/main/java/com/shopx/csv/framework/poc/CSVUtil.java:288-295 | Returns the fields in order and extends the field table as `LoadedTable` does, keeping the header state |
| Csv.CsvUtil.AssignValueToField | src/main/java/com/shopx/csv/framework/poc/CSVUtil.java:220-239 | The bean ends as `CsvSpec.AssignValueToField` says, or the method fails with its error and leaves the bean unchanged |
| Csv.CsvUtil.SetFieldValue | src/main/java/com/shopx/csv/framework/poc/CSVUtil.java:201-206 | An unmapped column passes untouched; a mapped one is assigned as `CsvSpec.SetFieldValue` says |
| Csv.CsvUtil.PopulateBean | src/main/java/com/shopx/csv/framework/poc/CSVUtil.java:165-172 | Returns a fresh bean holding the row's binding exactly when the binding succeeds, and otherwise the binding's error |
| Csv.CsvUtil.AddLine | src/main/java/com/shopx/csv/framework/poc/CSVUtil.java:144-147 | One pass of the loop leaves the set that `CollectLine` describes |
| Csv.CsvUtil.CsvToCollection | src/main/java/com/shopx/csv/framework/poc/CSVUtil.java:129-152 | With no header line it fails and changes nothing. Otherwise it sets the header state and field table, and returns the set the line loop `Collect` builds from the empty set |

## Left out

- File access: the path, the reader, `readLine` and `lines()` are replaced by the file's lines given as a sequence. An `IOException` is not modelled. A missing header line is the `MissingHeaderLine` error: `split` on the `null` that `readLine` returns throws out of `csvToCollection`.
- Parsing libraries: the locale's `DecimalFormat.parse`, `SimpleDateFormat("dd/MM/yyyy").parse` and the float and double conversions of `floatValue()` and `doubleValue()` are functions of a `Platform` parameter. Their own behaviour (leniency, rounding, locale) is not modelled.
- The constructor's exception when the locale's `NumberFormat` is not a `DecimalFormat`: the platform's number parser is always given.
- The `synchronized` block around the parser: the stream is read sequentially, so the model has no concurrency.
- Reflection:
  - `FieldUtils.getAllFields` is a given `ClassDesc`: the class's fields, in order.
  - `type.newInstance()` always makes an `Employee`, so `createBean`'s null check never fires.
  - `getMethod` is modelled for `Employee`'s four public setters only. `Employee` declares and inherits no other method whose name starts with "set".
- Static state: for `Employee`, no field reaches `writeWithoutSetter`, since every field has a setter of its own type. A field of another class does. The model gives the outcome of that write (`CsvSpec.WriteWithoutSetter`), but a class's static fields are not part of the model, so a successful write to a static field is not recorded.
- The widening conversions `Field.set` applies to primitive values: the converter always produces the field's own kind, so none of them arises.
- The `obj != null` test of `assignValueToField`: cells of `split` are never `null`, so the branch is always taken.
- `headers` is `null` until `getHeader` runs; the model starts it as the empty sequence. `csvToCollection` always calls `getHeader` before `populateBean`.
- Identity of the beans in the set: the set holds their values. No bean is changed after it is added, so the value and reference views agree.
- `main`, `toString` and the logging of failed lines (printing only).
- Java versions before 12: the model follows the platform of Java 12 and later. On Java 8, `Character.isWhitespace` also accepts U+180E, and `Long` and `Double` do not implement `Constable` and `ConstantDesc`, which `Conversion.NumberSupertypes` lists.
- Text: `String.hashCode` is taken over the string's characters, which differ from UTF-16 code units only for supplementary characters.
- CsvSpec.SetterSlotIff: the setter name upper-cases ASCII letters only. Java's `Character.toUpperCase` also maps the dotless ı (U+0131) to I, so a field named "ıd" would reach `setId` in Java but not in the model.
