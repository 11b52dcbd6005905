/**
 * The sample record `Employee`: four nullable fields (`name`, `id`, `dob`,
 * `percentage`) with setters and getters, a value equality that is null-safe
 * on three fields and unboxes the fourth, and the matching hash code.
 *
 * A `Float` is represented by its `Float.floatToIntBits` pattern, which is
 * all that `equals` and `hashCode` ever look at.
 */
module EmployeeBean {
  import opened Wrappers
  import opened JavaLang

  /** The state of one `Employee` object; `None` is a `null` field. */
  datatype EmployeeValue = EmployeeValue(
    name: Option<string>,
    id: Option<Int32>,
    dob: Option<Date>,
    percentage: Option<Int32>)

  /** A freshly constructed `Employee`: every field `null`. */
  const Blank := EmployeeValue(None, None, None, None)

  /** The three fields compared null-safely by `equals` and folded first by `hashCode`. */
  predicate SameKey(a: EmployeeValue, b: EmployeeValue) {
    a.dob == b.dob && a.id == b.id && a.name == b.name
  }

  /** What a call of `equals` does: return an answer or throw a `NullPointerException`. */
  datatype EqualsResult = Returns(answer: bool) | ThrowsNullPointer

  /** `a == null ? b == null : a.equals(b)` for `Date`, `Integer` and `String`,
      whose own `equals` compare values. */
  function NullSafeEquals<T(==)>(a: Option<T>, b: Option<T>): (r: bool)
    ensures r <==> a == b
  {
    if a.None? then b.None? else b.Some? && a.value == b.value
  }

  /**
   * The field-by-field part of `Employee.equals` for two distinct objects:
   * `dob`, `id` and `name` compared null-safely in that order, then
   * `Float.floatToIntBits(percentage)`, which unboxes and so throws when
   * either `percentage` is `null`.
   */
  function EqualsValue(a: EmployeeValue, b: EmployeeValue): (r: EqualsResult)
    ensures r == ThrowsNullPointer <==> SameKey(a, b) && (a.percentage.None? || b.percentage.None?)
    ensures r == Returns(true) <==> a == b && a.percentage.Some?
    ensures (a.dob.None? != b.dob.None? || a.id.None? != b.id.None? || a.name.None? != b.name.None?)
            ==> r == Returns(false)
  {
    if !NullSafeEquals(a.dob, b.dob) then Returns(false)
    else if !NullSafeEquals(a.id, b.id) then Returns(false)
    else if !NullSafeEquals(a.name, b.name) then Returns(false)
    else if a.percentage.None? || b.percentage.None? then ThrowsNullPointer
    else Returns(a.percentage.value == b.percentage.value)
  }

  /** The hash of each field, or 0 for a `null` one. */
  function DobHash(v: EmployeeValue): Int32 {
    if v.dob.Some? then DateHash(v.dob.value) else 0
  }

  function IdHash(v: EmployeeValue): Int32 {
    if v.id.Some? then v.id.value else 0
  }

  function NameHash(v: EmployeeValue): Int32 {
    if v.name.Some? then StringHash(v.name.value) else 0
  }

  /** One step `result = 31 * result + h` of `hashCode`, in 32-bit arithmetic. */
  function HashStep(r: int, h: int): Int32 {
    Narrow(31 * r + h, W32)
  }

  /**
   * `Employee.hashCode()`: starting from 1, fold in the hashes of `dob`,
   * `id` and `name`, and then the bits of `percentage` when that is not
   * `null`.
   */
  function HashOf(v: EmployeeValue): Int32 {
    var three := HashStep(HashStep(HashStep(1, DobHash(v)), IdHash(v)), NameHash(v));
    if v.percentage.Some? then HashStep(three, v.percentage.value) else three
  }

  /** Objects `equals` can be handed: `null`, an `Employee`, or an object of another class. */
  datatype JavaObject = NullRef | EmployeeRef(ref: Employee) | OtherClass {
    function Footprint(): set<object> {
      if EmployeeRef? then {ref} else {}
    }
  }

  class Employee {
    var name: Option<string>
    var id: Option<Int32>
    var dob: Option<Date>
    var percentage: Option<Int32>

    /** The implicit no-argument constructor that `Class.newInstance` calls. */
    constructor ()
      ensures Value() == Blank
    {
      name, id, dob, percentage := None, None, None, None;
    }

    function Value(): EmployeeValue
      reads this
    {
      EmployeeValue(name, id, dob, percentage)
    }

    function GetName(): (r: Option<string>)
      reads this
      ensures r == Value().name
    {
      name
    }
    function GetId(): (r: Option<Int32>)
      reads this
      ensures r == Value().id
    {
      id
    }
    function GetDob(): (r: Option<Date>)
      reads this
      ensures r == Value().dob
    {
      dob
    }
    function GetPercentage(): (r: Option<Int32>)
      reads this
      ensures r == Value().percentage
    {
      percentage
    }

    method SetName(v: Option<string>)
      modifies this
      ensures GetName() == v
      ensures GetId() == old(GetId()) && GetDob() == old(GetDob()) && GetPercentage() == old(GetPercentage())
    {
      name := v;
    }

    method SetId(v: Option<Int32>)
      modifies this
      ensures GetId() == v
      ensures GetName() == old(GetName()) && GetDob() == old(GetDob()) && GetPercentage() == old(GetPercentage())
    {
      id := v;
    }

    method SetDob(v: Option<Date>)
      modifies this
      ensures GetDob() == v
      ensures GetName() == old(GetName()) && GetId() == old(GetId()) && GetPercentage() == old(GetPercentage())
    {
      dob := v;
    }

    method SetPercentage(v: Option<Int32>)
      modifies this
      ensures GetPercentage() == v
      ensures GetName() == old(GetName()) && GetId() == old(GetId()) && GetDob() == old(GetDob())
    {
      percentage := v;
    }

    /** `hashCode()`, accumulated field by field in wrapping 32-bit arithmetic. */
    method HashCode() returns (result: Int32)
      ensures result == HashOf(Value())
    {
      var v := Value();
      var hd, hi, hn := DobHash(v), IdHash(v), NameHash(v);
      result := 1;
      result := HashStep(result, hd);
      result := HashStep(result, hi);
      result := HashStep(result, hn);
      if percentage != None {
        result := HashStep(result, percentage.value);
      }
    }

    /**
     * `equals(obj)`: the same reference is equal, `null` and objects of
     * another class are not, and two distinct employees are compared field
     * by field as `EqualsValue` describes.
     */
    function Equals(obj: JavaObject): (r: EqualsResult)
      reads this, obj.Footprint()
      ensures obj.EmployeeRef? && obj.ref == this ==> r == Returns(true)
      ensures obj.NullRef? || obj.OtherClass? ==> r == Returns(false)
      ensures obj.EmployeeRef? && obj.ref != this ==> r == EqualsValue(Value(), obj.ref.Value())
    {
      match obj
      case EmployeeRef(other) =>
        if other == this then Returns(true) else EqualsValue(Value(), other.Value())
      case NullRef => Returns(false)
      case OtherClass => Returns(false)
    }
  }

  /** The first three steps give 31^3 + 31^2*hd + 31*hi + hn modulo 2^32. */
  lemma HashPrefix(hd: int, hi: int, hn: int)
    ensures HashStep(HashStep(HashStep(1, hd), hi), hn) == Narrow(29791 + 961 * hd + 31 * hi + hn, W32)
  {
    var r1 := HashStep(1, hd);
    HornerStep(r1, 31 + hd, hi);
    HornerStep(HashStep(r1, hi), 31 * (31 + hd) + hi, hn);
  }

  /**
   * `hashCode` in closed form: the polynomial 31^3 + 31^2*h(dob) + 31*h(id)
   * + h(name), times 31 plus the bits of `percentage` when that is not
   * `null`, taken modulo 2^32.
   */
  lemma HashClosedForm(v: EmployeeValue)
    ensures var three := 29791 + 961 * DobHash(v) + 31 * IdHash(v) + NameHash(v);
            HashOf(v) == if v.percentage.Some? then Narrow(31 * three + v.percentage.value, W32) else Narrow(three, W32)
  {
    var hd: int, hi: int, hn: int := DobHash(v), IdHash(v), NameHash(v);
    HashPrefix(hd, hi, hn);
    if v.percentage.Some? {
      HornerStep(HashStep(HashStep(HashStep(1, hd), hi), hn), 29791 + 961 * hd + 31 * hi + hn, v.percentage.value);
    }
  }

  /** Equal employees (with a `percentage`, so that `equals` returns at all)
      have equal hash codes. */
  lemma EqualsImpliesSameHash(a: EmployeeValue, b: EmployeeValue)
    requires EqualsValue(a, b) == Returns(true)
    ensures HashOf(a) == HashOf(b)
  {
  }

  /** Two employees that agree on `dob`, `id` and `name` and both have a
      `percentage` share a hash code only when they are the same value. */
  lemma {:induction false} SameKeySameHashIsSame(a: EmployeeValue, b: EmployeeValue)
    requires SameKey(a, b) && a.percentage.Some? && b.percentage.Some?
    requires HashOf(a) == HashOf(b)
    ensures a == b
  {
    var three: int := 29791 + 961 * DobHash(a) + 31 * IdHash(a) + NameHash(a);
    assert DobHash(a) == DobHash(b) && IdHash(a) == IdHash(b) && NameHash(a) == NameHash(b);
    HashClosedForm(a);
    HashClosedForm(b);
    NarrowOffsetInjective(31 * three, a.percentage.value, b.percentage.value);
  }
}
