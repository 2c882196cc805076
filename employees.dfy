/**
 * The employee record shared by the store, the list view and the form.
 * A record is an `id` plus the eight fields the form edits; `Field` names
 * those eight in the order the form declares them.
 */
module Employees {

  datatype Field = FirstName | LastName | DateOfEmployment | DateOfBirth | Phone | Email | Department | Position

  /** The keys of the form buffer, in the order `Object.keys` yields them. */
  const FormKeys: seq<Field> :=
    [FirstName, LastName, DateOfEmployment, DateOfBirth, Phone, Email, Department, Position]

  /** Every field is one of the form's keys. */
  lemma FormKeysComplete(f: Field)
    ensures f in FormKeys
  {
  }

  /** The property name of a field, as used for `errorField` and as a translation key. */
  function KeyName(f: Field): string {
    match f
    case FirstName => "firstName"
    case LastName => "lastName"
    case DateOfEmployment => "dateOfEmployment"
    case DateOfBirth => "dateOfBirth"
    case Phone => "phone"
    case Email => "email"
    case Department => "department"
    case Position => "position"
  }

  /** The eight editable fields of a record (dates are ISO date strings, as stored). */
  datatype Details = Details(
    firstName: string,
    lastName: string,
    dateOfEmployment: string,
    dateOfBirth: string,
    phone: string,
    email: string,
    department: string,
    position: string)
  {
    function Get(f: Field): string {
      match f
      case FirstName => firstName
      case LastName => lastName
      case DateOfEmployment => dateOfEmployment
      case DateOfBirth => dateOfBirth
      case Phone => phone
      case Email => email
      case Department => department
      case Position => position
    }

    /** `{ ...this, [f]: v }` */
    function Set(f: Field, v: string): (d: Details)
      ensures d.Get(f) == v
      ensures forall g :: g != f ==> d.Get(g) == Get(g)
    {
      match f
      case FirstName => this.(firstName := v)
      case LastName => this.(lastName := v)
      case DateOfEmployment => this.(dateOfEmployment := v)
      case DateOfBirth => this.(dateOfBirth := v)
      case Phone => this.(phone := v)
      case Email => this.(email := v)
      case Department => this.(department := v)
      case Position => this.(position := v)
    }
  }

  /** A details value whose eight fields are all non-empty has no empty field. */
  lemma AllFilled(d: Details)
    requires d.firstName != "" && d.lastName != "" && d.dateOfEmployment != "" && d.dateOfBirth != ""
    requires d.phone != "" && d.email != "" && d.department != "" && d.position != ""
    ensures forall f :: d.Get(f) != ""
  {
  }

  /** The form's initial buffer: every field empty. */
  const EmptyDetails: Details := Details("", "", "", "", "", "", "", "")

  /** A stored record: `{ id, ...fields }`. */
  datatype Employee = Employee(id: string, details: Details)

  /** Two details values are equal when they agree on every field. */
  lemma DetailsExtensional(a: Details, b: Details)
    requires forall f :: a.Get(f) == b.Get(f)
    ensures a == b
  {
    assert a.Get(FirstName) == b.Get(FirstName) && a.Get(LastName) == b.Get(LastName);
    assert a.Get(DateOfEmployment) == b.Get(DateOfEmployment) && a.Get(DateOfBirth) == b.Get(DateOfBirth);
    assert a.Get(Phone) == b.Get(Phone) && a.Get(Email) == b.Get(Email);
    assert a.Get(Department) == b.Get(Department) && a.Get(Position) == b.Get(Position);
  }
}
