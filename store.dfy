/**
 * The employee store (src/store.js): an in-memory sequence of records that
 * every mutation writes through to storage. The pure part is stated on
 * `seq<Employee>`; `EmployeeStore` holds the sequence and its persisted copy.
 */
module Store {
  import opened Wrappers
  import opened Employees
  import opened Seqs
  import PhoneFormat

  // ---------------------------------------------------------------------------
  // Queries
  // ---------------------------------------------------------------------------

  /** `emp[f] === v && emp.id !== excludeId`; with no excluded id (`null`) every record counts. */
  predicate Conflicts(e: Employee, f: Field, v: string, exclude: Option<string>) {
    e.details.Get(f) == v && (exclude.None? || e.id != exclude.value)
  }

  /** `isEmailUnique` / `isPhoneUnique`: `!employees.some(conflict)`. */
  function IsUnique(s: seq<Employee>, f: Field, v: string, exclude: Option<string>): (r: bool)
    ensures r <==> forall i :: 0 <= i < |s| ==> !Conflicts(s[i], f, v, exclude)
  {
    if s == [] then true
    else !Conflicts(s[0], f, v, exclude) && IsUnique(s[1..], f, v, exclude)
  }

  /** `findIndex(e => e.id === id) !== -1` */
  predicate HasId(s: seq<Employee>, id: string) {
    exists i :: 0 <= i < |s| && s[i].id == id
  }

  /** `getEmployeeById`: `employees.find(e => e.id === id)`, the first record with that id. */
  function FindById(s: seq<Employee>, id: string): (r: Option<Employee>)
    ensures r.None? <==> !HasId(s, id)
    ensures r.Some? ==> exists i :: 0 <= i < |s| && s[i] == r.value && s[i].id == id &&
                                    forall j :: 0 <= j < i ==> s[j].id != id
  {
    if s == [] then None
    else if s[0].id == id then Some(s[0])
    else
      var r := FindById(s[1..], id);
      assert r.Some? ==> exists i :: 1 <= i < |s| && s[i] == r.value && s[i].id == id &&
                                     forall j :: 0 <= j < i ==> s[j].id != id by {
        if r.Some? {
          var k :| 0 <= k < |s[1..]| && s[1..][k] == r.value && s[1..][k].id == id &&
                   forall j :: 0 <= j < k ==> s[1..][j].id != id;
          assert s[k + 1] == r.value;
          assert forall j :: 0 <= j < k + 1 ==> s[j].id != id by {
            forall j | 0 <= j < k + 1 ensures s[j].id != id {
              if j > 0 { assert s[j] == s[1..][j - 1]; }
            }
          }
        }
      }
      assert !HasId(s[1..], id) ==> !HasId(s, id) by {
        if HasId(s, id) {
          var k :| 0 <= k < |s| && s[k].id == id;
          assert s[1..][k - 1].id == id;
        }
      }
      r
  }

  // ---------------------------------------------------------------------------
  // Add
  // ---------------------------------------------------------------------------

  /**
   * The checks of `addEmployee`, in order: email, then (when a phone is given)
   * phone format, then uniqueness of the normalised phone. On acceptance the
   * result is the candidate as the store rewrites it, with the formatted phone.
   */
  function AddCandidate(s: seq<Employee>, emp: Details): (r: Option<Details>)
    ensures r.None? <==>
      || (exists i :: 0 <= i < |s| && s[i].details.email == emp.email)
      || (emp.phone != "" &&
          (|| !PhoneFormat.MatchesPattern(PhoneFormat.NormalizePhone(emp.phone))
           || exists i :: 0 <= i < |s| && s[i].details.phone == PhoneFormat.NormalizePhone(emp.phone)))
    ensures r.Some? ==>
      r.value == if emp.phone == "" then emp else emp.(phone := PhoneFormat.NormalizePhone(emp.phone))
  {
    if !IsUnique(s, Email, emp.email, None) then None
    else if emp.phone != "" then
      var formatted := PhoneFormat.ValidateAndFormatPhone(emp.phone);
      if formatted.None? || !IsUnique(s, Phone, formatted.value, None) then None
      else Some(emp.(phone := formatted.value))
    else Some(emp)
  }

  /** `{ id: Date.now().toString(), ...emp }`: an id the caller supplies overrides the fresh one. */
  function NewRecord(emp: Details, suppliedId: Option<string>, freshId: string): (r: Employee)
    ensures r.details == emp
    ensures r.id == if suppliedId.Some? then suppliedId.value else freshId
  {
    Employee(if suppliedId.Some? then suppliedId.value else freshId, emp)
  }

  // ---------------------------------------------------------------------------
  // Update
  // ---------------------------------------------------------------------------

  /** A partial record: the fields present in the patch, and its `id` property if it has one. */
  datatype Patch = Patch(id: Option<string>, fields: map<Field, string>)

  function Pick(p: Patch, f: Field, d: Details): string {
    if f in p.fields then p.fields[f] else d.Get(f)
  }

  /** `{ ...emp, ...updated }`: fields of the patch overwrite, absent fields are kept. */
  function Merge(e: Employee, p: Patch): (r: Employee)
    ensures r.id == if p.id.Some? then p.id.value else e.id
    ensures forall f :: r.details.Get(f) == if f in p.fields then p.fields[f] else e.details.Get(f)
  {
    var d := e.details;
    Employee(
      if p.id.Some? then p.id.value else e.id,
      Details(Pick(p, FirstName, d), Pick(p, LastName, d), Pick(p, DateOfEmployment, d),
              Pick(p, DateOfBirth, d), Pick(p, Phone, d), Pick(p, Email, d),
              Pick(p, Department, d), Pick(p, Position, d)))
  }

  /**
   * The checks of `updateEmployee`, in order: the id must exist, then email,
   * then phone, where the records with that id never conflict. A patch without
   * an email passes the email check, since `undefined` equals no stored email.
   * On acceptance the result is the patch as the store rewrites it.
   */
  function UpdatePatch(s: seq<Employee>, id: string, p: Patch): (r: Option<Patch>)
    ensures r.None? <==>
      || !HasId(s, id)
      || (Email in p.fields && exists i :: 0 <= i < |s| && s[i].id != id && s[i].details.email == p.fields[Email])
      || (Phone in p.fields && p.fields[Phone] != "" &&
          (|| !PhoneFormat.MatchesPattern(PhoneFormat.NormalizePhone(p.fields[Phone]))
           || exists i :: 0 <= i < |s| && s[i].id != id &&
                          s[i].details.phone == PhoneFormat.NormalizePhone(p.fields[Phone])))
    ensures r.Some? ==> r.value.id == p.id && r.value.fields.Keys == p.fields.Keys
    ensures r.Some? ==> forall f :: f in p.fields && f != Phone ==> r.value.fields[f] == p.fields[f]
    ensures r.Some? && Phone in p.fields ==>
      r.value.fields[Phone] == if p.fields[Phone] == "" then "" else PhoneFormat.NormalizePhone(p.fields[Phone])
    ensures r.Some? && Phone in p.fields && p.fields[Phone] != "" ==>
      PhoneFormat.MatchesPattern(r.value.fields[Phone])
  {
    if !HasId(s, id) then None
    else if Email in p.fields && !IsUnique(s, Email, p.fields[Email], Some(id)) then None
    else if Phone in p.fields && p.fields[Phone] != "" then
      var formatted := PhoneFormat.ValidateAndFormatPhone(p.fields[Phone]);
      if formatted.None? || !IsUnique(s, Phone, formatted.value, Some(id)) then None
      else Some(p.(fields := p.fields[Phone := formatted.value]))
    else Some(p)
  }

  /** `employees.map(emp => emp.id === id ? { ...emp, ...updated } : emp)` */
  function ApplyUpdate(s: seq<Employee>, id: string, p: Patch): (r: seq<Employee>)
    ensures |r| == |s|
    ensures forall i :: 0 <= i < |s| && s[i].id != id ==> r[i] == s[i]
    ensures forall i :: 0 <= i < |s| && s[i].id == id ==> r[i] == Merge(s[i], p)
  {
    seq(|s|, i requires 0 <= i < |s| => if s[i].id == id then Merge(s[i], p) else s[i])
  }

  // ---------------------------------------------------------------------------
  // Delete
  // ---------------------------------------------------------------------------

  function KeepsOther(id: string): Employee -> bool {
    (e: Employee) => e.id != id
  }

  /** `employees.filter(emp => emp.id !== id)` */
  function Remove(s: seq<Employee>, id: string): (r: seq<Employee>)
    ensures forall e :: e in r <==> e in s && e.id != id
  {
    Filter(s, KeepsOther(id))
  }

  // ---------------------------------------------------------------------------
  // The store's invariant and what the operations promise about it
  // ---------------------------------------------------------------------------

  /** Ids are pairwise distinct, emails are pairwise distinct and non-empty phones are pairwise distinct. */
  ghost predicate Consistent(s: seq<Employee>) {
    forall i, j :: 0 <= i < j < |s| ==>
      && s[i].id != s[j].id
      && s[i].details.email != s[j].details.email
      && (s[i].details.phone != "" ==> s[i].details.phone != s[j].details.phone)
  }

  /** A successful add keeps the invariant, provided the new record's id is not already stored. */
  lemma AddKeepsConsistent(s: seq<Employee>, emp: Details, id: string)
    requires Consistent(s) && !HasId(s, id)
    requires AddCandidate(s, emp).Some?
    ensures Consistent(s + [Employee(id, AddCandidate(s, emp).value)])
  {
    var d := AddCandidate(s, emp).value;
    var t := s + [Employee(id, d)];
    forall i, j | 0 <= i < j < |t|
      ensures && t[i].id != t[j].id
              && t[i].details.email != t[j].details.email
              && (t[i].details.phone != "" ==> t[i].details.phone != t[j].details.phone)
    {
      if j == |s| {
        assert t[i] == s[i] && t[j] == Employee(id, d);
      } else {
        assert t[i] == s[i] && t[j] == s[j];
      }
    }
  }

  /** Emails are pairwise distinct and non-empty phones are pairwise distinct; ids may repeat. */
  ghost predicate ContactsDistinct(s: seq<Employee>) {
    forall i, j :: 0 <= i < j < |s| ==>
      && s[i].details.email != s[j].details.email
      && (s[i].details.phone != "" ==> s[i].details.phone != s[j].details.phone)
  }

  /**
   * Whatever id the new record gets (a caller-supplied one, or a clock value
   * that repeats), an accepted add keeps emails and non-empty phones distinct.
   */
  lemma AddKeepsContactsDistinct(s: seq<Employee>, emp: Details, id: string)
    requires ContactsDistinct(s)
    requires AddCandidate(s, emp).Some?
    ensures ContactsDistinct(s + [Employee(id, AddCandidate(s, emp).value)])
  {
    var d := AddCandidate(s, emp).value;
    var t := s + [Employee(id, d)];
    forall i, j | 0 <= i < j < |t|
      ensures && t[i].details.email != t[j].details.email
              && (t[i].details.phone != "" ==> t[i].details.phone != t[j].details.phone)
    {
      if j == |s| {
        assert t[i] == s[i] && t[j] == Employee(id, d);
      } else {
        assert t[i] == s[i] && t[j] == s[j];
      }
    }
  }

  /** Adding fails, and so changes nothing, whenever the email is already stored. */
  lemma AddRejectsDuplicateEmail(s: seq<Employee>, emp: Details, k: int)
    requires 0 <= k < |s| && s[k].details.email == emp.email
    ensures AddCandidate(s, emp) == None
  {
  }

  /**
   * A successful update keeps the invariant, provided the patch does not give
   * the record the id of another stored record.
   */
  lemma UpdateKeepsConsistent(s: seq<Employee>, id: string, p: Patch)
    requires Consistent(s)
    requires UpdatePatch(s, id, p).Some?
    requires p.id.None? || p.id.value == id || !HasId(s, p.id.value)
    ensures Consistent(ApplyUpdate(s, id, UpdatePatch(s, id, p).value))
  {
    var q := UpdatePatch(s, id, p).value;
    var t := ApplyUpdate(s, id, q);
    assert Email in q.fields ==> IsUnique(s, Email, q.fields[Email], Some(id));
    assert Phone in q.fields && q.fields[Phone] != "" ==> IsUnique(s, Phone, q.fields[Phone], Some(id));
    forall i, j | 0 <= i < j < |t|
      ensures && t[i].id != t[j].id
              && t[i].details.email != t[j].details.email
              && (t[i].details.phone != "" ==> t[i].details.phone != t[j].details.phone)
    {
      assert t[i] == (if s[i].id == id then Merge(s[i], q) else s[i]);
      assert t[j] == (if s[j].id == id then Merge(s[j], q) else s[j]);
      assert !(s[i].id == id && s[j].id == id);
    }
  }

  /** An update of an id that is not stored is refused and the collection is left as it is. */
  lemma UpdateUnknownId(s: seq<Employee>, id: string, p: Patch)
    requires !HasId(s, id)
    ensures UpdatePatch(s, id, p) == None
    ensures ApplyUpdate(s, id, p) == s
  {
    var t := ApplyUpdate(s, id, p);
    forall i | 0 <= i < |s| ensures t[i] == s[i] {
      assert s[i].id != id;
    }
  }

  /**
   * A successful update rewrites exactly the records with that id, in place:
   * patched fields overwrite, absent ones are kept, a given phone is stored
   * normalised, and records with other ids are untouched.
   */
  lemma UpdateChangesOnlyTarget(s: seq<Employee>, id: string, p: Patch, i: int, f: Field)
    requires UpdatePatch(s, id, p).Some? && 0 <= i < |s|
    ensures s[i].id != id ==> ApplyUpdate(s, id, UpdatePatch(s, id, p).value)[i] == s[i]
    ensures s[i].id == id ==>
      ApplyUpdate(s, id, UpdatePatch(s, id, p).value)[i].details.Get(f) ==
        if f !in p.fields then s[i].details.Get(f)
        else if f == Phone && p.fields[f] != "" then PhoneFormat.NormalizePhone(p.fields[f])
        else p.fields[f]
  {
  }

  lemma OwnEmailUnique(s: seq<Employee>, k: int)
    requires Consistent(s) && 0 <= k < |s|
    ensures IsUnique(s, Email, s[k].details.email, Some(s[k].id))
  {
    forall i | 0 <= i < |s| ensures !Conflicts(s[i], Email, s[k].details.email, Some(s[k].id)) {
      if i < k {
        assert s[i].details.email != s[k].details.email;
      } else if i > k {
        assert s[k].details.email != s[i].details.email;
      }
      assert s[i].details.Get(Email) == s[i].details.email;
    }
  }

  lemma OwnPhoneUnique(s: seq<Employee>, k: int)
    requires Consistent(s) && 0 <= k < |s| && s[k].details.phone != ""
    ensures IsUnique(s, Phone, s[k].details.phone, Some(s[k].id))
  {
    forall i | 0 <= i < |s| ensures !Conflicts(s[i], Phone, s[k].details.phone, Some(s[k].id)) {
      if i < k {
        assert s[i].details.phone != "" ==> s[i].details.phone != s[k].details.phone;
      } else if i > k {
        assert s[k].details.phone != s[i].details.phone;
      }
      assert s[i].details.Get(Phone) == s[i].details.phone;
    }
  }

  /** A record's own email and phone never count against it: re-saving them is accepted. */
  lemma UpdateOwnContactAccepted(s: seq<Employee>, k: int, p: Patch)
    requires Consistent(s) && 0 <= k < |s|
    requires Email in p.fields ==> p.fields[Email] == s[k].details.email
    requires Phone in p.fields ==> p.fields[Phone] == s[k].details.phone
    requires s[k].details.phone == "" || PhoneFormat.MatchesPattern(s[k].details.phone)
    ensures UpdatePatch(s, s[k].id, p).Some?
  {
    var id := s[k].id;
    assert HasId(s, id);
    OwnEmailUnique(s, k);
    if Phone in p.fields && p.fields[Phone] != "" {
      var ph := s[k].details.phone;
      PhoneFormat.PatternIsCanonical(ph);
      PhoneFormat.CanonicalFixed(ph);
      OwnPhoneUnique(s, k);
    }
  }

  lemma {:induction false} ConsistentCons(x: Employee, t: seq<Employee>)
    requires Consistent(t)
    requires forall e :: e in t ==> e.id != x.id && e.details.email != x.details.email &&
                                    (x.details.phone != "" ==> e.details.phone != x.details.phone)
    ensures Consistent([x] + t)
  {
    var u := [x] + t;
    forall i, j | 0 <= i < j < |u|
      ensures && u[i].id != u[j].id
              && u[i].details.email != u[j].details.email
              && (u[i].details.phone != "" ==> u[i].details.phone != u[j].details.phone)
    {
      if i == 0 {
        assert u[j] == t[j - 1] && u[j] in t;
      } else {
        assert u[i] == t[i - 1] && u[j] == t[j - 1];
      }
    }
  }

  /** Deleting keeps the invariant: the result is a subsequence of a consistent collection. */
  lemma {:induction false} RemoveKeepsConsistent(s: seq<Employee>, id: string)
    requires Consistent(s)
    ensures Consistent(Remove(s, id))
    decreases |s|
  {
    if s != [] {
      var t := s[1..];
      assert Consistent(t) by {
        forall i, j | 0 <= i < j < |t|
          ensures && t[i].id != t[j].id
                  && t[i].details.email != t[j].details.email
                  && (t[i].details.phone != "" ==> t[i].details.phone != t[j].details.phone)
        {
          assert t[i] == s[i + 1] && t[j] == s[j + 1];
        }
      }
      RemoveKeepsConsistent(t, id);
      assert Remove(s, id) == (if s[0].id != id then [s[0]] else []) + Remove(t, id);
      if s[0].id != id {
        forall e | e in Remove(t, id)
          ensures e.id != s[0].id && e.details.email != s[0].details.email &&
                  (s[0].details.phone != "" ==> e.details.phone != s[0].details.phone)
        {
          var k :| 0 <= k < |t| && t[k] == e;
          assert s[k + 1] == e;
        }
        ConsistentCons(s[0], Remove(t, id));
      }
    }
  }

  /** Deleting an id that is not stored leaves the collection unchanged. */
  lemma RemoveUnknownId(s: seq<Employee>, id: string)
    requires !HasId(s, id)
    ensures Remove(s, id) == s
  {
    FilterAll(s, KeepsOther(id));
  }

  /** Deleting is idempotent, and after it no record has the id. */
  lemma RemoveIdempotent(s: seq<Employee>, id: string)
    ensures Remove(Remove(s, id), id) == Remove(s, id)
    ensures !HasId(Remove(s, id), id)
  {
    FilterIdempotent(s, KeepsOther(id));
    var r := Remove(s, id);
    assert forall i :: 0 <= i < |r| ==> r[i] in r;
  }

  /** Deleting keeps the other records in their original order. */
  lemma RemoveAppend(a: seq<Employee>, b: seq<Employee>, id: string)
    ensures Remove(a + b, id) == Remove(a, id) + Remove(b, id)
  {
    FilterAppend(a, b, KeepsOther(id));
  }

  /** In a consistent collection the lookup by a stored id finds exactly that record. */
  lemma FindStored(s: seq<Employee>, k: int)
    requires Consistent(s) && 0 <= k < |s|
    ensures FindById(s, s[k].id) == Some(s[k])
  {
    var r := FindById(s, s[k].id);
    assert HasId(s, s[k].id);
    var i :| 0 <= i < |s| && s[i] == r.value && s[i].id == s[k].id &&
             forall j :: 0 <= j < i ==> s[j].id != s[k].id;
    assert !(i < k) && !(k < i);
  }

  // ---------------------------------------------------------------------------
  // The module-level state of src/store.js
  // ---------------------------------------------------------------------------

  /**
   * The store's `employees` array and the value last written to storage.
   * Every mutation writes the whole array, so the two are always equal.
   */
  class EmployeeStore {
    var employees: seq<Employee>
    ghost var persisted: seq<Employee>

    ghost predicate Valid()
      reads this
    {
      persisted == employees
    }

    /** `JSON.parse(localStorage.getItem('employees')) || []` */
    constructor (stored: Option<seq<Employee>>)
      ensures Valid()
      ensures employees == if stored.Some? then stored.value else []
    {
      employees := if stored.Some? then stored.value else [];
      persisted := employees;
    }

    /** `getEmployees`: a copy of the collection, insertion order preserved. */
    method GetEmployees() returns (list: seq<Employee>)
      ensures list == employees
    {
      list := employees;
    }

    function GetEmployeeById(id: string): (r: Option<Employee>)
      reads this
      ensures r.None? <==> !HasId(employees, id)
      ensures r.Some? ==> r.value in employees && r.value.id == id
    {
      FindById(employees, id)
    }

    function IsEmailUnique(email: string, excludeId: Option<string>): (r: bool)
      reads this
      ensures r <==> forall i :: 0 <= i < |employees| ==>
                       !(employees[i].details.email == email && (excludeId.None? || employees[i].id != excludeId.value))
    {
      IsUnique(employees, Email, email, excludeId)
    }

    function IsPhoneUnique(phone: string, excludeId: Option<string>): (r: bool)
      reads this
      ensures r <==> forall i :: 0 <= i < |employees| ==>
                       !(employees[i].details.phone == phone && (excludeId.None? || employees[i].id != excludeId.value))
    {
      IsUnique(employees, Phone, phone, excludeId)
    }

    /**
     * `addEmployee(emp)`; `emp` is the caller's object, returned as the store
     * leaves it (its phone rewritten to the formatted one on success). A
     * caller-supplied `id` overrides `freshId`, the value `Date.now()` gave.
     */
    method AddEmployee(emp: Details, suppliedId: Option<string>, freshId: string)
      returns (ok: bool, written: Details)
      requires Valid()
      modifies this
      ensures Valid()
      ensures ok == AddCandidate(old(employees), emp).Some?
      ensures ok ==> written == AddCandidate(old(employees), emp).value &&
                     employees == old(employees) + [NewRecord(written, suppliedId, freshId)]
      ensures !ok ==> written == emp && employees == old(employees)
    {
      written := emp;
      if !IsUnique(employees, Email, emp.email, None) {
        return false, written;
      }
      if emp.phone != "" {
        var formatted := PhoneFormat.ValidateAndFormatPhone(emp.phone);
        if formatted.None? || !IsUnique(employees, Phone, formatted.value, None) {
          return false, written;
        }
        written := written.(phone := formatted.value);
      }
      employees := employees + [NewRecord(written, suppliedId, freshId)];
      persisted := employees;
      ok := true;
    }

    /** `updateEmployee(id, updated)`; `updated` is returned as the store leaves it. */
    method UpdateEmployee(id: string, updated: Patch) returns (ok: bool, written: Patch)
      requires Valid()
      modifies this
      ensures Valid()
      ensures ok == UpdatePatch(old(employees), id, updated).Some?
      ensures ok ==> written == UpdatePatch(old(employees), id, updated).value &&
                     employees == ApplyUpdate(old(employees), id, written)
      ensures !ok ==> written == updated && employees == old(employees)
    {
      written := updated;
      if FindById(employees, id).None? {
        return false, written;
      }
      if Email in updated.fields && !IsUnique(employees, Email, updated.fields[Email], Some(id)) {
        return false, written;
      }
      if Phone in updated.fields && updated.fields[Phone] != "" {
        var formatted := PhoneFormat.ValidateAndFormatPhone(updated.fields[Phone]);
        if formatted.None? || !IsUnique(employees, Phone, formatted.value, Some(id)) {
          return false, written;
        }
        written := written.(fields := written.fields[Phone := formatted.value]);
      }
      employees := ApplyUpdate(employees, id, written);
      persisted := employees;
      ok := true;
    }

    /** `deleteEmployee(id)`: drops every record with that id and writes the result. */
    method DeleteEmployee(id: string)
      requires Valid()
      modifies this
      ensures Valid()
      ensures employees == Remove(old(employees), id)
    {
      employees := Remove(employees, id);
      persisted := employees;
    }
  }
}
