/**
 * The form controller of src/components/employee-form.js: one edit buffer in
 * create mode (no `employeeId`) or edit mode (bound from the route), ordered
 * validation, and a submit flow that saves at once when creating and only
 * after the confirm dialog when editing.
 */
module Form {
  import opened Wrappers
  import opened Employees
  import opened Store
  import PhoneFormat

  // ---------------------------------------------------------------------------
  // The route `edit/<id>`
  // ---------------------------------------------------------------------------

  /** The characters `.` in a JavaScript regular expression does not match. */
  predicate IsLineTerminator(c: char) {
    c == '\n' || c == '\r' || c == '\U{2028}' || c == '\U{2029}'
  }

  /** The longest prefix of `s` without a line terminator: what a greedy `.+` consumes. */
  function TakeLine(s: string): (r: string)
    ensures |r| <= |s| && r == s[..|r|]
    ensures forall i :: 0 <= i < |r| ==> !IsLineTerminator(r[i])
    ensures |r| == |s| || IsLineTerminator(s[|r|])
  {
    if s == [] || IsLineTerminator(s[0]) then [] else [s[0]] + TakeLine(s[1..])
  }

  /** `edit\/(.+)` tried at `i` and at every later start position; the first match wins. */
  function MatchEditFrom(path: string, i: nat): (r: Option<string>)
    decreases |path| - i
    ensures r.Some? ==> r.value != []
  {
    if i + 5 >= |path| then None
    else if path[i..i + 5] == "edit/" && !IsLineTerminator(path[i + 5]) then Some(TakeLine(path[i + 5..]))
    else MatchEditFrom(path, i + 1)
  }

  /** `window.location.pathname.match(/edit\/(.+)/)`, and its capture group. */
  function EditRouteId(path: string): (r: Option<string>)
    ensures r.Some? ==> r.value != []
  {
    MatchEditFrom(path, 0)
  }

  lemma TakeLineAll(s: string)
    requires forall i :: 0 <= i < |s| ==> !IsLineTerminator(s[i])
    ensures TakeLine(s) == s
  {
    assert TakeLine(s) == s[..|TakeLine(s)|];
  }

  /** The path `/edit/<id>` binds `<id>` for every non-empty id on one line. */
  lemma EditPathBindsId(id: string)
    requires id != [] && forall i :: 0 <= i < |id| ==> !IsLineTerminator(id[i])
    ensures EditRouteId("/edit/" + id) == Some(id)
  {
    var path := "/edit/" + id;
    assert path[0..5] != "edit/" by { assert path[0] == '/'; }
    assert path[1..6] == "edit/";
    assert MatchEditFrom(path, 0) == MatchEditFrom(path, 1);
    assert path[6] == id[0];
    assert path[6..] == id;
    TakeLineAll(id);
  }

  /** The list's path binds nothing, so the form stays in create mode there. */
  lemma ListPathBindsNothing()
    ensures EditRouteId("/list") == None
  {
  }

  // ---------------------------------------------------------------------------
  // Validation
  // ---------------------------------------------------------------------------

  /** What `validate` reports, with the `errorKey` and `errorField` it sets. */
  datatype Failure = Required(field: Field) | EmailExists | PhoneExists {
    function ErrorKey(): string {
      match this
      case Required(_) => "required"
      case EmailExists => "emailExists"
      case PhoneExists => "phoneExists"
    }

    function ErrorField(): string {
      if Required? then KeyName(field) else ""
    }
  }

  /** The first key whose value is empty, in key order. */
  function FirstEmpty(d: Details, keys: seq<Field>): (r: Option<Field>)
    ensures r.None? <==> forall i :: 0 <= i < |keys| ==> d.Get(keys[i]) != ""
    ensures r.Some? ==> exists i :: 0 <= i < |keys| && keys[i] == r.value && d.Get(keys[i]) == "" &&
                                    forall j :: 0 <= j < i ==> d.Get(keys[j]) != ""
  {
    if keys == [] then None
    else if d.Get(keys[0]) == "" then Some(keys[0])
    else
      var r := FirstEmpty(d, keys[1..]);
      assert r.Some? ==> exists i :: 1 <= i < |keys| && keys[i] == r.value && d.Get(keys[i]) == "" &&
                                     forall j :: 0 <= j < i ==> d.Get(keys[j]) != "" by {
        if r.Some? {
          var k :| 0 <= k < |keys[1..]| && keys[1..][k] == r.value && d.Get(keys[1..][k]) == "" &&
                   forall j :: 0 <= j < k ==> d.Get(keys[1..][j]) != "";
          assert keys[k + 1] == r.value;
          forall j | 0 <= j < k + 1 ensures d.Get(keys[j]) != "" {
            if j > 0 { assert keys[j] == keys[1..][j - 1]; }
          }
        }
      }
      assert r.None? ==> forall i :: 0 <= i < |keys| ==> d.Get(keys[i]) != "" by {
        if r.None? {
          forall i | 0 <= i < |keys| ensures d.Get(keys[i]) != "" {
            if i > 0 { assert keys[i] == keys[1..][i - 1]; }
          }
        }
      }
      r
  }

  /** The first empty key is the one at `i` when every key before it is filled. */
  lemma {:induction false} FirstEmptyAt(d: Details, keys: seq<Field>, i: nat)
    requires i < |keys| && d.Get(keys[i]) == ""
    requires forall j :: 0 <= j < i ==> d.Get(keys[j]) != ""
    ensures FirstEmpty(d, keys) == Some(keys[i])
  {
    if i > 0 {
      assert keys[1..][i - 1] == keys[i];
      FirstEmptyAt(d, keys[1..], i - 1);
    }
  }

  /**
   * The verdict of `validate`: the first empty field in key order, then a
   * duplicate email, then a duplicate phone, where records with the form's own
   * id never conflict. The phone is compared RAW, not normalised, and its
   * format is not checked.
   */
  function Check(d: Details, s: seq<Employee>, employeeId: Option<string>): (r: Option<Failure>)
    ensures r.None? <==>
      && (forall f :: d.Get(f) != "")
      && (forall i :: 0 <= i < |s| ==> !Conflicts(s[i], Email, d.email, employeeId))
      && (forall i :: 0 <= i < |s| ==> !Conflicts(s[i], Phone, d.phone, employeeId))
    ensures r.Some? && r.value.Required? ==>
      d.Get(r.value.field) == "" &&
      exists i :: 0 <= i < |FormKeys| && FormKeys[i] == r.value.field &&
                  forall j :: 0 <= j < i ==> d.Get(FormKeys[j]) != ""
    ensures r.Some? && !r.value.Required? ==> forall f :: d.Get(f) != ""
    ensures r == Some(EmailExists) ==> exists i :: 0 <= i < |s| && Conflicts(s[i], Email, d.email, employeeId)
    ensures r == Some(PhoneExists) ==>
      && (forall i :: 0 <= i < |s| ==> !Conflicts(s[i], Email, d.email, employeeId))
      && (exists i :: 0 <= i < |s| && Conflicts(s[i], Phone, d.phone, employeeId))
  {
    var empty := FirstEmpty(d, FormKeys);
    assert empty.None? ==> forall f :: d.Get(f) != "" by {
      if empty.None? {
        forall f ensures d.Get(f) != "" {
          FormKeysComplete(f);
        }
      }
    }
    if empty.Some? then Some(Required(empty.value))
    else if !IsUnique(s, Email, d.email, employeeId) then Some(EmailExists)
    else if !IsUnique(s, Phone, d.phone, employeeId) then Some(PhoneExists)
    else None
  }

  // ---------------------------------------------------------------------------
  // Saving
  // ---------------------------------------------------------------------------

  /** The edit buffer as the patch `updateEmployee` receives: `{ ...emp }` edited, so its `id` is the bound id. */
  function FormPatch(d: Details, id: string): (p: Patch)
    ensures p.id == Some(id)
    ensures forall f :: f in p.fields && p.fields[f] == d.Get(f)
    ensures Email in p.fields && p.fields[Email] == d.email
    ensures Phone in p.fields && p.fields[Phone] == d.phone
  {
    forall f ensures f in FormKeys { FormKeysComplete(f); }
    Patch(Some(id), map f: Field | f in FormKeys :: d.Get(f))
  }

  /**
   * The effect of `_saveEmployee` on the store's collection and on the buffer
   * (the store rewrites the buffer's phone), or `None` when the store refuses.
   */
  function SaveResult(s: seq<Employee>, d: Details, employeeId: Option<string>, freshId: string)
    : (r: Option<(seq<Employee>, Details)>)
    ensures r.Some? ==> r.value.1 == d.(phone := if d.phone == "" then "" else PhoneFormat.NormalizePhone(d.phone))
    ensures r.Some? && employeeId.None? ==> r.value.0 == s + [Employee(freshId, r.value.1)]
    ensures r.Some? && employeeId.Some? ==>
      && |r.value.0| == |s|
      && (forall i :: 0 <= i < |s| && s[i].id != employeeId.value ==> r.value.0[i] == s[i])
      && (forall i :: 0 <= i < |s| && s[i].id == employeeId.value ==>
            r.value.0[i] == Employee(employeeId.value, r.value.1))
  {
    match employeeId
    case None =>
      var c := AddCandidate(s, d);
      if c.None? then None else Some((s + [NewRecord(c.value, None, freshId)], c.value))
    case Some(id) =>
      var q := UpdatePatch(s, id, FormPatch(d, id));
      if q.None? then None
      else
        var d' := d.(phone := q.value.fields[Phone]);
        assert forall i :: 0 <= i < |s| && s[i].id == id ==> Merge(s[i], q.value) == Employee(id, d') by {
          forall i | 0 <= i < |s| && s[i].id == id ensures Merge(s[i], q.value) == Employee(id, d') {
            MergeWritesBuffer(s[i], d, id, q.value);
          }
        }
        Some((ApplyUpdate(s, id, q.value), d'))
  }

  /**
   * Merging the buffer's patch, as the store rewrote it, into a record gives
   * that record exactly the buffer's fields with the rewritten phone, under the bound id.
   */
  lemma MergeWritesBuffer(e: Employee, d: Details, id: string, q: Patch)
    requires q.id == Some(id) && q.fields.Keys == FormPatch(d, id).fields.Keys
    requires forall f :: f in q.fields && f != Phone ==> q.fields[f] == d.Get(f)
    ensures Phone in q.fields && Merge(e, q) == Employee(id, d.(phone := q.fields[Phone]))
  {
    var m := Merge(e, q);
    var d' := d.(phone := q.fields[Phone]);
    forall f ensures m.details.Get(f) == d'.Get(f) {
      assert f in FormPatch(d, id).fields;
    }
    DetailsExtensional(m.details, d');
  }

  /**
   * After `validate` accepted the buffer, the store can refuse it only for its
   * phone (bad format, or a normalised duplicate) or, when editing, because
   * the record is gone; the form then shows `invalidPhoneFormat` in every case.
   */
  lemma ValidatedSaveFailsOnlyForPhone(s: seq<Employee>, d: Details, employeeId: Option<string>, freshId: string)
    requires Check(d, s, employeeId).None?
    ensures SaveResult(s, d, employeeId, freshId).None? <==>
      || (employeeId.Some? && !HasId(s, employeeId.value))
      || !PhoneFormat.MatchesPattern(PhoneFormat.NormalizePhone(d.phone))
      || !IsUnique(s, Phone, PhoneFormat.NormalizePhone(d.phone), employeeId)
  {
    match employeeId
    case None => AddAfterCheck(s, d);
    case Some(id) => UpdateAfterCheck(s, d, id);
  }

  lemma AddAfterCheck(s: seq<Employee>, d: Details)
    requires Check(d, s, None).None?
    ensures AddCandidate(s, d).None? <==>
      || !PhoneFormat.MatchesPattern(PhoneFormat.NormalizePhone(d.phone))
      || !IsUnique(s, Phone, PhoneFormat.NormalizePhone(d.phone), None)
  {
    assert d.Get(Phone) != "";
    assert IsUnique(s, Email, d.email, None);
    var f := PhoneFormat.ValidateAndFormatPhone(d.phone);
    assert AddCandidate(s, d) == if f.None? || !IsUnique(s, Phone, f.value, None) then None else Some(d.(phone := f.value));
  }

  lemma UpdateAfterCheck(s: seq<Employee>, d: Details, id: string)
    requires Check(d, s, Some(id)).None?
    ensures UpdatePatch(s, id, FormPatch(d, id)).None? <==>
      || !HasId(s, id)
      || !PhoneFormat.MatchesPattern(PhoneFormat.NormalizePhone(d.phone))
      || !IsUnique(s, Phone, PhoneFormat.NormalizePhone(d.phone), Some(id))
  {
    var p := FormPatch(d, id);
    assert d.Get(Phone) != "";
    assert IsUnique(s, Email, d.email, Some(id));
    assert !(Email in p.fields && !IsUnique(s, Email, p.fields[Email], Some(id)));
    assert Phone in p.fields && p.fields[Phone] != "";
    var f := PhoneFormat.ValidateAndFormatPhone(p.fields[Phone]);
    assert UpdatePatch(s, id, p) ==
      if !HasId(s, id) then None
      else if f.None? || !IsUnique(s, Phone, f.value, Some(id)) then None
      else Some(p.(fields := p.fields[Phone := f.value]));
  }

  /**
   * A successful save keeps the store's invariant: in create mode the fresh
   * id must be new, in edit mode the patch keeps the record's own id.
   */
  lemma SaveKeepsConsistent(s: seq<Employee>, d: Details, employeeId: Option<string>, freshId: string)
    requires Consistent(s)
    requires employeeId.None? ==> !HasId(s, freshId)
    requires SaveResult(s, d, employeeId, freshId).Some?
    ensures Consistent(SaveResult(s, d, employeeId, freshId).value.0)
  {
    match employeeId
    case None =>
      AddKeepsConsistent(s, d, freshId);
    case Some(id) =>
      UpdateKeepsConsistent(s, id, FormPatch(d, id));
  }

  /** A record stored with the formatted phone `+(90) 555 111 11 11`. */
  function StoredExample(): Details {
    Details("A", "B", "2022-01-01", "1990-01-01", "+(90) 555 111 11 11", "a@example.com", "Tech", "Junior")
  }

  /** The same number typed with hyphens, under another email. */
  function TypedExample(): Details {
    StoredExample().(phone := "+(90)-555-111-11-11", email := "bob@example.com")
  }

  lemma TypedExamplePassesCheck()
    ensures Check(TypedExample(), [Employee("1", StoredExample())], None).None?
  {
    var stored, typed := StoredExample(), TypedExample();
    assert typed.phone[5] != stored.phone[5] && |typed.email| != |stored.email|;
    AllFilled(typed);
  }

  lemma TypedExampleRefused()
    ensures AddCandidate([Employee("1", StoredExample())], TypedExample()).None?
  {
    var s := [Employee("1", StoredExample())];
    PhoneFormat.HyphenatedExample();
    assert PhoneFormat.NormalizePhone(TypedExample().phone) == s[0].details.phone;
  }

  /**
   * The two phone checks disagree: a phone already stored as
   * `+(90) 555 111 11 11` passes `validate` when typed as
   * `+(90)-555-111-11-11`, and the store then refuses it, so the form reports
   * `invalidPhoneFormat` instead of `phoneExists`.
   */
  lemma RawPhoneCheckMissesSpelling()
    ensures var s := [Employee("1", StoredExample())];
            Check(TypedExample(), s, None).None? && SaveResult(s, TypedExample(), None, "2").None?
  {
    TypedExamplePassesCheck();
    TypedExampleRefused();
  }

  // ---------------------------------------------------------------------------
  // The component state
  // ---------------------------------------------------------------------------

  /** The non-rendering state of `<employee-form>`; `navigation` is the last `Router.go` target. */
  class EmployeeForm {
    const store: EmployeeStore
    var employeeId: Option<string>
    var form: Details
    var errorKey: string
    var errorField: string
    var confirmDialogOpen: bool
    var navigation: Option<string>

    /** A bound id is never empty, so `if (this.employeeId)` is exactly "in edit mode". */
    ghost predicate Valid()
      reads this, store
    {
      store.Valid() && (employeeId.Some? ==> employeeId.value != "")
    }

    constructor (store: EmployeeStore)
      requires store.Valid()
      ensures Valid() && this.store == store
      ensures employeeId == None && form == EmptyDetails
      ensures errorKey == "" && errorField == "" && !confirmDialogOpen && navigation == None
    {
      this.store := store;
      employeeId := None;
      form := EmptyDetails;
      errorKey := "";
      errorField := "";
      confirmDialogOpen := false;
      navigation := None;
    }

    /** `connectedCallback`: on `edit/<id>` with a stored `<id>`, bind it and copy the record into the buffer. */
    method ConnectedCallback(path: string)
      requires Valid()
      modifies this`employeeId, this`form
      ensures Valid()
      ensures var m := EditRouteId(path);
              var found := if m.Some? then FindById(store.employees, m.value) else None;
              if found.Some? then employeeId == Some(found.value.id) && form == found.value.details
              else employeeId == old(employeeId) && form == old(form)
    {
      var m := EditRouteId(path);
      if m.Some? {
        var emp := store.GetEmployeeById(m.value);
        if emp.Some? {
          employeeId := Some(emp.value.id);
          form := emp.value.details;
        }
      }
    }

    /** `handleInput`: sets one field and clears the error. */
    method HandleInput(field: Field, value: string)
      modifies this`form, this`errorKey, this`errorField
      ensures form == old(form).Set(field, value)
      ensures errorKey == "" && errorField == ""
    {
      form := form.Set(field, value);
      errorKey := "";
      errorField := "";
    }

    /** `validate`: true exactly when `Check` finds nothing; otherwise the error is set. */
    method Validate() returns (ok: bool)
      requires Valid()
      modifies this`errorKey, this`errorField
      ensures ok <==> Check(form, store.employees, employeeId).None?
      ensures ok ==> errorKey == old(errorKey) && errorField == old(errorField)
      ensures !ok ==> errorKey == Check(form, store.employees, employeeId).value.ErrorKey() &&
                      errorField == Check(form, store.employees, employeeId).value.ErrorField()
    {
      var i := 0;
      while i < |FormKeys|
        invariant 0 <= i <= |FormKeys|
        invariant forall j :: 0 <= j < i ==> form.Get(FormKeys[j]) != ""
        invariant errorKey == old(errorKey) && errorField == old(errorField)
      {
        var key := FormKeys[i];
        if form.Get(key) == "" {
          FirstEmptyAt(form, FormKeys, i);
          errorKey := "required";
          errorField := KeyName(key);
          return false;
        }
        i := i + 1;
      }
      if !store.IsEmailUnique(form.email, employeeId) {
        errorKey := "emailExists";
        errorField := "";
        return false;
      }
      if !store.IsPhoneUnique(form.phone, employeeId) {
        errorKey := "phoneExists";
        errorField := "";
        return false;
      }
      return true;
    }

    /** `_saveEmployee`: either the store accepts and the form navigates to `/list`, or the error is set; never both. */
    method SaveEmployee(freshId: string)
      requires Valid()
      modifies this`form, this`errorKey, this`errorField, this`navigation, store
      ensures Valid()
      ensures var r := SaveResult(old(store.employees), old(form), employeeId, freshId);
              if r.Some? then
                && store.employees == r.value.0 && form == r.value.1
                && navigation == Some("/list")
                && errorKey == old(errorKey) && errorField == old(errorField)
              else
                && store.employees == old(store.employees) && form == old(form)
                && navigation == old(navigation)
                && errorKey == "invalidPhoneFormat" && errorField == ""
    {
      ghost var r := SaveResult(store.employees, form, employeeId, freshId);
      var ok: bool;
      if employeeId.Some? {
        var patch := FormPatch(form, employeeId.value);
        var written: Patch;
        ok, written := store.UpdateEmployee(employeeId.value, patch);
        if ok {
          assert Phone in written.fields;
          form := form.(phone := written.fields[Phone]);
        }
        assert ok <==> r.Some?;
        assert ok ==> store.employees == r.value.0 && form == r.value.1;
      } else {
        var written: Details;
        ok, written := store.AddEmployee(form, None, freshId);
        form := written;
        assert ok <==> r.Some?;
        assert ok ==> store.employees == r.value.0 && form == r.value.1;
      }
      if !ok {
        errorKey := "invalidPhoneFormat";
        errorField := "";
        return;
      }
      navigation := Some("/list");
    }

    /**
     * `handleSubmit`: clears the error and validates; a failure changes
     * nothing else. In edit mode a valid buffer opens the confirm dialog, in
     * create mode it is saved at once.
     */
    method HandleSubmit(freshId: string)
      requires Valid()
      modifies this`form, this`errorKey, this`errorField, this`confirmDialogOpen, this`navigation, store
      ensures Valid()
      ensures var c := Check(old(form), old(store.employees), old(employeeId));
              c.Some? ==>
                && store.employees == old(store.employees) && form == old(form)
                && navigation == old(navigation) && confirmDialogOpen == old(confirmDialogOpen)
                && errorKey == c.value.ErrorKey() && errorField == c.value.ErrorField()
      ensures Check(old(form), old(store.employees), old(employeeId)).None? && old(employeeId).Some? ==>
                && store.employees == old(store.employees) && form == old(form)
                && navigation == old(navigation) && confirmDialogOpen
                && errorKey == "" && errorField == ""
      ensures var r := SaveResult(old(store.employees), old(form), old(employeeId), freshId);
              Check(old(form), old(store.employees), old(employeeId)).None? && old(employeeId).None? ==>
                && confirmDialogOpen == old(confirmDialogOpen)
                && (r.Some? ==> store.employees == r.value.0 && form == r.value.1 &&
                                navigation == Some("/list") && errorKey == "" && errorField == "")
                && (r.None? ==> store.employees == old(store.employees) && form == old(form) &&
                                navigation == old(navigation) &&
                                errorKey == "invalidPhoneFormat" && errorField == "")
    {
      errorKey := "";
      errorField := "";
      var ok := Validate();
      if !ok {
        return;
      }
      if employeeId.Some? {
        confirmDialogOpen := true;
        return;
      }
      SaveEmployee(freshId);
    }

    /** The confirm dialog's confirm callback: close the dialog, then save. */
    method DialogConfirm(freshId: string)
      requires Valid()
      modifies this`form, this`errorKey, this`errorField, this`confirmDialogOpen, this`navigation, store
      ensures Valid()
      ensures !confirmDialogOpen
      ensures var r := SaveResult(old(store.employees), old(form), employeeId, freshId);
              if r.Some? then
                && store.employees == r.value.0 && form == r.value.1
                && navigation == Some("/list")
                && errorKey == old(errorKey) && errorField == old(errorField)
              else
                && store.employees == old(store.employees) && form == old(form)
                && navigation == old(navigation)
                && errorKey == "invalidPhoneFormat" && errorField == ""
    {
      confirmDialogOpen := false;
      SaveEmployee(freshId);
    }

    /** The confirm dialog's cancel callback: only closes the dialog. */
    method DialogCancel()
      modifies this`confirmDialogOpen
      ensures !confirmDialogOpen
    {
      confirmDialogOpen := false;
    }

    /** `handleCancel`: back to the list without saving. */
    method HandleCancel()
      modifies this`navigation
      ensures navigation == Some("/list")
    {
      navigation := Some("/list");
    }
  }
}
