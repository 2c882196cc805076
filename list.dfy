/**
 * The list view model of src/components/employee-list.js: the search filter,
 * the page size, the page count and the page slice derived from a snapshot of
 * the store, and the component state those derivations read.
 */
module ListView {
  import opened Wrappers
  import opened Employees
  import opened Seqs
  import opened Store

  function Min(a: int, b: int): int { if a <= b then a else b }
  function Max(a: int, b: int): int { if a >= b then a else b }

  // ---------------------------------------------------------------------------
  // Search
  // ---------------------------------------------------------------------------

  /** `toLowerCase` on ASCII letters; every other character is kept. */
  function LowerChar(c: char): char {
    if 'A' <= c <= 'Z' then (c as int + 32) as char else c
  }

  function Lower(s: string): (r: string)
    ensures |r| == |s|
    ensures forall i :: 0 <= i < |s| ==> r[i] == LowerChar(s[i])
  {
    seq(|s|, i requires 0 <= i < |s| => LowerChar(s[i]))
  }

  /** Lowercasing is idempotent: the stored search text, lowercased once, is left as it is by a second pass. */
  lemma LowerIdempotent(s: string)
    ensures Lower(Lower(s)) == Lower(s)
  {
    var l := Lower(s);
    forall i | 0 <= i < |s| ensures Lower(l)[i] == l[i] {
      assert LowerChar(LowerChar(s[i])) == LowerChar(s[i]);
    }
  }

  /** The eight searched fields joined with single spaces, in the order the list joins them. */
  function Haystack(e: Employee): string {
    var d := e.details;
    d.firstName + " " + d.lastName + " " + d.email + " " + d.department + " " +
    d.position + " " + d.phone + " " + d.dateOfEmployment + " " + d.dateOfBirth
  }

  predicate OccursAt(haystack: string, needle: string, i: nat) {
    i + |needle| <= |haystack| && haystack[i..i + |needle|] == needle
  }

  /** `haystack.includes(needle)` */
  predicate Contains(haystack: string, needle: string) {
    exists i: nat :: i <= |haystack| && OccursAt(haystack, needle, i)
  }

  function MatchesSearch(search: string): Employee -> bool {
    (e: Employee) => Contains(Lower(Haystack(e)), search)
  }

  /**
   * `filteredEmployees`: the snapshot itself when the search is empty,
   * otherwise the records whose lowercased haystack contains the search text,
   * in snapshot order. The empty-search shortcut agrees with the filter.
   */
  function Filtered(s: seq<Employee>, search: string): (r: seq<Employee>)
    ensures search == "" ==> r == s
    ensures forall e :: e in r <==> e in s && Contains(Lower(Haystack(e)), search)
    ensures |r| <= |s|
  {
    if search == "" then
      assert forall e :: Contains(Lower(Haystack(e)), search) by {
        forall e ensures Contains(Lower(Haystack(e)), search) {
          assert OccursAt(Lower(Haystack(e)), search, 0);
        }
      }
      s
    else Filter(s, MatchesSearch(search))
  }

  /** Filtering respects order: the matches of a concatenation are the concatenated matches. */
  lemma FilteredAppend(a: seq<Employee>, b: seq<Employee>, search: string)
    ensures Filtered(a + b, search) == Filtered(a, search) + Filtered(b, search)
  {
    if search != "" {
      FilterAppend(a, b, MatchesSearch(search));
    }
  }

  // ---------------------------------------------------------------------------
  // Pagination
  // ---------------------------------------------------------------------------

  /** `perPage`: 9 rows in list mode, 6 cards on a viewport at least 1920 wide, 4 otherwise. */
  function PerPage(viewMode: string, width: int): (r: nat)
    ensures r == 9 <==> viewMode == "list"
    ensures r == 6 <==> viewMode == "card" && width >= 1920
    ensures r == 4 <==> !(viewMode == "list") && !(viewMode == "card" && width >= 1920)
  {
    if viewMode == "list" then 9
    else if viewMode == "card" && width >= 1920 then 6
    else 4
  }

  /** `Math.ceil(count / perPage)`: the least number of pages of `perPage` items that hold `count` items. */
  function TotalPages(count: nat, perPage: nat): (r: nat)
    requires perPage > 0
    ensures r == 0 <==> count == 0
    ensures r * perPage >= count
    ensures r > 0 ==> (r - 1) * perPage < count
  {
    (count + perPage - 1) / perPage
  }

  /** How `Array.prototype.slice` resolves one bound: negative counts from the end; both clamp to `[0, n]`. */
  function SliceBound(x: int, n: nat): (r: nat)
    ensures r <= n
  {
    if x < 0 then Max(n + x, 0) else Min(x, n)
  }

  /** Resolving the bounds of a range never widens it. */
  lemma SliceBoundNarrows(x: int, y: int, n: nat)
    requires x <= y
    ensures SliceBound(y, n) - SliceBound(x, n) <= y - x
  {
  }

  /** `s.slice(start, end)` */
  function JsSlice<T>(s: seq<T>, start: int, end: int): (r: seq<T>)
    ensures start <= end ==> |r| <= end - start
    ensures 0 <= start <= end ==> r == s[Min(start, |s|)..Min(end, |s|)]
    ensures forall x :: x in r ==> x in s
  {
    var b, e := SliceBound(start, |s|), SliceBound(end, |s|);
    SliceBoundNarrows(Min(start, end), end, |s|);
    if e <= b then [] else s[b..e]
  }

  /** `pagedEmployees`: page `page` (counted from 1) of `perPage` items of the filtered list. */
  function Paged(s: seq<Employee>, page: int, perPage: nat): (r: seq<Employee>)
    requires perPage > 0
    ensures |r| <= perPage
    ensures page >= 1 ==> r == s[Min((page - 1) * perPage, |s|)..Min(page * perPage, |s|)]
    ensures forall e :: e in r ==> e in s
  {
    var start := (page - 1) * perPage;
    PageStart(page, perPage);
    JsSlice(s, start, start + perPage)
  }

  /** From page 1 on, a page starts at a non-negative offset one page before the next page's start. */
  lemma PageStart(page: int, perPage: nat)
    ensures page >= 1 ==> (page - 1) * perPage >= 0 && (page - 1) * perPage + perPage == page * perPage
  {
    if page >= 1 {
      var k: nat := page - 1;
      assert k * perPage >= 0;
      assert (k + 1) * perPage == k * perPage + perPage;
    }
  }

  lemma MulMonotone(a: int, b: int, p: nat)
    requires a <= b
    ensures a * p <= b * p
  {
    var d: nat := b - a;
    assert b * p == a * p + d * p;
  }

  /** Pages 1 to `k` laid end to end. */
  function PagesUpTo(s: seq<Employee>, perPage: nat, k: nat): seq<Employee>
    requires perPage > 0
  {
    if k == 0 then [] else PagesUpTo(s, perPage, k - 1) + Paged(s, k, perPage)
  }

  lemma MulPred(k: nat, p: nat)
    requires k > 0
    ensures (k - 1) * p == k * p - p
  {
  }

  /** Page `k` is the slice between `n - perPage` and `n`, where `n` is `k * perPage`. */
  lemma PageBounds(s: seq<Employee>, perPage: nat, k: nat, n: nat)
    requires perPage > 0 && k > 0 && n == k * perPage
    ensures n >= perPage
    ensures Paged(s, k, perPage) == s[Min(n - perPage, |s|)..Min(n, |s|)]
  {
    MulPred(k, perPage);
  }

  lemma PrefixThenSlice<T>(s: seq<T>, a: nat, b: nat)
    requires a <= b <= |s|
    ensures s[..a] + s[a..b] == s[..b]
  {
  }

  lemma {:induction false} PagesUpToPrefixAt(s: seq<Employee>, perPage: nat, k: nat, n: nat)
    requires perPage > 0 && n == k * perPage
    ensures PagesUpTo(s, perPage, k) == s[..Min(n, |s|)]
  {
    if k > 0 {
      PageBounds(s, perPage, k, n);
      MulPred(k, perPage);
      PagesUpToPrefixAt(s, perPage, k - 1, n - perPage);
      PrefixThenSlice(s, Min(n - perPage, |s|), Min(n, |s|));
    }
  }

  /** Pages 1 to `k` are the first `k * perPage` items (all of them once that exceeds the list). */
  lemma PagesUpToPrefix(s: seq<Employee>, perPage: nat, k: nat)
    requires perPage > 0
    ensures PagesUpTo(s, perPage, k) == s[..Min(k * perPage, |s|)]
  {
    PagesUpToPrefixAt(s, perPage, k, k * perPage);
  }

  /** Pages 1 to `totalPages` concatenated are exactly the filtered list. */
  lemma AllPagesConcatenate(s: seq<Employee>, perPage: nat)
    requires perPage > 0
    ensures PagesUpTo(s, perPage, TotalPages(|s|, perPage)) == s
  {
    PagesUpToPrefix(s, perPage, TotalPages(|s|, perPage));
  }

  /** Every page from 1 to `totalPages` shows at least one item. */
  lemma PagesInRangeNonEmpty(s: seq<Employee>, page: int, perPage: nat)
    requires perPage > 0 && 1 <= page <= TotalPages(|s|, perPage)
    ensures |Paged(s, page, perPage)| >= 1
  {
    var t := TotalPages(|s|, perPage);
    MulMonotone(page - 1, t - 1, perPage);
    PageStart(page, perPage);
  }

  /** 15 items at 9 per page: 2 pages, the first holds items 1-9 and the second items 10-15. */
  lemma FifteenItemsExample(s: seq<Employee>)
    requires |s| == 15
    ensures TotalPages(|s|, 9) == 2
    ensures Paged(s, 1, 9) == s[..9] && Paged(s, 2, 9) == s[9..]
  {
  }

  /** The target of the "previous" button. */
  function PrevPage(page: int): (r: int)
    ensures r >= 1
    ensures page > 1 ==> r == page - 1
    ensures page <= 1 ==> r == 1
  {
    if page > 1 then page - 1 else 1
  }

  /** The target of the "next" button: never past the last page. */
  function NextPage(page: int, totalPages: int): (r: int)
    ensures r <= totalPages
    ensures page < totalPages ==> r == page + 1
    ensures page >= totalPages ==> r == totalPages
  {
    if page < totalPages then page + 1 else totalPages
  }

  /** From a page within `1..totalPages`, both buttons lead to a page within `1..totalPages`. */
  lemma PrevNextStayInRange(page: int, totalPages: int)
    requires 1 <= page <= totalPages
    ensures 1 <= PrevPage(page) <= totalPages
    ensures page <= NextPage(page, totalPages) <= totalPages
  {
  }

  /** On an empty list the "next" button leads to page 0: it is enabled since `1 !== 0`. */
  lemma NextOnEmptyList()
    ensures NextPage(1, TotalPages(0, 4)) == 0
  {
  }

  /** The page correction of `deleteConfirmed`. */
  function ClampPage(page: int, maxPage: nat): (r: int)
    ensures r <= Max(1, maxPage)
    ensures page <= maxPage ==> r == page
    ensures page > maxPage ==> r == Max(1, maxPage)
    ensures page >= 1 ==> r >= 1
  {
    if page > maxPage then Max(1, maxPage) else page
  }

  /** Deleting down to five records while on page 2 of a nine-row list moves back to page 1. */
  lemma ClampAfterShrinkExample()
    ensures TotalPages(5, 9) == 1
    ensures ClampPage(2, TotalPages(5, 9)) == 1
  {
  }

  // ---------------------------------------------------------------------------
  // The component state
  // ---------------------------------------------------------------------------

  /** The non-rendering state of `<employee-list>`; the viewport width is passed to the members that read it. */
  class EmployeeList {
    const store: EmployeeStore
    var viewMode: string
    var employees: seq<Employee>
    var search: string
    var page: int
    var confirmDialogOpen: bool
    var employeeToDelete: Option<Employee>

    ghost predicate Valid()
      reads this, store
    {
      store.Valid()
    }

    constructor (store: EmployeeStore)
      requires store.Valid()
      ensures Valid() && this.store == store
      ensures viewMode == "list" && employees == store.employees && search == "" && page == 1
      ensures !confirmDialogOpen && employeeToDelete == None
    {
      this.store := store;
      viewMode := "list";
      employees := store.employees;
      search := "";
      page := 1;
      confirmDialogOpen := false;
      employeeToDelete := None;
    }

    /** The records shown before paging: all of them, or those matching the search. */
    function FilteredEmployees(): (r: seq<Employee>)
      reads this
      ensures search == "" ==> r == employees
      ensures forall e :: e in r <==> e in employees && Contains(Lower(Haystack(e)), search)
    {
      Filtered(employees, search)
    }

    function CurrentPerPage(width: int): (r: nat)
      reads this
      ensures r == 9 || r == 6 || r == 4
    {
      PerPage(viewMode, width)
    }

    /** The records on the current page: at most one page of them, all from the filtered list. */
    function PagedEmployees(width: int): (r: seq<Employee>)
      reads this
      ensures |r| <= CurrentPerPage(width)
      ensures forall e :: e in r ==> e in FilteredEmployees()
    {
      Paged(FilteredEmployees(), page, CurrentPerPage(width))
    }

    /** The page count of the filtered list: zero exactly when nothing matches, and enough pages to hold every match. */
    function CurrentTotalPages(width: int): (r: nat)
      reads this
      ensures r == 0 <==> |FilteredEmployees()| == 0
      ensures r * CurrentPerPage(width) >= |FilteredEmployees()|
    {
      TotalPages(|FilteredEmployees()|, CurrentPerPage(width))
    }

    /** The pages the two pagination buttons lead to. */
    function PrevTarget(): (r: int)
      reads this
      ensures r >= 1 && (page > 1 ==> r == page - 1)
    {
      PrevPage(page)
    }

    function NextTarget(width: int): (r: int)
      reads this
      ensures r <= CurrentTotalPages(width)
      ensures page < CurrentTotalPages(width) ==> r == page + 1
      ensures page >= CurrentTotalPages(width) ==> r == CurrentTotalPages(width)
    {
      NextPage(page, CurrentTotalPages(width))
    }

    method SetView(mode: string)
      requires Valid()
      modifies this
      ensures Valid()
      ensures viewMode == mode && page == 1
      ensures employees == old(employees) && search == old(search)
      ensures confirmDialogOpen == old(confirmDialogOpen) && employeeToDelete == old(employeeToDelete)
    {
      viewMode := mode;
      page := 1;
    }

    /** `handleSearch`: stores the lowercased input and returns to the first page. */
    method HandleSearch(input: string)
      requires Valid()
      modifies this
      ensures Valid()
      ensures search == Lower(input) && page == 1
      ensures viewMode == old(viewMode) && employees == old(employees)
      ensures confirmDialogOpen == old(confirmDialogOpen) && employeeToDelete == old(employeeToDelete)
    {
      search := Lower(input);
      page := 1;
    }

    method ChangePage(p: int)
      requires Valid()
      modifies this
      ensures Valid()
      ensures page == p
      ensures viewMode == old(viewMode) && employees == old(employees) && search == old(search)
      ensures confirmDialogOpen == old(confirmDialogOpen) && employeeToDelete == old(employeeToDelete)
    {
      page := p;
    }

    /** `confirmDelete(emp)`: remembers the target and opens the dialog. */
    method ConfirmDelete(emp: Employee)
      requires Valid()
      modifies this
      ensures Valid()
      ensures employeeToDelete == Some(emp) && confirmDialogOpen
      ensures viewMode == old(viewMode) && employees == old(employees)
      ensures search == old(search) && page == old(page)
    {
      employeeToDelete := Some(emp);
      confirmDialogOpen := true;
    }

    /** The dialog's cancel callback only closes the dialog; the target is kept. */
    method CancelDelete()
      requires Valid()
      modifies this
      ensures Valid()
      ensures !confirmDialogOpen
      ensures viewMode == old(viewMode) && employees == old(employees) && search == old(search)
      ensures page == old(page) && employeeToDelete == old(employeeToDelete)
    {
      confirmDialogOpen := false;
    }

    /** The page correction after a delete: past the last page, move to it (or to page 1 when none is left). */
    method ClampToLastPage(width: int)
      requires Valid()
      modifies this`page
      ensures Valid()
      ensures page == ClampPage(old(page), CurrentTotalPages(width))
    {
      var maxPage := CurrentTotalPages(width);
      if page > maxPage {
        page := Max(1, maxPage);
      }
    }

    /**
     * `deleteConfirmed`: deletes the target's id from the store, re-reads the
     * snapshot, closes the dialog, forgets the target and moves back to the
     * last page if the current one no longer exists. Without a target it does nothing.
     */
    method DeleteConfirmed(width: int)
      requires Valid()
      modifies this`employees, this`page, this`confirmDialogOpen, this`employeeToDelete, store
      ensures Valid()
      ensures old(employeeToDelete).None? ==>
        && store.employees == old(store.employees)
        && employees == old(employees) && page == old(page)
        && confirmDialogOpen == old(confirmDialogOpen) && employeeToDelete == None
      ensures old(employeeToDelete).Some? ==>
        && store.employees == Remove(old(store.employees), old(employeeToDelete).value.id)
        && employees == store.employees
        && !confirmDialogOpen && employeeToDelete == None
        && page == ClampPage(old(page), CurrentTotalPages(width))
      ensures old(employeeToDelete).Some? && old(page) >= 1 ==>
        1 <= page <= Max(1, CurrentTotalPages(width))
    {
      if employeeToDelete.Some? {
        store.DeleteEmployee(employeeToDelete.value.id);
        employees := store.GetEmployees();
        confirmDialogOpen := false;
        employeeToDelete := None;
        ClampToLastPage(width);
      }
    }
  }
}
