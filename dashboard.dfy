// The staff dashboard (src/components/Dashboard.jsx): the search box
// filter over the stored applications, the Approved / Pending counters
// and the "Approve Application" button of the details modal.
module Dashboard {
  import opened Text
  import opened Records

  const Approved := "Approved"
  const Pending := "Pending"

  /** The search predicate of `filteredData`: the lowered term occurs in one
      of nine lowered fields, a missing field reading as `''`. The district
      is not one of them. */
  predicate Matches(a: Admission, term: string) {
    var s := ToLower(term);
    Contains(ToLower(OrEmpty(a.studentName)), s)
    || Contains(ToLower(OrEmpty(a.course)), s)
    || Contains(ToLower(OrEmpty(a.institution)), s)
    || Contains(ToLower(OrEmpty(a.appNumber)), s)
    || Contains(ToLower(OrEmpty(a.phone1)), s)
    || Contains(ToLower(OrEmpty(a.phone2)), s)
    || Contains(ToLower(OrEmpty(a.phone3)), s)
    || Contains(ToLower(OrEmpty(a.schoolName)), s)
    || Contains(ToLower(OrEmpty(a.aadhaarNo)), s)
  }

  /** The nine searched fields, in the order the filter tests them. */
  function SearchedFields(a: Admission): (r: seq<Option<string>>)
    ensures |r| == 9
  {
    [a.studentName, a.course, a.institution, a.appNumber, a.phone1,
     a.phone2, a.phone3, a.schoolName, a.aadhaarNo]
  }

  /** `filteredData`: the applications the search term selects, in list order. */
  function Search(admissions: seq<Admission>, term: string): seq<Admission>
  {
    Filter(admissions, a => Matches(a, term))
  }

  /** A record matches exactly when the lowered term occurs in the lowered
      text of at least one of its nine searched fields. */
  lemma MatchesIffSomeField(a: Admission, term: string)
    ensures Matches(a, term) <==>
      exists k | 0 <= k < 9 :: Contains(ToLower(OrEmpty(SearchedFields(a)[k])), ToLower(term))
  {
    var f := SearchedFields(a);
    var s := ToLower(term);
    if Matches(a, term) {
      if Contains(ToLower(OrEmpty(a.studentName)), s) { assert f[0] == a.studentName; }
      else if Contains(ToLower(OrEmpty(a.course)), s) { assert f[1] == a.course; }
      else if Contains(ToLower(OrEmpty(a.institution)), s) { assert f[2] == a.institution; }
      else if Contains(ToLower(OrEmpty(a.appNumber)), s) { assert f[3] == a.appNumber; }
      else if Contains(ToLower(OrEmpty(a.phone1)), s) { assert f[4] == a.phone1; }
      else if Contains(ToLower(OrEmpty(a.phone2)), s) { assert f[5] == a.phone2; }
      else if Contains(ToLower(OrEmpty(a.phone3)), s) { assert f[6] == a.phone3; }
      else if Contains(ToLower(OrEmpty(a.schoolName)), s) { assert f[7] == a.schoolName; }
      else { assert f[8] == a.aadhaarNo; }
    }
  }

  /** A record is in the search result exactly when it matches the term. */
  lemma SearchMembership(admissions: seq<Admission>, term: string, i: nat)
    requires i < |admissions|
    ensures admissions[i] in Search(admissions, term) <==> Matches(admissions[i], term)
  {
    var r := Search(admissions, term);
    if admissions[i] in r {
      var j :| 0 <= j < |r| && r[j] == admissions[i];
      assert Matches(r[j], term);
    }
  }

  /** The result keeps the input's relative order and copies each kept
      record exactly as often as the input holds it. */
  lemma SearchIsOrderedSubset(admissions: seq<Admission>, term: string, a: Admission)
    ensures IsSubsequence(Search(admissions, term), admissions)
    ensures multiset(Search(admissions, term))[a] ==
      if Matches(a, term) then multiset(admissions)[a] else 0
  {
    FilterIsSubsequence(admissions, a => Matches(a, term));
    FilterMultiplicity(admissions, a => Matches(a, term), a);
  }

  /** An empty search box shows every application, in the original order. */
  lemma EmptyTermKeepsAll(admissions: seq<Admission>)
    ensures Search(admissions, "") == admissions
  {
    forall i | 0 <= i < |admissions| ensures Matches(admissions[i], "") {
      assert IsPrefix("", ToLower(OrEmpty(admissions[i].studentName)));
    }
    FilterKeepsAll(admissions, a => Matches(a, ""));
  }

  /** A missing field reads as `''`, which contains only the empty term. */
  lemma MissingFieldMatchesOnlyEmpty(term: string)
    ensures Contains(ToLower(OrEmpty(None)), ToLower(term)) <==> term == ""
  {
    ContainsEmpty(ToLower(term));
  }

  /** A record with none of the searched fields is shown only for the empty term. */
  lemma AllFieldsMissing(a: Admission, term: string)
    requires forall k | 0 <= k < 9 :: SearchedFields(a)[k].None?
    ensures Matches(a, term) <==> term == ""
  {
    var f := SearchedFields(a);
    assert f[0].None? && f[1].None? && f[2].None? && f[3].None? && f[4].None?;
    assert f[5].None? && f[6].None? && f[7].None? && f[8].None?;
    MissingFieldMatchesOnlyEmpty(term);
  }

  /** The district plays no part in the search. */
  lemma DistrictNotSearched(a: Admission, d: Option<string>, term: string)
    ensures Matches(a.(district := d), term) == Matches(a, term)
  {
  }

  predicate IsApproved(a: Admission) {
    a.status == Some(Approved)
  }

  predicate IsPending(a: Admission) {
    a.status == Some(Pending)
  }

  /** The "Processed" counter. */
  function ApprovedCount(admissions: seq<Admission>): nat {
    |Filter(admissions, IsApproved)|
  }

  /** The "Pending Review" counter. */
  function PendingCount(admissions: seq<Admission>): nat {
    |Filter(admissions, IsPending)|
  }

  /** The two counters never add up to more than "Total Applications". */
  lemma CountsWithinTotal(admissions: seq<Admission>)
    ensures ApprovedCount(admissions) + PendingCount(admissions) <= |admissions|
  {
    DisjointFiltersBound(admissions, IsApproved, IsPending);
  }

  /** The status a record gets from the approve handler. */
  function ApproveOne(a: Admission, id: Option<int>): Admission {
    if a.id == id then a.(status := Some(Approved)) else a
  }

  /** `admissions.map(a => a.id === selected.id ? {...a, status: 'Approved'} : a)`. */
  function ApproveById(admissions: seq<Admission>, id: Option<int>): (r: seq<Admission>)
    ensures |r| == |admissions|
    ensures forall i | 0 <= i < |r| && admissions[i].id == id ::
      r[i] == admissions[i].(status := Some(Approved))
    ensures forall i | 0 <= i < |r| && admissions[i].id != id :: r[i] == admissions[i]
    decreases |admissions|
  {
    if admissions == [] then []
    else [ApproveOne(admissions[0], id)] + ApproveById(admissions[1..], id)
  }

  /** Approve changes nothing but the status, and only on records with that id. */
  lemma ApproveChangesOnlyStatus(admissions: seq<Admission>, id: Option<int>, i: nat)
    requires i < |admissions|
    ensures ApproveById(admissions, id)[i].(status := admissions[i].status) == admissions[i]
    ensures ApproveById(admissions, id)[i].status ==
      if admissions[i].id == id then Some(Approved) else admissions[i].status
  {
  }

  /** Approving the same id twice gives the same list as approving it once. */
  lemma {:induction false} ApproveIdempotent(admissions: seq<Admission>, id: Option<int>)
    ensures ApproveById(ApproveById(admissions, id), id) == ApproveById(admissions, id)
    decreases |admissions|
  {
    if admissions != [] {
      ApproveIdempotent(admissions[1..], id);
      assert ApproveById(admissions, id)[1..] == ApproveById(admissions[1..], id);
    }
  }

  /** Approving never lowers the Processed counter and never raises the
      Pending one. */
  lemma {:induction false} ApproveMonotoneCounts(admissions: seq<Admission>, id: Option<int>)
    ensures ApprovedCount(ApproveById(admissions, id)) >= ApprovedCount(admissions)
    ensures PendingCount(ApproveById(admissions, id)) <= PendingCount(admissions)
    decreases |admissions|
  {
    if admissions != [] {
      ApproveMonotoneCounts(admissions[1..], id);
      var r := ApproveById(admissions, id);
      assert r[1..] == ApproveById(admissions[1..], id);
      assert r == [r[0]] + r[1..];
    }
  }

  /** The dashboard's state: the `admissions` list loaded from storage, the
      storage copy itself, the search box and the record open in the
      details modal. */
  class DashboardView {
    var admissions: seq<Admission>
    var stored: seq<Admission>
    var searchTerm: string
    var selected: Option<Admission>

    /** The dashboard only ever writes back the list it shows. */
    ghost predicate Valid()
      reads this
    {
      stored == admissions
    }

    /** Mounting reads the stored list. */
    constructor (storage: seq<Admission>)
      ensures Valid()
      ensures admissions == storage && stored == storage
      ensures searchTerm == "" && selected == None
    {
      admissions := storage;
      stored := storage;
      searchTerm := "";
      selected := None;
    }

    /** The table rows. */
    function FilteredData(): seq<Admission>
      reads this
    {
      Search(admissions, searchTerm)
    }

    method SetSearchTerm(term: string)
      requires Valid()
      modifies this
      ensures Valid()
      ensures searchTerm == term
      ensures admissions == old(admissions) && stored == old(stored) && selected == old(selected)
    {
      searchTerm := term;
    }

    /** Clicking a table row opens that record. */
    method Select(i: nat)
      requires Valid() && i < |FilteredData()|
      modifies this
      ensures Valid()
      ensures selected == Some(old(FilteredData())[i])
      ensures admissions == old(admissions) && stored == old(stored) && searchTerm == old(searchTerm)
    {
      selected := Some(Search(admissions, searchTerm)[i]);
    }

    /** Closing the modal. */
    method Close()
      requires Valid()
      modifies this
      ensures Valid() && selected == None
      ensures admissions == old(admissions) && stored == old(stored) && searchTerm == old(searchTerm)
    {
      selected := None;
    }

    /** The Approve button of the open modal. It is disabled once the open
        record is Approved; otherwise every record with the open record's id
        is approved, the list is written back, and the modal's copy is
        marked Approved too. */
    method Approve()
      requires Valid() && selected.Some?
      modifies this
      ensures Valid()
      ensures searchTerm == old(searchTerm)
      ensures old(selected.value.status) == Some(Approved) ==>
        admissions == old(admissions) && selected == old(selected)
      ensures old(selected.value.status) != Some(Approved) ==>
        admissions == ApproveById(old(admissions), old(selected.value.id))
        && selected == Some(old(selected.value).(status := Some(Approved)))
    {
      var current := selected.value;
      if current.status == Some(Approved) {
        return;
      }
      var updated := ApproveById(admissions, current.id);
      stored := updated;
      admissions := updated;
      selected := Some(current.(status := Some(Approved)));
    }
  }
}
