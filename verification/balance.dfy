/** Leave balances: the "used" counts of the three pages that show one, the allowance
    lookup, and the employee list of app/employees/page.tsx with its merge, order and
    low-balance flag. The three pages count different kinds on purpose: the request page
    counts overseas stays too, the main and employee pages count 연차 and 반차 only. */
module LeaveBalance {
  import opened Wrappers
  import opened Seqs
  import opened Sorting
  import opened Lex
  import opened Positions
  import opened Staff
  import opened LeaveRequests

  const RequestPageKinds: set<Kind> := {Annual, HalfDay, Overseas}
  const AnnualKinds: set<Kind> := {Annual, HalfDay}

  function OwnedBy(uid: string): Row -> bool {
    (x: Row) => x.userId == uid
  }

  function IsApproved(): Row -> bool {
    (x: Row) => x.status == Approved
  }

  function KindIn(kinds: set<Kind>): Row -> bool {
    (x: Row) => x.kind in kinds
  }

  /** The reference definition every page's count is checked against: the approved rows
      of `uid` whose kind is one of `kinds`. */
  predicate Counts(uid: string, kinds: set<Kind>, x: Row) {
    x.userId == uid && x.status == Approved && x.kind in kinds
  }

  function CountsFor(uid: string, kinds: set<Kind>): Row -> bool {
    (x: Row) => Counts(uid, kinds, x)
  }

  function Used(s: Store, uid: string, kinds: set<Kind>): (n: nat)
    ensures n <= |s.rows|
    ensures n == 0 <==> forall x :: x in s.rows ==> !Counts(uid, kinds, x)
  {
    Count(s.rows, CountsFor(uid, kinds))
  }

  /** `order('start_date', { ascending: false })` */
  predicate LaterStartFirst(a: Row, b: Row) {
    LexLe(b.startDate, a.startDate)
  }

  lemma LaterStartFirstIsTotalPreorder()
    ensures TotalPreorder(LaterStartFirst)
  {
    LexIsTotalOrder();
  }

  /** The request page's own list (`fetchSchedules(uid)`): every row of the user, once per
      copy, latest start date first. */
  function OwnRequests(s: Store, uid: string): (r: seq<Row>)
    ensures forall x :: multiset(r)[x] == if x.userId == uid then multiset(s.rows)[x] else 0
    ensures SortedBy(r, LaterStartFirst)
  {
    LaterStartFirstIsTotalPreorder();
    var r := Sort(Filter(s.rows, OwnedBy(uid)), LaterStartFirst);
    assert forall x :: multiset(r)[x] == if x.userId == uid then multiset(s.rows)[x] else 0 by {
      forall x ensures multiset(r)[x] == if x.userId == uid then multiset(s.rows)[x] else 0 {
        FilterMultiplicity(s.rows, OwnedBy(uid), x);
      }
    }
    r
  }

  /** `usedLeave` of the request page: approved rows of the listed kinds in its own list,
      which is the reference count over 연차, 반차 and 해외. */
  function RequestPageUsed(s: Store, uid: string): (n: nat)
    ensures n <= |OwnRequests(s, uid)|
    ensures n == Used(s, uid, RequestPageKinds)
  {
    var own := Filter(s.rows, OwnedBy(uid));
    var p := Both(IsApproved(), KindIn(RequestPageKinds));
    LaterStartFirstIsTotalPreorder();
    FilterPermutation(Sort(own, LaterStartFirst), own, p);
    FilterFilter(s.rows, OwnedBy(uid), p);
    FilterCongruent(s.rows, Both(OwnedBy(uid), p), CountsFor(uid, RequestPageKinds));
    Count(OwnRequests(s, uid), p)
  }

  /** `used` of the main page: its query keeps approved rows, the count keeps this user's
      연차 and 반차; together the reference count over 연차 and 반차. */
  function MainPageUsed(s: Store, uid: string): (n: nat)
    ensures n <= |s.rows|
    ensures n == Used(s, uid, AnnualKinds)
  {
    var p := Both(OwnedBy(uid), KindIn(AnnualKinds));
    FilterFilter(s.rows, IsApproved(), p);
    FilterCongruent(s.rows, Both(IsApproved(), p), CountsFor(uid, AnnualKinds));
    Count(Filter(s.rows, IsApproved()), p)
  }

  /** `used` of the employee list: its query keeps approved 연차 and 반차, the count keeps
      one employee's rows; together the reference count over 연차 and 반차. */
  function EmployeesPageUsed(s: Store, uid: string): (n: nat)
    ensures n <= |s.rows|
    ensures n == Used(s, uid, AnnualKinds)
  {
    var p := Both(IsApproved(), KindIn(AnnualKinds));
    FilterFilter(s.rows, p, OwnedBy(uid));
    FilterCongruent(s.rows, Both(p, OwnedBy(uid)), CountsFor(uid, AnnualKinds));
    Count(Filter(s.rows, p), OwnedBy(uid))
  }

  /** Counting 연차, 반차 and 해외 is counting 연차 and 반차 plus counting 해외. */
  lemma UsedSplitsByKind(s: Store, uid: string)
    ensures Used(s, uid, RequestPageKinds) == Used(s, uid, AnnualKinds) + Used(s, uid, {Overseas})
  {
    var all := CountsFor(uid, RequestPageKinds);
    var annual := KindIn(AnnualKinds);
    CountSplit(s.rows, all, annual);
    assert forall x :: x in s.rows ==> Both(all, annual)(x) == CountsFor(uid, AnnualKinds)(x);
    FilterCongruent(s.rows, Both(all, annual), CountsFor(uid, AnnualKinds));
    assert forall x :: x in s.rows ==> Both(all, Not(annual))(x) == CountsFor(uid, {Overseas})(x);
    FilterCongruent(s.rows, Both(all, Not(annual)), CountsFor(uid, {Overseas}));
  }

  /** The main page and the employee list always agree on a person's used leave; the
      request page additionally counts that person's approved overseas stays. */
  lemma PagesAgreeOnUsedLeave(s: Store, uid: string)
    ensures MainPageUsed(s, uid) == EmployeesPageUsed(s, uid)
    ensures RequestPageUsed(s, uid) == MainPageUsed(s, uid) + Used(s, uid, {Overseas})
  {
    UsedSplitsByKind(s, uid);
  }

  /** Approving a pending request of a counted kind raises its author's count by exactly
      one and leaves everyone else's unchanged. */
  lemma ApprovalRaisesUsedByOne(s: Store, i: nat, uid: string, kinds: set<Kind>)
    requires Wf(s) && i < |s.rows| && s.rows[i].status == Pending
    ensures var r := UpdateStatus(s, s.rows[i].id, Approved);
      Used(r, uid, kinds) == Used(s, uid, kinds) + (if s.rows[i].userId == uid && s.rows[i].kind in kinds then 1 else 0)
  {
    var r := UpdateStatus(s, s.rows[i].id, Approved);
    forall j | 0 <= j < |s.rows| && j != i ensures r.rows[j] == s.rows[j] {
      assert s.rows[j].id != s.rows[i].id;
    }
    CountChangedAt(s.rows, r.rows, i, CountsFor(uid, kinds));
  }

  /** A row of `user_leave_status`: an employee id and a total that may be null. */
  datatype Allowance = Allowance(id: string, total: Option<int>)

  /** `leaveStatus.find(l => l.id === emp.id)?.total_allowed_leave || 0`: the total of the
      first row for the employee, where a missing row, a null total and 0 all give 0. */
  function TotalFor(allowances: seq<Allowance>, uid: string): (t: int)
    ensures (forall a :: a in allowances ==> a.id != uid) ==> t == 0
    ensures forall i :: 0 <= i < |allowances| && allowances[i].id == uid
                        && (forall j :: 0 <= j < i ==> allowances[j].id != uid)
                        ==> t == allowances[i].total.GetOr(0)
  {
    if |allowances| == 0 then 0
    else if allowances[0].id == uid then allowances[0].total.GetOr(0)
    else
      var t := TotalFor(allowances[1..], uid);
      assert forall i :: 1 <= i < |allowances| ==> allowances[i] == allowances[1..][i - 1];
      t
  }

  function AllowanceOf(uid: string): Allowance -> bool {
    (a: Allowance) => a.id == uid
  }

  /** The main page's total: `.eq('id', userData.id).maybeSingle()` gives data only when
      exactly one row matches, and only then is `totalLeave` set; otherwise it keeps its
      initial 0. A null total takes part in `totalLeave - usedLeave` as 0. */
  function MainPageTotal(allowances: seq<Allowance>, uid: string): (t: int)
    ensures Count(allowances, AllowanceOf(uid)) != 1 ==> t == 0
    ensures Count(allowances, AllowanceOf(uid)) == 1 ==>
      forall i :: 0 <= i < |allowances| && allowances[i].id == uid ==> t == allowances[i].total.GetOr(0)
  {
    var m := Filter(allowances, AllowanceOf(uid));
    if |m| == 1 then
      assert forall a :: a in allowances && a.id == uid ==> a in m;
      m[0].total.GetOr(0)
    else 0
  }

  /** With a single allowance row for the user, the staff list's first-match lookup reads
      the same total as the main page. */
  lemma {:induction false} TotalForSingleRow(allowances: seq<Allowance>, uid: string)
    requires Count(allowances, AllowanceOf(uid)) == 1
    ensures TotalFor(allowances, uid) == MainPageTotal(allowances, uid)
    decreases |allowances|
  {
    var m := Filter(allowances, AllowanceOf(uid));
    assert m[0] in allowances;
    if allowances[0].id != uid {
      assert Filter(allowances[1..], AllowanceOf(uid)) == m;
      TotalForSingleRow(allowances[1..], uid);
    } else {
      assert m == [allowances[0]] + Filter(allowances[1..], AllowanceOf(uid));
    }
  }

  /** Two allowance rows for one user: the main page reads no total at all, while the staff
      list takes the first row's. */
  lemma DuplicateAllowanceRows(uid: string, first: int, second: int)
    ensures var al := [Allowance(uid, Some(first)), Allowance(uid, Some(second))];
      MainPageTotal(al, uid) == 0 && TotalFor(al, uid) == first
  {
    var al := [Allowance(uid, Some(first)), Allowance(uid, Some(second))];
    assert Filter(al, AllowanceOf(uid)) == al;
  }

  /** One line of the employee list. */
  datatype StaffLine = StaffLine(employee: Employee, used: nat, total: int)

  /** `empData.map(...)`: one line per employee, in the same order, with the employee's own
      fields untouched and the two figures attached. */
  function Merge(staff: seq<Employee>, allowances: seq<Allowance>, s: Store): (r: seq<StaffLine>)
    ensures |r| == |staff|
    ensures forall i :: 0 <= i < |staff| ==> r[i].employee == staff[i]
    ensures forall i :: 0 <= i < |staff| ==>
              r[i].used == Used(s, staff[i].id, AnnualKinds) && r[i].total == TotalFor(allowances, staff[i].id)
  {
    var r := seq(|staff|, i requires 0 <= i < |staff| =>
      StaffLine(staff[i], EmployeesPageUsed(s, staff[i].id), TotalFor(allowances, staff[i].id)));
    assert forall i :: 0 <= i < |staff| ==> r[i].used == Used(s, staff[i].id, AnnualKinds) by {
      forall i | 0 <= i < |staff| ensures r[i].used == Used(s, staff[i].id, AnnualKinds) {
      }
    }
    r
  }

  /** `a.hire_date || ''` */
  function HireKey(l: StaffLine): string {
    l.employee.hireDate.GetOr("")
  }

  /** The list's comparator: rank first, then hire date, earlier first. */
  predicate SeniorFirst(a: StaffLine, b: StaffLine) {
    var ra, rb := Rank(a.employee.position), Rank(b.employee.position);
    ra < rb || (ra == rb && LexLe(HireKey(a), HireKey(b)))
  }

  lemma SeniorFirstIsTotalPreorder()
    ensures TotalPreorder(SeniorFirst)
  {
    LexIsTotalOrder();
  }

  /** The `sort` of `fetchEmployees`: the same lines, by rank ascending and, within a rank,
      by hire date ascending (a missing hire date first). */
  function SortStaff(lines: seq<StaffLine>): (r: seq<StaffLine>)
    ensures multiset(r) == multiset(lines)
    ensures forall i, j :: 0 <= i < j < |r| ==>
              && Rank(r[i].employee.position) <= Rank(r[j].employee.position)
              && (Rank(r[i].employee.position) == Rank(r[j].employee.position) ==> LexLe(HireKey(r[i]), HireKey(r[j])))
  {
    SeniorFirstIsTotalPreorder();
    var r := Sort(lines, SeniorFirst);
    assert forall i, j :: 0 <= i < j < |r| ==> SeniorFirst(r[i], r[j]);
    r
  }

  /** Lines of the same rank and the same hire date. */
  function SameStanding(l: StaffLine): StaffLine -> bool {
    (m: StaffLine) => Rank(m.employee.position) == Rank(l.employee.position) && HireKey(m) == HireKey(l)
  }

  /** Lines that tie on rank and hire date keep the order the employees were fetched in, as
      JavaScript's stable `sort` leaves them. */
  lemma SortStaffStable(lines: seq<StaffLine>, l: StaffLine)
    ensures Filter(SortStaff(lines), SameStanding(l)) == Filter(lines, SameStanding(l))
  {
    SeniorFirstIsTotalPreorder();
    forall m: StaffLine ensures TiedWith(l, SeniorFirst)(m) == SameStanding(l)(m) {
      if TiedWith(l, SeniorFirst)(m) { LexLeAntisymmetric(HireKey(m), HireKey(l)); }
      if SameStanding(l)(m) { LexLeReflexive(HireKey(m)); }
    }
    SortStable(lines, SeniorFirst, l);
    FilterCongruent(lines, TiedWith(l, SeniorFirst), SameStanding(l));
    FilterCongruent(SortStaff(lines), TiedWith(l, SeniorFirst), SameStanding(l));
  }

  /** If the director is employed, the list starts with a director; employees with an
      unlisted position come last. */
  lemma SortStaffExtremes(lines: seq<StaffLine>)
    ensures (exists l :: l in lines && l.employee.position == Director) ==> SortStaff(lines)[0].employee.position == Director
    ensures forall i, j :: 0 <= i < j < |SortStaff(lines)| && SortStaff(lines)[i].employee.position.Unlisted?
                           ==> SortStaff(lines)[j].employee.position.Unlisted?
  {
    var r := SortStaff(lines);
    if l :| l in lines && l.employee.position == Director {
      assert l in multiset(r);
      var k :| 0 <= k < |r| && r[k] == l;
      if k > 0 {
        assert Rank(r[0].employee.position) <= 1;
      }
    }
  }

  /** `remain = total − used`, flagged as low when at most 3 remain of a positive total. */
  function Remaining(l: StaffLine): (r: int)
    ensures r <= l.total
    ensures r == l.total <==> l.used == 0
    ensures r < 0 <==> l.used > l.total
  {
    l.total - l.used
  }

  /** Only a positive allowance is ever flagged; one that is used up always is, and one with
      more than three days left never is. */
  function IsLow(l: StaffLine): (b: bool)
    ensures b ==> l.total > 0
    ensures l.total > 0 && l.used >= l.total ==> b
    ensures l.used + 3 < l.total ==> !b
  {
    Remaining(l) <= 3 && l.total > 0
  }

  /** The flag only ever turns on as more leave is approved, and a line without an
      allowance is never flagged however much was used. */
  lemma IsLowMonotone(l: StaffLine, more: nat)
    ensures IsLow(l) ==> IsLow(l.(used := l.used + more))
    ensures l.total <= 0 ==> !IsLow(l.(used := l.used + more))
    ensures l.total > 0 && l.used + 3 >= l.total ==> IsLow(l)
  {
  }

  /** The main page's `remainLeave` for a user is what the employee list shows on that
      user's line, provided the user has at most one allowance row. */
  lemma MainPageRemainingMatchesList(staff: seq<Employee>, allowances: seq<Allowance>, s: Store, i: nat)
    requires i < |staff|
    requires Count(allowances, AllowanceOf(staff[i].id)) <= 1
    ensures MainPageTotal(allowances, staff[i].id) - MainPageUsed(s, staff[i].id) == Remaining(Merge(staff, allowances, s)[i])
  {
    var uid := staff[i].id;
    if Count(allowances, AllowanceOf(uid)) == 1 {
      TotalForSingleRow(allowances, uid);
    } else {
      assert forall a :: a in allowances ==> !AllowanceOf(uid)(a);
    }
  }
}
