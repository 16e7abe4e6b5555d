/** The approver's page (app/admin/page.tsx): which requests a position gets to decide on. */
module Approvals {
  import opened Wrappers
  import opened Seqs
  import opened Sorting
  import opened Positions
  import opened Staff
  import opened LeaveRequests

  /** How `fetchSchedules` ends: the position has no row in the approval table, nobody holds
      an approvable position (both return before any further query), or the rows found. */
  datatype Fetch = NoApprovableRanks | NoTargetEmployees | Fetched(rows: seq<Row>)

  function HoldsOneOf(ranks: set<Position>): Employee -> bool {
    (e: Employee) => e.position in ranks
  }

  function Ids(staff: seq<Employee>): (r: seq<string>)
    ensures |r| == |staff| && forall i :: 0 <= i < |staff| ==> r[i] == staff[i].id
  {
    seq(|staff|, i requires 0 <= i < |staff| => staff[i].id)
  }

  function ByUserIn(ids: seq<string>): Row -> bool {
    (x: Row) => x.userId in ids
  }

  /** `order('created_at', { ascending: false })` */
  predicate NewerFirst(a: Row, b: Row) {
    a.createdAt >= b.createdAt
  }

  lemma NewerFirstIsTotalPreorder()
    ensures TotalPreorder(NewerFirst)
  {
  }

  /** Some employee with the row's user id holds one of `ranks`. */
  predicate AuthoredWithin(staff: seq<Employee>, ranks: set<Position>, x: Row) {
    exists e :: e in staff && e.id == x.userId && e.position in ranks
  }

  lemma TargetIdsMatchAuthors(staff: seq<Employee>, ranks: set<Position>, x: Row)
    ensures ByUserIn(Ids(Filter(staff, HoldsOneOf(ranks))))(x) <==> AuthoredWithin(staff, ranks, x)
  {
    var holders := Filter(staff, HoldsOneOf(ranks));
    if x.userId in Ids(holders) {
      var i :| 0 <= i < |holders| && Ids(holders)[i] == x.userId;
      assert holders[i] in holders;
    }
    if AuthoredWithin(staff, ranks, x) {
      var e :| e in staff && e.id == x.userId && e.position in ranks;
      var i :| 0 <= i < |holders| && holders[i] == e;
      assert Ids(holders)[i] == x.userId;
    }
  }

  /** `fetchSchedules(position)` */
  function FetchApprovals(actor: Position, staff: seq<Employee>, s: Store): (f: Fetch)
    ensures f.NoApprovableRanks? <==> ApprovableBy(actor).None?
    ensures f.NoTargetEmployees? <==>
      ApprovableBy(actor).Some? && forall e :: e in staff ==> e.position !in ApprovableBy(actor).value
    ensures f.Fetched? ==>
      && ApprovableBy(actor).Some?
      && (forall x :: multiset(f.rows)[x] ==
            if AuthoredWithin(staff, ApprovableBy(actor).value, x) then multiset(s.rows)[x] else 0)
      && SortedBy(f.rows, NewerFirst)
  {
    match ApprovableBy(actor)
    case None => NoApprovableRanks
    case Some(ranks) =>
      var holders := Filter(staff, HoldsOneOf(ranks));
      if |holders| == 0 then NoTargetEmployees
      else
        assert holders[0] in holders;
        var found := Filter(s.rows, ByUserIn(Ids(holders)));
        NewerFirstIsTotalPreorder();
        var rows := Sort(found, NewerFirst);
        assert forall x :: multiset(rows)[x] == (if AuthoredWithin(staff, ranks, x) then multiset(s.rows)[x] else 0) by {
          forall x ensures multiset(rows)[x] == (if AuthoredWithin(staff, ranks, x) then multiset(s.rows)[x] else 0) {
            FilterMultiplicity(s.rows, ByUserIn(Ids(holders)), x);
            TargetIdsMatchAuthors(staff, ranks, x);
          }
        }
        Fetched(rows)
  }

  /** `if (data) setSchedules(data)`: only a fetch that got rows replaces the list. */
  function Displayed(previous: seq<Row>, f: Fetch): seq<Row> {
    if f.Fetched? then f.rows else previous
  }

  /** The list after a run of fetches, starting from the page's empty initial list: the
      rows of the latest fetch that got that far, or nothing if none did. */
  function ShownAfter(fs: seq<Fetch>): (r: seq<Row>)
    ensures (forall i :: 0 <= i < |fs| ==> !fs[i].Fetched?) ==> r == []
    ensures forall i :: 0 <= i < |fs| && fs[i].Fetched? && (forall j :: i < j < |fs| ==> !fs[j].Fetched?)
                        ==> r == fs[i].rows
    decreases |fs|
  {
    if |fs| == 0 then []
    else
      var r := Displayed(ShownAfter(fs[..|fs| - 1]), fs[|fs| - 1]);
      assert forall i :: 0 <= i < |fs| - 1 ==> fs[..|fs| - 1][i] == fs[i];
      r
  }

  /** A position outside the approval table keeps seeing the empty list, however often the
      page fetches. */
  lemma NonApproverListStaysEmpty(p: Position, staffs: seq<seq<Employee>>, stores: seq<Store>)
    requires ApprovableBy(p).None? && |staffs| == |stores|
    ensures ShownAfter(seq(|stores|, i requires 0 <= i < |stores| => FetchApprovals(p, staffs[i], stores[i]))) == []
  {
  }

  /** The list can go stale: after the only dispensing assistant is made a pharmacist, the
      dispensing chief's refetch returns early and the assistant's old request stays on the
      chief's screen, although its author is no longer someone the chief approves. */
  lemma StaleListAfterEarlyReturn(e: Employee, s: Store, x: Row)
    requires e.position == DispensingAssistant && x in s.rows && x.userId == e.id
    ensures var before := [e];
      var after := [e.(position := Pharmacist)];
      var fs := [FetchApprovals(DispensingChief, before, s), FetchApprovals(DispensingChief, after, s)];
      && x in ShownAfter(fs)
      && !AuthoredWithin(after, ApprovableBy(DispensingChief).value, x)
  {
    var before := [e];
    var after := [e.(position := Pharmacist)];
    var f0 := FetchApprovals(DispensingChief, before, s);
    var f1 := FetchApprovals(DispensingChief, after, s);
    assert AuthoredWithin(before, ApprovableBy(DispensingChief).value, x);
    assert multiset(f0.rows)[x] == multiset(s.rows)[x] > 0;
    assert f1.NoTargetEmployees?;
    assert [f0, f1][0] == f0 && [f0, f1][1] == f1;
  }

  /** Whoever looks at the approval list strictly outranks the author of every row in it;
      so nobody decides their own requests and the director's are never listed. */
  lemma ApproverOutranksAuthors(me: Employee, staff: seq<Employee>, s: Store, x: Row)
    requires forall e :: e in staff && e.id == me.id ==> e == me
    requires me in staff
    requires FetchApprovals(me.position, staff, s).Fetched?
    requires x in FetchApprovals(me.position, staff, s).rows
    ensures exists e :: e in staff && e.id == x.userId && Rank(me.position) < Rank(e.position) && e.position != Director
    ensures x.userId != me.id
  {
    var rows := FetchApprovals(me.position, staff, s).rows;
    assert multiset(rows)[x] > 0;
    var e :| e in staff && e.id == x.userId && e.position in ApprovableBy(me.position).value;
  }

  /** A position outside the approval table never gets a list, whoever else is employed. */
  lemma NonApproversSeeNothing(p: Position, staff: seq<Employee>, s: Store)
    requires p in {Pharmacist, DispensingAssistant, ComputingAssistant} || p.Unlisted?
    ensures FetchApprovals(p, staff, s) == NoApprovableRanks
  {
  }

  /** The chief of an assistant's room. */
  function ChiefOf(assistant: Position): (c: Position)
    requires assistant == DispensingAssistant || assistant == ComputingAssistant
    ensures RoomOf(c) == RoomOf(assistant) && Rank(c) < Rank(assistant)
  {
    if assistant == DispensingAssistant then DispensingChief else ComputingChief
  }

  /** The other room's chief. */
  function OtherChief(assistant: Position): (c: Position)
    requires assistant == DispensingAssistant || assistant == ComputingAssistant
    ensures RoomOf(c) != RoomOf(assistant) && Rank(c) < Rank(assistant)
  {
    if assistant == DispensingAssistant then ComputingChief else DispensingChief
  }

  /** An assistant's request reaches the lists of the director, the deputy director and the
      chief of the assistant's own room, and never that of the other room's chief. */
  lemma AssistantRequestsReachTheirChiefs(staff: seq<Employee>, s: Store, author: Employee, x: Row)
    requires author in staff && author.id == x.userId && x in s.rows
    requires author.position == DispensingAssistant || author.position == ComputingAssistant
    requires forall e :: e in staff && e.id == author.id ==> e == author
    ensures var f := FetchApprovals(ChiefOf(author.position), staff, s); f.Fetched? && x in f.rows
    ensures var f := FetchApprovals(DeputyDirector, staff, s); f.Fetched? && x in f.rows
    ensures var f := FetchApprovals(Director, staff, s); f.Fetched? && x in f.rows
    ensures var f := FetchApprovals(OtherChief(author.position), staff, s); !(f.Fetched? && x in f.rows)
  {
    forall p | p in {ChiefOf(author.position), DeputyDirector, Director}
      ensures FetchApprovals(p, staff, s).Fetched? && x in FetchApprovals(p, staff, s).rows
    {
      var f := FetchApprovals(p, staff, s);
      assert AuthoredWithin(staff, ApprovableBy(p).value, x);
      assert multiset(f.rows)[x] == multiset(s.rows)[x] > 0;
    }
    var o := OtherChief(author.position);
    var f := FetchApprovals(o, staff, s);
    assert !AuthoredWithin(staff, ApprovableBy(o).value, x);
    if f.Fetched? {
      assert multiset(f.rows)[x] == 0;
    }
  }
}
