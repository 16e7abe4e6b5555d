/** The seven positions of the pharmacy and everything that depends on them: the
    hand-written approval table (app/admin/page.tsx:27-32), the sort rank
    (app/employees/page.tsx:21-29), the management gate (app/employees/page.tsx:8),
    auto-approval (app/leave/page.tsx:73) and the navigation links (app/page.tsx:114-124). */
module Positions {
  import opened Wrappers

  /** The `position` column is free text; the seven known values get constructors and
      anything else is kept verbatim. */
  datatype Position =
    | DispensingAssistant   // 조제보조
    | ComputingAssistant    // 전산보조
    | DispensingChief       // 조제실장
    | ComputingChief        // 전산실장
    | Pharmacist            // 약사
    | DeputyDirector        // 부국장
    | Director              // 국장
    | Unlisted(text: string)

  function Label(p: Position): string {
    match p
    case DispensingAssistant => "조제보조"
    case ComputingAssistant => "전산보조"
    case DispensingChief => "조제실장"
    case ComputingChief => "전산실장"
    case Pharmacist => "약사"
    case DeputyDirector => "부국장"
    case Director => "국장"
    case Unlisted(s) => s
  }

  /** The positions offered in the add/edit dialogs, in their display order (POSITIONS). */
  const Listed: seq<Position> := [DispensingAssistant, ComputingAssistant, DispensingChief,
    ComputingChief, Pharmacist, DeputyDirector, Director]

  /** Reads a stored position string. */
  function FromLabel(s: string): (p: Position)
    ensures Label(p) == s
    ensures p.Unlisted? <==> forall q :: q in Listed ==> Label(q) != s
    ensures Canonical(p)
  {
    if s == "조제보조" then DispensingAssistant
    else if s == "전산보조" then ComputingAssistant
    else if s == "조제실장" then DispensingChief
    else if s == "전산실장" then ComputingChief
    else if s == "약사" then Pharmacist
    else if s == "부국장" then DeputyDirector
    else if s == "국장" then Director
    else Unlisted(s)
  }

  /** A position value as the database can hold it: an unlisted label is never one of the
      seven known spellings. */
  predicate Canonical(p: Position) {
    p.Unlisted? ==> forall q :: q in Listed ==> Label(q) != p.text
  }

  /** Reading back a position's label gives the same position. */
  lemma FromLabelOfLabel(p: Position)
    requires Canonical(p)
    ensures FromLabel(Label(p)) == p
  {
  }

  /** POSITION_RANK with `|| 99` for anything else: the employee list sorts ascending, so
      a smaller rank is more senior. The two chiefs share a rank, as do the two assistants. */
  function Rank(p: Position): (n: int)
    ensures n == 1 <==> p == Director
    ensures n == 2 <==> p == DeputyDirector
    ensures n == 3 <==> p == DispensingChief || p == ComputingChief
    ensures n == 4 <==> p == Pharmacist
    ensures n == 5 <==> p == DispensingAssistant || p == ComputingAssistant
    ensures n == 99 <==> p.Unlisted?
    ensures 1 <= n <= 5 || n == 99
  {
    match p
    case Director => 1
    case DeputyDirector => 2
    case DispensingChief => 3
    case ComputingChief => 3
    case Pharmacist => 4
    case DispensingAssistant => 5
    case ComputingAssistant => 5
    case Unlisted(_) => 99
  }

  /** The seniority the employee list shows, from the director down to unknown positions. */
  lemma SeniorityOrder(other: string)
    ensures Rank(Director) < Rank(DeputyDirector) < Rank(DispensingChief) < Rank(Pharmacist)
            < Rank(DispensingAssistant) < Rank(Unlisted(other))
    ensures Rank(DispensingChief) == Rank(ComputingChief)
    ensures Rank(DispensingAssistant) == Rank(ComputingAssistant)
  {
  }

  /** The two rooms of the pharmacy, as the position names spell them: 조제 (dispensing)
      and 전산 (computing). */
  datatype Room = DispensingRoom | ComputingRoom

  function RoomOf(p: Position): Option<Room> {
    match p
    case DispensingAssistant => Some(DispensingRoom)
    case DispensingChief => Some(DispensingRoom)
    case ComputingAssistant => Some(ComputingRoom)
    case ComputingChief => Some(ComputingRoom)
    case _ => None
  }

  /** `canApprove[position]`: the positions whose requests this position may decide, or
      None for a position with no entry in the table. A chief decides for the junior staff
      of the chief's own room; the deputy director and the director decide for every listed
      position junior to them. */
  function ApprovableBy(p: Position): (r: Option<set<Position>>)
    ensures r.Some? <==> p in {DispensingChief, ComputingChief, DeputyDirector, Director}
    ensures r.Some? ==> p !in r.value && Director !in r.value && r.value != {}
    ensures r.Some? ==> forall q :: q in r.value ==> Rank(p) < Rank(q) && !q.Unlisted?
    ensures p == DispensingChief || p == ComputingChief ==>
      forall q :: q in r.value <==> RoomOf(q) == RoomOf(p) && Rank(p) < Rank(q)
    ensures p == DeputyDirector || p == Director ==>
      forall q :: q in r.value <==> !q.Unlisted? && Rank(p) < Rank(q)
  {
    match p
    case DispensingChief => Some({DispensingAssistant})
    case ComputingChief => Some({ComputingAssistant})
    case DeputyDirector =>
      Some({DispensingAssistant, ComputingAssistant, DispensingChief, ComputingChief, Pharmacist})
    case Director =>
      Some({DispensingAssistant, ComputingAssistant, DispensingChief, ComputingChief, Pharmacist,
            DeputyDirector})
    case _ => None
  }

  /** Each chief decides for exactly one position, the assistant of the chief's own room, and
      never for the other room's assistant. */
  lemma ChiefsApproveTheirOwnAssistants()
    ensures ApprovableBy(DispensingChief) == Some({DispensingAssistant})
    ensures ApprovableBy(ComputingChief) == Some({ComputingAssistant})
  {
    assert forall q :: q in ApprovableBy(DispensingChief).value <==> q == DispensingAssistant;
    assert forall q :: q in ApprovableBy(ComputingChief).value <==> q == ComputingAssistant;
  }

  /** The table is nested: each chief's set lies inside the deputy director's, and the
      director's set is the deputy director's plus the deputy director. Every listed
      position except the director has someone who can approve it. */
  lemma ApprovalTableNested()
    ensures ApprovableBy(DispensingChief).value <= ApprovableBy(DeputyDirector).value
    ensures ApprovableBy(ComputingChief).value <= ApprovableBy(DeputyDirector).value
    ensures ApprovableBy(Director).value == ApprovableBy(DeputyDirector).value + {DeputyDirector}
    ensures forall q :: q in Listed && q != Director <==> q in ApprovableBy(Director).value
  {
  }

  /** Only the director's own submissions skip approval: the most senior position. */
  function IsAutoApproved(p: Position): (b: bool)
    ensures b <==> Rank(p) == 1
  {
    p == Director
  }

  /** ADMIN_POSITIONS: who may open the employee-management page, the two most senior
      positions, both of which also approve. */
  function IsAdmin(p: Position): (b: bool)
    ensures b <==> Rank(p) <= 2
    ensures b ==> ApprovableBy(p).Some?
  {
    p == DeputyDirector || p == Director
  }

  /** The main page shows the approval link to these positions (app/page.tsx:120): exactly
      those with a row in the approval table. */
  function ShowsApprovalLink(p: Position): (b: bool)
    ensures b <==> ApprovableBy(p).Some?
  {
    p in {DispensingChief, ComputingChief, DeputyDirector, Director}
  }

  /** The main page shows the employee-management link to these positions (app/page.tsx:123):
      exactly those the management page admits. */
  function ShowsEmployeesLink(p: Position): (b: bool)
    ensures b <==> IsAdmin(p)
  {
    p in {DeputyDirector, Director}
  }

  /** The leave link reads "overseas stay" for the director and "leave request" otherwise. */
  datatype LeaveLink = LeaveRequestLink | OverseasStayLink

  function LeaveLinkFor(p: Position): (l: LeaveLink)
    ensures l == OverseasStayLink <==> IsAutoApproved(p)
  {
    if p == Director then OverseasStayLink else LeaveRequestLink
  }
}
