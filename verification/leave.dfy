/** Leave requests (`pharmacy_schedules` rows) and the handlers that write them: submit
    (app/leave/page.tsx:70-87), edit as delete-then-reinsert (app/leave/page.tsx:113-133),
    delete (app/leave/page.tsx:135-140) and the approver's status update
    (app/admin/page.tsx:50-53), together with the buttons that decide which of these a
    row offers (app/leave/page.tsx:251-262, app/admin/page.tsx:77-88). */
module LeaveRequests {
  import opened Wrappers
  import opened Seqs
  import opened Sorting
  import opened Lex
  import opened Positions
  import opened Staff
  import opened DateStrings
  import opened DateRanges

  /** The `type` column: 연차 (full day), 반차 (half day), 해외 (overseas stay); any other
      text is kept verbatim. */
  datatype Kind = Annual | HalfDay | Overseas | OtherKind(text: string)

  function KindLabel(k: Kind): string {
    match k
    case Annual => "연차"
    case HalfDay => "반차"
    case Overseas => "해외"
    case OtherKind(s) => s
  }

  /** Reads a stored `type` string, as the editor does with `setEditType(s.type)`. */
  function KindFromLabel(s: string): (k: Kind)
    ensures KindLabel(k) == s
    ensures k.OtherKind? <==> s != "연차" && s != "반차" && s != "해외"
    ensures CanonicalKind(k)
  {
    if s == "연차" then Annual
    else if s == "반차" then HalfDay
    else if s == "해외" then Overseas
    else OtherKind(s)
  }

  /** A kind as the database can hold it: other text is never one of the three known labels. */
  predicate CanonicalKind(k: Kind) {
    k.OtherKind? ==> k.text != "연차" && k.text != "반차" && k.text != "해외"
  }

  /** Reading back a kind's label gives the same kind. */
  lemma KindFromLabelOfLabel(k: Kind)
    requires CanonicalKind(k)
    ensures KindFromLabel(KindLabel(k)) == k
  {
  }

  datatype Status = Pending | Approved | Rejected

  /** One request row. `id` and `createdAt` are assigned by the database on insert. */
  datatype Row = Row(
    id: nat,
    userId: string,
    title: string,
    kind: Kind,
    startDate: string,
    endDate: string,
    status: Status,
    createdAt: nat)

  /** The table as a sequence in insertion order, with the database's next id and clock. */
  datatype Store = Store(rows: seq<Row>, nextId: nat, clock: nat)

  /** Ids are unique and, like creation times, below the counters that allocate them. */
  predicate Wf(s: Store) {
    && (forall i :: 0 <= i < |s.rows| ==> s.rows[i].id < s.nextId && s.rows[i].createdAt < s.clock)
    && UniqueIds(s.rows)
  }

  predicate UniqueIds(rows: seq<Row>) {
    forall i, j :: 0 <= i < j < |rows| ==> rows[i].id != rows[j].id
  }

  predicate HasRow(s: Store, id: nat) {
    exists i :: 0 <= i < |s.rows| && s.rows[i].id == id
  }

  /** The status a new row gets: approved at once for the director, pending for everyone else. */
  function StatusOnSubmit(p: Position): (st: Status)
    ensures st == Approved <==> IsAutoApproved(p)
    ensures st != Rejected
  {
    if p == Director then Approved else Pending
  }

  /** The kinds the request form lets `p` pick: 연차 and 반차, except for the director,
      whose form has no kind buttons and keeps the 해외 it starts with. */
  function SelectableKinds(p: Position): (r: set<Kind>)
    ensures Overseas in r <==> IsAutoApproved(p)
    ensures r != {} && forall k :: k in r ==> !k.OtherKind?
  {
    if p == Director then {Overseas} else {Annual, HalfDay}
  }

  /** The kind the form starts with. */
  function InitialKind(p: Position): (k: Kind)
    ensures k in SelectableKinds(p)
    ensures k == Overseas <==> IsAutoApproved(p)
  {
    if p == Director then Overseas else Annual
  }

  /** Through the form, the director records approved overseas stays and everyone else
      requests pending full or half days. */
  lemma FormSubmissionsByPosition(p: Position, k: Kind)
    requires k in SelectableKinds(p)
    ensures IsAutoApproved(p) ==> k == Overseas && StatusOnSubmit(p) == Approved
    ensures !IsAutoApproved(p) ==> k in {Annual, HalfDay} && StatusOnSubmit(p) == Pending
  {
  }

  /** `${userName} ${leaveType}`: the submitter's name, a space, then the kind's label, so
      both can be read back from the title. */
  function Title(name: string, k: Kind): (t: string)
    ensures |t| == |name| + 1 + |KindLabel(k)|
    ensures t[..|name|] == name && t[|name|] == ' ' && t[|name| + 1..] == KindLabel(k)
  {
    name + " " + KindLabel(k)
  }

  /** What every row of one submission by `who` carries. */
  predicate SubmittedBy(x: Row, who: Employee, kind: Kind) {
    && x.startDate == x.endDate
    && x.userId == who.id && x.kind == kind && x.title == Title(who.name, kind)
    && x.status == StatusOnSubmit(who.position)
  }

  /** The row the `offset`-th insert of a batch receives. */
  function SubmittedRow(s: Store, who: Employee, kind: Kind, date: string, offset: nat): (x: Row)
    ensures SubmittedBy(x, who, kind) && x.startDate == date
    ensures x.id == s.nextId + offset && x.createdAt == s.clock + offset
  {
    Row(s.nextId + offset, who.id, Title(who.name, kind), kind, date, date, StatusOnSubmit(who.position), s.clock + offset)
  }

  /** One insert: the database appends the row and advances its id and clock. */
  function InsertDay(s: Store, who: Employee, kind: Kind, date: string): (r: Store)
    ensures r.rows == s.rows + [SubmittedRow(s, who, kind, date, 0)]
    ensures r.nextId == s.nextId + 1 && r.clock == s.clock + 1
  {
    Store(s.rows + [SubmittedRow(s, who, kind, date, 0)], s.nextId + 1, s.clock + 1)
  }

  /** One single-day insert per date, in the order given (the `for ... await insert` loop). */
  function InsertDays(s: Store, who: Employee, kind: Kind, dates: seq<string>): (r: Store)
    ensures |r.rows| == |s.rows| + |dates| && r.rows[..|s.rows|] == s.rows
    ensures r.nextId == s.nextId + |dates| && r.clock == s.clock + |dates|
    ensures forall i :: 0 <= i < |dates| ==> r.rows[|s.rows| + i] == SubmittedRow(s, who, kind, dates[i], i)
    decreases |dates|
  {
    if |dates| == 0 then s
    else
      var s1 := InsertDay(s, who, kind, dates[0]);
      var r := InsertDays(s1, who, kind, dates[1..]);
      assert r.rows[..|s.rows|] == s1.rows[..|s.rows|];
      assert forall i :: 1 <= i < |dates| ==> r.rows[|s.rows| + i] == SubmittedRow(s, who, kind, dates[i], i) by {
        forall i | 1 <= i < |dates| ensures r.rows[|s.rows| + i] == SubmittedRow(s, who, kind, dates[i], i) {
          assert r.rows[|s.rows| + i] == r.rows[|s1.rows| + (i - 1)];
        }
      }
      r
  }

  /** Appending rows whose ids and creation times continue the counters keeps a store
      well-formed. */
  lemma AppendFreshKeepsWf(s: Store, b: seq<Row>)
    requires Wf(s)
    requires forall k :: 0 <= k < |b| ==> b[k].id == s.nextId + k && b[k].createdAt == s.clock + k
    ensures Wf(Store(s.rows + b, s.nextId + |b|, s.clock + |b|))
  {
    var rows, n := s.rows + b, |s.rows|;
    forall i | 0 <= i < |rows| ensures rows[i].id < s.nextId + |b| && rows[i].createdAt < s.clock + |b| {
      if i >= n {
        assert rows[i] == b[i - n];
      }
    }
    forall i, j | 0 <= i < j < |rows| ensures rows[i].id != rows[j].id {
      if j < n {
        assert rows[i] == s.rows[i] && rows[j] == s.rows[j];
      } else if i < n {
        assert rows[i] == s.rows[i] && rows[j] == b[j - n];
      } else {
        assert rows[i] == b[i - n] && rows[j] == b[j - n];
      }
    }
  }

  /** The ids and creation times a batch insert hands out are fresh, so well-formedness
      survives it. */
  lemma InsertDaysKeepsWf(s: Store, who: Employee, kind: Kind, dates: seq<string>)
    requires Wf(s)
    ensures Wf(InsertDays(s, who, kind, dates))
  {
    InsertDaysRows(s, who, kind, dates);
    var b := Batch(s, who, kind, dates);
    AppendFreshKeepsWf(s, b);
    assert InsertDays(s, who, kind, dates) == Store(s.rows + b, s.nextId + |b|, s.clock + |b|);
  }

  /** The rows a batch insert appends, one per date, with consecutive fresh ids. */
  function Batch(s: Store, who: Employee, kind: Kind, dates: seq<string>): (b: seq<Row>)
    ensures |b| == |dates| && forall k :: 0 <= k < |dates| ==> b[k] == SubmittedRow(s, who, kind, dates[k], k)
  {
    seq(|dates|, k requires 0 <= k < |dates| => SubmittedRow(s, who, kind, dates[k], k))
  }

  /** A batch insert appends exactly its batch after the old rows. */
  lemma InsertDaysRows(s: Store, who: Employee, kind: Kind, dates: seq<string>)
    ensures InsertDays(s, who, kind, dates).rows == s.rows + Batch(s, who, kind, dates)
  {
    var rows := InsertDays(s, who, kind, dates).rows;
    var b := Batch(s, who, kind, dates);
    var n := |s.rows|;
    var tail := rows[n..];
    assert |tail| == |b| == |dates|;
    forall k | 0 <= k < |dates| ensures tail[k] == b[k] {
      calc {
        tail[k];
        rows[n + k];
        SubmittedRow(s, who, kind, dates[k], k);
        b[k];
      }
    }
    assert tail == b;
    assert rows == rows[..n] + tail;
  }

  /** The rows a batch insert appends carry the dates in the order given. */
  lemma InsertDaysTail(s: Store, who: Employee, kind: Kind, dates: seq<string>)
    ensures var r := InsertDays(s, who, kind, dates);
      && StartDates(r.rows[|s.rows|..]) == dates
      && forall i :: |s.rows| <= i < |r.rows| ==> SubmittedBy(r.rows[i], who, kind) && r.rows[i].startDate == dates[i - |s.rows|]
  {
    InsertDaysRows(s, who, kind, dates);
    var b := Batch(s, who, kind, dates);
    assert InsertDays(s, who, kind, dates).rows[|s.rows|..] == b;
    assert StartDates(b) == dates;
  }

  /** The rows after a batch insert are the old rows and rows of this submission with fresh ids. */
  lemma InsertDaysMembers(s: Store, who: Employee, kind: Kind, dates: seq<string>)
    ensures var r := InsertDays(s, who, kind, dates);
      && (forall x :: x in s.rows ==> x in r.rows)
      && (forall x :: x in r.rows ==> x in s.rows || (x.id >= s.nextId && SubmittedBy(x, who, kind)))
  {
    var r := InsertDays(s, who, kind, dates);
    assert r.rows == s.rows + r.rows[|s.rows|..];
    forall x | x in r.rows[|s.rows|..] ensures x.id >= s.nextId && SubmittedBy(x, who, kind) {
      var k :| 0 <= k < |dates| && r.rows[|s.rows|..][k] == x;
      assert x == r.rows[|s.rows| + k] == SubmittedRow(s, who, kind, dates[k], k);
    }
  }

  /** The start dates of `rows`, in order. */
  function StartDates(rows: seq<Row>): (r: seq<string>)
    ensures |r| == |rows| && forall i :: 0 <= i < |rows| ==> r[i] == rows[i].startDate
  {
    seq(|rows|, i requires 0 <= i < |rows| => rows[i].startDate)
  }

  datatype LeaveError = NoDateSelected

  /** `handleSubmit`: refuses an empty selection; otherwise inserts one single-day row per
      selected date, in ascending date-string order whatever order they were clicked in. */
  function Submit(s: Store, who: Employee, kind: Kind, selected: seq<string>): (r: Result<Store, LeaveError>)
    ensures r.Failure? <==> |selected| == 0
    ensures r.Success? ==>
      var rows, n := r.value.rows, |s.rows|;
      && |rows| == n + |selected| && rows[..n] == s.rows
      && multiset(StartDates(rows[n..])) == multiset(selected)
      && (forall i, j :: n <= i < j < |rows| ==> LexLe(rows[i].startDate, rows[j].startDate))
      && (forall i :: n <= i < |rows| ==> SubmittedBy(rows[i], who, kind))
    ensures r.Success? && Wf(s) ==> Wf(r.value)
  {
    if |selected| == 0 then Failure(NoDateSelected)
    else
      var sorted := SortStrings(selected);
      var t := InsertDays(s, who, kind, sorted);
      InsertDaysTail(s, who, kind, sorted);
      assert Wf(s) ==> Wf(t) by {
        if Wf(s) { InsertDaysKeepsWf(s, who, kind, sorted); }
      }
      Success(t)
  }

  /** Inserting a batch in two pieces is inserting it whole. */
  lemma {:induction false} InsertDaysAppend(s: Store, who: Employee, kind: Kind, a: seq<string>, b: seq<string>)
    ensures InsertDays(s, who, kind, a + b) == InsertDays(InsertDays(s, who, kind, a), who, kind, b)
    decreases |a|
  {
    if |a| == 0 {
      assert a + b == b;
    } else {
      var s1 := InsertDay(s, who, kind, a[0]);
      assert (a + b)[0] == a[0] && (a + b)[1..] == a[1..] + b;
      assert InsertDays(s, who, kind, a + b) == InsertDays(s1, who, kind, a[1..] + b);
      assert InsertDays(s, who, kind, a) == InsertDays(s1, who, kind, a[1..]);
      InsertDaysAppend(s1, who, kind, a[1..], b);
    }
  }

  /** The dates of a batch whose insert the database accepted, in loop order; `ok[i]` is
      the outcome of the `i`-th insert. */
  /** An insert whose outcome reports success. */
  predicate Succeeded(ok: bool) {
    ok
  }

  function Accepted(dates: seq<string>, ok: seq<bool>): (r: seq<string>)
    requires |ok| == |dates|
    ensures |r| == Count(ok, Succeeded) <= |dates|
    ensures forall x :: x in r ==> x in dates
    ensures forall i :: 0 <= i < |dates| && ok[i] ==> dates[i] in r
    ensures (forall i :: 0 <= i < |ok| ==> ok[i]) ==> r == dates
    ensures (forall i :: 0 <= i < |ok| ==> !ok[i]) ==> r == []
    decreases |dates|
  {
    if |dates| == 0 then []
    else
      var rest := Accepted(dates[1..], ok[1..]);
      assert forall i :: 1 <= i < |dates| && ok[i] ==> dates[i] in rest by {
        forall i | 1 <= i < |dates| && ok[i] ensures dates[i] in rest {
          assert dates[1..][i - 1] == dates[i] && ok[1..][i - 1] == ok[i];
        }
      }
      CountCons(ok, Succeeded);
      var r := if ok[0] then [dates[0]] + rest else rest;
      assert ok[0] ==> dates[0] in r;
      assert (forall i :: 0 <= i < |ok| ==> ok[i]) ==>
        ok[0] && (forall i :: 0 <= i < |ok[1..]| ==> ok[1..][i]) && r == [dates[0]] + dates[1..];
      assert (forall i :: 0 <= i < |ok| ==> !ok[i]) ==>
        !ok[0] && (forall i :: 0 <= i < |ok[1..]| ==> !ok[1..][i]) && r == [];
      assert dates == [dates[0]] + dates[1..];
      r
  }

  /** One insert whose answer the loop does not look at: an accepted insert appends its row,
      a rejected one leaves the table as it was. */
  function TryInsertDay(s: Store, who: Employee, kind: Kind, date: string, ok: bool): (r: Store)
    ensures ok ==> r == InsertDay(s, who, kind, date)
    ensures !ok ==> r == s
  {
    if ok then InsertDay(s, who, kind, date) else s
  }

  /** The insert loop with the database's answer to each insert: the returned error is
      never read, so the loop always goes on to the next date. */
  function InsertDaysWithOutcomes(s: Store, who: Employee, kind: Kind, dates: seq<string>, ok: seq<bool>): (r: Store)
    requires |ok| == |dates|
    ensures |r.rows| >= |s.rows| && r.rows[..|s.rows|] == s.rows
    decreases |dates|
  {
    if |dates| == 0 then s
    else
      var s1 := TryInsertDay(s, who, kind, dates[0], ok[0]);
      var r := InsertDaysWithOutcomes(s1, who, kind, dates[1..], ok[1..]);
      assert r.rows[..|s.rows|] == r.rows[..|s1.rows|][..|s.rows|];
      r
  }

  /** A loop in which some inserts were rejected leaves exactly what a loop over the
      accepted dates alone would: every rejected date is skipped, and the ones after it
      are still stored. */
  lemma {:induction false} InsertDaysWithOutcomesIsAccepted(s: Store, who: Employee, kind: Kind, dates: seq<string>, ok: seq<bool>)
    requires |ok| == |dates|
    ensures InsertDaysWithOutcomes(s, who, kind, dates, ok) == InsertDays(s, who, kind, Accepted(dates, ok))
    decreases |dates|
  {
    if |dates| > 0 {
      var s1 := TryInsertDay(s, who, kind, dates[0], ok[0]);
      var rest := Accepted(dates[1..], ok[1..]);
      InsertDaysWithOutcomesIsAccepted(s1, who, kind, dates[1..], ok[1..]);
      if ok[0] {
        var a := [dates[0]] + rest;
        assert a[0] == dates[0] && a[1..] == rest;
        assert InsertDays(s, who, kind, a) == InsertDays(InsertDay(s, who, kind, dates[0]), who, kind, rest);
      }
    }
  }

  /** `handleSubmit` with the database's answer to each insert. Refuses an empty selection;
      otherwise the old rows stay, and one row is appended for every accepted date, in
      ascending order, including the dates after a rejected one. Nothing is rolled back. */
  function SubmitWithOutcomes(s: Store, who: Employee, kind: Kind, selected: seq<string>, ok: seq<bool>): (r: Result<Store, LeaveError>)
    requires |ok| == |selected|
    ensures r.Failure? <==> |selected| == 0
    ensures r.Success? ==>
      var rows, n := r.value.rows, |s.rows|;
      && |rows| >= n && rows[..n] == s.rows
      && StartDates(rows[n..]) == Accepted(SortStrings(selected), ok)
      && (forall i :: n <= i < |rows| ==> SubmittedBy(rows[i], who, kind))
    ensures r.Success? && Wf(s) ==> Wf(r.value)
    ensures (forall i :: 0 <= i < |ok| ==> ok[i]) ==> r == Submit(s, who, kind, selected)
  {
    if |selected| == 0 then Failure(NoDateSelected)
    else
      var sorted := SortStrings(selected);
      var accepted := Accepted(sorted, ok);
      InsertDaysWithOutcomesIsAccepted(s, who, kind, sorted, ok);
      InsertDaysTail(s, who, kind, accepted);
      assert Wf(s) ==> Wf(InsertDays(s, who, kind, accepted)) by {
        if Wf(s) { InsertDaysKeepsWf(s, who, kind, accepted); }
      }
      Success(InsertDaysWithOutcomes(s, who, kind, sorted, ok))
  }

  /** A rejected insert in the middle of a batch leaves a gap, not a cut: of three dates
      whose second insert fails, the first and the third are stored, so what survives is
      not a prefix of the complete batch. */
  lemma MiddleInsertFails(s: Store, who: Employee, kind: Kind, a: string, b: string, c: string)
    ensures var r := InsertDaysWithOutcomes(s, who, kind, [a, b, c], [true, false, true]);
      && StartDates(r.rows[|s.rows|..]) == [a, c]
      && (b != c ==> r.rows != InsertDays(s, who, kind, [a, b, c]).rows[..|s.rows| + 2])
  {
    var ok := [true, false, true];
    var dates := [a, b, c];
    assert Accepted([c], [true]) == [c];
    assert Accepted([b, c], [false, true]) == [c] by {
      assert [b, c][1..] == [c] && [false, true][1..] == [true];
    }
    assert Accepted(dates, ok) == [a, c] by {
      assert dates[1..] == [b, c] && ok[1..] == [false, true];
    }
    InsertDaysWithOutcomesIsAccepted(s, who, kind, dates, ok);
    InsertDaysTail(s, who, kind, [a, c]);
    var r := InsertDays(s, who, kind, [a, c]);
    var full := InsertDays(s, who, kind, dates);
    assert r.rows[|s.rows| + 1].startDate == c;
    assert full.rows[|s.rows| + 1].startDate == b;
  }

  /** A submission depends on which dates were selected, not on the order of the clicks. */
  lemma SubmitIgnoresSelectionOrder(s: Store, who: Employee, kind: Kind, a: seq<string>, b: seq<string>)
    requires multiset(a) == multiset(b)
    ensures Submit(s, who, kind, a) == Submit(s, who, kind, b)
  {
    assert |a| == |multiset(a)| == |multiset(b)| == |b|;
    SortStringsIgnoresOrder(a, b);
  }

  function IdIs(id: nat): Row -> bool {
    (x: Row) => x.id == id
  }

  lemma {:induction false} FilterKeepsUniqueIds(rows: seq<Row>, p: Row -> bool)
    requires UniqueIds(rows)
    ensures UniqueIds(Filter(rows, p))
    decreases |rows|
  {
    if |rows| > 0 {
      FilterKeepsUniqueIds(rows[1..], p);
      var fr := Filter(rows[1..], p);
      forall x | x in fr ensures x.id != rows[0].id {
        var k :| 0 <= k < |rows[1..]| && rows[1..][k] == x;
        assert rows[k + 1] == x;
      }
      if p(rows[0]) {
        var f := [rows[0]] + fr;
        assert Filter(rows, p) == f;
        forall i, j | 0 <= i < j < |f| ensures f[i].id != f[j].id {
          assert f[j] == fr[j - 1] && fr[j - 1] in fr;
          if i > 0 { assert f[i] == fr[i - 1]; } else { assert f[i] == rows[0]; }
        }
      } else {
        assert Filter(rows, p) == fr;
      }
    }
  }

  /** `handleDelete`: removes the row with the chosen id; with no row chosen it does nothing. */
  function DeleteRequest(s: Store, target: Option<nat>): (r: Store)
    ensures target.None? ==> r == s
    ensures r.nextId == s.nextId && r.clock == s.clock
    ensures target.Some? ==> forall x :: x in r.rows <==> x in s.rows && x.id != target.value
    ensures Wf(s) ==> Wf(r)
  {
    if target.None? then s
    else
      var r := s.(rows := Filter(s.rows, Not(IdIs(target.value))));
      assert Wf(s) ==> Wf(r) by {
        if Wf(s) {
          FilterKeepsUniqueIds(s.rows, Not(IdIs(target.value)));
          forall i | 0 <= i < |r.rows| ensures r.rows[i].id < s.nextId && r.rows[i].createdAt < s.clock {
            assert r.rows[i] in r.rows;
            var j :| 0 <= j < |s.rows| && s.rows[j] == r.rows[i];
          }
        }
      }
      r
  }

  /** Deleting keeps the other rows in their order. */
  lemma DeleteKeepsOrder(s: Store, id: nat, i: nat)
    requires i <= |s.rows|
    ensures DeleteRequest(s, Some(id)).rows
         == Filter(s.rows[..i], Not(IdIs(id))) + Filter(s.rows[i..], Not(IdIs(id)))
  {
    assert s.rows == s.rows[..i] + s.rows[i..];
    FilterAppend(s.rows[..i], s.rows[i..], Not(IdIs(id)));
  }

  lemma {:induction false} UniqueIdCount(rows: seq<Row>, id: nat)
    requires UniqueIds(rows)
    ensures Count(rows, IdIs(id)) == if exists i :: 0 <= i < |rows| && rows[i].id == id then 1 else 0
    decreases |rows|
  {
    if |rows| > 0 {
      assert rows == [rows[0]] + rows[1..];
      CountAppend([rows[0]], rows[1..], IdIs(id));
      UniqueIdCount(rows[1..], id);
      if rows[0].id == id {
        forall i | 0 <= i < |rows[1..]| ensures rows[1..][i].id != id {
          assert rows[1..][i] == rows[i + 1];
        }
      } else {
        assert (exists i :: 0 <= i < |rows| && rows[i].id == id) ==>
               (exists i :: 0 <= i < |rows[1..]| && rows[1..][i].id == id);
      }
    }
  }

  /** Deleting an existing request removes exactly one row. */
  lemma DeleteRemovesOne(s: Store, id: nat)
    requires Wf(s) && HasRow(s, id)
    ensures |DeleteRequest(s, Some(id)).rows| == |s.rows| - 1
    ensures !HasRow(DeleteRequest(s, Some(id)), id)
  {
    UniqueIdCount(s.rows, id);
    CountComplement(s.rows, IdIs(id));
    var r := DeleteRequest(s, Some(id));
    forall i | 0 <= i < |r.rows| ensures r.rows[i].id != id {
      assert r.rows[i] in r.rows;
    }
  }

  /** `handleEditSubmit`: refuses when no row is being edited or no date is selected;
      otherwise deletes the edited row and inserts the edit dates as a new submission. */
  function EditRequest(s: Store, who: Employee, target: Option<nat>, kind: Kind, dates: seq<string>): (r: Result<Store, LeaveError>)
    ensures r.Failure? <==> target.None? || |dates| == 0
    ensures r.Success? ==> forall x :: x in s.rows && x.id != target.value ==> x in r.value.rows
    ensures r.Success? ==> forall x :: x in r.value.rows ==>
              (x in s.rows && x.id != target.value) || (x.id >= s.nextId && SubmittedBy(x, who, kind))
    ensures r.Success? ==> |r.value.rows| == |s.rows| - Count(s.rows, IdIs(target.value)) + |dates|
    ensures r.Success? && Wf(s) ==> Wf(r.value)
  {
    if target.None? || |dates| == 0 then Failure(NoDateSelected)
    else
      var d := DeleteRequest(s, target);
      CountComplement(s.rows, IdIs(target.value));
      InsertDaysMembers(d, who, kind, SortStrings(dates));
      assert Wf(s) ==> Wf(InsertDays(d, who, kind, SortStrings(dates))) by {
        if Wf(s) { InsertDaysKeepsWf(d, who, kind, SortStrings(dates)); }
      }
      Success(InsertDays(d, who, kind, SortStrings(dates)))
  }

  /** Editing is literally a delete followed by a fresh submission. */
  lemma EditIsDeleteThenSubmit(s: Store, who: Employee, id: nat, kind: Kind, dates: seq<string>)
    ensures EditRequest(s, who, Some(id), kind, dates) == Submit(DeleteRequest(s, Some(id)), who, kind, dates)
  {
  }

  /** Editing an existing request of a well-formed store: one row out, one row per edit
      date in, and the old id is gone. */
  lemma EditReplacesRow(s: Store, who: Employee, id: nat, kind: Kind, dates: seq<string>)
    requires Wf(s) && HasRow(s, id) && |dates| > 0
    ensures var r := EditRequest(s, who, Some(id), kind, dates);
      r.Success? && |r.value.rows| == |s.rows| - 1 + |dates| && !HasRow(r.value, id)
  {
    UniqueIdCount(s.rows, id);
    var r := EditRequest(s, who, Some(id), kind, dates).value;
    var j :| 0 <= j < |s.rows| && s.rows[j].id == id;
    forall i | 0 <= i < |r.rows| ensures r.rows[i].id != id {
      assert r.rows[i] in r.rows;
    }
  }

  /** `handleEditSubmit` with the database's answers: whether the delete of the edited row
      went through, and each insert's outcome. None of the answers is read, so a rejected
      delete still leads to the inserts. */
  function EditRequestWithOutcomes(s: Store, who: Employee, target: Option<nat>, kind: Kind, dates: seq<string>,
                                   deleted: bool, ok: seq<bool>): (r: Result<Store, LeaveError>)
    requires |ok| == |dates|
    ensures r.Failure? <==> target.None? || |dates| == 0
    ensures r.Success? ==> forall x :: x in s.rows && (x.id != target.value || !deleted) ==> x in r.value.rows
    ensures r.Success? ==> forall x :: x in r.value.rows ==>
              (x in s.rows && (x.id != target.value || !deleted)) || (x.id >= s.nextId && SubmittedBy(x, who, kind))
    ensures r.Success? ==>
      |r.value.rows| == |s.rows| - (if deleted then Count(s.rows, IdIs(target.value)) else 0) + |Accepted(SortStrings(dates), ok)|
    ensures r.Success? && Wf(s) ==> Wf(r.value)
    ensures deleted && (forall i :: 0 <= i < |ok| ==> ok[i]) ==> r == EditRequest(s, who, target, kind, dates)
  {
    if target.None? || |dates| == 0 then Failure(NoDateSelected)
    else
      var d := if deleted then DeleteRequest(s, target) else s;
      var sorted := SortStrings(dates);
      var accepted := Accepted(sorted, ok);
      CountComplement(s.rows, IdIs(target.value));
      InsertDaysWithOutcomesIsAccepted(d, who, kind, sorted, ok);
      InsertDaysMembers(d, who, kind, accepted);
      assert Wf(s) ==> Wf(InsertDays(d, who, kind, accepted)) by {
        if Wf(s) { InsertDaysKeepsWf(d, who, kind, accepted); }
      }
      Success(InsertDaysWithOutcomes(d, who, kind, sorted, ok))
  }

  /** When the delete is rejected but every insert goes through, the edited request stays
      and the new rows come on top of it: the table grows by the number of edit dates. */
  lemma RejectedDeleteKeepsOldRow(s: Store, who: Employee, id: nat, kind: Kind, dates: seq<string>, ok: seq<bool>)
    requires HasRow(s, id) && |dates| > 0 && |ok| == |dates|
    requires forall i :: 0 <= i < |ok| ==> ok[i]
    ensures var r := EditRequestWithOutcomes(s, who, Some(id), kind, dates, false, ok);
      r.Success? && HasRow(r.value, id) && |r.value.rows| == |s.rows| + |dates|
  {
    var r := EditRequestWithOutcomes(s, who, Some(id), kind, dates, false, ok).value;
    var j :| 0 <= j < |s.rows| && s.rows[j].id == id;
    assert s.rows[j] in s.rows;
    var k :| 0 <= k < |r.rows| && r.rows[k] == s.rows[j];
    assert |SortStrings(dates)| == |dates|;
  }

  /** `openEdit`: the edit dialog starts from every day the row covers. */
  function EditDates(x: Row): (r: seq<string>)
    ensures IsDateString(x.startDate) && x.startDate == x.endDate ==> r == [x.startDate]
    ensures forall i :: 0 <= i < |r| ==> LexLe(x.startDate, r[i]) && LexLe(r[i], x.endDate)
  {
    assert IsDateString(x.startDate) && x.startDate == x.endDate ==> ExpandRange(x.startDate, x.endDate) == [x.startDate] by {
      if IsDateString(x.startDate) && x.startDate == x.endDate { ExpandRangeSingleDay(x.startDate); }
    }
    ExpandRange(x.startDate, x.endDate)
  }

  /** Re-submitting an approved single-day request from the edit dialog without changes
      (what "수정(재신청)" does) puts it back to pending under a new id, same day and kind. */
  lemma ResubmitUnchanged(s: Store, who: Employee, x: Row)
    requires Wf(s) && x in s.rows && IsDateString(x.startDate) && x.startDate == x.endDate
    requires who.id == x.userId && !IsAutoApproved(who.position)
    ensures var r := EditRequest(s, who, Some(x.id), x.kind, EditDates(x));
      && r.Success? && !HasRow(r.value, x.id) && |r.value.rows| == |s.rows|
      && exists y :: y in r.value.rows && y.startDate == x.startDate && y.endDate == x.endDate
                     && y.kind == x.kind && y.userId == x.userId && y.status == Pending
  {
    var dates := EditDates(x);
    assert dates == [x.startDate];
    var i :| 0 <= i < |s.rows| && s.rows[i] == x;
    EditReplacesRow(s, who, x.id, x.kind, dates);
    var d := DeleteRequest(s, Some(x.id));
    assert SortStrings(dates) == dates;
    var t := InsertDays(d, who, x.kind, dates);
    assert t.rows[|d.rows|] == SubmittedRow(d, who, x.kind, x.startDate, 0);
  }

  /** `updateStatus`: sets the status of the row with the given id; every other row, and
      every other field of that row, is left as it was. */
  function UpdateStatus(s: Store, id: nat, st: Status): (r: Store)
    ensures |r.rows| == |s.rows| && r.nextId == s.nextId && r.clock == s.clock
    ensures forall i :: 0 <= i < |s.rows| ==> r.rows[i].(status := s.rows[i].status) == s.rows[i]
    ensures forall i :: 0 <= i < |s.rows| ==> r.rows[i].status == if s.rows[i].id == id then st else s.rows[i].status
    ensures Wf(s) ==> Wf(r)
  {
    s.(rows := seq(|s.rows|, i requires 0 <= i < |s.rows| =>
                     if s.rows[i].id == id then s.rows[i].(status := st) else s.rows[i]))
  }

  /** Setting a request's status and then setting it back restores the store exactly. */
  lemma UpdateStatusUndo(s: Store, i: nat, st: Status)
    requires Wf(s) && i < |s.rows|
    ensures UpdateStatus(UpdateStatus(s, s.rows[i].id, st), s.rows[i].id, s.rows[i].status) == s
  {
    var r := UpdateStatus(UpdateStatus(s, s.rows[i].id, st), s.rows[i].id, s.rows[i].status);
    assert forall j :: 0 <= j < |s.rows| ==> r.rows[j] == s.rows[j];
  }

  /** The approver's buttons: approve or reject a pending request, revert a decided one. */
  function OfferedStatuses(current: Status): (r: set<Status>)
    ensures current !in r && r != {}
    ensures Pending in r <==> current != Pending
    ensures Approved in r <==> current == Pending
  {
    if current == Pending then {Approved, Rejected} else {Pending}
  }

  /** Every button press can be undone by the button the new status offers, and every
      status reaches every other in at most two presses. */
  lemma OfferedStatusesReversible(a: Status, b: Status)
    ensures b in OfferedStatuses(a) <==> a in OfferedStatuses(b)
    ensures a != b ==> b in OfferedStatuses(a) || exists c :: c in OfferedStatuses(a) && b in OfferedStatuses(c)
  {
    if a != b && b !in OfferedStatuses(a) {
      assert Pending in OfferedStatuses(a) && b in OfferedStatuses(Pending);
    }
  }

  /** The requester's own buttons. */
  datatype OwnerAction = EditAction | DeleteAction

  function OwnerActions(st: Status, viewer: Position): (r: set<OwnerAction>)
    ensures DeleteAction in r <==> st == Pending
    ensures EditAction in r <==> st == Pending || (st == Approved && !IsAutoApproved(viewer))
  {
    if st == Pending then {EditAction, DeleteAction}
    else if st == Approved && viewer != Director then {EditAction}
    else {}
  }

  /** What a fresh submission offers its author: everyone but the director can still edit
      or delete it, while the director's own entries are approved at once and offer
      neither button. A rejected request offers nothing. */
  lemma OwnerActionsAfterSubmit(p: Position)
    ensures OwnerActions(StatusOnSubmit(p), p) == if IsAutoApproved(p) then {} else {EditAction, DeleteAction}
    ensures OwnerActions(Rejected, p) == {}
  {
  }

  predicate NoDuplicates(s: seq<string>) {
    forall i, j :: 0 <= i < j < |s| ==> s[i] != s[j]
  }

  function IsNot(d: string): string -> bool {
    (x: string) => x != d
  }

  lemma {:induction false} FilterKeepsNoDuplicates(s: seq<string>, p: string -> bool)
    requires NoDuplicates(s)
    ensures NoDuplicates(Filter(s, p))
    decreases |s|
  {
    if |s| > 0 {
      FilterKeepsNoDuplicates(s[1..], p);
      assert s[0] !in s[1..];
    }
  }

  /** `handleDayClick` / `handleEditDayClick`: a click flips whether that date is selected
      and touches nothing else. */
  function ToggleDate(selected: seq<string>, d: string): (r: seq<string>)
    ensures d in r <==> d !in selected
    ensures forall x :: x != d ==> (x in r <==> x in selected)
    ensures NoDuplicates(selected) ==> NoDuplicates(r)
  {
    if d in selected then
      assert NoDuplicates(selected) ==> NoDuplicates(Filter(selected, IsNot(d))) by {
        if NoDuplicates(selected) { FilterKeepsNoDuplicates(selected, IsNot(d)); }
      }
      Filter(selected, IsNot(d))
    else selected + [d]
  }

  /** Clicking the same date twice gives back the same selection: the same sequence when
      the date was not selected, the same set of dates when it was. */
  lemma ToggleTwice(selected: seq<string>, d: string)
    ensures (set x | x in ToggleDate(ToggleDate(selected, d), d)) == (set x | x in selected)
    ensures d !in selected ==> ToggleDate(ToggleDate(selected, d), d) == selected
  {
    if d !in selected {
      FilterAppend(selected, [d], IsNot(d));
      FilterCongruent(selected, IsNot(d), x => true);
      FilterAll(selected);
    }
  }

  lemma {:induction false} FilterAll(s: seq<string>)
    ensures Filter(s, x => true) == s
    decreases |s|
  {
    if |s| > 0 { FilterAll(s[1..]); }
  }
}
