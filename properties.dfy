/** What the claim and release actions and the dashboard promise, stated over
    the grid before and after an action. */
module QueueProperties {
  import opened Sheet
  import opened Queue

  /** The header layout under which reads by name and writes by position meet:
      Status heads column 3 and Responsavel column 4 (no later column repeats
      either name), the header reaches column 6, and every row is as wide. */
  predicate StandardLayout(g: Grid) {
    Rectangular(g) && |g| >= 1 && |g[0]| >= EndCol &&
    ColumnOf(g[0], "Status") == Some(StatusCol - 1) &&
    ColumnOf(g[0], "Responsavel") == Some(AssigneeCol - 1)
  }

  /** The ID text of record n occurs in its own row and in no other row of
      the sheet, header included. */
  predicate IdUniqueAt(g: Grid, n: nat) {
    2 <= n <= |g| && RowHolds(g, n, IdText(g, n)) &&
    forall k :: 1 <= k <= |g| && k != n ==> !RowHolds(g, k, IdText(g, n))
  }

  /** A record whose Status is one of the three ticket states. */
  predicate IsTicket(g: Grid, n: nat)
    requires 1 <= n <= |g|
  {
    Status(g, n) == Pending || Status(g, n) == InProgress || Status(g, n) == Done
  }

  /** A ticket's Responsavel is empty exactly while the ticket is Pending. */
  predicate Consistent(g: Grid) {
    forall n :: 2 <= n <= |g| && IsTicket(g, n) ==> (Assignee(g, n) == "" <==> Status(g, n) == Pending)
  }

  /** No agent holds two tickets In Progress. */
  predicate OneTicketEach(g: Grid) {
    forall m, n :: 2 <= m < n <= |g| && Status(g, m) == InProgress && Status(g, n) == InProgress ==>
      Assignee(g, m) != Assignee(g, n)
  }

  /** Under the standard layout, Status and Responsavel are the cells of
      columns 3 and 4 of any grid that keeps the header and the row widths. */
  lemma LayoutReads(g: Grid, h: Grid, n: nat)
    requires StandardLayout(g) && SameShape(g, h) && h[0] == g[0] && 1 <= n <= |h|
    ensures Status(h, n) == h[n - 1][StatusCol - 1] && Assignee(h, n) == h[n - 1][AssigneeCol - 1]
  {
  }

  // ---------------------------------------------------------------- claim

  /** Once its row is located, a claim is the three writes to that row. */
  lemma ClaimIsApply(g: Grid, user: string, now: string, accepted: nat)
    requires ClaimTarget(g).Located?
    ensures var a := Apply(g, ClaimWrites(ClaimTarget(g).row, user, now), accepted);
            var res := Claim(g, user, now, accepted);
      res.grid == a.grid && (res.outcome.Claimed? <==> a.rejected.None?) &&
      (a.rejected.None? ==> res.outcome == Claimed(ClaimTarget(g).row)) &&
      (a.rejected.Some? ==> res.outcome == ClaimFailed(WriteRejected(a.rejected.value)))
  {
  }

  /** A claim that succeeds took the first record, in sheet order, that is
      Pending with an empty Responsavel, and wrote to the row where the search
      for that record's ID text first lands. */
  lemma ClaimTakesFirstUnclaimed(g: Grid, user: string, now: string, accepted: nat)
    requires Claim(g, user, now, accepted).outcome.Claimed?
    ensures ClaimTarget(g).Located?
    ensures var c := ClaimTarget(g).candidate;
      2 <= c <= |g| && Status(g, c) == Pending && Assignee(g, c) == "" &&
      (forall k :: 2 <= k < c ==> !(Status(g, k) == Pending && Assignee(g, k) == "")) &&
      FindRow(g, IdText(g, c)) == Some(Claim(g, user, now, accepted).outcome.row)
  {
    var c := ClaimTarget(g).candidate;
    forall k | 2 <= k < c ensures !(Status(g, k) == Pending && Assignee(g, k) == "") {
      assert !Matches(g, k, Unclaimed);
    }
  }

  /** "Someone was faster": the claim reports no ticket exactly when the
      columns exist and no record is both Pending and unassigned; it then
      writes nothing. */
  lemma ClaimNoneAvailableExactly(g: Grid, user: string, now: string, accepted: nat)
    ensures Claim(g, user, now, accepted).outcome == NoneAvailable <==>
      |g| >= 2 && "Status" in g[0] && "Responsavel" in g[0] &&
      forall k :: 2 <= k <= |g| ==> !(Status(g, k) == Pending && Assignee(g, k) == "")
    ensures Claim(g, user, now, accepted).outcome == NoneAvailable ==> Claim(g, user, now, accepted).grid == g
  {
  }

  /** Once its row is located, a claim completes exactly when the store
      accepts all three writes and the row reaches column 5. */
  lemma ClaimSucceedsExactly(g: Grid, user: string, now: string, accepted: nat)
    requires ClaimTarget(g).Located?
    ensures Claim(g, user, now, accepted).outcome.Claimed? <==>
      accepted >= 3 && InGrid(g, ClaimTarget(g).row, StartCol)
  {
    var r := ClaimTarget(g).row;
    var ws := ClaimWrites(r, user, now);
    ClaimIsApply(g, user, now, accepted);
    ApplySucceeds(g, ws, accepted);
    assert (forall k :: 0 <= k < |ws| ==> InGrid(g, ws[k].row, ws[k].col)) <==> InGrid(g, r, StartCol) by {
      assert ws[0].col == StatusCol && ws[1].col == AssigneeCol && ws[2].col == StartCol;
    }
  }

  /** A claim whose row is located but which the store cuts off after
      `accepted` < 3 writes (each inside the row) reports the next write as
      refused and leaves the first `accepted` writes in place: none (nothing
      changes), Status only, or Status and Responsavel. */
  lemma ClaimInterrupted(g: Grid, user: string, now: string, accepted: nat)
    requires ClaimTarget(g).Located? && accepted < 3
    requires accepted >= 1 ==> InGrid(g, ClaimTarget(g).row, StatusCol)
    requires accepted >= 2 ==> InGrid(g, ClaimTarget(g).row, AssigneeCol)
    ensures var ws := ClaimWrites(ClaimTarget(g).row, user, now);
      Claim(g, user, now, accepted) ==
        ClaimResult(ClaimFailed(WriteRejected(ws[accepted])), Apply(g, ws[..accepted], accepted).grid)
  {
    var ws := ClaimWrites(ClaimTarget(g).row, user, now);
    ClaimIsApply(g, user, now, accepted);
    ApplyRefusedAt(g, ws, accepted, accepted);
  }

  /** The three claim writes to row r, when all go through, set Status,
      Responsavel and start time there and change no other cell. */
  lemma ClaimWritesApplied(g: Grid, r: nat, user: string, now: string, accepted: nat)
    requires Apply(g, ClaimWrites(r, user, now), accepted).rejected.None?
    ensures var h := Apply(g, ClaimWrites(r, user, now), accepted).grid;
      SameShape(g, h) && InGrid(g, r, StartCol) &&
      h[r - 1][StatusCol - 1] == InProgress && h[r - 1][AssigneeCol - 1] == user && h[r - 1][StartCol - 1] == now &&
      forall i, j :: 0 <= i < |g| && 0 <= j < |g[i]| && !(i == r - 1 && StatusCol - 1 <= j < StartCol) ==> h[i][j] == g[i][j]
  {
    var ws := ClaimWrites(r, user, now);
    var h := Apply(g, ws, accepted).grid;
    ApplyStores(g, ws, accepted, 0);
    ApplyStores(g, ws, accepted, 1);
    ApplyStores(g, ws, accepted, 2);
    forall i, j | 0 <= i < |g| && 0 <= j < |g[i]| && !(i == r - 1 && StatusCol - 1 <= j < StartCol)
      ensures h[i][j] == g[i][j]
    {
      ApplyLeavesUntargeted(g, ws, accepted, i, j);
    }
  }

  /** A completed claim sets Status, Responsavel and start time of the
      located row to "Em Andamento", the agent and `now`; no other cell of
      the sheet changes. */
  lemma ClaimWritesThreeCells(g: Grid, user: string, now: string, accepted: nat)
    requires Claim(g, user, now, accepted).outcome.Claimed?
    ensures var r := Claim(g, user, now, accepted).outcome.row;
            var h := Claim(g, user, now, accepted).grid;
      SameShape(g, h) && InGrid(g, r, StartCol) &&
      h[r - 1][StatusCol - 1] == InProgress && h[r - 1][AssigneeCol - 1] == user && h[r - 1][StartCol - 1] == now &&
      forall i, j :: 0 <= i < |g| && 0 <= j < |g[i]| && !(i == r - 1 && StatusCol - 1 <= j < StartCol) ==> h[i][j] == g[i][j]
  {
    ClaimIsApply(g, user, now, accepted);
    ClaimWritesApplied(g, ClaimTarget(g).row, user, now, accepted);
  }

  /** When the chosen record's ID text occurs in no other row, the row the
      claim writes is that record's own row. */
  lemma ClaimWritesChosenTicket(g: Grid)
    requires ClaimTarget(g).Located? && IdUniqueAt(g, ClaimTarget(g).candidate)
    ensures ClaimTarget(g).row == ClaimTarget(g).candidate
  {
    var c := ClaimTarget(g).candidate;
    FindRowOnlyIn(g, IdText(g, c), c);
  }

  /** Under the header of the concrete example sheets, ID is read from
      column 1, Status from column 3 and Responsavel from column 4. */
  lemma TicketHeaderColumns(header: seq<string>)
    requires header == ["ID", "Dados", "Status", "Responsavel", "Inicio", "Fim"]
    ensures ColumnOf(header, "Status") == Some(StatusCol - 1)
    ensures ColumnOf(header, "Responsavel") == Some(AssigneeCol - 1)
    ensures ColumnOf(header, "ID") == Some(0)
  {
    var h5 := header[..5];
    assert h5 == ["ID", "Dados", "Status", "Responsavel", "Inicio"];
    var h4 := h5[..4];
    assert h4 == ["ID", "Dados", "Status", "Responsavel"];
    var h3 := h4[..3];
    assert h3 == ["ID", "Dados", "Status"];
    var h1 := h3[..2][..1];
    assert h1 == ["ID"];
    assert ColumnOf(header, "Status") == Some(2);
    assert ColumnOf(header, "Responsavel") == Some(3);
  }

  /** Ticket 1 is finished and its Dados cell holds "2"; ticket 2 is
      Pending and unassigned. */
  function CollidingSheet(): Grid {
    [["ID", "Dados", "Status", "Responsavel", "Inicio", "Fim"],
     ["1", "2", "Concluido", "Ana", "t0", "t1"],
     ["2", "900", "Pendente", "", "", ""]]
  }

  lemma CollidingSheetLayout()
    ensures StandardLayout(CollidingSheet()) && ColumnOf(CollidingSheet()[0], "ID") == Some(0)
  {
    var header := ["ID", "Dados", "Status", "Responsavel", "Inicio", "Fim"];
    assert CollidingSheet()[0] == header;
    TicketHeaderColumns(header);
  }

  lemma CollidingSheetTarget()
    ensures ClaimTarget(CollidingSheet()) == Located(3, 2)
  {
    var g := CollidingSheet();
    CollidingSheetLayout();
    assert !Matches(g, 2, Unclaimed) && Matches(g, 3, Unclaimed);
    assert IdText(g, 3) == "2";
    assert !RowHolds(g, 1, "2") && RowHolds(g, 2, "2");
  }

  /** The search is not confined to the ID column: when a ticket's ID text
      also fills an earlier ticket's Dados cell, the claim lands on that
      earlier, already finished ticket and moves it back to In Progress. */
  lemma ClaimCanLandOnAnotherTicket()
    ensures var g := CollidingSheet();
            var res := Claim(g, "Bia", "t2", 3);
      ClaimTarget(g) == Located(3, 2) && res.outcome == Claimed(2) &&
      Status(g, 2) == Done && Status(res.grid, 2) == InProgress && Assignee(res.grid, 2) == "Bia"
  {
    var g := CollidingSheet();
    CollidingSheetLayout();
    CollidingSheetTarget();
    ClaimSucceedsExactly(g, "Bia", "t2", 3);
    ClaimedRowRewritten(g, "Bia", "t2", 3);
    LayoutReads(g, g, 2);
  }

  /** h is g with at most record n rewritten: same shape, header and every
      other row kept. */
  predicate OnlyRowChanged(g: Grid, h: Grid, n: nat) {
    SameShape(g, h) && 2 <= n <= |g| &&
    forall i :: 0 <= i < |g| && i != n - 1 ==> h[i] == g[i]
  }

  /** Every record but n reads the same before and after. */
  lemma OtherRecordsUnchanged(g: Grid, h: Grid, n: nat, k: nat)
    requires OnlyRowChanged(g, h, n) && 1 <= k <= |g| && k != n
    ensures Status(h, k) == Status(g, k) && Assignee(h, k) == Assignee(g, k)
  {
    assert h[0] == g[0] && h[k - 1] == g[k - 1];
  }

  /** A free agent taking record c (In Progress under their name, nothing
      else changed) keeps both ticket invariants and then holds exactly c. */
  lemma TakingKeepsInvariants(g: Grid, h: Grid, c: nat, user: string)
    requires Consistent(g) && OneTicketEach(g) && MyAssignment(g, user) == None
    requires OnlyRowChanged(g, h, c) && user != ""
    requires Status(h, c) == InProgress && Assignee(h, c) == user
    ensures Consistent(h) && OneTicketEach(h)
    ensures MyAssignment(h, user) == Some(c)
  {
    forall n | 2 <= n <= |h| && IsTicket(h, n) ensures Assignee(h, n) == "" <==> Status(h, n) == Pending {
      if n != c {
        OtherRecordsUnchanged(g, h, c, n);
      }
    }
    forall m, n | 2 <= m < n <= |h| && Status(h, m) == InProgress && Status(h, n) == InProgress
      ensures Assignee(h, m) != Assignee(h, n)
    {
      if m != c {
        OtherRecordsUnchanged(g, h, c, m);
      }
      if n != c {
        OtherRecordsUnchanged(g, h, c, n);
      }
    }
    forall k | 2 <= k <= |h| && k != c ensures !Matches(h, k, HeldBy(user)) {
      OtherRecordsUnchanged(g, h, c, k);
    }
    assert Matches(h, c, HeldBy(user));
  }

  /** Finishing record n (In Progress to Done under the same Responsavel,
      nothing else changed) keeps both ticket invariants and frees its agent
      when that was their only ticket. */
  lemma FinishingKeepsInvariants(g: Grid, h: Grid, n: nat)
    requires Consistent(g) && OneTicketEach(g)
    requires OnlyRowChanged(g, h, n)
    requires Status(g, n) == InProgress && Status(h, n) == Done && Assignee(h, n) == Assignee(g, n)
    ensures Consistent(h) && OneTicketEach(h)
    ensures MyAssignment(h, Assignee(g, n)) == None
  {
    assert IsTicket(g, n);
    forall k | 2 <= k <= |h| && IsTicket(h, k) ensures Assignee(h, k) == "" <==> Status(h, k) == Pending {
      if k != n {
        OtherRecordsUnchanged(g, h, n, k);
      }
    }
    forall i, k | 2 <= i < k <= |h| && Status(h, i) == InProgress && Status(h, k) == InProgress
      ensures Assignee(h, i) != Assignee(h, k)
    {
      OtherRecordsUnchanged(g, h, n, i);
      OtherRecordsUnchanged(g, h, n, k);
    }
    forall k | 2 <= k <= |h| ensures !(Status(h, k) == InProgress && Assignee(h, k) == Assignee(g, n)) {
      if k != n {
        OtherRecordsUnchanged(g, h, n, k);
        if k < n {
          assert !(Status(g, k) == InProgress && Status(g, n) == InProgress && Assignee(g, k) == Assignee(g, n));
        } else {
          assert !(Status(g, n) == InProgress && Status(g, k) == InProgress && Assignee(g, n) == Assignee(g, k));
        }
      }
    }
  }

  /** The three claim writes to record r, when all go through, rewrite only
      that row: Status becomes "Em Andamento" and Responsavel the agent. */
  lemma ClaimWritesRewriteRow(g: Grid, r: nat, user: string, now: string, accepted: nat)
    requires StandardLayout(g) && r >= 2
    requires Apply(g, ClaimWrites(r, user, now), accepted).rejected.None?
    ensures var h := Apply(g, ClaimWrites(r, user, now), accepted).grid;
      OnlyRowChanged(g, h, r) && StandardLayout(h) && Status(h, r) == InProgress && Assignee(h, r) == user
  {
    var ws := ClaimWrites(r, user, now);
    ClaimWritesApplied(g, r, user, now, accepted);
    var h := Apply(g, ws, accepted).grid;
    forall i | 0 <= i < |g| && i != r - 1 ensures h[i] == g[i] {
      ApplyLeavesRow(g, ws, accepted, i);
    }
    LayoutReads(g, h, r);
  }

  /** A completed claim whose located row is a record rewrites only that
      row: Status becomes "Em Andamento" and Responsavel the agent. */
  lemma ClaimedRowRewritten(g: Grid, user: string, now: string, accepted: nat)
    requires StandardLayout(g)
    requires Claim(g, user, now, accepted).outcome.Claimed? && ClaimTarget(g).row >= 2
    ensures var r := ClaimTarget(g).row;
            var h := Claim(g, user, now, accepted).grid;
      Claim(g, user, now, accepted).outcome == Claimed(r) &&
      OnlyRowChanged(g, h, r) && StandardLayout(h) &&
      Status(h, r) == InProgress && Assignee(h, r) == user
  {
    ClaimIsApply(g, user, now, accepted);
    ClaimWritesRewriteRow(g, ClaimTarget(g).row, user, now, accepted);
  }

  /** A completed claim on a record whose ID is unique rewrites only that
      record, from Pending and unassigned to In Progress under the agent. */
  lemma ClaimFrame(g: Grid, user: string, now: string, accepted: nat)
    requires StandardLayout(g)
    requires ClaimTarget(g).Located? && IdUniqueAt(g, ClaimTarget(g).candidate)
    requires Claim(g, user, now, accepted).outcome.Claimed?
    ensures var c := ClaimTarget(g).candidate;
            var h := Claim(g, user, now, accepted).grid;
      Claim(g, user, now, accepted).outcome == Claimed(c) &&
      OnlyRowChanged(g, h, c) && StandardLayout(h) &&
      Status(g, c) == Pending && Assignee(g, c) == "" &&
      Status(h, c) == InProgress && Assignee(h, c) == user
  {
    ClaimWritesChosenTicket(g);
    ClaimedRowRewritten(g, user, now, accepted);
  }

  /** A free, logged-in agent who completes a claim on a record with a
      unique ID holds exactly that ticket afterwards, and both ticket
      invariants still hold. */
  lemma ClaimMakesItMine(g: Grid, user: string, now: string, accepted: nat)
    requires StandardLayout(g) && Consistent(g) && OneTicketEach(g)
    requires user != "" && MyAssignment(g, user) == None
    requires ClaimTarget(g).Located? && IdUniqueAt(g, ClaimTarget(g).candidate)
    requires Claim(g, user, now, accepted).outcome.Claimed?
    ensures var h := Claim(g, user, now, accepted).grid;
      MyAssignment(h, user) == Some(ClaimTarget(g).candidate) && Consistent(h) && OneTicketEach(h)
  {
    ClaimFrame(g, user, now, accepted);
    TakingKeepsInvariants(g, Claim(g, user, now, accepted).grid, ClaimTarget(g).candidate, user);
  }

  /** When the store refuses the second write, the located ticket is left In
      Progress with an empty Responsavel: the ticket invariant is broken and
      nothing repairs it. */
  lemma InterruptedClaimBreaksConsistency(g: Grid, user: string, now: string)
    requires StandardLayout(g)
    requires ClaimTarget(g).Located? && IdUniqueAt(g, ClaimTarget(g).candidate)
    ensures var c := ClaimTarget(g).candidate;
            var res := Claim(g, user, now, 1);
      res.outcome == ClaimFailed(WriteRejected(Write(c, AssigneeCol, user))) &&
      Status(res.grid, c) == InProgress && Assignee(res.grid, c) == "" &&
      !Consistent(res.grid)
  {
    var c := ClaimTarget(g).candidate;
    ClaimWritesChosenTicket(g);
    ClaimIsApply(g, user, now, 1);
    var ws := ClaimWrites(c, user, now);
    var h := SetCell(g, c, StatusCol, InProgress);
    assert Apply(g, ws, 1) == Apply(h, ws[1..], 0);
    assert h[0] == g[0];
    LayoutReads(g, h, c);
    assert IsTicket(h, c);
  }

  // -------------------------------------------------------------- release

  /** Once the ID text is found, a release is the two writes to that row. */
  lemma ReleaseIsApply(g: Grid, id: string, now: string, accepted: nat)
    requires FindRow(g, id).Some?
    ensures var a := Apply(g, ReleaseWrites(FindRow(g, id).value, now), accepted);
            var res := Release(g, id, now, accepted);
      res.grid == a.grid && (res.outcome.Released? <==> a.rejected.None?) &&
      (a.rejected.None? ==> res.outcome == Released(FindRow(g, id).value)) &&
      (a.rejected.Some? ==> res.outcome == ReleaseFailed(WriteRejected(a.rejected.value)))
  {
  }

  /** A completed release writes "Concluido" to Status and `now` to the end
      time of the row holding the ID text; Responsavel, start time and every
      other cell are left as they were. */
  lemma ReleaseWritesTwoCells(g: Grid, id: string, now: string, accepted: nat)
    requires Release(g, id, now, accepted).outcome.Released?
    ensures var r := Release(g, id, now, accepted).outcome.row;
            var h := Release(g, id, now, accepted).grid;
      FindRow(g, id) == Some(r) && SameShape(g, h) && InGrid(g, r, EndCol) &&
      h[r - 1][StatusCol - 1] == Done && h[r - 1][EndCol - 1] == now &&
      h[r - 1][AssigneeCol - 1] == g[r - 1][AssigneeCol - 1] && h[r - 1][StartCol - 1] == g[r - 1][StartCol - 1] &&
      forall i, j :: 0 <= i < |g| && 0 <= j < |g[i]| && !(i == r - 1 && (j == StatusCol - 1 || j == EndCol - 1)) ==> h[i][j] == g[i][j]
  {
    var r := FindRow(g, id).value;
    var ws := ReleaseWrites(r, now);
    ReleaseIsApply(g, id, now, accepted);
    var h := Apply(g, ws, accepted).grid;
    ApplyStores(g, ws, accepted, 0);
    ApplyStores(g, ws, accepted, 1);
    forall i, j | 0 <= i < |g| && 0 <= j < |g[i]| && !(i == r - 1 && (j == StatusCol - 1 || j == EndCol - 1))
      ensures h[i][j] == g[i][j]
    {
      ApplyLeavesUntargeted(g, ws, accepted, i, j);
    }
  }

  /** A release completes exactly when the ID text is found, the store
      accepts both writes and the row reaches column 6; an ID text found
      nowhere fails with nothing written. */
  lemma ReleaseSucceedsExactly(g: Grid, id: string, now: string, accepted: nat)
    ensures Release(g, id, now, accepted).outcome.Released? <==>
      FindRow(g, id).Some? && accepted >= 2 && InGrid(g, FindRow(g, id).value, EndCol)
    ensures FindRow(g, id).None? ==>
      Release(g, id, now, accepted) == ReleaseResult(ReleaseFailed(NotFound(id)), g)
  {
    if FindRow(g, id).Some? {
      ReleaseIsApply(g, id, now, accepted);
      ApplySucceeds(g, ReleaseWrites(FindRow(g, id).value, now), accepted);
    }
  }

  /** A release whose ID text is found but which the store cuts off after
      `accepted` < 2 writes (each inside the row) reports the next write as
      refused and leaves the first `accepted` writes in place: none, or the
      Status write only. */
  lemma ReleaseInterrupted(g: Grid, id: string, now: string, accepted: nat)
    requires FindRow(g, id).Some? && accepted < 2
    requires accepted >= 1 ==> InGrid(g, FindRow(g, id).value, StatusCol)
    ensures var ws := ReleaseWrites(FindRow(g, id).value, now);
      Release(g, id, now, accepted) ==
        ReleaseResult(ReleaseFailed(WriteRejected(ws[accepted])), Apply(g, ws[..accepted], accepted).grid)
  {
    var ws := ReleaseWrites(FindRow(g, id).value, now);
    ReleaseIsApply(g, id, now, accepted);
    ApplyRefusedAt(g, ws, accepted, accepted);
  }

  /** A completed release whose located row is a record rewrites only that
      row: Status becomes "Concluido" and Responsavel is kept. */
  lemma ReleaseFrame(g: Grid, id: string, now: string, accepted: nat)
    requires StandardLayout(g)
    requires Release(g, id, now, accepted).outcome.Released? && FindRow(g, id).value >= 2
    ensures var r := FindRow(g, id).value;
            var h := Release(g, id, now, accepted).grid;
      OnlyRowChanged(g, h, r) &&
      Status(h, r) == Done && Assignee(h, r) == Assignee(g, r)
  {
    var r := FindRow(g, id).value;
    ReleaseWritesTwoCells(g, id, now, accepted);
    ReleaseIsApply(g, id, now, accepted);
    var h := Release(g, id, now, accepted).grid;
    forall i | 0 <= i < |g| && i != r - 1 ensures h[i] == g[i] {
      ApplyLeavesRow(g, ReleaseWrites(r, now), accepted, i);
    }
    LayoutReads(g, h, r);
    LayoutReads(g, g, r);
  }

  /** A sheet where Ana's ticket has ID "9" and "9" is also the Dados cell
      of an earlier, pending ticket. */
  function ReleaseCollidingSheet(): Grid {
    [["ID", "Dados", "Status", "Responsavel", "Inicio", "Fim"],
     ["5", "9", "Pendente", "", "", ""],
     ["9", "100", "Em Andamento", "Ana", "t0", ""]]
  }

  /** The release counterpart of ClaimCanLandOnAnotherTicket: Ana's dashboard
      shows row 3 with ID "9", but finishing it finds "9" first in row 2,
      which becomes "Concluido" with an empty Responsavel. Ana's ticket stays
      In Progress and the sheet is no longer Consistent. */
  lemma ReleaseCollidingSheetReads()
    ensures var g := ReleaseCollidingSheet();
      StandardLayout(g) && MyAssignment(g, "Ana") == Some(3) && IdText(g, 3) == "9" &&
      FindRow(g, "9") == Some(2)
  {
    var g := ReleaseCollidingSheet();
    var header := ["ID", "Dados", "Status", "Responsavel", "Inicio", "Fim"];
    assert g[0] == header;
    TicketHeaderColumns(header);
    assert StandardLayout(g);
    LayoutReads(g, g, 2);
    LayoutReads(g, g, 3);
    assert !Matches(g, 2, HeldBy("Ana")) && Matches(g, 3, HeldBy("Ana"));
    assert !RowHolds(g, 1, "9") && RowHolds(g, 2, "9");
  }

  lemma ReleaseCanFinishAnotherTicket()
    ensures var g := ReleaseCollidingSheet();
            var res := Release(g, "9", "t1", 2);
      MyAssignment(g, "Ana") == Some(3) && IdText(g, 3) == "9" &&
      res.outcome == Released(2) &&
      Status(res.grid, 2) == Done && Assignee(res.grid, 2) == "" &&
      Status(res.grid, 3) == InProgress && !Consistent(res.grid)
  {
    var g := ReleaseCollidingSheet();
    ReleaseCollidingSheetReads();
    ReleaseSucceedsExactly(g, "9", "t1", 2);
    ReleaseFrame(g, "9", "t1", 2);
    var h := Release(g, "9", "t1", 2).grid;
    assert h[0] == g[0] && h[2] == g[2];
    LayoutReads(g, h, 3);
    assert IsTicket(h, 2) && !(Assignee(h, 2) == "" <==> Status(h, 2) == Pending);
  }

  /** Finishing the ticket the dashboard shows: when its ID is unique and
      the store accepts both writes, the release lands on it and moves it
      from In Progress to Done under the same Responsavel; the agent is free
      again and both ticket invariants hold. */
  lemma ReleaseFinishesAssignment(g: Grid, user: string, now: string, accepted: nat)
    requires StandardLayout(g) && Consistent(g) && OneTicketEach(g)
    requires Dashboard(g, user).Busy? && IdUniqueAt(g, Dashboard(g, user).row)
    requires accepted >= 2
    ensures var n := Dashboard(g, user).row;
            var res := Release(g, Dashboard(g, user).id, now, accepted);
      res.outcome == Released(n) &&
      Status(g, n) == InProgress && Status(res.grid, n) == Done &&
      Assignee(res.grid, n) == Assignee(g, n) == user &&
      MyAssignment(res.grid, user) == None &&
      Consistent(res.grid) && OneTicketEach(res.grid)
  {
    var n := Dashboard(g, user).row;
    var id := Dashboard(g, user).id;
    FindRowOnlyIn(g, id, n);
    ReleaseSucceedsExactly(g, id, now, accepted);
    ReleaseIsApply(g, id, now, accepted);
    ReleaseFrame(g, id, now, accepted);
    FinishingKeepsInvariants(g, Release(g, id, now, accepted).grid, n);
  }

  // ------------------------------------------------------------ dashboard

  /** An agent is shown as free, and may claim, exactly when no record is In
      Progress under their name. */
  lemma FreeExactlyWithoutAssignment(g: Grid, user: string)
    requires !NoRecords(g) && "Status" in g[0] && "Responsavel" in g[0]
    ensures Dashboard(g, user).Free? <==>
      forall k :: 2 <= k <= |g| ==> !(Status(g, k) == InProgress && Assignee(g, k) == user)
    ensures Dashboard(g, user).Busy? <==> !Dashboard(g, user).Free?
  {
  }

  /** The claim button is hidden only when nothing could be claimed: a record
      a claim could take is also counted as Pending. */
  lemma ClaimableIsCounted(g: Grid)
    requires ClaimCandidate(g).Some?
    ensures PendingCount(g) > 0
  {
    var c := ClaimCandidate(g).value;
    assert Status(g, c) == Pending;
  }

  /** The converse fails: the count includes Pending records that already
      have a Responsavel, so the button can be offered and the claim still
      find nothing. */
  lemma OfferedClaimCanFindNothing()
    ensures var g := [["ID", "Dados", "Status", "Responsavel", "Inicio", "Fim"],
                      ["1", "900", "Pendente", "Ana", "", ""]];
      Dashboard(g, "Bia") == Free(1, true) &&
      Claim(g, "Bia", "t0", 3) == ClaimResult(NoneAvailable, g)
  {
    var g := [["ID", "Dados", "Status", "Responsavel", "Inicio", "Fim"],
              ["1", "900", "Pendente", "Ana", "", ""]];
    assert ColumnOf(g[0], "Status") == Some(2);
    assert ColumnOf(g[0], "Responsavel") == Some(3);
    assert Matches(g, 2, AnyPending) && !Matches(g, 2, Unclaimed) && !Matches(g, 2, HeldBy("Bia"));
    assert Count(g, 3, AnyPending) == 0;
  }

  /** Without a Dados column the dashboard shows "N/A" and offers no link;
      with one, the link is the tracker prefix followed by the Dados text. */
  lemma TrackerLinkOfAssignment(g: Grid, user: string)
    requires Dashboard(g, user).Busy?
    ensures var v := Dashboard(g, user);
      ("Dados" !in g[0] ==> v.number == NoNumber && v.link == None) &&
      ("Dados" in g[0] && Value(g, v.row, "Dados") != NoNumber ==>
         v.link == Some(TrackerPrefix + Value(g, v.row, "Dados")))
  {
  }
}
