/** The ticket queue on the "Chamados" worksheet: the dashboard queries over a
    snapshot of the records, and the claim and release actions as sequences of
    single-cell writes. Columns are read by header name (ID, Dados, Status,
    Responsavel) but written by position (3 Status, 4 Responsavel, 5 start
    time, 6 end time). */
module Queue {
  import opened Sheet

  const Pending := "Pendente"
  const InProgress := "Em Andamento"
  const Done := "Concluido"

  /** Ticket number shown when the sheet has no Dados column. */
  const NoNumber := "N/A"

  /** Start of a ticket's page in the Qualitor tracker; the number follows. */
  const TrackerPrefix := "https://frigelar.qualitorsoftware.com/html/hd/hdchamado/cadastro_chamado.php?cdchamado="

  /** Sheet columns the writes address. */
  const StatusCol := 3
  const AssigneeCol := 4
  const StartCol := 5
  const EndCol := 6

  function Status(g: Grid, n: nat): string
    requires 1 <= n <= |g|
  {
    Value(g, n, "Status")
  }

  function Assignee(g: Grid, n: nat): string
    requires 1 <= n <= |g|
  {
    Value(g, n, "Responsavel")
  }

  /** The record read yields no table: no data row, or no column at all. */
  predicate NoRecords(g: Grid) {
    |g| <= 1 || |g[0]| == 0
  }

  /** The row filters the dashboard and the claim apply to the records. */
  datatype Filter =
    | AnyPending               // Status == "Pendente"
    | Unclaimed                // Status == "Pendente" and Responsavel == ""
    | HeldBy(user: string)     // Status == "Em Andamento" and Responsavel == user

  predicate Matches(g: Grid, n: nat, f: Filter)
    requires 1 <= n <= |g|
  {
    match f
    case AnyPending => Status(g, n) == Pending
    case Unclaimed => Status(g, n) == Pending && Assignee(g, n) == ""
    case HeldBy(user) => Status(g, n) == InProgress && Assignee(g, n) == user
  }

  /** The first row from `from` on, in sheet order, that the filter selects. */
  function First(g: Grid, from: nat, f: Filter): (r: Option<nat>)
    requires from >= 1
    ensures r.Some? ==> from <= r.value <= |g| && Matches(g, r.value, f)
    ensures r.Some? ==> forall k :: from <= k < r.value ==> !Matches(g, k, f)
    ensures r.None? <==> forall k :: from <= k <= |g| ==> !Matches(g, k, f)
    decreases |g| + 1 - from
  {
    if from > |g| then None
    else if Matches(g, from, f) then Some(from)
    else First(g, from + 1, f)
  }

  /** The rows from `from` on that the filter selects. */
  ghost function Selected(g: Grid, from: nat, f: Filter): set<nat>
    requires from >= 1
  {
    set k: nat | from <= k <= |g| && Matches(g, k, f)
  }

  /** The selected rows from `from` on are `from` itself, when it matches,
      and the selected rows after it. */
  lemma SelectedSplit(g: Grid, from: nat, f: Filter)
    requires 1 <= from <= |g|
    ensures Selected(g, from, f) == (if Matches(g, from, f) then {from} else {}) + Selected(g, from + 1, f)
  {
  }

  /** How many rows from `from` on the filter selects. */
  function Count(g: Grid, from: nat, f: Filter): (c: nat)
    requires from >= 1
    ensures c == |Selected(g, from, f)|
    ensures from <= |g| + 1 ==> c <= |g| + 1 - from
    ensures c > 0 <==> exists k :: from <= k <= |g| && Matches(g, k, f)
    decreases |g| + 1 - from
  {
    if from > |g| then
      assert Selected(g, from, f) == {};
      0
    else
      SelectedSplit(g, from, f);
      (if Matches(g, from, f) then 1 else 0) + Count(g, from + 1, f)
  }

  /** The agent's open ticket: the first record In Progress under their name. */
  function MyAssignment(g: Grid, user: string): (r: Option<nat>)
    ensures r.Some? ==> 2 <= r.value <= |g| && Status(g, r.value) == InProgress && Assignee(g, r.value) == user
    ensures r.Some? ==> forall k :: 2 <= k < r.value ==> !Matches(g, k, HeldBy(user))
    ensures r.None? <==> forall k :: 2 <= k <= |g| ==> !(Status(g, k) == InProgress && Assignee(g, k) == user)
  {
    assert forall k :: 2 <= k <= |g| ==> (Matches(g, k, HeldBy(user)) <==> Status(g, k) == InProgress && Assignee(g, k) == user);
    First(g, 2, HeldBy(user))
  }

  /** The size of the queue: records whose Status is Pending, assigned or not. */
  function PendingCount(g: Grid): (c: nat)
    ensures c == |set k: nat | 2 <= k <= |g| && Status(g, k) == Pending|
    ensures c <= |g|
    ensures c > 0 <==> exists k :: 2 <= k <= |g| && Status(g, k) == Pending
  {
    assert forall k :: 2 <= k <= |g| ==> (Matches(g, k, AnyPending) <==> Status(g, k) == Pending);
    assert Selected(g, 2, AnyPending) == set k: nat | 2 <= k <= |g| && Status(g, k) == Pending;
    Count(g, 2, AnyPending)
  }

  /** The ticket a claim takes: the first record that is Pending with an
      empty Responsavel. */
  function ClaimCandidate(g: Grid): (r: Option<nat>)
    ensures r.Some? ==> 2 <= r.value <= |g| && Status(g, r.value) == Pending && Assignee(g, r.value) == ""
    ensures r.Some? ==> forall k :: 2 <= k < r.value ==> !Matches(g, k, Unclaimed)
    ensures r.None? <==> forall k :: 2 <= k <= |g| ==> !(Status(g, k) == Pending && Assignee(g, k) == "")
  {
    assert forall k :: 2 <= k <= |g| ==> (Matches(g, k, Unclaimed) <==> Status(g, k) == Pending && Assignee(g, k) == "");
    First(g, 2, Unclaimed)
  }

  /** The ticket number of a record: its Dados field, or "N/A" when the sheet
      has no Dados column. */
  function TicketNumber(g: Grid, n: nat): (number: string)
    requires 1 <= n <= |g|
    ensures "Dados" !in g[0] ==> number == NoNumber
    ensures "Dados" in g[0] ==> number == Value(g, n, "Dados")
  {
    if "Dados" in g[0] then Value(g, n, "Dados") else NoNumber
  }

  /** The link to the ticket's page in the tracker, offered unless the
      number is "N/A". The number can be read back from the link. */
  function TrackerLink(number: string): (link: Option<string>)
    ensures link.Some? <==> number != NoNumber
    ensures link.Some? ==> |link.value| == |TrackerPrefix| + |number|
    ensures link.Some? ==> link.value[..|TrackerPrefix|] == TrackerPrefix && link.value[|TrackerPrefix|..] == number
  {
    if number != NoNumber then Some(TrackerPrefix + number) else None
  }

  /** The text searched for to locate a record's row: its ID field, or the
      text "None" when the sheet has no ID column. */
  function IdText(g: Grid, n: nat): (text: string)
    requires 1 <= n <= |g|
    ensures "ID" in g[0] ==> text == Value(g, n, "ID")
    ensures "ID" !in g[0] ==> text == "None"
  {
    if "ID" in g[0] then Value(g, n, "ID") else "None"
  }

  /** What the main screen shows a logged-in agent. */
  datatype View =
    | EmptySheet
    | MissingColumns
    | Busy(row: nat, number: string, link: Option<string>, id: string)
    | Free(pending: nat, claimOffered: bool)

  function Dashboard(g: Grid, user: string): (v: View)
    ensures v == EmptySheet <==> NoRecords(g)
    ensures v == MissingColumns <==> !NoRecords(g) && !("Status" in g[0] && "Responsavel" in g[0])
    ensures v.Busy? ==> MyAssignment(g, user) == Some(v.row) && v.id == IdText(g, v.row)
    ensures v.Busy? ==> v.number == TicketNumber(g, v.row) && v.link == TrackerLink(v.number)
    ensures v.Free? ==> v.pending == PendingCount(g) && (v.claimOffered <==> v.pending > 0)
  {
    if NoRecords(g) then EmptySheet
    else if !("Status" in g[0] && "Responsavel" in g[0]) then MissingColumns
    else match MyAssignment(g, user)
      case Some(n) => Busy(n, TicketNumber(g, n), TrackerLink(TicketNumber(g, n)), IdText(g, n))
      case None => Free(PendingCount(g), PendingCount(g) > 0)
  }

  /** Why a claim or a release did not complete. */
  datatype Failure =
    | MissingColumn(name: string)   // a record field the action reads is not a column
    | NotFound(text: string)        // no cell of the sheet holds the searched text
    | WriteRejected(at: Write)      // the store refused this write; those before it stay

  datatype ClaimOutcome = Claimed(row: nat) | NoneAvailable | ClaimFailed(why: Failure)

  /** Where a claim would write, decided on a fresh read before any write:
      the chosen record and the row the ID search locates. */
  datatype Target = NoCandidate | Blocked(why: Failure) | Located(candidate: nat, row: nat)

  /** The fresh read has a record and the Status and Responsavel columns the
      candidate filter reads. */
  predicate ClaimReadable(g: Grid) {
    |g| >= 2 && "Status" in g[0] && "Responsavel" in g[0]
  }

  function ClaimTarget(g: Grid): (t: Target)
    ensures t.Located? ==> ClaimCandidate(g) == Some(t.candidate) && FindRow(g, IdText(g, t.candidate)) == Some(t.row)
    ensures t.Located? || t.NoCandidate? ==> ClaimReadable(g)
    ensures !(|g| >= 2 && "Status" in g[0]) ==> t == Blocked(MissingColumn("Status"))
    ensures |g| >= 2 && "Status" in g[0] && "Responsavel" !in g[0] ==> t == Blocked(MissingColumn("Responsavel"))
    ensures ClaimReadable(g) ==> (t.NoCandidate? <==> ClaimCandidate(g).None?)
    ensures ClaimReadable(g) && ClaimCandidate(g).Some? && "ID" !in g[0] ==> t == Blocked(MissingColumn("ID"))
    ensures ClaimReadable(g) && ClaimCandidate(g).Some? && "ID" in g[0] ==>
      var text := IdText(g, ClaimCandidate(g).value);
      match FindRow(g, text)
      case None => t == Blocked(NotFound(text))
      case Some(r) => t == Located(ClaimCandidate(g).value, r)
  {
    if !(|g| >= 2 && "Status" in g[0]) then Blocked(MissingColumn("Status"))
    else if "Responsavel" !in g[0] then Blocked(MissingColumn("Responsavel"))
    else match ClaimCandidate(g)
      case None => NoCandidate
      case Some(c) =>
        if "ID" !in g[0] then Blocked(MissingColumn("ID"))
        else match FindRow(g, IdText(g, c))
          case None => Blocked(NotFound(IdText(g, c)))
          case Some(r) => Located(c, r)
  }

  function ClaimWrites(row: nat, user: string, now: string): seq<Write> {
    [Write(row, StatusCol, InProgress), Write(row, AssigneeCol, user), Write(row, StartCol, now)]
  }

  datatype ClaimResult = ClaimResult(outcome: ClaimOutcome, grid: Grid)

  /** "Take the next ticket": on a fresh read, pick the candidate, locate its
      row by its ID text, then set Status, Responsavel and start time there. */
  function Claim(g: Grid, user: string, now: string, accepted: nat): (res: ClaimResult)
    ensures SameShape(g, res.grid)
    ensures res.outcome.NoneAvailable? <==> ClaimTarget(g).NoCandidate?
    ensures !ClaimTarget(g).Located? ==> res.grid == g && !res.outcome.Claimed?
    ensures ClaimTarget(g).Blocked? ==> res == ClaimResult(ClaimFailed(ClaimTarget(g).why), g)
    ensures res.outcome.Claimed? ==> ClaimTarget(g).Located? && res.outcome.row == ClaimTarget(g).row
    ensures res.outcome.ClaimFailed? && res.outcome.why.WriteRejected? ==>
      ClaimTarget(g).Located? && res.outcome.why.at in ClaimWrites(ClaimTarget(g).row, user, now)
  {
    match ClaimTarget(g)
    case NoCandidate => ClaimResult(NoneAvailable, g)
    case Blocked(why) => ClaimResult(ClaimFailed(why), g)
    case Located(_, r) =>
      var a := Apply(g, ClaimWrites(r, user, now), accepted);
      ClaimResult(if a.rejected.None? then Claimed(r) else ClaimFailed(WriteRejected(a.rejected.value)), a.grid)
  }

  function ReleaseWrites(row: nat, now: string): seq<Write> {
    [Write(row, StatusCol, Done), Write(row, EndCol, now)]
  }

  datatype ReleaseOutcome = Released(row: nat) | ReleaseFailed(why: Failure)

  datatype ReleaseResult = ReleaseResult(outcome: ReleaseOutcome, grid: Grid)

  /** "Finish the ticket": locate the row holding the ID text, then set its
      Status and end time. */
  function Release(g: Grid, id: string, now: string, accepted: nat): (res: ReleaseResult)
    ensures SameShape(g, res.grid)
    ensures res.outcome.Released? ==> FindRow(g, id) == Some(res.outcome.row)
    ensures FindRow(g, id).None? ==> res == ReleaseResult(ReleaseFailed(NotFound(id)), g)
    ensures res.outcome.ReleaseFailed? && res.outcome.why.WriteRejected? ==>
      res.outcome.why.at in ReleaseWrites(FindRow(g, id).value, now)
  {
    match FindRow(g, id)
    case None => ReleaseResult(ReleaseFailed(NotFound(id)), g)
    case Some(r) =>
      var a := Apply(g, ReleaseWrites(r, now), accepted);
      ReleaseResult(if a.rejected.None? then Released(r) else ReleaseFailed(WriteRejected(a.rejected.value)), a.grid)
  }
}
