/** The "Chamados" worksheet held in place: the two actions of the main screen
    re-read it, locate a row by searching for an ID's text and change it one
    cell at a time. */
module TicketSheet {
  import opened Sheet
  import opened Queue

  class Worksheet {
    /** The worksheet's cells, row 1 being the header. */
    var grid: Grid

    constructor (cells: Grid)
      ensures grid == cells
    {
      grid := cells;
    }

    /** update_cell(row, col, value): one cell is written when the store
        accepts the call and the cell lies inside the grid; otherwise the
        call raises and nothing changes. */
    method UpdateCell(row: int, col: int, value: string, accept: bool) returns (ok: bool)
      modifies this
      ensures ok <==> accept && InGrid(old(grid), row, col)
      ensures grid == if ok then SetCell(old(grid), row, col, value) else old(grid)
    {
      ok := accept && InGrid(grid, row, col);
      if ok {
        grid := SetCell(grid, row, col, value);
      }
    }

    /** "Take the next ticket". The store accepts the first `accepted` cell
        writes of this action; a refused write ends the action and leaves the
        writes before it in place. */
    method ClaimNext(user: string, now: string, accepted: nat) returns (outcome: ClaimOutcome)
      modifies this
      ensures Claim(old(grid), user, now, accepted) == ClaimResult(outcome, grid)
    {
      var records := grid;
      if !(|records| >= 2 && "Status" in records[0]) {
        return ClaimFailed(MissingColumn("Status"));
      }
      if "Responsavel" !in records[0] {
        return ClaimFailed(MissingColumn("Responsavel"));
      }
      var candidate := ClaimCandidate(records);
      if candidate.None? {
        return NoneAvailable;
      }
      if "ID" !in records[0] {
        return ClaimFailed(MissingColumn("ID"));
      }
      var id := IdText(records, candidate.value);
      var found := FindRow(grid, id);
      if found.None? {
        return ClaimFailed(NotFound(id));
      }
      var row := found.value;
      var writes := ClaimWrites(row, user, now);
      assert writes[1..][1..] == [writes[2]];

      var ok := UpdateCell(row, StatusCol, InProgress, accepted > 0);
      if !ok {
        return ClaimFailed(WriteRejected(writes[0]));
      }
      assert Apply(old(grid), writes, accepted) == Apply(grid, writes[1..], accepted - 1);
      ok := UpdateCell(row, AssigneeCol, user, accepted > 1);
      if !ok {
        return ClaimFailed(WriteRejected(writes[1]));
      }
      assert Apply(old(grid), writes, accepted) == Apply(grid, writes[1..][1..], accepted - 2);
      ok := UpdateCell(row, StartCol, now, accepted > 2);
      if !ok {
        return ClaimFailed(WriteRejected(writes[2]));
      }
      outcome := Claimed(row);
    }

    /** "Finish the ticket" for the record whose ID text is `id`. */
    method Release(id: string, now: string, accepted: nat) returns (outcome: ReleaseOutcome)
      modifies this
      ensures Queue.Release(old(grid), id, now, accepted) == ReleaseResult(outcome, grid)
    {
      var found := FindRow(grid, id);
      if found.None? {
        return ReleaseFailed(NotFound(id));
      }
      var row := found.value;
      var writes := ReleaseWrites(row, now);
      assert writes[1..][1..] == [];

      var ok := UpdateCell(row, StatusCol, Done, accepted > 0);
      if !ok {
        return ReleaseFailed(WriteRejected(writes[0]));
      }
      assert Apply(old(grid), writes, accepted) == Apply(grid, writes[1..], accepted - 1);
      ok := UpdateCell(row, EndCol, now, accepted > 1);
      if !ok {
        return ReleaseFailed(WriteRejected(writes[1]));
      }
      outcome := Released(row);
    }
  }
}
