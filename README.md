# Ticket claim/release queue ("Distribuidor de Chamados")

A Dafny model of the ticket queue that `app.py` runs against the "Chamados"
worksheet of a shared Google spreadsheet. Support agents log in by picking
their name. An agent with no ticket "Em Andamento" sees how many tickets are
"Pendente" and may take the next one. An agent with an open ticket sees its
number, a link into the Qualitor tracker and a button to finish it.

The worksheet is a grid of text cells (`Sheet.Grid`). Sheet row `n` is
`g[n - 1]` and row 1 is the header. Records are read **by header name**:
`ID`, `Dados`, `Status` and `Responsavel`. When a name heads several columns,
the last one wins, as in a record dictionary. Writes go **by position**:
column 3 is Status, 4 is Responsavel, 5 is the start time and 6 is the end
time. The `StandardLayout` predicate states when the two agree. The lemmas
that follow a ticket through a claim or a release assume it.

- `Sheet` is the spreadsheet as gspread exposes it. It covers record field
  lookup, `find` (the first row holding a cell equal to the text, header
  included, any column) and sequences of single-cell writes. The store
  accepts the first `accepted` calls of an action. A refused call ends the
  action and keeps the writes made before it. A write past the cells a read
  returns is modelled as refused too (see "Left out").
- `Queue` holds the pure side: the row filters, the agent's assignment, the
  pending count, the claim candidate, the ticket number and tracker link,
  and the dashboard view. It also states the claim and the release as
  functions from the grid before to the outcome and the grid after.
- `TicketSheet.Worksheet` is the worksheet held in place, as a class. Its
  `ClaimNext` and `Release` methods make the `update_cell` calls one by one.
  Each is proved equal to the matching `Queue` function.
- `Session.SessionState` is the one-slot `usuario` session with login and
  logout.
- `QueueProperties` holds the lemmas about claims, releases and the dashboard.

The timestamp is an opaque `now` string. Store failures are an `accepted`
count: how many of an action's cell writes the store lets through.

Where the code departs from the queue's intended design, the model follows
the code:
- The row to write is located with a whole-sheet `find` on the ID text, not
  a lookup in the ID column. A ticket's ID text may also sit in another
  ticket's cell, for example in its Dados cell. The claim then lands on
  that other row. `ClaimCanLandOnAnotherTicket` exhibits such a sheet, where
  a finished ticket goes back to "Em Andamento". `ReleaseCanFinishAnotherTicket`
  exhibits one where finishing an agent's ticket marks a pending ticket
  "Concluido" instead. `ClaimWritesChosenTicket` and
  `ReleaseFinishesAssignment` show that a unique ID text rules this out.
- The agent's assignment is the *first* matching record (`iloc[0]`). Two
  matching records are not reported as an error.
- A release writes to whatever row holds the ID text. It does not check
  that the row is "Em Andamento".
- In a claim, a missing `Status`, `Responsavel` or `ID` column raises
  outside the error handler. This also happens when the fresh read has no
  data rows. The model reports it as `ClaimFailed(MissingColumn(..))`.
- The invariant "Responsavel is empty exactly while Pendente" is not
  enforced by the code. `ClaimMakesItMine` and `ReleaseFinishesAssignment`
  prove that complete actions keep it on a sheet in the standard layout,
  when the ticket's ID text occurs in no other row. Without that,
  `ReleaseCanFinishAnotherTicket` shows a completed release breaking it.
  `InterruptedClaimBreaksConsistency` shows that a claim cut short after its
  first write breaks it.

## Model

| member | source | states |
|---|---|---|
| `Sheet.ColumnOf` | app.py:73-74 | a field is read from a column headed by its name, with no later column of that name; none exactly when no header cell has the name |
| `Sheet.Value` | app.py:73-74 | a field is the cell of the record's row in the column `ColumnOf` picks (the last one with the name), blank where the row is shorter; a missing column reads as blank |
| `Sheet.FindRow` | app.py:152-153 | `find` gives a row holding a cell equal to the text, with no earlier row holding one; nothing exactly when no row holds one |
| `Sheet.FindRowOnlyIn` | app.py:112-113 | when the text is in row n and in no other row, `find` gives row n |
| `Sheet.SetCell` | app.py:157 | one `update_cell` sets that cell, keeps the shape and changes no other cell |
| `Sheet.ApplySucceeds` | app.py:151-165 | a write sequence completes exactly when the store accepts at least as many calls as there are writes and every write is inside the grid |
| `Sheet.ApplyLeavesUntargeted` | app.py:157-159 | a cell no write addresses keeps its value, whether or not the sequence was cut short |
| `Sheet.ApplyLeavesRow` | app.py:118-119 | a row no write addresses is unchanged |
| `Sheet.Apply` | app.py:157-165 | the writes run in order with an early exit: the shape is kept and a reported refusal is one of the writes; `ApplyRefusedAt` and `ApplyStopsAt` state where a refused run stops and what it leaves |
| `Sheet.ApplyRefusedAt` | app.py:157-165 | when the first k writes are accepted and in the grid and write k is not, the run reports write k and leaves exactly the first k writes applied: no rollback, nothing after write k |
| `Sheet.ApplyStopsAt` | app.py:157-165 | every refused run stops at some write k whose call was over the store's quota or outside the grid; the reported write is write k and the grid is the first k writes applied |
| `Sheet.ApplyStores` | app.py:157-159 | after a completed sequence, each written cell holds its write's value unless a later write addresses it |
| `Queue.First` | app.py:142-148 | the first row, in sheet order, that a filter selects; none exactly when no row from there on matches |
| `Queue.Count` | app.py:129-130 | the number of rows the filter selects, as the size of the set of those rows; positive exactly when some row is selected |
| `Queue.MyAssignment` | app.py:82-92 | the agent's ticket is the first record "Em Andamento" under their name; none (the agent is free) exactly when no such record exists |
| `Queue.PendingCount` | app.py:129-133 | the queue size is the number of records whose Status is "Pendente", whatever their Responsavel; positive exactly when one exists |
| `Queue.ClaimCandidate` | app.py:142-148 | the claim takes the first record that is "Pendente" with an empty Responsavel; none exactly when no record is both |
| `Queue.TicketNumber` | app.py:93 | the ticket number is the Dados field, or "N/A" when there is no Dados column |
| `Queue.TrackerLink` | app.py:103-104 | a link exists exactly when the number is not "N/A"; it is the Qualitor prefix followed by the number, which can be read back from it |
| `Queue.IdText` | app.py:94 | the searched text is the ID field, or "None" when there is no ID column |
| `Queue.Dashboard` | app.py:76-93 | the empty-sheet stop is shown exactly when the read has no records or no columns; the missing-columns stop exactly when the records lack Status or Responsavel; the busy view shows the agent's assignment and its link; the free view shows the pending count and offers a claim exactly when it is positive |
| `Queue.ClaimTarget` | app.py:139-153 | a missing Status or Responsavel column (or no record) blocks first; with both, no candidate means no ticket; a candidate without an ID column blocks; otherwise the target is the row `find` gives for the candidate's ID text, or NotFound when it gives none |
| `Queue.Claim` | app.py:139-169 | keeps the sheet's shape; reports no ticket exactly when there is no candidate; writes nothing unless a row was located, and a blocked claim reports the blocking reason (a missing column or an unfound ID text); a completed claim names the located row; a refused write is one of the three claim writes. Further properties: `ClaimSucceedsExactly`, `ClaimWritesThreeCells`, `ClaimMakesItMine` |
| `Queue.Release` | app.py:109-125 | keeps the sheet's shape; a completed release names the row `find` gives for the ID text; an unfound ID fails with nothing written; a refused write is one of the two release writes. Further properties: `ReleaseSucceedsExactly`, `ReleaseWritesTwoCells`, `ReleaseFinishesAssignment` |
| `TicketSheet.Worksheet.UpdateCell` | app.py:157 | a cell is written exactly when the store accepts the call and the cell is inside the grid; otherwise nothing changes |
| `TicketSheet.Worksheet.ClaimNext` | app.py:139-169 | the outcome and the new sheet are those of `Queue.Claim` on the sheet before: re-read, choose, find, then three writes with an early exit |
| `TicketSheet.Worksheet.Release` | app.py:109-125 | the outcome and the new sheet are those of `Queue.Release`: find, then two writes with an early exit |
| `Session.Roster` | app.py:45-47 | the names are the first column without its header; a header-only or empty column gives no names |
| `Session.Choices` | app.py:49 | the list offers a blank entry first, then exactly the roster names: every roster name is offered and every non-blank entry is a roster name |
| `Session.SessionState.Login` | app.py:49-56 | login succeeds exactly for a non-blank pick, which is then the session's agent and a roster name; a blank pick changes nothing |
| `Session.SessionState.Logout` | app.py:65-67 | logout empties the session slot |
| `QueueProperties.LayoutReads` | app.py:118 | under the standard layout, Status and Responsavel are the cells of columns 3 and 4 |
| `QueueProperties.ClaimTakesFirstUnclaimed` | app.py:142-153 | a completed claim chose the first "Pendente" record with an empty Responsavel and wrote to the row `find` gives for its ID text |
| `QueueProperties.ClaimNoneAvailableExactly` | app.py:142-147 | the claim reports no ticket exactly when the columns exist and no record is both "Pendente" and unassigned; it then writes nothing |
| `QueueProperties.ClaimSucceedsExactly` | app.py:151-165 | once located, a claim completes exactly when the store accepts all three writes and the row, as read, reaches column 5 |
| `QueueProperties.ClaimInterrupted` | app.py:157-165 | a located claim cut off after `accepted` < 3 writes, each inside the row as read, reports the next claim write as refused, and the sheet is the first `accepted` writes applied |
| `QueueProperties.ClaimWritesApplied` | app.py:157-159 | the three claim writes set columns 3, 4, 5 of the row to "Em Andamento", the agent and `now`, and change no other cell |
| `QueueProperties.ClaimWritesThreeCells` | app.py:152-159 | a completed claim sets Status, Responsavel and start time of the located row, and no other cell of the sheet changes |
| `QueueProperties.ClaimWritesChosenTicket` | app.py:149-153 | when the candidate's ID text is in no other row, the claim writes to the candidate's own row |
| `QueueProperties.ClaimCanLandOnAnotherTicket` | app.py:152-159 | a sheet where an ID text also fills an earlier ticket's Dados cell: the claim rewrites that finished ticket to "Em Andamento" |
| `QueueProperties.OtherRecordsUnchanged` | app.py:157-159 | records other than the rewritten one read the same Status and Responsavel |
| `QueueProperties.TakingKeepsInvariants` | app.py:157-158 | a free agent taking a record keeps "Responsavel empty exactly while Pendente" and "one ticket per agent", and then holds exactly that record |
| `QueueProperties.FinishingKeepsInvariants` | app.py:118-119 | moving a record from "Em Andamento" to "Concluido" under the same Responsavel keeps both invariants and frees its agent |
| `QueueProperties.ClaimWritesRewriteRow` | app.py:157-159 | the three completed claim writes to a record's row change only that row, which then reads "Em Andamento" under the agent |
| `QueueProperties.ClaimedRowRewritten` | app.py:152-159 | a completed claim whose located row is a record changes only that row, which then reads "Em Andamento" under the agent |
| `QueueProperties.ClaimFrame` | app.py:152-159 | a completed claim on a uniquely identified record rewrites only that record, from "Pendente" and unassigned to "Em Andamento" under the agent |
| `QueueProperties.ClaimMakesItMine` | app.py:128-159 | a free agent's completed claim makes the chosen record their assignment and keeps both invariants |
| `QueueProperties.InterruptedClaimBreaksConsistency` | app.py:157-165 | when the second write is refused, the ticket stays "Em Andamento" with an empty Responsavel, breaking the invariant |
| `QueueProperties.ReleaseWritesTwoCells` | app.py:112-119 | a completed release writes "Concluido" and `now` to columns 3 and 6; Responsavel, start time and every other cell are unchanged |
| `QueueProperties.ReleaseSucceedsExactly` | app.py:111-125 | a release completes exactly when the ID text is found, both writes are accepted and the row reaches column 6; an unfound ID writes nothing |
| `QueueProperties.ReleaseInterrupted` | app.py:112-125 | a found release cut off after `accepted` < 2 writes, each inside the row as read, reports the next release write as refused, and the sheet is the first `accepted` writes applied |
| `QueueProperties.ReleaseCanFinishAnotherTicket` | app.py:109-119 | a sheet where an agent's ticket ID "9" is also an earlier pending ticket's Dados text: the release completes on that earlier row, which becomes "Concluido" with an empty Responsavel, the agent's ticket stays "Em Andamento", and the sheet is no longer consistent |
| `QueueProperties.ReleaseFrame` | app.py:112-119 | a completed release whose located row is a record changes only that row, which then reads "Concluido" under the same Responsavel |
| `QueueProperties.ReleaseFinishesAssignment` | app.py:91-119 | finishing the shown ticket with a unique ID moves it from "Em Andamento" to "Concluido" under the same agent, frees the agent and keeps both invariants |
| `QueueProperties.FreeExactlyWithoutAssignment` | app.py:82-92 | the dashboard shows the agent as free exactly when no record is "Em Andamento" under their name |
| `QueueProperties.ClaimableIsCounted` | app.py:129-148 | a record a claim could take is counted as pending, so a hidden claim button means nothing was claimable |
| `QueueProperties.OfferedClaimCanFindNothing` | app.py:129-147 | a sheet whose only "Pendente" record already has a Responsavel: the claim is offered and the claim finds nothing |
| `QueueProperties.TrackerLinkOfAssignment` | app.py:93-104 | without a Dados column the ticket shows "N/A" and no link; otherwise the link is the prefix and the Dados text |

## Left out

- Streamlit rendering, spinners, toasts, `time.sleep` and `st.rerun`. These are screen flow. `st.stop` after an empty or malformed sheet is the `EmptySheet` and `MissingColumns` views.
- Credentials, `st.secrets` and opening the spreadsheet and its two worksheets. This is connection plumbing with no queue logic.
- `datetime.now().strftime(...)`. The timestamp is an opaque `now` string.
- A failed `get_all_records` read. It raises outside any handler and ends the script, so the model only covers reads that return.
- gspread turning numeric-looking cells into numbers in records. The model compares cells as text, so `str(ID)` is the cell's text.
- gspread trimming trailing blank rows and columns. The grid is taken to be exactly what a read returns.
- `TicketSheet.Worksheet.UpdateCell`: a write past the last column (or row) a read returns is modelled as refused. The store accepts it anywhere within the worksheet's own size, which is not modelled. For example, a sheet whose header ends at Responsavel makes the model's claim fail at the start-time write, where the source completes it.
- `QueueProperties.ClaimSucceedsExactly`: its "row reaches column 5" condition comes from the refused-write rule above, not from the source. The source needs only the three accepted calls.
- `QueueProperties.ReleaseSucceedsExactly`: its "row reaches column 6" condition comes from the same rule. The source needs only the found row and the two accepted calls.
- The store parsing written values as user input. A written cell holds exactly the written text.
- Newer gspread versions reject duplicate headers. The model uses the record-dictionary rule, where the last column wins.
- A failed read of the roster column, which the source replaces by an empty list. This is the `column` parameter being empty.
- Races between agent sessions writing to the same sheet. That is concurrency against an external store, not a sequential property. Each action runs alone on the worksheet.
- Error message texts and exception details. A failure is a `Failure` value, and the writes made before it stay.
