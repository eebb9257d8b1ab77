# esp_tsdb: a verified model of the ring-buffer time-series store

esp_tsdb keeps a time series in one file: a header, a sparse time index, fixed-size data blocks used as a ring, and
optionally an overflow region with extra columns. This project models the file byte by byte, the operations that change
it, the crash-recovery files beside it and the tasks that share a handle, and proves what a user of the store relies on.

The abstract state is a log of rows. A write appends a row; nothing ever removes one from the log. The central statement
is that at every point of every run the readers see exactly the newest rows of the log, in order, under the current
schema, and that a power cut at any file step leaves the state before or after the interrupted operation. Where the code
does not keep to this, the project states on which inputs, and exactly when it does.

How the files fit together:

- `Arith`, `Bytes`, `Layout`, `Storage`: arithmetic, files as byte strings, the columnar block, the header and the
  addressing of ring slots.
- `Ring`, `Database`: one write, with eviction, both capacity caps, the retry and the overflow append; as functions with
  their invariant, and as the class whose method runs it in place.
- `Retained`, `Query`, `Aggregate`: what readers see, the query cursor with its binary seek, aggregation.
- `Index`, `IndexSearch`, `IndexRuns`: rebuilding the sparse index at fold time against the index kept up to date by
  every write, and the search over it.
- `Plan`, `Rewrite`, `Swap`, `SwapOpen`: space budget, streaming rewrite and the file swap of schema migration and
  resize, and the open that follows a cut swap.
- `Overflow`, `OverflowMigration`: the region of extra columns.
- `Unsynced`: the file on disk while the extras of the newest record have not reached it.
- `Engine`, `Reopening`: runs of all operations that change the database, together with the slot files beside it, and
  when a reopen finds the current header.
- `Operate`: every operation that a caller may ask for, carried out as a step of such a run.
- `Sidecar`, `SidecarHandle`, `Arbitration`, `Crc`, `SlotFile`: header persistence in slot files, power cuts between any
  two file steps, coexistence with older versions, checksums.
- `CrashWrite`, `CrashRuns`, `CutQuery`: power cuts inside a write, runs with any number of them, and queries on what
  they leave.
- `Lifecycle`: handles, the recycler, the generation stamp and the mutex among any number of tasks.
- `BufferPool`: paged and contiguous buffers as one flat array.

Hypotheses, stated as `requires` where they are used.

- Only a write that makes the file longer can be refused (`Env`). A block written in place succeeds, since an evicting
  write has already moved the oldest slot (`Retained.FailedEvictionRotates` shows what a failure would do).
- Record counts stay below 2^32. A header that is to survive a reopen in the sidecars passes the sanity check, which
  fails once the record count exceeds twice the capacity (`Sidecar.ReopenBound`).
- An overflow region is added only behind the end of the ring (`Overflow.OverlapIff` shows that this is exact,
  `Overflow.UnlimitedOverlaps` that an unlimited database has no safe place for one). The extra columns are migrated only
  while no refused append is missing at the end of the file (`OverflowMigration.MissingExtrasKeptIff`). Queries for all
  columns and rewrites see at most 64 columns (`Engine.ColumnBound`).
- Slot files and in-file headers are written completely or not at all, a slot cut short being recognised by its length or
  its CRC (`SlotFile`). Slot files can be written (`Sidecar.FailedWriteExposes` shows when a failure costs a header).
- A reopen is a step of a run of `Engine` only where it finds the current header (`Engine.StepTo`). It does after a stored
  record or a fold (`Reopening.RunSettled`). A slow resize, a schema migration and a change of the overflow columns change
  the header in the file alone; until the next stored record or fold a reopen finds it exactly when the slots offer it
  too, or nothing that is adopted (`Reopening.FindsIff`, `Sidecar.InFileChangeIff`, `SwapOpen.CutRewrite`), and with the
  old header in a slot it is undone (`Reopening.AddColumnsUndone`, `Reopening.ResizeUndone`). A sync beforehand removes the
  slots (`Sidecar.SyncedChange`).
- The rename of the recovery succeeds (`Swap.FailedRename` shows what happens otherwise). A handle has one closer per
  incarnation.

Places where the code differs from what is written about it, and the model follows the code.

- CHANGELOG.md:104 lists crash-safe overflow writes. The extras of a record are neither flushed nor synced before the
  sidecar makes the record count durable, so that a cut can leave the new header without them (`CrashWrite.ExtrasLost`,
  `CrashWrite.CutKeepsRowIff`). A full file system has the same effect on a write that reports success
  (`Ring.StoredAsGiven`). The line also lists crash-safe migrations: a later migration of the extra columns reads the
  missing values from the header of its own new region (`OverflowMigration.MissingExtraShowsMagic`).
- The changelog says that a sidecar is adopted only when it is strictly ahead of the header in the file; the code also
  adopts one that counts as many records, which is what undoes a change of the header in the file
  (`Sidecar.FieldChangeIff`, `Sidecar.SwapChangeIff`).
- A rewrite that meets an unreadable block means to keep what it has; the records behind the last full block are counted
  in the new header but not in the new file (`Rewrite.StoppedWholeIff`).
- The comment on the slot formats says that the CRC detects a torn slot; it does not cover the sequence number
  (`SlotFile.SequenceUncovered`).
- The trim comment says that the ring must not outgrow the space that was proved; for an unlimited database the enlarged
  index can (`Plan.TrimUnlimited`, `Plan.TrimUnlimitedCanOverrun`).
- README.md:220 of the repository promises up to 64 columns in all; a migration of the extra columns can exceed them
  (`Engine.TooManyColumns`).
- The query code takes the walk to be in ascending order of time. After an evicting write was cut before its sidecar it is
  not, and a query can miss every matching row until the next write (`CutQuery.QueryLosesRows`,
  `CutQuery.QueryAfterCut`).
- Creation accepts capacities and strides that its own sanity check refuses at the next open (`Engine.CreatedSaneIff`).

## Model

| member | source | states |
|---|---|---|
| `Engine.RunShowsNewest` | src/tsdb_write.c:105-304 | At every point of every run of writes (with free-space caps, refused growth, retries), folds, fast and slow resizes, schema migrations, overflow changes and reopens that find the current header (`Reopening.RunSettled`, `Reopening.FindsIff`), the readers see exactly the newest rows of the log, in order, fitted to the current columns, as many as were counted or as the capacity holds; the oldest slot is the count modulo the capacity once full and 0 before; oldest and newest timestamps and the newest slot in the header are those of the first and last of these rows. The log gets each row as written, save extras whose append was refused (`Ring.StoredAsGiven`) or that a power cut caught unsynced. |
| `Engine.NextKeeps` | src/tsdb_migrate.c:518-565 | Each of these operations, a reopen under the current header included, keeps the ring invariant for the log it leaves behind. |
| `Engine.RunKeeps` | src/tsdb_write.c:105-304 | The ring invariant holds after any number of operations, reopens that find the current header among them. |
| `Engine.ResizeKeeps` | src/tsdb_migrate.c:537-557 | The header-only resize is sound whenever the layout is linear and the new capacity covers all records. |
| `Engine.RewriteStepKeeps` | src/tsdb_migrate.c:233-288 | A rewrite refused by its budget changes nothing; any other leaves the newest rows of the log under the new schema. |
| `Engine.RewrittenLog` | src/tsdb_migrate.c:356-391 | Taking the newest rows and changing the schema commute. |
| `Engine.ReshapeKeepsRows` | src/tsdb_migrate.c:233-253 | Without a budget, or where a copy of all rows to be kept fits it, a resize and a schema migration keep every row that the asked capacity holds, the newest ones, under the asked columns, whichever way they go; the capacity becomes the asked one, and a rebuilt file has exactly the bytes planned for. |
| `Engine.ReshapeTrims` | src/tsdb_migrate.c:255-288 | Otherwise a rebuild is refused if and only if it may not trim or not one block fits; else it keeps as many whole blocks of the newest rows as fit beside the index, one more would exceed the budget, and the capacity becomes their number. |
| `Engine.ReshapeHeaderOnly` | src/tsdb_migrate.c:526-557 | Where the layout is linear and the new capacity covers all records without extras, or the schema is there already, nothing but the capacity changes, and no byte behind the index. |
| `Reopening.FindsIff` | src/tsdb_core.c:834-858 | In any state of a run whose header is sane, a reopen finds the current header if and only if the slots offer it, or offer nothing that is adopted. |
| `Reopening.StepKeepsNode` | src/tsdb_core.c:185-238 | Every operation leaves the current header in the file or offered by the slots, and the handle numbering past all slots. |
| `Reopening.StepSettles` | src/tsdb_core.c:834-858 | Stored records and folds make a reopen find the current header; only a change of the header in the file alone can undo that. |
| `Reopening.RunSettled` | src/tsdb_core.c:834-858 | In every run in which a stored record or a fold follows each such change, a reopen finds the current header, if it is sane. |
| `Reopening.ChangeUndone` | src/tsdb_core.c:839-852 | With the current header in a slot, a change in the file that keeps the geometry is undone by the next open. |
| `Reopening.AddColumnsUndone` | src/tsdb_core.c:1427-1437 | Extra columns added beside a live slot are gone after a reopen. |
| `Reopening.ResizeUndone` | src/tsdb_migrate.c:463-495 | After a slow resize of unchanged geometry beside a live slot a reopen has the old capacity over the new file. |
| `Reopening.CreatedNode` | src/tsdb_core.c:1044-1057 | A created database starts without slots, so that a reopen finds it. |
| `Reopening.SaneStays` | src/tsdb_core.c:55-97 | After a stored record a sane header is sane if and only if its capacity is within bounds and its count at most twice the capacity. |
| `Reopening.SaneExtras` | src/tsdb_core.c:55-97 | A change of the extra columns keeps a header sane if and only if there are at most 48. |
| `Reopening.SaneRewritten` | src/tsdb_core.c:55-97 | A rewritten header is sane if and only if its capacity and its index are within bounds. |
| `Engine.CreatedHolds` | src/tsdb_core.c:1059-1134 | A created file satisfies the ring invariant with an empty log, for every column count, capacity and stride. |
| `Engine.CreatedSaneIff` | src/tsdb_core.c:55-97 | A created header passes the sanity check of the next open if and only if the capacity is at most 100 million and the index at most 0x100000 entries. |
| `Engine.CreatedAsAsked` | src/tsdb_core.c:1059-1134 | The created header has the asked columns, capacity, stride and names, counters at zero, and an index up to the capacity. |
| `Engine.ColumnBound` | src/tsdb_core.c:1452-1456 | Every operation keeps the number of columns within 64, except that a migration of the extra columns does so if and only if base and new extra columns together are at most 64. |
| `Engine.TooManyColumns` | src/tsdb_core.c:1452-1456 | Sixty base columns with four extras migrated to forty-eight make 108. |
| `Engine.ExtrasFollowNames` | src/tsdb_core.c:1465-1622 | For every request, carried out, skipped or dropping the region, and distinct stored names: each row keeps timestamp and base columns, and its extras are the old ones by name, zeros for new names. |
| `Engine.NothingMigratedIff` | src/tsdb_core.c:1505-1521 | Nothing is written if and only if the request has as many names as are stored and each agrees with the one at its place in its first nineteen characters. |
| `Operate.PerformWrite` | src/tsdb_write.c:78-104 | A write of as many values as there are columns is always a step of a run. |
| `Operate.PerformFold` | src/tsdb_core.c:387-452 | So is a fold. |
| `Operate.PerformResize` | src/tsdb_migrate.c:518-565 | So is a resize to any capacity within any budget, with at most 64 columns. |
| `Operate.PerformMigrateSchema` | src/tsdb_migrate.c:504-516 | So is a migration from any to any schema of at most 64 columns. |
| `Operate.PerformAddColumns` | src/tsdb_core.c:1380-1450 | So is adding extra columns behind a ring laid out in full. |
| `Operate.PerformMigrateColumns` | src/tsdb_core.c:1452-1622 | So is a migration of the extra columns to any others or none, with no extras missing. |
| `Operate.PerformReopen` | src/tsdb_core.c:834-858 | So is a reopen that finds the current, sane header. |
| `Unsynced.LaggingKeeps` | src/tsdb_write.c:236-252 | A file that lacks the unsynced extras of the newest record holds every row; only that row shows in their place what the file had there, zeros at its end. |
| `Ring.WriteKeeps` | src/tsdb_write.c:105-281 | One write appends its row to the log exactly when it succeeds and keeps the newest rows in their slots; at most one retry; it fails if and only if the file must grow and may not, the guard did not fire, and the refusal is no lack of space, or the cap is used up or has no record to fall back on. |
| `Ring.WriteCaps` | src/tsdb_write.c:105-234 | The capacity is cut to the record count if and only if the reserve is breached where the next record starts a block of a filling ring, or space runs out with records to fall back on, once per handle; only the second costs a retry. |
| `Ring.WriteCounts` | src/tsdb_write.c:143-160 | A successful write counts one record and one write, and an eviction if and only if the capacity it ends with was full already. |
| `Ring.StoredAsGiven` | src/tsdb_write.c:236-252 | A successful write reads back as given if and only if the append of its extras need not grow the file or is not refused, or the extras are zeros; otherwise they read as zeros. |
| `Ring.StoreKeeps` | src/tsdb_write.c:140-234 | The same for the block write with its jump back after a refused growth. |
| `Ring.StoredKeeps` | src/tsdb_write.c:143-281 | Storing one record turns the newest rows of the log into the newest rows of the longer log, with the extras that reached the file. |
| `Ring.CapKeeps` | src/tsdb_write.c:112-138 | Cutting the capacity to the record count leaves every row readable in its place. |
| `Ring.TornKeeps` | src/tsdb_write.c:206-229 | Whatever a refused growth leaves in the missing block, no stored row is affected. |
| `Ring.GrowthOnlyWhileFilling` | src/tsdb_write.c:206-211 | The block write of an evicting write, and of any write beside an overflow region, never makes the file grow, so the retry always succeeds. |
| `Ring.SlotSurvives` | src/tsdb_write.c:143-162 | The slot written is never the slot of another record that stays in the window. |
| `Ring.ExtrasSurvive` | src/tsdb_write.c:236-252 | Neither the block write nor the append of new extras changes what is read as the extras of an older record, also where they are missing at the end of the file. |
| `Ring.ExtrasMissBlocks` | src/tsdb_write.c:236-252 | Appending extras never touches a block of the ring. |
| `Ring.EvictedTimestamp` | src/tsdb_write.c:260-281 | After an eviction the header's oldest timestamp is that of the new oldest row. |
| `Database.Database.ReadBlock` | src/tsdb_write.c:21-37 | Delivers the block, or fails and changes nothing, exactly as the file is long enough. |
| `Database.Database.PrepareBlock` | src/tsdb_write.c:178-189 | The buffer holds the stored block, or a zeroed one when it is missing or lacks its magic. |
| `Database.Database.WriteBlock` | src/tsdb_write.c:45-75 | Writes the block in place; only growth can be refused, for want of space or for another reason. |
| `Database.Database.StoreBlock` | src/tsdb_write.c:140-234 | The in-place retry loop computes the specified block write and retry count. |
| `Database.Database.AppendRow` | src/tsdb_write.c:236-252 | Appends the extras where they belong, or leaves the file alone when growth is refused. |
| `Database.Database.Advance` | src/tsdb_write.c:254-295 | Counts the record, refreshes slots and timestamps and marks the index stale. |
| `Database.Database.Write` | src/tsdb_write.c:105-304 | The in-place write computes the specified write: new header, file, flags, result. |
| `Layout.FitsExactly` | include/esp_tsdb.h:255-263 | All column cells lie inside the block if and only if 8 + rpb*(4 + 2*np) is at most 1024. |
| `Layout.RecordsPerBlock` | src/tsdb_core.c:1070-1075 | The creation and rewrite formula gives the largest record count that fits. |
| `Layout.CellsApart` | include/esp_tsdb.h:261-263 | Different parameter cells share no byte. |
| `Layout.CellInside` | include/esp_tsdb.h:261-263 | Timestamps and parameters lie behind the block header, the columns behind the timestamps, all inside the block. |
| `Layout.ColumnsContiguous` | include/esp_tsdb.h:255-263 | The block is laid out by columns: timestamps from byte 8, then column after column, without a gap. |
| `Layout.GetPutRow` | src/tsdb_write.c:191-197 | Reading back a stored record gives it, and every other record of the block is unchanged. |
| `Layout.GetStoreRecord` | src/tsdb_write.c:191-202 | The same with the record count updated, and the magic kept. |
| `Layout.StoredCount` | src/tsdb_write.c:199-202 | The record count of the block covers the stored record and is never lowered. |
| `Layout.FreshHoles` | src/tsdb_write.c:182-189 | The other records of a fresh block read as holes. |
| `Layout.StoreInPlace` | src/tsdb_write.c:191-202 | The in-place store on the block buffer computes this. |
| `Storage.SaneGeometryFits` | src/tsdb_core.c:55-97 | A header that passes the sanity check describes columns that fit the block. |
| `Storage.SaneIsSafe` | src/tsdb_core.c:55-97 | A sane header has no zero divisor, at most 64 base and 48 extra columns, and bounded index and record sizes. |
| `Storage.WriteSlotRow` | src/tsdb_write.c:159-205 | Writing a slot puts the record there and leaves every record of every initialised block alone. |
| `Storage.OffsetsExact` | src/tsdb_core.c:457-461 | The 32-bit block offsets are exact for the whole ring if and only if its last block starts below 4 GiB. |
| `Retained.LogicalOrder` | src/tsdb_query.c:142-160 | Walking slots from the oldest one modulo the capacity visits the retained records in the order they were written. |
| `Retained.ViewIsNewest` | src/tsdb_query.c:154-160 | The readers' view is the newest rows of the log, zero-padded where a column is younger than a row. |
| `Retained.FailedEvictionRotates` | src/tsdb_write.c:151-157 | If an evicting block write failed after the oldest slot moved, every row would be read one place too early and the oldest last. |
| `Query.RunQuery` | src/tsdb_query.c:194-284 | Draining a query delivers what the binary seek and the walk with its early end come to, for rows in any order. Where timestamps do not decrease these are exactly the retained rows with nonzero timestamp in the window, in order: whole rows when no columns are named (and there are at most 64), otherwise at place i the i-th named column of the row, 0 behind the last one. Errors exactly for an inverted window or too many columns. |
| `Query.SelectPicks` | src/tsdb_query.c:243-277 | The specified selection is of exactly the positions in the window with nonzero timestamp, in order, column by column. |
| `Query.DeliveredOrdered` | src/tsdb_query.c:33-58 | Over ascending rows, with holes or without, neither the seek nor the early end changes the result of the plain full walk. |
| `Query.ProbeOrdered` | src/tsdb_query.c:33-58 | Over ascending rows everything before the position found is too old; without holes it is the first row in range. |
| `Query.WalkOrdered` | src/tsdb_query.c:231-246 | Over ascending rows the early end of the walk loses nothing. |
| `Query.Cursor.SeekStart` | src/tsdb_query.c:33-58 | The in-place search computes the specified one, with its fall-back to 0 at a hole. |
| `Query.Cursor.Init` | src/tsdb_query.c:60-192 | The positioned cursor has still to deliver what the query delivers in all, of the named columns or of every column at its place. |
| `Query.Cursor.Next` | src/tsdb_query.c:194-284 | Delivers the first of the remaining rows and leaves the rest; it reports the end exactly when nothing remains. |
| `Query.Cursor.Advance` | src/tsdb_query.c:231-241 | Moves one logical position on, keeping a loaded block only while it is the right one. |
| `Query.Cursor.Emit` | src/tsdb_query.c:250-277 | Base values from the block and extras read one by one from the overflow region are the requested columns of the row. |
| `Query.SkipOld` | src/tsdb_query.c:169-184 | Starting a walk behind rows that are too old changes nothing. |
| `Query.StopLate` | src/tsdb_query.c:245-246 | Stopping at the first row past the window loses nothing when timestamps do not decrease. |
| `Aggregate.AggregateOne` | src/tsdb_query.c:347-435 | The result is the sum, the average with its fraction cut off, minimum, maximum, count, first or last of the column's values in the window, 0 when there are none. |
| `Aggregate.AggregateMany` | src/tsdb_query.c:437-551 | In one pass, every request gets the aggregate that a separate call gives. |
| `Aggregate.AggregateUnique` | src/tsdb_query.c:397-429 | The definition of an aggregate determines it, so single and multiple aggregation agree. |
| `Aggregate.TruncDivTruncates` | src/tsdb_query.c:408-410 | The signed division goes into the size of the sum as often as it fits, with the sign of the sum. |
| `Aggregate.SumAdds` | src/tsdb_query.c:388-393 | The sum of two stretches is the sum of their sums. |
| `Aggregate.Int32Wraps` | src/tsdb_query.c:405-407 | The conversion of a result changes it by a multiple of 2^32. |
| `Aggregate.ColumnAlone` | src/tsdb_query.c:493-511 | A query for several columns delivers each as a query for it alone does. |
| `Aggregate.AverageBetween` | src/tsdb_query.c:408-410 | The average, truncated toward zero, lies between minimum and maximum. |
| `Aggregate.SumFits64` | src/tsdb_query.c:370-393 | The 64-bit sum cannot overflow. |
| `Aggregate.SumExact` | src/tsdb_query.c:405-407 | The 32-bit SUM is exact for up to 65536 rows. |
| `Aggregate.SumCanWrap` | src/tsdb_query.c:405-407 | With any number of rows above 65536 it can wrap around. |
| `Aggregate.SumExactIff` | src/tsdb_query.c:405-407 | The 32-bit SUM of n rows is exact whatever they hold if and only if n is at most 65536. |
| `Index.RebuildIndex` | src/tsdb_core.c:365-379 | The in-place loop computes the rebuilt index. |
| `Index.FoldedIndex` | src/tsdb_core.c:387-429 | A fold within the buffer limit leaves on disk exactly the index that one update per stride-aligned write gives. |
| `Index.FoldBeyondLimit` | src/tsdb_core.c:403-412 | Beyond the limit the fold leaves the index on disk as it was. |
| `Index.FoldKeeps` | src/tsdb_core.c:413-429 | A fold leaves every record and every extra where it was. |
| `Index.WriteIndex` | src/tsdb_write.c:283-295 | Over a write with its caps and retry, marking the index stale is enough: the reference index describes what the slots hold, and equals the one on disk wherever nothing is stale. |
| `IndexRuns.NextKeepsIndex` | src/tsdb_core.c:361-428 | Every operation on an open database keeps this, including rewrites and resizes. |
| `IndexRuns.StepKeepsIndex` | src/tsdb_core.c:834-858 | So does a reopen, which calls the index stale exactly when it adopts a slot: where it does not, the index on disk is the reference index, even if the handle called it stale. |
| `IndexRuns.FoldAfterRun` | src/tsdb_core.c:361-428 | After any run, wraps, caps, power cuts between operations and reopens that find the current header included, a fold produces the per-write index. |
| `IndexRuns.SmallIndexFolds` | src/tsdb_core.c:381-412 | A database whose header and index take up at most 16 KiB always folds within the limit. |
| `IndexRuns.CreatedIndex` | src/tsdb_core.c:1128-1134 | A created database starts with an empty index. |
| `IndexRuns.NextKeepsTail` | src/tsdb_write.c:283-295 | Every operation leaves the entries of slots without a record empty. |
| `IndexRuns.LookUp` | src/tsdb_index.c:20-111 | From creation through any run that leaves a ring that has not wrapped, with nonzero strictly increasing timestamps, and a fold: for every timestamp the search returns the block of the last indexed row of the log not after it, the first block before the first row, the last one after the last row. |
| `IndexRuns.LookUpFolded` | src/tsdb_index.c:57-110 | The same for one folded database. |
| `IndexSearch.FindBlock` | src/tsdb_index.c:20-111 | Of any index, also a wrapped or cut off one, the search inside the time bounds returns the block of an entry not after the target, or 0; of a usable index that of the last such entry; outside the bounds the oldest or newest block; a zero geometry is reported. |
| `IndexSearch.NeverWrapped` | src/tsdb_index.c:57-110 | On a never-wrapped database with strictly increasing nonzero timestamps the folded index is what the search needs, and its entries are every stride-th row with its block. |
| `IndexSearch.TouchKeepsEmptyTail` | src/tsdb_write.c:292-295 | Entries of slots that hold no record stay empty. |
| `Plan.TrimFits` | src/tsdb_migrate.c:255-288 | For a bounded capacity over budget: refused if and only if trimming is not allowed or not even one block fits; otherwise fewer records than wanted, capacity and count equal, and the full ring within the budget. |
| `Plan.TrimExact` | src/tsdb_migrate.c:255-288 | Trimming takes as many whole blocks as fit beside the index, and is refused if and only if it is not allowed or not one fits. |
| `Plan.BudgetReserve` | src/tsdb_migrate.c:255-257 | The reserve is five percent of the free space, in whole hundreds of bytes. |
| `Plan.IndexCovers` | src/tsdb_migrate.c:252-253 | The index has an entry for every stride-th slot up to the capacity, and no more. |
| `Plan.NamesFit` | include/esp_tsdb.h:31-37 | The names of the columns beyond the sixteenth lie between header and index. |
| `Plan.TrimUnlimited` | src/tsdb_migrate.c:277-286 | An unlimited database over budget is refused if and only if trimming is not allowed or not even one block fits; otherwise capacity and count are the number of records that fit, and the trimmed file fits if and only if their index entries beyond 256 fit into what the last block left over. |
| `Plan.TrimUnlimitedCanOverrun` | src/tsdb_migrate.c:277-286 | A database where it does not. |
| `Plan.PlanSound` | src/tsdb_migrate.c:233-288 | No plan keeps more than there is or than the new ring holds. |
| `Rewrite.FindColumn` | src/tsdb_migrate.c:207-220 | The first old column with a matching name, or none if no name matches. |
| `Rewrite.SameNameIff` | src/tsdb_migrate.c:207-216 | The first sixteen names are compared whole, the others by their first nineteen characters. |
| `Rewrite.ReadRecord` | src/tsdb_migrate.c:72-113 | Reads the k-th retained row, base and extras, through the cached block; fails exactly when its block cannot be read. |
| `Rewrite.StreamOne` | src/tsdb_migrate.c:387-423 | One record out keeps all streamed rows, in the file or in the output block, and their index entries, unless the write of the block is refused. |
| `Rewrite.StreamRows` | src/tsdb_migrate.c:356-433 | The copy puts every selected row, mapped, into its slot of the new file, for any wrap position and geometry; it stops at the first record that cannot be read, with only the full blocks of the rows so far in the file. |
| `Rewrite.RewriteDatabase` | src/tsdb_migrate.c:311-450 | The whole rewrite yields the new header and file, the stopped copy when a record cannot be read, and nothing when a block write is refused. |
| `Rewrite.StoppedReadable` | src/tsdb_migrate.c:378-384 | After an early stop row k of the new database can be read, and is the mapped old row, if and only if it lies in a full block. |
| `Rewrite.StoppedWholeIff` | src/tsdb_migrate.c:378-384 | Such a database can be read in full if and only if the copied records fill their blocks. |
| `Rewrite.RewrittenKeeps` | src/tsdb_migrate.c:439-450 | The rewritten database satisfies the ring invariant with the newest retained rows. |
| `Rewrite.RewrittenHeader` | src/tsdb_migrate.c:311-345 | The new header has the asked columns and names, the old stride, and counters that start with the rows kept. |
| `Rewrite.RewritePreservesRows` | src/tsdb_migrate.c:356-450 | Row k, column i of the new view is row skip + k, column map[i] of the old view, or 0 for an unmatched name. |
| `Rewrite.RewrittenIndex` | src/tsdb_migrate.c:395-404 | The index streamed into the new file is the reference index. |
| `Swap.CutAnywhere` | src/tsdb_migrate.c:119-157 | Cut after any step of rewrite and swap, or inside the recovery, the next open puts the complete old or the complete new file in place. |
| `Swap.OpenAdoptsWhole` | src/tsdb_migrate.c:128-156 | The recovery adopts only complete databases and leaves no copy behind. |
| `Swap.RunStands` | src/tsdb_migrate.c:463-477 | After any sequence of completed, aborted and interrupted rewrites the main file is complete and current. |
| `Swap.FailedRename` | src/tsdb_migrate.c:147-152 | The database survives two opens if and only if the original is still there or the rename of the recovery succeeds. |
| `Swap.Engine.RewriteAndSwap` | src/tsdb_migrate.c:295-477 | Every intermediate file state leaves one complete database standing, also when the copy cannot be written or not be renamed. |
| `SwapOpen.CutRewrite` | src/tsdb_migrate.c:463-495 | With the slot files weighed in, the open after a cut presents the old database until the original is unlinked; from then on the new file, and the new header if and only if the slots offer nothing, the new header, another geometry or fewer records. With the old header in a slot: if and only if the geometry changed. |
| `SwapOpen.CutSyncedRewrite` | src/tsdb_migrate.c:463-495 | After a sync every cut leaves the complete old or the complete new database. |
| `Overflow.OverlapIff` | src/tsdb_core.c:1401-1403 | Block writes of a bounded ring never meet the overflow region if and only if it starts at or behind the end of the ring. |
| `Overflow.UnlimitedOverlaps` | src/tsdb_core.c:1401-1403 | An unlimited database eventually overwrites any overflow region. |
| `Overflow.AddExtrasKeeps` | src/tsdb_core.c:1380-1450 | Adding the region behind the ring keeps all rows, with zeros in the new columns. |
| `Overflow.AddExtrasIff` | src/tsdb_core.c:1380-1403 | The region is added if and only if there are 1 to 48 columns, at most 64 with the base columns, and none yet; it starts at the end of the file with the next record. |
| `OverflowMigration.FindExtra` | src/tsdb_core.c:1523-1537 | The first old extra with the same stored name, or none. |
| `OverflowMigration.MatchesIff` | src/tsdb_core.c:1505-1521 | A request counts as matching if and only if it has as many names and each is the stored one at its place. |
| `OverflowMigration.CopyRows` | src/tsdb_core.c:1563-1609 | Copies any number of rows under the column map, each read from the file as it is by then, zeros behind its end; no byte of the old file changes. |
| `OverflowMigration.MigrateOverflow` | src/tsdb_core.c:1490-1622 | Up to the final header write every byte of the old file is unchanged; a request with the stored names at their places does nothing, and any other is carried out. |
| `OverflowMigration.MigrationPreservesRows` | src/tsdb_core.c:1588-1622 | A reader sees the same base columns, and extras copied by name with zeros for new names, of every record whose extras are in the file. |
| `OverflowMigration.MissingExtrasReadRegion` | src/tsdb_core.c:1577-1596 | Every record whose extras are missing at the end of the file, within 1024 bytes of it, gets the bytes of the header of the new region that come to stand there. |
| `OverflowMigration.MissingExtrasKeptIff` | src/tsdb_core.c:1577-1596 | It keeps its zeros if and only if every column carried over lies on zero bytes of that header. |
| `OverflowMigration.MissingExtraShowsMagic` | src/tsdb_core.c:1577-1596 | With the first extra column carried over the first such record shows half of the magic. |
| `OverflowMigration.MigratedKeeps` | src/tsdb_core.c:1611-1622 | The migrated database satisfies the ring invariant under its new columns. |
| `OverflowMigration.DropKeeps` | src/tsdb_core.c:1473-1488 | Dropping the region keeps the base columns of every row. |
| `OverflowMigration.DropShowsBase` | src/tsdb_core.c:1473-1488 | A reader then sees the base columns. |
| `Sidecar.RunRecovers` | src/tsdb_core.c:185-359 | In every run of writes, syncs, closes and reopens with power cuts between any two file steps, the current header is that of the last write whose compact slot was completed, never an older one, and a reopen yields it. |
| `Sidecar.WriteCut` | src/tsdb_core.c:185-238 | After each file step of a write the disk holds the header before it (first step) or the header it writes. |
| `Sidecar.WriteDone` | src/tsdb_core.c:185-238 | After the last step the handle knows the newest slots and sequence numbers. |
| `Sidecar.WriteOffers` | src/tsdb_core.c:185-238 | Whatever the slots hold, a completed write makes them offer its header. |
| `Sidecar.CompleteCompact` | src/tsdb_core.c:201-212 | A completed compact slot is the newest and is chosen over the mirrors it knows of. |
| `Sidecar.TruncateCompact` | src/tsdb_core.c:172-183 | Truncating the older slot leaves the newest in charge. |
| `Sidecar.CompleteMirror` | src/tsdb_core.c:217-235 | A completed mirror wins over the compact slot and says the same. |
| `Sidecar.MirrorsEvery32` | src/tsdb_core.c:217-235 | After a write that mirrored, every thirty-second write mirrors and no other. |
| `Sidecar.FirstWriteMirrors` | src/tsdb_core.c:217-235 | The first write of a handle mirrors. |
| `Sidecar.ReopenYields` | src/tsdb_core.c:834-858 | A disk that holds a header reopens with it, and the handle continues past every slot. |
| `Sidecar.FoldCut` | src/tsdb_core.c:345-359 | A cut at any step of a fold, also halfway through removing the slots, loses nothing. |
| `Sidecar.CompactSlotsFirst` | src/tsdb_core.c:345-359 | A fold removes no full slot while a compact one is there. |
| `Sidecar.StepKeeps` | src/tsdb_core.c:387-452 | Every event leaves exactly the expected header. |
| `Sidecar.AllMayHappen` | src/tsdb_core.c:185-238 | Any next sane header of the database may be written, and any write or fold cut after any number of its file steps. |
| `Sidecar.ReopenBound` | src/tsdb_core.c:87-88 | A header that lives in the sidecars alone survives a reopen if and only if its record count is at most twice its capacity. |
| `Sidecar.InFileChangeIff` | src/tsdb_core.c:834-858 | A changed header written into the file alone survives a reopen if and only if the slots offer nothing, that header, another geometry or fewer records. |
| `Sidecar.FieldChangeIff` | src/tsdb_core.c:834-858 | With geometry, names and count unchanged: if and only if the slots do not hold the current header, which is back otherwise. |
| `Sidecar.CapacityChangeIff` | src/tsdb_migrate.c:544-547 | So for the header-only resize cut before the slots are removed. |
| `Sidecar.OverflowChangeIff` | src/tsdb_core.c:1427-1437 | So for adding, moving and dropping the overflow columns. |
| `Sidecar.SwapChangeIff` | src/tsdb_migrate.c:463-495 | So for the swap of a rewrite with the current header in a slot: it survives if and only if the geometry changed or the slot offers the new header. |
| `Sidecar.SyncedChange` | src/tsdb_core.c:440-449 | After a sync every such change survives. |
| `Sidecar.NextWriteSettles` | src/tsdb_core.c:201-212 | So it does once the next write has completed its compact slot, whatever the other slots hold. |
| `Sidecar.FailedWriteExposes` | src/tsdb_core.c:201-235 | After a write of which both slot files failed the next write truncates the newest slot: cut there, the last persisted header is found if and only if it is also in the file or in the newest full slot. |
| `SidecarHandle.Handle.constructor` | src/tsdb_core.c:240-343 | The slot scans and the arbitration compute the specified reopen. |
| `SidecarHandle.Handle.Persist` | src/tsdb_core.c:185-238 | The step-by-step write passes through the specified disk states, each holding the old or the new header. |
| `SidecarHandle.Handle.Fold` | src/tsdb_core.c:387-452 | The same for a fold; every state holds the current header; a fold that fails keeps the slots. |
| `Arbitration.LoadArbitrates` | src/tsdb_core.c:310-342 | After a crash of the newer version with a mirror and one session of an older version, the next load takes the older writer's state if it wrote or closed, and the newer version's own otherwise. |
| `Arbitration.UnmirroredClose` | src/tsdb_core.c:325-331 | Without a mirror a clean close of the older version is taken if and only if it counts more records than the newest compact slot or is the same. |
| `Arbitration.WriteKeepsMirrorFresh` | src/tsdb_core.c:217-231 | After every completed write the mirror is less than 32 records behind. |
| `Arbitration.OldReaderLag` | src/tsdb_internal.h:119-126 | An older version opening the database misses at most 31 records. |
| `CrashWrite.CutInsideWrite` | src/tsdb_write.c:140-304 | A cut before the block write leaves the rows on disk, the extras of the record before possibly missing; then, until the compact slot is complete, the rows before the write, an evicting write possibly having its base columns at position 0; from then on the rows before and the new one, with its extras exactly as far as they reached the disk. |
| `CrashWrite.CutKeepsRowIff` | src/tsdb_write.c:236-252 | The new row is there in full if and only if its extras reached the disk, it has none, or the file showed the same values already. |
| `CrashWrite.ExtrasLost` | src/tsdb_write.c:236-304 | Cut after the compact slot with extras at the end of the file unsynced, the new row shows its base columns and zeros. |
| `CrashWrite.HalfWritten` | src/tsdb_write.c:204-252 | What the old header has at each position of the half-written file. |
| `CrashWrite.HalfWrittenAlmost` | src/tsdb_write.c:204-252 | After such a cut, and after any further ones, every record but the one about to be evicted is kept. |
| `CrashWrite.HalfWrittenInv` | src/tsdb_write.c:204-252 | After the same cut of a write that evicts nothing all is as before. |
| `CrashWrite.NextWriteHeals` | src/tsdb_write.c:140-281 | The next stored record restores the full ring invariant. |
| `CrashRuns.RunRecoversRows` | src/tsdb_write.c:105-304 | In every run of writes, syncs, reopens and power cuts, cut at any file step of a write or a fold, again and again, with unsynced extras on disk or not, the database found has exactly the rows of the last write whose compact slot was completed, except possibly at position 0 after an evicting write was cut before its sidecar; a completed write removes the exception. |
| `CrashRuns.EventKeeps` | src/tsdb_core.c:387-452 | Each event keeps this, and only an evicting write cut between its block and its sidecar makes the exception. |
| `CrashRuns.Starts` | src/tsdb_core.c:1044-1057 | A sane database without slots starts such a run. |
| `CrashRuns.AllMayHappen` | src/tsdb_write.c:105-304 | Any row may be written with a sane next header, and any write or fold cut after any number of its steps. |
| `CutQuery.DeliveredCut` | src/tsdb_query.c:33-58 | Exactly what a query delivers when the first row carries the newest timestamp. |
| `CutQuery.DeliversRestIff` | src/tsdb_query.c:231-246 | The matching rows at positions 1 and on are delivered if and only if the window reaches the new timestamp, or starts behind the second row, or there are none; otherwise nothing is. |
| `CutQuery.QueryAfterCut` | src/tsdb_query.c:194-284 | So for a query on the database that an evicting write left when cut before its sidecar. |
| `CutQuery.QueryLosesRows` | src/tsdb_query.c:231-246 | Rows 10, 20, 30 and 40, a cut write of 50: a query for 15 to 45 delivers none of three rows. |
| `Crc.ComputeCrc` | src/tsdb_core.c:145-155 | The nested loops compute the bitwise CRC-32. |
| `Crc.PolyIsEDB88320` | src/tsdb_core.c:151 | The polynomial of the model is the constant of the code. |
| `Crc.BitwiseIsTableDriven` | src/tsdb_core.c:145-155 | It equals the table-driven CRC-32 of section 8 of RFC 1952 on every byte string. |
| `Crc.DetectsBursts` | src/tsdb_core.c:145-155 | Different strings of equal length that differ only within four adjacent bytes never share a CRC. |
| `SlotFile.SlotRoundTrip` | src/tsdb_core.c:201-212 | A complete slot is accepted and gives back sequence number and payload. |
| `SlotFile.OtherKindRejected` | src/tsdb_core.c:290-296 | A slot of one kind is never taken for the other. |
| `SlotFile.TornRejected` | src/tsdb_core.c:290-296 | A slot cut short is never accepted. |
| `SlotFile.DamageRejected` | src/tsdb_core.c:297-300 | Damage within four adjacent covered bytes is always rejected. |
| `SlotFile.SequenceUncovered` | src/tsdb_internal.h:145-152 | A slot damaged in its sequence number is accepted under another number. |
| `Lifecycle.OperationsAreSafe` | src/tsdb_internal.h:272-291 | In every run of any number of tasks, an operation past the re-check runs on an open, unparked handle, alone with its mutex, whose generation is the one that it and every enclosing operation sampled. |
| `Lifecycle.CheckAdmits` | src/tsdb_internal.h:284-291 | The re-check admits a task, which then operates with the mutex, if and only if the handle is open and of the generation that it sampled; otherwise it turns it away and frees the mutex. |
| `Lifecycle.NestAdmits` | src/tsdb_internal.h:255-291 | A nested operation of the task that operates is always admitted. |
| `Lifecycle.EntryAdmits` | src/tsdb_internal.h:272-291 | An idle task that finds an open handle with a free mutex gets to operate on it. |
| `Lifecycle.StaleRefused` | src/tsdb_internal.h:272-291 | A task that sampled an earlier incarnation is turned away, also when the handle is open again. |
| `Lifecycle.NewHandleOpens` | src/tsdb_core.c:648-702 | A new handle is opened in four steps. |
| `Lifecycle.ParkedHandleReopens` | src/tsdb_core.c:648-702 | A parked handle comes back open under the next generation. |
| `Lifecycle.OpenHandleCloses` | src/tsdb_core.c:1156-1224 | An open handle with a free mutex is closed in five steps, and parked if nothing is. |
| `Lifecycle.FirstOperation` | src/tsdb_internal.h:272-291 | A run from no handles at all opens one and operates on it. |
| `Lifecycle.IncarnationLasts` | src/tsdb_core.c:1156-1224 | As long as it stays there the handle is neither closed nor recycled. |
| `Lifecycle.StepKeeps` | src/tsdb_core.c:648-702 | Every step of entering, operating, closing, parking, recycling and opening keeps the invariant. |
| `BufferPool.Pool.Write` | src/tsdb_buffer.c:211-248 | A chunked write changes exactly the written range of the flat array, or nothing when out of bounds. |
| `BufferPool.Pool.Read` | src/tsdb_buffer.c:169-206 | A chunked read delivers the range of the flat array. |
| `BufferPool.Pool.GetDirect` | src/tsdb_buffer.c:136-164 | A direct address is given if and only if the region is in bounds and in one page, and it names the same flat positions. |
| `BufferPool.Allocate` | src/tsdb_buffer.c:16-110 | Allocation yields a valid pool of the requested size and page size, 2048 by default, and refuses exactly a zero size or more than 128 pages. |

## Left out

- Header reconstruction from data blocks: heuristic probing without a specification.
- The conversion of version 2 blocks in place: the old layout already aliases columns.
- Legacy files whose index starts at offset 512: a header rewrite there overwrites index entries; the model takes the index to start behind the 584 header bytes, as in every file this version creates.
- The bytes of the header itself: headers are values, and only the extent of a header write is modelled.
- Clear, delete, statistics, parameter-name lookup, the global wrappers, progress callbacks, logging and the benchmark: they would only add easy members.
- Locks with timeouts, heap capabilities and errno: a lock attempt succeeds or gives up, an allocation succeeds or fails.
- Power cuts during clear and during the persisting of a capacity cap: the code does not make these atomic.
- Sidecar sequence numbers and handle generations are unbounded numbers; the code does not handle their wrap-around either.
- BlockOffset: file offsets are unbounded integers; `Storage.OffsetsExact` states when the 32-bit offsets agree.
- MakePlan: sizes are unbounded integers; the code computes them in 32 bits.
- AppendExtras: the extras of one record reach the file whole or not at all, and a gap in front of them is filled with zeros.
- NextKeeps: a migration of the extra columns is a step of a run only while no extras are missing at the end of the file; `OverflowMigration.MissingExtrasKeptIff` states what it does otherwise to the records whose extras the header of the new region covers.
- NextKeeps: a resize or a schema migration is a step of a run only with at most 64 columns, since the code then writes past its row buffer; `Engine.ColumnBound` states when that can happen.
- MigrateOverflow: the appends of the copy succeed; the code ignores their result.
- CutInsideWrite: the write that is cut neither caps the capacity nor meets a refusal.
- Write: the header that the code writes into the file after a cap is part of the runs (`Engine.CapDisk`) but not of the in-place write.
- StepTo: a reopen that does not find the current header is no step of a run; what it finds is stated by `Reopening.ChangeUndone`, what the rows then look like is not.
- Persist: the slot files can be written; `Sidecar.FailedWriteExposes` states what a double failure does.
- Init: the separate buffer of a query in paged mode can be allocated.
- AggregateOne: the rows are collected by the cursor first and accumulated afterwards; the code accumulates while it walks.
- AggregateMany: at most 64 requests, the size of the code's accumulator arrays.
- Lifecycle: an operation that loses its file gives up the handle only as the outermost operation of its task, and a task does not close a handle from inside an operation on it.
