# omni-json-db, verified model

A Dafny model of the parts of omni-json-db in which most can go wrong, with proofs of what they promise.

- **The row index** (`Rows`, `Index`, `Tiling`, `Refine`, `History`, `Session`, `Runs`, `Writes`, `SafeRegion`, `Keeping`,
  `Newest`, `Witness`, `Restore`, `Recycle`, `Space`, `CheckScan`, `Db`).
  One KEY array of rows is cut by two moving lines into live records, versions parked in this write session, and reusable history;
  every row owns a byte extent of a VAL file or none. `Db.JDb` carries the operations out field by field; each method is proved equal
  to a step on the value `Index.State`, and everything else is proved about those steps: the index refines a plain map, the extents
  always partition the VAL files, a session can be rolled back, history is conserved, restoring is complete, and recycling only gives
  back dead space.
- **Re-layout of the KEY file** (`ByteFile`, `Relayout`): rows are rewritten in place to another width, with a bounded number in memory.
- **MessagePack** (`BigEndian`, `MsgPack`, `MsgTrip`, `MsgCodec`): the encoding as a function, its round trip, and the encoder that
  rewinds its buffer, the decoder that fills containers in loops, and the streaming reader.
- **Day field and lifetimes** (`Bits`, `DayField`, `Lifetime`) and **comma-text rows** (`CommaRow`).
- **The reader/writer lock** (`Locks`) on its seventeen shared bytes, **the server's books** over it (`Server`), and **message framing**
  (`Framing`) over a stream delivered in any pieces.

What the source leaves to chance or to the outside is a parameter: which window of the history is scanned, what the row cache offers,
which VAL file has room, how the network divides a stream, when the clock is read, what equality and text validation are in the host
language. `Index.State` is a value; `Db.JDb`, `ByteFile.JBytesIO`, `Locks.LockFile`, `Server.Hub`, `Server.ServerHandler`,
`MsgCodec.Unpacker` and `Framing.Socket` are the objects whose fields change.

## Findings

Claims of the documentation, or claims one would expect, that the code does not meet; each has a lemma with an input or an exact condition.

- `revert` says it takes the newest version of a key (`omni_json_db/jdb.py:1384`). It takes the first parked row, which need not be the
  newest: `Witness.NewestIsNotFirst` reaches such a state from the empty database in four sessions. Exactly when a write leaves the
  newest version first, whatever stood first before it: for another key, when of its versions that are not discarded the one that will
  stand first was stamped last (`Newest.NewestFirstExactly`, `Newest.NewestAfterAppend`); so a write can turn a history round, and
  also turn it back. For the written key, in any run until the step counter wraps, when none of its versions lies before the line
  (`Newest.OwnFirstInRuns`).
- Deleting a key and undeleting it finds the row of the deleted version exactly when none was parked earlier in the session; otherwise
  what comes back reads like the deleted version exactly when the value sits in the row itself and the version in the way is the same:
  `History.DeleteThenUndeleteExactly`, with a run from the empty database in `Witness.UndeletedIsOlder`.
- `f_append` looks at UNLOCK (`omni_json_db/jdb.py:5200-5202`) but does not hand it on to `f_write` (`omni_json_db/jdb.py:5204`), so
  an append with UNLOCK to a locked record is refused all the same: `Runs.AppendLosesUnlock`, both directions.
- A key that is changed, deleted and inserted again in one session leaves the version the session started with where the next write may
  reuse its row: `Witness.ReinsertExposes`. `Keeping.SessionKeeps` says of which sessions nothing is lost.
- `conv_ttl` turns more than 86340.5 and less than 86399.5 seconds into the fraction 1.0, and the row codecs cannot store that: `Lifetime.StoredExactlyOutsideGap`.
- Values with a tuple as set member or map key are encoded but cannot be decoded: `MsgTrip.Trip` says exactly when decoding succeeds,
  `MsgTrip.TupleMember` is the smallest case.
- The gap and overlap scan looks at nothing when there is a single extent: `CheckScan.LoneExtentPasses`. Nor does it
  look behind the last extent of a file: `CheckScan.TailPasses`, `CheckScan.ThirdBytePasses`. `CheckScan.ScanIff` says what it does see.
- A comma-text row of version 1 comes back exactly when its group flag agrees with its type id: `CommaRow.RoundTripV1`, with a row that
  does not in `CommaRow.GroupFlagAppears`.
- An unlock by a handle that holds nothing takes a reader's place away exactly when there is a reader, and does nothing otherwise:
  `Locks.StrayUnlockExactly`; from there a writer gets in beside a reader: `Locks.StrayUnlockBreaks`. The server books such an unlock
  as -1: `Server.UnlockInBooks`.

## Model

| member | source | states |
|---|---|---|
| Runs.RunRefines | omni_json_db/jdb.py:4692-5590 | over every sequence of writes, appends, deletes, undeletes, unwrites, renames and session starts the index stays sound and its map is the one a plain dictionary reaches, undo steps being told the version they recall and appends losing their UNLOCK |
| Runs.StepRefines | omni_json_db/jdb.py:4692-5590 | one operation of the index is one operation of the plain map |
| Runs.AppendLosesUnlock | omni_json_db/jdb.py:5198-5204 | an append with UNLOCK does exactly what the same append without it does; it differs from a write with UNLOCK exactly when the record is locked against it and would have changed |
| Runs.EmptyIsSound | omni_json_db/jdb.py:1547-1560 | the empty database is sound, so every run starts from a sound one |
| Refine.WriteRefines | omni_json_db/jdb.py:4692-5153 | whichever branch a write takes and whichever row it reuses or splits, the written key reads the new value and flags and every other live key is unchanged, or the write is refused by the lock flags |
| Refine.MoveRefines | omni_json_db/jdb.py:4869-5064 | moving a version to another row and extent changes that key alone |
| Refine.InsertRefines | omni_json_db/jdb.py:5066-5153 | a new record joins the map without touching the bytes of any other |
| Refine.OverwriteRefines | omni_json_db/jdb.py:5022-5032 | storing over the old bytes in place changes that key alone |
| Refine.AppendRefines | omni_json_db/jdb.py:5155-5254 | appending an absent key adds exactly it |
| Refine.DeleteRefines | omni_json_db/jdb.py:5256-5361 | a delete takes exactly its key out of the map, unless locked, and only permutes versions and extents |
| Refine.UndeleteRefines | omni_json_db/jdb.py:5363-5457 | an undelete brings back exactly the version it was pointed at and only permutes versions and extents |
| Refine.UnwriteRefines | omni_json_db/jdb.py:5459-5544 | an unwrite swaps in exactly the version it was pointed at; the record keeps its flags; rows are only permuted |
| Refine.RenameRefines | omni_json_db/jdb.py:5546-5590 | a rename moves one entry to a free name and changes nothing else |
| Tiling.CarveTiled | omni_json_db/jdb.py:4478-4529 | cutting a discarded extent to size, with or without an empty row for the rest, keeps the extents a partition of the files |
| Tiling.PlaceTiled | omni_json_db/jdb.py:5034-5060 | storing a new version, at a file's end or in a discarded extent, keeps the extents a partition of the files |
| Tiling.PlaceReads | omni_json_db/jdb_io.py:2430-2475 | what was stored is what is read back, past the padding |
| Tiling.PlaceFrame | omni_json_db/jdb.py:5034-5060 | storing a new version leaves the bytes of every other row alone |
| Rows.RowsApart | omni_json_db/jdb.py:4130-4147 | in a tiled index two rows never share a byte |
| History.WriteConserves | omni_json_db/jdb.py:4463-4529 | a write gives up exactly the reused row and at most one empty row, and gains exactly the new version and the remainder; every other stored version is still there |
| History.AppendConserves | omni_json_db/jdb.py:5206-5254 | appending gains exactly the new version and gives up none |
| History.ReserveSurvives | omni_json_db/jdb.py:4464-4476 | under REVERT every version parked in this session, and every one of the first `min_safe` parked ones, survives a write, readable as before, wherever it lands |
| History.SupersededSurvives | omni_json_db/jdb.py:5051-5064 | the version a write supersedes is parked at the line, readable as before |
| Writes.StoredInPlaceExactly | omni_json_db/jdb.py:4838-5064 | over rows and flags: when a write changes a record, all other rows and their number stay as they are if and only if the value fits where the old one lies and REVERT is off, the record opts out of it, or the key has changed before in this session; otherwise the old version is parked where reuse may begin, bytes and all |
| Writes.IdleExactly | omni_json_db/jdb.py:4790-5010 | a write leaves the database as it is if and only if the record is locked against it, or value and flags are there already and storing again was not asked for; new flags alone change nothing else, not even the version of the row |
| Writes.AppendOnRecord | omni_json_db/jdb.py:5198-5204 | appending to a record changes nothing when it is locked, stores in place exactly when the value fits, parks the old version right behind the records otherwise, and never splits |
| Writes.RecordStamped | omni_json_db/jdb.py:4852-5150 | a record just stored carries the flags asked for, those it had, or none, and the number of the step |
| Writes.TakesSpace | omni_json_db/jdb.py:4482-4494 | a new extent is as long as the value and its reserve, never shorter than the smallest size, and padded; a discarded one is taken whole unless what is left over is at least 64 bytes and the smallest size |
| Writes.NextIsMasked | omni_json_db/jdb.py:5061-5064 | the step counter counts in 43 bits |
| SafeRegion.FirstChangeSafe | omni_json_db/jdb.py:4464-4476 | with the first change of a key under REVERT all that was out of reach, and the version superseded, is in SAFE |
| SafeRegion.OtherWritesSafe | omni_json_db/jdb.py:5149-5153 | all other writes leave the changed keys alone, and the safe line but for a plain insert, which moves it by one |
| SafeRegion.AppendKeepsSafe | omni_json_db/jdb.py:5206-5254 | appending a record leaves SAFE with the versions it had and counts as no change |
| SafeRegion.DeleteSafe | omni_json_db/jdb.py:5295-5361 | a deleted version joins SAFE, in front or, when its key had changed before, at the end; a record that is read-only, append-only or undeletable is deleted only with UNLOCK |
| SafeRegion.UndeleteSafe | omni_json_db/jdb.py:5413-5457 | a version brought back from SAFE leaves it and its key no longer counts as changed; one from beyond leaves SAFE as it is and its key does |
| SafeRegion.UnwriteSafe | omni_json_db/jdb.py:5515-5544 | an unwrite swaps the two rows, keeps the flags with the record and takes the key off the list of changed ones, unless the record is read-only or append-only |
| SafeRegion.RenameSafe | omni_json_db/jdb.py:5582-5590 | a rename touches one row and the table and leaves SAFE and the changed keys alone |
| Keeping.SessionKeeps | omni_json_db/jdb.py:4692-5544 | in every session of writes under REVERT, appends of new records, deletes, undeletes and unwrites of changed keys, any reserve, in which no key is changed, deleted and inserted again, each version the session started with is still stored with its bytes: live and about to be parked by the next write, or parked out of reach of any reuse |
| Witness.ReinsertExposes | omni_json_db/jdb.py:4464-4476 | a change, a delete and an insert of one key, after which its session-start version lies where the next write may reuse its row |
| Newest.NewestFirstExactly | omni_json_db/jdb.py:5051-5153 | for every write that takes a row, every slot and every key the write does not supersede, whatever stood first before: each version not discarded is where it goes, and the newest one is first if and only if, of those, the one that will stand first was stamped last |
| Newest.NewestAfterAppend | omni_json_db/jdb.py:5206-5254 | the same for an append, which discards nothing |
| Newest.FirstStaysExactly | omni_json_db/jdb.py:5051-5153 | for every write that takes a row, every slot and every key the write does not supersede: the very row that stands first does so afterwards exactly when it is not discarded and no other version of the key lies in the stretch it jumps over |
| Newest.OwnFirstExactly | omni_json_db/jdb.py:5051-5064 | the superseded version is the first parked one of its key exactly when none stands before the line; the newest is first exactly when the stamps known before the write say so, which is the same condition wherever stamps lie below the step counter |
| Newest.RunStamps | omni_json_db/jdb.py:4692-5590 | until the step counter wraps, every run keeps all stamps below it |
| Newest.OwnFirstInRuns | omni_json_db/jdb.py:5051-5064 | in every run from the empty database until the counter wraps, a write leaves the newest parked version of its key first if and only if no older one stands before the line |
| Newest.OthersKeepFirst | omni_json_db/jdb.py:5022-5032 | a write that takes no row leaves every parked row where it is |
| Witness.NewestIsNotFirst | omni_json_db/jdb.py:1379-1400 | five writes in four sessions from the empty database, after which the first parked row of a key is its older version, though it was the newer one a step before |
| History.DeleteThenUndelete | omni_json_db/jdb.py:5324-5457 | deleting and undeleting a key whose history was not touched earlier in the session restores the map, the key's extent and all versions |
| History.DeleteThenUndeleteExactly | omni_json_db/jdb.py:5348-5397 | for every record: the undelete finds the row of the deleted version if and only if none of the key was parked earlier in the session, and what comes back reads like it if and only if that is so or an equal version held in its row stands in the way |
| Witness.UndeletedIsOlder | omni_json_db/jdb.py:5348-5397 | a run from the empty database in which a key reads 2 when deleted and 1 once undeleted |
| History.UnwriteTwice | omni_json_db/jdb.py:5484-5544 | unwriting twice puts the live and the parked version back where they were |
| Session.SessionRollback | omni_json_db/jdb.py:4862-5153 | after any run of writes under REVERT, unwriting any of the changed keys of the session start, each once and in any order, gives each its session-start value back unless it is locked or empty, and changes no other record |
| Session.SessionRestored | omni_json_db/jdb.py:4862-5153 | when all changed keys are unwritten, every record of the session start reads its old value, but for changed ones that are locked or have the empty key |
| Session.RunKeeps | omni_json_db/jdb.py:4464-4476 | at every point of the session SAFE holds exactly one row per changed key of the session start, with its session-start value, and unchanged keys read as they did |
| Session.SafeComesFirst | omni_json_db/jdb.py:5384-5404 | the session-start version of a changed key comes before any other parked row of that key |
| Session.RollAll | omni_json_db/jdb.py:5459-5544 | unwriting a list of keys without repetition takes each unlocked one to its first parked version and leaves every other record as it is |
| Restore.RevertIs | omni_json_db/jdb.py:1379-1495 | after both halves of revert every requested key with a matching parked row reads such a row's value, unless locked or empty, no other record changes and no version is lost |
| Restore.RevertOne | omni_json_db/jdb.py:1379-1495 | a single key, live or deleted, takes its first parked row of the wanted version, a live one keeping its flags, and nothing else changes |
| Restore.FirstMatchPlain | omni_json_db/jdb.py:1479-1495 | the row taken is the first parked one of the key, and of exactly the session named if one is |
| Restore.RestoreAllIs | omni_json_db/jdb.py:1356-1377 | restoring the first row any missing key wants, again and again in the rows as they then stand, brings back exactly the wanted keys that had a matching parked row, and no version is lost |
| Restore.SwapEnds | omni_json_db/jdb.py:1479-1495 | after one pass every listed live key was swapped with its first matching parked row, once, and nothing else changed |
| Restore.UndeleteParked | omni_json_db/jdb.py:5413-5457 | bringing one row back takes just that row out of the parked ones, however the others are permuted |
| Recycle.Peel | omni_json_db/jdb.py:1602-1634 | from the highest extent down, a dead extent is kept exactly when a record lies behind it in its file; the others are cut off, the kept ones stay in order, and the files stay tiled |
| Recycle.Coalesce | omni_json_db/jdb.py:1644-1675 | gluing neighbours leaves a gap between any two dead extents of a file and keeps the tiling |
| Recycle.Absorb | omni_json_db/jdb.py:1676-1695 | every record takes over the dead extent right behind it; afterwards none starts where a record ends; the tiling is kept |
| Recycle.CompactIsMinimal | omni_json_db/jdb.py:1644-1720 | in a merged, tiled index a dead extent lies at offset 0 and there is at most one per file |
| Space.Release | omni_json_db/jdb.py:1602-1634 | releasing changes no record and keeps a parked row as it is exactly when it owns bytes and a record lies behind it in its file; the tiling is kept and no dead extent ends a file |
| Space.Merge | omni_json_db/jdb.py:1644-1720 | after merging records have only grown, read as before, no version of the history is left, and dead space is compact |
| Space.LiveReads | omni_json_db/jdb.py:1602-1695 | records that grew and files that were cut short read as before |
| Space.FilledStep | omni_json_db/jdb.py:4692-5590 | every operation keeps released space recognisable, so recycling may always follow |
| CheckScan.Scan | omni_json_db/jdb.py:4099-4147 | the scan finds nothing exactly when there is at most one extent or no gap and no overlap in front of any |
| CheckScan.KeyTwice | omni_json_db/jdb.py:4048-4096 | the first loop finds something exactly when two live rows have the same key |
| CheckScan.ScanIff | omni_json_db/jdb.py:4099-4147 | the rows tile the files if and only if the extents form an unbroken chain that reaches every file's end |
| CheckScan.LoneExtentPasses | omni_json_db/jdb.py:4100-4108 | a single extent with a gap in front passes the scan although the file is not tiled |
| CheckScan.TailPasses | omni_json_db/jdb.py:4099-4147 | whatever is added to a file behind its last extent passes the scan, although the file is no longer tiled |
| CheckScan.ThirdBytePasses | omni_json_db/jdb.py:4099-4147 | two rows of one byte each in a file of three |
| Db.JDb.constructor | omni_json_db/jdb_lite.py:1881-1970 | a new database is sound and empty |
| Db.JDb.Open | omni_json_db/jdb_lite.py:1958-1961 | a session starts with nothing changed and the safe line behind the records |
| Db.JDb.GetDeadRow | omni_json_db/jdb.py:4436-4529 | reuse begins behind the reserve, `min_safe` rows at least under REVERT; the row handed out is the one the cache offers or the last one of the window with room, and none only when none of the window has room; it is cut to size when worth it, and the first change of a key moves the safe line |
| Db.JDb.ScanWindow | omni_json_db/jdb.py:4502-4527 | one window is read backwards: the first row with room is taken, none only when no row of the window has room, and what is cut off goes to the empty row passed last |
| Db.JDb.SplitRow | omni_json_db/jdb.py:4482-4494 | a discarded extent is cut when what is left over is worth a row |
| Db.JDb.FWrite | omni_json_db/jdb.py:4692-5153 | the write is the specified step, the map changes as the plain map does, and the answer says whether anything was written |
| Db.JDb.MoveVersion | omni_json_db/jdb.py:4869-5064 | the old version is parked at the line, what stood there fills the slot, the new row takes the record's place |
| Db.JDb.InsertVersion | omni_json_db/jdb.py:5088-5153 | the first DEAD row fills the slot, the first SAFE row moves behind SAFE, the key becomes the next record |
| Db.JDb.OverwriteRow | omni_json_db/jdb.py:5022-5032 | the bytes are stored over the old ones and the row keeps its extent |
| Db.JDb.WriteFlags | omni_json_db/jdb.py:4583-4643 | only a change of flags touches the row, which keeps its version |
| Db.JDb.FAppend | omni_json_db/jdb.py:5155-5254 | an existing key is overwritten without history, unless locked, UNLOCK or not; a new one gets a row behind all others; the map changes as the plain map does, and the answer says whether the append was refused |
| Db.JDb.FDelete | omni_json_db/jdb.py:5256-5361 | the delete is the specified step, keeps every version, and answers whether anything changed |
| Db.JDb.FUndelete | omni_json_db/jdb.py:5363-5457 | the undelete is the specified step, keeps every version, and answers the row the record came back to |
| Db.JDb.FUnwrite | omni_json_db/jdb.py:5459-5544 | the unwrite is the specified step and keeps every version |
| Db.JDb.FRename | omni_json_db/jdb.py:5546-5590 | the rename is the specified step on rows and key table |
| Db.JDb.RestoreDeleted | omni_json_db/jdb.py:1306-1377 | the restarting loop ends in the state reached by restoring the first wanted row again and again, and brings back exactly the wanted keys with a matching parked row |
| Db.JDb.SwapBack | omni_json_db/jdb.py:1238-1304 | one pass swaps every listed key with its first matching parked row, once |
| Db.JDb.Revert | omni_json_db/jdb.py:1379-1495 | deleted keys come back, each from the first wanted row as the rows then stand, then live keys are swapped with their first match; all other records stay, no version is lost |
| Db.JDb.DropExpired | omni_json_db/jdb.py:1531-1545 | exactly the expired records leave the map, deleted one by one from the highest row down, locked or not |
| Db.JDb.Recycle | omni_json_db/jdb.py:1497-1728 | every unexpired record keeps its value; without merging, nothing changes when no dead row is empty or ends its file, and else only rows that are empty or lie behind all records of their file are given up; with merging, dead space is minimal and the history is gone |
| Db.JDb.CheckError | omni_json_db/jdb.py:4048-4147 | it notices something exactly when a live key is there twice or one of several extents does not start where it should, and in every reachable state it notices nothing |
| ByteFile.JBytesIO.Write | omni_json_db/jdb_file.py:526-558 | writing inside, at the end of or beyond the stream: what is replaced, extended and zero-filled |
| ByteFile.WrittenBytes | omni_json_db/jdb_file.py:526-558 | byte for byte what a write changes, wherever it begins; a gap behind the end holds zeros |
| ByteFile.JBytesIO.Read | omni_json_db/jdb_file.py:472-483 | at most the bytes that are there are read and the position follows |
| Relayout.Rebuild | omni_json_db/jdb.py:1895-1925 | whatever the widths, the file ends up as the header and all rows converted in their old order, and nothing else |
| Relayout.TableSuffices | omni_json_db/jdb.py:1897-1906 | the look-ahead buffer asked for is large enough that no old row is overwritten before it is read, for all row counts and widths |
| Relayout.TableBounded | omni_json_db/jdb.py:1897-1906 | the look-ahead is no larger than the growth of the file in rows plus eight, and none when rows do not grow |
| Relayout.ClobberIff | omni_json_db/jdb_io.py:2820-2856 | a look-ahead is safe exactly when it is safe at the last row read |
| Relayout.QuotientAloneClobbers | omni_json_db/jdb.py:1899 | without the slack of the formula seven rows widened from 8 to 9 bytes are clobbered |
| MsgTrip.Trip | omni_json_db/jdb_codec.py:137-446 | decoding the bytes of a value, wherever they stand and whatever follows, gives the value and stops right behind it, except that a tuple as key or member always makes it fail |
| MsgTrip.TupleMember | omni_json_db/jdb_codec.py:418-446 | a set with the empty tuple in it is encoded in four bytes that cannot be decoded |
| MsgTrip.FrozenMember | omni_json_db/jdb_codec.py:418-446 | a set with a frozen set in it comes back |
| MsgTrip.KeysMayBe | omni_json_db/jdb_codec.py:408-446 | keys and members may be everything that holds no other values, tuples of such, and frozen sets |
| MsgTrip.NestingIsFree | omni_json_db/jdb_codec.py:137-143 | the nesting limit only decides acceptance, never the bytes; sets count as one level |
| MsgTrip.TooDeep | omni_json_db/jdb_codec.py:141-143 | values nested deeper than the limit are refused |
| MsgTrip.NormPlain | omni_json_db/jdb_codec.py:408-446 | keys and set members come back exactly as they were |
| MsgTrip.IntTrip | omni_json_db/jdb_codec.py:150-172 | every integer from -2^63 to 2^64-1 reads back from its shortest form |
| MsgTrip.IntShortest | omni_json_db/jdb_codec.py:150-172 | no bytes that decode to an integer are fewer than those it is encoded in |
| MsgTrip.BytesShortest | omni_json_db/jdb_codec.py:175-186 | the same for binary data |
| MsgTrip.TextShortest | omni_json_db/jdb_codec.py:188-200 | the same for text |
| MsgTrip.CountShortest | omni_json_db/jdb_codec.py:217-257 | no header the decoder accepts for a count is shorter than the one written for it |
| MsgTrip.SetOnWire | omni_json_db/jdb_codec.py:112-114 | a set is an extension of type 123, a frozen one of type 124, whose payload is the array of its members |
| MsgTrip.ScalarBytes | omni_json_db/jdb_codec.py:144-215 | the header bytes of the constants, integers and floats |
| MsgTrip.HeaderBytes | omni_json_db/jdb_codec.py:173-270 | the header bytes of everything that announces a length |
| MsgTrip.WrongBytes | omni_json_db/jdb_codec.py:291-446 | bytes that end too soon and bytes with an unknown header or extension are told apart |
| MsgTrip.LastValueWins | omni_json_db/jdb_codec.py:408-416 | of two entries with equal keys the map keeps the place of the first and the value of the last |
| MsgTrip.DepthAllowed | omni_json_db/jdb_codec.py:137-143 | values up to 1024 levels deep are accepted, and no deeper ones |
| MsgCodec.PackTo | omni_json_db/jdb_codec.py:137-270 | the encoder appends exactly the pure encoding to the stream, earlier bytes untouched, and returns its length; when there is none it fails and adds only a tail |
| MsgCodec.Rewrap | omni_json_db/jdb_codec.py:229-245 | copying out, rewinding and writing over it turns the packed members into exactly the wrapped set |
| MsgCodec.PackItems | omni_json_db/jdb_codec.py:226-257 | the items are appended in order, at every depth |
| MsgCodec.MsgDumps | omni_json_db/jdb_codec.py:272-287 | a value's bytes in a stream of its own are its encoding |
| MsgCodec.MsgUnpack | omni_json_db/jdb_codec.py:291-399 | the decoder computes the specified value and position, or the specified error |
| MsgCodec.ReadArray | omni_json_db/jdb_codec.py:401-406 | the loop reads exactly the announced number of elements in order |
| MsgCodec.ReadDict | omni_json_db/jdb_codec.py:408-416 | the loop stores each entry under its key, an unhashable key failing only after its value was read |
| MsgCodec.ReadExtension | omni_json_db/jdb_codec.py:418-446 | a set is made of one decoded value, and reading goes on where the extension ends |
| MsgCodec.Unpacker.Next | omni_json_db/jdb_codec.py:532-555 | one object per call; the end or an incomplete object stops, other errors are raised and leave the position |
| MsgCodec.Unpacker.Drain | omni_json_db/jdb_codec.py:493-555 | iterating yields exactly the values decoded one behind the other |
| MsgCodec.DrainTrip | omni_json_db/jdb_codec.py:493-555 | a concatenation of encoded values streams out as the same values in the same order |
| Bits.GetField | omni_json_db/jdb_codec.py:617-651 | masking and shifting reads exactly the bits of a field |
| Bits.OrAdds | omni_json_db/jdb_codec.py:706-735 | laying a field over the bits below it with "or" adds to them |
| DayField.PackTrip | omni_json_db/jdb_codec.py:706-762 | unpacking what was packed gives back the stamp and the clamped lifetime, and the creation day unless too far back for the layout; within 48 bits; bit 22 never misidentifies the layout |
| DayField.CreationKept | omni_json_db/jdb_codec.py:706-762 | a creation day is remembered 7 days back with a lifetime in minutes and 8191 with one in days, a lifetime in days up to 511, one in minutes exactly |
| DayField.InlineIsPack | omni_json_db/jdb_codec.py:1085-1103 | the encoding written out in the row codecs is pack_days, except that it refuses one day given as a fraction |
| DayField.FlagsRideAbove | omni_json_db/jdb_codec.py:1098-1118 | key flags carried above the days are recovered whole and change nothing about them |
| Lifetime.NeverEarly | omni_json_db/jdb.py:1534-1537 | for every positive request up to 511 days, in seconds rounded to whole ones but one at least, conversion, packing, unpacking and the expiry test together never report the record expired within that time, and always after two more minutes or days |
| Lifetime.RequestIs | omni_json_db/jdb_codec.py:698-704 | below zero the lifetime stays, zero takes it away, under a day it becomes the fewest minutes that cover it, and else the fewest days, 511 at most |
| Lifetime.StoredExactlyOutsideGap | omni_json_db/jdb_codec.py:698-704 | the row codecs store every positive lifetime, fractions of a second included, exactly when it does not round to 86341 to 86399 seconds |
| Lifetime.GapInSeconds | omni_json_db/jdb_codec.py:702 | which is exactly between 86340.5 and 86399.5 seconds, both ends outside |
| Lifetime.ConvIdempotent | omni_json_db/jdb_codec.py:662-704 | normalizing a normalized lifetime changes nothing; a day written as a fraction becomes one day |
| Lifetime.PositiveStays | omni_json_db/jdb_codec.py:698-704 | a positive request is never rounded to none and fits the field |
| CommaRow.RoundTripV2 | omni_json_db/jdb_codec.py:1564-1609 | every row, whatever commas its key holds and however it is padded, reads back as it was written |
| CommaRow.RoundTripV1 | omni_json_db/jdb_codec.py:1516-1562 | the same for the older layout but for the group flag, which group rows always come back with; so a row comes back as it was exactly when its group flag was set if it is a group row |
| CommaRow.GroupFlagAppears | omni_json_db/jdb_codec.py:1546-1549 | a group row without group flag comes back with it |
| CommaRow.TextV1 | omni_json_db/jdb_codec.py:1516-1533 | the older text, field by field, the last number being the days plus the flags above bit 48 |
| CommaRow.TextV2 | omni_json_db/jdb_codec.py:1564-1582 | the newer text, field by field |
| CommaRow.FlagBits | omni_json_db/jdb_codec.py:1546-1549 | the group flag is bit 2, the expiry flag bit 7 |
| CommaRow.FieldsOf | omni_json_db/jdb_codec.py:1588-1595 | taking a padded line apart gives the key, commas and all, and the numbers |
| Locks.Exclusive | omni_json_db/jdb_file.py:984-1069 | however any number of handles interleave, while one writes no other holds anything |
| Locks.RunAccounts | omni_json_db/jdb_file.py:984-1083 | in every run the counters are what is really held, and there is a writer exactly when something is held for writing |
| Locks.RemovedAdmitsNone | omni_json_db/jdb_file.py:1000-1083 | from the moment the removal flag is up until the bytes are cleared nothing is acquired |
| Locks.ClearedWhenFree | omni_json_db/jdb_file.py:1077-1083 | in every run the bytes are cleared only when nothing is held |
| Locks.FreeAll | omni_json_db/jdb_file.py:1054-1069 | unlocking as often as one has locked gives up all of one's reads and re-entrant writes, writes first, and nobody else's |
| Locks.ReadGrantedExactly | omni_json_db/jdb_file.py:1000-1014 | while the flag is down, reading is granted if and only if nobody else writes; what is not granted changes nothing |
| Locks.WriteGrantedExactly | omni_json_db/jdb_file.py:1033-1052 | while the flag is down, writing is granted if and only if the handle already writes or nobody holds anything |
| Locks.ClosedToAll | omni_json_db/jdb_file.py:1000-1052 | with the flag up nothing is granted to anybody |
| Locks.CellsHold | omni_json_db/jdb_file.py:1000-1069 | the seventeen bytes hold the readers, the writer's id, its depth and the flag, in that order, highest byte first |
| Locks.StrayUnlockExactly | omni_json_db/jdb_file.py:1054-1069 | an unlock by a handle that holds nothing leaves the counters right exactly when nobody reads, and then does nothing |
| Locks.StrayUnlockBreaks | omni_json_db/jdb_file.py:1065-1067 | a stranger's unlock takes a reader's place away and lets a writer in |
| Locks.LockFile.TryRead | omni_json_db/jdb_file.py:984-1014 | one pass of acquiring for reading on the shared bytes is the specified step of the counters |
| Locks.LockFile.TryWrite | omni_json_db/jdb_file.py:1016-1052 | one pass of acquiring for writing on the shared bytes is the specified step, re-entrance included |
| Locks.LockFile.Release | omni_json_db/jdb_file.py:1054-1069 | unlocking on the shared bytes is the specified step, the writing level first |
| Locks.LockFile.TryClear | omni_json_db/jdb_file.py:1074-1083 | the bytes are cleared only when all counters are zero |
| Locks.LockFile.Remove | omni_json_db/jdb_file.py:1071-1083 | removal raises the flag and clears the bytes at once exactly when nothing is held |
| Server.BooksStayRight | omni_json_db/jdb_server.py:259-292 | in every run of disciplined clients each connection's pending count equals the holds of its private handle, group by group |
| Server.UnlockInBooks | omni_json_db/jdb_server.py:259-292 | in right books an unlock keeps them right exactly when something was pending |
| Server.CommandsGrant | omni_json_db/jdb_server.py:267-283 | a read or write command is granted and booked exactly when those who hold the lock leave room for it |
| Server.CommandsRelease | omni_json_db/jdb_server.py:260-291 | an unlock gives up writing first and is booked, a removal takes the lock from nobody and ends when nobody holds it |
| Server.ServerHandler.Handle | omni_json_db/jdb_server.py:259-292 | every lock command, disciplined or not, changes the storage's lock as specified and books what was granted; unless it unlocks what is not pending, an orderly book stays in order and nobody else's holds move |
| Server.ServerHandler.Drain | omni_json_db/jdb_server.py:530-539 | at disconnect everything the connection holds is unlocked and nothing of anyone else's |
| Framing.FramesLoad | omni_json_db/jdb_net.py:29-102 | messages sent one after the other arrive as the same messages in order, and the stream is left exactly behind the last frame |
| Framing.FrameLoads | omni_json_db/jdb_net.py:58-102 | one frame is read as the value sent, up to the next frame boundary |
| Framing.HeaderOnWire | omni_json_db/jdb_net.py:72-76 | a header is refused exactly when its first two bytes are not FE ED; else the length stands in the six bytes behind them |
| Framing.UntaggedIsRefused | omni_json_db/jdb_net.py:72-74 | a message without the tag is refused and only its header is taken off the stream |
| Framing.FrameOnWire | omni_json_db/jdb_net.py:94-102 | a frame is the tag, the length, the data, and zeros up to the next multiple of eight |
| Framing.RecvExactly | omni_json_db/jdb_net.py:29-56 | exactly the aligned number of bytes is received, however the stream is divided, or the end is reported |
| Framing.RecvAndLoad | omni_json_db/jdb_net.py:58-84 | what is received and what is left depends on the stream alone, not on its division |
| Framing.DumpAndSend | omni_json_db/jdb_net.py:86-102 | exactly one frame is sent, or nothing when the value has no encoding |

## Left out

- Dates and lifetimes in the row model: rows of `Index` carry no days; `DayField` and `Lifetime` treat them on their own.
- Groups, links, transient flags, hidden and cache flags, flag changes given as strings: plumbing around the steps modelled here.
- A write of a value whose encoded form is empty: no codec produces one, and a stored length of 0 means "fills the row".
- The length limit on keys, and the widening of KEY rows that a long key triggers inside `write_key`: `Relayout` treats widening on its own.
- Refine.WriteRefines: the test whether the new value equals the stored one compares encoded bytes; the tolerance for gzip headers is not modelled.
- Session.SessionRollback: for sessions of updates and inserts without a reserve; what any careful session keeps is `Keeping.SessionKeeps`.
- Keeping.SessionKeeps: renames, and appends over existing records, which keep no history.
- Relayout.Rebuild: every row decodes; a row that does not makes the source stop and cut the file off where it stands. The quotient is the exact one, not the floating-point one.
- MsgTrip.Trip: text and floats are opaque bytes of known length, equality of keys is a parameter, and sets are compared in the order they were written.
- DayField.PackTrip: stamps at whole minutes, not before the creation day, as `write_key` hands them over.
- Lifetime.NeverEarly: clocks without daylight-saving jumps; requests beyond 511 days are cut to 511 days as documented.
- CommaRow.RoundTripV2: numbers are read as unsigned decimal digits only; other spellings `int` accepts, and the oldest layout, are not part of this model.
- Server.BooksStayRight: of clients that unlock only what they have locked; `Server.UnlockInBooks` says what one other unlock does.
- Db.JDb.CheckError: one answer for all that is noticed. The source only prints gaps (`omni_json_db/jdb.py:4333-4348`), and its result lists the rest but for overlaps it could repair by itself. Rows that cannot be read make it stop or, when repairing, empty them; rows of the model can always be read. Repairs and group databases are not part of this model.
- Framing.FramesLoad: messages shorter than 2^48 bytes, the width of the length field.
- Db.JDb.Recycle: without `fill_zero`, which also overwrites dead bytes with zeros.
- Real files, sockets, threads and operating-system locks, SIGINT exits, the LRU cache, and readers that see a session half done.
- JSON, YAML, pickle, marshal and compression back ends, the user codec, queries, import and export, upgrade and repair.
