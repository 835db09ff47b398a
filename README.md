# Ultima V dialogue fixer, modelled in Dafny

`u5-dialog-fix.py` is a small binary-patch engine. It carries two constant
tables:

- an ordered table of patches, each a file name, a byte offset, the bytes
  expected there and the bytes to put in their place;
- the MD5 digest every known `.TLK` file must have.

For every known file, in table order, the fixer does the following:

- It reads the file. A missing file halts the run with status 1.
- It compares the file's digest with the expected one. A file with another
  digest is left alone.
- Otherwise it copies the file to `orig-<name>` and runs every patch for that
  file over the buffer. Each patch is found already applied, found
  mismatching, or spliced in.
- It writes the buffer back if any patch was spliced in.

A second run does not report every patch as already received. A file the
first run patched no longer has the expected MD5 digest, so the fixer prints
that it does not look like an original and leaves it alone.

The model has five modules:

- `Tables` holds the two tables as constants.
- `Patch` holds the per-patch decision and the splice, as pure functions
  over byte sequences. Python's clamping slices are spelled out as `Slice`.
  `Occurs` is the independent meaning of "these bytes are at this offset".
- `FilePass` holds the inner loop. The method `PatchFile` threads the buffer
  and the `changed` flag through the table. It is proved equal to the
  prefix-recursive specification `PassUpTo`.
- `Driver` holds the outer loop. The method `VisitFile` is the loop body
  for one file, proved equal to the specification `Visit`. The method `Run`
  is proved equal to the prefix-recursive specification `RunUpTo`. The directory is a map from names
  to contents, and the digest is a function parameter. Everything the fixer
  prints, copies or writes is recorded as an `Event`, in order.
- `TableFacts` proves facts about the concrete tables, plus one end-to-end run
  on the TOWNE.TLK hint-price patch.

## Model

| member | source | states |
|---|---|---|
| Tables.OrigNameInjective | u5-dialog-fix.py:83 | distinct files get distinct backup names, and a name not starting with `orig-` is never a backup name |
| Patch.Slice | u5-dialog-fix.py:89-94 | `data[lo:hi]` clamps both bounds: the result is never longer than the range, has exactly its length when the range is inside the buffer, is the rest of the buffer from `lo` when the range runs past the end, is empty when `lo` is at or past the end, and each element is the buffer's byte at that position |
| Patch.SliceMatches | u5-dialog-fix.py:89-91 | comparing the clamped slice at `offset` with a byte string holds exactly when those bytes are present at `offset`; a range running past the end never matches a non-empty string |
| Patch.Decide | u5-dialog-fix.py:89-93 | three outcomes, each in terms of presence: already applied iff the replacement is present; mismatch iff neither the replacement nor the expected bytes are present; splice iff the replacement is absent and the expected bytes are present (the replacement test takes precedence) |
| Patch.Splice | u5-dialog-fix.py:94 | with the expected range inside the buffer: the bytes before `offset` are kept, the replacement follows, the rest is the old suffix after the expected range, and the length is `len(data) - len(expected) + len(replacements)`; past the end, the replacement is appended |
| Patch.ApplyFix | u5-dialog-fix.py:89-95 | the buffer is unchanged on the already-applied and mismatch branches, and replaced by the splice (which differs from it) on the third branch |
| Patch.SpliceChanges | u5-dialog-fix.py:94-95 | a splice always yields a buffer different from the one it started from |
| Patch.SpliceThenAlreadyApplied | u5-dialog-fix.py:89-94 | after a splice, the same patch is found already applied and a second application changes nothing |
| Patch.AppendPastEndRepeats | u5-dialog-fix.py:89-94 | a patch that expects nothing, at an offset past the end, is appended at the end on each run, and the second run does not find it |
| Patch.AppliedInRange | u5-dialog-fix.py:91-94 | a patch that expects some bytes, or keeps the length, is only spliced where its expected range lies inside the buffer |
| Patch.DecideByWindows | u5-dialog-fix.py:89-91 | the decision depends on the buffer only through the two byte ranges it compares |
| Patch.ApplyPreservesBelow | u5-dialog-fix.py:94 | applying a patch that expects at least one byte leaves the ranges of a patch lying wholly below it unchanged |
| Patch.ApplyPreservesAbove | u5-dialog-fix.py:94 | applying a length-preserving patch leaves the ranges of a patch lying wholly above it unchanged |
| Patch.ApplyThenSettled | u5-dialog-fix.py:89-95 | after one application, the same patch is found already applied if it was spliced or already there, and still mismatches if it mismatched |
| FilePass.PatchFile | u5-dialog-fix.py:85-95 | the loop computes the buffer, the `changed` flag and the outcome list of the specification pass over the whole table |
| FilePass.EveryEntryTried | u5-dialog-fix.py:86-92 | every entry for the file gets exactly one outcome, in table order, and no other entry does: a mismatch skips only its own patch |
| FilePass.ChangedIffSpliced | u5-dialog-fix.py:85-95 | `changed` holds exactly when some entry took the splice branch, and without a splice the buffer is the one read from disk |
| FilePass.OtherFilesIgnored | u5-dialog-fix.py:86-88 | two tables that agree on every entry for the file give the same pass, whatever their entries for other files |
| FilePass.JudgedAgainstOriginal | u5-dialog-fix.py:86-94 | on a well-ordered table, each entry gets the outcome it would get on the bytes read from disk, and the ranges later entries test are untouched by earlier splices |
| FilePass.SettledAfterPass | u5-dialog-fix.py:86-95 | on a well-ordered table, after the pass every entry for the file is found already applied, or mismatches if it mismatched on the original |
| FilePass.QuietPass | u5-dialog-fix.py:85-92 | a pass in which no entry would be spliced leaves the buffer and `changed` as they were and reports each entry's outcome on that buffer |
| FilePass.PassIdempotent | u5-dialog-fix.py:85-95 | on a well-ordered table, a second pass over the first pass's result splices nothing, keeps the buffer, and reports spliced entries as already received |
| Driver.Messages | u5-dialog-fix.py:90-92 | the lines printed for a pass are already-received and won't-apply lines about that file, at most one per report |
| Driver.MessagesLines | u5-dialog-fix.py:89-93 | an already-received line with patch number `n` is printed exactly when entry `n` was found already applied, a won't-apply line with number `n` exactly when entry `n` mismatched, and the number of lines is the number of entries not spliced in, so a splice prints nothing |
| Driver.MessagesInOrder | u5-dialog-fix.py:86-92 | the lines come out in table order: the lines for the reports of one stretch of the table, then those of the next |
| Driver.VisitFile | u5-dialog-fix.py:69-100 | one pass of the loop body leaves the directory, the events and the halt flag of the specification visit: not-found and exit(1) for a missing file, a not-original line for another digest, otherwise a backup, the pass's lines and a write exactly when the pass set `changed` |
| Driver.Run | u5-dialog-fix.py:68-100 | the loop, which stops at the first missing file, ends with the directory, event trace and exit status of the specification run, with status 1 exactly when the run halted |
| Driver.VisitConcerns | u5-dialog-fix.py:79-100 | every event of one file's visit is about that file or is the exit, and a write comes after the backup that opens the visit |
| Driver.VisitFrame | u5-dialog-fix.py:83-99 | one file's visit changes at most that file and its backup name in the directory |
| Driver.ExitIsFinal | u5-dialog-fix.py:71-73 | once the run has exited, later files change nothing |
| Driver.BackupBeforeWrite | u5-dialog-fix.py:82-99 | every write of a file is preceded in the trace by a backup of the same file |
| Driver.NewEventsAbout | u5-dialog-fix.py:68-100 | the events added between two points of the run are about the files visited in between, or are the exit |
| Driver.Frame | u5-dialog-fix.py:68-100 | a name that is neither a visited file nor its backup keeps its presence and contents |
| Driver.UntouchedBefore | u5-dialog-fix.py:68-74 | with independent names, a known file is read with the contents it had at the start of the run |
| Driver.ExitedIffMissing | u5-dialog-fix.py:68-73 | the run has halted after `k` files exactly when one of them was missing at the start |
| Driver.MissingFileHalts | u5-dialog-fix.py:68-73 | the first missing file ends the run with not-found then exit(1) as the last events, and no later known file appears in the trace |
| Driver.AllPresentNoExit | u5-dialog-fix.py:68-74 | with every known file present, the run does not halt and records no exit |
| Driver.FileFate | u5-dialog-fix.py:74-99 | after the run a known file holds the pass's result if its digest matched and a patch was spliced, otherwise its old contents; on a match its backup holds the original contents; on a mismatch any backup is left as it was |
| Driver.FileEvents | u5-dialog-fix.py:79-100 | a known file is backed up iff its digest matched, and written with the pass's result iff its digest matched and `changed` was set |
| Driver.KnownFilesStay | u5-dialog-fix.py:68-99 | a run over present files removes none of them |
| Driver.SecondVisit | u5-dialog-fix.py:68-100 | on a second run, a file well ordered in the table is not written and keeps the contents the first run left |
| Driver.RunTwice | u5-dialog-fix.py:68-100 | running the fixer again on the directory it left writes nothing and changes no known file |
| Driver.SecondRunKeepsFile | u5-dialog-fix.py:74-99 | when the digest tells a patched file from the original, a second run leaves a known file with the contents the first run left |
| Driver.SecondRunKeepsBackup | u5-dialog-fix.py:79-83 | under the same condition, a second run leaves a known file's `orig-` backup as the first run left it |
| Driver.RunTwiceSameDirectory | u5-dialog-fix.py:68-100 | under the same condition, a second run leaves the whole directory, backups included, exactly as the first run left it |
| Driver.SecondRunOverwritesBackup | u5-dialog-fix.py:79-83 | with a digest that cannot tell the patched file from the original, the second run backs up the patched file, so `orig-F` ends up holding the patched bytes |
| TableFacts.FixesTargetKnownFiles | u5-dialog-fix.py:12-66 | every patch in the table names one of the four known files |
| TableFacts.SumsIndependent | u5-dialog-fix.py:61-66 | the known names are distinct and none is a backup name |
| TableFacts.FixesWellOrdered | u5-dialog-fix.py:12-59 | for each file, every patch expects some bytes and its patches do not interfere; DWELLING.TLK's length-changing patch lies above the file's other patches |
| TableFacts.TowneHintPrice | u5-dialog-fix.py:24-100 | with all four files present, TOWNE.TLK's digest matching and 0xB4 at 0x06fd, the run does not halt, leaves 0xB3 there, writes the file and keeps the original as its backup |

## Left out

- The MD5 digest (lines 76-78) is a function parameter of the run. Digests are compared with exact string equality, as the code does at line 79. This model does not compare hex case-insensitively.
- Opening, reading, writing and copying files (lines 70-75, 83, 97-99) are updates to a map from names to contents, plus events. I/O errors other than a missing file are not modelled, and neither are the file metadata that `shutil.copy` carries.
- Console text and stderr (lines 72, 80, 82, 90, 92, 100) are recorded only as event kinds. The patch number is kept.
- What the patch bytes mean in the `.TLK` dialogue format is not modelled. The bytes are opaque.
- The digest strings in the table are data. Nothing is proved about which contents produce them.
- Patch.SpliceThenAlreadyApplied: requires the offset to lie at or before the end of the buffer. A patch that expects nothing, at an offset past the end, is appended at the end and not found again (Patch.AppendPastEndRepeats). No entry of the table expects nothing.
- Patch.ApplyThenSettled: requires the patch to expect some bytes or its offset to lie inside the buffer, for the same reason.
- FilePass.JudgedAgainstOriginal: requires a well-ordered table. On tables whose patches for one file overlap, a later patch is judged on bytes an earlier splice changed. The real table is well ordered (TableFacts.FixesWellOrdered).
- FilePass.SettledAfterPass: requires a well-ordered table, for the same reason.
- FilePass.PassIdempotent: requires a well-ordered table, for the same reason.
- Driver.RunTwice: requires every known file to be present, the names to be independent, and the table to be well ordered for every known file. It says nothing about the `orig-` backups. A second run backs up again every file whose digest still matches. If the digest cannot tell a patched file from the original, the backup is then overwritten with the patched bytes (Driver.SecondRunOverwritesBackup). The whole directory is kept only when the digest does tell them apart (Driver.RunTwiceSameDirectory).
- Driver.FileFate: requires the files before the given one to be present. Otherwise the run halts before reaching it, which Driver.MissingFileHalts covers.
- Driver.FileEvents: requires the files before the given one to be present, for the same reason.
