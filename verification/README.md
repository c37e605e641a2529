# Verified model of the oto backend

This project models, in Dafny 4.11, the parts of the oto backend whose correctness does not
show in any single function: a crash-resumable archive-and-purge protocol, the sharing of
platform keys and the re-sealing of vault rows, the markdown section patcher, the closure of a
lock file, operations described in data, two ASGI wrappers, the export of a page tree, the
indexing of pages by chunks, and the arithmetic of renewal dates.

`dafny verify dfyconfig.toml` checks everything.

## How it is laid out

Code that changes things in place is modelled by classes and methods with loops, each proved
against a specification function or an explicit property; what the program promises is then
proved about that specification by lemmas.

| files | component |
|---|---|
| `archive_ids`, `archive_protocol`, `archive_runs`, `archive_convergence`, `archive_pass` | the journal archive: the id bitmap, the protocol as a state machine, its runs, where they lead, and one pass as the code runs it |
| `platform_keys`, `platform_sharing_laws` | sharing of the platform keys of a connector |
| `vault`, `vault_binding`, `vault_store`, `vault_runs` | vault rows sealed under their own identity |
| `doc_patch`, `doc_patch_laws`, `doc_patch_pages` | partial editing of a markdown page: the patch, its laws, and the patched page line by line |
| `lock_closure`, `lock_walk`, `lock_conformity` | what a lock file prescribes, and conformity |
| `percent`, `templates`, `custom_ops`, `custom_ops_plan`, `custom_ops_laws`, `custom_ops_decoding`, `custom_ops_segments`, `custom_ops_examples` | operations described in data |
| `asgi`, `body_limit`, `body_limit_call`, `disconnect_guard` | the body bound and the disconnect guard |
| `export_names`, `doc_export`, `doc_export_walk` | the export of a page tree |
| `embeddings`, `embedding_calls`, `embed_worker`, `embed_laws`, `embed_edits` | chunking, batches, indexing rounds, and edits between their steps |
| `calendar` | months added to a date |
| `options`, `decimal`, `finite_sets`, `texts` | shared vocabulary |

## Assumptions

- The stores are abstract: the database a map from ids to rows, the object store a map from
  months to archives (readable or not), ciphertexts values that open under one master key and
  one bound identity. Uploads, failures of writes, the answer of the embedding service and the
  behaviour of a wrapped application are arbitrary inputs.
- Lines may enter an old month at any time. The protocol theorems that need it say
  `OutsideWindow`: not between the snapshot of a month and the end of its purge by that pass.
  What happens inside that window is proved too.
- `empreinte_deps.prescrits` forgets the source of a package (oto_mcp/empreinte_deps.py:201), so
  the exact result holds when name and version identify a package of the lock (`Identified`). For
  every other lock the walk still ends, refuses only locks that are inconsistent, and lists only
  what is reachable.
- Ids of pages and of rows are distinct (primary keys).

## Where the code and its own words differ

The code is modelled as it is; each of these is a theorem of the project.

- A line that enters an open window is lost exactly when it falls at or after the deletion
  cursor (`JournalRuns.LateLineFate`, with an instance in `JournalRuns.WindowLosesALine`).
- A grant on a free-tier connector adds nobody to the list of a key: on a key that a revocation
  closed, it serves nobody (`PlatformSharingLaws.GrantServes`,
  `PlatformSharingLaws.FreeTierGrantCanServeNobody`). Revoking under an unknown label does nothing
  (`PlatformSharingLaws.RevokeCuts`).
- A merge keeps the stricter of two quotas, yet what the surviving account gets can get looser:
  exactly when, no refusal standing, the first key that admitted it or listed the merged account
  gives it by then a looser quota than the first one that admitted it
  (`PlatformSharingLaws.MergedVerdictLoosensIff`). It happens in two ways
  (`PlatformSharingLaws.MergedVerdictLoosensInTwoWays`): it inherits a quota on a key where it had
  none of its own (`PlatformSharingLaws.MergeCanLoosenAQuota`), or it goes over to a more recent key
  that listed the merged account (`PlatformSharingLaws.MergeCanMoveToALooserKey`).
- Rotating a key dates it first: a caller that a more recent key served goes over to it, with its
  quota or without one (`PlatformSharingLaws.RotationChangesAVerdictIff`,
  `PlatformSharingLaws.RotationCanLiftAQuota`).
- The text a ciphertext is bound to does not separate its parts: with a `:` in a connector, a
  ciphertext opens at another row (`VaultBinding.ColonsConfuseRows`). The rows of an entity are
  told apart exactly when none of its connectors begins with another one and a `:`
  (`VaultBinding.ToldApartIff`).
- Renaming an account to one that exists, or to itself, loses a row
  (`VaultStore.RenameLosslessIffFree`).
- The announced extent is documented as refusing what the patch refuses; it never refuses an
  `append` or a `prepend`, nor any patch of the preamble
  (`DocPatchLaws.ExtentNeverRefusesAdditions`, `DocPatchLaws.PreambleExtentRefusesNothing`).
- Two replacements of disjoint sections commute exactly when neither new body bears the other
  title, and repeating one changes nothing exactly when its body bears neither its own title
  again nor a heading that closes the section (`DocPatchLaws.DisjointReplacesCommute`,
  `DocPatchLaws.ReplaceTwiceIsOnce`).
- A set of extras the lock cannot resolve stops the comparison before a later set that conforms
  (`LockConformity.UnreadableSetHidesAConformingOne`).
- A path template with a brace that belongs to no placeholder can be accepted, and the order of
  the arguments then changes the call (`CustomOpsExamples.StrayBracesMakeOrderCount`).
- A value is refused when it would leave its segment, raw or once decoded; but a value that falls
  within an escape the template opens finishes that escape: `/%2{x}%2{x}` with `e` decodes to `/..`
  (`CustomOpsExamples.FinishedEscapesLeaveTheTemplate`). The decoded path is the one meant, for
  every call, exactly when no placeholder falls within an escape (`CustomOpsDecoding.DecodedPathIff`).
  It leaves its segments for some call exactly when a placeholder that takes texts comes just after
  `%` or `%2`, or one that takes booleans just after `%2` (`CustomOpsSegments.DecodedPathStaysIff`,
  for templates without a placeholder of numbers only just after `%`).
- The body bound holds only for applications that wait for one message at a time: a second
  receive already waiting when the bound is crossed is still answered
  (`BodyLimit.LimitKeptIffOneWaits`). A request cancelled after the cut gets no answer at all.
- The disconnect guard takes any last piece of a body for the end of the response, even one the
  server refused because no head had been sent (`DisconnectGuard.OneWholeResponse`).
- Exported file names are distinct, but a leaf `x` next to a page `x.md` with children gives a
  file and a folder of the same name (`DocExport.FileInTheWayIff`,
  `DocExportWalk.UnpackingCanCollide`). The comment of `_slug` lists `_` among the characters kept;
  the expression removes it, and distinctness rests on that.
- A blank page is never marked clean by the indexing worker. Sixteen of them with the lowest ids
  stop the indexing of every other page (`EmbedLaws.BlockedForever`). A failure of the second write
  leaves a page clean with old vectors (`EmbedLaws.WrittenWholeIff`), although the page is said to
  stay to be indexed (oto_mcp/embed_worker.py:31).
- An edit between the reading and the writing of a page is said to leave it to be indexed
  (oto_mcp/db/projects.py:1360-1362). It does not: the page is clean with its old vectors
  (`EmbedEdits.EditIsNotSeen`). Over every run the digest kept of a clean page is that of its present
  text exactly when no such edit changed the digest, and its vectors are those of that text exactly
  when, besides, the page was settled whole: both writes went through, or the vectors left in place
  were already right (`EmbedEdits.CleanIsIndexedIff`). Without any edit, a failed second write is
  enough to break it (`EmbedEdits.OldOverflowIsKept`).
- Chunk sizes below 200 cut words at the start of a long text: the bound of the search is then
  negative and counts from the end (`Embeddings.SmallSizesCutAnywhere`).
- Adding a month at a time drifts: after a short month the day of the renewal stays cut
  (`Calendar.IterateAgainstPlusMonths`). The assertion that closes `_safe_replace` as unreachable is
  reached past the year 9999 (`Calendar.SafeReplace`).

## Model

| member | source | states |
|---|---|---|
| `BlockedBitmap.SetBitChangesOneBit` | deploy/archive_tool_calls.py:292-297 | setting a bit of an octet sets that bit and leaves the seven others |
| `BlockedBitmap.MarkRepresents` | deploy/archive_tool_calls.py:284-301 | setting the bit of `n` turns the bitmap of a set into the bitmap of that set with `n`, negative ids included |
| `BlockedBitmap.Ids.constructor` | deploy/archive_tool_calls.py:288-290 | a new bitmap is that of the empty set |
| `BlockedBitmap.Ids.Add` | deploy/archive_tool_calls.py:292-297 | the set gains `n`, and `distincts` stays its size, with the blocks updated in place |
| `BlockedBitmap.Ids.Contains` | deploy/archive_tool_calls.py:299-301 | the test agrees with membership in the set |
| `JournalProtocol.StepKeeps` | deploy/archive_tool_calls.py:501-519 | every step of a pass, a crash or an insertion outside the window keeps the invariant: lines kept or archived, archives sound, registry equal to the archives |
| `JournalProtocol.DistinctCount` | deploy/archive_tool_calls.py:393-397 | as many distinct ids as records means no id twice: the counting test the resumption relies on |
| `JournalProtocol.KeyTellsTheMonth` | deploy/archive_tool_calls.py:140-141 | two months never share an object |
| `JournalProtocol.AdoptedIdsAreThoseLeft` | deploy/archive_tool_calls.py:393-410 | the counts that adopt an unrecorded object prove that its ids are exactly the ids still in the database |
| `JournalProtocol.ResumedRecordsAreTheLines` | deploy/archive_tool_calls.py:373-419 | in every reachable state a month taken up again has each line left in its archive as it is, and an adopted object holds these lines once each and nothing else |
| `JournalRuns.RunKeepsInv` | deploy/archive_tool_calls.py:37-50 | the invariant holds at every point of every run of passes, crashes and insertions |
| `JournalRuns.NoLineIsLost` | deploy/archive_tool_calls.py:501-519 | a line that ever entered is in the database unchanged, or it is no run fact and its month has a readable object with that very line, recorded with the count of the object |
| `JournalRuns.NeverRewritten` | deploy/archive_tool_calls.py:231-281 | over any run, insertions anywhere included, an existing object and an existing registry line never change |
| `JournalRuns.PassKeepsInv` | deploy/archive_tool_calls.py:465-524 | steps that insert nothing stay outside the windows and keep the invariant |
| `JournalRuns.PassLosesNoLine` | deploy/archive_tool_calls.py:465-524 | a line in the database when a pass begins is there when it ends or is cut short, or in the readable and recorded archive of its month |
| `JournalRuns.PurgeFate` | deploy/archive_tool_calls.py:445-462 | by the end of a purge a line is gone exactly when it is archivable, of that month and at or after the cursor; otherwise it is untouched |
| `JournalRuns.LateLineFate` | deploy/archive_tool_calls.py:445-462 | a line that enters the open window survives if and only if the purge is already past it |
| `JournalRuns.BatchesAreBounded` | deploy/archive_tool_calls.py:105-179 | a batch of any run holds between one line and 20000, none of them a run fact |
| `JournalRuns.CopiedArchive` | deploy/archive_tool_calls.py:231-281 | a line that enters after the snapshot is in no archive of that pass |
| `JournalRuns.WindowLosesALine` | deploy/archive_tool_calls.py:170-179 | a concrete run from an empty store in which an archived month receives a line during its purge and nothing keeps it |
| `JournalConvergence.RunOnTrack` | deploy/archive_tool_calls.py:37-50 | with faithful uploads and no foreign insertion, every state of every run, crashes included, is on the way to one result |
| `JournalConvergence.StaysOnTrack` | deploy/archive_tool_calls.py:37-50 | the same from any point already on the way |
| `JournalConvergence.OnTrackAccepts` | deploy/archive_tool_calls.py:373-419 | no such state is one a pass refuses: whatever was cut short, the month is exported or taken up again |
| `JournalConvergence.NothingLeftIsFinished` | deploy/archive_tool_calls.py:501-519 | once no archivable line is left, every month that had one has its whole object and its registry line |
| `JournalConvergence.FinishedIsOneState` | deploy/archive_tool_calls.py:37-50 | two finished worlds have the same database, the same registry and objects of the same records |
| `JournalPass.BatchAdvances` | deploy/archive_tool_calls.py:170-179 | after a batch, no remaining line of the month lies before the new cursor, however many share one instant |
| `JournalPass.PurgeIsLocal` | deploy/archive_tool_calls.py:163-179 | purging a month empties it and leaves what is archivable in every other month |
| `JournalPass.Pass.ReadBack` | deploy/archive_tool_calls.py:304-333 | the count is the number of records read and the bitmap holds exactly their ids |
| `JournalPass.Pass.CountOutside` | deploy/archive_tool_calls.py:354-370 | counts the archivable lines of the month, and those the bitmap misses |
| `JournalPass.Pass.ResumeMonth` | deploy/archive_tool_calls.py:373-419 | a month is taken up again exactly when its object reads with no id twice and holds every line left, its registry line is of that object and of its count, and without a registry line it holds no other line; its archive then holds every line left, as it is |
| `JournalPass.Pass.CopyMonth` | deploy/archive_tool_calls.py:261-268 | the export lists every archivable line of the month once, and nothing else |
| `JournalPass.Pass.SelectBatch` | deploy/archive_tool_calls.py:170-179 | a batch is the first lines of the month from the cursor on, at most the limit, and all of them when fewer remain |
| `JournalPass.Pass.ExportMonth` | deploy/archive_tool_calls.py:231-281 | an export writes the object only where there was none, as the upload goes, and nothing else |
| `JournalPass.Pass.DeleteMonth` | deploy/archive_tool_calls.py:445-462 | the batch loop ends having deleted every archivable line of the month and nothing else, and returns their number |
| `JournalPass.Pass.ProveMonth` | deploy/archive_tool_calls.py:501-510 | the proof that authorises the deletion succeeds exactly when the month may be exported or taken up again, and changes neither the database nor the registry; a month just exported was read back with the number of lines the listing announced |
| `JournalPass.Pass.ProcessMonth` | deploy/archive_tool_calls.py:501-519 | one month: purged of exactly its archivable lines once proved and recorded, left alone by `--export-only`, and untouched in the database when refused |
| `JournalPass.Pass.RunPass` | deploy/archive_tool_calls.py:465-524 | a pass adds steps of its own to the run, no insertion among them, and keeps the invariant; it deletes no run fact and no line of a month still in the window; when it succeeds no archivable line is left, and uninterrupted from any undisturbed state it does succeed and ends in the finished state |
| `PlatformSharing.ServedIff` | oto_mcp/access/platform_grant.py:93-117 | a caller is served exactly when no key of the connector denies it and some key admits it |
| `PlatformSharingLaws.ServedFromTheLists` | oto_mcp/access/platform_grant.py:43-117 | who is served, from the lists themselves: an account none of whose scopes a key refuses, and that some key names, is open to, or is lent to, loans to everyone and to its circles included |
| `PlatformSharingLaws.QuotaFromTheLists` | oto_mcp/access/platform_grant.py:83-90 | the quota read is that of the most specific scope that has one there: account, team, organisation, then the key |
| `PlatformSharing.PlatformKeys.Grant` | oto_mcp/credentials_store.py:347-408 | refused exactly without a key, for an unknown label or without the quota the connector demands, and then nothing changes. Otherwise the named key (the most recent without a label) gets the quota if one is given and keeps its quotas as they are if none is, and lists the scope unless it is open to all or has a free tier; every key stops refusing the scope; nothing else changes |
| `PlatformSharing.PlatformKeys.Revoke` | oto_mcp/credentials_store.py:411-463 | on every key the label names (every key without one) the scope is refused, no longer listed, without a quota, and the key closes if it listed that scope alone; the other keys are as they were |
| `PlatformSharing.PlatformKeys.SetKey` | oto_mcp/credentials_store.py:1478-1522 | a rotation moves the key first with the agreements it names and keeps the others, its list, its loans and its mode; a new key is first, closed unless the connector has a free tier, and shared with nobody; the other keys are as they were, in order |
| `PlatformSharing.PlatformKeys.Merge` | oto_mcp/credentials_store.py:1964-2020 | in the lists, refusals and quotas of every key the surviving account stands for the merged one, the rest is untouched, and the number returned is that of the keys that named it |
| `PlatformSharing.Repoint` | oto_mcp/credentials_store.py:1944-1954 | a repointed list names the new account exactly when it named either, keeps everyone else, and is empty only if it was: an allowlist never empties |
| `PlatformSharingLaws.RepointInPlace` | oto_mcp/credentials_store.py:1944-1954 | the surviving account takes the place of the first of the two and comes once; the others keep theirs, in order |
| `PlatformSharingLaws.DeniedAfterGrant` | oto_mcp/credentials_store.py:374-398 | a grant lifts the refusal of its own scope on all keys, and of no other |
| `PlatformSharingLaws.DeniedAfterRevoke` | oto_mcp/credentials_store.py:440-463 | a revocation adds its own scope to the refusals and lifts none |
| `PlatformSharingLaws.DeniedAfterMerge` | oto_mcp/credentials_store.py:1964-2020 | after a merge the refusal of the old account is that of the new one, others are as they were |
| `PlatformSharingLaws.DeniedAfterDeposit` | oto_mcp/credentials_store.py:1504-1514 | a rotation or a new key that does not name the refusals keeps each of them |
| `PlatformSharingLaws.RevocationSticks` | oto_mcp/credentials_store.py:411-463 | a revoked scope is not served after any sequence of grants to others, revocations, rotations, new keys and merges, followed through the merges |
| `PlatformSharingLaws.OthersKeepTheirVerdict` | oto_mcp/credentials_store.py:347-463 | a grant or a revocation leaves the verdict, key and quota, of every caller it does not name |
| `PlatformSharingLaws.MergeKeepsOtherVerdicts` | oto_mcp/credentials_store.py:1964-2020 | a merge leaves the verdict of every other person |
| `PlatformSharingLaws.DepositServesNobodyNew` | oto_mcp/credentials_store.py:1478-1522 | a rotation, or a new key of a connector without free tier, changes for nobody whether it is served |
| `PlatformSharingLaws.GrantServes` | oto_mcp/credentials_store.py:347-408 | after an accepted grant the scope is served exactly when nothing else denies the caller and, on a free tier, some key already admitted it |
| `PlatformSharingLaws.FreeTierGrantCanServeNobody` | oto_mcp/credentials_store.py:392-396 | a free-tier key closed by a revocation for which an accepted grant serves nobody |
| `PlatformSharingLaws.RevokeCuts` | oto_mcp/credentials_store.py:411-437 | a revocation cuts the scope exactly when it names a key |
| `PlatformSharingLaws.MergeServes` | oto_mcp/credentials_store.py:1964-2020 | exactly when the merged person is served: no refusal of either identity, and a key that admits one of them |
| `PlatformSharingLaws.MergeKeepsStricterQuota` | oto_mcp/credentials_store.py:1957-1961 | the quota of the surviving account is one of the two and no looser than either, no quota being the loosest; other quotas are unchanged |
| `PlatformSharingLaws.MergedQuotaLoosensIff` | oto_mcp/credentials_store.py:1964-2020 | on one key: the quota the surviving account would have there gets looser exactly when it had none of its own and inherits one looser than what it had |
| `PlatformSharingLaws.MergedVerdictIs` | oto_mcp/credentials_store.py:1964-2020 | on all keys: after a merge the surviving account gets nothing if either was refused, else the first key that admitted it or listed the merged account, with its merged quota there |
| `PlatformSharingLaws.MergedVerdictLoosensIff` | oto_mcp/credentials_store.py:1964-2020 | what it gets gets looser exactly when neither was refused and the merged quota on that key is looser than its quota on the first key that admitted it |
| `PlatformSharingLaws.MergedVerdictLoosensInTwoWays` | oto_mcp/credentials_store.py:1964-2020 | then either the key is the same and a looser quota was inherited there, or it is a more recent one that did not admit it and listed the merged account |
| `PlatformSharingLaws.MergeCanMoveToALooserKey` | oto_mcp/credentials_store.py:1964-2020 | two keys without any quota line on which a merge takes the caller from 5 to no cap |
| `PlatformSharingLaws.MergeCanLoosenAQuota` | oto_mcp/credentials_store.py:1964-2020 | a key capped at 5 whose merged account goes from 5 to 100 |
| `PlatformSharingLaws.GrantGivesItsQuota` | oto_mcp/credentials_store.py:398-403 | on every key and for every caller: a granted quota is read on that key by those the scope targets, unless a more specific scope of theirs has one there; a grant without a quota, another key or another caller leaves what was read |
| `PlatformSharingLaws.QuotasOutliveOtherGestures` | oto_mcp/credentials_store.py:1504-1514 | on each key, a rotation that names no quota keeps that of every caller, and a revocation that of every caller it does not name |
| `PlatformSharingLaws.RotationChangesAVerdictIff` | oto_mcp/credentials_store.py:1504-1516 | a rotation changes what a caller gets exactly when it is served, the rotated key admits it and a more recent key did: it goes over to the rotated key |
| `PlatformSharingLaws.RotationCanLiftAQuota` | oto_mcp/credentials_store.py:1504-1516 | two open keys for which rotating the older one leaves every caller without a cap |
| `PlatformSharingLaws.NothingOpensAKey` | oto_mcp/credentials_store.py:443-447 | no gesture turns a closed or listed key into one open to all |
| `PlatformSharingLaws.NothingEverOpensAKey` | oto_mcp/credentials_store.py:347-463 | nor does any sequence of gestures |
| `Vault.RekeyKeepsPlaintexts` | oto_mcp/credentials_store.py:1807-1887 | after a re-key each row opens with its plaintext at exactly one place, all else of it kept, no two rows at the same place, and no row that comes from nowhere |
| `Vault.RekeyByOwner` | oto_mcp/credentials_store.py:1840-1852 | kind by kind: the readable row of a user, or of a member of any organisation, goes to the same row of the surviving account when that place is free, and stays otherwise; rows of any other owner stay as they are |
| `Vault.RekeyCounted` | oto_mcp/credentials_store.py:1807-1887 | the three counters are the rows gone from their place, those whose place was taken and those left because they do not open |
| `Vault.RekeyReplayMovesNothing` | oto_mcp/credentials_store.py:1831 | a replay finds nothing more to move |
| `Vault.TallySums` | oto_mcp/credentials_store.py:1834-1887 | moved, colliding and unreadable rows add up to the rows selected |
| `Vault.CopyKeepsPlaintexts` | oto_mcp/credentials_store.py:2023-2071 | after a copy each source row opens as before and so does its copy; rows of other connectors are untouched |
| `Vault.CopyByRow` | oto_mcp/credentials_store.py:2023-2071 | row by row: untouched, marked, or marked with a new copy that has its plaintext and its author and shares nothing |
| `VaultStore.CopyCounted` | oto_mcp/credentials_store.py:2023-2071 | the copies counted are the rows added, the unreadable ones those left without a mark |
| `Vault.CopyNeverResurrects` | oto_mcp/credentials_store.py:2035-2041 | whatever is removed under the new connector, the rows a replay still selects are unreadable: none comes back |
| `VaultBinding.BoundTextTellsTheRow` | oto_mcp/credentials_store.py:1065-1070 | rows whose parts keep to their separators are bound to the same text only if they are the same |
| `VaultBinding.OpensAtHomeOnly` | oto_mcp/credentials_store.py:1065-1079 | the ciphertext of such a row, put in another one, does not open there |
| `VaultBinding.ToldApartIff` | oto_mcp/credentials_store.py:1065-1070 | whatever its accounts are called, the rows of one entity are bound to distinct texts if and only if none of its connectors begins with another one and a `:` |
| `VaultBinding.ColonsConfuseRows` | oto_mcp/credentials_store.py:1065-1070 | two rows, one with a `:` in its connector, bound to one text |
| `VaultStore.RenameLosslessIffFree` | oto_mcp/credentials_store.py:1637-1662 | a renaming keeps every row and the plaintext if and only if the new account is free |
| `VaultStore.Store.Upsert` | oto_mcp/credentials_store.py:1332-1365 | with an expected version, an existing row is written exactly when it is still at that version; a written row opens with the secret, goes up one version, keeps what it shares and takes the author and the mark given; every other row is as it was |
| `VaultStore.Store.RenameAccount` | oto_mcp/credentials_store.py:1637-1662 | false without the row, an error and nothing written when it does not open, else the row under its new account with its plaintext and its mark, the old one gone and the others as they were |
| `VaultStore.Store.EnsureNamedCoexistence` | oto_mcp/credentials_store.py:1594-1616 | refused exactly for an unnamed account beside named ones; an unnamed row gives way to a free name with its plaintext, and no unnamed account is left beside a named one |
| `VaultStore.Store.FreeName` | oto_mcp/credentials_store.py:1605-1607 | the loop ends on the first of `principal`, `principal-2`, `principal-3`… that is not taken |
| `VaultStore.Store.RekeyPersonal` | oto_mcp/credentials_store.py:1807-1887 | the readable rows of the user and of its members in every organisation move to the surviving account where the place is free, with all they hold; every other row stays; the counters are the rows moved and those whose place was taken, and with the unreadable ones add up to the rows of the merged account |
| `VaultStore.Store.CopyConnectorRows` | oto_mcp/credentials_store.py:2023-2071 | each unmarked row of the connector is marked, and copied where the place is free, or left as it is if it does not open; nothing is overwritten; the counters are the rows added and those left unmarked, and add up |
| `VaultRuns.EveryRowAlwaysOpens` | oto_mcp/credentials_store.py:1065-1079 | over any sequence of poses, removals, renamings, re-keyings and copies, every row opens under its own identity |
| `VaultRuns.NoSecretIsLost` | oto_mcp/credentials_store.py:1807-2071 | over any sequence that replaces and removes nothing on purpose, each row can be followed to a place of its own where the same plaintext opens |
| `DocPatch.LocatedIff` | oto_mcp/doc_patch.py:155-178 | a section is found exactly when one heading answers, from it to the first heading of its level or above |
| `DocPatch.LocateSection` | oto_mcp/doc_patch.py:155-178 | the loops find the same lines, level and refusals as the definition |
| `DocPatch.OutlineAgrees` | oto_mcp/doc_patch.py:200-216 | the plan, computed over headings only, gives every heading the extent computed over lines |
| `DocPatch.LocatedInOutline` | oto_mcp/doc_patch.py:200-235 | the extent found, the plan line and what is read agree on every uniquely named section |
| `DocPatch.SectionsAreLaminar` | oto_mcp/doc_patch.py:155-216 | of two sections, one holds the other or they are disjoint |
| `DocPatch.StripOwnHeading` | oto_mcp/doc_patch.py:132-152 | the loop absorbs the title a new body repeats, and the blank lines around it (which is `DocPatchPages.OwnTitleIsAbsorbed`) |
| `DocPatch.PopTrailingBlanks` | oto_mcp/doc_patch.py:285-297 | the loop pops exactly the blank lines at the end |
| `DocPatch.PatchSection` | oto_mcp/doc_patch.py:300-337 | the patch as the code builds it is the specified page, line by line that of `DocPatchPages.PatchedPageIs`, or the specified refusal |
| `DocPatch.PatchPreambleOf` | oto_mcp/doc_patch.py:340-379 | the same for the preamble |
| `DocPatchLaws.ExtentRefusesAsPatch` | oto_mcp/doc_patch.py:238-268 | for a replacement or a deletion, the extent is refused exactly when the patch is, for the same reason |
| `DocPatchLaws.ExtentNeverRefusesAdditions` | oto_mcp/doc_patch.py:238-268 | for an addition there is no extent and no refusal, even where the patch refuses |
| `DocPatchLaws.PreambleExtentRefusesNothing` | oto_mcp/doc_patch.py:255-257 | the extent of the preamble is never refused; its patch is, a deletion exactly without heading or with only blanks before it, a replacement exactly when its content bears a heading |
| `DocPatchLaws.PreamblePatchIsLocal` | oto_mcp/doc_patch.py:340-379 | where that patch is accepted, the lines after the announced extent stay |
| `DocPatchLaws.ReplaceIsLocal` | oto_mcp/doc_patch.py:300-337 | a replacement leaves every line outside the announced extent |
| `DocPatchLaws.DeleteIsLocal` | oto_mcp/doc_patch.py:285-337 | a deletion too, but for blank lines just before it, and takes the headings of the section alone |
| `DocPatchLaws.AdditionsKeepTheSection` | oto_mcp/doc_patch.py:300-337 | an addition keeps the section, but for blank lines at its end, and every line outside it |
| `DocPatchLaws.DisjointReplacesCommute` | oto_mcp/doc_patch.py:300-337 | replacements of disjoint sections commute line for line exactly when neither new body bears the other title; otherwise that order is refused |
| `DocPatchLaws.ReplacedIsFoundAgain` | oto_mcp/doc_patch.py:155-178 | after a replacement the section is found again at the same line exactly when the new body does not bear its title, and ends where it did exactly when the body closes it nowhere |
| `DocPatchLaws.ReadAfterReplace` | oto_mcp/doc_patch.py:219-235 | reading a replaced section gives back what was written |
| `DocPatchLaws.ReplaceTwiceIsOnce` | oto_mcp/doc_patch.py:300-337 | a repeated replacement changes nothing if and only if the body bears neither its title again nor a closing heading |
| `DocPatchLaws.PreamblePatchKeepsTheRest` | oto_mcp/doc_patch.py:340-379 | a patch of the preamble keeps every line from the first heading on |
| `DocPatchLaws.PreambleReplaceTwiceIsOnce` | oto_mcp/doc_patch.py:340-379 | a repeated replacement of the preamble changes nothing |
| `DocPatchPages.FoundIff` | oto_mcp/doc_patch.py:155-178 | a section is found exactly when one heading bears its title, and goes up to the next heading that is not deeper |
| `DocPatchPages.HeadingsAreThePlan` | oto_mcp/doc_patch.py:104-216 | the titles of a page, one by one, are those of its plan |
| `DocPatchPages.PatchRefusesIff` | oto_mcp/doc_patch.py:270-337 | each refusal of a patch and what it names: all the titles of the page, or all the lines that bear the title asked for; nothing else is refused |
| `DocPatchPages.OwnTitleIsAbsorbed` | oto_mcp/doc_patch.py:132-152 | when the first line of a body that is not blank bears the title, what is left is what follows from the next such line, or one empty line; any other body is taken as it is |
| `DocPatchPages.PatchedPageIs` | oto_mcp/doc_patch.py:300-337 | the patched page line by line, in the three modes with a content, the repeated title absorbed |
| `DocPatchPages.DeletedPageIs` | oto_mcp/doc_patch.py:285-297 | the page after a deletion, line by line |
| `DocPatchPages.RepeatedTitleIsFoundAgain` | oto_mcp/doc_patch.py:132-152 | a body that opens with the title and bears it nowhere else leaves a section found again at its line; one that bears it elsewhere leaves an ambiguous title |
| `DocPatchPages.ExtentNamesWhatGoes` | oto_mcp/doc_patch.py:238-268 | the titles of the page are those before the extent, the section's own if it goes, the subtitles the extent names, and those after |
| `DocPatchPages.PreamblePageIs` | oto_mcp/doc_patch.py:340-379 | the page with a new preamble, line by line: an addition keeps what was there unless it was blank |
| `DocPatchPages.PreambleRefusesIff` | oto_mcp/doc_patch.py:340-379 | each refusal of a patch of the preamble, and the page after its deletion |
| `LockClosure.ClosureIsMonotone` | oto_mcp/empreinte_deps.py:159-206 | with more extras of the project the prescribed set only grows, with the same versions |
| `LockClosure.ReachedIff` | oto_mcp/empreinte_deps.py:159-206 | what is reached is the project with its extras and, from what is reached, the one package each reference with a true marker leads to, with the extras it asks for |
| `LockClosure.FalseMarkersCountForNothing` | oto_mcp/empreinte_deps.py:196-198 | without the references whose marker is false the lock reaches the same packages, as consistently, with the same closure |
| `LockWalk.Target` | oto_mcp/empreinte_deps.py:169-179 | a reference has a target exactly when one package of the lock bears its name and has the version and the source it asks for |
| `LockWalk.Gather` | oto_mcp/empreinte_deps.py:192-196 | the references followed are those of the package and of its demanded extras |
| `LockWalk.Prescribed` | oto_mcp/empreinte_deps.py:159-206 | the walk ends on every lock, refuses only inconsistent ones and lists only reachable packages, each but the project one that a reference with a true marker names, at the version and source it asks for; where name and version identify a package it refuses exactly when a reachable reference has not one target or a name is reached in two versions, and its result maps exactly the reachable names to their versions |
| `LockWalk.FindRoot` | oto_mcp/empreinte_deps.py:144-152 | the root is found exactly when one package is editable or virtual at `.` |
| `LockWalk.ReadLock` | oto_mcp/empreinte_deps.py:144-206 | the same from the root: where name and version identify a package, the lock reads exactly when it has one root and a consistent closure from it |
| `LockConformity.NoDeviationIff` | oto_mcp/empreinte_deps.py:225-245 | no package deviates exactly when what is installed is what is prescribed, bootstrap packages aside |
| `LockConformity.Deviations` | oto_mcp/empreinte_deps.py:225-245 | the list holds exactly: the prescribed packages that are missing, the installed ones not prescribed but for pip, setuptools and wheel, those in another version or several, and those at another commit than the lock's; it is empty exactly on a match |
| `LockConformity.AllSetsAreTheSubsets` | oto_mcp/empreinte_deps.py:248-252 | the sets tried are all the subsets of the declared extras |
| `LockConformity.AllSetsGrow` | oto_mcp/empreinte_deps.py:248-252 | they come from the smallest up, the one without extra first |
| `LockConformity.Conformity` | oto_mcp/empreinte_deps.py:264-278 | on every lock: conforming only if the list of some set matches, deviations those of a list for the set without extra, an error only if some set does not read. When name and version identify a package: conforming exactly when some set conforms and every earlier one reads, an error exactly when some set does not read and every earlier one reads without conforming, otherwise the deviations of the set without extra |
| `LockConformity.ConformityIsOneOfTheSets` | oto_mcp/empreinte_deps.py:264-278 | when the lock reads with all the extras: conforming if and only if the closure of some subset matches what is installed |
| `LockConformity.UnreadableSetHidesAConformingOne` | oto_mcp/empreinte_deps.py:264-278 | a lock for which a set conforms and the answer is an error, because an earlier set does not read |
| `Percent.UnquoteAfterQuote` | oto_mcp/custom_ops.py:232-246 | decoding an encoded value gives the value, whatever follows it |
| `Percent.QuoteIsSafe` | oto_mcp/custom_ops.py:232-246 | an encoded value is made of unreserved characters and escapes, and is a dot segment only if the value is |
| `Percent.QuoteOctetIs` | oto_mcp/custom_ops.py:246 | letters, digits and `- . _ ~` are kept, any other octet is `%` and two capital hexadecimal digits (section 2.1 of RFC 3986) |
| `Templates.ParseIsFaithful` | oto_mcp/custom_ops.py:46-65 | a template whose braces all belong to placeholders reads into pieces without loss, its holes being the placeholders found in the text |
| `Templates.PlaceholdersIff` | oto_mcp/custom_ops.py:64-65 | the placeholders of any text, stray braces or not, are the names without a brace it has between braces |
| `Templates.ReplaceIsFill` | oto_mcp/custom_ops.py:294-297 | replacing a placeholder in the text is filling the holes of that name |
| `Templates.FillAfterFillAll` | oto_mcp/custom_ops.py:294-297 | filling one more name after others is filling them all at once |
| `Templates.SegmentsOfFilled` | oto_mcp/custom_ops.py:294-297 | the segments of a filled path are the segments of the template, each filled |
| `CustomOps.ValidateOne` | oto_mcp/custom_ops.py:120-166 | no problem is reported exactly for an accepted operation |
| `CustomOps.AcceptedIff` | oto_mcp/custom_ops.py:64-166 | what an accepted operation is, character by character: its name, verb, description, relative path and placeholders, arguments and routes |
| `CustomOps.NormalizedStaysAccepted` | oto_mcp/custom_ops.py:189-198 | a stored operation, normalised, is still accepted and routes its arguments the same way |
| `CustomOps.ValidateOperations` | oto_mcp/custom_ops.py:169-198 | a list is accepted exactly when it is short and light enough, names are distinct and each operation is accepted; it is stored in order, normalised |
| `CustomOpsPlan.RouteArgs` | oto_mcp/custom_ops.py:291-304 | routing succeeds exactly when each argument fits its place, and the loop rewrites the path one argument after the other |
| `CustomOpsPlan.PlanCall` | oto_mcp/custom_ops.py:265-306 | for an accepted operation: refused exactly when an argument given is undeclared, of a wrong type or unfit for its place, or a required one is missing; otherwise the plan has the operation's verb and each argument given, saved variables included, once with its value: in the path for a placeholder, else in the query or in the body as routed, or by the verb when not routed; and nothing else |
| `CustomOpsPlan.EffectiveIs` | oto_mcp/custom_ops.py:273-277 | a call is made of the arguments given a value, and of the declared ones that are not and that a saved variable fills |
| `CustomOpsPlan.PlanIsComplete` | oto_mcp/custom_ops.py:289-306 | the plan of an accepted operation holds each argument given once, and nothing else |
| `CustomOpsLaws.PathIsFilled` | oto_mcp/custom_ops.py:294-297 | the successive rewritings of the path fill each placeholder with the encoded value of its argument |
| `CustomOpsLaws.OrderDoesNotMatter` | oto_mcp/custom_ops.py:265-306 | the same arguments in another order give the same plan |
| `CustomOpsLaws.CallDoesNotDependOnOrder` | oto_mcp/custom_ops.py:265-306 | also when null arguments are dropped and saved variables fill in: accepted or refused alike, with one plan |
| `CustomOpsLaws.EveryHoleHasAValue` | oto_mcp/custom_ops.py:148-155 | what validation demands makes every placeholder of an accepted call have a value |
| `CustomOpsLaws.PlannedPathKeepsItsShape` | oto_mcp/custom_ops.py:232-246 | no brace is left; the path has the segments of the template, and one that takes a value is neither empty, nor `.`, nor `..`, nor split |
| `CustomOpsLaws.EachArgumentOnce` | oto_mcp/custom_ops.py:294-304 | each argument is in exactly one of path, query and body, the path ones being the placeholders |
| `CustomOpsLaws.GetHasNoBody` | oto_mcp/custom_ops.py:163-166 | a GET that was accepted never carries a body |
| `CustomOpsDecoding.DecodedPathIff` | oto_mcp/custom_ops.py:232-246 | the path of every accepted call decodes to the decoded template with the values as passed, if and only if no placeholder falls within an escape the template opens (or no call is accepted) |
| `CustomOpsDecoding.OpenTemplateMisleads` | oto_mcp/custom_ops.py:232-246 | otherwise each accepted call has another one, of the same types, that decodes to something else |
| `CustomOpsSegments.DecodedPathKeepsItsShape` | oto_mcp/custom_ops.py:232-246 | a call none of whose values completes an escape as a separator or a dot: the decoded path has the segments of the decoded template, those that take a value neither empty, nor dots, nor split |
| `CustomOpsSegments.ExposedLeavesItsSegment` | oto_mcp/custom_ops.py:26-29 | with a placeholder that takes texts just after `%` or `%2`, or booleans just after `%2`, any accepted call gives another one whose decoded path has more segments |
| `CustomOpsSegments.DecodedPathStaysIff` | oto_mcp/custom_ops.py:26-29 | every accepted call keeps the segments of the decoded template if and only if there is no such placeholder (or no call is accepted) |
| `CustomOpsExamples.StrayBracesMakeOrderCount` | oto_mcp/custom_ops.py:294-297 | an accepted operation with a stray brace for which two orders give two paths |
| `CustomOpsExamples.FinishedEscapesLeaveTheTemplate` | oto_mcp/custom_ops.py:26-29 | an accepted operation and an accepted call whose path decodes to `/..` |
| `Asgi.PhaseTells` | oto_mcp/client_disconnect_guard.py:113-123 | nothing taken, a response begun or one whole response are what the three phases of the server mean |
| `Asgi.BegunIffStartSent` | oto_mcp/client_disconnect_guard.py:119-120 | a response is begun exactly when a head was sent |
| `Asgi.CompleteIffEndAfterStart` | oto_mcp/client_disconnect_guard.py:121-122 | it is over exactly when a last piece was sent after a head |
| `BodyLimit.ReportIsIdentity` | oto_mcp/borne_corps.py:111-135 | in report mode nothing changes in either direction, for every interleaving |
| `BodyLimit.UncutIsIdentity` | oto_mcp/borne_corps.py:111-135 | enforcing, nothing changes as long as nothing is cut |
| `BodyLimit.PlainIsTransparent` | oto_mcp/borne_corps.py:113-132 | without the wrapper all that the application sends reaches the client and all the server hands over reaches the application, in order |
| `BodyLimit.CutLooksLikeADeparture` | oto_mcp/borne_corps.py:113-132 | the message that makes a cut is handed over as a departure, so is the answer to every later receive, and nothing more reaches the client |
| `BodyLimit.CutIff` | oto_mcp/borne_corps.py:117-124 | a request is cut exactly when the message that brings the body over the bound arrives before any head is sent |
| `BodyLimit.AtMostTheLimit` | oto_mcp/borne_corps.py:113-125 | an application that waits for one message at a time is given at most the bound before its response starts |
| `BodyLimit.LimitKeptIffOneWaits` | oto_mcp/borne_corps.py:113-125 | from any point before the cut and the response, the bound holds for all the messages to come if and only if at most one receive waits |
| `BodyLimitCall.Wrapper.constructor` | oto_mcp/borne_corps.py:111 | a request starts with nothing received, counted, cut or answered |
| `BodyLimitCall.Wrapper.Arrived` | oto_mcp/borne_corps.py:116-125 | updates the flags for a message that arrived, counts the crossing once and hands a disconnection over in its place when it cuts |
| `BodyLimitCall.Wrapper.Answering` | oto_mcp/borne_corps.py:127-132 | a message of the application goes through unless the request was cut |
| `BodyLimitCall.RunInside` | oto_mcp/borne_corps.py:111-135 | the two closures, over any sequence of events, follow the specified run |
| `BodyLimitCall.Handle` | oto_mcp/borne_corps.py:95-144 | one request from outside: pass-through, refusal of an announced size, or the bounded run, then the swallowed exception and the refusal |
| `BodyLimitCall.AnnouncedOverIff` | oto_mcp/borne_corps.py:103-105 | a request is announced too big exactly when its first `content-length`, wherever it stands, is a number over the bound |
| `BodyLimitCall.NotRefusedIsIdentity` | oto_mcp/borne_corps.py:95-144 | a request that is not refused is served as if the wrapper was not there, and ends as the application does |
| `BodyLimitCall.RefusedGetsOnlyTheRefusal` | oto_mcp/borne_corps.py:134-151 | for a refused request the server takes exactly the 413 (section 15.5.14 of RFC 9110) and nothing of the application; only a cancellation leaves it without |
| `BodyLimitCall.OneAnswerNeverAMix` | oto_mcp/borne_corps.py:127-144 | for an application that sends a head first, the stream itself is the application's or the refusal, never both |
| `BodyLimitCall.OverflowCountedOnce` | oto_mcp/borne_corps.py:103-125 | an overflow, announced or met on the way, is counted once, and nothing else is |
| `DisconnectGuard.PassesIffAFault` | oto_mcp/client_disconnect_guard.py:82-98 | an exception passes exactly when some way down its groups ends on a fault that is no departure |
| `DisconnectGuard.GuardedPathIff` | oto_mcp/client_disconnect_guard.py:67-79 | the guarded path is `/mcp` and any number of `/` |
| `DisconnectGuard.Wrapper.constructor` | oto_mcp/client_disconnect_guard.py:113-115 | a request starts with nothing sent |
| `DisconnectGuard.Wrapper.Send` | oto_mcp/client_disconnect_guard.py:117-123 | the flags say whether a head and a last piece were ever sent |
| `DisconnectGuard.Wrapper.Complete` | oto_mcp/client_disconnect_guard.py:143-155 | adds the head and the last piece that the flags miss |
| `DisconnectGuard.Handle` | oto_mcp/client_disconnect_guard.py:108-140 | what the server is sent and what is raised, for every application |
| `DisconnectGuard.ObservedIs` | oto_mcp/client_disconnect_guard.py:67-155 | nothing changes but for a POST on `/mcp`; there a fault is raised as it is, and a response left without its end gets it, after a 202 head if it had none and the client left |
| `DisconnectGuard.AdditionsAreTaken` | oto_mcp/client_disconnect_guard.py:143-155 | the server takes what the guard adds, and the response is then whole if no last piece had been sent |
| `DisconnectGuard.OneWholeResponse` | oto_mcp/client_disconnect_guard.py:108-140 | when the guard returns after a begun response or a departure, the server has exactly one whole response if and only if the application did not spend its last piece before the head |
| `DisconnectGuard.HeadFirstLosesNoEnd` | oto_mcp/client_disconnect_guard.py:117-123 | an application that sends a head before any body meets that condition |
| `DisconnectGuard.RaisesOnlyFaults` | oto_mcp/client_disconnect_guard.py:125-129 | what is raised is the application's own fault, with nothing added to the stream |
| `DisconnectGuard.NothingAddedToAWholeResponse` | oto_mcp/client_disconnect_guard.py:134-140 | nothing is added to a whole response, nor to one never begun when the application returns |
| `ExportNames.Slug` | oto_mcp/doc_export.py:21-26 | a slug is a name: not empty, of letters, digits, dots and dashes, and neither starting nor ending with the last two |
| `ExportNames.SlugKeepsTheLetters` | oto_mcp/doc_export.py:21-26 | a slug has the letters and digits of its title in order, and is made of the number of the page exactly for a title without any |
| `ExportNames.SlugOfTwoWords` | oto_mcp/doc_export.py:21-26 | words set apart by any blanks are set apart by one dash |
| `ExportNames.FreeName` | oto_mcp/doc_export.py:50-53 | the renaming loop keeps a free name and otherwise ends on the first free one of its series, from `-2` on |
| `ExportNames.SameFileName` | oto_mcp/doc_export.py:54-59 | a file name tells the names it is made of and whether it is a folder's: no child collides with `_index.md` |
| `ExportNames.OpensFileName` | oto_mcp/doc_export.py:54-59 | a file name stands where another needs a folder exactly when that folder is named as the file of a leaf |
| `DocExport.NamesAreDistinct` | oto_mcp/doc_export.py:46-53 | siblings bear distinct names, renaming included |
| `DocExport.NameIsFromTitle` | oto_mcp/doc_export.py:46-53 | a page is named after its own title, with a number from 2 on if need be |
| `DocExport.ChildrenInOrder` | oto_mcp/doc_export.py:32-34 | the children of a page keep the order of the list |
| `DocExport.TextHolds` | oto_mcp/doc_export.py:41-54 | a file holds the body of its page under its title, put on one line, or the body alone without a title |
| `DocExport.FileOfIs` | oto_mcp/doc_export.py:54-59 | a page is written below the folders of its ancestors, in `_index.md` of its own folder exactly when some page is under it |
| `DocExport.PathsAreShort` | oto_mcp/doc_export.py:45-61 | no page comes twice on a path from a root, whatever cycles exist elsewhere: the measure of the walk |
| `DocExport.OnePathEach` | oto_mcp/doc_export.py:32-34 | a page is reached by one path only |
| `DocExport.NamesTellPathsApart` | oto_mcp/doc_export.py:45-59 | the names along a path tell which path it is |
| `DocExport.DistinctFiles` | oto_mcp/doc_export.py:54-59 | two paths are written in the same file only if they are the same |
| `DocExport.FileInTheWayIff` | oto_mcp/doc_export.py:54-59 | unpacked, a file and a folder collide exactly when a leaf has a sibling with children named as its file |
| `DocExportWalk.Export.Walk` | oto_mcp/doc_export.py:45-59 | the recursion ends, writes every page below its starting point, keeps what was written and writes only files of paths with their texts |
| `DocExportWalk.BuildExport` | oto_mcp/doc_export.py:29-69 | all the paths have their files, there is no other, and the archive is made of them |
| `DocExportWalk.OneFileEach` | oto_mcp/doc_export.py:29-61 | each page that a root leads to has one file with its own text, no two pages share one, and every file is a page's |
| `DocExportWalk.NothingIffNoRoot` | oto_mcp/doc_export.py:64-66 | the export is empty exactly when no page is a root |
| `DocExportWalk.EntriesAreTheFiles` | oto_mcp/doc_export.py:64-68 | the entries of the archive are the files, one for one |
| `DocExportWalk.UnpackingCanCollide` | oto_mcp/doc_export.py:54-59 | three pages for which a file stands where a folder is needed |
| `Embeddings.Chunks` | oto_mcp/embeddings.py:41-60 | the loop ends and its chunks are the stripped slices that are not blank, the shortcut for short texts included |
| `Embeddings.SlicesAreTheText` | oto_mcp/embeddings.py:51-59 | the slices put together are the text, none empty and none longer than asked |
| `Embeddings.CutsBetweenWords` | oto_mcp/embeddings.py:54-57 | a cut falls on the last space between the bound of the search and the size asked, or is made at that size when there is none |
| `Embeddings.SmallSizesCutAnywhere` | oto_mcp/embeddings.py:55 | where that bound is the window, and where it is so far that spaces are ignored |
| `Embeddings.ChunksLoseOnlyBlanks` | oto_mcp/embeddings.py:41-60 | all the characters of the text that are not blank are in the chunks, in order |
| `Embeddings.ChunksAreSentWhole` | oto_mcp/embeddings.py:36-60 | no chunk is blank, longer than asked, or truncated when it is sent |
| `Embeddings.CapIs` | oto_mcp/embeddings.py:36-38 | the service is sent the text without its outer blanks, its first 16000 characters if it is longer, one space for a blank one |
| `Embeddings.NoChunkIffBlank` | oto_mcp/embeddings.py:45-47 | only a blank text has no chunk |
| `EmbeddingCalls.Batches` | oto_mcp/embeddings.py:78-89 | the batches hold all the texts in order, each within 16000 characters, none closed before the next text overflows it |
| `EmbeddingCalls.OneOrder` | oto_mcp/embeddings.py:103-104 | sorting an answer by index gives the one order of the batch |
| `EmbeddingCalls.EmbedTexts` | oto_mcp/embeddings.py:92-105 | one vector for each text, in the order of the texts, whatever order the service answers in |
| `EmbedWorker.Store.SkipUnchanged` | oto_mcp/embed_worker.py:37-45 | pages with an unchanged text are marked clean and counted, the others kept in order |
| `EmbedWorker.Store.WriteAll` | oto_mcp/embed_worker.py:60-72 | the one list of vectors, consumed page after page, gives each page those of its own chunks |
| `EmbedWorker.Store.IndexBatch` | oto_mcp/embed_worker.py:29-73 | the whole round: the pages written and the number returned, for every failure of the service and of the writes |
| `EmbedWorker.EachPageOnItsOwn` | oto_mcp/embed_worker.py:29-73 | what a round does to a page depends on that page alone, whatever fails for the others |
| `EmbedWorker.PageOutOfTheRound` | oto_mcp/embed_worker.py:32 | pages that were not read are as they were |
| `EmbedWorker.RoundReturns` | oto_mcp/embed_worker.py:45-73 | the number returned is that of the pages indexed or found indexed, and zero when the service fails, even if some were marked clean |
| `EmbedLaws.WrittenWholeIff` | oto_mcp/embed_worker.py:66-70 | a written page has exactly the vectors of its whole text if and only if the second write went through or its old overflow was right; it is clean either way |
| `EmbedLaws.StaysDirtyIff` | oto_mcp/embed_worker.py:37-72 | after a round the pages to index are those that were and that it did not read, or read with a new text and could not index |
| `EmbedEdits.RoundIsARun` | oto_mcp/embed_worker.py:29-73 | a whole round is a run of its steps without an edit |
| `EmbedEdits.CleanWasSettled` | oto_mcp/embed_worker.py:29-73 | over any order of rounds and edits, a page clean in the end was read by a round and settled from that reading, with no edit since |
| `EmbedEdits.SettledIsCurrentIff` | oto_mcp/db/projects.py:1358-1370 | the digest kept of a settled page is that of its present text exactly when no edit came between reading and settling, or the last one gave it back the digest read |
| `EmbedEdits.SettledIsIndexedIff` | oto_mcp/embed_worker.py:60-72 | a settled page has the vectors of its present text exactly when, besides, its second write went through or the vectors kept were right (for texts the digest tells apart) |
| `EmbedEdits.CleanIsIndexedIff` | oto_mcp/db/projects.py:1147-1173 | the two conditions, digest and vectors, for every page clean at the end of any run of rounds and edits |
| `EmbedEdits.OldOverflowIsKept` | oto_mcp/embed_worker.py:66-70 | a run without any edit that ends with a clean page, of the right digest, and without its vectors |
| `EmbedEdits.EditIsNotSeen` | oto_mcp/db/projects.py:1358-1370 | a page read, edited and written that ends clean with the vector of its old text |
| `EmbedLaws.BlockedBatch` | oto_mcp/db/projects.py:1348-1355 | sixteen idle pages before all the others are what every round reads |
| `EmbedLaws.BlockedForever` | oto_mcp/embed_worker.py:55-65 | and then no sequence of rounds changes anything |
| `EmbedLaws.RoundMovesIff` | oto_mcp/embed_worker.py:29-73 | with the service answering and no failure, a round indexes something if and only if it reads a page that is not idle |
| `Calendar.SafeReplace` | oto_mcp/billing.py:159-165 | of the four days tried the first that exists is the day or the last of the month; the assertion is reached exactly past the last year |
| `Calendar.MonthLengths` | oto_mcp/billing.py:159-165 | the lengths of the twelve months and the leap years of the calendar these dates live in |
| `Calendar.BeforeIsAnOrder` | oto_mcp/billing_runner.py:278 | of two moments one is before the other, down to the time of day, unless they are the same |
| `Calendar.AddPeriod` | oto_mcp/billing.py:149-156 | a year later in the same month or a month later, on the same day or the last one of that month, at the same time; nothing past the last year |
| `Calendar.PlusMonthsIsInMonth` | oto_mcp/deprecations.py:74-84 | the other addition lands in the month that many months away, backwards too |
| `Calendar.IterateIs` | oto_mcp/billing.py:149-165 | after `n` periods the month is `n` periods away, the day cut by every month on the way |
| `Calendar.IterateAgainstPlusMonths` | oto_mcp/deprecations.py:74-84 | against the other addition: the same month, never later, and the same day exactly when no month on the way is too short for it |
| `Calendar.SameForShortDays` | oto_mcp/billing.py:149-165 | for one period, or a day every month has, the two agree |
| `Calendar.NextIsLater` | oto_mcp/billing.py:149-165 | a period later is strictly later |
| `Calendar.CatchUp` | oto_mcp/billing_runner.py:276-280 | the loop ends on the first period end strictly after now |

## Left out

- Calendar months of the journal are an `Instant` (month, rank): time zones of `_bornes` and the format of dates are not modelled.
- The listing query `_months_to_archive`: a pass is given its result, `GoodListing`.
- The run lock, `--dry-run`, the disk space check, CSV, gzip and S3 internals: an archive is readable or not, an upload faithful or truncated.
- `grants_chain`, `connector_instances` and `loan_events` are not part of this model: chained connectors, the collision with a live instance and the loan journal are left aside.
- `suivre_les_prets_recus` (lateral loans) and `backfill_member_scope`, which may overwrite a member row.
- Member ids whose organisation part is written with leading zeros: `Member` holds a number.
- The heading expression, Unicode normalisation and the `length` of a plan line: a line is blank, plain, or a heading with level, text and compared key.
- PEP 508 markers are evaluated beforehand, PEP 503 names are canonical, and the order of the deviations in a report is not modelled.
- The messages of the validator, its checks of JSON shapes, Unicode blanks in paths, and `_variable_value`: variables come converted; texts are UTF-8 octets, and decoding is that of octets.
- Prescribed: for a lock where one name and version stand under two sources, the model does not say which of them the walk follows, nor then which verdict `Conformity` reaches.
- CallDoesNotDependOnOrder: one direction only, for templates whose braces all belong to placeholders; which stray braces make the order count depends on the types and literals around them, and one instance is given.
- DecodedPathStaysIff: not for a placeholder of numbers only just after `%`, where it depends on the pieces that follow (`/%{n}F` leaves with 2, `/%{n}G` does not); `DecodedPathKeepsItsShape` covers the calls there whose numbers have two digits or more, and backslashes brought by an escape are not followed.
- The classes of routes of the body bound, the report lines it logs, and numbers too long for Python to read in a `content-length`; an application is any sequence of events, each atomic but the wait for a message.
- The chain of causes behind `_is_client_disconnect`: an exception carries its verdict.
- Folding of titles, the sort of siblings by position (pages come in that order) and the compression of the export.
- HTTP calls to the embedding service, deleted pages, two workers at once, and the two other loops of the worker, which repeat the first one without chunks.
- The rest of the billing cycle, and the branch of `_tirer` that reads a date from a text.
