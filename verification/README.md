# Verified model of the vendor control plane's gates

The vendor control plane decides, in a number of small gates, whether bytes, graphs, grants and
credentials may be used. This project models those gates in Dafny and proves what each of them is
for: over all byte strings, graphs, grant states and documents, and over all runs of the protocols,
crashes and failures included.

| module | models |
|---|---|
| `ZipEndRecords`, `ZipWriter`, `ZipBytes` | the end records of an archive (PKWARE .ZIP File Format Specification, sections 4.3.14 to 4.3.16), read through a bounded tail window, against a reading of the whole file, a writer, and the layout in bytes |
| `StagedPublication` | downloading an artifact: staging, checks, publication without overwriting, rollback |
| `CoreMetadata` | the strict Core Metadata header reader, with folding (section 3.1.1 of RFC 822) |
| `LockDrift` | what may differ between two lock files |
| `RevisionGraph`, `ComposedHeads` | migration ancestry by depth-first walk, and by worklist over names |
| `TransitionGuard`, `TransitionProtocol` | admission of a deploy, and the one-use permission with its durable claim |
| `Retention` | revoking deletion, effective privileges, cascades over tables and over rows |
| `ImportClosure` | the executable Python surface as a least fixpoint |
| `PromotionLedger` | the descriptor promotion ledger with its two writes |
| `CredentialRenewal` | the lease renewal that compensates by revoking |
| `PublicLock`, `PublicLockLines` | the hash lock of public wheels, with a printer, and what its lines say |
| `SurfaceAdmission` | profile admission against the route filter |
| `Documents` | parsed values, and equality as the code compares them |
| `Graphs`, `PythonText`, `Bytes`, `Sequences`, `Wrappers` | shared definitions |

Code that works step by step is a method or a class with methods, proved against a reference
definition: a reading of absolute positions, a list of headers in file order, reachability by paths,
a relation on the state before and after. The lemmas are about those definitions, and each definition
is tied to the terms of its input: bytes, characters, lines, fields and named constants.

## What the code promises and does not keep

In each case the model follows the code, a lemma or an outcome shows how the promise fails, and
another says exactly when it is kept.

- **A signature after the end record begins.** The archive reader takes the last end signature of the
  file. An archive whose comment holds one is refused or read through it (`SignatureInComment`). What
  was written is read back if and only if the last signature begins an end record that states the same
  directory, in the ZIP64 case directly after a linked record with the same counts
  (`ReadBackExactly`). That may be a second end record inside the comment (`SecondEndRecord`); without
  a comment it can only be the archive's own (`WithoutComment`).
- **An asynchronous exception once an artifact is linked.** `fetch` promises a digest, an ordinary
  failure that leaves the target as it was, or `PublishedArtifactUnrecorded`. An exception that is not
  an `OSError` and arrives between the link and the end of the guarded block, during the removal of
  the staging directory, before the rollback, or after a rollback that failed, leaves the artifact at
  its path with neither digest nor report: outcome `Interrupted`, which occurs exactly when
  `StaysPublished` holds for a call that links (`Destination.Fetch`, `PromisedExactly`).
- **Identical lock files.** The drift gate says that what it does not exempt is identical. It compares
  with Python's equality, in which flags, numbers and fractions of the same value are equal, and so are
  the two zeros, at any depth. Replacing `true` by `1` in an unrelated package passes
  (`FlagForNumber`). What a clean comparison keeps is equal in that sense, and it is identical if and
  only if no value became one of another kind (`EqualIsIdentical`, `UndeclaredIdentical`). The
  promotion ledger compares sections the same way.
- **Branch labels in dependency edges.** The composed-heads check collects edge names as they are
  given. A static head that is reached only through a branch label is reported missing on a complete
  database (`LabelHidesHead`). `AcceptedExactly` says which databases are accepted.
- **What the retention checks do not see.** The cascade check skips an edge whose table is not
  classified, and the table query leaves out some schemas; nothing looks at inheritance or partitions,
  where PostgreSQL checks the privilege on the relation named only. Enforcement can succeed and a
  permitted DELETE still remove a withheld row, through an unclassified relation
  (`UnclassifiedRelationLosesRow`) or as part of the relation named (`WithheldPartLosesRow`). Withheld
  rows are safe from every sequence of permitted DELETE statements if and only if no relation that an
  online role may delete from has a part, itself included, that is withheld or whose rows cascade
  through an unclassified relation to a withheld table (`WithheldRowsSurviveExactly`).
- **A transition permission outlives its upgrade.** The permission is stored before the block that
  removes it is entered, and the `finally` clause restores another setting before the removal. An
  asynchronous exception at either place ends the upgrade without the removal. The permission is spent
  if and only if the removal is reached or an inspected deploy presented it before (`NativeUpgrade`);
  left live, it still admits at most one deploy (`EveryRunIsValid`).
- **Overlapping promotions.** The chain is checked when an entry is built, and the ledger is read again
  when it is appended. Two promotions built from one state and appended one after the other always fork
  the chain (`OverlapForks`). An entry keeps the chain exactly when the last entry found is still the
  one it supersedes and none found has its descriptor (`AppendKeepsExactly`).
- **Failing renewals.** The documentation says that a failed renewal preserves the old lease and that
  a known new token is revoked. When the renewal is interrupted after the rename, or closing the
  directory raises, it fails with the new token in place (`CloseFailureBreaksPromise`); interrupted
  while it holds the token, it neither writes, revokes nor reports it (`InterruptBreaksPromise`).
  `FailureKeepsHosts` and `FailureAccountsForToken` give the conditions for one renewal, and
  `HostsFollowsSuccess` says for every run which token hosts.yml holds.
- **Folding.** Folding a value at a space keeps it exactly when neither side has whitespace there, or
  only whitespace is cut off (`FoldingKeepsReading`, `DoubleSpace`). Inside a file the latter ends the
  headers, and is kept exactly when they ended there anyway (`BlankFoldEndsHeaders`). A header with no
  text of its own that is continued reads with a leading space (`ContinuedEmptyHeader`).
- **Bare module names.** The documentation of the import index says a bare name serves only imports
  of one component. The code tries the first component of longer imports too (`BareNameConsulted`).

## Model

| member | source | states |
|---|---|---|
| ZipEndRecords.ZipCentralDirectory | scripts/kernel_lock.py:1084-1246 | through the tail window the reader gives exactly what the last end record of the whole file claims at absolute positions, it accepts exactly when that record frames the file (comment ends at end of file, single disk, ZIP64 record, locator and end record contiguous, directory before the first end record), and each refusal names a defect the file has |
| ZipEndRecords.ReadZip64 | scripts/kernel_lock.py:1145-1215 | the ZIP64 branch succeeds exactly when a locator directly before the end record links a complete single-disk ZIP64 record that ends where the locator begins |
| ZipEndRecords.FindEndRecord | scripts/kernel_lock.py:1107-1137 | the window search finds the file's last signature whenever that record could close the file |
| ZipEndRecords.WindowSearch | scripts/kernel_lock.py:1110-1118 | the last signature in the window is the last of the file, or the file's last lies before the window |
| ZipEndRecords.BeforeWindow | scripts/kernel_lock.py:1110-1118 | a record before the window has more bytes after it than any comment can have, so nothing is lost |
| ZipWriter.WrittenFrames | scripts/kernel_lock.py:1129-1246 | the end records a writer emits, plain or ZIP64 with extensible data, frame the file and claim what was stated |
| ZipWriter.WrittenReadsBack | scripts/kernel_lock.py:1084-1246 | for any body and comment, the written size, offset, count and ZIP64 flag are read back when no later signature occurs |
| ZipWriter.ReadBackExactly | scripts/kernel_lock.py:1084-1246 | for any archive with any comment, plain or ZIP64, what was written is read back if and only if the last signature of the file begins an end record that states the same directory |
| ZipWriter.SecondEndRecord | scripts/kernel_lock.py:1116-1137 | an archive that is read back through a second end record in its comment |
| ZipWriter.AcceptedAreWritten | scripts/kernel_lock.py:1084-1246 | a file is accepted with a claim if and only if it is the writing of a well-formed archive that states that claim and whose end record is at the last signature |
| ZipWriter.LateSignatureRefused | scripts/kernel_lock.py:1116-1120 | a signature in the last 21 bytes makes the reader refuse |
| ZipWriter.WithoutComment | scripts/kernel_lock.py:1116-1137 | an archive without a comment is read back if and only if its fields hold no signature |
| ZipWriter.SignatureInComment | scripts/kernel_lock.py:1116-1137 | a well-formed archive that is refused |
| ZipBytes.ReadInBytes | scripts/kernel_lock.py:1107-1246 | a file whose last `50 4B 05 06` is given reads as a directory if and only if the bytes there state it, directly or through the bytes of a locator and a ZIP64 record, in little-endian order |
| ZipBytes.NoSignatureNoArchive | scripts/kernel_lock.py:1116-1118 | without these four bytes nothing is read |
| ZipBytes.EmptyArchive | scripts/kernel_lock.py:1107-1246 | the empty archive of 22 bytes reads as no entries |
| StagedPublication.Destination.Fetch | scripts/kernel_lock.py:1285-1378 | a digest is returned only for exit 0, status 200, a readable regular file of at most 128 MiB and the expected digest, with exactly those bytes now at the absent target, and whenever all that holds and nothing else fails; each failing check has its own reason; an ordinary failure leaves the target as it was, or as others left it; an unrecorded publication means cleanup and rollback both failed; and an exception leaves an unreported artifact exactly when it arrives where the link cannot be undone |
| StagedPublication.PromisedExactly | scripts/kernel_lock.py:1347-1378 | a call gives one of the three promised outcomes if and only if no asynchronous exception leaves its linked artifact behind |
| StagedPublication.Destination.PublishAtomically | scripts/kernel_lock.py:1255-1282 | an occupied target is never written, whether it was there before the check or appeared before the link |
| StagedPublication.Destination.Check | scripts/kernel_lock.py:1314-1346 | bytes pass exactly when exit, status, file kind, size and expected digest are all right, and each reason names the first check that fails |
| StagedPublication.OccupiedStays | scripts/kernel_lock.py:1255-1378 | in any run of calls, what occupies the target stays, and every later call fails |
| StagedPublication.AtMostOnePublication | scripts/kernel_lock.py:1285-1378 | in any run of calls at most one does not fail, and its checked bytes stay at the target |
| CoreMetadata.ParseCoreMetadata | scripts/kernel_lock.py:1950-2009 | accepts a text exactly when its lines before the first blank one are headers and continuations with each single header once and a well-shaped version, and gives every key its values in file order |
| CoreMetadata.ReadableExactly | scripts/kernel_lock.py:1936-1992 | lines that are not blank are readable if and only if each begins with a name of letters, digits and hyphens and a colon, or with a space or tab, and the first not with those |
| CoreMetadata.OrdinaryIsAccepted | scripts/kernel_lock.py:1950-2009 | any text of such headers with one `Metadata-Version` of digits, dot, digits, one `Name` and one `Version` is accepted and gives every header back in order |
| CoreMetadata.ValuesInOrder | scripts/kernel_lock.py:1988-1990 | the values of a key follow the order of its headers, and no other header adds to them |
| PythonText.LineEnds | scripts/kernel_lock.py:1972 | a line ends at its first break, and a carriage return with the line feed after it is one |
| CoreMetadata.ReadHeaders | scripts/kernel_lock.py:1969-1992 | the loop's map groups the unfolded header list |
| CoreMetadata.PrintedReadsBack | scripts/kernel_lock.py:1969-1992 | reading inverts printing for any header list, whatever follows the first blank line |
| CoreMetadata.PrintedTextReadsBack | scripts/kernel_lock.py:1969-1992 | the same from text: values without line breaks, printed one header a line, are read back whatever text follows the first blank line |
| CoreMetadata.BodyIsNotRead | scripts/kernel_lock.py:1973-1974 | in any file, text after the first blank line does not change the reading |
| CoreMetadata.FoldingKeepsReading | scripts/kernel_lock.py:1975-1982 | folding a value at a space keeps the reading if and only if neither side has whitespace there or only whitespace is cut off |
| CoreMetadata.FoldingInContext | scripts/kernel_lock.py:1969-1992 | folding at such a space changes nothing inside any file |
| CoreMetadata.BlankFoldEndsHeaders | scripts/kernel_lock.py:1973-1982 | inside a file, folding off mere whitespace ends the headers, and keeps the reading if and only if no header line followed |
| CoreMetadata.JoinStripped | scripts/kernel_lock.py:1981-1990 | stripping the parts and joining them equals stripping the whole exactly for foldable parts |
| CoreMetadata.DoubleSpace | scripts/kernel_lock.py:1975-1982 | a value with two spaces in a row that folding changes |
| CoreMetadata.ReprintIsStable | scripts/kernel_lock.py:1969-1992 | printing a reading and reading it again gives it back if and only if no value has outer whitespace |
| CoreMetadata.ContinuedEmptyHeader | scripts/kernel_lock.py:1981-1990 | a continued header with no text reads with a leading space |
| LockDrift.ReadEntries | scripts/kernel_lock.py:1828-1837 | every entry under its name and version, refused exactly for duplicates or no entries |
| LockDrift.DriftProblems | scripts/kernel_lock.py:2516-2583 | there is no problem if and only if everything outside the kernel, the declared movement and the content hash is equal as Python compares it, and those moved as allowed |
| LockDrift.KernelEntryProblems | scripts/kernel_lock.py:1848-1898 | clean exactly when one kernel entry on each side differs in version and files at most, or is unmoved when that is permitted |
| LockDrift.DeclaredDeltaProblems | scripts/kernel_lock.py:2435-2513 | clean exactly when the one entry moves from the declared version to the declared version, in three fields at most, bound to its wheel |
| LockDrift.KernelMoveExactly | scripts/kernel_lock.py:1848-1898 | a move of the kernel's one entry is clean if and only if only `version` and `files` differ and its source is the registry's address, or nothing differs and that is permitted |
| LockDrift.DeclaredMoveExactly | scripts/kernel_lock.py:2435-2513 | a declared move is clean if and only if the versions are the declared ones, only `version`, `files` and `dependencies` differ, the source is the registry's address, and the wheel agrees |
| LockDrift.HashMoveExactly | scripts/kernel_lock.py:2562-2578 | metadata is clean if and only if both content hashes are there and differ, and no other field does |
| LockDrift.OtherProblemsNamed | scripts/kernel_lock.py:2545-2557 | each package outside the exemptions that was added, removed or no longer equal is reported, and no other |
| LockDrift.UndeclaredKept | scripts/kernel_lock.py:2516-2583 | over any chain of lock files compared clean, a package never declared keeps its entry, equal as Python compares it, and none appears or disappears |
| LockDrift.UndeclaredIdentical | scripts/kernel_lock.py:2516-2524 | such an entry is identical at the end if and only if no value in it became one of another kind |
| LockDrift.FlagForNumber | scripts/kernel_lock.py:1840-1845 | a clean comparison in which an unrelated package is not identical |
| Documents.EqualIsIdentical | scripts/kernel_lock.py:1840-1845 | values that compare equal are identical if and only if their kinds agree at every depth |
| Documents.EqualTransitive | scripts/kernel_lock.py:1840-1845 | the comparison is transitive, at every depth; with the two lemmas beside it, an equivalence |
| Documents.KindsThatCompare | scripts/kernel_lock.py:1840-1845 | which flags, numbers and fractions compare equal |
| Documents.NoChangedFields | scripts/kernel_lock.py:1840-1845 | no field is reported exactly when the two tables compare equal |
| LockDrift.KernelKept | scripts/kernel_lock.py:1848-1898 | over any chain the kernel entry stays one entry and changes in version and files at most |
| LockDrift.DeclaredKept | scripts/kernel_lock.py:2435-2513 | over any chain a declared package stays one entry and changes in version, files and dependencies at most |
| RevisionGraph.RevisionAncestry | src/vendor_cp/migrations.py:209-237 | terminates on every finite graph; succeeds if and only if the heads are exact and nothing reachable has an unknown edge or lies on a cycle; the result holds the heads and every down revision and dependency of its members, is the least such set, and has no lineage that comes back; each refusal is about something reachable |
| RevisionGraph.RankedIsAccepted | src/vendor_cp/migrations.py:209-237 | heads over a set closed under down revisions and dependencies, along which some rank falls, are accepted |
| RevisionGraph.UnknownNameRefused | src/vendor_cp/migrations.py:216-222 | an unknown down revision or dependency anywhere below a head refuses |
| RevisionGraph.ReturnRefused | src/vendor_cp/migrations.py:223-225 | a lineage below a head that comes back to one of its revisions refuses |
| RevisionGraph.AncestryWalk.Visit | src/vendor_cp/migrations.py:214-233 | one visit: what it adds is reachable and finished after its parents, and a refusal shows a reachable cycle or unknown edge |
| RevisionGraph.ClosesCycle | src/vendor_cp/migrations.py:223-225 | meeting a revision that is being visited means a cycle through the path walked |
| RevisionGraph.FinishedAcyclic | src/vendor_cp/migrations.py:226-233 | nothing that was finished lies on a cycle |
| ComposedHeads.RequireComposedHeads | alembic/env.py:121-144 | terminates on every finite graph; accepts if and only if all names reached are known and every static head is among them, and otherwise names exactly the missing heads |
| ComposedHeads.NamesReachedExactly | alembic/env.py:121-132 | a name is collected exactly when it is applied or given by an edge of a revision in the ancestry |
| ComposedHeads.NamesByFields | alembic/env.py:121-132 | the names collected are the least set with what is applied and every down revision and dependency of what is named |
| ComposedHeads.AcceptedExactly | alembic/env.py:121-139 | a database is accepted if and only if every static head is applied or given by name in an edge of a revision in the ancestry |
| ComposedHeads.AcceptedIsComplete | alembic/env.py:134-139 | an accepted database has every static head in the ancestry of what is applied |
| ComposedHeads.CanonicalEdgesAgree | alembic/env.py:121-139 | where edges name canonical revisions, the worklist and the recursive walk give the same set |
| ComposedHeads.LabelHidesHead | alembic/env.py:121-139 | a complete database that is refused |
| TransitionGuard.PermissionTable.RequireDeployTransition | src/vendor_cp/migrations.py:240-294 | admits if and only if the install is fresh over an empty catalogue, or the heads are sound, distinct and incomparable and either `dc_0015_plan_purpose` is in their ancestry or the presented permission was issued for this connection, transaction, source, target and tree; spends the permission exactly when it is presented |
| TransitionGuard.PermissionTable.Consume | src/vendor_cp/migrations.py:304-325 | presenting spends the permission in every case and succeeds exactly on a full match |
| TransitionGuard.HeadsOverlapInAncestry | src/vendor_cp/migrations.py:272-274 | finds an overlap exactly when some head reaches another |
| TransitionGuard.IncomparableHeadsAreMaximal | src/vendor_cp/migrations.py:271-274 | the admitted heads are exactly the maximal revisions of their ancestry |
| TransitionProtocol.TransitionOwner.NativeUpgrade | src/vendor_cp/migrations.py:618-656 | one upgrade is the issue, any calls of the guard, and the removal unless an asynchronous exception ends it before; refused exactly for a taken claim; its permission is spent if and only if the removal is reached or an inspected deploy presented it |
| TransitionProtocol.SpentByGuards | src/vendor_cp/migrations.py:278-312 | any number of calls of the guard spend a held permission exactly when an inspected deploy among them presents it |
| TransitionProtocol.TransitionOwner.Guard | src/vendor_cp/migrations.py:240-325 | the deploy guard is a step of the protocol: it presents the permission or leaves everything as it was, and what it admits with a permission is recorded once |
| TransitionProtocol.GuardAdmits | src/vendor_cp/migrations.py:278-325 | an inspected deploy that shows a permission is admitted by the guard exactly when presenting it is an admission of the run |
| TransitionProtocol.EveryRunIsValid | src/vendor_cp/migrations.py:618-656 | in every run with crashes a permission admits at most one deploy, only one matching its binding, and a claim is issued at most once |
| TransitionProtocol.SpentForGood | src/vendor_cp/migrations.py:304-325 | a spent permission admits nothing in any continuation |
| TransitionProtocol.FirstSpenderDecides | src/vendor_cp/migrations.py:304-325 | in any run the first step that presents, returns or loses a permission spends it, and it admits a deploy exactly when that step presents a matching one |
| TransitionProtocol.ClaimIsFinal | src/vendor_cp/migrations.py:618-630 | a claim taken is never issued again, even when the process stopped between claim and issue |
| TransitionProtocol.ClaimedOnce | src/vendor_cp/migrations.py:618-656 | whatever takes a claim, an issue or an attempt that stopped or crashed before it, no continuation issues it |
| Retention.Connection.EnforceRetention | src/vendor_cp/data_governance.py:1216-1295 | succeeds if and only if the database it finds is enforceable, and then neither online role holds DELETE or TRUNCATE on a table of any withholding disposition, every lifecycle table stays deletable, and no other privilege has changed; each refusal names what it found |
| Retention.RevokeKeepsTheRest | src/vendor_cp/data_governance.py:1358-1384 | for every role, the revokes take no read or write privilege and nothing on other tables |
| Retention.SealedExactly | src/vendor_cp/data_governance.py:1309-1330 | the seal takes if and only if no online role is a superuser and no grant leaves a residual way |
| Retention.ResidualForcesRefusal | src/vendor_cp/data_governance.py:1309-1330 | a grant to PUBLIC, to a role inherited through any number of memberships, or by another grantor forces refusal |
| Retention.EnforcedGuarantees | src/vendor_cp/data_governance.py:1216-1295 | afterwards no grant of deletion on a withheld table is to PUBLIC or to a role an online role reaches through memberships, every lifecycle table stays deletable, and reading and writing are unchanged for all |
| Retention.SecondRun | src/vendor_cp/data_governance.py:1230-1234 | a second run succeeds and changes nothing |
| Retention.CascadePathsBlocked | src/vendor_cp/data_governance.py:1387-1417 | a cascade path of any length from a deletable to a withheld table runs through an unclassified relation |
| Retention.CascadesThroughUnclassified | src/vendor_cp/data_governance.py:1387-1417 | after the check of single edges, cascades lead from a deletable to a withheld table if and only if an unclassified relation lies between |
| Retention.UnclassifiedRelationCascades | src/vendor_cp/data_governance.py:1397-1409 | such a path that passes the check |
| Retention.OneStatementExactly | src/vendor_cp/data_governance.py:1387-1417 | some permitted DELETE, with its cascades, removes some withheld row if and only if a relation online roles may delete from has a part from which cascades lead to a withheld table |
| Retention.LosesExactly | src/vendor_cp/data_governance.py:1387-1417 | under the checks made, that is so exactly where a part is withheld or its cascades run through an unclassified relation |
| Retention.StatementSparesWithheld | src/vendor_cp/data_governance.py:1387-1417 | with nothing exposed in that way one permitted DELETE on any relation removes no row of a withheld table |
| Retention.WithheldRowsSurvive | src/vendor_cp/data_governance.py:1387-1417 | with nothing exposed no sequence of permitted DELETE statements on any relations, their parts included, removes a row of a withheld table |
| Retention.WithheldRowsSurviveExactly | src/vendor_cp/data_governance.py:1387-1417 | after enforcement all withheld rows are safe from all sequences of permitted DELETE statements if and only if nothing was exposed before |
| Retention.UnclassifiedRelationLosesRow | src/vendor_cp/data_governance.py:1397-1409 | a withheld row removed after a successful enforcement, through an unclassified relation and by a DELETE on one |
| Retention.WithheldPartLosesRow | src/vendor_cp/data_governance.py:1387-1417 | a withheld row removed after a successful enforcement, with everything classified, by a DELETE on the table it inherits from |
| ImportClosure.ImportClosure | scripts/kernel_floor.py:724-746 | terminates for every finite import relation and gives the surface in ascending order without duplicates |
| ImportClosure.LongestIndexed | scripts/kernel_floor.py:711-721 | the longest indexed prefix wins, and none means no prefix is indexed |
| ImportClosure.NamesExactly | scripts/kernel_floor.py:711-722 | the file an import names is that of its longest indexed prefix, and none for the standard library |
| ImportClosure.BareNameConsulted | scripts/kernel_floor.py:709-720 | a longer import is served by its bare first component if and only if that is indexed, is not in the standard library, and no longer prefix is indexed |
| ImportClosure.SurfaceIsLeast | scripts/kernel_floor.py:724-746 | the surface holds the seeds and what its members import, and is contained in every such set |
| ImportClosure.FullNameInSurface | scripts/kernel_floor.py:733-746 | an import of a member whose full name is indexed has its file, links resolved, in the surface |
| ImportClosure.SurfaceIsMonotone | scripts/kernel_floor.py:724-746 | more seeds give a larger surface |
| ImportClosure.SurfaceIsIdempotent | scripts/kernel_floor.py:724-746 | the surface of the surface is the surface |
| ImportClosure.AscendingIsUnique | scripts/kernel_floor.py:746 | the result is determined by the set |
| PromotionLedger.Deployment.BuildEntry | scripts/promote_descriptor.py:199-315 | refuses exactly the unlicensed promotions and otherwise gives the entry that supersedes the accepted bytes |
| PromotionLedger.LicensedExactly | scripts/promote_descriptor.py:199-285 | with readable files, a promotion is licensed if and only if the date has its shape, the chain ends in the accepted digest and lacks the candidate's, the measured heads are the declared ones, some section differs, and a reason is given for what is carried |
| PromotionLedger.ReceiptHeadsReadBack | scripts/promote_descriptor.py:145-171 | heads joined by commas, or listed, are read back from a receipt |
| PromotionLedger.DeclaredHeadsReadBack | scripts/promote_descriptor.py:173-180 | listed heads are read back from a descriptor |
| PromotionLedger.PartsExactly | scripts/promote_descriptor.py:145-180 | parts are stripped, and only a receipt drops the empty ones |
| PromotionLedger.CarriedExactly | scripts/promote_descriptor.py:272-285 | a key is carried if and only if it is one of the three and its values compare equal |
| PromotionLedger.Deployment.Apply | scripts/promote_descriptor.py:342-360 | the state after each place where applying may stop, whatever ledger is found when it is read again and whatever bytes the copy leaves |
| PromotionLedger.ChainKept | scripts/promote_descriptor.py:218-263 | over every run of promotions that do not overlap, with crashes, the ledger stays linked with distinct digests, and each new entry's measured heads are the ones its candidate declares |
| PromotionLedger.AppendKeepsExactly | scripts/promote_descriptor.py:355-357 | appended to a ledger that changed meanwhile, an entry keeps the chain if and only if the last entry found is the one it supersedes and none found has its descriptor |
| PromotionLedger.OverlapForks | scripts/promote_descriptor.py:355-357 | two promotions built from one state always fork the chain |
| PromotionLedger.CopiedInStep | scripts/promote_descriptor.py:355-358 | after the copy the last entry names the accepted file if and only if what was copied still has the candidate's digest |
| PromotionLedger.RefusedUntilRepaired | scripts/promote_descriptor.py:227-232 | out of step, any run of promotions and wrong repairs leaves the ledger as it is and every promotion refused, until a file that the last entry names is in place |
| PromotionLedger.CrashBetweenWrites | scripts/promote_descriptor.py:355-358 | stopping between the writes is out of step, and putting a file in place repairs it exactly when it has the candidate's digest |
| PromotionLedger.MovedKeysAreDeclared | scripts/promote_descriptor.py:272-285 | a key that moved in the application half lies in a changed section |
| CredentialRenewal.Lease.Renew | src/vendor_cp/github_app_credentials.py:203-256 | hosts.yml changes only for status 201, a valid lease, a recognised token and a completed rename, and then to that token; revocations are confirmed only by 204; and the meaning of each outcome, for every combination of failing steps and interrupts |
| CredentialRenewal.Lease.Persist | src/vendor_cp/github_app_credentials.py:177-200 | the lease file changes exactly when the rename succeeds |
| CredentialRenewal.FailureKeepsHosts | src/vendor_cp/github_app_credentials.py:214-217 | a failed renewal changes hosts.yml only when it is interrupted or closing raises after the rename, and then to the new token |
| CredentialRenewal.HostsFollowsSuccess | src/vendor_cp/github_app_credentials.py:203-256 | in every run hosts.yml holds the last successful token, unless a renewal failed after replacing since then; then it holds the last such token |
| CredentialRenewal.FailureAccountsForToken | src/vendor_cp/github_app_credentials.py:243-256 | the recognised token of a failed renewal is confirmed revoked or reported unconfirmed if and only if the revocation was confirmed, or nothing interrupts and closing succeeds |
| CredentialRenewal.RevokedStays | src/vendor_cp/github_app_credentials.py:243-253 | a confirmed revocation is recorded and kept through every later renewal |
| CredentialRenewal.CloseFailureBreaksPromise | src/vendor_cp/github_app_credentials.py:254-256 | a failed renewal that leaves its token in place, neither revoked nor reported |
| CredentialRenewal.InterruptBreaksPromise | src/vendor_cp/github_app_credentials.py:242-256 | an interrupted renewal that leaves a token neither written, revoked nor reported |
| PublicLock.ReadPublicLock | rehearsal_issuer_harness/artifacts.py:44-82 | accepts a text exactly when every line has a place, each block has distinct hashes and at least one, no package is repeated and the closure is complete, and gives the blocks' pins: 31 packages, greenlet at 3.5.4, names, versions and 64-digit hashes of their alphabets |
| PublicLock.AddLine | rehearsal_issuer_harness/artifacts.py:53-73 | one line: the variables follow the blocks, and a refusal means no continuation can be accepted |
| PublicLock.GroupedExactly | rehearsal_issuer_harness/artifacts.py:53-73 | the lines form blocks if and only if each is empty, a comment, the option, a requirement, or a hash with a requirement before it |
| PublicLock.RequirementFormRead | rehearsal_issuer_harness/artifacts.py:27 | a line is read as a requirement if and only if it is a name, `==`, a version, white space and a backslash |
| PublicLock.HashFormRead | rehearsal_issuer_harness/artifacts.py:28 | a line is read as a hash if and only if it is white space, `--hash=sha256:`, 64 hexadecimal digits, and perhaps white space and a backslash |
| PublicLock.SkippedFormRead | rehearsal_issuer_harness/artifacts.py:54-55 | what is skipped, and that any other line is unrecognised |
| PublicLock.SkippedChangesNothing | rehearsal_issuer_harness/artifacts.py:54-55 | comments, empty lines and the option change nothing, wherever they stand |
| PublicLock.SpoiltForGood | rehearsal_issuer_harness/artifacts.py:57-73 | a defect met early refuses the whole file |
| PublicLock.OnePinPerBlock | rehearsal_issuer_harness/artifacts.py:57-76 | each block becomes exactly one pin with its version and its full hash set |
| PublicLockLines.PinOfLine | rehearsal_issuer_harness/artifacts.py:53-76 | in an accepted file each requirement line is one pin with its version and exactly the digests of the hash lines up to the next requirement, at least one and none twice |
| PublicLockLines.OneLineEach | rehearsal_issuer_harness/artifacts.py:62-64 | a second requirement line for a package refuses the file |
| PublicLock.PrintedReadsBack | rehearsal_issuer_harness/artifacts.py:27-76 | reading inverts printing, block by block |
| PublicLock.AcceptedReprints | rehearsal_issuer_harness/artifacts.py:44-82 | printing an accepted file's blocks gives an accepted file with the same blocks |
| PublicLock.PrintedTextReadsBack | rehearsal_issuer_harness/artifacts.py:44-76 | the same from the text of the file |
| PublicLock.PinMapReadsBack | rehearsal_issuer_harness/artifacts.py:44-82 | every valid pin map can be printed so that reading the text gives it back |
| SurfaceAdmission.AdmittedIsWhatIsMounted | src/vendor_cp/deployment_profile.py:579-642 | a profile is admitted if and only if it withholds only withholdable surfaces and what bears routes after filtering is its inventory |
| SurfaceAdmission.MountedBears | src/vendor_cp/assembly.py:121-144 | filtering leaves exactly the route-bearing surfaces that are not withheld |
| SurfaceAdmission.BearsByFields | src/vendor_cp/deployment_profile.py:277-300 | a name bears routes if and only if some manifest of that name has a route field that is not empty |
| SurfaceAdmission.FilteredByFields | src/vendor_cp/assembly.py:121-144 | filtering empties every route field of a withheld manifest and leaves any other as it was |
| SurfaceAdmission.AdmittedByFields | src/vendor_cp/deployment_profile.py:594-642 | the inventory of an admitted profile is the names with a route field that is not empty, less the withheld |
| SurfaceAdmission.AdmittedKeeps | src/vendor_cp/assembly.py:121-144 | filtering an admitted composition keeps order, names and declarations, and the readiness routes |

## Left out

- Equal: TOML dates, numbers that are not finite, and JSON nulls are not modelled.
- ParseCoreMetadata: the decimal digits of a version are a character class given as a parameter.
- AddLine: which of several refusals is reported is not stated, only that the file cannot be accepted.
- DriftProblems: problems form a set of values; their order and wording are not modelled.
- DeclaredDeltaProblems: comparing a declared movement's dependencies with its wheel's metadata is one given verdict.
- Fetch: other processes create the target but do not remove or replace what is there, and the private staging directory is not touched by them; file modes and the transfer itself are not modelled; an asynchronous exception before the link is one outcome wherever it arrives.
- NativeUpgrade: the checks before the claim is created (authorization, fence, tree and prefix verification) and the content of the migrations are not modelled; sorted head tuples are compared as sets.
- RequireDeployTransition: the dialect, the catalogue query and the target heads are given as observations; an unknown name and an ambiguous one are not told apart.
- EnforceRetention: a failing SQL statement, the reading of SECURITY DEFINER bodies and TRUNCATE with its own cascades are not modelled; the effective privileges follow superusers, PUBLIC and inherited membership.
- WithheldRowsSurvive: privileges do not change between the statements, which name tables; deletions through views, rules and triggers are not modelled.
- ImportClosure: files are numbered in the order in which their paths sort, and parsing a file for its imports is given as a finite relation.
- BuildEntry: each file is read once for its document and its digest.
- DeclaredHeads: expected heads given as a table, over whose keys Python would iterate, are read as no heads.
- IsoDate: decimal digits outside ASCII are not accepted by the model.
- Renew: file modes, ownership and the temporary file's name are not modelled; a 204 answer is taken to mean that the token is revoked.
- Building the importable index, profile declarations, settings, routers and schemas: no property beyond their tables.
- The signature schemes, digests and parsers: digests and parsers are parameters where a component uses them.
