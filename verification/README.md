# CloudPanel gateway: a verified model

The gateway keeps several copies of one fact in step by hand: a release is named by a
symlink, a systemd unit, a configuration row and a release row; a site lives in a vhost file
and a database row; a cron job in a table and in a crontab. It also prints and parses several
formats by hand. This project models those parts in Dafny and proves what they keep.

Every external effect (a rename, a write, an SQL statement, systemctl, a readiness check) is a
step that may fail, and the fault is a parameter, so each statement holds for every choice of
faults. What the Go code changes step by step is a class or a loop proved against a function
over values; the lemmas are about that function and about runs of any length.

`dafny verify dfyconfig.toml` checks everything.

## Modules

- `NodeRelease`: deploy, rollback and runtime update of one Node.js site, and their undo code.
- `BackupStream`: the framed AES-GCM backup file; the cipher and the digest are parameters.
- `Retention`: the expiry and quota pass over backup records.
- `Archive`: walking a site into an archive, unpacking it, swapping it in.
- `Restore`: a whole restore, from the safety backup to the swap.
- `Zip`: the two rule sets for artifact ZIPs, and what unpacking builds.
- `Uploads`: the chunked upload protocol, where a file and its record can drift apart.
- `Cron`, `Crontab`, `CronRunner`, `Shell`: the cron transaction, the field grammar and crontab
  text, the jobs that are let through and what the daemon makes of them, and shell quoting.
- `SiteCommit`: changing a site row and its vhost together.
- `GlobalConfig`, `GlobalOutcome`, `PageSpeedVhost`, `PageSpeedSettings`, `StaticRouting`: rewriting of
  nginx.conf and vhost texts, and the PageSpeed settings text.
- `PhpSettings`, `PhpUpdate`: the PHP configuration text and its update.
- `Revisions`: which states share a revision.
- `Logs`, `LogAnswers`, `LogOrder`, `Timestamps`: reading logs under a byte budget, which lines
  an answer holds, their order.
- `Wrappers`, `Text`, `Numbers`, `Sorting`, `Paths`: results, string searching, decimals, sorted
  lists, and cleaned file names.

## What the code does that its reader may not expect

Each of these is a proved statement, listed in the table.

- A deploy whose service does not become ready goes back to the old release, but the failed
  release stays recorded as the previous one and the new arguments and health path stay; the
  next rollback therefore activates the release that never became ready.
- A panel update whose vhost cannot be read leaves the database changed.
- A restore makes a safety backup first, and the quota pass after it can delete the very
  backup being restored.
- A backup of an empty site root is taken without complaint and can never be restored. Neither
  can one whose archive lost its end on closing: the errors of Close are ignored, and the backup
  is recorded as completed.
- The retention pass removes a backup's file before its record, so a failed statement leaves a
  record without a file; it stops at that record.
- A cron target may hold a newline. The job is accepted, and its crontab is then read as more
  jobs than the table has.
- Cron ends a command at an unescaped `%`. Raw commands may not hold one, but targets, arguments
  and URLs may, and then the job does not run as asked: `https://d.io/?q=a%20b` is cut short.
- Undo writes of nginx.conf and of a crontab are made in place, so a failing one can leave a
  truncated file.
- A ZIP entry called `..` passes validation at upload and is refused only when unpacking. So is a
  ZIP in which one file is named like a directory of another (`a` and `a/b`).
- An upload whose chunk is written short, or whose record is not advanced, is stuck: nothing can
  finish it, and its owner has to begin again.
- Declared ZIP sizes and PHP sizes wrap in 64 bits: a ZIP entry that declares 2^64 - 1 bytes
  passes the 512 MiB limit, and a PHP size of 2^64 + 1024 bytes counts as 1024.
- The site revision does not separate the PageSpeed settings from the PHP version, so moving
  text from one to the other keeps the revision.
- When the second commit that puts a vhost back is refused (the old vhost is empty or too
  large, or the commit fails), the vhost stays new while the row stays old.
- A log line of 1 MiB or more ends the reading of its file, and the answer is not marked as
  truncated.

## Model

| member | source | states |
|---|---|---|
| `NodeRelease.PanelIsAllOrNothing` | internal/gateway/node.go:357-398 | a successful panel update sets version, database port and vhost port together; a failed one leaves the row new exactly when it could not be taken back and the vhost new exactly when the nginx commit could not put it back, so the two ports still agree exactly when both or neither stayed |
| `NodeRelease.StepKeepsConsistencyExactly` | internal/gateway/node.go:525-636 | symlink, unit, configuration row and release row name the same release after any operation exactly unless one of the listed faults hit it |
| `NodeRelease.StepKeepsPanelExactly` | internal/gateway/node.go:259-398 | the panel still agrees with the stored configuration after any operation exactly unless a listed fault hit it |
| `NodeRelease.RunStaysConsistent` | internal/gateway/node.go:525-834 | over every run in which only systemctl or readiness fail, all copies of the active release and the panel stay in agreement |
| `NodeRelease.TwoRollbacksCancel` | internal/gateway/node.go:758-803 | two successful rollbacks give back configuration, symlink, unit and panel; the first swaps active and previous |
| `NodeRelease.FailedDeployPutsBackTheReleaseOnly` | internal/gateway/node.go:595-636 | after a deploy that never becomes ready the old release is active, but the failed one is `previous`, the new args and health path stay, and the next rollback activates the failed release |
| `NodeRelease.FailedFirstDeployLeavesNothingActive` | internal/gateway/node.go:638-649 | a first deploy that fails leaves nothing active and nothing to roll back to; the unit is gone exactly when it could be removed, and the row is marked failed unless that statement failed |
| `NodeRelease.SuccessfulDeploy` | internal/gateway/node.go:525-636 | a deploy succeeds exactly when no step fails; then the new release is active, the old one previous, entrypoint, arguments and health path are the request's, symlink and unit name the new release, its own row is there and active, and every other row, version, port and panel are unchanged |
| `NodeRelease.FailedDeployTouches` | internal/gateway/node.go:525-636 | a failed deploy never touches panel, version, port or the row of another release, and nothing at all when it fails before the symlink |
| `NodeRelease.StoppedDeploy` | internal/gateway/node.go:602-625 | what a deploy that stops at unit, configuration or row has done by then |
| `NodeRelease.SuccessfulRollback` | internal/gateway/node.go:758-803 | a rollback succeeds exactly with a known previous release and no failing step; then active and previous have changed places, symlink and unit are those of the release that is active again, and the labels say so unless writing them failed |
| `NodeRelease.SuccessfulUpdate` | internal/gateway/node.go:259-326 | a runtime update succeeds exactly when the panel accepts it and no step fails; then version, port and health path are those asked for or the old ones where nothing was asked, and panel, vhost and unit name them |
| `NodeRelease.NodeSite.UpdateCloudPanelNodeSettings` | internal/gateway/node.go:357-398 | the method reaches the outcome the panel lemmas are about, for every choice of faults |
| `NodeRelease.NodeSite.RollbackNodePointer` | internal/gateway/node.go:804-834 | undo of a failed deploy, step by step, with any step failing |
| `NodeRelease.NodeSite.DeactivateFailedNode` | internal/gateway/node.go:638-649 | undo of a failed first deploy, whose failures to remove the unit and to mark the row are ignored |
| `NodeRelease.NodeSite.DeployNodeRelease` | internal/gateway/node.go:525-636 | the method reaches, for every fault and undo fault, the outcome `SuccessfulDeploy`, `FailedDeployTouches` and `StoppedDeploy` describe |
| `NodeRelease.NodeSite.RollbackNodeRelease` | internal/gateway/node.go:758-803 | the method reaches the rollback outcome for every fault |
| `NodeRelease.NodeSite.UpdateSettings` | internal/gateway/node.go:259-326 | the method reaches the runtime-update outcome for every choice of faults: lookups, panel, unit, restart, row, and each undo |
| `NodeRelease.NodeSite.RestartUnit` | internal/gateway/node.go:296-320 | rewriting and restarting the unit, with panel and unit taken back when it fails, and nothing taken back when the release cannot be looked up |
| `BackupStream.NoncesRepeatOnlyModulo` | internal/gateway/operations.go:850-857 | two frames have the same nonce exactly when their numbers are equal modulo 2^64 |
| `BackupStream.NonceDeterminesBase` | internal/gateway/operations.go:850-857 | the same frame number gives different nonces under different bases |
| `BackupStream.LengthIsLossless` | internal/gateway/operations.go:859-863 | the four length bytes read back as the length |
| `BackupStream.IdealCipherExists` | internal/gateway/operations.go:822-944 | the laws assumed of the cipher can be met |
| `BackupStream.FramesSize` | internal/gateway/operations.go:846-885 | the frames take the plaintext plus 20 bytes for each non-empty read |
| `BackupStream.XorCounter` | internal/gateway/operations.go:854-857 | the in-place loop computes the nonce of the frame number |
| `BackupStream.SealFrame` | internal/gateway/operations.go:853-873 | one frame: four length bytes and the sealed piece |
| `BackupStream.EncryptBody` | internal/gateway/operations.go:846-879 | the loop writes and hashes the frames of the reads, in order, or stops at a failing write |
| `BackupStream.EncryptFile` | internal/gateway/operations.go:822-886 | it succeeds exactly when the key fits and no write, read or lookup fails; then the file is magic, base and the frames of the reads, whatever their sizes, and checksum and size are those of that file |
| `BackupStream.DecryptBody` | internal/gateway/operations.go:909-939 | the reading loop succeeds exactly when every frame opens and every write works, and then yields the plaintext and hashes exactly what it read |
| `BackupStream.OpenNext` | internal/gateway/operations.go:911-937 | one turn of the loop: length, bounds, nonce and opening |
| `BackupStream.DecryptFile` | internal/gateway/operations.go:887-944 | reading succeeds exactly when header, key, frames and digest are right and the output can be created and written |
| `BackupStream.FramesOpen` | internal/gateway/operations.go:822-944 | decrypting what was encrypted gives back the plaintext, for every way it was split |
| `BackupStream.OtherBaseFails` | internal/gateway/operations.go:893-939 | with an ideal cipher no frame opens under another base |
| `BackupStream.OpensExactlyThePrefixes` | internal/gateway/operations.go:909-939 | without the digest, and with a cipher that opens exactly what was sealed: the frames presented under the base all open if and only if they are those of a prefix of the original pieces, and then give that prefix |
| `BackupStream.SealedOnlyCipherExists` | internal/gateway/operations.go:822-944 | for every stream there is a cipher that opens exactly its frames |
| `BackupStream.AcceptsExactlyTheOriginal` | internal/gateway/operations.go:887-944 | with an ideal cipher and no digest collision a file is accepted exactly when it is the one written, and then yields the original plaintext |
| `BackupStream.OnlyTheDigestSeesTruncation` | internal/gateway/operations.go:909-943 | frames dropped at the end still open one by one; the digest is what refuses them |
| `Retention.LongestFitIsUnique` | internal/gateway/operations.go:970-980 | there is one place for the quota cut |
| `Retention.CompletedKeepsLongestPrefix` | internal/gateway/operations.go:945-985 | with completed records, exactly the longest prefix of unexpired ones within the quota stays |
| `Retention.SourceSurvivesItsSafetyBackup` | internal/gateway/operations.go:986-1012 | the backup being restored survives its safety backup exactly when it is unexpired and the sizes from the newest through it fit |
| `Retention.RestoreCanDeleteItsSource` | internal/gateway/operations.go:986-1012 | two records for which the restore deletes its own source |
| `Retention.PinnedRecordsStay` | internal/gateway/operations.go:945-985 | the quota pass never removes an unexpired record that is not completed |
| `Retention.BackupStore.Remove` | internal/gateway/operations.go:952-956 | file and record go; the record stays if its statement fails, the file if it cannot be removed |
| `Retention.BackupStore.RemoveExpired` | internal/gateway/operations.go:957-969 | the first loop leaves the unexpired records, counts what it removed and sums the rest, or stops at the expired record whose statement failed; which files are left is exact |
| `Retention.BackupStore.FitQuota` | internal/gateway/operations.go:970-980 | the second loop ends at the longest fit, or stops at a record behind it whose statement failed; which files are left is exact |
| `Retention.BackupStore.PruneBackups` | internal/gateway/operations.go:945-985 | the whole pass under every fault: the pruned listing or a stop at a record the undisturbed pass removes, exactly the files of removed records and of that one gone, the count, and the error |
| `Retention.BackupStore.RecordBackup` | internal/gateway/operations.go:722-737 | a new backup is refused exactly when it is over the quota or its insert fails; else it is recorded first and the pass runs, and afterwards only the record whose statement failed can be without its file |
| `Archive.RestoreIsAllOrNothing` | internal/gateway/operations.go:738-1155 | for every fault, restoring a backup leaves the old root, or the archived tree path by path, or no root with the old one kept aside, and the faults decide which; likewise the databases up to the first failing import; an archive whose end was lost on closing restores nothing |
| `Archive.PathsAreLookups` | internal/gateway/operations.go:779-802 | the path map of a tree is looking names up component by component |
| `Archive.WalkRebuilds` | internal/gateway/operations.go:779-802 | unpacking what a walk of any tree produced adds exactly that tree's paths below the place it starts at |
| `Archive.ArchiveUnpacks` | internal/gateway/operations.go:738-778 | a whole archive unpacks to the tree, the dumps and the manifest |
| `Archive.BackupRestoresTheSite` | internal/gateway/operations.go:738-1155 | with nothing failing, every path, empty directories included, and every database comes back; it fails exactly for an archive that was not closed whole, an empty tree or a missing root |
| `Archive.WalkRefusesExactly` | internal/gateway/operations.go:779-802 | a backup is refused exactly when the tree holds something that is neither directory nor regular file |
| `Archive.Host.Unpack` | internal/gateway/operations.go:1047-1123 | the entry loop reaches the specified stage or stops, also at the entry whose reading or writing fails |
| `Archive.Host.RestoreArchive` | internal/gateway/operations.go:1026-1155 | the method reaches the restore outcome for every fault, staging included |
| `Archive.Host.SwapIn` | internal/gateway/operations.go:1127-1141 | rename away, rename in, rename back, and what stays aside |
| `Archive.Host.DeploySwap` | internal/gateway/operations.go:442-472 | the deploy swap leaves the old root or the extracted tree, whole, or the old root aside |
| `Restore.ToolsExist` | internal/gateway/operations.go:738-944 | for every backup that can be made there are a cipher, a digest and a format that meet what the restore results assume |
| `Restore.DecryptsExactly` | internal/gateway/operations.go:887-944 | the file of a backup decrypts exactly when it is the one that was written |
| `Restore.SourceFileSurvivesExactly` | internal/gateway/operations.go:945-1012 | after the safety backup the file of the source is there exactly when the source survives the pass or its file could not be removed |
| `Restore.RestoreSucceedsExactly` | internal/gateway/operations.go:986-1155 | a restore succeeds exactly when record, components, safety backup, file, archive and every step allow it, and then the site is the one backed up; short of the archive nothing changes |
| `Restore.RestoreEndToEnd` | internal/gateway/operations.go:945-1155 | the same from the records before the safety backup on: retention, decryption, unpacking and swap in one condition |
| `Zip.RulesAgreeExceptOnDotDot` | internal/gateway/operations.go:500-610 | the rules of unpacking and of validation accept the same ZIPs except for a name that cleans to `..` |
| `Zip.DotDotPassesValidation` | internal/gateway/operations.go:573-610 | a ZIP that validation accepts and unpacking refuses |
| `Zip.UnpacksExactly` | internal/gateway/operations.go:500-610 | a ZIP unpacks exactly when it is valid, no name cleans to `..`, every entry, directories too, can be read, created and written, and no file is on the way to another entry, in whatever order; then the tree is the one its entries name |
| `Zip.FileAsDirectoryPassesValidation` | internal/gateway/operations.go:541-562 | two files `a` and `a/b` that validation accepts and unpacking cannot place |
| `Zip.ExtractedPathsAreContained` | internal/gateway/operations.go:520-569 | every written path lies strictly under the destination, component by component, and all differ |
| `Zip.TotalIsBoundedExactly` | internal/gateway/operations.go:593-609 | the declared total is at most 512 MiB exactly when each declared size is below 2^63 - 512 MiB |
| `Zip.HugeSizePasses` | internal/gateway/operations.go:593-609 | an accepted ZIP that declares more |
| `Zip.AcceptedExactly` | internal/gateway/operations.go:593-609 | with sizes that do not wrap, a list of entries passes exactly when it holds only files and directories with usable, different names, none expands more than a hundredfold, and together they declare at most 512 MiB |
| `Zip.ValidateArtifactZIP` | internal/gateway/operations.go:573-610 | the validating loop accepts exactly the ZIPs of permitted length and entry count that the rules allow |
| `Zip.ExtractZIP` | internal/gateway/operations.go:500-571 | the unpacking loop builds the specified tree and counts its files, or stops at the first entry that cannot be placed |
| `Uploads.StepKeepsInv` | internal/gateway/http.go:433-555 | every operation with any fault keeps: the file starts with the accepted chunks, and a length mismatch means the upload is unfinished |
| `Uploads.RunKeepsInv` | internal/gateway/http.go:433-555 | the same over every run from the empty server |
| `Uploads.ArtifactsAreWholeAndUnique` | internal/gateway/http.go:508-555 | a finished artifact is chunks 0 to n-1 in order, and a session finishes once at most |
| `Uploads.SizeGuardNeverFires` | internal/gateway/http.go:463-507 | no chunk of an open session can exceed the 100 MiB guard |
| `Uploads.DriftedSessionsNeverFinish` | internal/gateway/http.go:463-555 | once file and record of a session disagree, or either is gone, no run whatever accepts another chunk of it, finishes it or changes what is left |
| `Uploads.CanFinishExactly` | internal/gateway/http.go:463-555 | with a clock that does not go back, some run finishes a session exactly when it has not expired, its record and file are there and agree, and what is there, with a chunk for each missing one, can become a valid ZIP of at least four bytes; with none missing, exactly when the file is one |
| `Uploads.CleanupTakesTheExpired` | internal/gateway/operations.go:156-194 | whatever fails, a cleanup keeps record and file of every unexpired upload and artifact, byte for byte; with no failing statement no expired record is left, and no file of one that could be removed |
| `Uploads.BeginOpensASession` | internal/gateway/http.go:433-462 | a begin succeeds exactly for 1 to 100 chunks with nothing failing, and opens an empty session of the token |
| `Uploads.BeginTakesTheExpired` | internal/gateway/http.go:433-462 | besides, it takes away what has expired and nothing else |
| `Uploads.AppendAcceptsTheNextChunk` | internal/gateway/http.go:463-507 | which chunk is accepted, exactly, and what it adds; another token, or a request past the expiry, changes nothing, and no other session is touched |
| `Uploads.CompleteMakesTheArtifact` | internal/gateway/http.go:508-555 | when a session is completed, exactly, and that its bytes are then the artifact; another token, or a request past the expiry, changes nothing, and no other session is touched |
| `Uploads.UploadServer.CleanupArtifacts` | internal/gateway/operations.go:156-194 | the method reaches, for every fault, the state `CleanupTakesTheExpired` describes |
| `Uploads.UploadServer.BeginArtifactUpload` | internal/gateway/http.go:433-462 | the method reaches the specified state for every fault, the empty file a failed Close or removal leaves included |
| `Uploads.UploadServer.AppendArtifactChunk` | internal/gateway/http.go:463-507 | the same for a chunk: checks, short write, record update |
| `Uploads.UploadServer.CompleteArtifactUpload` | internal/gateway/http.go:508-555 | the same for completion |
| `Cron.OtherUserJobs` | internal/gateway/cron.go:450-465 | a change to one site does not show in the jobs of another user |
| `Cron.ExecutionKeepsAgreement` | internal/gateway/cron.go:122-186 | crontab and committed jobs of a user still agree after any return, except after a failed commit and a failed undo; then exactly when the text left behind, torn or not, is the one the table renders |
| `Cron.SuccessRestoresAgreement` | internal/gateway/cron.go:122-186 | a success makes file and table agree from any start |
| `Cron.OtherSiteRows` | internal/gateway/cron.go:130-171 | rows of other sites are untouched |
| `Cron.MutationCounts` | internal/gateway/cron.go:130-171 | the statements that succeed add one row to their site, keep its number, or take one away, and leave the rows of every other site alone |
| `Cron.JobLimitHolds` | internal/gateway/cron.go:130-171 | create adds one job and never goes past 100, update keeps the number, delete takes one away |
| `Cron.ExecutionChangesOneRow` | internal/gateway/cron.go:78-203 | with distinct ids, a request succeeds exactly when it is accepted and fits (a free place, or a row with that id and site) and no step fails; a create adds its row, an update writes schedule, command and time of that one row, a delete takes that row away, and every other row stays as and where it was |
| `Cron.JobsAreTheRows` | internal/gateway/cron.go:450-465 | the crontab lines of a user are the rows of the user's sites, field by field, each once and in table order |
| `Cron.ExecutionKeepsOrder` | internal/gateway/cron.go:122-186 | the table stays in id order |
| `Cron.RunKeepsAgreement` | internal/gateway/cron.go:78-203 | agreement for every user and the job limit for every site over every run with working undo |
| `Cron.DaemonSeesTheTableExactly` | internal/gateway/cron.go:450-473 | a crontab that agrees with the table parses to its jobs exactly when no command holds a newline |
| `Cron.RunReadsBackExactly` | internal/gateway/cron.go:78-203 | from a table of one-line commands, every crontab reads back as the table all along a run exactly when no step commits a command with a newline |
| `Cron.TargetsDecideWhatIsRead` | internal/gateway/cron.go:78-446 | which is exactly when no committed job has a newline in its program or target |
| `Cron.AcceptedJobReadsAsTwo` | internal/gateway/cron.go:312-473 | for every site user and root, an accepted executable whose crontab is read as two jobs |
| `Cron.CronAdapter.RestoreCronFile` | internal/gateway/cron.go:520-525 | the previous file, or none, comes back, or the failed write leaves what it wrote |
| `Cron.CronAdapter.WriteAndCommit` | internal/gateway/cron.go:172-186 | file first, then the commit, then the undo when the commit fails |
| `Cron.CronAdapter.ExecuteCron` | internal/gateway/cron.go:78-203 | the method reaches, for every fault, the state and verdict that `ExecutionChangesOneRow` and `ExecutionKeepsAgreement` describe |
| `Crontab.AcceptsExactlyTheGrammar` | internal/gateway/cron.go:265-311 | a field is accepted exactly when it is a short blank-free list of in-range items of the grammar |
| `Crontab.ItemsSelectWithinBounds` | internal/gateway/cron.go:265-311 | each accepted item selects a non-empty set of values within the bounds |
| `Crontab.FileReadsBackExactly` | internal/gateway/cron.go:466-473 | the rendered crontab parses to the jobs it was rendered from exactly when no command holds a newline; whatever is read otherwise, the number of jobs is off by the number of newlines |
| `Crontab.OneJobReadsAsTwo` | internal/gateway/cron.go:466-473 | a command that goes on with the text of a job behind a newline is read as both |
| `Shell.QuotedListRoundTrip` | internal/gateway/cron.go:400-400 | tokenising a list of quoted words gives back exactly the list, whatever the characters |
| `CronRunner.NewlinesComeFromTheTarget` | internal/gateway/cron.go:312-446 | the command of an accepted job holds a newline exactly when its program or its target does |
| `CronRunner.TargetKeepsNewlines` | internal/gateway/cron.go:379-390 | where no symbolic link is involved, the looked-up target holds a newline exactly when the requested one or its directory does |
| `CronRunner.AcceptedFilesAreInside` | internal/gateway/cron.go:312-390 | the file an accepted job runs is a regular one below the site's htdocs with all links followed, for scripts and executables, or below the current release by its name, for Node scripts |
| `CronRunner.JobsRunAsMeantExactly` | internal/gateway/cron.go:400-446 | daemon and shell run the intended program with exactly its arguments if and only if each word gets through the daemon, which ends the command at an unescaped `%` and at the end of the line, whichever characters but the quote it takes a backslash away from |
| `CronRunner.AcceptedJobsRunAsAskedExactly` | internal/gateway/cron.go:312-446 | by the rule of the crontab manual page, an accepted typed job runs as asked if and only if no word holds a percent sign or a newline |
| `Cron.CrontabRunsAsAskedExactly` | internal/gateway/cron.go:312-473 | a whole crontab of accepted jobs: the daemon reads exactly these jobs and each typed one runs as asked, if and only if no word of any of them holds a percent sign or a newline |
| `CronRunner.EscapedUrlIsCutShort` | internal/gateway/cron.go:345-363 | an accepted URL that is cut short |
| `SiteCommit.CommitIsAllOrNothing` | internal/gateway/nginx_commit.go:111-171 | when a commit succeeds; after a failed one the vhost is new exactly when its undo failed, and nginx.conf is the old one unless a write in place failed, and then what that write left |
| `SiteCommit.VhostCommitEnds` | internal/gateway/nginx_commit.go:111-171 | a commit of the vhost alone installs it, keeps the old one, or leaves the new one although it failed, and never touches nginx.conf |
| `SiteCommit.MutationIsAllOrNothing` | internal/gateway/settings.go:715-742 | a failed change leaves the row old, the vhost old exactly unless the listed faults split them, and nginx.conf old, managed, or what a torn write left, each in exactly its case |
| `SiteCommit.RollbackPutsBack` | internal/gateway/settings.go:733-740 | the second commit puts the old vhost back exactly when it is not refused |
| `SiteCommit.RunStaysInStep` | internal/gateway/settings.go:697-742 | over every run with working undo, row and vhost come from the same change, and nginx.conf is the original or its managed form |
| `SiteCommit.Server.CommitNginxVhost` | internal/gateway/nginx_commit.go:111-171 | the method reaches the commit outcome for every fault |
| `SiteCommit.Server.MutateSite` | internal/gateway/settings.go:715-742 | the method reaches the mutation outcome for every fault |
| `GlobalConfig.GlobalConfigIsIdempotent` | internal/gateway/settings.go:744-759 | inserting the managed block into nginx.conf twice is inserting it once, for every text |
| `GlobalOutcome.AnchorsAreHeaders` | internal/gateway/settings.go:753-758 | the scanner finds a header line exactly where its regular expression matches, with the same end |
| `GlobalOutcome.CachesAreDirectives` | internal/gateway/settings.go:747-752 | the scanner finds a FileCachePath directive exactly where its regular expression matches, with the same path |
| `GlobalOutcome.SpreadGathers` | internal/gateway/settings.go:758-758 | taking the managed lines out from behind every header line gives back the text they were put into |
| `GlobalOutcome.InsertedIsSpread` | internal/gateway/settings.go:758-758 | replacing every match, from left to right, is putting the managed lines behind every header line |
| `GlobalOutcome.GlobalConfigOutcome` | internal/gateway/settings.go:744-759 | the leftmost FileCachePath decides: the managed path returns the text as it is, another one is refused; without one the text is refused exactly when it has no header line, and otherwise it is the original with the managed lines behind every header line and nothing else changed |
| `GlobalOutcome.LeftmostExists` | internal/gateway/settings.go:748-752 | with a directive at all there is a leftmost one, so these cases are all |
| `PageSpeedVhost.OneUpdate` | internal/gateway/settings.go:666-687 | an update takes the block of a shape out and puts the wanted one in at the same place |
| `PageSpeedVhost.OneBlockWhenEnabled` | internal/gateway/settings.go:666-687 | an enabled shape holds exactly one begin marker, a disabled one none |
| `PageSpeedVhost.EverySequenceEndsInTheLastUpdate` | internal/gateway/settings.go:578-687 | after any accepted requests: the original text, blanks before the anchor aside, with exactly the last block or none |
| `PageSpeedVhost.ReapplyingSettles` | internal/gateway/settings.go:578-687 | re-applying an accepted configuration is a fixed point from the second application on |
| `PageSpeedSettings.ReadPageSpeed` | internal/gateway/settings.go:642-658 | the reading loop collects the listed filters, sorted |
| `PageSpeedSettings.StoredConfigReadsBack` | internal/gateway/settings.go:613-658 | the stored text parses to exactly the two lists it was written from |
| `PageSpeedSettings.NormalizePageSpeed` | internal/gateway/settings.go:578-623 | which updates are accepted, and the resulting lists as sets |
| `PageSpeedSettings.AcceptedUpdateReadsBack` | internal/gateway/settings.go:578-658 | an accepted update reads back as its sorted, disjoint lists, and there is one such result |
| `PageSpeedSettings.AcceptedTextHasNoHash` | internal/gateway/settings.go:578-623 | no text that an accepted update stores holds a hash, the start of the markers |
| `Sorting.SortedSet` | internal/gateway/settings.go:624-633 | the set in ascending order, whatever order the map gives |
| `StaticRouting.EnablingSucceedsExactly` | internal/gateway/static.go:79-117 | on which vhosts enabling succeeds |
| `StaticRouting.OneRequest` | internal/gateway/static.go:79-117 | one request takes a shape to the shape requested, and the report is the state |
| `StaticRouting.SequenceOutcome` | internal/gateway/static.go:79-117 | every sequence of requests succeeds, and counting its switch-offs and its last request gives the text |
| `StaticRouting.EverySequenceSucceeds` | internal/gateway/static.go:79-117 | every later sequence succeeds and leaves the original with one gap for each switch-off, plus the block exactly if last enabled; enabling again changes nothing |
| `PhpSettings.ParseAdditional` | internal/gateway/settings.go:421-445 | the last line of a supported key wins; the unsupported keys, sorted, once each |
| `PhpSettings.MatchesExactly` | internal/gateway/settings.go:122-122 | a line is read as a directive exactly when it has the form of the regular expression, with that key and value |
| `PhpSettings.LastLineWins` | internal/gateway/settings.go:421-445 | a supported key has a value exactly when the last line that sets it gives it that value |
| `PhpSettings.RewriteAdditional` | internal/gateway/settings.go:472-486 | the two loops write the specified text, whatever the map order |
| `PhpSettings.WrittenReadsBack` | internal/gateway/settings.go:472-486 | every directive line, repeated ones too, reads back with the new value in the old order, the missing keys follow, all other lines stay in order |
| `PhpSettings.RewritingStores` | internal/gateway/settings.go:421-486 | hence the text reads back as exactly the map |
| `PhpUpdate.BuildPhpSettings` | internal/gateway/settings.go:348-360 | the values a reader is told |
| `PhpUpdate.ApplyChanges` | internal/gateway/settings.go:452-463 | all changes are valid and applied, in any order, or the update is refused |
| `PhpUpdate.ValidatePhpUpdate` | internal/gateway/settings.go:446-487 | accepted exactly for a non-empty set of valid changes that leave post size covering upload size |
| `PhpUpdate.AcceptedUpdateReadsBack` | internal/gateway/settings.go:348-487 | the stored row reads back as the old values overridden by exactly the changes, unsupported lines and keys kept |
| `PhpUpdate.AcceptedPostCoversUpload` | internal/gateway/settings.go:464-471 | post size is at least upload size where neither wraps |
| `PhpUpdate.SizeIsExact` | internal/gateway/settings.go:525-542 | the computed size is the written one exactly when that fits 63 bits |
| `PhpUpdate.UnitsArePowers` | internal/gateway/settings.go:525-542 | a text is a size exactly when it is a number and one of K, M and G in either case; it is the number times 1024, 1024 squared or 1024 cubed |
| `PhpUpdate.AcceptedSizesExactly` | internal/gateway/settings.go:488-514 | a size that fits 63 bits is accepted exactly between 1 KiB and 2 GiB, and nothing else is accepted as one |
| `PhpUpdate.WrappedSizePasses` | internal/gateway/settings.go:525-542 | a size above 2^64 that counts as 1024 bytes |
| `Revisions.NodeTextDetermines` | internal/gateway/node.go:180-184 | the node revision text determines the state, up to no arguments and one empty argument |
| `Revisions.CronTextDetermines` | internal/gateway/cron.go:245-252 | the cron revision text determines the domain and every listed job |
| `Revisions.SiteTextDetermines` | internal/gateway/settings.go:310-317 | the site revision text determines the site exactly up to where PageSpeed settings end and the PHP version starts |
| `Logs.ScanIsWholeExactly` | internal/gateway/logs.go:522-528 | the scanner delivers all lines exactly when each fits its 1 MiB buffer |
| `LogAnswers.TokensAreLines` | internal/gateway/logs.go:522-528 | the lines of a text are its stretches between line ends, without one carriage return |
| `Logs.KeepLines` | internal/gateway/logs.go:525-554 | the line loop keeps exactly the admitted lines, without the first one after a seek |
| `Logs.ReadLogFile` | internal/gateway/logs.go:496-556 | lines, bytes and truncation mark of one file within the budget |
| `Logs.ReadNodeJournal` | internal/gateway/logs.go:421-452 | the same for the journal |
| `Logs.ReadFiles` | internal/gateway/logs.go:384-399 | the file loop with its stop at the budget |
| `Logs.ReadLogs` | internal/gateway/logs.go:346-419 | the answer: the end of the stable order of all admitted lines |
| `Logs.UncutAnswerIsComplete` | internal/gateway/logs.go:372-412 | never more than 8 MiB or MaxLines; an answer not marked truncated is a stable sort of everything admitted, if all lines fit the buffer |
| `LogAnswers.AnsweredLinesMeet` | internal/gateway/logs.go:346-556 | every answered line stands at the start of a line of a file that could be opened, or in the journal; it passes both filters, and its time is in the period, both ends included, or it has none and its file is the current one |
| `LogAnswers.UncutAnswerHoldsExactly` | internal/gateway/logs.go:346-556 | an answer not marked truncated, with lines that fit the buffer, holds a line exactly when it is a whole line of a source and meets what was asked |
| `LogAnswers.SmallAnswerIsMarkedExactly` | internal/gateway/logs.go:372-412 | sources of less than 8 MiB give an answer marked truncated exactly when more lines meet what was asked than were wanted |
| `LogAnswers.AnswerIsTheNewest` | internal/gateway/logs.go:400-412 | the answer is the end of the order, of the wanted length |
| `Logs.LongLineHidesTheRest` | internal/gateway/logs.go:516-555 | a longer line hides itself and the rest of its file, unmarked |
| `Logs.AnswerIsTheEndOfTheOrder` | internal/gateway/logs.go:400-412 | whatever stable sort is used, the answer is its last MaxLines lines |
| `Logs.AnswerIsInTimeOrder` | internal/gateway/logs.go:400-409 | known times come first and do not decrease |
| `Logs.SourceSelection` | internal/gateway/logs.go:454-478 | one source for each wanted id in id order, the first one in use or else the first |
| `LogOrder.StrictWeakOrder` | internal/gateway/logs.go:400-409 | the comparator is a strict weak order whose ties are equal timestamps |
| `LogOrder.StableSortedIsTheOnlyOne` | internal/gateway/logs.go:400-409 | in order and stable describes exactly one list |
| `Timestamps.TextOrderIsTimeOrder` | internal/gateway/logs.go:549-552 | for years 0000 to 9999 the order of the texts is the order of the times |

## Left out

- HTTP routing, scopes, MCP tools, the OpenAPI text and the command line: plumbing.
- Token, policy and action-table code, log redaction and diagnosis: no state across calls.
- SQLite, nginx, systemctl, npm, clpctl, journalctl: steps that succeed or fail; a transaction commits whole or not at all, and what a failing database import leaves behind is a parameter.
- Helper processes and sockets: a helper call is a reliable function call, so a reply lost after nginx-commit has applied its change is not modelled.
- AES-GCM, SHA-256 and HMAC: abstract functions with stated laws; new identifiers are fresh.
- The byte formats of gzip, tar and ZIP: archives are entry lists.
- Symbolic links, ownership and modes: path rules are lexical.
- Text is a sequence of characters: encodings and invalid UTF-8 are not modelled, and length limits count characters.
- Time: backups are given newest first, so two with the same second are not modelled.
- Concurrency: operations of one component run one at a time, and artifact cleanup runs between upload operations; a cron revision is checked before the transaction opens, so two requests that interleave there are outside the model.
- The start of a cron job: the environment lines and the input behind a `%` are not modelled; which backslashes the daemon removes, the disk behind a path and url.Parse are parameters.
- Cron metadata: the rows beside the job table that name runner and target, which the crontab does not depend on.
- Time zones: the set of names the database knows is a parameter; no name holds a semicolon.
- patchRoots, patchPHPValue, patchNodeProxyPort: regular-expression replacements of one directive.
- Restarting a Node.js service: it changes none of the modelled copies.
- NodeRelease.StepKeepsConsistencyExactly: the readiness probe and the systemctl calls are one step that succeeds or fails.
- PageSpeedVhost.EverySequenceEndsInTheLastUpdate: is about vhosts with an anchor and without a begin marker; without an anchor the code inserts nothing.
- Logs.UncutAnswerIsComplete: a file that cannot be opened or decompressed is skipped without a mark, as in the code; it counts as having no lines.
- Logs.ReadLogs: times outside the years 0000 to 9999 are not modelled, and the line filters and time parsers are parameters.
