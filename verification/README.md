# Ferry: models and proofs

Ferry is a file-sharing daemon and its command-line client. This project models the
parts of it that keep state, count, or transform text, and proves what they promise.

| file | what it models |
|---|---|
| `Lifecycle.dfy` | the table of shares, the snapshot directories and the garbage collector as one concurrent state machine: a step is one SQL statement, one directory removal, or one stage of a create or a collection |
| `Daemon.dfy` | the admin handlers and the collector as imperative code, each shown to be a run of those steps |
| `ShareStore.dfy` | the table, statement by statement; activity, authorisation, lifetimes in whole seconds and 64 bits |
| `ShareOps.dfy` | the client's publish, renew and unshare, applied and as previews, as programs over the daemon |
| `AdminRequests.dfy` | which share, if any, the client asks the daemon about when it puts a name into an address |
| `AbsolutePaths.dfy` | directory and base name, the path the daemon stores for a share, and what cleaning up a snapshot removes |
| `PublishPlan.dfy` | what a publish shares: a path, or the directory of a Markdown document that links to files beside it |
| `FailedAuth.dfy` | the failed-authentication limiter, and the log of failures it stands for |
| `SnapshotCopy.dfy` | the measuring walk, the copying walk and the byte budget of a snapshot |
| `HtmlArtifact.dfy` | the scanner that finds the end of an HTML prolog, and the reader that serves a file with markup spliced in there |
| `Links.dfy` | a relative link: analysed, cleaned, encoded into an address, decoded, split and resolved |
| `EscapingLinks.dfy` | links that lead out of their share |
| `Targets.dfy` | what a link's text names, and what is made of it, said without the parser |
| `Serving.dfy` | what the daemon opens for any request, whoever wrote its address |
| `MarkdownText.dfy` | the frontmatter splitter and the rewriter of directive tags |
| `Frontmatter.dfy` | the frontmatter said of lines instead of offsets |
| `Text.dfy`, `Int64.dfy`, `Options.dfy` | strings: split and join, trimming, lexical path cleaning; 64-bit integers; optional values |

Conventions. A Go string is a `string` whose characters stand for bytes. An instant is an
integer number of nanoseconds. A 64-bit counter is the newtype `int64`, whose operations
must be shown not to overflow, or an integer with the wrap-around written out. Fields that
the source updates in place are fields of classes; what a method does to them is stated by
a function of the old state, and the theorems are about those functions; where such a
function decides something, a law says exactly when, without naming it. Objects of the
operating system (a file tree, what following symlinks gives) and identifiers are
parameters, as is the token of an id.

Where the code and what one may expect of it differ, the code is modelled, the failing
case is a lemma, and the property is proved under the exact condition:

- An active snapshot share can be without its directory. `WholeExactlyWhenHarmless` says
  exactly which steps of which runs bring that about. They are: a collection between a
  create's copy and its insert (`OverlappingGcLosesSnapshot`); a create of a snapshot that
  fails after its row was written (`FailingRequestLosesSnapshot`); a create of a directory
  snapshot whose row cannot be inserted, which removes the snapshots of all shares
  (`CleanupRemoves`, `FailedInsertWipesAll`); a renewal of an expired share after a
  collection; and a clock that goes back (`ExpiredComesBackWithoutFiles`). In runs without
  these five, every active snapshot is whole at every moment.
- A path can have two active live shares. `OneLiveExactlyWhen` says exactly which
  operations bring that about: renewing an expired share (`RenewingExpiredDuplicates`),
  publishing a path that the daemon stores under another name, because it trims white space
  (`UnstoredPathIsPublishedAgain`), and a clock that goes back (`BackwardClockRun`).
- A lifetime under a second becomes seven days; `LifetimeRoundTrip` holds exactly from one
  second up.
- The limiter's windows open at each address's own first failure, so an interval as long
  as the window can hold failures of two windows: at most 2·(limit − 1 + K) − 1 of them
  with K requests in flight at once. No smaller number is right for any limit, K and window
  longer than a nanosecond (`IntervalBoundIsReached`). When the instants go back in the
  order in which the limiter's lock is taken, pruning can change answers
  (`BackwardClockBreaksRefinement`, `LimiterRefinesLog`). An instant is read before the lock
  is taken, so this takes no clock that goes back: two requests at once are enough.
- A directory shared through a symlink to it gives an empty snapshot
  (`LinkedRootSnapshotIsEmpty`), special files count for the copy and not for the measure
  (`MeasureAgreesWithCopy`), and a limit of 2^63 − 1 wraps round (`ReadLimitBoundary`).
- A link does not reach its file when its cleaned path begins or ends with white space
  (`TrimmedLinkMisses`), when it leaves the share, or when a symlink on the way leads out of
  it; every other local link does (`EveryLinkReachesItsFile`). This takes a shared directory
  with a visible character in its name; without one, a link that leaves the share and needs
  trimming can come back into it (`BlankDirectoryIsReentered`). A share of `/` serves none of
  its children (`NothingBelowSlash`), and a bundle in a directory whose path has white space
  at its ends is stored under another path (`BundleServesEveryLink`).
- The preview of an unshare names other shares than the applied run revokes when the target
  means something in an address, as in `a?b` or `.` (`UnsharePreviewIsWhatApplyDoes`,
  `QueryIsCutOff`, `DotAsksElsewhere`).
- The directive rewriter adds a line feed to a text that ends with one, at every pass
  (`SecondPass`).
- The scanner ends a comment at the first `-->` after its opener. The comments `<!-->` and
  `<!--->`, which the HTML Living Standard (section 13.2.5) reports as errors and closes at
  once, are not closed there.

## Model

| member | source | states |
|---|---|---|
| `Lifecycle.OnlyGcAndUndoLoseSnapshots` | share/server.go:402-428 | in every interleaving, the complete directory of a stored, unrevoked snapshot share goes if and only if the step is the collector reaching it after a listing in which the share was absent or expired, the cleanup of its own failing create, or the cleanup of any failing create of a directory snapshot |
| `Lifecycle.DamagedCopyStaysPartial` | share/snapshot.go:138-158 | a copy whose directory was removed under it leaves a directory that is not complete |
| `Lifecycle.WholeUnlessRemoved` | share/server.go:419-427 | at the end of any run, such a share has its complete directory if and only if neither the collector nor a failing create took it |
| `Lifecycle.WholeExactlyWhenHarmless` | share/server_admin.go:64-99 | over any run, every active snapshot share has its complete directory at every moment if and only if each step, when taken, makes no share active whose directory was removed and takes no active share's directory; a failing create of a directory snapshot does so when any snapshot is active |
| `Lifecycle.ActiveSnapshotsAreWhole` | share/server_admin.go:71-99 | so it is when no collection overlaps a create, no create of a snapshot fails after writing its row and none of a directory snapshot before, only active shares are renewed and the clock does not go back |
| `Lifecycle.OverlappingGcLosesSnapshot` | share/server_admin.go:71-99 | the run copy, collection, insert ends with an active share without its snapshot |
| `Lifecycle.FailingRequestLosesSnapshot` | share/server_admin.go:95-96 | a create whose row is written and whose store then reports an error ends the same way |
| `Lifecycle.FailedInsertWipesAll` | share/server_admin.go:95-96 | after a disciplined run, a create of a directory snapshot whose row cannot be inserted leaves another share active without its snapshot |
| `AbsolutePaths.CleanupRemoves` | share/snapshot.go:56-61 | cleaning up removes the share's own directory when the snapshot is of a file, and the directory of all snapshots when it is of a directory |
| `Lifecycle.ExpiredComesBackWithoutFiles` | share/store.go:173-186 | after create, expiry and collection, a renewal ends the same way, and so does the clock going back |
| `DaemonHandlers.Daemon.CreateShare` | share/server_admin.go:58-102 | copy, then insert: the row, the answer and the directories for every outcome of the copy and of the store; the directory of a share that is answered holds the pruned tree of its source; after a failed insert of a directory snapshot there is no snapshot directory left |
| `DaemonHandlers.CopyLiesAtRoot` | share/snapshot.go:36-48 | the snapshot root the row names is the place the copy is put: the first thing copied lies there and everything else below it |
| `DaemonHandlers.AnsweredIs` | share/server_admin.go:95-102 | a create is answered exactly when the copy and the store succeed, and then that very share is stored as one more row, with its copy as one more directory when it is a snapshot |
| `DaemonHandlers.Daemon.StoreCopied` | share/server_admin.go:85-102 | the row is inserted or not, and on any error of the store the cleanup runs |
| `DaemonHandlers.Daemon.CleanupSnapshot` | share/snapshot.go:56-61 | what is left of the snapshot directories after the cleanup of a file's and of a directory's snapshot |
| `DaemonHandlers.CreateRun` | share/server_admin.go:71-99 | every such create is a run of the lifecycle's steps |
| `DaemonHandlers.Daemon.RevokeShare` | share/server_admin.go:153-165 | one revocation step; the removal is scheduled exactly when the row was found unrevoked |
| `DaemonHandlers.Daemon.RunCleanup` | share/server_admin.go:163-165 | the delayed removal is one step that takes that directory alone |
| `DaemonHandlers.Daemon.RenewShare` | share/server_admin.go:182-202 | one renewal step with the default lifetime for a request without one; the answer is the row as stored afterwards, none exactly when absent or revoked |
| `DaemonHandlers.Daemon.ListShares` | share/server_admin.go:111-122 | lists each active share once, newest first |
| `DaemonHandlers.Daemon.GcSnapshots` | share/server.go:402-428 | run on its own it leaves exactly the directories of active snapshot shares, with what they hold, by the lifecycle's collection steps |
| `DaemonHandlers.Daemon.SweepEntries` | share/server.go:415-427 | deleting entry by entry, in any order, removes what is not in the given set and nothing else |
| `DaemonHandlers.Daemon.ActiveSnapshotIds` | share/server.go:408-413 | the loop over the listing collects exactly the ids of active snapshot shares |
| `ShareStore.Store.CreateShare` | share/store.go:81-98 | inserts one row with whole seconds, or fails on an id already there and changes nothing |
| `ShareStore.CreatedShareReadsBack` | share/store.go:81-114 | a share reads back as created, its times less than a second earlier and never later, unrevoked and unserved; storing what was read gives the same row; no other row changes |
| `ShareStore.Store.Select` | share/store.go:124-143 | the selected rows, each once, newest first |
| `ShareStore.Store.ListShares` | share/store.go:116-144 | all rows, or exactly those IsActive accepts at that instant, newest first |
| `ShareStore.Store.ExpiredShares` | share/store.go:215-239 | exactly the rows that IsActive rejects at that instant |
| `ShareStore.Store.RevokeShare` | share/store.go:146-159 | revokes one unrevoked row; not found exactly when absent or revoked already |
| `ShareStore.Store.RevokeSharesByPath` | share/store.go:161-171 | gives the unrevoked rows of the path the present second as their revocation, changes no other row, and counts them |
| `ShareStore.Store.RenewShare` | share/store.go:173-186 | moves the expiry of one unrevoked row, active or not; not found exactly when absent or revoked |
| `ShareStore.Store.TouchLastServed` | share/store.go:188-194 | sets the last-served time of the row with that id, in whole seconds, and changes nothing else |
| `ShareStore.SelectionAgreesWithIsActive` | share/store.go:119-123 | the WHERE clauses, in whole seconds, and IsActive, in nanoseconds, give one answer on every row, and the two clauses are complements |
| `ShareStore.ListingsPartition` | share/store.go:215-224 | active and expired listings of one instant are disjoint, cover the table and agree with IsActive |
| `ShareStore.RowsPersist` | share/store.go:146-194 | over any statements no row goes, its identity and creation never change, and a revoked row keeps its revocation and expiry |
| `ShareStore.RunInOrder` | share/store.go:81-194 | statements take effect one after the other |
| `ShareStore.AuthorizedExactlyWhen` | share/server_public.go:401-424 | for every table, id, token and instant: the request is authorised exactly when the row is there, unrevoked and not expired and the token is its own and not empty; not found exactly when there is no row, gone exactly when it is revoked or expired, unauthorised exactly when only the token is wrong; the share let in is that row as read |
| `ShareStore.RevokedForever` | share/server_public.go:401-424 | once a share is revoked, every later request for it is answered Gone, with any token, at any time, after any statements |
| `ShareStore.LifetimeRoundTrip` | share/client.go:223-225 | through whole seconds and 64-bit nanoseconds a lifetime comes out in (ttl − 2s, ttl] if and only if it is at least one second; nothing overflows; create and renew agree |
| `ShareOps.Unshare` | ops/shares.go:173-225 | for every target: one that means the id of an unrevoked share, as every plain one means itself, revokes that share and no other and is answered with the target, previewed as the one listed; one that means a share that is absent or revoked, or has a slash, goes by its absolute path; one that means nothing in an address fails and changes nothing |
| `ShareOps.LookupExactlyWhen` | ops/shares.go:174-194 | which question is asked first, said of the target alone: about an id exactly when the target has no slash and its decoded path is one segment that trims to that id; otherwise the path decides, or the answer at another address, or the request fails |
| `ShareOps.UnshareId` | ops/shares.go:174-194 | finds an unrevoked share by id; applied, revokes it and no other |
| `ShareOps.RevokeMatches` | ops/shares.go:205-217 | the loop over the listing collects every share of the path once, and applied revokes and counts each |
| `ShareOps.UnsharePath` | ops/shares.go:196-224 | revokes every active share of the path and counts them, or when not applied lists each once |
| `ShareOps.UnshareRevokesExactly` | ops/shares.go:173-225 | an applied run revokes exactly the shares it is about; other rows are untouched; going by the path leaves it no active share; a second run finds only what the first did not cover |
| `ShareOps.UnsharePreviewIsWhatApplyDoes` | ops/shares.go:173-225 | a preview names exactly the shares the applied run revokes if and only if the path decides, the request fails, or the target is plain in an address |
| `ShareOps.PreviewedIsListed` | ops/shares.go:184-219 | the shares a preview names are its share_ids |
| `AdminRequests.PlainAsksForItself` | share/client.go:207-208 | the client asks about the share of the very name if and only if the name holds no `#`, `?`, `%` or control character, has no white space at its ends and is not `.` or `..` |
| `AdminRequests.AskedExactlyWhen` | share/client.go:207-208 | a name asks about its part before query and fragment, decoded and trimmed, when that is one segment, and about something else when it is not; and about nothing exactly when that part or the fragment does not decode or there is a control character |
| `AdminRequests.PlainIsCutOff` | share/client.go:207-208 | a plain id with a query or fragment after it means that id, as `notes#2.md` means `notes` |
| `AdminRequests.EscapedMeans` | share/client.go:207-208 | the encoded form of any text, put into the address, means that text |
| `AdminRequests.QueryIsCutOff` | share/client.go:207-208 | the target `a?b` asks about the share `a` |
| `AdminRequests.DotAsksElsewhere` | share/client.go:207-208 | the target `.` asks about no share |
| `ShareOps.RenewOrPreview` | ops/shares.go:96-126 | preview and applied run find the same shares; the preview changes nothing and names the expiry asked for, the applied run the one stored |
| `ShareOps.PreviewPublish` | ops/publish.go:142-159 | the action it names: renewal of an active live share of the path if there is one, creation otherwise; with the daemon down, creation and a note that nothing was looked up |
| `ShareOps.FindExistingLiveShare` | ops/publish.go:267-274 | finds an active live share of the path exactly when there is one |
| `ShareOps.Publish` | ops/publish.go:110-128 | the applied publish takes the action so described and leaves the table that action gives, for every outcome of the copy and of the store |
| `ShareOps.PublishLeavesRow` | ops/publish.go:116-125 | the table a publish leaves, row by row: the renewed row has its new expiry in whole seconds, the created row every column, and no other row differs |
| `ShareOps.FindExistingInListing` | ops/publish.go:276-287 | searching a listing finds an active live share of the path exactly when the table has one |
| `ShareOps.OneLiveExactlyWhen` | ops/publish.go:110-125 | over any run of publishes, unshares, renewals, ticks and collections there is at most one active live share per path at every moment if and only if each creation finds none under the path it stores, each renewal none but the renewed share, and no clock that goes back brings one back beside another, or what is added is over at once |
| `ShareOps.RunOpLeaves` | ops/publish.go:110-125 | what each operation of such a run leaves, row by row |
| `ShareOps.PublishIsDeterminate` | ops/publish.go:110-125 | so it is when publishes ask for the path as stored, only active shares are renewed and the clock does not go back; a preview and the applied publish then take the same action on the same id |
| `ShareOps.RepublishKeepsId` | ops/publish.go:117-118 | republishing keeps the share's id and leaves it the path's only active live share |
| `AbsolutePaths.StoredAsAsked` | share/server_admin.go:36-42 | a clean absolute path is stored unchanged if and only if its ends are not white space |
| `AbsolutePaths.RelativeIsWalkedOn` | ops/shares.go:196-199 | a relative path is made absolute by walking on from the working directory: parent steps it is left with are taken from that directory's segments |
| `ShareOps.UnstoredPathIsPublishedAgain` | ops/publish.go:112-125 | a path stored under another name is created again at every publish, leaving two active live shares |
| `ShareOps.RenewingExpiredDuplicates` | share/store.go:173-186 | renewing an expired live share leaves it active beside the one that replaced it |
| `ShareOps.BackwardClockDuplicates` | share/store.go:119-123 | a live share that expired and the one published in its place are both active at an earlier instant |
| `ShareOps.BackwardClockRun` | ops/publish.go:112-125 | a run from an empty table, with no renewal and every path as stored, to that state |
| `ShareOps.ListedOnce` | share/store.go:116-144 | no share appears twice in a listing |
| `PublishPlan.AnalyzeDocument` | share/render_markdown.go:103-123 | the loop finds out whether some target is local, being left with a segment after the walk from its document, and whether some target leads out of the document's directory |
| `PublishPlan.ResolvePublishPlan` | ops/publish.go:194-231 | which outcome for which path: not found, failed when looking, reading or rendering fails, refused exactly when some link leads out of the document's directory, a bundle of that directory exactly when some link is local and none leads out, the path itself otherwise |
| `AbsolutePaths.DirAndBase` | ops/publish.go:227-229 | a clean absolute path is the shared directory joined with the entry, and the entry is one plain name |
| `PublishPlan.BundleServesEveryLink` | ops/publish.go:220-230 | in a planned bundle every local link of the document, followed through the daemon with the directory as the daemon stores it, opens the file it names beside the document, if and only if that directory is stored as it is, the cleaned link needs no trimming and no symlink on the way leads out |
| `FailedAuth.FailedAuthLimiter.constructor` | share/failed_auth_limiter.go:29-41 | positive limit and window, defaults for anything else, no entries |
| `FailedAuth.FailedAuthLimiter.Allow` | share/failed_auth_limiter.go:43-60 | the answer, and the lazy deletion of an ended window |
| `FailedAuth.FailedAuthLimiter.RecordFailure` | share/failed_auth_limiter.go:62-76 | opens a window or counts in the open one, without moving its end |
| `FailedAuth.FailedAuthLimiter.Cleanup` | share/failed_auth_limiter.go:78-91 | removes exactly the ended windows |
| `FailedAuth.FailedAuthLimiter.ServeProtected` | share/failed_auth_limiter.go:98-115 | check, serve, record, in that order and only as far as admitted and unauthorised |
| `FailedAuth.FailedAuthLimiter.Handle` | share/failed_auth_limiter.go:43-91 | an event of a run, handled by these methods, leaves the map of the run's next state, and admits exactly what that state counts as in flight |
| `FailedAuth.CountPlusInFlight` | share/failed_auth_limiter.go:98-115 | with at most K requests of an address in flight, count plus in-flight stays within limit − 1 + K in every reachable state, whatever the clock does |
| `FailedAuth.LimiterRefinesLog` | share/failed_auth_limiter.go:43-91 | when no failure comes before the end of its address's deleted window, an answer of the pruned map is the one read off the unpruned log if and only if the check does not come before the end of a deleted window either, or that window was not full |
| `FailedAuth.OrderedLimiterRefinesLog` | share/failed_auth_limiter.go:43-91 | with instants that do not go back in the order in which the lock is taken, every answer is that of the log |
| `FailedAuth.BackwardClockBreaksRefinement` | share/failed_auth_limiter.go:55-58 | a run with instants that go back in that order, after which map and log answer differently |
| `FailedAuth.IntervalBound` | share/failed_auth_limiter.go:70-75 | if no window holds more than m failures, an interval as long as a window, wherever it starts, holds at most 2m − 1 |
| `FailedAuth.FailuresPerInterval` | share/failed_auth_limiter.go:62-76 | over all ordered runs, at most 2·(limit − 1 + K) − 1 failures of an address in any half-open interval as long as the window |
| `FailedAuth.IntervalBoundIsReached` | share/failed_auth_limiter.go:62-76 | for every limit, concurrency and window longer than a nanosecond some run has exactly that many in some such interval, so the bound is exact |
| `FailedAuth.WindowNeverExtended` | share/failed_auth_limiter.go:70-75 | until it ends, an open window keeps its end and its count never falls |
| `FailedAuth.BlockedUntilWindowEnds` | share/failed_auth_limiter.go:43-60 | a blocked address is admitted again exactly from one window after the failure that opened its window, whatever happens in between |
| `FailedAuth.StartOfProperties` | share/failed_auth_limiter.go:71-73 | a window of the log starts a window after the one before it or later, and holds only failures before its end |
| `SnapshotCopy.Measure.Visit` | share/snapshot.go:84-97 | the early-stopping walk goes on exactly while everything lists and the sizes fit, with the exact sum |
| `SnapshotCopy.SnapshotSize` | share/snapshot.go:63-102 | a source taken for a file is measured exactly when it is a regular file, with its size; one taken for a directory is within the limit exactly when it is one, everything in it lists and its regular files fit, or it is named through a link |
| `SnapshotCopy.Copier.CopyFile` | share/snapshot.go:161-190 | succeeds exactly when the file opens and fits the budget, which it lowers by the file; otherwise writes at most one byte over it |
| `SnapshotCopy.Copier.Copy` | share/snapshot.go:138-158 | succeeds exactly when everything lists, opens and fits; then what was added is the pruned tree, and bytes plus budget are conserved; never more than one byte over |
| `SnapshotCopy.Copier.CopySource` | share/snapshot.go:40-48 | the same for a whole source, taken for a directory or a file and found to be anything, with an empty destination |
| `SnapshotCopy.SnapshotDir.CreateSnapshot` | share/snapshot.go:21-54 | with the source changing arbitrarily, in kind too, between looking, measuring and copying: it succeeds exactly when the source, as a file, was regular when measured and opened when copied, or, as a directory, listed both times and opened throughout, each time within the limit, which is the configured number if positive and 2^30 otherwise; complete content, remaining plus copied equals the limit, at most limit + 1 bytes at any moment, no directory left by a failure of the copy |
| `SnapshotCopy.SuccessExactlyWhen` | share/snapshot.go:21-54 | that condition, from the tree and the limit alone |
| `SnapshotCopy.ListableExactlyWhen` | share/snapshot.go:138-158 | the walk meets no unlistable directory exactly when every directory reached through directories lists |
| `SnapshotCopy.OpenableExactlyWhen` | share/snapshot.go:138-158 | the same for opening files |
| `SnapshotCopy.CopySizeIsBytes` | share/snapshot.go:138-158 | the size the budget is charged is the bytes in the image |
| `SnapshotCopy.ImageIsPrunedTree` | share/snapshot.go:138-158 | a file or directory is in the snapshot exactly when it lies at that path of the source, reached through directories only |
| `SnapshotCopy.MeasureAgreesWithCopy` | share/snapshot.go:27-53 | on an unchanging source the two walks agree under every limit if and only if all files open and special files yield nothing, or neither walk succeeds under any limit |
| `SnapshotCopy.CopySizeAtLeastRegular` | share/snapshot.go:88-96 | the copy reads at least what was measured, and exactly that if and only if special files yield nothing |
| `SnapshotCopy.LinkedRootSnapshotIsEmpty` | share/snapshot.go:125-158 | the snapshot of a directory named through a symlink is empty, right only for a directory of symlinks |
| `SnapshotCopy.ReadLimitBoundary` | share/snapshot.go:178-185 | reading up to remaining + 1 bytes shows whether the file fits, if and only if remaining is below 2^63 − 1 or the file is empty |
| `SnapshotCopy.FormatUnit` | share/snapshot.go:108-119 | for every int64 from 1024 up: div = 1024^(exp+1) ≤ value < 1024·div without overflow, and the unit letter exists |
| `HtmlArtifact.SkipComment` | share/server_public.go:349-370 | the two-dash automaton stops right after the first terminator past the opener, and only gives up when there is none |
| `HtmlArtifact.SkipMisc` | share/server_public.go:327-371 | skipping white space and comments loses no prolog and invents none |
| `HtmlArtifact.SkipDoctype` | share/server_public.go:377-389 | stops just past the first `>` of the declaration, 0 when there is none |
| `HtmlArtifact.GuardOffset` | share/server_public.go:319-390 | the offset just past the DOCTYPE exactly when the file starts with byte-order mark, white space, comments and DOCTYPE as the grammar says, 0 otherwise, never past the end |
| `HtmlArtifact.PrologUnique` | share/server_public.go:319-390 | the grammar gives a file at most one prolog, so the offset is determined |
| `HtmlArtifact.WrittenIsFound` | share/server_public.go:319-390 | every file written as byte-order mark or none, any white space and comments, `<!doctype` in any casing, text and `>` has its prolog exactly there |
| `HtmlArtifact.FoundWasWritten` | share/server_public.go:319-390 | and every file with a prolog was so written |
| `HtmlArtifact.DoctypeInAnyCase` | share/server_public.go:376-380 | lower-casing nine bytes gives `<!doctype` exactly when they spell it with each letter in either case |
| `HtmlArtifact.InjectedReaderAt.ForFile` | share/server_public.go:242-254 | the reader is built at that offset, within ReadAt's bound |
| `HtmlArtifact.InjectedReaderAt.ReadAt` | share/server_public.go:263-309 | every byte returned is the right one of the spliced file, the rest of the buffer is untouched, nothing readable is withheld, EOF exactly when short, an error for a negative offset; also when the source shrinks meanwhile |
| `HtmlArtifact.ByteAtIsSpliced` | share/server_public.go:275-304 | byte for byte that file is `source[..k] + injection + source[k..]` |
| `HtmlArtifact.ReadSequence` | share/server_public.go:263-309 | calling ReadAt for any sequence of chunk sizes from any offset yields one contiguous range of the spliced file, the whole of what was asked for unless some read reports EOF, which happens exactly when it is short |
| `HtmlArtifact.SplicePreservesSource` | share/server_public.go:242-254 | the markup is in the served file, taking it out gives back the source, and the prolog of the source is the prolog of what is served |
| `Links.EscapeRoundTrip` | share/server.go:395-398 | decoding undoes percent-encoding (section 2.1 of RFC 3986) on all bytes, whatever follows, and no slash or question mark is left |
| `Links.EscapedPathRoundTrip` | share/server.go:389-400 | the same for a path encoded segment by segment |
| `Links.WalkFrom` | share/render_markdown.go:632-644 | cleaning under a root is cleaning without one, with leading parent steps taken from the root |
| `Links.EscapesIsUps` | share/render_markdown.go:660-668 | the test for leaving the directory says whether parent steps are left after cleaning |
| `Links.CleanMarkdownPathIsWalk` | share/render_markdown.go:632-644 | joining first and cleaning under a slash is one walk over the segments of directory and target |
| `Links.RequestReaches` | share/server.go:367-400 | building the address of a path and then serving it resolves that path, less white space and slashes at its ends |
| `Links.ResolveClean` | share/paths.go:93-132 | a clean relative path resolves to itself below the root, and is refused exactly when a symlink leads it out |
| `Links.LinkReachesItsFile` | share/render_markdown.go:534-553 | over all targets and file systems: a link that stays in the share, or whose cleaned path needs no trimming, opens exactly the file it names if and only if it does both and no symlink on the way leads out of the root |
| `EscapingLinks.EveryLinkReachesItsFile` | share/render_markdown.go:534-553 | the same for every link, those that do neither included, when the shared directory's name has a visible character other than a dot |
| `EscapingLinks.EscapingMisses` | share/server.go:389-393 | from such a directory a link that leaves the share never opens the file it names, however its path is trimmed |
| `EscapingLinks.BlankDirectoryIsReentered` | share/server.go:389-393 | a link that leaves a directory and comes back into it opens the file it names when trimming takes the directory's name away |
| `EscapingLinks.BlankExample` | share/server.go:389-393 | the root `/u/ ` and the link `../ /a` are such |
| `Links.BundledLinkReachesItsFile` | share/render_markdown.go:646-668 | for a document at the top of its share, each link analysed as local and not escaping opens the file it names if and only if its cleaned path needs no trimming and no symlink on the way leads out |
| `Links.TrimmedLinkMisses` | share/server.go:389-393 | the link `%20a` names the file ` a` and opens another |
| `Links.SpacedAnalysis` | share/render_markdown.go:646-668 | that link is analysed as local and not escaping |
| `Links.NothingBelowSlash` | share/paths.go:111-115 | with root `/` nothing but the root itself resolves |
| `Targets.EscapeLeavesAlone` | share/server.go:395-398 | encoding leaves a text as it is exactly when it has only ASCII letters, digits and `-_.~$&+:=@` |
| `Targets.DecodesExactlyWhen` | share/render_markdown.go:652-655 | text decodes exactly when each `%` is followed by two hexadecimal digits |
| `Targets.HexInEitherCase` | share/render_markdown.go:652-655 | a digit counts in either case, with its value, and no other character does |
| `Targets.ReferenceExactlyWhen` | share/render_markdown.go:652-658 | a reference names a path exactly when its part before the first `#` and the first `?` decodes to it, with no control character, a fragment that decodes, and no colon in a first segment |
| `Targets.LocalExactlyWhen` | share/render_markdown.go:646-658 | a link is local, with that path, exactly when this is so for it without surrounding white space and the path neither is empty nor begins with a slash |
| `Targets.QueryAndFragmentAreCutOff` | share/render_markdown.go:652-658 | `guide.md#x` names `guide.md`, and so for any such path, query and fragment |
| `Targets.AnalyzedExactlyWhen` | share/render_markdown.go:646-668 | a link needs its document's directory exactly when the walk from there is left with a segment, and escapes exactly when it is left with a step upwards |
| `Serving.ResolvesExactly` | share/paths.go:93-132 | for every relative path: the root for none, nothing for one with a `..`, otherwise the place it names, refused exactly when a symlink leads out of the root |
| `Serving.OpensOnlyInside` | share/paths.go:93-132 | whatever is asked for, what is opened lies below the root segment by segment, and so does what its symlinks lead to |
| `Serving.InsideIsBelow` | share/paths.go:111-115 | the prefix test on cleaned paths holds exactly when the root's segments come first |
| `Serving.RequestExactly` | share/server.go:367-387 | for every decoded path after the prefix: the next segment, trimmed, must be the share's id, and the rest is resolved |
| `Serving.OtherwiseRefused` | share/server.go:367-387 | what does not decode, or has another prefix, is refused |
| `Serving.DocumentDirIs` | share/render_markdown.go:632-644 | the links of a document are read from its own directory, cleaned |
| `Text.CleaningRules` | share/render_markdown.go:638 | cleaning drops empty segments and dots, a name with the parent step after it, and a parent step at the root |
| `Text.NormalFormStays` | share/render_markdown.go:638 | and leaves names, and parent steps at the front without a root, as they are |
| `Text.CleanTwice` | share/render_markdown.go:638 | cleaning a cleaned path changes nothing |
| `Text.TrimSpaceIs` | share/render_markdown.go:647 | what trimming takes off is white-space characters and nothing else, and none is left at either end |
| `MarkdownText.StripFrontmatter` | share/render_markdown.go:126-152 | splits exactly when a second fence line exists; then the source is fence, front, fence and body, and no line of the front is a fence; otherwise untouched; terminates |
| `MarkdownText.SplitIsUnique` | share/render_markdown.go:144-147 | a source splits in one way only |
| `Frontmatter.FrontmatterIsLines` | share/render_markdown.go:126-152 | a source has frontmatter exactly when its first line is three dashes and so is a later one |
| `Frontmatter.SplitIsLines` | share/render_markdown.go:126-152 | the split is at the first such later line: the front part is the lines between the two, the body the lines after |
| `MarkdownText.TagNameIsPattern` | share/render_markdown.go:35 | taking the longest name decides the pattern of a tag standing alone |
| `MarkdownText.DirectiveLines` | share/render_markdown.go:740-752 | a line is rewritten exactly when, white space aside, it matches the pattern with a directive's name |
| `MarkdownText.DirectiveLineShown` | share/render_markdown.go:754-758 | it keeps its indent and, white space aside, becomes the tag in back-quotes |
| `MarkdownText.FenceMarker` | share/render_markdown.go:720-738 | the run of three or more equal back-quotes or tildes at the start, if any |
| `MarkdownText.PassFence` | share/render_markdown.go:688-697 | a fence line outside opens a fence; inside it closes the fence exactly when its marker has the same character and is at least as long |
| `MarkdownText.ProcessLine` | share/render_markdown.go:685-711 | one turn of the loop: what is added and how the fence state moves |
| `MarkdownText.PreserveDirectiveTags` | share/render_markdown.go:674-718 | the loop computes the specified rewriting |
| `MarkdownText.PreservedLines` | share/render_markdown.go:674-718 | the rewritten text, split at line feeds, is the output for the lines of the source, with an empty line more when the source ends with a line feed |
| `MarkdownText.FenceOpened` | share/render_markdown.go:685-697 | the place before a line is inside a fence exactly when an earlier fence line, itself in none, is followed by no fence line of its character at least as long |
| `MarkdownText.RewrittenLineIsInert` | share/render_markdown.go:758 | read again, a rewritten line is no fence, no directive and not blank |
| `MarkdownText.LinesKeepTheirPlaces` | share/render_markdown.go:674-718 | says line by line what the output is: a line is rewritten exactly when it is a directive and in no fence, and is byte for byte itself otherwise; an empty line follows each rewritten one, another comes before it unless the line above is blank or rewritten, and nothing else is added; the fences of the output are the source's at every line |
| `MarkdownText.SecondPass` | share/render_markdown.go:674-718 | a second pass changes nothing, except for one more line feed after a final one |

## Left out

- HTTP, routing, cookies, headers, JSON, the admin socket, Tailscale, launchd, ssh and process spawning: plumbing.
- SQLite: the table is a map from id to row and each statement is atomic; the insert of a create can fail, or succeed and be reported as failed, and other statements do not fail.
- HMAC and random ids: the token is a function of the id, and a new id is one not used before.
- goldmark, bluemonday, goquery, YAML: the targets of a rendered document are a parameter, and nothing is claimed about which targets the analysis selects (it does not see images turned into video or audio).
- `resolvePublishURL`: it encodes a segment twice, so it keeps only names that encoding leaves unchanged.
- `resolveTarget` for shares of one file, the directory page, breadcrumbs, metadata and all HTML, CSS and JavaScript.
- File modes, mkdir and chmod failures, disk-full errors, and symlinks that change after they were followed.
- LinkReachesItsFile: the external base address in front of the path, the merging of the link's own query and fragment, and the re-serialising of the finished URL are not modelled; the file system enters as what following symlinks gives for a path.
- ReadAt: 64-bit overflow of offsets and read errors other than a short read are not modelled; the source behaves as a file does.
- GuardOffset: read errors are not modelled.
- FailedAuthLimiter: a nil limiter, which admits everything, and the extraction of the address from the request are not modelled; the mutex makes each method one step.
- CreateSnapshot: when a walk meets both an unreadable entry and the limit, which of the two it reports first is left open; the contents of symlinks are never read.
- FormatUnit: the floating-point quotient that is printed is not modelled.
- Publish: the operations of the client run within one instant of the clock and are not interleaved with other requests.
- Unshare: when a target asks about something other than a share, what is answered at that address is a parameter; the daemon's own failures are not modelled.
- RenewOrPreview: the id is taken to be plain in an address, as `AdminRequests.IsPlain` says.
- EveryLinkReachesItsFile: of a shared directory named by dots, white space and bytes outside ASCII alone, only what LinkReachesItsFile says holds.
- WholeExactlyWhenHarmless: the removal of one snapshot directory, and that of the directory of all snapshots, is one step each.
- RenewShare: the row is read back in the same instant as it was renewed; an error of the store after the row was written, which is only reported, is not modelled.
- RevokeShare: an error of the store after the row was revoked, after which the directory stays until the next collection, is not modelled.
- Select: the order of rows created in the same second is left open, as SQL leaves it.
- Easy case analysis: extension tables, argument rewriting, error codes, `ToResponse`.
