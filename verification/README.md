# MiBeeHive, modelled and proved in Dafny

MiBeeHive collects release files for offline sites and serves them again. This project models the parts of
it that keep state or parse and print, and proves what they promise over every run or every input:

| file | models |
|---|---|
| `RateLimiter.dfy`, `RateLimiterBounds.dfy` | the per-IP rate limiter (429 answers, section 4 of RFC 6585; Retry-After, section 10.2.3 of RFC 9110) |
| `VirtualForest.dfy`, `VirtualMoves.dfy`, `VirtualDeletes.dfy` | the virtual node tree: subtree walk, cascade hide, listing, tree view; moves with their cycle check and deletes, beside each other |
| `AptControl.dfy`, `AptPackages.dfy` | Debian control stanzas and the Packages index (section 5.1 of the Debian Policy Manual) |
| `ArArchive.dfy` | the `ar` reader for .deb files |
| `DownloadLifecycle.dfy` | one file from row to disk: attempts, retry budget, zombie cleanup, crashes |
| `CrawlScheduler.dfy`, `CrawlExclusion.dfy` | crawl goroutines, the per-project lock, check-then-insert |
| `FetchRetry.dfy` | the fetch retry loop and its backoff |
| `IsoSelect.dfy` | version order, the hand-written insertion sort, the directory search |
| `DockerLogs.dfy` | the Docker multiplexed log parser |
| `GoStrings.dfy`, `Int64.dfy`, `Basics.dfy` | the string functions, int64 wrap-around and small vocabulary they share |

`dafny verify dfyconfig.toml` checks everything.

## How the model is set up

- Instants and durations are integers in nanoseconds. Go strings are sequences of bytes, one char per byte, and
  `TrimSpace` is exact on UTF-8. Where int64 wrap-around can matter (`ar` sizes, backoff shifts) it is written out.
- Go ranges over maps in no fixed order and SQL without ORDER BY gives none either; the loops here pick freely, so
  what is proved holds for every order. Rows equal in (sort_order, name) are listed in id order.
- A SQL statement, a file-system call and a lock operation are atomic steps. The limiter holds its mutex for a whole
  request and the scheduler for a whole operation, so those are single steps too.
- Clocks, the network, jitter, archive validity, error classification, disk and database failures are parameters:
  arbitrary functions or free choices.

## What the proofs turned up

- **Rate limiter.** `evictOldest` uses the empty string for "no candidate", so an entry stored under the empty IP is
  never evicted and a full table then grows although no entry is locked, without limit until the first window ends
  (`TableGrowsExactlyWhen`, `TableOutgrowsBound`). `extractIP` gives the empty IP for a RemoteAddr that is empty or only a
  port; the program's own TCP listeners (cmd/mibeehive/init.go:938, 979) hand over neither, and without it the table
  grows past 100 only when every entry is locked (`GrowthNeedsAllLocked`). The bound of 2·maxAttempts admissions per
  window holds exactly when the lockout is positive and at least as long as the window (`SlidingBound`); a client that waits for Retry-After is admitted exactly when the lockout is whole seconds
  (`RetryAfterIsHonoured`).
- **Virtual tree.** The cycle check and the write it allows are separate statements with no lock around them. Two moves
  that overlap can both pass the check and together make a cycle (`OverlappingMovesMakeCycle`), from which the subtree
  walk of a delete never returns (`WalkOnCycleNeverEnds`). The index stays a forest exactly when no statement closes a
  cycle in the table it meets (`ForestExactlyWhen`), and it is enough that no node is moved under a parent between
  another move's reads and its write (`MovesApartKeepForest`). The check also refuses harmless moves under a node with
  more than 50 nodes on its way to the root, although it is documented to reject moves that would create a cycle
  (`CheckTheorem`, `DeepMoveIsRefused`). Inserting a row whose parent is the id it is about to get passes the foreign key
  and is a cycle (`CreateTheorem`). A delete reads its subtree node by node: with a move in between it can hide a node
  that never was in the subtree (`DeleteGoesAstray`); without one it hides all that was there when it began
  (`DeleteHidesSubtree`). One that breaks off after its first update looks complete in every view from outside
  (`PartialDeleteStillCuts`).
- **Packages index.** The printer escapes nothing, so the index reads back exactly when every line it prints about a file
  is not blank and is a folded line, no field, or a field other than the 17 (`PackagesRoundTrip`); in terms of the stored
  names, that is a condition on their lines after the first (`PrintableNames`, `PoolPathPrintable`). A folded Package
  field makes a pool path of several lines, and that one is always fine; a file name with the wrong second line
  overwrites a control field (`LineBreakForgesField`).
- **Downloads.** The counts meant by internal/service/file_service.go:342-343 (permanently failed when the third failure is
  reached) break in exactly two ways (`RetryBudget`). A crash or a failing statement between the third charge and the
  permanent mark strands a file that is neither retried nor marked (`CrashStrandsFile`). And an administrator's retry
  that falls in between sees the file errored and resets it, and the mark then leaves it permanently failed with no
  failures on it (`MarkAfterReset`). The cleanup can record a size the file no longer has exactly when the size was not
  known beforehand and acceptable contents differ in length (`RowSizeTheorem`).
- **Scheduler.** StartProject waits only for the registered goroutine, so stop followed by start can leave two running
  (`StopThenStartOverlaps`), against its comment about preventing duplicates: it prevents them exactly when no stopped
  goroutine of the project is still running (`StartIsAlone`). The crawl lock still excludes them (`CrawlsExclude`). An
  interval that is not positive ends the process (`PanicsExactlyWhen`), at the latest when the next start waits for that
  goroutine (`Scheduler.StartProject`); internal/handler/crawl_control.go:114 and
  internal/handler/project_admin.go:309 pass 0.
- **Backoff.** The overflow guard catches the first overflow of the shift but can miss later ones
  (`LaterOverflowIsMissed`, `CapAppliesExactlyWhen`), and it comes before the jitter, which can overflow again
  (`JitterFitsExactlyWhen`). Neither is met in practice: the jitter overflows only from delays of over two centuries, and
  the missed overflow is reached only after a first sleep of over a century.

## Model

| member | source | states |
|---|---|---|
| RateLimiter.Limiter.Prune | internal/middleware/rate_limit.go:133-146 | in whatever order the map is ranged over, exactly the entries that are neither locked nor inside their window are gone |
| RateLimiter.Limiter.EvictOldest | internal/middleware/rate_limit.go:149-167 | drops some unlocked entry with the earliest window start, nothing when all are locked, and nothing when the choice falls on the empty IP |
| RateLimiter.Limiter.Lookup | internal/middleware/rate_limit.go:83-92 | finds the IP's entry or makes room for a fresh one, at most one other entry lost |
| RateLimiter.Limiter.Decide | internal/middleware/rate_limit.go:94-118 | the new entry and the answer (lock check, window reset, lockout, attempt), no other entry touched |
| RateLimiter.Limiter.Handle | internal/middleware/rate_limit.go:71-119 | a request is one step of the limiter's transition relation: prune every 100, room, decision |
| RateLimiter.StepEffect | internal/middleware/rate_limit.go:94-118 | a request is admitted if and only if its entry is not locked and has attempts left in its phase, a phase older than the window being over; what the entry holds afterwards, field by field |
| RateLimiter.RetryAfterSeconds | internal/middleware/rate_limit.go:94-115 | in every run a request that starts a lock is told the whole seconds of the lockout, and one that meets a lock the first whole second after its end |
| RateLimiter.PruneKeepsExactly | internal/middleware/rate_limit.go:133-146 | an entry survives a prune, unchanged, if and only if it is locked or its window has not passed |
| RateLimiter.EntriesGoExactlyWhen | internal/middleware/rate_limit.go:78-92 | in every run each hundredth request drops the entries neither locked nor inside their window, and one that finds fewer than 100 entries drops no other |
| RateLimiter.SimilarStep | internal/middleware/rate_limit.go:78-118 | the simulation with an unbounded, never pruning limiter survives any step that does not evict the client, and the answers agree |
| RateLimiter.SimilarOnRun | internal/middleware/rate_limit.go:73-146 | over every run, a client that is not evicted gets every answer the unbounded limiter would give it, whatever happens to others |
| RateLimiter.PruningIsInvisible | internal/middleware/rate_limit.go:78-146 | in every run without evictions all answers, Retry-After included, equal those of a limiter that never prunes |
| RateLimiter.LockSurvivesStep | internal/middleware/rate_limit.go:94-99 | no request of anyone changes or drops a locked entry |
| RateLimiter.LockoutIsNeverForgotten | internal/middleware/rate_limit.go:83-167 | once locked until T, every request of that IP before T is refused with the seconds left, in every run, through prunes and evictions |
| RateLimiter.StepGrowth | internal/middleware/rate_limit.go:83-92 | a step that leaves the table past 100 and larger than before met a full table that was all locked or had the empty IP oldest |
| RateLimiter.TableGrowsExactlyWhen | internal/middleware/rate_limit.go:149-167 | a request can push the table past 100 if and only if it is full, the IP is new, and all entries are locked or the empty IP is an oldest unlocked one |
| RateLimiter.TableOutgrowsBound | internal/middleware/rate_limit.go:149-167 | a run from the empty table: after one request with the empty IP, any number of new IPs are all kept, none of them locked |
| RateLimiter.GrowthNeedsAllLocked | internal/middleware/rate_limit.go:149-167 | in a run without requests from the empty IP the table grows past 100 only when every tracked entry is locked |
| RateLimiterBounds.PhaseBoundStep | internal/middleware/rate_limit.go:94-118 | what an entry knows about the admissions counted in an interval is kept by every request |
| RateLimiterBounds.SlidingBoundHolds | internal/middleware/rate_limit.go:94-146 | with lockout positive and at least the window, no interval as long as the window has more than 2·maxAttempts admissions of an unevicted client, in any run; none at all with maxAttempts negative |
| RateLimiterBounds.SlidingBoundFails | internal/middleware/rate_limit.go:101-115 | with a shorter lockout any client has a run of the limiter with exactly 3·maxAttempts admissions in such an interval |
| RateLimiterBounds.SlidingBound | internal/middleware/rate_limit.go:94-118 | for every configuration, the bound holds over all runs if and only if the lockout is positive and at least the window, or maxAttempts is 0 or negative so that nothing is admitted, or there is no window |
| RateLimiterBounds.WaitingIsEnough | internal/middleware/rate_limit.go:94-115 | a refused client that is silent for its Retry-After seconds is admitted next, in any run, when the lockout is whole seconds |
| RateLimiterBounds.RetryAfterIsHonoured | internal/middleware/rate_limit.go:94-115 | that promise holds over all runs if and only if anything is admitted at all and the lockout is whole seconds, none, or there is no window |
| VirtualForest.VirtualRepo.CollectSubtreeIds | internal/db/repo_virtual.go:333-361 | from a root that is not its own ancestor the walk ends with the root first and exactly its descendants, each once, in nondecreasing depth |
| VirtualForest.WalkStep | internal/db/repo_virtual.go:337-359 | each round keeps the list and queue duplicate-free, in depth order and closed under children of the nodes done |
| VirtualForest.WalkOnCycleNeverEnds | internal/db/repo_virtual.go:333-361 | from a root on a cycle the queue is never empty, after any number of rounds |
| VirtualForest.VirtualRepo.SoftDeleteNodeCascade | internal/db/repo_virtual.go:316-328 | undisturbed, exactly the node and its descendants become hidden; when an UPDATE fails, exactly those before it in the walk's order |
| VirtualForest.VirtualRepo.ListNodesByParent | internal/db/repo_virtual.go:255-279 | the rows of a view under a parent, as ListedInOrder says |
| VirtualForest.ListedInOrder | internal/db/repo_virtual.go:260-263 | a listing has each row once, by ascending sort_order, rows of equal sort_order by name in byte order, and equal ones by id |
| VirtualForest.VirtualRepo.BuildTree | internal/handler/virtual_admin.go:668-696 | the loop with recursion computes the visible forest cut at the depth |
| VirtualForest.ViewInOrder | internal/handler/virtual_admin.go:668-696 | at every level of every view the trees are visible rows with the level below them, in ascending sort_order, name and id |
| VirtualForest.ViewShowsExactly | internal/handler/virtual_admin.go:668-696 | a node is in the tree if and only if it and all its ancestors up to the asked parent are visible and in the view, within the depth |
| VirtualForest.DeleteCommutesWithView | internal/handler/virtual_admin.go:668-696 | for every table, view, parent and depth, the tree after a cascade delete is the tree before with that subtree cut out, order kept |
| VirtualForest.PartialDeleteStillCuts | internal/handler/virtual_admin.go:668-696 | once the node itself is hidden, whichever of its descendants are, every view from outside the subtree has the whole subtree cut out |
| VirtualForest.ReparentingTheorem | internal/db/repo_virtual.go:301-311 | reparenting keeps an acyclic forest acyclic if and only if the new parent is null or outside the moved subtree |
| VirtualForest.CreateTheorem | internal/db/repo_virtual.go:181-200 | inserting a row keeps an acyclic forest acyclic if and only if the row is not its own parent |
| VirtualForest.CheckTheorem | internal/service/virtual_index.go:230-247 | the check passes if and only if the new parent is outside the subtree and has at most 50 nodes on its way to the root, itself included |
| VirtualForest.DeepMoveIsRefused | internal/service/virtual_index.go:246-246 | a harmless move under a node 51 levels down is refused as too deep |
| VirtualMoves.VirtualIndexService.CheckCycle | internal/service/virtual_index.go:230-247 | undisturbed, each answer of the bounded ancestor walk in terms of the parent's ancestor chain, and its statements as a path of the step system |
| VirtualMoves.VirtualIndexService.MoveNode | internal/service/virtual_index.go:173-191 | undisturbed, a path of the step system that changes one parent and keeps the forest acyclic, or changes nothing; when it succeeds, exactly |
| VirtualMoves.StepKeepsForest | internal/service/virtual_index.go:145-209 | whatever other requests are under way, a statement makes the forest cyclic if and only if it inserts a row as its own parent or writes one under its own subtree as that is now |
| VirtualMoves.ForestExactlyWhen | internal/service/virtual_index.go:145-209 | over every interleaving of statements parents exist throughout, and the index is acyclic throughout if and only if no statement closes a cycle |
| VirtualMoves.SoundUntilWrite | internal/service/virtual_index.go:230-247 | what the check has established holds until the write, through inserts, edits, hides and moves to the root, while nobody else moves a node under a parent |
| VirtualMoves.MovesApartKeepForest | internal/service/virtual_index.go:173-191 | if no move under a parent falls between another move's reads and its write, and no row is its own parent, the index is a forest at every moment |
| VirtualMoves.OverlappingMovesMakeCycle | internal/service/virtual_index.go:173-191 | a run in which two moves, each of a root under the other, both pass the check and both write, and a cycle results |
| VirtualDeletes.CollectedExactly | internal/db/repo_virtual.go:333-361 | in every interleaving a delete hides its root and exactly the nodes that were children of a collected node at the moment that node's children were read |
| VirtualDeletes.InPlaceIsCollected | internal/db/repo_virtual.go:333-361 | a node below the root by links that nobody changes during the walk is collected, whatever else is moved or inserted |
| VirtualDeletes.CollectedBetween | internal/db/repo_virtual.go:316-361 | if no move falls in the walk, it collects all that is below the root when it begins and nothing that is not below it when it ends |
| VirtualDeletes.DeleteHidesSubtree | internal/db/repo_virtual.go:316-328 | then all that was below the root when the delete began is hidden when it has finished |
| VirtualDeletes.DeleteGoesAstray | internal/db/repo_virtual.go:316-361 | a run in which a move and an insert during the walk make a delete hide a node that was below its root at no moment |
| AptControl.ParseRFC822 | internal/apt/deb.go:155-183 | the loop reads the first stanza: fields, folded lines, blank lines before and after it |
| GoStrings.TrimSpaceReads | internal/apt/deb.go:160-181 | trimming takes Unicode white space, in UTF-8, off both ends and leaves none there |
| AptControl.ParsedInfoValues | internal/apt/deb.go:130-151 | every parsed field is a trimmed first line followed by folded non-blank lines |
| AptControl.ControlPairs | internal/apt/deb.go:186-213 | exactly the fields that are not empty, each once with its value, in the order of Packages files |
| AptControl.RenderPackages | internal/apt/repo.go:109-124 | the nested loops print the stanzas one after the other; PackagesRoundTrip and FileFieldsReadBack say what they state |
| AptPackages.PrintedEntry | internal/apt/repo.go:111-122 | the text of a stanza to the byte: the fields, Filename, Size in decimal, and with a checksum the SHA256 line and the list line of checksum, size and the name after its last slash |
| AptPackages.PackagesLines | internal/apt/repo.go:109-124 | for any entries the printed text is line by line the stanzas' lines, each stanza followed by one empty line |
| AptPackages.GroupsAreStanzas | internal/apt/repo.go:109-124 | blank lines separate exactly one group per entry, in order |
| AptPackages.StanzaParsesBack | internal/apt/deb.go:155-183 | parsing the stanza of a printable entry restores all control fields |
| AptPackages.BlankCutsStanza | internal/apt/repo.go:115-121 | a blank line anywhere in what is printed about a file cuts its stanza in two |
| AptPackages.EarlierValueForgotten | internal/apt/deb.go:155-183 | after a line that sets a field, its final value no longer depends on what was read before |
| AptPackages.PackagesRoundTrip | internal/apt/repo.go:109-124 | for any list of entries: whatever control data was parsed for them, the index splits into one stanza per entry, in order, each parsing back to all 17 fields, if and only if every line printed about their files is quiet |
| AptPackages.FileFieldsReadBack | internal/apt/repo.go:115-121 | file names with folded lines or none, and one-line checksums, come back with their first line trimmed; Size is the decimal numeral of the size, and the checksum list is one folded line of the checksum, that numeral and the part of the name after its last slash |
| AptPackages.FirstStanzaIsRead | internal/apt/deb.go:155-183 | parsing a whole index after any blank lines reads its first stanza and nothing of the others |
| AptPackages.PrintableNames | internal/apt/repo.go:115-121 | all lines are quiet if and only if those of file name and checksum after the first are, and a checksum of several lines does not begin with a blank one |
| AptPackages.PoolPathParts | internal/supply/apt.go:267-276 | the path is pool/main, then the first letter of the package or its first four when it is a library, the package and the file name |
| AptPackages.PoolPathPrintable | internal/supply/apt.go:267-276 | an entry with the pool path of a parsed package is printable if and only if the stored file name and checksum are, however the package name is folded |
| AptPackages.PublishedIndexReadsBack | internal/supply/apt.go:188-205 | the index of parsed packages under their pool paths reads back whenever stored file names and checksums are one line each |
| AptPackages.LineBreakForgesField | internal/apt/repo.go:115-119 | the inputs that show the failure: with a second line "Package: v" in the file name the stanza parses to package name v, for every v |
| AptPackages.ArchsOf | internal/apt/repo.go:78-94 | each concrete architecture once, never "all", amd64 alone when there is none |
| AptPackages.SelectedExactly | internal/apt/repo.go:97-106 | an index holds exactly the entries of its architecture and those for all or none |
| AptPackages.SelectedInOrder | internal/apt/repo.go:97-106 | it keeps their order and number |
| AptPackages.IndexesCoverAll | internal/apt/repo.go:43-51 | every package is in each index it serves, in no other, and in at least one |
| ArArchive.ParseOctalOrDecimal | internal/apt/ar.go:84-97 | accepts exactly padded digit strings; up to ten digits the int64 sum is exact and cannot overflow |
| ArArchive.ReadAr | internal/apt/ar.go:29-73 | the loop reads magic, headers, bodies and pad bytes, or the error of the first short or bad part |
| ArArchive.AcceptedExactly | internal/apt/ar.go:29-73 | the reader accepts exactly the magic followed by members laid out one after the other, an odd one with its pad byte unless it is last |
| ArArchive.HeaderExactly | internal/apt/ar.go:52-66 | the size is the decimal number in the trimmed size field and the name the name field without padding and trailing slashes |
| ArArchive.HeaderReads | internal/apt/ar.go:52-66 | name and size of any legal short-name header come back |
| ArArchive.ArRoundTrip | internal/apt/ar.go:29-73 | an archive cut right after member k, with or without its pad byte, reads as the first k members; cut inside a header or body it is an error |
| ArArchive.CutInMagic | internal/apt/ar.go:34-40 | an archive cut inside the magic is an error |
| ArArchive.WholeArchive | internal/apt/ar.go:29-73 | a whole archive gives back all its members in order, each with its name, size and data |
| ArArchive.FinalPadIsOptional | internal/apt/ar.go:67-70 | so does one that lacks the pad byte of an odd last member |
| DownloadLifecycle.StepKeepsSafe | internal/service/file_service.go:105-228 | every step keeps the temp and final paths in agreement with the phase and never removes the final file |
| DownloadLifecycle.CrashSafeCompletion | internal/service/file_service.go:105-330 | in every interleaving the final path is absent or holds bytes that passed the size and archive checks, and complete implies present |
| DownloadLifecycle.KnownSizeIsKept | internal/service/file_service.go:324-327 | with a size known at creation, row and file never have another one |
| DownloadLifecycle.UnknownSizeCanDrift | internal/db/repo_file.go:315-321 | without one, for any two acceptable contents, a run ends with the size of the first in the row and the second on disk |
| DownloadLifecycle.RowSizeTheorem | internal/db/repo_file.go:315-321 | in every run a positive row size is that of the file at the final path, if and only if the size was known at creation or all acceptable contents have one length |
| DownloadLifecycle.StepKeepsBudget | internal/service/file_service.go:344-355 | every step keeps the count bounds; errored at most 2 and failed 3 survive exactly the steps that neither lose the mark nor mark after a reset; only an administrator's retry resets between charge and mark |
| DownloadLifecycle.RetryBudget | internal/db/repo_file.go:338-391 | pending has 0 failures, downloading at most 2, errored 1 to 3, nothing under way on an exhausted file; errored at most 2 and failed 3 throughout if and only if no mark is lost after the third charge and none comes after a reset |
| DownloadLifecycle.CrashStrandsFile | internal/service/file_service.go:344-355 | a crash between third charge and mark leaves an errored file with count 3 that the worker cannot start |
| DownloadLifecycle.MarkAfterReset | internal/handler/file.go:293-302 | an administrator's retry between the worker's third charge and its mark leaves the file permanently failed with count 0 |
| DownloadLifecycle.ChargesAreBounded | internal/service/file_service.go:344-355 | over all files and any run without resets, charges plus remaining budget are constant, so at most 3 charges per file |
| DownloadLifecycle.Download.UpdateError | internal/service/file_service.go:344-355 | the row has one failure more and is errored, or permanently failed at the third, unless a statement is lost: a path of the step system |
| DownloadLifecycle.Download.DownloadAttempt | internal/service/file_service.go:287-330 | one attempt is a path of the step system; it succeeds if and only if the answer is a non-empty body of the expected size, and is tried again if and only if it was no refusal and was not the third |
| DownloadLifecycle.Download.Attempts | internal/service/file_service.go:156-189 | the loop ends with the first body that passes, with a refusal, with a cancelled pause or after three attempts in vain, exactly as the answers and cancellations have it |
| DownloadLifecycle.Download.DownloadFile | internal/service/file_service.go:105-228 | the call succeeds if and only if disk, statements and rename are in order and some attempt reached brings valid bytes of the expected size, which are then at the final path; the row after it in every case; a path of the step system |
| DownloadLifecycle.RecoveredReads | internal/db/repo_file.go:315-333 | a stuck file becomes complete with the size on disk if and only if its final path was seen to have contents, and pending with no failures if and only if not, provided its record and update went through |
| DownloadLifecycle.RecoveryIsPath | internal/db/repo_file.go:315-333 | recovering a stuck file, with failing scan, stat or update or without, is a path of the step system |
| DownloadLifecycle.FileRepo.ResetZombieDownloads | internal/db/repo_file.go:292-335 | every stuck file becomes complete or pending by what is on disk, no other row changes, still stuck are exactly those whose record or update failed, and the count is that of the updates that went through |
| CrawlScheduler.Scheduler.StartProject | internal/crawler/scheduler.go:42-96 | registers a new goroutine under the name, with any interval, after the one it replaces has exited, and keeps the invariant; dies with the process if and only if the one it waits for has an interval that is not positive |
| CrawlScheduler.Scheduler.StopProject | internal/crawler/scheduler.go:99-114 | cancels and forgets the project and keeps the invariant |
| CrawlScheduler.Scheduler.StopAll | internal/crawler/scheduler.go:117-132 | cancels every goroutine and empties the maps |
| CrawlScheduler.Scheduler.Running | internal/crawler/scheduler.go:135-140 | true if and only if the project has a goroutine that is not cancelled |
| CrawlScheduler.SchedulerInvariant | internal/crawler/scheduler.go:42-132 | over every run the four maps have equal keys, each project has at most one uncancelled goroutine, the registered one, and a replaced one has exited |
| CrawlScheduler.PanicsExactlyWhen | internal/crawler/scheduler.go:71-80 | the process can panic if and only if some project was started with an interval that is not positive |
| CrawlScheduler.StartIsAlone | internal/crawler/scheduler.go:38-72 | a start surely leaves its goroutine as the only live one of the project if and only if every live one before it was the registered one, or it never gets past its wait |
| CrawlScheduler.StopThenStartOverlaps | internal/crawler/scheduler.go:99-114 | start, stop, start can leave two live goroutines of one project |
| CrawlExclusion.StepKeepsSafe | internal/crawler/manager.go:181-206 | every step keeps lock ownership, row uniqueness and the absence seen by a check until its insert |
| CrawlExclusion.CrawlsExclude | internal/crawler/manager.go:181-206 | in every interleaving at most one crawl body per project, and no two crawled rows for one project and file name |
| CrawlExclusion.CrawlManager.ProcessAssets | internal/crawler/manager.go:303-364 | adds a row, in order, for exactly the assets that are wanted, looked up and stored and had none, keeps rows unique, reports exactly those whose download succeeded, and is a path of the step system |
| CrawlExclusion.ProcessedExtends | internal/crawler/manager.go:308-344 | without failing statements exactly the wanted assets gain a row and no row is lost |
| CrawlExclusion.ReprocessingAddsNoRow | internal/crawler/manager.go:312-319 | processing the same releases or part of them again adds no row, whatever was added in between |
| CrawlExclusion.RecrawlAddsNoRow | internal/crawler/manager.go:303-364 | in every interleaving, after a crawl has gone over its assets and while no row is deleted, a later crawl of the project over the same assets or part of them reaches no insert |
| FetchRetry.FetchWithRetry | internal/crawler/retry.go:149-212 | how the loop ended, after how many calls and sleeps, for every outcome, deadline and interruption; each delay is the backoff of its attempt, the int64 conversion of the jitter included |
| FetchRetry.RetryReturnsFirstDecisive | internal/crawler/retry.go:149-193 | without expiry: the first non-transient outcome of the first maxRetries+1 or the last transient error, that many calls, one sleep between calls |
| FetchRetry.StoredStatus | internal/crawler/manager.go:288-297 | network_error is stored if and only if every allowed attempt failed transiently or the deadline struck; rate_limited and error if and only if an attempt was classified so |
| FetchRetry.BackoffIsExact | internal/crawler/retry.go:199-207 | below 2^63 the delay before jitter is initial·2^attempt, and there is no delay without a positive initial |
| FetchRetry.FirstOverflowIsCapped | internal/crawler/retry.go:203-207 | where the product first reaches 2^63 the int64 is negative and the delay is 30 s |
| FetchRetry.CapAppliesExactlyWhen | internal/crawler/retry.go:203-207 | the delay before jitter is 30 s if and only if the low 64 bits of the product are zero or have the top bit set, and else these bits |
| FetchRetry.LaterOverflowIsMissed | internal/crawler/retry.go:203-207 | a later overflow can give a delay of four nanoseconds |
| FetchRetry.JitterFitsExactlyWhen | internal/crawler/retry.go:209-211 | the jittered delay fits in an int64 for every jitter if and only if the delay is at most 2^63 / 1.2 |
| FetchRetry.DelayBounds | internal/crawler/retry.go:199-212 | the delay is initial·2^attempt give or take a fifth, less than a nanosecond aside, as long as it fits |
| FetchRetry.TotalSleepIsBounded | internal/crawler/retry.go:165-212 | before any overflow of the shift all sleeps of a crawl total at most 1.2·initial·(2^n − 1), whatever a jitter that does not fit becomes |
| IsoSelect.CompareVersion | internal/service/version.go:43-80 | the loop computes lexicographic tuple order |
| IsoSelect.CompareReads | internal/service/version.go:43-80 | -1 if and only if the first has the smaller number at the first difference or is a proper prefix, 1 if and only if the second, 0 if and only if equal |
| IsoSelect.CompareTransitive | internal/service/version.go:43-80 | the order is transitive, strictly so if either step is strict |
| IsoSelect.LessReads | internal/service/iso_scraper.go:160-171 | a file precedes another if and only if only the other has a version, or its version is less, or neither has one and its name is less in byte order |
| IsoSelect.LessIsWeakOrder | internal/service/iso_scraper.go:160-171 | the mixed nil, file name and version comparison is a strict weak order |
| IsoSelect.InsertAt | internal/service/iso_scraper.go:159-176 | one pass of the inner loop inserts the element and leaves the rest alone |
| IsoSelect.InsertionSort | internal/service/iso_scraper.go:158-177 | the array ends up ordered and a permutation of what it was |
| IsoSelect.SortedEndsWithLastMaximum | internal/service/iso_scraper.go:158-179 | the last element after sorting is the last-listed maximum of the input |
| IsoSelect.LatestUrl | internal/service/iso_scraper.go:153-179 | the URL returned is that of a file with the greatest version, or with the greatest name when none has a version; the last listed among equals |
| IsoSelect.ScrapeTwoLevel | internal/service/iso_scraper.go:85-107 | a match from a directory such that every directory of a greater version had none or failed; empty if and only if none has a match |
| DockerLogs.ParsePayload | internal/handler/container.go:485-503 | trimming the payload before splitting changes nothing: the entries are its non-empty lines |
| DockerLogs.PayloadReads | internal/handler/container.go:485-503 | type 2 is stderr and any other stdout, and the entries are, in order, the lines that have a character besides carriage returns, without their trailing ones |
| DockerLogs.ParseDockerLogStream | internal/handler/container.go:461-510 | the loop reads whole frames and stops at a cut one |
| DockerLogs.LogRoundTrip | internal/handler/container.go:461-510 | parsing any encoded frames below 2^32 bytes, whatever their padding, gives what each payload says, in order, as PayloadReads has it |
| DockerLogs.CutStreamGivesPrefix | internal/handler/container.go:465-483 | parsing any prefix of any byte stream gives a prefix of the entries |
| DockerLogs.CutFrameSaysNothing | internal/handler/container.go:465-483 | whole frames followed by one cut in its header or payload give what the whole frames say |

## Left out

- HTTP handlers, routing, JSON and YAML, validation and the web interface: one-branch plumbing.
- SQL text, the SQLite driver and connection pools: tables are maps or sequences, statements are atomic.
- Source crawlers, registry client, remote backup and Docker services: clients of servers that are not part of this model.
- Compression, tar, hashing, encryption, tokens, TLS and path guards: archive validity is an arbitrary predicate.
- internal/cache, internal/eventbus, the ISO catalog queue and its resumable downloader.
- Floating point rounding in Retry-After and jitter: seconds and delays are exact, jitter is any real in [0.8, 1.2).
- Liveness: whether a cancelled goroutine does exit is the Go runtime's choice in `select`.
- Concurrent downloaders of one file: they would share a temp path, so one download of a file at a time is assumed; one that a crawl or an administrator's request is about to begin waits for the one under way and goes before the worker's, and one such waits at a time. Statements of requests and of the cleanup fall anywhere.
- Deleting or editing files on disk from outside, and loss of written data in a power failure.
- A tree view that other requests disturb half-way: it is stated for the table it starts from.
- What goroutines still do between a ticker's panic and the end of the process.
- VirtualForest.VirtualRepo.CollectSubtreeIds: asks for a root that is not its own ancestor, because the walk does not end otherwise (see WalkOnCycleNeverEnds).
