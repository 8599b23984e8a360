# DarkFile core, modelled in Dafny

DarkFile (`src/darkfile.c`) is a bulk file tool with five modes: copy, move,
delete, count and organize. Organize sorts files into category folders by
extension. In every mode, `main` first resolves the destination, checks
with `realpath` that a copy or move does not go into its own tree, and scans the source for totals. Unless the
mode is count, a producer (`process_dir`) then walks the tree and enqueues
one task per file into a bounded ring buffer, which worker threads drain.
Delete and move finish by removing the emptied directories bottom-up.

This project models that core, one Dafny module per part:

- `Common`: C-string conventions, `dir/name` joining, the mode, one unit of work
  (`Task`) and the four progress counters (a class).
- `Categorizer`: `get_category` and its extension tables. The returned
  category is a function; the per-category statistics are a class whose
  method updates them.
- `MakeDirs`: `mkdirs`, which writes terminators into its buffer in place (an
  `array<char>`), proved equal to the list of paths it hands to `mkdir`.
- `Containment`: `is_subdirectory`, with `strncmp` modelled character by
  character and `realpath` as a partial map.
- `TaskQueue`: the ring buffer as a class over an array, with a ghost
  sequence of its contents.
- `CopyEngine`: `standard_copy` and `fast_copy` as loops over oracles for the
  results of `read`/`write`/`sendfile`, specified by functions whose
  byte-accounting properties are proved.
- `Walker`: `scan_recursive`, `process_dir` and `cleanup_dirs` over a
  directory tree in `readdir` order.
- `Worker`: the per-mode dispatch of `worker_routine` over an abstract
  storage (a file map plus a directory set), and the drain loop of one
  worker.
- `Setup`: the worker count, destination resolution, the admission check and
  the order of the phases of `main`.

The operating system enters only as inputs:

- the directory tree (`Node`), with what `lstat` and `opendir` answer;
- whether `remove`, `rename` and `unlink` are permitted (`TaskEnv`);
- the results of `open`, `read`, `write` and `sendfile` (`CopyEnv`);
- `realpath` (a map);
- whether the destination is an existing directory (a boolean);
- the number of cores (an integer of at least 1).

## Model

| member | source | states |
|---|---|---|
| Categorizer.CategoryOf | src/darkfile.c:149-181 | Reference definition of get_category: the table lookup of the lowercased text after the last dot, when that dot is at an index above 0; Others otherwise. |
| Categorizer.NameInjective | src/darkfile.c:153-180 | The seven category names are pairwise distinct. |
| Categorizer.LookupListed | src/darkfile.c:160-180 | A listed category is answered exactly when its table holds the extension; Others exactly when no table does. |
| Categorizer.TablesApart | src/darkfile.c:68-73 | An extension of a later table is in none of the earlier tables, so the order of the scans never matters. |
| Categorizer.TablesDisjoint | src/darkfile.c:68-73 | No extension appears in two tables. |
| Categorizer.TableEntriesShort | src/darkfile.c:68-73 | Every listed extension has at most four characters. |
| Categorizer.LastIndexOf | src/darkfile.c:150 | strrchr: the index found holds the character and none follows it; None means the character is absent. |
| Categorizer.NoDotIsOther | src/darkfile.c:150-154 | A name with no dot after its first character is in Others. |
| Categorizer.CategoryOfAt | src/darkfile.c:150-180 | When the last dot is at an index above 0, the category is the table lookup of the whole lowercased text after it. |
| Categorizer.TruncateKeepsLookup | src/darkfile.c:155-157 | Truncating the extension to 31 characters never changes the lookup. |
| Categorizer.PhotoIsImage | src/darkfile.c:149-181 | "photo.JPG" is an image (lookup ignores case). |
| Categorizer.TarGzIsArchive | src/darkfile.c:149-181 | "archive.tar.gz" is an archive (only the last dot counts). |
| Categorizer.NoExtensionIsOther | src/darkfile.c:149-181 | ".hidden" and "noext" are in Others. |
| Categorizer.DotFileWithExtension | src/darkfile.c:150-151 | ".x.png" is an image: only a leading dot that is also the last dot hides the extension. |
| Categorizer.TrailingDotIsOther | src/darkfile.c:149-181 | "file." is in Others (empty extension). |
| Categorizer.JpgIsImage | src/darkfile.c:149-181 | "a.jpg" is an image. |
| Categorizer.Mp4IsVideo | src/darkfile.c:149-181 | "b.mp4" is a video. |
| Categorizer.XyzIsOther | src/darkfile.c:149-181 | "c.xyz" is in Others. |
| Categorizer.InTable | src/darkfile.c:160-177 | One table scan finds the extension exactly when the table lists it. |
| Categorizer.Lowercase | src/darkfile.c:158 | The in-place loop leaves the buffer equal to the lowercase of its old contents. |
| Categorizer.Add | src/darkfile.c:152-179 | Adding to one category raises that accumulator by k and leaves the other six unchanged. |
| Categorizer.TotalAdd | src/darkfile.c:152-179 | Adding k to one category raises the sum of all seven by k. |
| Categorizer.Stats.constructor | src/darkfile.c:63-64 | All fourteen accumulators start at zero. |
| Categorizer.Stats.Record | src/darkfile.c:152-179 | With count_stats set, one category gains 1 in count and filesize in size. Without it, nothing changes. |
| Categorizer.Stats.GetCategory | src/darkfile.c:149-181 | Returns the category of the name and updates exactly that category's count and size when count_stats is set; otherwise changes nothing. |
| Common.Join | src/darkfile.c:311 | "%s/%s" yields dir, one separator and name, in that order. |
| Common.Counters.constructor | src/darkfile.c:57-60 | The four progress counters start at zero. |
| Containment.IsSubdirectory | src/darkfile.c:140-147 | Reference definition of is_subdirectory: false without a destination or when realpath fails on either path; otherwise strncmp of the canonical destination against the whole canonical source. |
| Containment.StrncmpPrefixFrom | src/darkfile.c:145 | From position i on, strncmp over strlen(b) characters agrees with the rest of b being a prefix of a. |
| Containment.StrncmpPrefix | src/darkfile.c:145 | strncmp(a, b, strlen(b)) == 0 exactly when b is a prefix of a. |
| Containment.IsSubdirectorySpec | src/darkfile.c:140-147 | False without a destination or when either realpath fails; otherwise true exactly when the canonical source is a textual prefix of the canonical destination. |
| Containment.InsideIsRefused | src/darkfile.c:140-147 | When realpath resolves both paths, a destination that is the source or lies below it is detected, including every path below the root "/". |
| Containment.ContainmentExamples | src/darkfile.c:140-147 | /a/b/c is inside /a/b and /a/c is not. /a/bc is (wrongly) reported inside /a/b. A missing destination or a failed realpath gives false. |
| Containment.RootContainsAll | src/darkfile.c:140-147 | With the root as source, /backup is inside it and is detected: strncmp over the single character "/". |
| CopyEngine.FastCopySpec | src/darkfile.c:196-234 | Reference definition of fast_copy: its status, its net credit to processed_bytes and the descriptors it closes, for given open, sendfile and read/write results. |
| CopyEngine.BufferedCreditsWrittenRounds | src/darkfile.c:188-193 | The buffered loop credits exactly the bytes of the fully written rounds before it stops. It succeeds exactly when it stops on a read of 0. |
| CopyEngine.BufferedCleanCopy | src/darkfile.c:188-193 | When every read succeeds and is fully written, the loop succeeds and credits the sum of the reads. |
| CopyEngine.StandardCopy | src/darkfile.c:184-194 | Returns 0 or -1 as the buffered specification says and adds its credit to processed_bytes, no other counter. |
| CopyEngine.SendLoopOffset | src/darkfile.c:211-224 | With a sendfile that never sends more than asked, a completed loop ends at exactly the file size and an early stop ends below it. |
| CopyEngine.FastCopyPaths | src/darkfile.c:196-233 | Source-open failure: -1, no credit, nothing closed. Destination-open failure: -1, source closed. When both open, both are closed. An empty file gives 0. A stalled sendfile gives -1. |
| CopyEngine.FastCopyFullCredit | src/darkfile.c:207-225 | A successful sendfile copy returns 0 and credits exactly the file size. |
| CopyEngine.FallbackCreditsOnce | src/darkfile.c:213-219 | After a sendfile failure, the file's net credit is what the buffered fallback credited. On a clean fallback, fast_copy returns 0 and credits the bytes read exactly once, and exactly the file size when the reads return the whole file. |
| CopyEngine.SuccessCreditsSize | src/darkfile.c:196-234 | When sendfile never sends more than asked and the reads return the whole file, a successful fast_copy credits exactly the file size, whether sendfile completes or the fallback runs. |
| CopyEngine.FastCopy | src/darkfile.c:196-234 | Status, net processed_bytes change and closed descriptors equal the fast_copy specification. The loop keeps the credit equal to offset. |
| MakeDirs.MkdirTargets | src/darkfile.c:76-101 | Reference definition of the paths mkdirs hands to mkdir: each prefix of the trimmed path that ends before a separator at index 1 or later, then the trimmed path. |
| MakeDirs.Trimmed | src/darkfile.c:83 | At most one trailing separator is removed. |
| MakeDirs.SepPrefixesSpec | src/darkfile.c:85-95 | The loop's targets are exactly the prefixes ending before a separator at index 1 or later. Each occurs once, shortest first. |
| MakeDirs.MkdirTargetsSpec | src/darkfile.c:76-101 | Every target of mkdirs is a prefix of the path, and the order is strictly increasing in length. Each target but the last ends just before a separator, and every such prefix appears. The trimmed path comes last. |
| MakeDirs.MkdirsExample | src/darkfile.c:76-101 | "/a/b/" makes "/a" then "/a/b". "a/b" makes "a" then "a/b". "/" makes "". |
| MakeDirs.UpToNulAt | src/darkfile.c:87-91 | A buffer with its first terminator at k holds the C string of its first k characters. |
| MakeDirs.MkdirAt | src/darkfile.c:86-94 | One loop step hands mkdir the prefix before the separator and restores the buffer. |
| MakeDirs.MkdirsScan | src/darkfile.c:85-100 | The loop and the final call hand mkdir the separator prefixes and then the whole trimmed path, leaving the buffer unchanged. |
| MakeDirs.Mkdirs | src/darkfile.c:76-101 | mkdirs hands mkdir exactly MkdirTargets(path), in order. |
| TaskQueue.Queue.constructor | src/darkfile.c:46-47 | The queue starts empty with head and tail at 0. |
| TaskQueue.Queue.Enqueue | src/darkfile.c:282-292 | Succeeds exactly when not full. On success: the new task is appended to the contents, slot head holds it, head advances mod QUEUE_SIZE, count grows by one. On failure nothing changes. No other slot changes. |
| TaskQueue.Queue.Dequeue | src/darkfile.c:239-247 | On an empty queue, Finished once production is done and WouldBlock before, with nothing changed. Otherwise it returns the oldest task (slot tail), drops it from the contents and advances tail. |
| TaskQueue.EnqueueThenDequeue | src/darkfile.c:243-245 | A task enqueued on an empty queue is dequeued unchanged (FIFO round trip). |
| Setup.WorkerCount | src/darkfile.c:479-501 | Reference definition of the worker-count menu: 1, cores, 2·cores, or 4·cores capped at 128, and cores for anything else. |
| Setup.WorkerCountBounds | src/darkfile.c:479-501 | At least 1 and at most 4·cores workers. Choice 4 is at most 128. The levels for choices 1, 2, 3 are non-decreasing. Ultra is at or above higher exactly when cores ≤ 64. Anything unrecognised gives cores. |
| Setup.Basename | src/darkfile.c:435 | POSIX basename is non-empty and is "/" or has no separator. |
| Setup.CleanSourceKeepsBasename | src/darkfile.c:432-435 | Trimming one trailing separator from the source never changes its basename. |
| Setup.ResolveDestination | src/darkfile.c:427-454 | Reference definition of destination resolution: raw_dst/basename(src) for a copy or move into an existing directory or a destination ending in a separator; raw_dst otherwise. |
| Setup.ResolveDestinationSpec | src/darkfile.c:427-454 | Copy and move with an existing directory or a trailing separator go to raw_dst/basename(src); otherwise to raw_dst. Other modes pass the argument through. |
| Setup.ResolveIntoDirectory | src/darkfile.c:441-443 | "photos" into the existing directory "backup" gives "backup/photos". "photos/" into "backup/" gives "backup//photos". |
| Setup.ResolveOtherwise | src/darkfile.c:444-454 | A non-directory destination without a separator is used as given, as in other modes; no destination stays none. |
| Setup.AdmittedNeverInside | src/darkfile.c:456-458 | When realpath resolves both paths, an admitted copy or move never writes into or onto its source. The other modes are always admitted. |
| Setup.AdmitsCopyIntoOwnTree | src/darkfile.c:427-458 | Copying /a/b into the existing directory /a/b/c resolves to /a/b/c/b. realpath fails on that path because it does not exist yet, so the check admits a destination inside the source. |
| Setup.Locate | src/darkfile.c:140-147 | Where a path would lie once canonical: a path realpath answers gets realpath's answer, the result keeps the path NUL-free, and a top-level path falls back on "/". |
| Setup.LocateUnderAncestor | src/darkfile.c:140-147 | A located path lies inside the canonical path of a resolvable ancestor of the path, or of the path itself. |
| Setup.AdmittedFixedNeverInside | src/darkfile.c:456-458 | With the corrected check, an admitted copy or move whose destination has a resolvable ancestor never goes into or onto its source. Everything the original check refuses is still refused, and the other modes are always admitted. |
| Setup.FixedRefusesCopyIntoOwnTree | src/darkfile.c:427-458 | The corrected check refuses the copy of /a/b into /a/b/c/b. |
| Setup.FixedRefusesCopyOfRoot | src/darkfile.c:456-458 | Copying / into a new /backup is admitted by the check as written and refused by the corrected one. |
| Setup.Prepare | src/darkfile.c:456-476 | With the AsWritten guard, refuses exactly the runs is_subdirectory refuses, as main does. With the Corrected guard, refuses exactly the runs the corrected check refuses. A refused run changes nothing. Otherwise the totals grow by the file count and byte sum of the tree, organize tallies every file, and the tasks are one per file (none for count). |
| Setup.RunReachesScanTotal | src/darkfile.c:463-521 | Running the producer's tasks adds exactly the number of files the scan counted to processed_files when no task fails, and in organize mode always. |
| Setup.TasksMatchScan | src/darkfile.c:463-521 | Outside count mode, the producer enqueues one task per file the scan counted, in the scan's order. The i-th task's source is the i-th file's path below src. A copy or move puts it at the same relative path below dst, and organize passes dst and the file's name. |
| Setup.Finish | src/darkfile.c:529-533 | Delete and move remove each emptied directory below the source and then the source; other modes remove none. |
| Setup.FinishOrder | src/darkfile.c:529-533 | The source is removed last. Every earlier removal lies strictly below it, and the order is bottom-up. |
| Walker.TallySpec | src/darkfile.c:347-349 | Tallying adds, per category, the number and the total size of the files in that category. |
| Walker.TallyTotals | src/darkfile.c:347-349 | The seven counts grow by the number of files, and the seven sizes by their total size. |
| Walker.ScannedOrganizeSums | src/darkfile.c:347-349 | In organize mode the seven counts keep summing to total_files and the seven sizes to total_bytes. |
| Walker.ExampleLeaves | src/darkfile.c:334-361 | The directory {a.jpg 10, b.mp4 20, c.xyz 5} yields those three files in readdir order, 35 bytes in all. |
| Walker.ScanRecursive | src/darkfile.c:334-361 | total_files, total_bytes and the statistics become the scan of the tree's files (statistics only in organize mode). processed counters are unchanged. |
| Walker.ScanEntry | src/darkfile.c:340-358 | One readdir pass adds exactly the scan of that entry's files. |
| Walker.ProcessDir | src/darkfile.c:294-331 | The tasks are one per file in walk order. The mkdirs calls mirror every listable directory, in preorder, in copy and move only. With a destination, copy and move make it first. |
| Walker.ProcessEntry | src/darkfile.c:309-328 | One readdir pass emits the tasks and mkdirs of that entry. |
| Walker.LeafTasksUnder | src/darkfile.c:315-321 | Tasks of a subdirectory walk are its files' tasks as seen from the parent. |
| Walker.LeafParentsVisited | src/darkfile.c:302-321 | The directory holding each file is one the walk visits. |
| Walker.CopyTargetsHaveParents | src/darkfile.c:303-326 | In copy and move, every task's destination directory is among the directories mkdirs is asked to make. |
| Walker.TaskPathsBelow | src/darkfile.c:311-326 | Every task's source lies strictly below the walked directory, and every copy/move destination strictly below dst. |
| Walker.CleanupDirs | src/darkfile.c:118-138 | The rmdir calls are those of the removal order of the tree, on paths below the argument. |
| Walker.CleanupEntry | src/darkfile.c:125-136 | One readdir pass removes that entry's directories after their contents. |
| Walker.RemovalsBelowRoot | src/darkfile.c:127-134 | Every rmdir target lies strictly below the cleaned directory. |
| Walker.RemovalsBottomUp | src/darkfile.c:132-134 | Each directory is removed only after every directory below it. |
| Worker.Effect | src/darkfile.c:249-273 | Reference definition of one task of worker_routine in each mode: the files and directories afterwards, whether the task is counted, and the credit to processed_bytes. A successful copy onto its own path leaves the file empty. |
| Worker.Storage.Remove | src/darkfile.c:250 | 0 exactly when the file exists and removal is permitted, and then the file is gone; otherwise nothing changes. |
| Worker.Storage.Rename | src/darkfile.c:263 | 0 exactly when the source exists and renaming is permitted or the target is the source itself; the contents then move to the target. |
| Worker.Storage.Unlink | src/darkfile.c:264 | Removes the file when it exists and unlinking is permitted; otherwise nothing changes. |
| Worker.Storage.MakeDirs | src/darkfile.c:259-261 | The directories made are those mkdirs asks for. |
| Worker.Storage.CopyFile | src/darkfile.c:264 | The status and credit are those of fast_copy, with a missing source failing to open. On success the destination holds the source's contents, or nothing when it is the source itself (the O_TRUNC open empties it first). |
| Worker.Execute | src/darkfile.c:249-273 | The storage and processed counters take exactly one step of the mode's task semantics; totals are unchanged. |
| Worker.ExecuteDelete | src/darkfile.c:249-251 | Delete's step. |
| Worker.ExecuteOrganize | src/darkfile.c:252-267 | Organize's step: mkdirs, then rename, then copy and unlink on failure; always counted. |
| Worker.ExecuteCopy | src/darkfile.c:268-273 | Copy's and move's step. |
| Worker.DeleteCountsRemovals | src/darkfile.c:249-251 | Delete counts a file exactly when remove succeeds, and then the file is gone; otherwise nothing changes. |
| Worker.CopyAndMoveCountCopies | src/darkfile.c:268-273 | Copy and move count exactly when fast_copy succeeds, and then the destination has the source's contents. Failure changes nothing. Only move, and only after a successful copy, takes the source away. |
| Worker.SelfCopyEmpties | src/darkfile.c:196-233 | A successful copy of a file onto itself is counted and leaves it empty. A move then unlinks it when permitted. |
| Worker.NoFileLost | src/darkfile.c:252-273 | One copy, move or organize task keeps its own source's contents at the source or puts them at the destination. |
| Worker.OrganizeNameCollision | src/darkfile.c:252-263 | Two organize tasks for files of the same name from different directories both rename to dst/category/name. The second replaces the first, and every other file is unchanged. |
| Worker.OrganizeAlwaysCounts | src/darkfile.c:252-267 | Organize always counts and always makes dst/category. A permitted rename puts the file at dst/category/name with no credit. A missing source changes no file. |
| Worker.OrganizeMakesCategoryDir | src/darkfile.c:256-261 | The category directory is among those mkdirs makes. |
| Worker.PathIsLastTarget | src/darkfile.c:96-100 | mkdirs on a path without a trailing separator makes that path. |
| Worker.OrganizeSameCategoryDirs | src/darkfile.c:256-261 | Two organize tasks whose files share a category, run in either order, leave exactly the directories one of them makes: the mkdirs targets of dst/category. |
| Worker.CleanDeleteRunCountsAll | src/darkfile.c:249-251 | A delete run over distinct, present, removable files counts every task and removes exactly those files. |
| Worker.CopyStep | src/darkfile.c:268-273 | One copy task removes no file, changes none but its destination, and counts exactly when fast_copy succeeds. |
| Worker.CopyRunKeepsFiles | src/darkfile.c:268-273 | A copy run removes no file and leaves every file no task writes to unchanged. |
| Worker.CopyRunCountsAll | src/darkfile.c:268-273 | A copy run whose copies all succeed counts every task. |
| Worker.RunCountsAll | src/darkfile.c:249-273 | A run in which every task, in its turn, is counted adds its number of tasks to processed_files. |
| Worker.OrganizeRunCountsAll | src/darkfile.c:252-267 | An organize run has no failures and adds exactly its number of tasks to processed_files, whatever the renames and copies do. |
| Worker.MoveRunKeepsOthers | src/darkfile.c:268-273 | A move run takes away only its tasks' sources: every other file present at the start is still present. |
| Worker.MoveRunCountsAll | src/darkfile.c:268-273 | A move run over distinct, present sources whose copies all succeed counts every task. |
| Worker.WorkerRoutine | src/darkfile.c:236-280 | One worker drains the queue oldest first. The storage and counters become the run of all queued tasks. It then exits if production is done and would wait otherwise. |
| Worker.Serve | src/darkfile.c:249-276 | Executing the n-th dequeued task extends the run by that task. |

## Left out

- Threads, mutexes and condition variables (`pthread_*`, `active_workers`):
  the queue reports `ok == false` or `WouldBlock` where the source waits, and
  the atomics are plain fields.
- `monitor_routine` and the scan's progress line every 50 files: terminal
  output and floating-point percentages only.
- `get_cpu_cores`: the number of cores is an input of at least 1.
- Argument parsing, help text, the menu and confirmation prompts, and timing:
  the menu answer is an input.
- The `_WIN32` branches and the non-Linux `fast_copy` branch: only POSIX and
  Linux behaviour is modelled.
- `snprintf` truncation at `PATH_MAX`, 2048 or 4096 bytes: paths are
  unbounded strings.
- The 64-bit width of the counters, because their wrap-around is never
  reached in practice: counters are unbounded. `processed_bytes` is an
  `int` because the fallback subtracts from it.
- The result of `mkdir`, `rmdir`, `lseek`, `fstat` and the final `mkdir` of
  `mkdirs`, all of which the source ignores. `rmdir` calls are listed, with
  no effect on storage.
- `strdup`/`free` and the ownership of task strings.
- The `BUFFER_SIZE` bound on one read: read results are oracle values.
- The contents a failed copy leaves at its destination (`O_TRUNC` writes
  part of a file): a failed copy changes no file.
- `process_dir` records its `enqueue` and `mkdirs` calls as an event list
  instead of pushing into the live queue. With no concurrent consumer, a
  full queue would block the producer forever.
- Worker.WorkerRoutine: models one worker alone; interleavings of several
  workers are not modelled, beyond the two orders of
  Worker.OrganizeSameCategoryDirs.
- Worker.CopyAndMoveCountCopies and Worker.NoFileLost: require the
  destination to differ from the source. The corrected check guarantees
  this when the destination has a resolvable ancestor
  (Setup.AdmittedFixedNeverInside).
- Worker.NoFileLost: a task may still replace a file already at its
  destination. For organize this loses files of the same name from
  different directories (Worker.OrganizeNameCollision).
- The directory tree is fixed for the whole run, and the walk sees it as
  it was at the start. Two cases change it while `process_dir` still
  walks. A copy into a directory inside its source, which the code's
  check admits, lets the walk reach the copies it is making. Organize
  always writes into its source (`raw_dst` is `src`), making
  src/<Category> and renaming files into it, so a moved file can be
  enqueued and counted again and processed_files can pass total_files.
  Worker.OrganizeRunCountsAll and Setup.RunReachesScanTotal count the
  tasks of the tree as scanned and do not cover this.
- Setup.AdmittedFixed: a destination with no resolvable ancestor, such as
  a relative name in a directory realpath does not know, is still admitted,
  as by the code. Only the root and the path's own prefixes are tried as
  ancestors; a relative path is not resolved against the working
  directory.
- CopyEngine.FallbackCreditsOnce: the run-wide promise that
  processed_bytes reaches total_bytes is not stated; only the file-count
  half is (Setup.RunReachesScanTotal). Worker.Storage.CopyFile
  takes the file size from its oracle, which is not tied to the stored
  contents or to the scanned size. For a copy onto its own path the code
  sees size 0 after the truncation; the oracle may answer otherwise.
- MakeDirs.Mkdirs and Worker.Storage.MakeDirs: require a non-empty path.
  The code can reach mkdirs("") with an empty destination argument
  (`-c src ""`): "" is neither a directory nor ends in a separator, so it
  is used as given, realpath fails on it, the run is admitted, and
  process_dir calls mkdirs(""), which reads tmp[-1]. That out-of-bounds
  read is undefined behaviour and is not modelled. Walker.ProcessDir
  records the mkdirs("") call as an event.
- Walker.RemovalsBottomUp and Setup.FinishOrder: require the names within
  each directory listing to be distinct, as in any real directory.
- Walker.ProcessDir: only the first event of copy and move is stated to be
  a mkdirs call; a subdirectory's mkdirs preceding its own tasks follows
  from the preorder but is not stated.
- Walker.ExampleLeaves: the example's category counts follow from
  Walker.TallySpec together with the three example categories. They are not
  stated as one literal equation.
- Three details of the code that are easy to misread; the model follows
  the code in each:
  - a name starting with a dot is in Others only when that dot is also the
    last one, because the code tests the position of the last dot.
    ".hidden" is in Others, but ".x.png" is an image
    (Categorizer.DotFileWithExtension);
  - `processed_bytes` is not monotonic: the sendfile fallback subtracts the
    partial credit before retrying;
  - a destination that fails to open is not free of effects: the already
    opened source descriptor is closed.

## Findings

| source | as written | input that shows it | evidently intended | confidence | as-written member | corrected member |
|---|---|---|---|---|---|---|
| src/darkfile.c:456-458 | is_subdirectory (lines 140-147) returns false when realpath fails on the resolved destination, and main then admits the run | copy /a/b into the existing directory /a/b/c: the destination /a/b/c/b does not exist yet, so realpath fails and the copy is admitted | a copy or move into a destination inside its own source is refused | not executed | Setup.AdmitsCopyIntoOwnTree | Setup.AdmittedFixedNeverInside |
| src/darkfile.c:456-458 | the same test with the root as source | copy / into a new /backup: realpath fails on /backup, so the copy is admitted | the copy is refused, since every path lies below / | not executed | Setup.FixedRefusesCopyOfRoot | Setup.AdmittedFixedNeverInside |
