/** The workers: each takes tasks off the queue and performs the mode's
    action on the storage, counting processed files. The storage is an
    abstract file map plus the set of directories made; whether the
    operating system permits a call is an oracle, given per task. */
module Worker {
  import opened Common
  import opened Categorizer
  import opened MakeDirs
  import opened CopyEngine
  import opened TaskQueue

  type Bytes = seq<int>

  /** The operating system's answers for one task, beyond what the file map
      itself decides (a call on a path that is not there always fails). */
  datatype TaskEnv = TaskEnv(
    removeAllowed: bool,   // remove() is permitted
    renameAllowed: bool,   // rename() is permitted (false e.g. across devices)
    unlinkAllowed: bool,   // unlink() is permitted
    copy: CopyEnv)         // the answers during fast_copy

  /** The files (path to contents) and directories of the storage. */
  class Storage {
    var files: map<string, Bytes>
    var dirs: set<string>

    constructor (files0: map<string, Bytes>, dirs0: set<string>)
      ensures files == files0 && dirs == dirs0
    {
      files, dirs := files0, dirs0;
    }

    /** remove(): 0 when the file was there and removing it is permitted. */
    method Remove(p: string, allowed: bool) returns (r: int)
      modifies this
      ensures r == (if p in old(files) && allowed then 0 else -1)
      ensures files == (if r == 0 then old(files) - {p} else old(files)) && dirs == old(dirs)
    {
      if p in files && allowed {
        files := files - {p};
        return 0;
      }
      return -1;
    }

    /** rename(): moves the contents of a to b, replacing b. Renaming an
        existing file to its own path succeeds and does nothing (POSIX). */
    method Rename(a: string, b: string, allowed: bool) returns (r: int)
      modifies this
      ensures r == (if a in old(files) && (allowed || a == b) then 0 else -1)
      ensures files == RenameEffect(old(files), a, b, r == 0) && dirs == old(dirs)
    {
      if a in files && (allowed || a == b) {
        if a != b {
          files := (files - {a})[b := files[a]];
        }
        return 0;
      }
      return -1;
    }

    /** unlink(); its result is ignored by every caller. */
    method Unlink(p: string, allowed: bool)
      modifies this
      ensures files == (if p in old(files) && allowed then old(files) - {p} else old(files))
      ensures dirs == old(dirs)
    {
      if p in files && allowed {
        files := files - {p};
      }
    }

    /** mkdirs() under mkdir_mutex: every directory it asks mkdir for is
        recorded as made (mkdir's result is ignored). */
    method MakeDirs(path: string)
      requires |path| > 0 && NulFree(path)
      modifies this
      ensures dirs == old(dirs) + AsSet(MkdirTargets(path)) && files == old(files)
    {
      var made := Mkdirs(path);
      dirs := dirs + AsSet(made);
    }

    /** fast_copy(src, dst) on this storage: a source that is not there does
        not open; on success dst holds the contents of src, or nothing when
        dst is src itself. */
    method CopyFile(src: string, dst: Option<string>, env: CopyEnv, c: Counters) returns (status: int)
      modifies this, c
      ensures status == FastCopySpec(dst, Opened(env, src, old(files))).status
      ensures files == CopyEffect(old(files), src, dst, status == 0) && dirs == old(dirs)
      ensures c.processedBytes == old(c.processedBytes) + FastCopySpec(dst, Opened(env, src, old(files))).credited
      ensures c.processedFiles == old(c.processedFiles)
      ensures c.totalFiles == old(c.totalFiles) && c.totalBytes == old(c.totalBytes)
    {
      var closed;
      status, closed := FastCopy(src, dst, Opened(env, src, files), c);
      FastCopySucceedsOnlyWhenOpen(dst, Opened(env, src, files));
      if status == 0 {
        files := files[dst.value := if dst.value == src then [] else files[src]];
      }
    }
  }

  function AsSet(s: seq<string>): set<string> {
    set x | x in s
  }

  /** The copy answers, with the source opening only if it exists. */
  function Opened(env: CopyEnv, src: string, files: map<string, Bytes>): CopyEnv {
    env.(srcOpens := env.srcOpens && src in files)
  }

  lemma FastCopySucceedsOnlyWhenOpen(dst: Option<string>, env: CopyEnv)
    ensures FastCopySpec(dst, env).status == 0 ==> env.srcOpens && env.dstOpens && dst.Some?
  {
  }

  function RenameEffect(files: map<string, Bytes>, a: string, b: string, ok: bool): map<string, Bytes> {
    if ok && a in files && a != b then (files - {a})[b := files[a]] else files
  }

  /** The files after a copy: on success dst holds what src held, except
      that a copy onto its own path leaves the file empty, since fast_copy
      opens the destination with O_TRUNC before it reads the source. */
  function CopyEffect(files: map<string, Bytes>, src: string, dst: Option<string>, ok: bool): map<string, Bytes> {
    if ok && src in files && dst.Some? then files[dst.value := if dst.value == src then [] else files[src]] else files
  }

  /** What every task of the mode carries: organize tasks name the
      destination root and the file; paths are C strings. */
  predicate WellFormed(mode: Mode, t: Task) {
    && NulFree(t.src)
    && (t.dst.Some? ==> NulFree(t.dst.value))
    && (mode == Organize ==> t.dst.Some? && t.filename.Some? && NulFree(t.filename.value))
  }

  /** The category directory of an organize task: dst/category. */
  function OrganizeDir(t: Task): string
    requires t.dst.Some? && t.filename.Some?
  {
    Join(t.dst.value, Name(CategoryOf(t.filename.value)))
  }

  /** Where organize puts the file: dst/category/filename. */
  function OrganizeTarget(t: Task): string
    requires t.dst.Some? && t.filename.Some?
  {
    Join(OrganizeDir(t), t.filename.value)
  }

  /** The outcome of one task: the new file map, the new directories, and
      what it adds to processed_files and processed_bytes. */
  datatype Outcome = Outcome(files: map<string, Bytes>, newDirs: set<string>, processed: nat, credited: int)

  function Effect(mode: Mode, t: Task, env: TaskEnv, files: map<string, Bytes>): Outcome
    requires WellFormed(mode, t)
  {
    match mode
    case Delete =>
      var ok := t.src in files && env.removeAllowed;
      Outcome(if ok then files - {t.src} else files, {}, if ok then 1 else 0, 0)
    case Organize =>
      var target := OrganizeTarget(t);
      var made := AsSet(MkdirTargets(OrganizeDir(t)));
      var renamed := t.src in files && (env.renameAllowed || t.src == target);
      if renamed then
        Outcome(RenameEffect(files, t.src, target, true), made, 1, 0)
      else
        var r := FastCopySpec(Some(target), Opened(env.copy, t.src, files));
        var copied := CopyEffect(files, t.src, Some(target), r.status == 0);
        var after := if r.status == 0 && t.src in copied && env.unlinkAllowed then copied - {t.src} else copied;
        Outcome(after, made, 1, r.credited)
    case _ =>
      var r := FastCopySpec(t.dst, Opened(env.copy, t.src, files));
      var copied := CopyEffect(files, t.src, t.dst, r.status == 0);
      var after :=
        if r.status == 0 && mode == Move && t.src in copied && env.unlinkAllowed then copied - {t.src} else copied;
      Outcome(after, {}, if r.status == 0 then 1 else 0, r.credited)
  }

  /** The mode dispatch of worker_routine for one dequeued task: the
      storage and the processed counters make one step of the run. */
  method Execute(mode: Mode, t: Task, env: TaskEnv, fs: Storage, c: Counters)
    requires WellFormed(mode, t)
    modifies fs, c
    ensures Run(fs.files, fs.dirs, c.processedFiles, c.processedBytes) ==
            Step(mode, Run(old(fs.files), old(fs.dirs), old(c.processedFiles), old(c.processedBytes)), t, env)
    ensures c.totalFiles == old(c.totalFiles) && c.totalBytes == old(c.totalBytes)
  {
    if mode == Delete {
      ExecuteDelete(t, env, fs, c);
    } else if mode == Organize {
      ExecuteOrganize(t, env, fs, c);
    } else {
      ExecuteCopy(mode, t, env, fs, c);
    }
  }

  /** Delete mode: remove the file, counting it when remove succeeds. */
  method ExecuteDelete(t: Task, env: TaskEnv, fs: Storage, c: Counters)
    requires WellFormed(Delete, t)
    modifies fs, c
    ensures Run(fs.files, fs.dirs, c.processedFiles, c.processedBytes) ==
            Step(Delete, Run(old(fs.files), old(fs.dirs), old(c.processedFiles), old(c.processedBytes)), t, env)
    ensures c.totalFiles == old(c.totalFiles) && c.totalBytes == old(c.totalBytes)
  {
    var r := fs.Remove(t.src, env.removeAllowed);
    if r == 0 {
      c.processedFiles := c.processedFiles + 1;
    }
  }

  /** Organize mode: make the category directory, rename into it, and fall
      back to copy and unlink when rename fails; the file is counted either
      way. */
  method ExecuteOrganize(t: Task, env: TaskEnv, fs: Storage, c: Counters)
    requires WellFormed(Organize, t)
    modifies fs, c
    ensures Run(fs.files, fs.dirs, c.processedFiles, c.processedBytes) ==
            Step(Organize, Run(old(fs.files), old(fs.dirs), old(c.processedFiles), old(c.processedBytes)), t, env)
    ensures c.totalFiles == old(c.totalFiles) && c.totalBytes == old(c.totalBytes)
  {
    var cat := CategoryOf(t.filename.value);
    var targetDir := Join(t.dst.value, Name(cat));
    var targetPath := Join(targetDir, t.filename.value);
    NameNulFree(cat);
    fs.MakeDirs(targetDir);
    var r := fs.Rename(t.src, targetPath, env.renameAllowed);
    if r != 0 {
      var st := fs.CopyFile(t.src, Some(targetPath), env.copy, c);
      if st == 0 {
        fs.Unlink(t.src, env.unlinkAllowed);
      }
    }
    c.processedFiles := c.processedFiles + 1;
  }

  /** Copy and move: copy the file, and for move unlink the source once the
      copy succeeded; the file is counted when the copy succeeded. */
  method ExecuteCopy(mode: Mode, t: Task, env: TaskEnv, fs: Storage, c: Counters)
    requires mode != Delete && mode != Organize && WellFormed(mode, t)
    modifies fs, c
    ensures Run(fs.files, fs.dirs, c.processedFiles, c.processedBytes) ==
            Step(mode, Run(old(fs.files), old(fs.dirs), old(c.processedFiles), old(c.processedBytes)), t, env)
    ensures c.totalFiles == old(c.totalFiles) && c.totalBytes == old(c.totalBytes)
  {
    var st := fs.CopyFile(t.src, t.dst, env.copy, c);
    if st == 0 {
      if mode == Move {
        fs.Unlink(t.src, env.unlinkAllowed);
      }
      c.processedFiles := c.processedFiles + 1;
    }
  }

  lemma NameNulFree(c: Category)
    ensures NulFree(Name(c)) && |Name(c)| > 0 && PathSep !in Name(c)
  {
  }

  /** Delete mode counts a file exactly when remove succeeds, and then the
      file is gone; otherwise nothing changes. */
  lemma DeleteCountsRemovals(t: Task, env: TaskEnv, files: map<string, Bytes>)
    requires WellFormed(Delete, t)
    ensures var o := Effect(Delete, t, env, files);
      && (o.processed == 1 <==> t.src in files && env.removeAllowed)
      && (o.processed == 1 ==> o.files == files - {t.src})
      && (o.processed == 0 ==> o.files == files)
      && o.credited == 0
  {
  }

  /** Copy and move count a file exactly when fast_copy succeeds; the copy
      then holds the source's contents. Move takes the source away only after
      such a copy; copy never does. */
  lemma CopyAndMoveCountCopies(mode: Mode, t: Task, env: TaskEnv, files: map<string, Bytes>)
    requires mode == Copy || mode == Move
    requires WellFormed(mode, t) && t.dst != Some(t.src)
    ensures var o := Effect(mode, t, env, files);
      && (o.processed == 1 <==> FastCopySpec(t.dst, Opened(env.copy, t.src, files)).status == 0)
      && (o.processed == 1 ==> t.src in files && t.dst.Some? && t.dst.value in o.files &&
                               o.files[t.dst.value] == files[t.src])
      && (o.processed == 0 ==> o.files == files)
      && (mode == Copy ==> (t.src in files ==> t.src in o.files))
      && (t.src in files && t.src !in o.files ==> mode == Move && o.processed == 1)
  {
    FastCopySucceedsOnlyWhenOpen(t.dst, Opened(env.copy, t.src, files));
  }

  /** A copy onto its own path destroys the file's contents and is still
      counted: the O_TRUNC open empties it before it is read. A move then
      unlinks the emptied file when unlinking is permitted. */
  lemma SelfCopyEmpties(mode: Mode, p: string, files: map<string, Bytes>, env: TaskEnv)
    requires mode == Copy || mode == Move
    requires NulFree(p) && p in files
    requires FastCopySpec(Some(p), Opened(env.copy, p, files)).status == 0
    ensures var o := Effect(mode, Task(p, Some(p), None), env, files);
      && o.processed == 1
      && (mode == Copy ==> o.files == files[p := []])
      && (mode == Move ==> o.files == if env.unlinkAllowed then files - {p} else files[p := []])
  {
  }

  /** One copy, move or organize task never loses its own source's
      contents: they stay at the source or are at the destination
      afterwards. What was at the destination before may be replaced (see
      OrganizeNameCollision). */
  lemma NoFileLost(mode: Mode, t: Task, env: TaskEnv, files: map<string, Bytes>)
    requires WellFormed(mode, t) && t.src in files && t.dst != Some(t.src)
    ensures var o := Effect(mode, t, env, files);
      var dest := if mode == Organize then OrganizeTarget(t) else if t.dst.Some? then t.dst.value else t.src;
      mode != Delete ==>
        (t.src in o.files && o.files[t.src] == files[t.src]) ||
        (dest in o.files && o.files[dest] == files[t.src])
  {
    if mode == Organize {
      FastCopySucceedsOnlyWhenOpen(Some(OrganizeTarget(t)), Opened(env.copy, t.src, files));
    } else if mode != Delete {
      FastCopySucceedsOnlyWhenOpen(t.dst, Opened(env.copy, t.src, files));
    }
  }

  /** Organize sends the file to dst/category/filename, makes every
      directory up to dst/category, and counts one file whatever happened:
      even a file that stayed where it was. */
  lemma OrganizeAlwaysCounts(t: Task, env: TaskEnv, files: map<string, Bytes>)
    requires WellFormed(Organize, t)
    ensures var o := Effect(Organize, t, env, files);
      && o.processed == 1
      && OrganizeDir(t) in o.newDirs
      && (t.src in files && env.renameAllowed ==>
            o.credited == 0 && OrganizeTarget(t) in o.files && o.files[OrganizeTarget(t)] == files[t.src])
      && (t.src !in files ==> o.files == files)
  {
    OrganizeMakesCategoryDir(t);
    FastCopySucceedsOnlyWhenOpen(Some(OrganizeTarget(t)), Opened(env.copy, t.src, files));
  }

  /** Organize places files by name alone: two files of the same name in
      different directories go to the same dst/category/name, and a second
      permitted rename replaces the first file there. Afterwards both
      sources are gone, the target holds the second file, and every other
      file is as it was, so the first file survives only as a copy of the
      second. */
  lemma OrganizeNameCollision(before: Run, t1: Task, t2: Task, env1: TaskEnv, env2: TaskEnv)
    requires WellFormed(Organize, t1) && WellFormed(Organize, t2)
    requires t1.dst == t2.dst && t1.filename == t2.filename
    requires t1.src != t2.src && t1.src in before.files && t2.src in before.files
    requires t1.src != OrganizeTarget(t1) && t2.src != OrganizeTarget(t1)
    requires env1.renameAllowed && env2.renameAllowed
    ensures var after := Step(Organize, Step(Organize, before, t1, env1), t2, env2);
      && t1.src !in after.files && t2.src !in after.files
      && OrganizeTarget(t1) in after.files && after.files[OrganizeTarget(t1)] == before.files[t2.src]
      && forall p :: p in after.files && p != OrganizeTarget(t1) ==> p in before.files && after.files[p] == before.files[p]
  {
    var target := OrganizeTarget(t1);
    assert target == OrganizeTarget(t2);
    var mid := Step(Organize, before, t1, env1);
    assert mid.files == (before.files - {t1.src})[target := before.files[t1.src]];
    assert t2.src in mid.files && mid.files[t2.src] == before.files[t2.src];
    var after := Step(Organize, mid, t2, env2);
    assert after.files == (mid.files - {t2.src})[target := before.files[t2.src]];
  }

  /** The category directory is among those mkdirs makes for it. */
  lemma OrganizeMakesCategoryDir(t: Task)
    requires t.dst.Some? && t.filename.Some?
    ensures OrganizeDir(t) in AsSet(MkdirTargets(OrganizeDir(t)))
  {
    var name := Name(CategoryOf(t.filename.value));
    NameNulFree(CategoryOf(t.filename.value));
    assert name[|name| - 1] in name;
    PathIsLastTarget(Join(t.dst.value, name));
  }

  /** mkdirs(p) on a path without a trailing separator makes p itself last. */
  lemma PathIsLastTarget(p: string)
    requires |p| > 0 && p[|p| - 1] != PathSep
    ensures p in AsSet(MkdirTargets(p))
  {
    MkdirTargetsSpec(p);
    var m := MkdirTargets(p);
    assert m[|m| - 1] in m;
  }

  /** Two organize tasks whose files fall in the same category, run in
      either order as two workers may, leave the directories either one
      makes alone: mkdirs on a directory that exists adds nothing. */
  lemma OrganizeSameCategoryDirs(before: Run, t1: Task, t2: Task, env1: TaskEnv, env2: TaskEnv)
    requires WellFormed(Organize, t1) && WellFormed(Organize, t2)
    requires t1.dst == t2.dst && CategoryOf(t1.filename.value) == CategoryOf(t2.filename.value)
    ensures Step(Organize, before, t1, env1).dirs == before.dirs + AsSet(MkdirTargets(OrganizeDir(t1)))
    ensures Step(Organize, Step(Organize, before, t1, env1), t2, env2).dirs == Step(Organize, before, t1, env1).dirs
    ensures Step(Organize, Step(Organize, before, t2, env2), t1, env1).dirs == Step(Organize, before, t1, env1).dirs
  {
    assert OrganizeDir(t1) == OrganizeDir(t2);
  }

  /** The outcome of a run of tasks, in order. */
  datatype Run = Run(files: map<string, Bytes>, dirs: set<string>, processed: nat, credited: int)

  /** The outcome of one more task after `before`. */
  function Step(mode: Mode, before: Run, t: Task, env: TaskEnv): Run
    requires WellFormed(mode, t)
  {
    var o := Effect(mode, t, env, before.files);
    Run(o.files, before.dirs + o.newDirs, before.processed + o.processed, before.credited + o.credited)
  }

  function RunTasks(mode: Mode, ts: seq<Task>, envOf: Task -> TaskEnv, start: Run): Run
    requires forall k :: 0 <= k < |ts| ==> WellFormed(mode, ts[k])
  {
    if ts == [] then start
    else Step(mode, RunTasks(mode, ts[..|ts| - 1], envOf, start), ts[|ts| - 1], envOf(ts[|ts| - 1]))
  }

  /** The sources of a run of tasks. */
  function Sources(ts: seq<Task>): set<string> {
    set k | 0 <= k < |ts| :: ts[k].src
  }

  /** A delete run over distinct, present, removable sources counts every
      task and leaves the file map without exactly those sources. */
  lemma {:induction false} CleanDeleteRunCountsAll(ts: seq<Task>, envOf: Task -> TaskEnv, start: Run)
    requires forall k :: 0 <= k < |ts| ==> WellFormed(Delete, ts[k])
    requires forall k :: 0 <= k < |ts| ==> ts[k].src in start.files && envOf(ts[k]).removeAllowed
    requires forall i, k :: 0 <= i < k < |ts| ==> ts[i].src != ts[k].src
    ensures RunTasks(Delete, ts, envOf, start).processed == start.processed + |ts|
    ensures RunTasks(Delete, ts, envOf, start).files == start.files - Sources(ts)
  {
    if ts != [] {
      var init := ts[..|ts| - 1];
      var t := ts[|ts| - 1];
      CleanDeleteRunCountsAll(init, envOf, start);
      assert Sources(ts) == Sources(init) + {t.src} by {
        forall x | x in Sources(ts) ensures x in Sources(init) + {t.src} {
          var k :| 0 <= k < |ts| && ts[k].src == x;
          if k < |ts| - 1 { assert init[k] == ts[k]; }
        }
        forall x | x in Sources(init) ensures x in Sources(ts) {
          var k :| 0 <= k < |init| && init[k].src == x;
          assert ts[k] == init[k];
        }
      }
      forall k | 0 <= k < |init| ensures init[k].src != t.src {
        assert init[k] == ts[k];
      }
    }
  }

  /** No task of the run fails: each, on the storage the tasks before it
      leave, is counted. */
  ghost predicate NoFailures(mode: Mode, ts: seq<Task>, envOf: Task -> TaskEnv, start: Run)
    requires forall k :: 0 <= k < |ts| ==> WellFormed(mode, ts[k])
  {
    ts == [] ||
    (var init, t := ts[..|ts| - 1], ts[|ts| - 1];
     NoFailures(mode, init, envOf, start) && Effect(mode, t, envOf(t), RunTasks(mode, init, envOf, start).files).processed == 1)
  }

  /** A run without failures counts every task. */
  lemma {:induction false} RunCountsAll(mode: Mode, ts: seq<Task>, envOf: Task -> TaskEnv, start: Run)
    requires forall k :: 0 <= k < |ts| ==> WellFormed(mode, ts[k])
    requires NoFailures(mode, ts, envOf, start)
    ensures RunTasks(mode, ts, envOf, start).processed == start.processed + |ts|
  {
    if ts != [] {
      RunCountsAll(mode, ts[..|ts| - 1], envOf, start);
    }
  }

  /** Organize counts every task whatever happens to it: an organize run
      over n tasks adds exactly n to processed_files. */
  lemma {:induction false} OrganizeRunCountsAll(ts: seq<Task>, envOf: Task -> TaskEnv, start: Run)
    requires forall k :: 0 <= k < |ts| ==> WellFormed(Organize, ts[k])
    ensures NoFailures(Organize, ts, envOf, start)
    ensures RunTasks(Organize, ts, envOf, start).processed == start.processed + |ts|
  {
    if ts != [] {
      OrganizeRunCountsAll(ts[..|ts| - 1], envOf, start);
    }
  }

  /** A move run only ever takes away the sources of its tasks: every
      other file present at the start is still present. */
  lemma {:induction false} MoveRunKeepsOthers(ts: seq<Task>, envOf: Task -> TaskEnv, start: Run)
    requires forall k :: 0 <= k < |ts| ==> WellFormed(Move, ts[k])
    ensures forall p :: p in start.files && p !in Sources(ts) ==> p in RunTasks(Move, ts, envOf, start).files
  {
    if ts != [] {
      var init := ts[..|ts| - 1];
      MoveRunKeepsOthers(init, envOf, start);
      assert Sources(init) <= Sources(ts) by {
        forall x | x in Sources(init) ensures x in Sources(ts) {
          var k :| 0 <= k < |init| && init[k].src == x;
          assert ts[k] == init[k];
        }
      }
      assert ts[|ts| - 1].src in Sources(ts);
    }
  }

  /** A move run over distinct, present sources whose copies all succeed
      counts every task. */
  lemma {:induction false} MoveRunCountsAll(ts: seq<Task>, envOf: Task -> TaskEnv, start: Run)
    requires forall k :: 0 <= k < |ts| ==> WellFormed(Move, ts[k])
    requires forall i, k :: 0 <= i < k < |ts| ==> ts[i].src != ts[k].src
    requires forall k :: 0 <= k < |ts| ==>
      ts[k].src in start.files && FastCopySpec(ts[k].dst, Opened(envOf(ts[k]).copy, ts[k].src, start.files)).status == 0
    ensures RunTasks(Move, ts, envOf, start).processed == start.processed + |ts|
  {
    if ts != [] {
      var init := ts[..|ts| - 1];
      var t := ts[|ts| - 1];
      MoveRunCountsAll(init, envOf, start);
      MoveRunKeepsOthers(init, envOf, start);
      forall k | 0 <= k < |init| ensures init[k].src != t.src {
        assert init[k] == ts[k];
      }
      var before := RunTasks(Move, init, envOf, start);
      assert Opened(envOf(t).copy, t.src, before.files) == Opened(envOf(t).copy, t.src, start.files);
    }
  }

  /** One copy task: it removes no file, changes none but its destination,
      and counts one exactly when fast_copy reports success. */
  lemma CopyStep(before: Run, t: Task, env: TaskEnv)
    requires WellFormed(Copy, t)
    ensures var after := Step(Copy, before, t, env);
      && before.files.Keys <= after.files.Keys
      && (forall p :: p in before.files && t.dst != Some(p) ==> p in after.files && after.files[p] == before.files[p])
      && after.processed == before.processed +
           (if FastCopySpec(t.dst, Opened(env.copy, t.src, before.files)).status == 0 then 1 else 0)
  {
  }

  /** A copy run never removes a file, and leaves every file no task writes
      to as it was. */
  lemma {:induction false} CopyRunKeepsFiles(ts: seq<Task>, envOf: Task -> TaskEnv, start: Run)
    requires forall k :: 0 <= k < |ts| ==> WellFormed(Copy, ts[k])
    ensures start.files.Keys <= RunTasks(Copy, ts, envOf, start).files.Keys
    ensures forall p :: p in start.files && p !in Destinations(ts) ==>
      p in RunTasks(Copy, ts, envOf, start).files && RunTasks(Copy, ts, envOf, start).files[p] == start.files[p]
  {
    if ts != [] {
      var init := ts[..|ts| - 1];
      var t := ts[|ts| - 1];
      CopyRunKeepsFiles(init, envOf, start);
      assert Destinations(init) <= Destinations(ts) by {
        forall x | x in Destinations(init) ensures x in Destinations(ts) {
          var k :| 0 <= k < |init| && init[k].dst == Some(x);
          assert ts[k] == init[k];
        }
      }
      if t.dst.Some? {
        assert t.dst.value in Destinations(ts) by { assert ts[|ts| - 1].dst == Some(t.dst.value); }
      }
      CopyStep(RunTasks(Copy, init, envOf, start), t, envOf(t));
    }
  }

  /** A copy run counts exactly the tasks whose copy succeeds: when every
      source is present and every copy completes, it counts every task. */
  lemma {:induction false} CopyRunCountsAll(ts: seq<Task>, envOf: Task -> TaskEnv, start: Run)
    requires forall k :: 0 <= k < |ts| ==> WellFormed(Copy, ts[k])
    requires forall k :: 0 <= k < |ts| ==>
      ts[k].src in start.files && FastCopySpec(ts[k].dst, Opened(envOf(ts[k]).copy, ts[k].src, start.files)).status == 0
    ensures RunTasks(Copy, ts, envOf, start).processed == start.processed + |ts|
  {
    if ts != [] {
      var init := ts[..|ts| - 1];
      var t := ts[|ts| - 1];
      CopyRunCountsAll(init, envOf, start);
      CopyRunKeepsFiles(init, envOf, start);
      var before := RunTasks(Copy, init, envOf, start);
      assert Opened(envOf(t).copy, t.src, before.files) == Opened(envOf(t).copy, t.src, start.files);
      CopyStep(before, t, envOf(t));
    }
  }

  /** The destinations a run of tasks writes to. */
  function Destinations(ts: seq<Task>): set<string> {
    set k | 0 <= k < |ts| && ts[k].dst.Some? :: ts[k].dst.value
  }

  /** One worker running alone: it dequeues and executes every queued task,
      oldest first; with production done it then exits, before that it
      would wait (`blocked`). */
  method WorkerRoutine(mode: Mode, q: Queue, done: bool, envOf: Task -> TaskEnv, fs: Storage, c: Counters)
      returns (blocked: bool)
    requires q.Valid()
    requires forall k :: 0 <= k < |q.Contents| ==> WellFormed(mode, q.Contents[k])
    modifies q, fs, c
    ensures q.Valid() && q.Contents == [] && q.slots == old(q.slots)
    ensures blocked == !done
    ensures var r := RunTasks(mode, old(q.Contents), envOf,
                              Run(old(fs.files), old(fs.dirs), old(c.processedFiles), old(c.processedBytes)));
      && fs.files == r.files && fs.dirs == r.dirs
      && c.processedFiles == r.processed && c.processedBytes == r.credited
    ensures c.totalFiles == old(c.totalFiles) && c.totalBytes == old(c.totalBytes)
  {
    ghost var all := q.Contents;
    ghost var start := Run(fs.files, fs.dirs, c.processedFiles, c.processedBytes);
    ghost var n := 0;
    while true
      invariant q.Valid() && q.slots == old(q.slots)
      invariant 0 <= n <= |all| && q.Contents == all[n..]
      invariant forall k :: 0 <= k < |all| ==> WellFormed(mode, all[k])
      invariant Run(fs.files, fs.dirs, c.processedFiles, c.processedBytes) == RunTasks(mode, all[..n], envOf, start)
      invariant c.totalFiles == old(c.totalFiles) && c.totalBytes == old(c.totalBytes)
      decreases |q.Contents|
    {
      var taken := q.Dequeue(done);
      match taken
      case Finished =>
        assert all[..n] == all;
        return false;
      case WouldBlock =>
        assert all[..n] == all;
        return true;
      case Got(t) =>
        assert t == all[n];
        Serve(mode, t, envOf, fs, c, all, n, start);
        n := n + 1;
    }
  }

  /** The body of worker_routine's loop after a successful dequeue of the
      n-th task: executing it extends the run by that task. */
  method Serve(mode: Mode, t: Task, envOf: Task -> TaskEnv, fs: Storage, c: Counters,
               ghost all: seq<Task>, ghost n: nat, ghost start: Run)
    requires n < |all| && t == all[n] && forall k :: 0 <= k < |all| ==> WellFormed(mode, all[k])
    requires Run(fs.files, fs.dirs, c.processedFiles, c.processedBytes) == RunTasks(mode, all[..n], envOf, start)
    modifies fs, c
    ensures Run(fs.files, fs.dirs, c.processedFiles, c.processedBytes) == RunTasks(mode, all[..n + 1], envOf, start)
    ensures c.totalFiles == old(c.totalFiles) && c.totalBytes == old(c.totalBytes)
  {
    RunTasksNext(mode, all, n, envOf, start);
    Execute(mode, t, envOf(t), fs, c);
  }

  /** A run of the first n + 1 tasks is the run of the first n followed by
      one step. */
  lemma RunTasksNext(mode: Mode, ts: seq<Task>, n: nat, envOf: Task -> TaskEnv, start: Run)
    requires n < |ts| && forall k :: 0 <= k < |ts| ==> WellFormed(mode, ts[k])
    ensures RunTasks(mode, ts[..n + 1], envOf, start) ==
            Step(mode, RunTasks(mode, ts[..n], envOf, start), ts[n], envOf(ts[n]))
  {
    assert ts[..n + 1][..n] == ts[..n];
  }
}
