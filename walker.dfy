/** The directory walkers: scan_recursive (totals and category statistics),
    process_dir (the tasks and mkdirs calls of the producer) and
    cleanup_dirs (removal of emptied directories). The file system below a
    path is a tree in readdir order; lstat's answer is the node's kind. */
module Walker {
  import opened Common
  import opened Categorizer

  /** What lstat reports for an entry: a directory (whether opendir
      succeeds on it, and its entries in readdir order), any other kind of
      file (regular, symbolic link, ...) with its size, or that lstat fails. */
  datatype Node = File(size: nat) | Directory(listable: bool, entries: seq<Entry>) | Vanished
  datatype Entry = Entry(name: string, node: Node)

  /** readdir's "." and ".." are passed over. */
  predicate Skipped(name: string) {
    name == "." || name == ".."
  }

  function Width(node: Node): nat {
    if node.Directory? then |node.entries| + 1 else 0
  }

  /** `base` followed by each of `parts`, separated by the path separator. */
  function JoinAll(base: string, parts: seq<string>): string
    decreases |parts|
  {
    if parts == [] then base else JoinAll(Join(base, parts[0]), parts[1..])
  }

  // ---------------------------------------------------------------- leaves

  /** A non-directory below the walked directory: the names of the
      directories leading to it from there, its own name and its size. */
  datatype Leaf = Leaf(dirs: seq<string>, name: string, size: nat)

  /** The path of a leaf below `base`. */
  function LeafPath(base: string, l: Leaf): string {
    Join(JoinAll(base, l.dirs), l.name)
  }

  /** The leaves seen through entry `name`, one level further up. */
  function Prefixed(name: string, ls: seq<Leaf>): (r: seq<Leaf>)
    ensures |r| == |ls|
  {
    seq(|ls|, i requires 0 <= i < |ls| => ls[i].(dirs := [name] + ls[i].dirs))
  }

  /** Every non-directory a walk of `node` reaches, depth first in readdir
      order: the reference the walks are checked against. */
  function Leaves(node: Node): (r: seq<Leaf>)
    decreases node, Width(node)
  {
    if node.Directory? && node.listable then EntriesLeaves(node, |node.entries|) else []
  }

  /** The leaves below the first k entries of a directory. */
  function EntriesLeaves(node: Node, k: nat): (r: seq<Leaf>)
    requires node.Directory? && k <= |node.entries|
    decreases node, k
  {
    if k == 0 then [] else EntriesLeaves(node, k - 1) + EntryLeaves(node, k - 1)
  }

  /** The leaves reached through entry k of a directory. */
  function EntryLeaves(node: Node, k: nat): (r: seq<Leaf>)
    requires node.Directory? && k < |node.entries|
    decreases node, k
  {
    var e := node.entries[k];
    if Skipped(e.name) then []
    else match e.node
      case File(size) => [Leaf([], e.name, size)]
      case Vanished => []
      case Directory(_, _) => Prefixed(e.name, Leaves(e.node))
  }

  function SumSizes(ls: seq<Leaf>): nat {
    if ls == [] then 0 else SumSizes(ls[..|ls| - 1]) + ls[|ls| - 1].size
  }

  lemma {:induction false} SumSizesAppend(a: seq<Leaf>, b: seq<Leaf>)
    ensures SumSizes(a + b) == SumSizes(a) + SumSizes(b)
    decreases |b|
  {
    if b != [] {
      assert (a + b)[..|a + b| - 1] == a + b[..|b| - 1];
      SumSizesAppend(a, b[..|b| - 1]);
    } else {
      assert a + b == a;
    }
  }

  lemma {:induction false} SumSizesPrefixed(name: string, ls: seq<Leaf>)
    ensures SumSizes(Prefixed(name, ls)) == SumSizes(ls)
    decreases |ls|
  {
    if ls != [] {
      assert Prefixed(name, ls)[..|ls| - 1] == Prefixed(name, ls[..|ls| - 1]);
      SumSizesPrefixed(name, ls[..|ls| - 1]);
    }
  }

  // ---------------------------------------------------------------- scan

  /** The per-category counts and sizes after tallying each leaf, in order. */
  function CountLeaves(t: Tally, ls: seq<Leaf>): Tally {
    if ls == [] then t else Add(CountLeaves(t, ls[..|ls| - 1]), CategoryOf(ls[|ls| - 1].name), 1)
  }

  function SizeLeaves(t: Tally, ls: seq<Leaf>): Tally {
    if ls == [] then t
    else Add(SizeLeaves(t, ls[..|ls| - 1]), CategoryOf(ls[|ls| - 1].name), ls[|ls| - 1].size)
  }

  lemma {:induction false} TallyAppend(t: Tally, a: seq<Leaf>, b: seq<Leaf>)
    ensures CountLeaves(t, a + b) == CountLeaves(CountLeaves(t, a), b)
    ensures SizeLeaves(t, a + b) == SizeLeaves(SizeLeaves(t, a), b)
    decreases |b|
  {
    if b != [] {
      assert (a + b)[..|a + b| - 1] == a + b[..|b| - 1];
      TallyAppend(t, a, b[..|b| - 1]);
    } else {
      assert a + b == a;
    }
  }

  lemma {:induction false} TallyPrefixed(t: Tally, name: string, ls: seq<Leaf>)
    ensures CountLeaves(t, Prefixed(name, ls)) == CountLeaves(t, ls)
    ensures SizeLeaves(t, Prefixed(name, ls)) == SizeLeaves(t, ls)
    decreases |ls|
  {
    if ls != [] {
      assert Prefixed(name, ls)[..|ls| - 1] == Prefixed(name, ls[..|ls| - 1]);
      TallyPrefixed(t, name, ls[..|ls| - 1]);
    }
  }

  /** How many of the leaves fall in category c, and their total size. */
  function NumIn(ls: seq<Leaf>, c: Category): nat {
    if ls == [] then 0
    else NumIn(ls[..|ls| - 1], c) + (if CategoryOf(ls[|ls| - 1].name) == c then 1 else 0)
  }

  function SizeIn(ls: seq<Leaf>, c: Category): nat {
    if ls == [] then 0
    else SizeIn(ls[..|ls| - 1], c) + (if CategoryOf(ls[|ls| - 1].name) == c then ls[|ls| - 1].size else 0)
  }

  /** Tallying adds, per category, the number and total size of the leaves
      in it. */
  lemma {:induction false} TallySpec(t: Tally, s: Tally, ls: seq<Leaf>)
    ensures forall c :: Get(CountLeaves(t, ls), c) == Get(t, c) + NumIn(ls, c)
    ensures forall c :: Get(SizeLeaves(s, ls), c) == Get(s, c) + SizeIn(ls, c)
    decreases |ls|
  {
    if ls != [] {
      TallySpec(t, s, ls[..|ls| - 1]);
    }
  }

  /** The seven counts grow by the number of leaves, the seven sizes by
      their total size. */
  lemma {:induction false} TallyTotals(t: Tally, s: Tally, ls: seq<Leaf>)
    ensures Total(CountLeaves(t, ls)) == Total(t) + |ls|
    ensures Total(SizeLeaves(s, ls)) == Total(s) + SumSizes(ls)
    decreases |ls|
  {
    if ls != [] {
      var init, l := ls[..|ls| - 1], ls[|ls| - 1];
      TallyTotals(t, s, init);
      TotalAdd(CountLeaves(t, init), CategoryOf(l.name), 1);
      TotalAdd(SizeLeaves(s, init), CategoryOf(l.name), l.size);
    }
  }

  /** What a scan accumulates: total_files, total_bytes and the organizer's
      per-category counts and sizes. */
  datatype ScanState = ScanState(files: nat, bytes: nat, count: Tally, size: Tally)

  /** The state after scanning the leaves `ls` from `st`: one file and its
      size per leaf, and in organize mode each leaf tallied by its name. */
  function Scanned(mode: Mode, st: ScanState, ls: seq<Leaf>): ScanState {
    ScanState(st.files + |ls|, st.bytes + SumSizes(ls),
              if mode == Organize then CountLeaves(st.count, ls) else st.count,
              if mode == Organize then SizeLeaves(st.size, ls) else st.size)
  }

  lemma ScannedAppend(mode: Mode, st: ScanState, a: seq<Leaf>, b: seq<Leaf>)
    ensures Scanned(mode, st, a + b) == Scanned(mode, Scanned(mode, st, a), b)
  {
    SumSizesAppend(a, b);
    TallyAppend(st.count, a, b);
    TallyAppend(st.size, a, b);
  }

  lemma ScannedPrefixed(mode: Mode, st: ScanState, name: string, ls: seq<Leaf>)
    ensures Scanned(mode, st, Prefixed(name, ls)) == Scanned(mode, st, ls)
  {
    SumSizesPrefixed(name, ls);
    TallyPrefixed(st.count, name, ls);
    TallyPrefixed(st.size, name, ls);
  }

  /** In organize mode a scan keeps the seven counts summing to total_files
      and the seven sizes summing to total_bytes; from zeroed counters they
      thus add up after the scan. */
  lemma ScannedOrganizeSums(st: ScanState, ls: seq<Leaf>)
    requires Total(st.count) == st.files && Total(st.size) == st.bytes
    ensures var r := Scanned(Organize, st, ls);
      Total(r.count) == r.files && Total(r.size) == r.bytes
  {
    TallyTotals(st.count, st.size, ls);
  }

  /** A directory holding a.jpg (10 bytes), b.mp4 (20) and c.xyz (5). */
  const ExampleTree: Node :=
    Directory(true, [Entry("a.jpg", File(10)), Entry("b.mp4", File(20)), Entry("c.xyz", File(5))])

  /** Its scan counts three files of 35 bytes, visited in directory order. */
  lemma ExampleLeaves()
    ensures Leaves(ExampleTree) == [Leaf([], "a.jpg", 10), Leaf([], "b.mp4", 20), Leaf([], "c.xyz", 5)]
    ensures SumSizes(Leaves(ExampleTree)) == 35
  {
    assert EntryLeaves(ExampleTree, 0) == [Leaf([], "a.jpg", 10)];
    assert EntryLeaves(ExampleTree, 1) == [Leaf([], "b.mp4", 20)];
    assert EntryLeaves(ExampleTree, 2) == [Leaf([], "c.xyz", 5)];
    var l0, l1, l2 := Leaf([], "a.jpg", 10), Leaf([], "b.mp4", 20), Leaf([], "c.xyz", 5);
    assert [l0, l1, l2][..2] == [l0, l1] && [l0, l1][..1] == [l0] && [l0][..0] == [];
    assert SumSizes([l0]) == 10;
    assert SumSizes([l0, l1]) == 30;
  }

  /** scan_recursive(path): counts every non-directory below `path` into
      total_files and total_bytes and, when organizing, tallies its category
      by name. A directory opendir refuses and an entry lstat fails on add
      nothing. */
  method ScanRecursive(path: string, node: Node, mode: Mode, c: Counters, stats: Stats)
    modifies c, stats
    ensures ScanState(c.totalFiles, c.totalBytes, stats.count, stats.size) ==
      Scanned(mode, ScanState(old(c.totalFiles), old(c.totalBytes), old(stats.count), old(stats.size)), Leaves(node))
    ensures c.processedFiles == old(c.processedFiles) && c.processedBytes == old(c.processedBytes)
    decreases node, Width(node)
  {
    ghost var start := ScanState(c.totalFiles, c.totalBytes, stats.count, stats.size);
    if !(node.Directory? && node.listable) {
      assert SumSizes([]) == 0;
      return;
    }
    var i := 0;
    while i < |node.entries|
      invariant 0 <= i <= |node.entries|
      invariant ScanState(c.totalFiles, c.totalBytes, stats.count, stats.size) ==
        Scanned(mode, start, EntriesLeaves(node, i))
      invariant c.processedFiles == old(c.processedFiles) && c.processedBytes == old(c.processedBytes)
    {
      ghost var before, added := EntriesLeaves(node, i), EntryLeaves(node, i);
      assert EntriesLeaves(node, i + 1) == before + added;
      ScannedAppend(mode, start, before, added);
      ScanEntry(path, node, i, mode, c, stats);
      i := i + 1;
    }
  }

  /** One pass of scan_recursive's readdir loop, on entry k. */
  method ScanEntry(path: string, node: Node, k: nat, mode: Mode, c: Counters, stats: Stats)
    requires node.Directory? && k < |node.entries|
    modifies c, stats
    ensures ScanState(c.totalFiles, c.totalBytes, stats.count, stats.size) ==
      Scanned(mode, ScanState(old(c.totalFiles), old(c.totalBytes), old(stats.count), old(stats.size)), EntryLeaves(node, k))
    ensures c.processedFiles == old(c.processedFiles) && c.processedBytes == old(c.processedBytes)
    decreases node, k
  {
    ghost var st := ScanState(c.totalFiles, c.totalBytes, stats.count, stats.size);
    var e := node.entries[k];
    if Skipped(e.name) {
      assert SumSizes([]) == 0;
      return;
    }
    match e.node
    case Vanished =>
      assert SumSizes([]) == 0;
    case File(size) =>
      ghost var l := Leaf([], e.name, size);
      assert EntryLeaves(node, k) == [l];
      assert [l][..0] == [];
      assert SumSizes([l]) == size;
      c.totalFiles := c.totalFiles + 1;
      c.totalBytes := c.totalBytes + size;
      if mode == Organize {
        var _ := stats.GetCategory(e.name, true, size);
        assert stats.count == CountLeaves(st.count, [l]);
        assert stats.size == SizeLeaves(st.size, [l]);
      }
    case Directory(_, _) =>
      ScannedPrefixed(mode, st, e.name, Leaves(e.node));
      ScanRecursive(Join(path, e.name), e.node, mode, c, stats);
  }

  // ---------------------------------------------------------------- process_dir

  /** The calls process_dir makes, in order: mkdirs on a destination
      directory, or enqueue of a task. */
  datatype Event = Mkdir(path: string) | Enqueued(task: Task)

  function Tasks(evs: seq<Event>): seq<Task> {
    if evs == [] then []
    else Tasks(evs[..|evs| - 1]) + (if evs[|evs| - 1].Enqueued? then [evs[|evs| - 1].task] else [])
  }

  function Mkdirs(evs: seq<Event>): seq<string> {
    if evs == [] then []
    else Mkdirs(evs[..|evs| - 1]) + (if evs[|evs| - 1].Mkdir? then [evs[|evs| - 1].path] else [])
  }

  lemma {:induction false} ProjectionsAppend(a: seq<Event>, b: seq<Event>)
    ensures Tasks(a + b) == Tasks(a) + Tasks(b)
    ensures Mkdirs(a + b) == Mkdirs(a) + Mkdirs(b)
    decreases |b|
  {
    if b != [] {
      assert (a + b)[..|a + b| - 1] == a + b[..|b| - 1];
      ProjectionsAppend(a, b[..|b| - 1]);
    } else {
      assert a + b == a;
    }
  }

  /** What is enqueued for a leaf: organize sends the file's path, the
      destination root and its name; copy, move and delete send its path and
      the same relative path below the destination, if there is one. */
  function LeafTask(mode: Mode, curr: string, dst: Option<string>, l: Leaf): Task {
    if mode == Organize then Task(LeafPath(curr, l), dst, Some(l.name))
    else Task(LeafPath(curr, l), if dst.Some? then Some(LeafPath(dst.value, l)) else None, None)
  }

  function LeafTasks(mode: Mode, curr: string, dst: Option<string>, ls: seq<Leaf>): (r: seq<Task>)
    ensures |r| == |ls|
  {
    seq(|ls|, i requires 0 <= i < |ls| => LeafTask(mode, curr, dst, ls[i]))
  }

  /** The destination process_dir passes down for subdirectory `name`. */
  function SubDst(mode: Mode, dst: Option<string>, name: string): Option<string> {
    if mode == Organize then dst else if dst.Some? then Some(Join(dst.value, name)) else None
  }

  /** The relative paths of the listable directories of a walk, in preorder:
      the directory itself first. */
  function Dirs(node: Node): (r: seq<seq<string>>)
    ensures node.Directory? && node.listable ==> |r| >= 1 && r[0] == []
    decreases node, Width(node)
  {
    if node.Directory? && node.listable then [[]] + EntriesDirs(node, |node.entries|) else []
  }

  function EntriesDirs(node: Node, k: nat): seq<seq<string>>
    requires node.Directory? && k <= |node.entries|
    decreases node, k
  {
    if k == 0 then [] else EntriesDirs(node, k - 1) + EntryDirs(node, k - 1)
  }

  function EntryDirs(node: Node, k: nat): seq<seq<string>>
    requires node.Directory? && k < |node.entries|
    decreases node, k
  {
    var e := node.entries[k];
    if Skipped(e.name) || !e.node.Directory? then [] else Under(e.name, Dirs(e.node))
  }

  function Under(name: string, ps: seq<seq<string>>): (r: seq<seq<string>>)
    ensures |r| == |ps|
  {
    seq(|ps|, i requires 0 <= i < |ps| => [name] + ps[i])
  }

  /** The paths `base`/p for each relative path p. */
  function Paths(base: string, ps: seq<seq<string>>): (r: seq<string>)
    ensures |r| == |ps|
  {
    seq(|ps|, i requires 0 <= i < |ps| => JoinAll(base, ps[i]))
  }

  /** Copy and move make each visited directory's mirror; the others make none. */
  function MkdirPaths(mode: Mode, dst: Option<string>, ps: seq<seq<string>>): seq<string> {
    if (mode == Copy || mode == Move) && dst.Some? then Paths(dst.value, ps) else []
  }

  lemma JoinAllCons(base: string, name: string, p: seq<string>)
    ensures JoinAll(base, [name] + p) == JoinAll(Join(base, name), p)
  {
    assert ([name] + p)[1..] == p;
  }

  /** Tasks of a subdirectory's walk are the tasks of its leaves seen from
      one level up. */
  lemma LeafTasksUnder(mode: Mode, curr: string, dst: Option<string>, name: string, ls: seq<Leaf>)
    ensures LeafTasks(mode, Join(curr, name), SubDst(mode, dst, name), ls) ==
            LeafTasks(mode, curr, dst, Prefixed(name, ls))
  {
    forall i | 0 <= i < |ls|
      ensures LeafTask(mode, Join(curr, name), SubDst(mode, dst, name), ls[i]) ==
              LeafTask(mode, curr, dst, Prefixed(name, ls)[i])
    {
      JoinAllCons(curr, name, ls[i].dirs);
      if dst.Some? {
        JoinAllCons(dst.value, name, ls[i].dirs);
      }
    }
  }

  lemma MkdirPathsUnder(mode: Mode, dst: Option<string>, name: string, ps: seq<seq<string>>)
    ensures MkdirPaths(mode, SubDst(mode, dst, name), ps) == MkdirPaths(mode, dst, Under(name, ps))
  {
    if (mode == Copy || mode == Move) && dst.Some? {
      forall i | 0 <= i < |ps| ensures JoinAll(Join(dst.value, name), ps[i]) == JoinAll(dst.value, [name] + ps[i]) {
        JoinAllCons(dst.value, name, ps[i]);
      }
    }
  }

  lemma LeafTasksAppend(mode: Mode, curr: string, dst: Option<string>, a: seq<Leaf>, b: seq<Leaf>)
    ensures LeafTasks(mode, curr, dst, a + b) == LeafTasks(mode, curr, dst, a) + LeafTasks(mode, curr, dst, b)
  {
  }

  lemma MkdirPathsAppend(mode: Mode, dst: Option<string>, a: seq<seq<string>>, b: seq<seq<string>>)
    ensures MkdirPaths(mode, dst, a + b) == MkdirPaths(mode, dst, a) + MkdirPaths(mode, dst, b)
  {
  }

  /** process_dir(src_base, curr, dst): when opendir succeeds, copy and move
      first make the destination directory; then each entry is walked in
      readdir order: subdirectories recursively (organize keeps the
      destination root, the others descend into dst/name), other files
      enqueued. The tasks are exactly one per leaf of the walk, in order, and
      the directories made are the mirrors of the visited ones, in preorder. */
  method ProcessDir(curr: string, node: Node, mode: Mode, dst: Option<string>) returns (events: seq<Event>)
    ensures Tasks(events) == LeafTasks(mode, curr, dst, Leaves(node))
    ensures Mkdirs(events) == MkdirPaths(mode, dst, Dirs(node))
    ensures (mode == Copy || mode == Move) && dst.Some? && node.Directory? && node.listable ==>
              events[0] == Mkdir(dst.value)
    decreases node, Width(node)
  {
    if !(node.Directory? && node.listable) {
      return [];
    }
    events := [];
    if (mode == Copy || mode == Move) && dst.Some? {
      events := [Mkdir(dst.value)];
      assert events[..0] == [];
      assert JoinAll(dst.value, []) == dst.value;
    }
    assert Tasks(events) == [];
    assert Mkdirs(events) == MkdirPaths(mode, dst, [[]]);
    var i := 0;
    while i < |node.entries|
      invariant 0 <= i <= |node.entries|
      invariant Tasks(events) == LeafTasks(mode, curr, dst, EntriesLeaves(node, i))
      invariant Mkdirs(events) == MkdirPaths(mode, dst, [[]] + EntriesDirs(node, i))
      invariant (mode == Copy || mode == Move) && dst.Some? ==> |events| > 0 && events[0] == Mkdir(dst.value)
    {
      var more := ProcessEntry(curr, node, i, mode, dst);
      ProjectionsAppend(events, more);
      LeafTasksAppend(mode, curr, dst, EntriesLeaves(node, i), EntryLeaves(node, i));
      ghost var visited := [[]] + EntriesDirs(node, i);
      assert [[]] + EntriesDirs(node, i + 1) == visited + EntryDirs(node, i);
      MkdirPathsAppend(mode, dst, visited, EntryDirs(node, i));
      events := events + more;
      i := i + 1;
    }
  }

  /** One pass of process_dir's readdir loop, on entry k. */
  method ProcessEntry(curr: string, node: Node, k: nat, mode: Mode, dst: Option<string>) returns (events: seq<Event>)
    requires node.Directory? && k < |node.entries|
    ensures Tasks(events) == LeafTasks(mode, curr, dst, EntryLeaves(node, k))
    ensures Mkdirs(events) == MkdirPaths(mode, dst, EntryDirs(node, k))
    decreases node, k
  {
    var e := node.entries[k];
    if Skipped(e.name) {
      return [];
    }
    var full := Join(curr, e.name);
    match e.node
    case Vanished =>
      return [];
    case File(size) =>
      var t := if mode == Organize then Task(full, dst, Some(e.name))
               else Task(full, if dst.Some? then Some(Join(dst.value, e.name)) else None, None);
      events := [Enqueued(t)];
      assert events[..0] == [];
      assert Tasks(events) == [t];
      assert Mkdirs(events) == [];
      ghost var l := Leaf([], e.name, size);
      assert EntryLeaves(node, k) == [l];
      assert LeafTask(mode, curr, dst, l) == t;
      assert EntryDirs(node, k) == [];
    case Directory(_, _) =>
      events := ProcessDir(full, e.node, mode, SubDst(mode, dst, e.name));
      LeafTasksUnder(mode, curr, dst, e.name, Leaves(e.node));
      MkdirPathsUnder(mode, dst, e.name, Dirs(e.node));
  }

  /** The directory holding each leaf is one the walk visits. */
  lemma {:induction false} LeafParentsVisited(node: Node)
    ensures forall i :: 0 <= i < |Leaves(node)| ==> Leaves(node)[i].dirs in Dirs(node)
    decreases node, Width(node)
  {
    if node.Directory? && node.listable {
      EntriesParentsVisited(node, |node.entries|);
    }
  }

  lemma {:induction false} EntriesParentsVisited(node: Node, k: nat)
    requires node.Directory? && k <= |node.entries|
    ensures forall i :: 0 <= i < |EntriesLeaves(node, k)| ==>
      EntriesLeaves(node, k)[i].dirs in [[]] + EntriesDirs(node, k)
    decreases node, k
  {
    if k > 0 {
      EntriesParentsVisited(node, k - 1);
      var before, added := EntriesLeaves(node, k - 1), EntryLeaves(node, k - 1);
      var e := node.entries[k - 1];
      var whole := [[]] + EntriesDirs(node, k);
      assert whole == [[]] + EntriesDirs(node, k - 1) + EntryDirs(node, k - 1);
      forall i | 0 <= i < |added|
        ensures added[i].dirs in whole
      {
        if !Skipped(e.name) && e.node.Directory? {
          var sub := Leaves(e.node);
          LeafParentsVisited(e.node);
          var p := sub[i].dirs;
          assert added[i].dirs == [e.name] + p;
          var j :| 0 <= j < |Dirs(e.node)| && Dirs(e.node)[j] == p;
          assert EntryDirs(node, k - 1)[j] == [e.name] + p;
          assert whole[1 + |EntriesDirs(node, k - 1)| + j] == [e.name] + p;
        } else {
          assert added[i].dirs == [] == whole[0];
        }
      }
      forall i | 0 <= i < |EntriesLeaves(node, k)|
        ensures EntriesLeaves(node, k)[i].dirs in [[]] + EntriesDirs(node, k)
      {
        if i >= |before| {
          assert EntriesLeaves(node, k)[i] == added[i - |before|];
        } else {
          assert EntriesLeaves(node, k)[i] == before[i];
        }
      }
    }
  }

  /** In copy and move, every task's destination is a file directly inside
      a directory process_dir asked mkdirs to make. */
  lemma CopyTargetsHaveParents(mode: Mode, curr: string, dst: Option<string>, node: Node)
    requires (mode == Copy || mode == Move) && dst.Some?
    ensures forall i :: 0 <= i < |Leaves(node)| ==>
      var l := Leaves(node)[i];
      var parent := JoinAll(dst.value, l.dirs);
      && parent in MkdirPaths(mode, dst, Dirs(node))
      && LeafTasks(mode, curr, dst, Leaves(node))[i].dst == Some(Join(parent, l.name))
  {
    LeafParentsVisited(node);
    forall i | 0 <= i < |Leaves(node)|
      ensures JoinAll(dst.value, Leaves(node)[i].dirs) in MkdirPaths(mode, dst, Dirs(node))
    {
      var l := Leaves(node)[i];
      var j :| 0 <= j < |Dirs(node)| && Dirs(node)[j] == l.dirs;
      assert MkdirPaths(mode, dst, Dirs(node))[j] == JoinAll(dst.value, l.dirs);
    }
  }

  /** A leaf's path lies strictly below the directory it is seen from. */
  lemma LeafPathBelow(base: string, l: Leaf)
    ensures base + [PathSep] <= LeafPath(base, l)
  {
    JoinAllExtends(base, l.dirs);
    var x := JoinAll(base, l.dirs);
    assert Join(x, l.name)[..|x| + 1] == x + [PathSep];
    if l.dirs != [] {
      assert Join(x, l.name)[..|base| + 1] == x[..|base| + 1];
    }
  }

  /** Every task's source lies strictly below the walked directory; a copy
      or move task's destination strictly below the destination root, an
      organize task keeps the root and names its file. */
  lemma TaskPathsBelow(mode: Mode, curr: string, dst: Option<string>, node: Node)
    ensures var ts := LeafTasks(mode, curr, dst, Leaves(node));
      forall i :: 0 <= i < |ts| ==>
        && curr + [PathSep] <= ts[i].src
        && (mode != Organize && dst.Some? ==> ts[i].dst.Some? && dst.value + [PathSep] <= ts[i].dst.value)
        && (mode != Organize && dst.None? ==> ts[i].dst.None?)
        && (mode == Organize ==> ts[i].dst == dst && ts[i].filename == Some(Leaves(node)[i].name))
  {
    var ls := Leaves(node);
    var ts := LeafTasks(mode, curr, dst, ls);
    forall i | 0 <= i < |ts|
      ensures curr + [PathSep] <= ts[i].src
      ensures mode != Organize && dst.Some? ==> ts[i].dst.Some? && dst.value + [PathSep] <= ts[i].dst.value
    {
      LeafPathBelow(curr, ls[i]);
      if dst.Some? {
        LeafPathBelow(dst.value, ls[i]);
      }
    }
  }

  // ---------------------------------------------------------------- cleanup_dirs

  /** The relative paths cleanup_dirs hands to rmdir, in order: below each
      subdirectory entry first its own removals, then the entry itself. */
  function Removals(node: Node): (r: seq<seq<string>>)
    ensures forall i :: 0 <= i < |r| ==> |r[i]| >= 1
    decreases node, Width(node)
  {
    if node.Directory? && node.listable then EntriesRemovals(node, |node.entries|) else []
  }

  function EntriesRemovals(node: Node, k: nat): (r: seq<seq<string>>)
    requires node.Directory? && k <= |node.entries|
    ensures forall i :: 0 <= i < |r| ==> |r[i]| >= 1
    decreases node, k
  {
    if k == 0 then [] else EntriesRemovals(node, k - 1) + EntryRemovals(node, k - 1)
  }

  function EntryRemovals(node: Node, k: nat): (r: seq<seq<string>>)
    requires node.Directory? && k < |node.entries|
    ensures forall i :: 0 <= i < |r| ==> |r[i]| >= 1
    decreases node, k
  {
    var e := node.entries[k];
    if Skipped(e.name) || !e.node.Directory? then [] else Under(e.name, Removals(e.node)) + [[e.name]]
  }

  lemma PathsAppend(base: string, a: seq<seq<string>>, b: seq<seq<string>>)
    ensures Paths(base, a + b) == Paths(base, a) + Paths(base, b)
  {
  }

  lemma PathsUnder(base: string, name: string, ps: seq<seq<string>>)
    ensures Paths(Join(base, name), ps) == Paths(base, Under(name, ps))
  {
    forall i | 0 <= i < |ps| ensures JoinAll(Join(base, name), ps[i]) == JoinAll(base, [name] + ps[i]) {
      JoinAllCons(base, name, ps[i]);
    }
  }

  /** cleanup_dirs(path): walks the tree below `path` and, after walking
      each subdirectory, calls rmdir on it (whether or not opendir worked on
      it); `path` itself is left alone. Returns the paths given to rmdir. */
  method CleanupDirs(path: string, node: Node) returns (rmdirs: seq<string>)
    ensures rmdirs == Paths(path, Removals(node))
    decreases node, Width(node)
  {
    if !(node.Directory? && node.listable) {
      return [];
    }
    rmdirs := [];
    var i := 0;
    while i < |node.entries|
      invariant 0 <= i <= |node.entries|
      invariant rmdirs == Paths(path, EntriesRemovals(node, i))
    {
      var more := CleanupEntry(path, node, i);
      PathsAppend(path, EntriesRemovals(node, i), EntryRemovals(node, i));
      rmdirs := rmdirs + more;
      i := i + 1;
    }
  }

  /** One pass of cleanup_dirs's readdir loop, on entry k. */
  method CleanupEntry(path: string, node: Node, k: nat) returns (rmdirs: seq<string>)
    requires node.Directory? && k < |node.entries|
    ensures rmdirs == Paths(path, EntryRemovals(node, k))
    decreases node, k
  {
    var e := node.entries[k];
    if Skipped(e.name) || !e.node.Directory? {
      return [];
    }
    var full := Join(path, e.name);
    var below := CleanupDirs(full, e.node);
    rmdirs := below + [full];
    PathsUnder(path, e.name, Removals(e.node));
    PathsAppend(path, Under(e.name, Removals(e.node)), [[e.name]]);
    JoinAllCons(path, e.name, []);
    assert [e.name] + [] == [e.name];
    assert JoinAll(full, []) == full;
  }

  /** JoinAll only ever extends its base, by a separator and more. */
  lemma {:induction false} JoinAllExtends(base: string, p: seq<string>)
    ensures base <= JoinAll(base, p)
    ensures p != [] ==> base + [PathSep] <= JoinAll(base, p)
    decreases |p|
  {
    if p != [] {
      JoinAllExtends(Join(base, p[0]), p[1..]);
      var r := JoinAll(base, p);
      assert Join(base, p[0]) <= r;
      assert r[..|base| + 1] == Join(base, p[0])[..|base| + 1] == base + [PathSep];
    }
  }

  /** Every rmdir target lies strictly below the cleaned directory, which is
      itself never removed here. */
  lemma RemovalsBelowRoot(path: string, node: Node)
    ensures forall i :: 0 <= i < |Removals(node)| ==> path + [PathSep] <= Paths(path, Removals(node))[i]
  {
    forall i | 0 <= i < |Removals(node)| ensures path + [PathSep] <= JoinAll(path, Removals(node)[i]) {
      JoinAllExtends(path, Removals(node)[i]);
    }
  }

  /** Names within each directory listing are distinct, as in any real
      directory. */
  ghost predicate UniqueNames(node: Node)
    decreases node
  {
    node.Directory? ==>
      && (forall i, j :: 0 <= i < j < |node.entries| ==> node.entries[i].name != node.entries[j].name)
      && (forall i :: 0 <= i < |node.entries| ==> UniqueNames(node.entries[i].node))
  }

  /** A directory comes after every directory below it. */
  ghost predicate BottomUp(r: seq<seq<string>>) {
    forall i, j :: 0 <= i < |r| && 0 <= j < |r| && |r[j]| < |r[i]| && r[i][..|r[j]|] == r[j] ==> i < j
  }

  lemma BottomUpUnder(name: string, r: seq<seq<string>>)
    requires BottomUp(r) && forall i :: 0 <= i < |r| ==> |r[i]| >= 1
    ensures BottomUp(Under(name, r) + [[name]])
  {
    var u := Under(name, r) + [[name]];
    forall i, j | 0 <= i < |u| && 0 <= j < |u| && |u[j]| < |u[i]| && u[i][..|u[j]|] == u[j]
      ensures i < j
    {
      if i < |r| && j < |r| {
        assert u[i] == [name] + r[i] && u[j] == [name] + r[j];
        assert r[i][..|r[j]|] == u[i][1..|u[j]|];
      }
    }
  }

  lemma BottomUpConcat(a: seq<seq<string>>, b: seq<seq<string>>, name: string)
    requires BottomUp(a) && BottomUp(b)
    requires forall i :: 0 <= i < |a| ==> |a[i]| >= 1 && a[i][0] != name
    requires forall i :: 0 <= i < |b| ==> |b[i]| >= 1 && b[i][0] == name
    ensures BottomUp(a + b)
  {
    var u := a + b;
    forall i, j | 0 <= i < |u| && 0 <= j < |u| && |u[j]| < |u[i]| && u[i][..|u[j]|] == u[j]
      ensures i < j
    {
      assert u[i][0] == u[j][0];
      if i < |a| && j < |a| {
        assert u[i] == a[i] && u[j] == a[j];
      } else if i >= |a| && j >= |a| {
        assert u[i] == b[i - |a|] && u[j] == b[j - |a|];
      }
    }
  }

  /** cleanup_dirs removes bottom-up: each directory is handed to rmdir only
      after every directory below it. */
  lemma {:induction false} RemovalsBottomUp(node: Node)
    requires UniqueNames(node)
    ensures BottomUp(Removals(node))
    decreases node, Width(node)
  {
    if node.Directory? && node.listable {
      EntriesRemovalsBottomUp(node, |node.entries|);
    }
  }

  lemma {:induction false} EntriesRemovalsBottomUp(node: Node, k: nat)
    requires node.Directory? && k <= |node.entries| && UniqueNames(node)
    ensures BottomUp(EntriesRemovals(node, k))
    ensures forall i, m :: 0 <= i < |EntriesRemovals(node, k)| && k <= m < |node.entries| ==>
      EntriesRemovals(node, k)[i][0] != node.entries[m].name
    decreases node, k
  {
    if k > 0 {
      var a, b := EntriesRemovals(node, k - 1), EntryRemovals(node, k - 1);
      var e := node.entries[k - 1];
      EntriesRemovalsBottomUp(node, k - 1);
      if !Skipped(e.name) && e.node.Directory? {
        RemovalsBottomUp(e.node);
        BottomUpUnder(e.name, Removals(e.node));
      }
      assert forall i :: 0 <= i < |b| ==> b[i][0] == e.name;
      BottomUpConcat(a, b, e.name);
      forall i, m | 0 <= i < |a + b| && k <= m < |node.entries|
        ensures (a + b)[i][0] != node.entries[m].name
      {
        if i >= |a| {
          assert (a + b)[i] == b[i - |a|];
        } else {
          assert (a + b)[i] == a[i];
        }
      }
    }
  }
}
