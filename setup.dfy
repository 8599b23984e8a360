/** The decisions main makes around the walk: the destination a copy or
    move writes to, whether the run is admitted, how many workers run, and
    the order of its phases. */
module Setup {
  import opened Common
  import opened Categorizer
  import opened Containment
  import opened Walker
  import Worker

  // ---------------------------------------------------------------- workers

  /** The "Cores" caps fixed by the performance menu. */
  const UltraCap: int := 128

  /** The number of workers for menu choice `choice` (None when scanf reads
      no number) on a device with `cores` cores: 1 for choice 1, twice the
      cores for 3, four times the cores but at most 128 for 4, and the cores
      for anything else. */
  function WorkerCount(choice: Option<int>, cores: int): int
    requires cores >= 1
  {
    var lower, std, high := 1, cores, cores * 2;
    var ultra := if cores * 4 > UltraCap then UltraCap else cores * 4;
    match choice
    case None => std
    case Some(n) => if n == 1 then lower else if n == 3 then high else if n == 4 then ultra else std
  }

  /** There is always at least one worker and never more than four per core;
      choice 4 never exceeds the cap; the levels 1, 2, 3 never decrease, and
      the "ultra" level stays at or above "higher" exactly while 4 * cores
      fits under the cap or the cap still exceeds twice the cores. */
  lemma WorkerCountBounds(choice: Option<int>, cores: int)
    requires cores >= 1
    ensures 1 <= WorkerCount(choice, cores) <= 4 * cores
    ensures choice == Some(4) ==> WorkerCount(choice, cores) <= UltraCap
    ensures WorkerCount(Some(1), cores) <= WorkerCount(Some(2), cores) <= WorkerCount(Some(3), cores)
    ensures WorkerCount(Some(3), cores) <= WorkerCount(Some(4), cores) <==> cores <= 64
    ensures choice == None || (choice.Some? && choice.value !in {1, 3, 4}) ==> WorkerCount(choice, cores) == cores
  {
  }

  // ---------------------------------------------------------------- destination

  /** POSIX basename: "." for the empty path, "/" for a path of separators
      only, otherwise the last component once trailing separators are gone. */
  function Basename(s: string): (r: string)
    ensures |r| >= 1
    ensures r == "/" || PathSep !in r
  {
    if s == [] then "."
    else
      var t := StripSeps(s);
      if t == [] then "/"
      else match LastSep(t)
        case None => t
        case Some(i) => t[i + 1..]
  }

  /** The path without its trailing separators. */
  function StripSeps(s: string): (t: string)
    ensures t <= s && (t == [] || t[|t| - 1] != PathSep)
    ensures forall i :: |t| <= i < |s| ==> s[i] == PathSep
  {
    if s == [] || s[|s| - 1] != PathSep then s else StripSeps(s[..|s| - 1])
  }

  /** The index of the last separator. */
  function LastSep(s: string): (r: Option<nat>)
    ensures r.None? ==> PathSep !in s
    ensures r.Some? ==> r.value < |s| && s[r.value] == PathSep && PathSep !in s[r.value + 1..]
  {
    if s == [] then None
    else if s[|s| - 1] == PathSep then Some(|s| - 1)
    else match LastSep(s[..|s| - 1])
      case None => None
      case Some(i) => assert s[i + 1..] == s[..|s| - 1][i + 1..] + [s[|s| - 1]]; Some(i)
  }

  /** main's clean_src: one trailing separator dropped from a path longer
      than one character. */
  function CleanSource(src: string): string {
    if |src| > 1 && src[|src| - 1] == PathSep then src[..|src| - 1] else src
  }

  /** Dropping that separator never changes the basename, because basename
      ignores trailing separators itself. */
  lemma CleanSourceKeepsBasename(src: string)
    ensures Basename(CleanSource(src)) == Basename(src)
  {
    if |src| > 1 && src[|src| - 1] == PathSep {
      assert StripSeps(src) == StripSeps(src[..|src| - 1]);
    }
  }

  /** The destination main passes to the walk. For copy and move with a
      destination argument: raw_dst/basename(src) when raw_dst is an existing
      directory or ends with a separator, raw_dst itself otherwise. In the
      other modes the argument is passed as given (organize passes its own
      source). */
  function ResolveDestination(mode: Mode, src: string, rawDst: Option<string>, dstIsDir: bool): Option<string> {
    if (mode == Copy || mode == Move) && rawDst.Some? then
      var raw := rawDst.value;
      var base := Basename(CleanSource(src));
      var hasSlash := |raw| > 0 && raw[|raw| - 1] == PathSep;
      if dstIsDir || hasSlash then Some(Join(raw, base)) else Some(raw)
    else rawDst
  }

  /** Copy and move either write into raw_dst, as a new last component
      named after the source, or to raw_dst itself; that is so exactly when
      raw_dst is neither an existing directory nor ends with a separator.
      The other modes pass the argument through. */
  lemma ResolveDestinationSpec(mode: Mode, src: string, rawDst: Option<string>, dstIsDir: bool)
    ensures var d := ResolveDestination(mode, src, rawDst, dstIsDir);
      && (d.Some? <==> rawDst.Some?)
      && ((mode == Copy || mode == Move) && rawDst.Some? ==>
            var raw := rawDst.value;
            var inside := dstIsDir || (|raw| > 0 && raw[|raw| - 1] == PathSep);
            && (inside ==> d.value == raw + "/" + Basename(src) && |d.value| > |raw| + 1)
            && (!inside ==> d.value == raw))
      && (!(mode == Copy || mode == Move) ==> d == rawDst)
  {
    CleanSourceKeepsBasename(src);
  }

  /** The basename of a single component is itself. */
  lemma BasenameOfName(s: string)
    requires |s| > 0 && PathSep !in s
    ensures Basename(s) == s
  {
    assert s[|s| - 1] in s;
  }

  /** The basename of a path not ending in a separator is what follows its
      last separator. */
  lemma BasenameAfter(s: string, i: nat)
    requires i + 1 < |s| && s[i] == PathSep && PathSep !in s[i + 1..]
    ensures Basename(s) == s[i + 1..]
  {
    assert s[i + 1..][|s| - i - 2] == s[|s| - 1];
    var r := LastSep(s);
    assert s[i] in s;
  }

  lemma ResolveIntoDirectory()
    ensures ResolveDestination(Copy, "photos", Some("backup"), true) == Some("backup/photos")
    ensures ResolveDestination(Move, "photos/", Some("backup/"), false) == Some("backup//photos")
  {
    BasenameOfName("photos");
    assert CleanSource("photos/") == "photos";
    assert "backup" + [PathSep] + "photos" == "backup/photos";
    assert "backup/" + [PathSep] + "photos" == "backup//photos";
  }

  lemma ResolveOtherwise()
    ensures ResolveDestination(Copy, "photos", Some("newname"), false) == Some("newname")
    ensures ResolveDestination(Delete, "photos", Some("x"), true) == Some("x")
    ensures ResolveDestination(Copy, "photos", None, true) == None
  {
  }

  // ---------------------------------------------------------------- admission

  /** A copy or move whose destination is_subdirectory places inside its
      source is refused before anything is scanned. */
  predicate Admitted(mode: Mode, src: string, dst: Option<string>, realpath: map<string, string>) {
    !((mode == Copy || mode == Move) && IsSubdirectory(src, dst, realpath))
  }

  /** When realpath resolves both paths, an admitted copy or move never
      writes into its own tree nor onto its source; the other modes are
      always admitted. */
  lemma AdmittedNeverInside(mode: Mode, src: string, dst: string, realpath: map<string, string>)
    requires Canonical(realpath) && src in realpath && dst in realpath
    ensures (mode == Copy || mode == Move) && Admitted(mode, src, Some(dst), realpath) ==>
      !Inside(realpath[dst], realpath[src]) && realpath[dst] != realpath[src]
    ensures !(mode == Copy || mode == Move) ==> Admitted(mode, src, Some(dst), realpath)
  {
    if Inside(realpath[dst], realpath[src]) {
      InsideIsRefused(src, dst, realpath);
    }
  }

  /** The guard as written admits copying /a/b into the existing directory
      /a/b/c: the resolved destination /a/b/c/b does not exist yet, so
      realpath fails on it and is_subdirectory answers no. */
  lemma AdmitsCopyIntoOwnTree()
    ensures ResolveDestination(Copy, "/a/b", Some("/a/b/c"), true) == Some("/a/b/c/b")
    ensures var rp := map["/a/b" := "/a/b", "/a/b/c" := "/a/b/c"];
      Admitted(Copy, "/a/b", Some("/a/b/c/b"), rp) && Inside("/a/b/c/b", "/a/b")
  {
    BasenameAfter("/a/b", 2);
    assert "/a/b"[3..] == "b";
    assert "/a/b/c" + [PathSep] + "b" == "/a/b/c/b";
    assert "/a/b" + [PathSep] <= "/a/b/c/b";
  }

  /** `q` followed by `rest`, which starts with a separator, without
      doubling the separator when `q` already ends in one (as "/" does). */
  function Attach(q: string, rest: string): (r: string)
    requires |rest| > 0 && rest[0] == PathSep
    ensures Inside(r, q)
    ensures NulFree(q) && NulFree(rest) ==> NulFree(r)
  {
    if |q| > 0 && q[|q| - 1] == PathSep then q + rest[1..] else q + rest
  }

  /** Where a path would lie once canonical: realpath of the path itself,
      or else realpath of its nearest resolvable ancestor followed by the
      remaining components; a top-level path falls back on "/". None when
      no ancestor resolves. */
  function Locate(p: string, realpath: map<string, string>): (r: Option<string>)
    ensures Canonical(realpath) && NulFree(p) && r.Some? ==> NulFree(r.value)
    ensures p in realpath ==> r == Some(realpath[p])
    decreases |p|
  {
    if p in realpath then Some(realpath[p])
    else match LastSep(p)
      case None => None
      case Some(i) =>
        if i == 0 && |p| == 1 then None
        else match Locate(Parent(p, i), realpath)
          case None => None
          case Some(q) => Some(Attach(q, p[i..]))
  }

  /** The directory holding `p`, whose last separator is at `i`: the text
      before it, or "/" for a top-level path. */
  function Parent(p: string, i: nat): (r: string)
    requires i < |p| && p[i] == PathSep && !(i == 0 && |p| == 1)
    ensures |r| < |p| && Inside(p, r)
    ensures NulFree(p) ==> NulFree(r)
  {
    if i == 0 then p[..1] else assert p[..i] + [PathSep] == p[..i + 1]; p[..i]
  }

  /** A located path lies inside the canonical path of one of its
      resolvable ancestors (or of itself). */
  lemma {:induction false} LocateUnderAncestor(p: string, realpath: map<string, string>)
    requires Locate(p, realpath).Some?
    ensures exists a :: a in realpath && Inside(p, a) && Inside(Locate(p, realpath).value, realpath[a])
    decreases |p|
  {
    if p in realpath {
      assert Inside(p, p) && Inside(realpath[p], realpath[p]);
    } else {
      var i := LastSep(p).value;
      var parent := Parent(p, i);
      LocateUnderAncestor(parent, realpath);
      var q := Locate(parent, realpath).value;
      var a :| a in realpath && Inside(parent, a) && Inside(q, realpath[a]);
      InsideTransitive(p, parent, a);
      InsideTransitive(Attach(q, p[i..]), q, realpath[a]);
    }
  }

  /** The corrected guard: the prefix test of is_subdirectory applied to
      where the destination would lie, not to the destination itself. */
  predicate AdmittedFixed(mode: Mode, src: string, dst: Option<string>, realpath: map<string, string>) {
    !((mode == Copy || mode == Move) && dst.Some? && src in realpath &&
      match Locate(dst.value, realpath)
      case None => false
      case Some(d) => StrncmpEq(d, realpath[src], |realpath[src]|))
  }

  /** The corrected guard refuses every copy or move whose destination
      would lie inside its source or on it, whether or not the destination
      exists yet; it refuses all that the guard as written refuses; the
      other modes stay admitted. */
  lemma AdmittedFixedNeverInside(mode: Mode, src: string, dst: string, realpath: map<string, string>)
    requires Canonical(realpath) && src in realpath && NulFree(dst)
    ensures (mode == Copy || mode == Move) && AdmittedFixed(mode, src, Some(dst), realpath) ==>
      match Locate(dst, realpath)
      case None => true
      case Some(d) => !Inside(d, realpath[src])
    ensures !Admitted(mode, src, Some(dst), realpath) ==> !AdmittedFixed(mode, src, Some(dst), realpath)
    ensures !(mode == Copy || mode == Move) ==> AdmittedFixed(mode, src, Some(dst), realpath)
  {
    var s := realpath[src];
    match Locate(dst, realpath)
    case None =>
    case Some(d) =>
      StrncmpPrefix(d, s);
      if d != s && s + [PathSep] <= d {
        assert (s + [PathSep])[..|s|] == s;
      }
  }

  /** The corrected guard refuses the copy of /a/b into /a/b/c. */
  lemma FixedRefusesCopyIntoOwnTree()
    ensures !AdmittedFixed(Copy, "/a/b", Some("/a/b/c/b"), map["/a/b" := "/a/b", "/a/b/c" := "/a/b/c"])
  {
    var rp := map["/a/b" := "/a/b", "/a/b/c" := "/a/b/c"];
    var p := "/a/b/c/b";
    assert p[6] == PathSep && PathSep !in p[7..];
    assert LastSep(p) == Some(6);
    assert p[..6] == "/a/b/c" && p[6..] == "/b";
    assert p !in rp && Parent(p, 6) == "/a/b/c" && Locate(p[..6], rp) == Some("/a/b/c");
    assert Attach("/a/b/c", "/b") == p;
    assert Locate(p, rp) == Some(p);
    assert Canonical(rp);
    AdmittedFixedNeverInside(Copy, "/a/b", p, rp);
    assert "/a/b" + [PathSep] <= p;
  }

  /** The corrected guard refuses copying the root into a new /backup,
      which the guard as written admits since /backup does not exist yet. */
  lemma FixedRefusesCopyOfRoot()
    ensures Admitted(Copy, "/", Some("/backup"), map["/" := "/"])
    ensures !AdmittedFixed(Copy, "/", Some("/backup"), map["/" := "/"])
  {
    var rp := map["/" := "/"];
    var p := "/backup";
    assert p[0] == PathSep && PathSep !in p[1..];
    assert LastSep(p) == Some(0);
    assert p !in rp && Parent(p, 0) == "/" && Locate("/", rp) == Some("/");
    assert Attach("/", p) == p;
    assert Locate(p, rp) == Some(p);
    assert Canonical(rp);
    AdmittedFixedNeverInside(Copy, "/", p, rp);
    assert Inside(p, "/");
  }

  // ---------------------------------------------------------------- phases

  /** The admission test main applies: the one it has (AsWritten, the
      is_subdirectory call), or the corrected one. */
  datatype Guard = AsWritten | Corrected

  predicate Admits(guard: Guard, mode: Mode, src: string, dst: Option<string>, realpath: map<string, string>) {
    match guard
    case AsWritten => Admitted(mode, src, dst, realpath)
    case Corrected => AdmittedFixed(mode, src, dst, realpath)
  }

  /** What main does after parsing, up to starting the workers: refuse a
      copy or move into its own tree under `guard` (AsWritten is main as
      it stands); otherwise scan, and unless counting, run the producer.
      Returns the producer's calls, None when refused. */
  method Prepare(guard: Guard, mode: Mode, src: string, dst: Option<string>, realpath: map<string, string>,
                 tree: Node, c: Counters, stats: Stats) returns (events: Option<seq<Event>>)
    modifies c, stats
    ensures events.None? <==> !Admits(guard, mode, src, dst, realpath)
    ensures events.None? ==> c.totalFiles == old(c.totalFiles) && c.totalBytes == old(c.totalBytes)
                             && stats.count == old(stats.count) && stats.size == old(stats.size)
    ensures events.Some? ==>
      && c.totalFiles == old(c.totalFiles) + |Leaves(tree)|
      && c.totalBytes == old(c.totalBytes) + SumSizes(Leaves(tree))
      && Tasks(events.value) == (if mode == Count then [] else LeafTasks(mode, src, dst, Leaves(tree)))
      && (mode == Organize ==> stats.count == CountLeaves(old(stats.count), Leaves(tree)) &&
                               stats.size == SizeLeaves(old(stats.size), Leaves(tree)))
    ensures c.processedFiles == old(c.processedFiles) && c.processedBytes == old(c.processedBytes)
    ensures mode != Organize ==> stats.count == old(stats.count) && stats.size == old(stats.size)
  {
    if !Admits(guard, mode, src, dst, realpath) {
      return None;
    }
    ScanRecursive(src, tree, mode, c, stats);
    if mode == Count {
      return Some([]);
    }
    var evs := ProcessDir(src, tree, mode, dst);
    return Some(evs);
  }

  /** The workers' processed_files reaches the total_files the scan
      counted: running the producer's tasks in order adds exactly the
      number of files in the tree (what Prepare adds to total_files) when no
      task fails, and in organize mode whatever happens. */
  lemma RunReachesScanTotal(mode: Mode, src: string, dst: Option<string>, tree: Node,
                            envOf: Task -> Worker.TaskEnv, start: Worker.Run)
    requires mode != Count
    requires forall k :: 0 <= k < |Leaves(tree)| ==> Worker.WellFormed(mode, LeafTasks(mode, src, dst, Leaves(tree))[k])
    requires mode == Organize || Worker.NoFailures(mode, LeafTasks(mode, src, dst, Leaves(tree)), envOf, start)
    ensures Worker.RunTasks(mode, LeafTasks(mode, src, dst, Leaves(tree)), envOf, start).processed
            == start.processed + |Leaves(tree)|
  {
    var ts := LeafTasks(mode, src, dst, Leaves(tree));
    if mode == Organize {
      Worker.OrganizeRunCountsAll(ts, envOf, start);
    } else {
      Worker.RunCountsAll(mode, ts, envOf, start);
    }
  }

  /** Every run that is not a count enqueues one task per file the scan
      counted, in the scan's order: the i-th task works on the i-th file
      the scan added to total_files. A copy or move writes it to the same
      relative path below dst; organize names it for its category. */
  lemma TasksMatchScan(mode: Mode, src: string, dst: Option<string>, tree: Node)
    ensures var ls, ts := Leaves(tree), LeafTasks(mode, src, dst, Leaves(tree));
      mode != Count ==>
      && |ts| == |ls|
      && forall i :: 0 <= i < |ls| ==>
        && ts[i].src == Join(JoinAll(src, ls[i].dirs), ls[i].name)
        && ((mode == Copy || mode == Move) && dst.Some? ==>
              ts[i].dst == Some(Join(JoinAll(dst.value, ls[i].dirs), ls[i].name)))
        && (mode == Organize ==> ts[i].dst == dst && ts[i].filename == Some(ls[i].name))
  {
  }

  /** After the workers, delete and move remove the emptied directories
      below the source and then the source itself; the others remove none. */
  method Finish(mode: Mode, src: string, tree: Node) returns (rmdirs: seq<string>)
    ensures rmdirs == if mode == Delete || mode == Move then Paths(src, Removals(tree)) + [src] else []
  {
    if mode == Delete || mode == Move {
      var below := CleanupDirs(src, tree);
      rmdirs := below + [src];
    } else {
      rmdirs := [];
    }
  }

  /** The source is removed last, after every directory below it, each
      of which lies inside it; the order is bottom-up throughout. */
  lemma FinishOrder(mode: Mode, src: string, tree: Node)
    requires mode == Delete || mode == Move
    requires UniqueNames(tree)
    ensures var r := Paths(src, Removals(tree)) + [src];
      && r[|r| - 1] == src
      && (forall i :: 0 <= i < |r| - 1 ==> src + [PathSep] <= r[i])
      && BottomUp(Removals(tree))
  {
    RemovalsBelowRoot(src, tree);
    RemovalsBottomUp(tree);
  }
}
