/** mkdirs, the tool's `mkdir -p`: the sequence of directory paths it hands
    to mkdir, in order. */
module MakeDirs {
  import opened Common

  /** The path with at most one trailing separator removed. */
  function Trimmed(path: string): (t: string)
    requires |path| > 0
    ensures t == path || (path[|path| - 1] == PathSep && t == path[..|path| - 1])
  {
    if path[|path| - 1] == PathSep then path[..|path| - 1] else path
  }

  /** The prefixes t[..j], for 1 <= j < n and t[j] a separator, by increasing j. */
  function SepPrefixes(t: string, n: nat): seq<string>
    requires n <= |t|
  {
    if n <= 1 then []
    else SepPrefixes(t, n - 1) + (if t[n - 1] == PathSep then [t[..n - 1]] else [])
  }

  /** Every path mkdirs passes to mkdir, in the order it does so. */
  function MkdirTargets(path: string): seq<string>
    requires |path| > 0
  {
    var t := Trimmed(path);
    SepPrefixes(t, |t|) + [t]
  }

  /** Exactly the separator-terminated prefixes, each once, shortest first. */
  lemma {:induction false} SepPrefixesSpec(t: string, n: nat)
    requires n <= |t|
    ensures forall i :: 0 <= i < |SepPrefixes(t, n)| ==>
      var x := SepPrefixes(t, n)[i];
      1 <= |x| < n && x == t[..|x|] && t[|x|] == PathSep
    ensures forall i, k :: 0 <= i < k < |SepPrefixes(t, n)| ==>
      |SepPrefixes(t, n)[i]| < |SepPrefixes(t, n)[k]|
    ensures forall j :: 1 <= j < n && t[j] == PathSep ==> t[..j] in SepPrefixes(t, n)
  {
    if n > 1 {
      SepPrefixesSpec(t, n - 1);
    }
  }

  /** The targets of mkdirs: every one a prefix of the path (so each is an
      ancestor of the last), strictly longer than the one before, ending just
      before a separator, and every such prefix is there; the last target is
      the path with one trailing separator removed. */
  lemma MkdirTargetsSpec(path: string)
    requires |path| > 0
    ensures var m := MkdirTargets(path);
      && m[|m| - 1] == Trimmed(path)
      && (forall i :: 0 <= i < |m| ==> m[i] <= path)
      && (forall i, k :: 0 <= i < k < |m| ==> |m[i]| < |m[k]|)
      && (forall i :: 0 <= i < |m| - 1 ==> |m[i]| >= 1 && path[|m[i]|] == PathSep)
      && (forall j :: 1 <= j < |Trimmed(path)| && path[j] == PathSep ==> path[..j] in m)
  {
    var t := Trimmed(path);
    SepPrefixesSpec(t, |t|);
    var m := MkdirTargets(path);
    assert m[..|m| - 1] == SepPrefixes(t, |t|);
    forall i | 0 <= i < |m| ensures m[i] <= path {
      if i < |m| - 1 {
        assert m[i] == SepPrefixes(t, |t|)[i];
      }
    }
    forall j | 1 <= j < |t| && path[j] == PathSep ensures path[..j] in m {
      assert t[..j] == path[..j];
    }
  }

  lemma MkdirsExample()
    ensures MkdirTargets("/a/b/") == ["/a", "/a/b"]
    ensures MkdirTargets("a/b") == ["a", "a/b"]
    ensures MkdirTargets("/") == [""]
  {
    assert Trimmed("/a/b/") == "/a/b";
    assert SepPrefixes("/a/b", 4) == SepPrefixes("/a/b", 3);
    assert "/a/b"[..2] == "/a";
    assert SepPrefixes("/a/b", 3) == SepPrefixes("/a/b", 2) + ["/a"];
    assert SepPrefixes("/a/b", 2) == SepPrefixes("/a/b", 1);
    assert SepPrefixes("a/b", 3) == SepPrefixes("a/b", 2) + [];
    assert "a/b"[..1] == "a";
    assert SepPrefixes("a/b", 2) == SepPrefixes("a/b", 1) + ["a"];
  }

  /** The C string a buffer holds: everything before its first terminator. */
  function UpToNul(s: seq<char>): seq<char> {
    if s == [] || s[0] == Nul then [] else [s[0]] + UpToNul(s[1..])
  }

  lemma {:induction false} UpToNulAt(s: seq<char>, k: nat)
    requires k < |s| && s[k] == Nul && NulFree(s[..k])
    ensures UpToNul(s) == s[..k]
  {
    if k > 0 {
      assert s[1..][..k - 1] == s[1..k];
      UpToNulAt(s[1..], k - 1);
    }
  }

  /** One step of mkdirs' loop: with a terminator written at `n`, the buffer
      holds the C string of its first n characters, which goes to mkdir;
      then the separator is put back and the buffer is as before. */
  method MkdirAt(tmp: array<char>, n: nat) returns (dir: string)
    requires n < tmp.Length && tmp[n] == PathSep && NulFree(tmp[..n])
    modifies tmp
    ensures tmp[..] == old(tmp[..]) && dir == old(tmp[..n])
  {
    tmp[n] := Nul;
    assert tmp[..][..n] == old(tmp[..n]);
    UpToNulAt(tmp[..], n);
    dir := UpToNul(tmp[..]);
    tmp[n] := PathSep;
    assert tmp[..] == old(tmp[..]);
  }

  /** mkdirs: copies the path into a buffer, clears one trailing separator,
      then walks the buffer (MkdirsScan) and finally calls mkdir on the whole
      buffer. Returns the paths given to mkdir. */
  method Mkdirs(path: string) returns (made: seq<string>)
    requires |path| > 0 && NulFree(path)
    ensures made == MkdirTargets(path)
  {
    var tmp := new char[|path| + 1](i requires 0 <= i <= |path| => if i < |path| then path[i] else Nul);
    var len := |path|;
    if tmp[len - 1] == PathSep {
      tmp[len - 1] := Nul;
    }
    ghost var t := Trimmed(path);
    assert tmp[..|t|] == t && tmp[|t|] == Nul;
    assert |t| == 0 ==> tmp[1] == Nul;
    assert NulFree(t);
    made := MkdirsScan(tmp, t);
  }

  /** The loop of mkdirs and its last call, on a buffer holding the C string
      t: for each separator after the first character, mkdir on the prefix
      before it, then mkdir on t itself. The buffer ends as it began. */
  method MkdirsScan(tmp: array<char>, ghost t: string) returns (made: seq<string>)
    requires 1 < tmp.Length && |t| < tmp.Length && NulFree(t)
    requires tmp[..|t|] == t && tmp[|t|] == Nul && (|t| == 0 ==> tmp[1] == Nul)
    modifies tmp
    ensures tmp[..] == old(tmp[..])
    ensures made == SepPrefixes(t, |t|) + [t]
  {
    ghost var init := tmp[..];
    assert init[..|t|] == t;
    made := [];
    var p := 1;
    while tmp[p] != Nul
      invariant 1 <= p <= if |t| == 0 then 1 else |t|
      invariant tmp[..] == init
      invariant made == SepPrefixes(t, if |t| == 0 then 0 else p)
      decreases |t| - p
    {
      if tmp[p] == PathSep {
        assert tmp[..p] == t[..p];
        var dir := MkdirAt(tmp, p);
        made := made + [dir];
      }
      p := p + 1;
    }
    assert p == |t| || |t| == 0;
    UpToNulAt(tmp[..], |t|);
    made := made + [UpToNul(tmp[..])];
  }
}
