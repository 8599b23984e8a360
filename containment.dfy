/** is_subdirectory: the guard that refuses to copy or move a tree into
    itself. It compares canonical paths textually. */
module Containment {
  import opened Common

  /** The character a C string shows at position i; its terminator past the end. */
  function CharAt(s: string, i: nat): char {
    if i < |s| then s[i] else Nul
  }

  /** strncmp(a, b, n) == 0, with the comparison already past position i. */
  function StrncmpEqFrom(a: string, b: string, n: nat, i: nat): bool
    decreases n - i
  {
    if i >= n then true
    else if CharAt(a, i) != CharAt(b, i) then false
    else if CharAt(a, i) == Nul then true
    else StrncmpEqFrom(a, b, n, i + 1)
  }

  function StrncmpEq(a: string, b: string, n: nat): bool {
    StrncmpEqFrom(a, b, n, 0)
  }

  /** Comparing the first strlen(b) characters of a with b asks whether b is
      a prefix of a. */
  lemma {:induction false} StrncmpPrefixFrom(a: string, b: string, i: nat)
    requires NulFree(a) && NulFree(b)
    requires i <= |a| && i <= |b|
    ensures StrncmpEqFrom(a, b, |b|, i) <==> |b| <= |a| && a[i..|b|] == b[i..]
    decreases |b| - i
  {
    if i < |b| && i < |a| && a[i] == b[i] {
      StrncmpPrefixFrom(a, b, i + 1);
      assert a[i..|b|] == [a[i]] + a[i + 1..|b|] <== |b| <= |a|;
      assert b[i..] == [b[i]] + b[i + 1..];
    } else if i < |b| && i < |a| {
      assert |b| <= |a| ==> a[i..|b|][0] != b[i..][0];
    }
  }

  lemma StrncmpPrefix(a: string, b: string)
    requires NulFree(a) && NulFree(b)
    ensures StrncmpEq(a, b, |b|) <==> b <= a
  {
    StrncmpPrefixFrom(a, b, 0);
  }

  /** is_subdirectory(src, dst): false when there is no destination or a
      path does not resolve; otherwise whether the canonical source is a
      textual prefix of the canonical destination. `realpath` is the partial
      function realpath(3) computes, given as a map. */
  function IsSubdirectory(src: string, dst: Option<string>, realpath: map<string, string>): bool {
    if dst.None? then false
    else if src !in realpath || dst.value !in realpath then false
    else StrncmpEq(realpath[dst.value], realpath[src], |realpath[src]|)
  }

  ghost predicate Canonical(realpath: map<string, string>) {
    forall p :: p in realpath ==> NulFree(realpath[p])
  }

  lemma IsSubdirectorySpec(src: string, dst: Option<string>, realpath: map<string, string>)
    requires Canonical(realpath)
    ensures IsSubdirectory(src, dst, realpath) <==>
      dst.Some? && src in realpath && dst.value in realpath && realpath[src] <= realpath[dst.value]
  {
    if dst.Some? && src in realpath && dst.value in realpath {
      StrncmpPrefix(realpath[dst.value], realpath[src]);
    }
  }

  /** `d` is `s` itself or lies below it, component-wise. A directory
      whose path ends in a separator, such as the root "/", has every
      path that extends it below it. */
  ghost predicate Inside(d: string, s: string) {
    d == s || s + [PathSep] <= d || (|s| > 0 && s[|s| - 1] == PathSep && s <= d)
  }

  /** Lying inside is transitive. */
  lemma InsideTransitive(a: string, b: string, c: string)
    requires Inside(a, b) && Inside(b, c)
    ensures Inside(a, c)
  {
    if a != b && b != c && c + [PathSep] <= b {
      assert b <= a;
      assert (c + [PathSep]) == b[..|c| + 1] == a[..|c| + 1];
    }
  }

  /** When realpath resolves both paths, the guard has no false negatives:
      every destination genuinely inside the source is refused. A
      destination realpath cannot resolve, such as one that does not exist
      yet, is not covered (see Setup.AdmitsCopyIntoOwnTree). */
  lemma InsideIsRefused(src: string, dst: string, realpath: map<string, string>)
    requires Canonical(realpath)
    requires src in realpath && dst in realpath && Inside(realpath[dst], realpath[src])
    ensures IsSubdirectory(src, Some(dst), realpath)
  {
    IsSubdirectorySpec(src, Some(dst), realpath);
    var s, d := realpath[src], realpath[dst];
    if d != s && s + [PathSep] <= d {
      assert (s + [PathSep])[..|s|] == s;
    }
  }

  /** For canonical paths the identity realpath: /a/b/c is inside /a/b,
      /a/c is not, and /a/bc is refused too, because the test is textual. */
  lemma ContainmentExamples()
    ensures var rp := map["/a/b" := "/a/b", "/a/b/c" := "/a/b/c", "/a/c" := "/a/c", "/a/bc" := "/a/bc"];
      && IsSubdirectory("/a/b", Some("/a/b/c"), rp)
      && !IsSubdirectory("/a/b", Some("/a/c"), rp)
      && IsSubdirectory("/a/b", Some("/a/bc"), rp)
      && !Inside("/a/bc", "/a/b")
      && !IsSubdirectory("/a/b", None, rp)
      && !IsSubdirectory("/a/b", Some("/x"), rp)
  {
    var rp := map["/a/b" := "/a/b", "/a/b/c" := "/a/b/c", "/a/c" := "/a/c", "/a/bc" := "/a/bc"];
    assert Canonical(rp);
    IsSubdirectorySpec("/a/b", Some("/a/b/c"), rp);
    IsSubdirectorySpec("/a/b", Some("/a/c"), rp);
    IsSubdirectorySpec("/a/b", Some("/a/bc"), rp);
    assert "/a/b" <= "/a/b/c";
    assert "/a/c"[3] != "/a/b"[3];
    assert "/a/b" <= "/a/bc";
    assert |"/a/bc"| == 5 && "/a/bc"[4] != '/';
  }

  /** With the root as source, every resolvable path below it is refused:
      /backup is inside /, and strncmp over the one character "/" finds it. */
  lemma RootContainsAll()
    ensures var root := map["/" := "/", "/backup" := "/backup"];
      && IsSubdirectory("/", Some("/backup"), root) && Inside("/backup", "/")
  {
    var root := map["/" := "/", "/backup" := "/backup"];
    assert Canonical(root);
    IsSubdirectorySpec("/", Some("/backup"), root);
    assert "/" <= "/backup";
  }
}
