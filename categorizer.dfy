/** The extension categorizer: maps a file name to one of seven categories
    and, when asked, records per-category counts and byte totals. */
module Categorizer {
  import opened Common

  datatype Category = Images | Videos | Audio | Documents | APKs | Archives | Others

  /** The directory name organize mode uses for a category. */
  function Name(c: Category): string {
    match c
    case Images => "Images"
    case Videos => "Videos"
    case Audio => "Audio"
    case Documents => "Documents"
    case APKs => "APKs"
    case Archives => "Archives"
    case Others => "Others"
  }

  lemma NameInjective(c: Category, d: Category)
    ensures Name(c) == Name(d) <==> c == d
  {
    if c != d {
      // The names differ in length or in their first letter.
      assert |Name(c)| != |Name(d)| || Name(c)[0] != Name(d)[0];
    }
  }

  const ImageExts: seq<string> := ["jpg", "jpeg", "png", "gif", "webp", "bmp", "heic"]
  const VideoExts: seq<string> := ["mp4", "mkv", "avi", "mov", "flv", "wmv", "3gp"]
  const AudioExts: seq<string> := ["mp3", "wav", "flac", "aac", "m4a", "ogg"]
  const DocExts: seq<string> := ["pdf", "doc", "docx", "txt", "xlsx", "pptx", "csv"]
  const ApkExts: seq<string> := ["apk", "xapk", "apkm"]
  const ArchiveExts: seq<string> := ["zip", "rar", "7z", "tar", "gz"]

  /** The table get_category scans for a category; Others has none. */
  function Table(c: Category): seq<string> {
    match c
    case Images => ImageExts
    case Videos => VideoExts
    case Audio => AudioExts
    case Documents => DocExts
    case APKs => ApkExts
    case Archives => ArchiveExts
    case Others => []
  }

  /** The extension buffer holds 31 characters and a terminator. */
  const ExtLimit: nat := 31

  /** The category of the first table, in get_category's order, that lists
      `ext`, or Others when none does. */
  function Lookup(ext: string): Category {
    if ext in ImageExts then Images
    else if ext in VideoExts then Videos
    else if ext in AudioExts then Audio
    else if ext in DocExts then Documents
    else if ext in ApkExts then APKs
    else if ext in ArchiveExts then Archives
    else Others
  }

  /** Lookup answers a category exactly when that category's table lists the
      extension, and Others exactly when no table does: no extension is in
      two tables, so the order of the scans never decides. */
  lemma LookupListed(ext: string, c: Category)
    ensures c != Others ==> (Lookup(ext) == c <==> ext in Table(c))
    ensures Lookup(ext) == Others <==> forall d :: ext !in Table(d)
  {
    TablesApart(ext);
    if Lookup(ext) != Others {
      assert ext in Table(Lookup(ext));
    }
  }

  /** An extension of a later table is in none of the earlier ones. */
  lemma TablesApart(ext: string)
    ensures ext in VideoExts ==> ext !in ImageExts
    ensures ext in AudioExts ==> ext !in ImageExts && ext !in VideoExts
    ensures ext in DocExts ==> ext !in ImageExts && ext !in VideoExts && ext !in AudioExts
    ensures ext in ApkExts ==> ext !in ImageExts && ext !in VideoExts && ext !in AudioExts && ext !in DocExts
    ensures ext in ArchiveExts ==>
      ext !in ImageExts && ext !in VideoExts && ext !in AudioExts && ext !in DocExts && ext !in ApkExts
  {
  }

  /** No extension is listed in two tables. */
  lemma TablesDisjoint(c: Category, d: Category, ext: string)
    requires c != d && ext in Table(c)
    ensures ext !in Table(d)
  {
    LookupListed(ext, c);
    LookupListed(ext, d);
  }

  /** Every listed extension has at most four characters. */
  lemma TableEntriesShort(ext: string)
    requires Lookup(ext) != Others
    ensures |ext| <= 4
  {
  }

  /** The position of the last occurrence of `ch` (strrchr). */
  function LastIndexOf(s: string, ch: char): (r: Option<nat>)
    ensures r.Some? ==> r.value < |s| && s[r.value] == ch &&
                        forall j :: r.value < j < |s| ==> s[j] != ch
    ensures r.None? ==> forall j :: 0 <= j < |s| ==> s[j] != ch
  {
    if s == [] then None
    else if s[|s| - 1] == ch then Some(|s| - 1)
    else LastIndexOf(s[..|s| - 1], ch)
  }

  /** tolower in the C locale: only A-Z change. */
  function LowerChar(c: char): char {
    if 'A' <= c <= 'Z' then (c as int + 32) as char else c
  }

  function ToLower(s: string): string {
    seq(|s|, i requires 0 <= i < |s| => LowerChar(s[i]))
  }

  /** strncpy into the 32-byte buffer keeps at most 31 characters. */
  function Truncate(s: string, n: nat): string {
    if |s| <= n then s else s[..n]
  }

  /** The text get_category compares against the tables, or None when the
      name has no dot or only a leading one. */
  function Extension(filename: string): Option<string> {
    match LastIndexOf(filename, '.')
    case None => None
    case Some(d) =>
      if d == 0 then None else Some(ToLower(Truncate(filename[d + 1..], ExtLimit)))
  }

  /** The category get_category returns. */
  function CategoryOf(filename: string): Category {
    match Extension(filename)
    case None => Others
    case Some(ext) => Lookup(ext)
  }

  /** `d` is the index of the last dot of `f`. */
  ghost predicate LastDotAt(f: string, d: int) {
    0 <= d < |f| && f[d] == '.' && forall j :: d < j < |f| ==> f[j] != '.'
  }

  /** A name with no dot after its first character is in Others. */
  lemma NoDotIsOther(f: string)
    requires forall d :: 0 < d < |f| ==> f[d] != '.'
    ensures CategoryOf(f) == Others
  {
  }

  /** CategoryOf against a reference that reads the whole extension after
      the last dot, when that dot is not the first character: cutting it to
      31 characters never changes the answer, since every table entry is
      shorter than that. */
  lemma CategoryOfAt(f: string, d: nat)
    requires 0 < d && LastDotAt(f, d)
    ensures CategoryOf(f) == Lookup(ToLower(f[d + 1..]))
  {
    var r := LastIndexOf(f, '.');
    assert r == Some(d);
    TruncateKeepsLookup(f[d + 1..]);
  }

  /** Keeping only the first 31 characters of an extension never changes
      its category. */
  lemma TruncateKeepsLookup(tail: string)
    ensures Lookup(ToLower(Truncate(tail, ExtLimit))) == Lookup(ToLower(tail))
  {
    if |tail| > ExtLimit {
      var cut := ToLower(Truncate(tail, ExtLimit));
      assert |cut| == ExtLimit;
      if Lookup(cut) != Others { TableEntriesShort(cut); }
      if Lookup(ToLower(tail)) != Others { TableEntriesShort(ToLower(tail)); }
    }
  }

  lemma PhotoIsImage()
    ensures CategoryOf("photo.JPG") == Images
  {
    assert LastDotAt("photo.JPG", 5);
    CategoryOfAt("photo.JPG", 5);
    assert ToLower("JPG") == "jpg";
  }

  /** Only the text after the last dot counts. */
  lemma TarGzIsArchive()
    ensures CategoryOf("archive.tar.gz") == Archives
  {
    assert LastDotAt("archive.tar.gz", 11);
    CategoryOfAt("archive.tar.gz", 11);
    assert ToLower("gz") == "gz";
  }

  /** A name without a dot, or whose only dot leads, has no extension. */
  lemma NoExtensionIsOther()
    ensures CategoryOf(".hidden") == Others
    ensures CategoryOf("noext") == Others
  {
    NoDotIsOther(".hidden");
    NoDotIsOther("noext");
  }

  /** Only a dot that is the last one and leads the name hides the
      extension: a dot file with an extension is categorised by it. */
  lemma DotFileWithExtension()
    ensures CategoryOf(".x.png") == Images
  {
    assert LastDotAt(".x.png", 2);
    CategoryOfAt(".x.png", 2);
    assert ToLower("png") == "png";
  }

  /** A trailing dot leaves an empty extension, which no table lists. */
  lemma TrailingDotIsOther()
    ensures CategoryOf("file.") == Others
  {
    assert LastDotAt("file.", 4);
    CategoryOfAt("file.", 4);
    assert ToLower("") == "";
  }

  lemma JpgIsImage()
    ensures CategoryOf("a.jpg") == Images
  {
    assert LastDotAt("a.jpg", 1);
    CategoryOfAt("a.jpg", 1);
    assert ToLower("jpg") == "jpg";
  }

  lemma Mp4IsVideo()
    ensures CategoryOf("b.mp4") == Videos
  {
    assert LastDotAt("b.mp4", 1);
    CategoryOfAt("b.mp4", 1);
    assert ToLower("mp4") == "mp4";
  }

  /** An extension no table lists. */
  lemma XyzIsOther()
    ensures CategoryOf("c.xyz") == Others
  {
    assert LastDotAt("c.xyz", 1);
    CategoryOfAt("c.xyz", 1);
    assert ToLower("xyz") == "xyz";
  }

  /** One of the table scans of get_category (a strcmp per entry). */
  method InTable(ext: string, table: seq<string>) returns (found: bool)
    ensures found <==> ext in table
  {
    var i := 0;
    while i < |table|
      invariant 0 <= i <= |table|
      invariant ext !in table[..i]
    {
      if ext == table[i] {
        return true;
      }
      i := i + 1;
    }
    return false;
  }

  /** The in-place lowercasing loop over the extension buffer. */
  method Lowercase(buf: array<char>)
    modifies buf
    ensures buf[..] == ToLower(old(buf[..]))
  {
    var i := 0;
    while i < buf.Length
      invariant 0 <= i <= buf.Length
      invariant forall k :: 0 <= k < i ==> buf[k] == LowerChar(old(buf[k]))
      invariant forall k :: i <= k < buf.Length ==> buf[k] == old(buf[k])
    {
      buf[i] := LowerChar(buf[i]);
      i := i + 1;
    }
  }

  /** Seven per-category accumulators (the count_* or the size_* globals). */
  datatype Tally = Tally(img: nat, vid: nat, aud: nat, doc: nat, apk: nat, arc: nat, oth: nat)

  const NoTally: Tally := Tally(0, 0, 0, 0, 0, 0, 0)

  function Get(t: Tally, c: Category): nat {
    match c
    case Images => t.img
    case Videos => t.vid
    case Audio => t.aud
    case Documents => t.doc
    case APKs => t.apk
    case Archives => t.arc
    case Others => t.oth
  }

  /** The tally with `k` added to category `c` alone. */
  function Add(t: Tally, c: Category, k: nat): (r: Tally)
    ensures forall d :: Get(r, d) == Get(t, d) + (if d == c then k else 0)
  {
    match c
    case Images => t.(img := t.img + k)
    case Videos => t.(vid := t.vid + k)
    case Audio => t.(aud := t.aud + k)
    case Documents => t.(doc := t.doc + k)
    case APKs => t.(apk := t.apk + k)
    case Archives => t.(arc := t.arc + k)
    case Others => t.(oth := t.oth + k)
  }

  function Total(t: Tally): nat {
    t.img + t.vid + t.aud + t.doc + t.apk + t.arc + t.oth
  }

  /** Raising one category raises the total by the same amount. */
  lemma TotalAdd(t: Tally, c: Category, k: nat)
    ensures Total(Add(t, c, k)) == Total(t) + k
  {
  }

  /** The organizer statistics: count_* and size_* of the source. */
  class Stats {
    var count: Tally
    var size: Tally

    constructor ()
      ensures count == NoTally && size == NoTally
    {
      count, size := NoTally, NoTally;
    }

    method Record(countStats: bool, c: Category, filesize: nat)
      modifies this
      ensures count == if countStats then Add(old(count), c, 1) else old(count)
      ensures size == if countStats then Add(old(size), c, filesize) else old(size)
    {
      if countStats {
        count := Add(count, c, 1);
        size := Add(size, c, filesize);
      }
    }

    /** get_category: returns the category of `filename`; when `countStats`
        is set it adds one to that category's count and `filesize` to its
        byte total, and touches no other accumulator. */
    method GetCategory(filename: string, countStats: bool, filesize: nat) returns (cat: Category)
      modifies this
      ensures cat == CategoryOf(filename)
      ensures count == if countStats then Add(old(count), cat, 1) else old(count)
      ensures size == if countStats then Add(old(size), cat, filesize) else old(size)
    {
      var dot := LastIndexOf(filename, '.');
      if dot.None? || dot.value == 0 {
        Record(countStats, Others, filesize);
        return Others;
      }
      var cut := Truncate(filename[dot.value + 1..], ExtLimit);
      var buf := new char[|cut|](k requires 0 <= k < |cut| => cut[k]);
      Lowercase(buf);
      var ext := buf[..];
      assert ext == ToLower(cut);
      var found := InTable(ext, ImageExts);
      if found { Record(countStats, Images, filesize); return Images; }
      found := InTable(ext, VideoExts);
      if found { Record(countStats, Videos, filesize); return Videos; }
      found := InTable(ext, AudioExts);
      if found { Record(countStats, Audio, filesize); return Audio; }
      found := InTable(ext, DocExts);
      if found { Record(countStats, Documents, filesize); return Documents; }
      found := InTable(ext, ApkExts);
      if found { Record(countStats, APKs, filesize); return APKs; }
      found := InTable(ext, ArchiveExts);
      if found { Record(countStats, Archives, filesize); return Archives; }
      Record(countStats, Others, filesize);
      return Others;
    }
  }
}
