/**
  `resolve_path` of the static-file server (06/homework/httpd.py): from the
  request target to a file under the document root, or a 403/404 status.

  The filesystem is a map from canonical absolute paths (lists of names) to
  what is there, and `Path.resolve` is lexical `.`/`..` normalisation.
*/
module HttpPath {
  import opened Base
  import opened Seqs
  import opened Text
  import opened HttpRequest

  /** An absolute path as its list of names: `/srv/www` is `["srv", "www"]`, `/` is `[]`. */
  type Segments = seq<string>

  /** What a path names: a regular file with its bytes, a directory, or anything else (a device, a socket). */
  datatype Kind = File(content: seq<byte>) | Dir | Other

  /** The paths that exist, and what each one is. */
  type FileSystem = map<Segments, Kind>

  /** The file found (if any) and the status code. */
  datatype Resolution = Resolution(file: Option<Segments>, status: int)

  /** A name a resolved path can hold: not empty, not `.` or `..`, no `/`. */
  predicate IsName(s: string)
  {
    s != "" && s != "." && s != ".." && !Contains(s, "/")
  }

  /** A path as `Path.resolve` leaves it. */
  predicate Canonical(p: Segments)
  {
    forall i :: 0 <= i < |p| ==> IsName(p[i])
  }

  // ---- urllib.parse.unquote, for %XX escapes ----

  function HexDigit(c: char): (r: Option<nat>)
    ensures r.Some? ==> r.value < 16
  {
    if '0' <= c <= '9' then Some(c as int - '0' as int)
    else if 'a' <= c <= 'f' then Some(c as int - 'a' as int + 10)
    else if 'A' <= c <= 'F' then Some(c as int - 'A' as int + 10)
    else None
  }

  /**
    Percent-decoding: each `%` followed by two hex digits (either case) becomes
    the character with that code; any other `%` is kept as it is.
  */
  function PercentDecode(s: string): (r: string)
    ensures |r| <= |s|
    ensures (forall i :: 0 <= i < |s| ==> s[i] != '%') ==> r == s
  {
    if s == [] then []
    else if |s| >= 3 && s[0] == '%' && HexDigit(s[1]).Some? && HexDigit(s[2]).Some? then
      [(16 * HexDigit(s[1]).value + HexDigit(s[2]).value) as char] + PercentDecode(s[3..])
    else [s[0]] + PercentDecode(s[1..])
  }

  function HexChar(d: nat): (c: char)
    requires d < 16
    ensures HexDigit(c) == Some(d)
  {
    if d < 10 then ('0' as int + d) as char else ('A' as int + d - 10) as char
  }

  /** Percent-encoding of every character (the inverse direction, for characters below 256). */
  function PercentEncode(s: string): (r: string)
    requires IsLatin1(s)
    ensures |r| == 3 * |s|
  {
    if s == [] then []
    else
      var k := s[0] as int;
      ['%', HexChar(k / 16), HexChar(k % 16)] + PercentEncode(s[1..])
  }

  /** Decoding undoes encoding. */
  lemma {:induction false} PercentRoundTrip(s: string)
    requires IsLatin1(s)
    ensures PercentDecode(PercentEncode(s)) == s
  {
    if s != [] {
      var e := PercentEncode(s);
      assert e[3..] == PercentEncode(s[1..]);
      PercentRoundTrip(s[1..]);
    }
  }

  // ---- lexical Path.resolve ----

  /**
    Appending `parts` to `base` the way `Path.resolve` does: empty names and
    `.` are dropped, `..` removes the last name (the root stays the root).
  */
  function Normalize(base: Segments, parts: seq<string>): (r: Segments)
    ensures |r| <= |base| + |parts|
    ensures parts == [] ==> r == base
    decreases |parts|
  {
    if parts == [] then base
    else
      var p := parts[0];
      if p == "" || p == "." then Normalize(base, parts[1..])
      else if p == ".." then Normalize(if base == [] then [] else base[..|base| - 1], parts[1..])
      else Normalize(base + [p], parts[1..])
  }

  /** Without `..`, normalising only appends to the base. */
  lemma {:induction false} NormalizeExtends(base: Segments, parts: seq<string>)
    requires forall i :: 0 <= i < |parts| ==> parts[i] != ".."
    ensures base <= Normalize(base, parts)
    decreases |parts|
  {
    if parts != [] {
      var p := parts[0];
      if p == "" || p == "." {
        NormalizeExtends(base, parts[1..]);
      } else {
        NormalizeExtends(base + [p], parts[1..]);
      }
    }
  }

  /** Normalising names without `/` onto a canonical base gives a canonical path. */
  lemma {:induction false} NormalizeCanonical(base: Segments, parts: seq<string>)
    requires Canonical(base)
    requires forall i :: 0 <= i < |parts| ==> !Contains(parts[i], "/")
    ensures Canonical(Normalize(base, parts))
    decreases |parts|
  {
    if parts != [] {
      var p := parts[0];
      if p == "" || p == "." {
        NormalizeCanonical(base, parts[1..]);
      } else if p == ".." {
        NormalizeCanonical(if base == [] then [] else base[..|base| - 1], parts[1..]);
      } else {
        NormalizeCanonical(base + [p], parts[1..]);
      }
    }
  }

  // ---- resolve_path ----

  /** `url_path.split("?", 1)[0]`: the target without its query. */
  function RequestPath(urlPath: string): string
  {
    BeforeFirst(urlPath, "?")
  }

  /** `rel_path`: the decoded path with every leading `/` removed. */
  function RelPath(urlPath: string): string
  {
    RelOf(RequestPath(urlPath))
  }

  /** `rel_path` of a path already cut at the `?`. */
  function RelOf(path: string): string
  {
    LStripChar(PercentDecode(path), '/')
  }

  /** `(doc_root / rel_path).resolve()` */
  function Target(docRoot: Segments, urlPath: string): Segments
  {
    TargetOf(docRoot, RequestPath(urlPath))
  }

  /** The resolved target of a path already cut at the `?`. */
  function TargetOf(docRoot: Segments, path: string): Segments
  {
    Normalize(docRoot, Split(RelOf(path), "/"))
  }

  predicate IsDir(fs: FileSystem, p: Segments)
  {
    p in fs && fs[p].Dir?
  }

  predicate IsFile(fs: FileSystem, p: Segments)
  {
    p in fs && fs[p].File?
  }

  /**
    `resolve_path`: only 200, 403 and 404 come out, a path comes out exactly
    with 200, and it is then a regular file inside the document root.
  */
  function ResolvePath(fs: FileSystem, docRoot: Segments, urlPath: string): (r: Resolution)
    ensures r.status == 200 || r.status == 403 || r.status == 404
    ensures r.file.Some? <==> r.status == 200
    ensures r.file.Some? ==> docRoot <= r.file.value && IsFile(fs, r.file.value)
  {
    Resolve(fs, docRoot, RequestPath(urlPath))
  }

  /** The body of `resolve_path` from the cut path on. */
  function Resolve(fs: FileSystem, docRoot: Segments, path: string): (r: Resolution)
    ensures r.status == 200 || r.status == 403 || r.status == 404
    ensures r.file.Some? <==> r.status == 200
    ensures r.file.Some? ==> docRoot <= r.file.value && IsFile(fs, r.file.value)
  {
    var wantsDir := |path| > 0 && path[|path| - 1] == '/';
    var rel := RelOf(path);
    var target := TargetOf(docRoot, path);
    if !(docRoot <= target) then Resolution(None, 403)
    else if IsDir(fs, target) then
      if !wantsDir && rel != "" then Resolution(None, 403)
      else
        var index := target + ["index.html"];
        if IsFile(fs, index) then Resolution(Some(index), 200) else Resolution(None, 404)
    else if wantsDir then Resolution(None, 404)
    else if target !in fs then Resolution(None, 404)
    else if !fs[target].File? then Resolution(None, 403)
    else Resolution(Some(target), 200)
  }

  /**
    The containment check comes before any look at the filesystem: a target
    that normalises outside the document root is 403 whatever exists.
  */
  lemma OutsideIsForbidden(fs: FileSystem, docRoot: Segments, urlPath: string)
    requires !(docRoot <= Target(docRoot, urlPath))
    ensures ResolvePath(fs, docRoot, urlPath) == Resolution(None, 403)
  {
  }

  /** A request path with no `..` name (after decoding) cannot leave the document root. */
  lemma NoParentStaysInside(docRoot: Segments, urlPath: string)
    requires forall i :: 0 <= i < |Split(RelPath(urlPath), "/")| ==> Split(RelPath(urlPath), "/")[i] != ".."
    ensures docRoot <= Target(docRoot, urlPath)
  {
    NormalizeExtends(docRoot, Split(RelPath(urlPath), "/"));
  }

  /** The resolved target of a canonical document root is canonical: no empty, `.` or `..` names. */
  lemma TargetCanonical(docRoot: Segments, urlPath: string)
    requires Canonical(docRoot)
    ensures Canonical(Target(docRoot, urlPath))
  {
    NormalizeCanonical(docRoot, Split(RelPath(urlPath), "/"));
  }

  /** Directory targets: 403 without a trailing slash (unless it is the root), else the index file or 404. */
  lemma DirectoryRules(fs: FileSystem, docRoot: Segments, urlPath: string)
    requires docRoot <= Target(docRoot, urlPath) && IsDir(fs, Target(docRoot, urlPath))
    ensures var path := RequestPath(urlPath);
      var wantsDir := |path| > 0 && path[|path| - 1] == '/';
      var index := Target(docRoot, urlPath) + ["index.html"];
      ResolvePath(fs, docRoot, urlPath) ==
        if !wantsDir && RelPath(urlPath) != "" then Resolution(None, 403)
        else if IsFile(fs, index) then Resolution(Some(index), 200)
        else Resolution(None, 404)
  {
  }

  /** Other targets: a trailing slash or a missing path is 404, a non-regular file 403, a regular file 200. */
  lemma FileRules(fs: FileSystem, docRoot: Segments, urlPath: string)
    requires docRoot <= Target(docRoot, urlPath) && !IsDir(fs, Target(docRoot, urlPath))
    ensures var path := RequestPath(urlPath);
      var target := Target(docRoot, urlPath);
      ResolvePath(fs, docRoot, urlPath) ==
        if |path| > 0 && path[|path| - 1] == '/' then Resolution(None, 404)
        else if target !in fs then Resolution(None, 404)
        else if !fs[target].File? then Resolution(None, 403)
        else Resolution(Some(target), 200)
  {
  }

  /** The query string does not take part in resolution. */
  lemma QueryIgnored(fs: FileSystem, docRoot: Segments, path: string, query: string)
    requires !Contains(path, "?")
    ensures ResolvePath(fs, docRoot, path + "?" + query) == ResolvePath(fs, docRoot, path)
  {
    QueryCut(path, query);
  }

  /** Cutting at the first `?` gives back a path that holds none. */
  lemma QueryCut(path: string, query: string)
    requires !Contains(path, "?")
    ensures RequestPath(path + "?" + query) == path == RequestPath(path)
  {
    var u := path + "?" + query;
    assert OccursAt(u, "?", |path|) by { assert u[|path|..|path| + 1] == "?"; }
    forall j: nat | j < |path| ensures !OccursAt(u, "?", j) {
      assert u[j..j + 1] == path[j..j + 1];
      assert !OccursAt(path, "?", j);
    }
    BeforeFirstAt(u, "?", |path|);
    assert u[..|path|] == path;
  }

  /**
    A request that climbs two levels out of a two-level document root with
    `../..` and then names another directory, as in `../../etc/passwd` under
    `/srv/www`, is refused whatever exists.
  */
  lemma TraversalRefused(fs: FileSystem, docRoot: Segments, u: string, x: string, y: string)
    requires |docRoot| == 2
    requires IsName(x) && IsName(y) && [x, y] != docRoot
    requires Split(RelPath(u), "/") == ["..", "..", x, y]
    ensures ResolvePath(fs, docRoot, u) == Resolution(None, 403)
  {
    ClimbOut(docRoot, x, y);
    OutsideIsForbidden(fs, docRoot, u);
  }

  /** `a/b` joined with `../../x/y` resolves to `/x/y`. */
  lemma ClimbOut(docRoot: Segments, x: string, y: string)
    requires |docRoot| == 2 && IsName(x) && IsName(y)
    ensures Normalize(docRoot, ["..", "..", x, y]) == [x, y]
  {
    var parts := ["..", "..", x, y];
    assert parts[1..] == ["..", x, y] && parts[2..] == [x, y] && parts[3..] == [y] && parts[4..] == [];
    assert [x] + [y] == [x, y] && Normalize([x], parts[3..]) == Normalize([x, y], parts[4..]);
    assert [] + [x] == [x] && Normalize([], parts[2..]) == Normalize([x], parts[3..]);
    assert Normalize(docRoot, parts) == Normalize(docRoot[..1], parts[1..]);
    assert Normalize(docRoot[..1], parts[1..]) == Normalize([], parts[2..]);
  }
}
