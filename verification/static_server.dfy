/** server.js: the static file server that ships the page. Each request is
    decided from `url.pathname` as the URL parser leaves it, the server's
    working directory (`root`) and the file system, which is a map from
    absolute paths to entries. Reading the file, the port and the logging
    are left out. */
module StaticServer {
  import opened Wrappers
  import opened Text
  import opened Urls

  // ------------------------------------------------------------------
  // Content types
  // ------------------------------------------------------------------

  const OctetStream := "application/octet-stream"

  /** The extension table, keyed by lower-case extension with its dot. */
  const Mime: map<string, string> := map[
    ".html" := "text/html; charset=utf-8",
    ".js" := "application/javascript; charset=utf-8",
    ".css" := "text/css; charset=utf-8",
    ".json" := "application/json; charset=utf-8",
    ".png" := "image/png",
    ".jpg" := "image/jpeg",
    ".jpeg" := "image/jpeg",
    ".svg" := "image/svg+xml",
    ".ico" := "image/x-icon",
    ".mp4" := "video/mp4",
    ".webm" := "video/webm",
    ".wasm" := "application/wasm",
    ".xml" := "application/xml; charset=utf-8",
    ".txt" := "text/plain; charset=utf-8"]

  /** The position of the last c in s. */
  function LastIndex(s: string, c: char): (r: Option<nat>)
    ensures r.None? ==> forall j | 0 <= j < |s| :: s[j] != c
    ensures r.Some? ==> r.value < |s| && s[r.value] == c && forall j | r.value < j < |s| :: s[j] != c
  {
    if s == [] then None
    else if s[|s| - 1] == c then Some(|s| - 1)
    else LastIndex(s[..|s| - 1], c)
  }

  /** The text after the last '/'. */
  function Basename(p: string): (r: string)
    ensures |r| <= |p| && r == p[|p| - |r|..]
    ensures forall j | 0 <= j < |r| :: r[j] != '/'
    ensures |r| < |p| ==> p[|p| - |r| - 1] == '/'
  {
    match LastIndex(p, '/')
    case None => p
    case Some(i) => p[i + 1..]
  }

  /** `path.extname(p)` for a path without a trailing '/': the base name
      from its last '.' on. It is empty when the base name has no '.', when
      its last '.' is its first character, and for the base name "..". */
  function Extname(p: string): (r: string)
    ensures r == [] || (r[0] == '.' && EndsWith(p, r) && |r| < |Basename(p)|)
    ensures forall j | 0 < j < |r| :: r[j] != '.' && r[j] != '/'
  {
    var b := Basename(p);
    match LastIndex(b, '.')
    case None => []
    case Some(d) => if d == 0 || b == ".." then [] else b[d..]
  }

  /** The type a table gives the path's extension in lower case, and
      application/octet-stream when the table has no entry for it. */
  function TypeIn(table: map<string, string>, p: string): (r: string)
    ensures AsciiLower(Extname(p)) in table ==> r == table[AsciiLower(Extname(p))]
    ensures AsciiLower(Extname(p)) !in table ==> r == OctetStream
  {
    var ext := AsciiLower(Extname(p));
    if ext in table then table[ext] else OctetStream
  }

  /** `contentType(filePath)`: the type of the extension, looked up in
      lower case in the extension table. */
  function ContentType(p: string): (r: string)
  {
    TypeIn(Mime, p)
  }

  lemma BasenameOf(dir: string, name: string)
    requires forall j | 0 <= j < |name| :: name[j] != '/'
    ensures Basename(dir + "/" + name) == name
  {
    var p := dir + "/" + name;
    assert p[|dir|] == '/';
    assert forall k | |dir| < k < |p| :: p[k] == name[k - |dir| - 1];
    assert LastIndex(p, '/') == Some(|dir|);
    assert p[|dir| + 1..] == name;
  }

  lemma LastDotOf(a: string, e: string)
    requires |e| > 0 && e[0] == '.' && forall j | 0 < j < |e| :: e[j] != '.'
    ensures LastIndex(a + e, '.') == Some(|a|)
  {
    var b := a + e;
    assert b[|a|] == '.';
    assert forall k | |a| < k < |b| :: b[k] == e[k - |a|];
  }

  /** The extension of a file named base + ext, with ext a '.' and then no
      further '.', is ext. */
  lemma ExtnameOfName(dir: string, base: string, ext: string)
    requires base != "" && forall j | 0 <= j < |base| :: base[j] != '/'
    requires |ext| > 1 && ext[0] == '.'
    requires forall j | 0 < j < |ext| :: ext[j] != '.'
    requires forall j | 0 <= j < |ext| :: ext[j] != '/'
    ensures Extname(dir + "/" + base + ext) == ext
  {
    var name := base + ext;
    NoSlashInConcat(base, ext);
    assert dir + "/" + base + ext == dir + "/" + name;
    BasenameOf(dir, name);
    LastDotOf(base, ext);
    assert name != "..";
    assert name[|base|..] == ext;
  }

  /** A file named with an extension the table has, in any case, gets that
      extension's type, whatever directory it is in and whatever dots the
      rest of its name has. */
  lemma TypeOfName(table: map<string, string>, dir: string, base: string, ext: string)
    requires base != "" && forall j | 0 <= j < |base| :: base[j] != '/'
    requires |ext| > 1 && ext[0] == '.'
    requires forall j | 0 < j < |ext| :: ext[j] != '.'
    requires forall j | 0 <= j < |ext| :: ext[j] != '/'
    requires AsciiLower(ext) in table
    ensures TypeIn(table, dir + "/" + base + ext) == table[AsciiLower(ext)]
  {
    ExtnameOfName(dir, base, ext);
  }

  lemma NoSlashInConcat(a: string, b: string)
    requires forall j | 0 <= j < |a| :: a[j] != '/'
    requires forall j | 0 <= j < |b| :: b[j] != '/'
    ensures forall j | 0 <= j < |a + b| :: (a + b)[j] != '/'
  {
    forall j | 0 <= j < |a + b| ensures (a + b)[j] != '/' {
      if j < |a| { assert (a + b)[j] == a[j]; } else { assert (a + b)[j] == b[j - |a|]; }
    }
  }

  /** A file whose name has no '.' gets application/octet-stream. */
  lemma TypeWithoutDot(table: map<string, string>, dir: string, name: string)
    requires forall j | 0 <= j < |name| :: name[j] != '/' && name[j] != '.'
    requires "" !in table
    ensures TypeIn(table, dir + "/" + name) == OctetStream
  {
    BasenameOf(dir, name);
    assert Extname(dir + "/" + name) == [];
    assert AsciiLower([]) == [];
  }

  // ------------------------------------------------------------------
  // Paths
  // ------------------------------------------------------------------

  /** A segment `path.resolve` keeps: not empty, not "." or "..". */
  predicate CleanSegment(g: string) {
    g != "" && g != "." && g != ".." && '/' !in g
  }

  predicate CleanSegments(xs: seq<string>) {
    forall i | 0 <= i < |xs| :: CleanSegment(xs[i])
  }

  predicate NoSlashIn(xs: seq<string>) {
    forall i | 0 <= i < |xs| :: '/' !in xs[i]
  }

  function JoinSlash(xs: seq<string>): string {
    if xs == [] then "" else if |xs| == 1 then xs[0] else xs[0] + "/" + JoinSlash(xs[1..])
  }

  /** The absolute path with the given segments. */
  function Absolute(xs: seq<string>): string {
    "/" + JoinSlash(xs)
  }

  /** The segments left after walking `segs` from `stack`: empty and "."
      segments are dropped, and ".." drops the segment before it (nothing
      above the file system root). */
  function Normalize(stack: seq<string>, segs: seq<string>): (r: seq<string>)
    requires CleanSegments(stack) && NoSlashIn(segs)
    ensures CleanSegments(r)
    decreases |segs|
  {
    if segs == [] then stack
    else
      var g := segs[0];
      if g == "" || g == "." then Normalize(stack, segs[1..])
      else if g == ".." then Normalize(if stack == [] then [] else stack[..|stack| - 1], segs[1..])
      else Normalize(stack + [g], segs[1..])
  }

  /** `path.resolve(path.join(base, p))` for an absolute base. */
  function Resolve(base: string, p: string): (r: string)
    ensures |r| > 0 && r[0] == '/'
  {
    SplitOnNoSeparator(base + "/" + p, '/');
    Absolute(Normalize([], SplitOn(base + "/" + p, '/')))
  }

  lemma {:induction false} SplitOnNoSeparator(s: string, c: char)
    ensures forall i | 0 <= i < |SplitOn(s, c)| :: c !in SplitOn(s, c)[i]
  {
    if s != [] {
      SplitOnNoSeparator(s[1..], c);
      var rest := SplitOn(s[1..], c);
      if s[0] != c {
        assert c !in [s[0]] + rest[0];
      }
    }
  }

  /** Walking segments that are already clean only appends them. */
  lemma {:induction false} NormalizeClean(stack: seq<string>, ys: seq<string>)
    requires CleanSegments(stack) && CleanSegments(ys)
    ensures Normalize(stack, ys) == stack + ys
    decreases |ys|
  {
    if ys != [] {
      NormalizeClean(stack + [ys[0]], ys[1..]);
      assert stack + [ys[0]] + ys[1..] == stack + ys;
    }
  }

  lemma {:induction false} JoinSnoc(xs: seq<string>, y: string)
    requires |xs| > 0
    ensures JoinSlash(xs + [y]) == JoinSlash(xs) + "/" + y
  {
    if |xs| > 1 {
      assert (xs + [y])[1..] == xs[1..] + [y];
      JoinSnoc(xs[1..], y);
    }
  }

  /** Splitting a joined path, followed by more text, gives its segments
      back first. */
  lemma {:induction false} SplitJoinThen(xs: seq<string>, rest: string)
    requires |xs| > 0 && NoSlashIn(xs)
    ensures SplitOn(JoinSlash(xs) + "/" + rest, '/') == xs + SplitOn(rest, '/')
  {
    assert '/' !in xs[0];
    if |xs| == 1 {
      SplitOnFirst(xs[0], rest, '/');
    } else {
      var tail := JoinSlash(xs[1..]) + "/" + rest;
      assert JoinSlash(xs) + "/" + rest == xs[0] + ['/'] + tail;
      SplitOnFirst(xs[0], tail, '/');
      SplitJoinThen(xs[1..], rest);
      assert xs == [xs[0]] + xs[1..];
    }
  }

  lemma {:induction false} SplitJoin(xs: seq<string>)
    requires |xs| > 0 && NoSlashIn(xs)
    ensures SplitOn(JoinSlash(xs), '/') == xs
  {
    assert '/' !in xs[0];
    if |xs| == 1 {
      SplitOnWithout(xs[0], '/');
    } else {
      assert JoinSlash(xs) == xs[0] + ['/'] + JoinSlash(xs[1..]);
      SplitOnFirst(xs[0], JoinSlash(xs[1..]), '/');
      SplitJoin(xs[1..]);
      assert xs == [xs[0]] + xs[1..];
    }
  }

  /** An absolute path splits into an empty first piece and its segments. */
  lemma SegmentsOfAbsolute(xs: seq<string>)
    requires |xs| > 0 && NoSlashIn(xs)
    ensures SplitOn(Absolute(xs), '/') == [""] + xs
  {
    assert Absolute(xs) == [] + ['/'] + JoinSlash(xs);
    SplitOnFirst([], JoinSlash(xs), '/');
    SplitJoin(xs);
  }

  /** A resolved path has no empty, "." or ".." segment: every segment of
      it names one step down from the file system root. */
  lemma ResolvedIsClean(base: string, p: string)
    ensures var r := Resolve(base, p);
      r == "/" || (SplitOn(r, '/')[0] == "" && CleanSegments(SplitOn(r, '/')[1..]))
  {
    SplitOnNoSeparator(base + "/" + p, '/');
    var xs := Normalize([], SplitOn(base + "/" + p, '/'));
    if xs != [] {
      SegmentsOfAbsolute(xs);
      assert SplitOn(Absolute(xs), '/')[1..] == xs;
    }
  }

  /** Joining a clean name onto a resolved path adds one segment. */
  lemma ResolveChild(xs: seq<string>, name: string)
    requires CleanSegments(xs) && CleanSegment(name)
    ensures Resolve(Absolute(xs), name) == Absolute(xs + [name])
  {
    var s := Absolute(xs) + "/" + name;
    if xs == [] {
      assert s == [] + ['/'] + ([] + ['/'] + name);
      SplitOnFirst([], [] + ['/'] + name, '/');
      SplitOnFirst([], name, '/');
      SplitOnWithout(name, '/');
      var segs := ["", "", name];
      assert SplitOn(s, '/') == segs;
      assert segs[1..] == ["", name] && segs[1..][1..] == [name];
      assert Normalize([], [name]) == [name];
      assert Normalize([], segs) == [name];
      assert Resolve(Absolute(xs), name) == Absolute(Normalize([], segs));
      assert xs + [name] == [name];
    } else {
      assert s == [] + ['/'] + (JoinSlash(xs) + "/" + name);
      SplitOnFirst([], JoinSlash(xs) + "/" + name, '/');
      SplitJoinThen(xs, name);
      SplitOnWithout(name, '/');
      var segs := [""] + (xs + [name]);
      assert SplitOn(s, '/') == segs;
      assert segs[1..] == xs + [name];
      NormalizeClean([], xs + [name]);
      assert Normalize([], segs) == Normalize([], segs[1..]);
      assert Normalize([], segs) == xs + [name];
      assert Resolve(Absolute(xs), name) == Absolute(Normalize([], segs));
      JoinSnoc(xs, name);
    }
  }

  // ------------------------------------------------------------------
  // The traversal guard
  // ------------------------------------------------------------------

  /** The guard as written: `resolved.startsWith(root)`. */
  predicate StartsWithRoot(resolved: string, root: string) {
    StartsWith(resolved, root)
  }

  /** The guard as intended: the root itself, or a path below it, that is,
      one that continues the root with a '/'. */
  predicate InsideRoot(resolved: string, root: string) {
    resolved == root || StartsWith(resolved, if EndsWith(root, "/") then root else root + "/")
  }

  lemma {:induction false} JoinSlashLast(xs: seq<string>)
    requires |xs| > 0 && CleanSegments(xs)
    ensures |JoinSlash(xs)| > 0 && JoinSlash(xs)[|JoinSlash(xs)| - 1] != '/'
  {
    var last := xs[|xs| - 1];
    assert CleanSegment(last);
    if |xs| > 1 {
      JoinSlashLast(xs[1..]);
    } else {
      assert last[|last| - 1] in last;
    }
  }

  /** A root with at least one clean segment is longer than "/" and does
      not end with '/'. */
  lemma RootShape(rs: seq<string>)
    requires rs != [] && CleanSegments(rs)
    ensures |Absolute(rs)| > 1 && !EndsWith(Absolute(rs), "/")
  {
    var root := Absolute(rs);
    var j := JoinSlash(rs);
    JoinSlashLast(rs);
    assert root[|root| - 1] == j[|j| - 1];
    assert root[|root| - 1..] == [root[|root| - 1]];
  }

  /** A path that continues a root with '/' and more text has the root's
      segments first. */
  lemma SplitBelow(rs: seq<string>, xs: seq<string>, rest: string)
    requires rs != [] && xs != [] && NoSlashIn(rs) && NoSlashIn(xs)
    requires Absolute(xs) == Absolute(rs) + "/" + rest
    ensures xs == rs + SplitOn(rest, '/')
  {
    var j := JoinSlash(rs);
    assert Absolute(xs) == [] + ['/'] + (j + "/" + rest);
    SplitOnFirst([], j + "/" + rest, '/');
    SplitJoinThen(rs, rest);
    SegmentsOfAbsolute(xs);
    assert ([""] + xs)[1..] == xs;
    assert ([""] + (rs + SplitOn(rest, '/')))[1..] == rs + SplitOn(rest, '/');
  }

  /** Two non-empty segment lists with the same absolute path are equal. */
  lemma SameAbsolute(rs: seq<string>, xs: seq<string>)
    requires rs != [] && xs != [] && NoSlashIn(rs) && NoSlashIn(xs)
    requires Absolute(xs) == Absolute(rs)
    ensures xs == rs
  {
    SegmentsOfAbsolute(xs);
    SegmentsOfAbsolute(rs);
    assert ([""] + xs)[1..] == xs;
    assert ([""] + rs)[1..] == rs;
  }

  /** For a root with clean segments, the intended guard admits exactly the
      paths whose segments continue the root's segments. */
  lemma InsideMeansBelow(rs: seq<string>, xs: seq<string>)
    requires CleanSegments(rs) && CleanSegments(xs)
    requires InsideRoot(Absolute(xs), Absolute(rs))
    ensures |rs| <= |xs| && xs[..|rs|] == rs
  {
    if rs != [] {
      RootShape(rs);
      var root := Absolute(rs);
      var p := Absolute(xs);
      assert StartsWith(p, root + "/") || p == root;
      assert |p| >= |root| > 1;
      assert xs != [];
      if p == root {
        SameAbsolute(rs, xs);
      } else {
        var rest := p[|root| + 1..];
        assert p == p[..|root| + 1] + rest;
        SplitBelow(rs, xs, rest);
      }
    }
  }

  // ------------------------------------------------------------------
  // Routing
  // ------------------------------------------------------------------

  datatype Entry = File | Directory

  type FileSystem = map<string, Entry>

  /** A response body: a fixed message, or the contents of a file. */
  datatype Body = Message(text: string) | Contents(path: string)

  /** A response: the status, the body, and the Content-Type and
      Access-Control-Allow-Origin headers when set. */
  datatype Reply = Reply(status: int, body: Body, contentType: Option<string>, allowOrigin: Option<string>)

  function Served(path: string): (r: Reply)
    ensures r.status == 200 && r.body == Contents(path)
  {
    Reply(200, Contents(path), Some(ContentType(path)), Some("*"))
  }

  function Refused(status: int, text: string): Reply {
    Reply(status, Message(text), None, None)
  }

  /** The path a request names: the pathname ("/" when empty) decoded with
      decodeURIComponent, "/" standing for "/index.html", resolved against
      the root. None when the pathname does not decode, which throws. */
  function Target(root: string, pathname: string): (r: Option<string>)
    ensures r.Some? <==> DecodeUriComponent(if pathname == "" then "/" else pathname).Some?
    ensures r.Some? ==>
      var d := DecodeUriComponent(if pathname == "" then "/" else pathname).value;
      r.value == Resolve(root, if d == "/" then "/index.html" else d)
  {
    match DecodeUriComponent(if pathname == "" then "/" else pathname)
    case None => None
    case Some(d) => Some(Resolve(root, if d == "/" then "/index.html" else d))
  }

  /** The decision tree of the request handler, with the as-written guard
      (`strict` false) or the intended one (`strict` true). */
  function Decide(root: string, pathname: string, fs: FileSystem, strict: bool): (r: Reply)
    ensures r.status == 500 <==> Target(root, pathname).None?
    ensures r.status == 200 <==> r.body.Contents?
    ensures r.status == 200 ==>
      && r.body.path in fs
      && r.contentType == Some(ContentType(r.body.path)) && r.allowOrigin == Some("*")
    ensures r.status != 200 ==> r.contentType.None? && r.allowOrigin.None?
    ensures Target(root, pathname).Some? ==>
      var t := Target(root, pathname).value;
      && (r == Refused(403, "Forbidden") <==> !(if strict then InsideRoot(t, root) else StartsWithRoot(t, root)))
      && (r.status == 404 <==> r == Refused(404, "Not Found"))
      && (r.status == 404 <==> (if strict then InsideRoot(t, root) else StartsWithRoot(t, root)) && t !in fs)
      && (t in fs && fs[t] == Directory && r.status == 200 ==> r.body.path == Resolve(t, "index.html"))
      && (r.status == 200 && r.body.path != t ==> t in fs && fs[t] == Directory && r.body.path == Resolve(t, "index.html"))
  {
    match Target(root, pathname)
    case None => Refused(500, "Internal Server Error")
    case Some(t) =>
      if !(if strict then InsideRoot(t, root) else StartsWithRoot(t, root)) then Refused(403, "Forbidden")
      else if t in fs && fs[t] == Directory then
        var index := Resolve(t, "index.html");
        if index in fs then Served(index) else Refused(403, "Directory access is forbidden")
      else if t !in fs then Refused(404, "Not Found")
      else Served(t)
  }

  /** The request handler of server.js, as written. */
  function Route(root: string, pathname: string, fs: FileSystem): (r: Reply)
    ensures r.status in {200, 403, 404, 500}
    ensures r.status == 200 ==> Target(root, pathname).Some? && StartsWithRoot(Target(root, pathname).value, root)
  {
    Decide(root, pathname, fs, false)
  }

  /** The request handler with the intended guard. */
  function RouteIntended(root: string, pathname: string, fs: FileSystem): (r: Reply)
    ensures r.status in {200, 403, 404, 500}
    ensures r.status == 200 ==> Target(root, pathname).Some? && InsideRoot(Target(root, pathname).value, root)
  {
    Decide(root, pathname, fs, true)
  }

  /** A request for "/" (or an empty pathname) is answered as one for
      "/index.html". */
  lemma RootIsIndex(root: string, fs: FileSystem)
    ensures Route(root, "/", fs) == Route(root, "/index.html", fs)
    ensures Route(root, "", fs) == Route(root, "/index.html", fs)
  {
    DecodeSlashAndIndex();
  }

  lemma DecodeSlashAndIndex()
    ensures DecodeUriComponent("/") == Some("/")
    ensures DecodeUriComponent("/index.html") == Some("/index.html")
  {
    DecodeWithoutPercent("/", "");
    DecodeWithoutPercent("/index.html", "");
    assert "/" + "" == "/";
    assert "/index.html" + "" == "/index.html";
  }

  /** Text without '%' decodes to itself, in front of whatever follows. */
  lemma {:induction false} DecodeWithoutPercent(a: string, b: string)
    requires '%' !in a
    ensures DecodeUriComponent(a + b).Some? <==> DecodeUriComponent(b).Some?
    ensures DecodeUriComponent(b).Some? ==> DecodeUriComponent(a + b).value == a + DecodeUriComponent(b).value
  {
    if a != [] {
      assert (a + b)[0] == a[0] && (a + b)[1..] == a[1..] + b;
      assert '%' !in a[1..] by {
        forall i | 0 <= i < |a[1..]| ensures a[1..][i] != '%' {
          assert a[1..][i] == a[i + 1];
        }
      }
      DecodeWithoutPercent(a[1..], b);
      assert a == [a[0]] + a[1..];
    } else {
      assert a + b == b;
      if DecodeUriComponent(b).Some? {
        assert a + DecodeUriComponent(b).value == DecodeUriComponent(b).value;
      }
    }
  }

  /** The guard is decided before the file system is looked at: a refused
      path is refused whatever exists. */
  lemma ForbiddenWhateverExists(root: string, pathname: string, fs1: FileSystem, fs2: FileSystem)
    requires Target(root, pathname).Some?
    requires !StartsWithRoot(Target(root, pathname).value, root)
    ensures Route(root, pathname, fs1) == Route(root, pathname, fs2) == Refused(403, "Forbidden")
  {
  }

  /** The path a request names is absolute, with clean segments. */
  lemma TargetSegments(root: string, pathname: string) returns (xs: seq<string>)
    requires Target(root, pathname).Some?
    ensures CleanSegments(xs) && Target(root, pathname).value == Absolute(xs)
  {
    var d := DecodeUriComponent(if pathname == "" then "/" else pathname).value;
    var p := if d == "/" then "/index.html" else d;
    SplitOnNoSeparator(root + "/" + p, '/');
    xs := Normalize([], SplitOn(root + "/" + p, '/'));
  }

  /** The pieces of an absolute path whose segments start with rs: an empty
      first piece, then rs. */
  lemma ServedSegments(rs: seq<string>, served: seq<string>)
    requires CleanSegments(served) && |rs| <= |served| && served[..|rs|] == rs
    ensures var ps := SplitOn(Absolute(served), '/');
      |ps| > |rs| && ps[0] == "" && ps[1..|rs| + 1] == rs
  {
    if served == [] {
      assert Absolute(served) == [] + ['/'] + [];
      SplitOnFirst([], [], '/');
    } else {
      SegmentsOfAbsolute(served);
      assert ([""] + served)[1..|rs| + 1] == served[..|rs|];
    }
  }

  lemma IndexIsClean()
    ensures CleanSegment("index.html")
  {
    assert forall i | 0 <= i < |"index.html"| :: "index.html"[i] != '/';
  }

  /** What the intended handler serves is the request's target, which
      passed the intended guard, or the index.html in it. */
  lemma IntendedServedPath(root: string, pathname: string, fs: FileSystem) returns (t: string)
    requires RouteIntended(root, pathname, fs).status == 200
    ensures Target(root, pathname) == Some(t) && InsideRoot(t, root)
    ensures var path := RouteIntended(root, pathname, fs).body.path;
      path == t || path == Resolve(t, "index.html")
  {
    t := Target(root, pathname).value;
  }

  /** So it is an absolute path of clean segments that continue those of
      a target the guard admitted. */
  lemma ServedByIntended(root: string, pathname: string, fs: FileSystem) returns (xs: seq<string>, served: seq<string>)
    requires RouteIntended(root, pathname, fs).status == 200
    ensures CleanSegments(xs) && InsideRoot(Absolute(xs), root)
    ensures CleanSegments(served) && |xs| <= |served| && served[..|xs|] == xs
    ensures RouteIntended(root, pathname, fs).body.path == Absolute(served)
  {
    var t := IntendedServedPath(root, pathname, fs);
    xs := TargetSegments(root, pathname);
    served := ServedFromTarget(xs, RouteIntended(root, pathname, fs).body.path);
  }

  /** The target itself, or the index.html in it. */
  lemma ServedFromTarget(xs: seq<string>, path: string) returns (served: seq<string>)
    requires CleanSegments(xs)
    requires path == Absolute(xs) || path == Resolve(Absolute(xs), "index.html")
    ensures CleanSegments(served) && |xs| <= |served| && served[..|xs|] == xs
    ensures path == Absolute(served)
  {
    if path == Absolute(xs) {
      served := xs;
    } else {
      IndexIsClean();
      ResolveChild(xs, "index.html");
      served := xs + ["index.html"];
      assert served[..|xs|] == xs;
    }
  }

  /** With a root of clean segments, whatever the intended handler serves
      lies in the root's directory tree: its segments continue the root's.
      This holds for a directory's index.html too. */
  lemma IntendedServesBelowRoot(rs: seq<string>, pathname: string, fs: FileSystem)
    requires CleanSegments(rs)
    ensures var r := RouteIntended(Absolute(rs), pathname, fs);
      r.status == 200 ==>
        var ps := SplitOn(r.body.path, '/');
        && |ps| > |rs| && ps[0] == "" && ps[1..|rs| + 1] == rs
  {
    var root := Absolute(rs);
    if RouteIntended(root, pathname, fs).status == 200 {
      var xs, served := ServedByIntended(root, pathname, fs);
      InsideMeansBelow(rs, xs);
      assert served[..|rs|] == served[..|xs|][..|rs|];
      ServedSegments(rs, served);
    }
  }

  /** Where the intended guard admits a path, both handlers answer alike;
      they differ only on a path that merely starts with the root's text. */
  lemma IntendedAgreesInside(root: string, pathname: string, fs: FileSystem)
    requires Target(root, pathname).Some?
    ensures var t := Target(root, pathname).value;
      (RouteIntended(root, pathname, fs) != Route(root, pathname, fs)) <==>
        (StartsWithRoot(t, root) && !InsideRoot(t, root))
  {
    var t := Target(root, pathname).value;
    if InsideRoot(t, root) {
      if t != root {
        var w := if EndsWith(root, "/") then root else root + "/";
        assert t[..|root|] == w[..|root|];
      }
    }
  }

  /** An encoded slash decodes to '/', in front of text without '%'. */
  lemma DecodeEncodedSlash(b: string)
    requires '%' !in b
    ensures DecodeUriComponent("%2F" + b) == Some("/" + b)
  {
    var s := "%2F" + b;
    assert s[0] == '%' && s[1] == '2' && s[2] == 'F';
    assert Octet(s) == Some(47);
    assert DecodeEscape(s) == Some(('/', 3));
    assert s[3..] == b;
    DecodeWithoutPercent(b, "");
    assert b + "" == b;
  }

  /** A pathname that decodes to something other than "/" names that path
      below the root. */
  lemma TargetOfDecoded(root: string, pathname: string, d: string)
    requires pathname != "" && d != "/"
    requires DecodeUriComponent(pathname) == Some(d)
    ensures Target(root, pathname) == Some(Resolve(root, d))
  {
  }

  /** A target the guard admits and the file system holds as a file is
      served. */
  lemma ServesAdmittedFile(root: string, pathname: string, fs: FileSystem, strict: bool, t: string)
    requires Target(root, pathname) == Some(t)
    requires if strict then InsideRoot(t, root) else StartsWithRoot(t, root)
    requires t in fs && fs[t] == File
    ensures Decide(root, pathname, fs, strict) == Served(t)
  {
  }

  /** A target the guard refuses is forbidden. */
  lemma RefusesOutside(root: string, pathname: string, fs: FileSystem, strict: bool, t: string)
    requires Target(root, pathname) == Some(t)
    requires !(if strict then InsideRoot(t, root) else StartsWithRoot(t, root))
    ensures Decide(root, pathname, fs, strict) == Refused(403, "Forbidden")
  {
  }

  /** "/..%2F" + rest decodes to "/../" + rest: the encoded slash is
      decoded only after the URL parser has removed dot segments, so the
      ".." reaches the path resolution. */
  lemma EscapedParentDecode(n: string, k: string)
    requires '%' !in n && '%' !in k
    ensures DecodeUriComponent("/..%2F" + n + "/" + k) == Some("/../" + n + "/" + k)
  {
    var b := n + "/" + k;
    assert '%' !in b;
    assert "/..%2F" + n + "/" + k == "/.." + ("%2F" + b);
    DecodeEncodedSlash(b);
    DecodeWithoutPercent("/..", "%2F" + b);
    assert "/.." + ("/" + b) == "/../" + n + "/" + k;
  }

  lemma EscapedParentSegments(r: string, n: string, k: string)
    requires CleanSegment(r) && CleanSegment(n) && CleanSegment(k)
    ensures SplitOn("/" + r + "/" + ("/../" + n + "/" + k), '/') == ["", r, "", "..", n, k]
  {
    var t4 := n + ['/'] + k;
    var t3 := ".." + ['/'] + t4;
    var t2 := [] + ['/'] + t3;
    var t1 := r + ['/'] + t2;
    assert "/" + r + "/" + ("/../" + n + "/" + k) == [] + ['/'] + t1;
    SplitOnWithout(k, '/');
    SplitOnFirst(n, k, '/');
    SplitOnFirst("..", t4, '/');
    SplitOnFirst([], t3, '/');
    SplitOnFirst(r, t2, '/');
    SplitOnFirst([], t1, '/');
  }

  /** Stepping into r and back out with ".." leaves nothing behind. */
  lemma StepInAndOut(r: string, rest: seq<string>)
    requires CleanSegment(r) && NoSlashIn(rest)
    ensures NoSlashIn(["", r, "", ".."] + rest)
    ensures Normalize([], ["", r, "", ".."] + rest) == Normalize([], rest)
  {
    var segs := ["", r, "", ".."] + rest;
    var s1, s2, s3 := [r, "", ".."] + rest, ["", ".."] + rest, [".."] + rest;
    assert segs[1..] == s1 && s1[1..] == s2 && s2[1..] == s3 && s3[1..] == rest;
    assert Normalize([r], s3) == Normalize([], rest);
    assert Normalize([r], s2) == Normalize([r], s3);
    assert Normalize([], s1) == Normalize([] + [r], s2);
  }

  lemma EscapedParentNormalize(r: string, n: string, k: string)
    requires CleanSegment(r) && CleanSegment(n) && CleanSegment(k)
    ensures Normalize([], ["", r, "", "..", n, k]) == [n, k]
  {
    StepInAndOut(r, [n, k]);
    assert ["", r, "", "..", n, k] == ["", r, "", ".."] + [n, k];
    NormalizeClean([], [n, k]);
  }

  /** Under the root "/" + r, the pathname "/..%2F" + n + "/" + k names the
      file k in the directory n beside the root. */
  lemma EscapedParentTarget(r: string, n: string, k: string)
    requires CleanSegment(r) && CleanSegment(n) && CleanSegment(k)
    requires '%' !in n && '%' !in k
    ensures Target("/" + r, "/..%2F" + n + "/" + k) == Some("/" + n + "/" + k)
  {
    var d := "/../" + n + "/" + k;
    EscapedParentDecode(n, k);
    TargetOfDecoded("/" + r, "/..%2F" + n + "/" + k, d);
    EscapedParentSegments(r, n, k);
    EscapedParentNormalize(r, n, k);
    assert [n, k][1..] == [k];
    assert JoinSlash([n, k]) == n + "/" + k;
    assert "/" + (n + "/" + k) == "/" + n + "/" + k;
  }

  /** The finding: a directory beside the root whose name starts with the
      root's name passes `startsWith(root)`. Its files are served to a
      pathname that hides "../" behind an encoded slash; the intended guard
      refuses the same request. */
  lemma SiblingDirectoryIsServed(r: string, n: string, k: string, fs: FileSystem)
    requires CleanSegment(r) && CleanSegment(n) && CleanSegment(k)
    requires '%' !in n && '%' !in k
    requires StartsWith(n, r) && n != r
    requires "/" + n + "/" + k in fs && fs["/" + n + "/" + k] == File
    ensures Route("/" + r, "/..%2F" + n + "/" + k, fs) == Served("/" + n + "/" + k)
    ensures RouteIntended("/" + r, "/..%2F" + n + "/" + k, fs) == Refused(403, "Forbidden")
  {
    var root := "/" + r;
    var pathname := "/..%2F" + n + "/" + k;
    var t := "/" + n + "/" + k;
    EscapedParentTarget(r, n, k);
    assert t[..|root|] == "/" + n[..|r|];
    assert StartsWithRoot(t, root);
    assert !InsideRoot(t, root) by {
      assert r[|r| - 1] in r;
      assert root[|root| - 1] == r[|r| - 1];
      assert !EndsWith(root, "/");
      assert t[|root|] == n[|r|];
      assert n[|r|] in n;
    }
    ServesAdmittedFile(root, pathname, fs, false, t);
    RefusesOutside(root, pathname, fs, true, t);
  }

  /** The finding on one input: with the server run from /app, the request
      for /..%2Fapp-data/key is answered with /app-data/key. */
  lemma SiblingExample(root: string, pathname: string, fs: FileSystem)
    requires root == "/app" && pathname == "/..%2Fapp-data/key"
    requires fs == map["/app-data/key" := File]
    ensures Route(root, pathname, fs) == Served("/app-data/key")
    ensures RouteIntended(root, pathname, fs) == Refused(403, "Forbidden")
  {
    assert root == "/" + "app" && pathname == "/..%2F" + "app-data" + "/" + "key";
    assert "/app-data/key" == "/" + "app-data" + "/" + "key";
    SiblingDirectoryIsServed("app", "app-data", "key", fs);
  }
}
