/**
 * routes/memories.js: what the upload middleware admits and where it stores
 * it (multer with disk storage, a file filter, a 50 MB limit, a single file
 * field named `media`), and the router table that sends each request to a
 * handler. `Date.now()` and `Math.random()` are parameters.
 */
module Routes {
  import opened Wrappers
  import opened Js
  import Cloudinary

  /** The disk-storage `destination` callback's answer. */
  const Destination := "uploads/"
  /** `limits.fileSize`. */
  const MaxFileSize: nat := 50 * 1024 * 1024
  /** The field `upload.single` reads the file from. */
  const MediaField := "media"
  const FilenamePrefix := "memory-"

  /** A file part of a multipart request as multer first sees it. */
  datatype Incoming = Incoming(fieldname: string, originalname: string, mimetype: string, size: nat)

  /** What multer leaves in `req.file` after storing a file on disk. */
  datatype UploadedFile = UploadedFile(
    fieldname: string,
    originalname: string,
    mimetype: string,
    destination: string,
    filename: string,
    path: string,
    size: nat)

  /** The outcome of the upload middleware for one file part. */
  datatype Admission =
    | UnexpectedField(field: string)  // a file under any field but `media`
    | FilterRejected                  // 'Only image and video files are allowed!'
    | TooLarge                        // over the size limit; the partial file is removed
    | Stored(file: UploadedFile)

  /** `fileFilter`: images and videos are accepted, anything else rejected. */
  predicate FileFilter(mimetype: string)
  {
    StartsWith(mimetype, "image/") || StartsWith(mimetype, "video/")
  }

  /** `Math.round` on a number: the nearest integer, halves rounded up. */
  function Round(x: real): (k: int)
    ensures k as real - 0.5 <= x < k as real + 0.5
  {
    (x + 0.5).Floor
  }

  /** `Math.round(Math.random() * 1e9)` for a random value in [0, 1). */
  function RandomSuffix(rand: real): (k: nat)
    requires 0.0 <= rand < 1.0
    ensures k <= 1000000000
    ensures k as real - 0.5 <= rand * 1000000000.0 < k as real + 0.5
  {
    Round(rand * 1000000000.0)
  }

  function StripTrailingSlashes(p: string): (t: string)
    ensures t <= p
    ensures t == "" || t[|t| - 1] != '/'
    decreases |p|
  {
    if |p| > 0 && p[|p| - 1] == '/' then StripTrailingSlashes(p[..|p| - 1]) else p
  }

  function LastIndexOf(s: string, c: char): (r: Option<nat>)
    ensures r.Some? ==> r.value < |s| && s[r.value] == c && c !in s[r.value + 1..]
    ensures r.None? ==> c !in s
    decreases |s|
  {
    if |s| == 0 then None
    else if s[|s| - 1] == c then Some(|s| - 1)
    else LastIndexOf(s[..|s| - 1], c)
  }

  /** Node's `path.extname`: in the last segment (trailing slashes ignored),
      from its last '.' to its end; "" when the segment has no '.', when its
      only leading '.' is that last one (".profile"), and for "..". */
  function ExtName(p: string): (e: string)
    ensures e == "" || (e[0] == '.' && '.' !in e[1..])
    ensures '/' !in e
    ensures EndsWith(StripTrailingSlashes(p), e)
  {
    var t := StripTrailingSlashes(p);
    var base := Cloudinary.LastSegment(t);
    match LastIndexOf(base, '.')
    case None => ""
    case Some(d) =>
      if d == 0 || base == ".." then ""
      else
        assert EndsWith(t, base[d..]) by {
          assert base[d..] == t[|t| - |base[d..]|..];
        }
        base[d..]
  }

  /** A name with no '/' and a '.'-led extension with no further '.' has
      that extension, whatever dots its stem holds; ".." has none. */
  lemma ExtNameOf(stem: string, ext: string)
    requires stem != "" && '/' !in stem
    requires |ext| >= 1 && ext[0] == '.' && '/' !in ext && '.' !in ext[1..]
    requires stem + ext != ".."
    ensures ExtName(stem + ext) == ext
  {
    var p := stem + ext;
    assert '/' !in p;
    NoSlashUnstripped(p);
    NoSlashSegment(p);
    assert p[|stem|] == '.' && p[|stem| + 1..] == ext[1..];
    LastIndexOfIs(p, '.', |stem|);
  }

  /** A name with no '.' has no extension. */
  lemma ExtNameNoDot(name: string)
    requires '.' !in name
    ensures ExtName(name) == ""
  {
    var t := StripTrailingSlashes(name);
    var base := Cloudinary.LastSegment(t);
    match LastIndexOf(base, '.')
    case None =>
    case Some(_) =>
  }

  /** A dot-file whose only '.' leads it has no extension. */
  lemma ExtNameDotFile(x: string)
    requires '.' !in x
    ensures ExtName("." + x) == ""
  {
    var p := "." + x;
    var t := StripTrailingSlashes(p);
    var base := Cloudinary.LastSegment(t);
    match LastIndexOf(base, '.')
    case None =>
    case Some(d) =>
      var k := |t| - |base| + d;
      assert t == p[..|t|];
      assert base[d] == t[k] == p[k];
      assert k == 0;
  }

  lemma NoSlashUnstripped(p: string)
    requires p != "" && '/' !in p
    ensures StripTrailingSlashes(p) == p
  {
    assert p[|p| - 1] in p;
  }

  lemma NoSlashSegment(p: string)
    requires '/' !in p
    ensures Cloudinary.LastSegment(p) == p
  {
  }

  lemma LastIndexOfIs(s: string, c: char, k: nat)
    requires k < |s| && s[k] == c && c !in s[k + 1..]
    ensures LastIndexOf(s, c) == Some(k)
  {
    assert s[k] in s;
  }

  /** The disk-storage `filename` callback: 'memory-' + Date.now() + '-' +
      Math.round(Math.random() * 1e9) + the original name's extension. */
  function StoredFilename(now: nat, rand: real, originalname: string): (name: string)
    requires 0.0 <= rand < 1.0
    ensures StartsWith(name, FilenamePrefix)
    ensures EndsWith(name, ExtName(originalname))
  {
    var stem := FilenamePrefix + Decimal(now) + "-" + Decimal(RandomSuffix(rand));
    var name := stem + ExtName(originalname);
    assert name[..|FilenamePrefix|] == FilenamePrefix;
    assert name[|stem|..] == ExtName(originalname);
    name
  }

  /** multer's handling of one file part under `upload.single('media')`: the
      field name check, then the file filter, then the disk storage, whose
      write fails past the size limit. */
  function Admit(file: Incoming, now: nat, rand: real): (r: Admission)
    requires 0.0 <= rand < 1.0
    ensures r.Stored? <==>
      file.fieldname == MediaField && FileFilter(file.mimetype) && file.size <= 52428800
    ensures r.TooLarge? <==>
      file.fieldname == MediaField && FileFilter(file.mimetype) && file.size > 52428800
    ensures r.Stored? ==>
      && r.file.filename == StoredFilename(now, rand, file.originalname)
      && r.file.destination == Destination
      && r.file.path == Destination + r.file.filename
      && r.file.mimetype == file.mimetype && r.file.originalname == file.originalname
      && r.file.size == file.size
  {
    if file.fieldname != MediaField then UnexpectedField(file.fieldname)
    else if !FileFilter(file.mimetype) then FilterRejected
    else
      var name := StoredFilename(now, rand, file.originalname);
      if file.size > MaxFileSize then TooLarge
      // path.join(destination, filename): the name has no '/' and is never
      // "." or "..", so joining is concatenation here.
      else Stored(UploadedFile(file.fieldname, file.originalname, file.mimetype, Destination, name, Destination + name, file.size))
  }

  /** A stored file's path names its blob by the stem of its file name:
      deleting by that path destroys 'memory-<now>-<suffix>'. */
  lemma StoredPathPublicId(now: nat, rand: real, originalname: string)
    requires 0.0 <= rand < 1.0
    ensures Cloudinary.PublicId(Destination + StoredFilename(now, rand, originalname))
         == FilenamePrefix + Decimal(now) + "-" + Decimal(RandomSuffix(rand))
  {
    var n, k := Decimal(now), Decimal(RandomSuffix(rand));
    var stem := FilenamePrefix + (n + "-" + k);
    var ext := ExtName(originalname);
    assert Bare(stem) by {
      NameLiterals();
      DigitsOnly(n);
      DigitsOnly(k);
      BareConcat(n, "-");
      BareConcat(n + "-", k);
      BareConcat(FilenamePrefix, n + "-" + k);
    }
    assert Destination + StoredFilename(now, rand, originalname) == Destination + stem + ext by {
      StoredFilenameParts(now, rand, originalname);
      ConcatAssoc(Destination, stem, ext);
    }
    assert Cloudinary.PublicId(Destination + stem + ext) == stem by {
      NameLiterals();
      Cloudinary.PublicIdOf(Destination, stem, ext);
    }
    assert stem == FilenamePrefix + n + "-" + k by {
      ConcatAssoc(FilenamePrefix, n, "-");
      ConcatAssoc(FilenamePrefix, n + "-", k);
    }
  }

  /** Neither a path separator nor an extension dot. */
  predicate Bare(s: string)
  {
    '/' !in s && '.' !in s
  }

  /** The fixed parts of a stored path: the folder ends in '/', and the
      prefix and the dash carry no '/' or '.'. */
  lemma NameLiterals()
    ensures Destination[|Destination| - 1] == '/'
    ensures Bare(FilenamePrefix) && Bare("-")
  {
  }

  lemma BareConcat(a: string, b: string)
    requires Bare(a) && Bare(b)
    ensures Bare(a + b)
  {
    assert forall c :: c in a + b ==> c in a || c in b;
  }

  lemma StoredFilenameParts(now: nat, rand: real, originalname: string)
    requires 0.0 <= rand < 1.0
    ensures StoredFilename(now, rand, originalname)
         == FilenamePrefix + (Decimal(now) + "-" + Decimal(RandomSuffix(rand))) + ExtName(originalname)
  {
    var n, k := Decimal(now), Decimal(RandomSuffix(rand));
    ConcatAssoc(FilenamePrefix, n, "-");
    ConcatAssoc(FilenamePrefix, n + "-", k);
  }

  lemma DigitsOnly(s: string)
    requires forall i :: 0 <= i < |s| ==> IsDigit(s[i])
    ensures '/' !in s && '.' !in s && '-' !in s
  {
  }

  /** Two uploads of a file with the same original name get the same stored
      name only when both the time and the rounded random suffix agree. */
  lemma StoredFilenameInjective(now1: nat, rand1: real, now2: nat, rand2: real, originalname: string)
    requires 0.0 <= rand1 < 1.0 && 0.0 <= rand2 < 1.0
    requires StoredFilename(now1, rand1, originalname) == StoredFilename(now2, rand2, originalname)
    ensures now1 == now2 && RandomSuffix(rand1) == RandomSuffix(rand2)
  {
    var ext := ExtName(originalname);
    var k1, k2 := RandomSuffix(rand1), RandomSuffix(rand2);
    var m1 := Decimal(now1) + "-" + Decimal(k1);
    var m2 := Decimal(now2) + "-" + Decimal(k2);
    assert m1 == m2 by {
      StoredFilenameParts(now1, rand1, originalname);
      StoredFilenameParts(now2, rand2, originalname);
      SameMiddle(FilenamePrefix, m1, m2, ext);
    }
    StemInjective(now1, k1, now2, k2);
  }

  lemma SameMiddle(p: string, m1: string, m2: string, q: string)
    requires p + m1 + q == p + m2 + q
    ensures m1 == m2
  {
    var s := p + m1 + q;
    assert m1 == s[|p|..|s| - |q|];
  }

  /** '<n>-<k>' determines both numbers. */
  lemma StemInjective(n1: nat, k1: nat, n2: nat, k2: nat)
    requires Decimal(n1) + "-" + Decimal(k1) == Decimal(n2) + "-" + Decimal(k2)
    ensures n1 == n2 && k1 == k2
  {
    DigitsOnly(Decimal(n1));
    DigitsOnly(Decimal(n2));
    SplitAtFirstDash(Decimal(n1), Decimal(k1), Decimal(n2), Decimal(k2));
    DecimalInjective(n1, n2);
    DecimalInjective(k1, k2);
  }

  /** The first '-' separates the two halves. */
  lemma SplitAtFirstDash(a: string, b: string, c: string, d: string)
    requires '-' !in a && '-' !in c
    requires a + "-" + b == c + "-" + d
    ensures a == c && b == d
  {
    var s := a + "-" + b;
    assert Split("-" + b, '-')[0] == "";
    assert Split("-" + d, '-')[0] == "";
    SplitPrefix(a, "-" + b, '-');
    SplitPrefix(c, "-" + d, '-');
    assert a + ("-" + b) == s && c + ("-" + d) == s;
    assert a == Split(s, '-')[0] == c;
    assert b == s[|a| + 1..] == d;
  }

  // ---------------------------------------------------------------------------
  // The router

  datatype Verb = Get | Post | Put | Delete

  /** The two route paths: '/' and '/:id'. */
  datatype Pattern = Collection | Item

  datatype Handler = GetMemories | CreateMemory | GetMemory | UpdateMemory | DeleteMemory

  datatype Middleware = UploadSingle(field: string) | Protect

  datatype Route = Route(verb: Verb, pattern: Pattern, middleware: seq<Middleware>, handler: Handler)

  /** The router of routes/memories.js, in declaration order. */
  const Table: seq<Route> := [
    Route(Get, Collection, [], GetMemories),
    Route(Post, Collection, [UploadSingle(MediaField)], CreateMemory),
    Route(Get, Item, [], GetMemory),
    Route(Put, Item, [UploadSingle(MediaField)], UpdateMemory),
    Route(Delete, Item, [], DeleteMemory)
  ]

  datatype Params = NoParams | IdParam(id: string)

  /** Express path matching, not strict: '/' matches "" and "/"; '/:id'
      matches one non-empty segment, with or without a trailing '/'. */
  function MatchPath(pattern: Pattern, path: string): (r: Option<Params>)
    ensures pattern == Collection ==> (r.Some? <==> path == "" || path == "/")
    ensures r.Some? && pattern == Item ==>
      && r.value.IdParam? && r.value.id != "" && '/' !in r.value.id
      && (path == "/" + r.value.id || path == "/" + r.value.id + "/")
  {
    match pattern
    case Collection => if path == "" || path == "/" then Some(NoParams) else None
    case Item =>
      if |path| >= 2 && path[0] == '/' then
        var rest := path[1..];
        var segment := if rest[|rest| - 1] == '/' then rest[..|rest| - 1] else rest;
        if segment != "" && '/' !in segment then Some(IdParam(segment)) else None
      else None
  }

  predicate Handles(route: Route, verb: Verb, path: string)
  {
    route.verb == verb && MatchPath(route.pattern, path).Some?
  }

  /** No route before index `i` handles the request. */
  predicate FirstHandler(routes: seq<Route>, i: nat, verb: Verb, path: string)
    requires i <= |routes|
  {
    forall j :: 0 <= j < i ==> !Handles(routes[j], verb, path)
  }

  /** The first route of `routes` that handles the request, with its params. */
  function DispatchIn(routes: seq<Route>, verb: Verb, path: string): (r: Option<(Route, Params)>)
    ensures r.Some? ==>
      && Handles(r.value.0, verb, path)
      && MatchPath(r.value.0.pattern, path) == Some(r.value.1)
    ensures r.None? <==> forall i :: 0 <= i < |routes| ==> !Handles(routes[i], verb, path)
    ensures r.Some? ==> exists i :: 0 <= i < |routes| && routes[i] == r.value.0 && FirstHandler(routes, i, verb, path)
  {
    if |routes| == 0 then None
    else if Handles(routes[0], verb, path) then Some((routes[0], MatchPath(routes[0].pattern, path).value))
    else
      var r := DispatchIn(routes[1..], verb, path);
      assert r.Some? ==> exists i :: 1 <= i < |routes| && routes[i] == r.value.0 && FirstHandler(routes, i, verb, path) by {
        if r.Some? {
          var i :| 0 <= i < |routes[1..]| && routes[1..][i] == r.value.0 && FirstHandler(routes[1..], i, verb, path);
          assert FirstHandler(routes, i + 1, verb, path) by {
            forall j | 0 <= j < i + 1 ensures !Handles(routes[j], verb, path) {
              if j > 0 { assert routes[j] == routes[1..][j - 1]; }
            }
          }
        }
      }
      r
  }

  function Dispatch(verb: Verb, path: string): Option<(Route, Params)>
  {
    DispatchIn(Table, verb, path)
  }

  /** '/' serves GET (the listing) and POST (create, with the upload), and
      nothing else. */
  lemma DispatchCollection(verb: Verb, path: string)
    requires path == "" || path == "/"
    ensures verb == Get ==> Dispatch(verb, path) == Some((Table[0], NoParams))
    ensures verb == Post ==> Dispatch(verb, path) == Some((Table[1], NoParams))
    ensures verb == Put || verb == Delete ==> Dispatch(verb, path).None?
  {
  }

  /** '/:id' serves GET, PUT (with the upload) and DELETE with the id, and
      not POST. */
  lemma DispatchItem(verb: Verb, id: string)
    requires id != "" && '/' !in id
    ensures verb == Get ==> Dispatch(verb, "/" + id) == Some((Table[2], IdParam(id)))
    ensures verb == Put ==> Dispatch(verb, "/" + id) == Some((Table[3], IdParam(id)))
    ensures verb == Delete ==> Dispatch(verb, "/" + id) == Some((Table[4], IdParam(id)))
    ensures verb == Post ==> Dispatch(verb, "/" + id).None?
  {
    var path := "/" + id;
    assert path[1..] == id;
    assert path != "" && path != "/";
  }

  /** '/:id' takes the id from "/" + id, with or without a trailing '/'. */
  lemma MatchItem(id: string)
    requires id != "" && '/' !in id
    ensures MatchPath(Item, "/" + id) == Some(IdParam(id))
    ensures MatchPath(Item, "/" + id + "/") == Some(IdParam(id))
  {
    var p, q := "/" + id, "/" + id + "/";
    assert p[1..] == id;
    assert q[1..] == id + "/" && (id + "/")[..|id|] == id;
  }

  /** Only POST and PUT take the upload, always the single field `media`, and
      no route runs the bearer-token guard. */
  lemma TableMiddleware()
    ensures forall i :: 0 <= i < |Table| ==> Protect !in Table[i].middleware
    ensures forall i :: 0 <= i < |Table| ==>
      (Table[i].middleware == [UploadSingle(MediaField)] <==> Table[i].verb in {Post, Put})
    ensures forall i :: 0 <= i < |Table| ==>
      (Table[i].middleware == [] <==> Table[i].verb !in {Post, Put})
  {
  }
}
