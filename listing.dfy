/** `getFiles(dir)`: one summary per entry of a directory of canonical rasters. */
module Listing {
  import opened Results
  import opened Naming

  /** The object returned for one file, `{name, slug, file, path, uri, size}`. */
  datatype FileSummary = FileSummary(name: string, slug: string, file: string, path: string, uri: string, size: real)

  /** `path.join(dir, file)` for a plain file name. */
  function PathJoin(dir: string, file: string): (path: string)
    ensures |path| == |dir| + 1 + |file|
    ensures path[..|dir|] == dir && path[|dir|] == '/' && path[|dir| + 1..] == file
  {
    dir + "/" + file
  }

  /** The `.map` callback for one entry: the display name (which can throw),
      then `statSync` (which throws for a missing path), then the object. */
  function Summary(dir: string, file: string, sizes: map<string, nat>): (r: Result<FileSummary>)
    ensures r.Ok? <==> TitleCase(Slug(file)).Ok? && PathJoin(dir, file) in sizes
  {
    match TitleCase(Slug(file))
    case Err(e) => Err(e)
    case Ok(name) =>
      var path := PathJoin(dir, file);
      if path !in sizes then Err(NoEntry(path))
      else Ok(FileSummary(name, Slug(file), file, path, ORIGIN + "/assets/png/" + file, SizeInKb(sizes[path])))
  }

  /** `files.map(...)`: the summaries in order, or the first exception thrown. */
  function Summaries(dir: string, files: seq<string>, sizes: map<string, nat>): (r: Result<seq<FileSummary>>)
    ensures r.Ok? <==> forall i :: 0 <= i < |files| ==> Summary(dir, files[i], sizes).Ok?
    ensures r.Ok? ==> |r.value| == |files|
    ensures r.Ok? ==> forall i :: 0 <= i < |files| ==> Summary(dir, files[i], sizes) == Ok(r.value[i])
    ensures r.Err? ==>
      exists i :: 0 <= i < |files| && Summary(dir, files[i], sizes) == Err(r.error) &&
        forall j :: 0 <= j < i ==> Summary(dir, files[j], sizes).Ok?
  {
    if files == [] then Ok([])
    else
      match Summary(dir, files[0], sizes)
      case Err(e) => Err(e)
      case Ok(s) =>
        match Summaries(dir, files[1..], sizes)
        case Err(e) =>
          assert forall i :: 0 <= i < |files[1..]| ==> files[1..][i] == files[i + 1];
          Err(e)
        case Ok(rest) => Ok([s] + rest)
  }

  /** `getFiles(dir)` on a store whose directories are `dirs`: a missing directory
      rejects, otherwise the entries of the listing are mapped. */
  function GetFiles(dirs: map<string, seq<string>>, sizes: map<string, nat>, dir: string): (r: Result<seq<FileSummary>>)
    ensures dir !in dirs ==> r == Err(NoEntry(dir))
  {
    if dir !in dirs then Err(NoEntry(dir)) else Summaries(dir, dirs[dir], sizes)
  }

  /** How the `readdir` callback of `getFiles` settles, as the code is written: the
      state of the promise (`None` while it stays pending) and the exception, if any,
      that escapes the callback uncaught. */
  datatype Settlement = Settlement(promise: Option<Result<seq<FileSummary>>>, uncaught: Option<Error>)

  /** `getFiles(dir)` as written. `if (err) reject(err);` has no `return`, so after
      rejecting, the callback goes on to `files.map` with `files` undefined, which
      throws a TypeError. An exception from an entry escapes the callback before
      `resolve`, and the promise stays pending. */
  function GetFilesAsWritten(dirs: map<string, seq<string>>, sizes: map<string, nat>, dir: string): (r: Settlement)
    ensures dir !in dirs ==> r.promise == Some(Err(NoEntry(dir))) && r.uncaught == Some(TypeError)
    ensures dir in dirs ==> (r.uncaught.None? <==> GetFiles(dirs, sizes, dir).Ok?)
    ensures dir in dirs && r.uncaught.Some? ==> r.promise.None? && GetFiles(dirs, sizes, dir) == Err(r.uncaught.value)
    ensures r.uncaught.None? ==> r.promise == Some(GetFiles(dirs, sizes, dir))
  {
    if dir !in dirs then Settlement(Some(Err(NoEntry(dir))), Some(TypeError))
    else
      match Summaries(dir, dirs[dir], sizes)
      case Ok(v) => Settlement(Some(Ok(v)), None)
      case Err(e) => Settlement(None, Some(e))
  }

  /** The missing `return`: listing a missing directory both rejects with ENOENT
      and throws an uncaught TypeError, where the intended `getFiles` only rejects. */
  lemma MissingDirectoryAlsoThrows()
    ensures GetFilesAsWritten(map[], map[], "assets/png")
         == Settlement(Some(Err(NoEntry("assets/png"))), Some(TypeError))
    ensures GetFiles(map[], map[], "assets/png") == Err(NoEntry("assets/png"))
  {
  }

  /** A listing succeeds exactly when the directory exists and every entry has a
      slug without empty hyphen tokens and a size on record. */
  lemma GetFilesDefined(dirs: map<string, seq<string>>, sizes: map<string, nat>, dir: string)
    ensures GetFiles(dirs, sizes, dir).Ok? <==>
      dir in dirs && forall i :: 0 <= i < |dirs[dir]| ==>
        !HasEmptyToken(Slug(dirs[dir][i])) && PathJoin(dir, dirs[dir][i]) in sizes
  {
    if dir in dirs {
      forall i | 0 <= i < |dirs[dir]| {
        TitleCaseDefined(Slug(dirs[dir][i]));
      }
    }
  }

  /** A listing maps the directory one to one: same length and order; entry i
      names the i-th file, its slug has no `.`, its display name is the slug's title
      case, its uri is under `/assets/png/`, and its size times 1000 is the byte size. */
  lemma GetFilesEntries(dirs: map<string, seq<string>>, sizes: map<string, nat>, dir: string)
    requires GetFiles(dirs, sizes, dir).Ok?
    ensures dir in dirs
    ensures |GetFiles(dirs, sizes, dir).value| == |dirs[dir]|
    ensures forall i :: 0 <= i < |dirs[dir]| ==>
      var s := GetFiles(dirs, sizes, dir).value[i];
      var file := dirs[dir][i];
      && s.file == file
      && s.slug == Slug(file) && '.' !in s.slug
      && Ok(s.name) == TitleCase(s.slug)
      && s.path == PathJoin(dir, file)
      && s.uri == ORIGIN + "/assets/png/" + file
      && s.size * 1000.0 == sizes[s.path] as real
  {
  }
}
