/** `generateColorFilesData(file)` and `getFile(file)` over an abstract file store.
    The directories of the store (path to listing) change; the sizes that
    `statSync` reports and the texts that `readFileSync` returns do not. */
module Catalog {
  import opened Results
  import opened Naming
  import opened Variants

  /** Directory path to its entries, in listing order. */
  type Dirs = map<string, seq<string>>

  /** The detail object, `{name, slug, uri, size, svg, colors}`. */
  datatype FileDetail = FileDetail(name: string, slug: string, uri: string, size: real, svg: string, colors: seq<ColorEntry>)

  /** What a call yields, the directories afterwards and the toFile targets it wrote, in order. */
  datatype Step<T> = Step(result: Result<T>, dirs: Dirs, renders: seq<string>)

  /** The canonical raster of an asset, `assets/png/{file}.png`. */
  function PngPath(file: string): string
  {
    "assets/png/" + file + ".png"
  }

  /** The canonical vector source of an asset, `assets/svg/{file}.svg`. */
  function SvgPath(file: string): string
  {
    "assets/svg/" + file + ".svg"
  }

  /** The effect on the directories of writing `name` into `dir`: a new entry is
      appended, an existing one is overwritten in place, and a write into a missing
      directory fails and is only logged. */
  function Write(dirs: Dirs, dir: string, name: string): (after: Dirs)
    ensures after.Keys == dirs.Keys
    ensures forall d :: d in dirs && d != dir ==> after[d] == dirs[d]
    ensures dir in dirs ==> name in after[dir] && |dirs[dir]| <= |after[dir]| <= |dirs[dir]| + 1
    ensures dir in dirs ==> after[dir][..|dirs[dir]|] == dirs[dir]
  {
    if dir !in dirs || name in dirs[dir] then dirs else dirs[dir := dirs[dir] + [name]]
  }

  /** The effect of writing the names into `dir` one after the other. */
  function WriteAll(dirs: Dirs, dir: string, names: seq<string>): Dirs
  {
    if names == [] then dirs else Write(WriteAll(dirs, dir, names[..|names| - 1]), dir, names[|names| - 1])
  }

  /** A run of writes creates and removes no directory, changes only `dir`, keeps
      what `dir` listed before, in front, and leaves every name in its listing. */
  lemma {:induction false} WriteAllFrame(dirs: Dirs, dir: string, names: seq<string>)
    ensures WriteAll(dirs, dir, names).Keys == dirs.Keys
    ensures forall d :: d in dirs && d != dir ==> WriteAll(dirs, dir, names)[d] == dirs[d]
    ensures dir in dirs ==> forall i :: 0 <= i < |names| ==> names[i] in WriteAll(dirs, dir, names)[dir]
    ensures dir in dirs ==> |dirs[dir]| <= |WriteAll(dirs, dir, names)[dir]|
                            && WriteAll(dirs, dir, names)[dir][..|dirs[dir]|] == dirs[dir]
    decreases |names|
  {
    if names != [] {
      var n := |names| - 1;
      WriteAllFrame(dirs, dir, names[..n]);
      var prev := WriteAll(dirs, dir, names[..n]);
      if dir in dirs {
        assert prev[dir][..|dirs[dir]|] == dirs[dir];
        assert WriteAll(dirs, dir, names)[dir][..|prev[dir]|] == prev[dir];
        assert forall i :: 0 <= i < n ==> names[i] == names[..n][i];
      }
    }
  }

  /** `mkdirSync(assets/colors/{file})`: the new directory is empty and, when the
      parent is part of the store, its listing gains the entry `file`. */
  function Mkdir(dirs: Dirs, file: string): (after: Dirs)
    ensures after.Keys == dirs.Keys + {ColorDir(file)}
    ensures after[ColorDir(file)] == []
    ensures COLORS_DIR in dirs ==>
      after[COLORS_DIR] == (if file in dirs[COLORS_DIR] then dirs[COLORS_DIR] else dirs[COLORS_DIR] + [file])
    ensures forall d :: d in dirs && d != ColorDir(file) && d != COLORS_DIR ==> after[d] == dirs[d]
  {
    ColorDirsDistinct(file, file + "/");
    var parent := if COLORS_DIR in dirs && file !in dirs[COLORS_DIR] then dirs[COLORS_DIR := dirs[COLORS_DIR] + [file]] else dirs;
    parent[ColorDir(file) := []]
  }

  /** `generateColorFilesData(file)`: reading the vector source throws when it is
      missing; otherwise one variant is written per palette colour and, since the
      `.map` callback returns nothing, the result is one `undefined` per colour. */
  function Generate(dirs: Dirs, texts: map<string, string>, file: string): (g: Step<seq<ColorEntry>>)
    ensures g.result.Ok? <==> SvgPath(file) in texts
    ensures g.result.Err? ==> g.result.error == NoEntry(SvgPath(file)) && g.dirs == dirs && g.renders == []
    ensures g.result.Ok? ==> |g.result.value| == |g.renders| == |PALETTE|
    ensures g.dirs.Keys == dirs.Keys
    ensures forall d :: d in dirs && d != ColorDir(file) ==> g.dirs[d] == dirs[d]
  {
    if SvgPath(file) !in texts then Step(Err(NoEntry(SvgPath(file))), dirs, [])
    else
      WriteAllFrame(dirs, ColorDir(file), VariantFileNames(file));
      Step(Ok(Placeholders(|PALETTE|)), WriteAll(dirs, ColorDir(file), VariantFileNames(file)), VariantPaths(file))
  }

  /** The object literal of `getFile`: the display name (which can throw), the
      uri, the size, the vector source text (whose read can throw) and the colours. */
  function Detail(file: string, size: real, texts: map<string, string>, colors: seq<ColorEntry>): (r: Result<FileDetail>)
    ensures r.Ok? <==> TitleCase(Slug(file)).Ok? && SvgPath(file) in texts
    ensures TitleCase(Slug(file)).Err? ==> r == Err(TypeError)
    ensures r.Ok? ==> && Ok(r.value.name) == TitleCase(Slug(file))
                      && r.value.slug == file
                      && r.value.uri == ORIGIN + "/" + PngPath(file)
                      && r.value.size == size
                      && r.value.svg == texts[SvgPath(file)]
                      && r.value.colors == colors
  {
    match TitleCase(Slug(file))
    case Err(e) => Err(e)
    case Ok(name) =>
      if SvgPath(file) !in texts then Err(NoEntry(SvgPath(file)))
      else Ok(FileDetail(name, file, ORIGIN + "/assets/png/" + file + ".png", size, texts[SvgPath(file)], colors))
  }

  /** `getFile(file)`: `statSync` of the raster throws first; then the cache decision
      on the colour directory (absent: create it and generate; non-empty: describe its
      entries; empty: generate); then the detail. */
  function GetFileOutcome(dirs: Dirs, sizes: map<string, nat>, texts: map<string, string>, file: string): (o: Step<FileDetail>)
    ensures PngPath(file) !in sizes ==> o == Step(Err(NoEntry(PngPath(file))), dirs, [])
    ensures o.result.Ok? ==> o.result.value.slug == file && o.result.value.size * 1000.0 == sizes[PngPath(file)] as real
    ensures ColorDir(file) in dirs && dirs[ColorDir(file)] != [] ==> o.dirs == dirs && o.renders == []
  {
    var png := PngPath(file);
    if png !in sizes then Step(Err(NoEntry(png)), dirs, [])
    else
      var dir := ColorDir(file);
      var colors :=
        if dir !in dirs then Generate(Mkdir(dirs, file), texts, file)
        else if |dirs[dir]| > 0 then Step(Ok(ListedEntries(file, dirs[dir])), dirs, [])
        else Generate(dirs, texts, file);
      if colors.result.Err? then Step(Err(colors.result.error), colors.dirs, colors.renders)
      else Step(Detail(file, SizeInKb(sizes[png]), texts, colors.result.value), colors.dirs, colors.renders)
  }

  /** The asset files as the server sees them. */
  class FileStore {
    /** Every directory's entries; `mkdirSync` and the variant writes change them. */
    var dirs: Dirs
    /** The byte size of every file `statSync` can reach, by path. */
    const sizes: map<string, nat>
    /** The content of every file `readFileSync` can read, by path. */
    const texts: map<string, string>
    /** The toFile targets written so far, in order. */
    ghost var renders: seq<string>

    constructor (dirs0: Dirs, sizes0: map<string, nat>, texts0: map<string, string>)
      ensures dirs == dirs0 && sizes == sizes0 && texts == texts0 && renders == []
    {
      dirs := dirs0;
      sizes := sizes0;
      texts := texts0;
      renders := [];
    }

    /** `sharp(svgFile).tint(color.rgb).toFile(...)`, taken as completing at once:
        the variant's name is added to the asset's colour directory. */
    method Render(file: string, color: Color)
      modifies this
      ensures dirs == Write(old(dirs), ColorDir(file), VariantFileName(file, color.name))
      ensures renders == old(renders) + [VariantPath(file, color.name)]
    {
      var dir := ColorDir(file);
      var name := VariantFileName(file, color.name);
      if dir in dirs && name !in dirs[dir] {
        dirs := dirs[dir := dirs[dir] + [name]];
      }
      renders := renders + [VariantPath(file, color.name)];
    }

    /** `generateColorFilesData(file)`: one render per palette colour, in order,
        each contributing `undefined` to the returned array. */
    method GenerateColorFilesData(file: string) returns (r: Result<seq<ColorEntry>>)
      modifies this
      ensures var g := Generate(old(dirs), texts, file);
        r == g.result && dirs == g.dirs && renders == old(renders) + g.renders
    {
      if SvgPath(file) !in texts {
        return Err(NoEntry(SvgPath(file)));
      }
      var names := VariantFileNames(file);
      var paths := VariantPaths(file);
      var entries: seq<ColorEntry> := [];
      var i := 0;
      while i < |PALETTE|
        invariant 0 <= i <= |PALETTE|
        invariant dirs == WriteAll(old(dirs), ColorDir(file), names[..i])
        invariant renders == old(renders) + paths[..i]
        invariant entries == Placeholders(i)
      {
        Render(file, PALETTE[i]);
        assert names[..i + 1][..i] == names[..i];
        assert paths[..i + 1] == paths[..i] + [paths[i]];
        entries := entries + [Undefined];
        i := i + 1;
      }
      assert names[..i] == names && paths[..i] == paths;
      r := Ok(entries);
    }

    /** `getFile(file)`. */
    method GetFile(file: string) returns (r: Result<FileDetail>)
      modifies this
      ensures var o := GetFileOutcome(old(dirs), sizes, texts, file);
        r == o.result && dirs == o.dirs && renders == old(renders) + o.renders
    {
      var png := PngPath(file);
      if png !in sizes {
        return Err(NoEntry(png));
      }
      var size := SizeInKb(sizes[png]);
      var dir := ColorDir(file);
      var colors: seq<ColorEntry> := [];
      if dir !in dirs {
        dirs := Mkdir(dirs, file);
        var g := GenerateColorFilesData(file);
        if g.Err? {
          return Err(g.error);
        }
        colors := g.value;
      } else {
        var listing := dirs[dir];
        if |listing| > 0 {
          var i := 0;
          while i < |listing|
            invariant 0 <= i <= |listing|
            invariant colors == ListedEntries(file, listing[..i])
          {
            colors := colors + [Listed(ListedEntry(file, listing[i]))];
            i := i + 1;
          }
          assert listing[..i] == listing;
        } else {
          var g := GenerateColorFilesData(file);
          if g.Err? {
            return Err(g.error);
          }
          colors := g.value;
        }
      }
      r := Detail(file, size, texts, colors);
    }
  }
}
