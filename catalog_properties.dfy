/** What the cache decision of `getFile` guarantees, stated on its specification. */
module CatalogProperties {
  import opened Results
  import opened Naming
  import opened Variants
  import opened Catalog

  /** Writes into a missing directory change nothing. */
  lemma {:induction false} WriteAllMissing(dirs: Dirs, dir: string, names: seq<string>)
    requires dir !in dirs
    ensures WriteAll(dirs, dir, names) == dirs
    decreases |names|
  {
    if names != [] {
      WriteAllMissing(dirs, dir, names[..|names| - 1]);
    }
  }

  /** Writing a name a directory does not list appends it. */
  lemma WriteFresh(dirs: Dirs, dir: string, name: string)
    requires dir in dirs && name !in dirs[dir]
    ensures Write(dirs, dir, name) == dirs[dir := dirs[dir] + [name]]
  {
  }

  /** Writing distinct new names into an existing directory appends them in order
      and leaves every other directory as it was. */
  lemma {:induction false} WriteAllFresh(dirs: Dirs, dir: string, names: seq<string>)
    requires dir in dirs
    requires forall i, j :: 0 <= i < j < |names| ==> names[i] != names[j]
    requires forall i :: 0 <= i < |names| ==> names[i] !in dirs[dir]
    ensures WriteAll(dirs, dir, names) == dirs[dir := dirs[dir] + names]
    decreases |names|
  {
    if names == [] {
      assert dirs[dir] + names == dirs[dir];
    } else {
      var n := |names| - 1;
      var init := names[..n];
      WriteAllFresh(dirs, dir, init);
      var prev := dirs[dir := dirs[dir] + init];
      assert names[n] !in prev[dir];
      WriteFresh(prev, dir, names[n]);
      assert prev[dir] + [names[n]] == dirs[dir] + names;
    }
  }

  /** Generation reads the vector source first: without it nothing is written and
      the call fails; with it exactly one write per palette colour is attempted, in
      palette order, to `assets/colors/{file}/{file}-{color}.png`, the four targets
      are distinct, and the result is four `undefined` entries rather than descriptors. */
  lemma GenerateWritesPalette(dirs: Dirs, texts: map<string, string>, file: string)
    ensures SvgPath(file) !in texts ==>
      Generate(dirs, texts, file) == Step(Err(NoEntry(SvgPath(file))), dirs, [])
    ensures SvgPath(file) in texts ==>
      var g := Generate(dirs, texts, file);
      && g.result.Ok?
      && |g.result.value| == |PALETTE| == 4
      && (forall i :: 0 <= i < |PALETTE| ==> g.result.value[i] == Undefined)
      && |g.renders| == |PALETTE|
      && (forall i :: 0 <= i < |PALETTE| ==>
            g.renders[i] == "assets/colors/" + file + "/" + file + "-" + PALETTE[i].name + ".png")
      && (forall i, j :: 0 <= i < j < |PALETTE| ==> g.renders[i] != g.renders[j])
  {
    PaletteNames();
    VariantsDistinct(file);
    if SvgPath(file) in texts {
      forall i | 0 <= i < |PALETTE|
        ensures VariantPath(file, PALETTE[i].name)
             == "assets/colors/" + file + "/" + file + "-" + PALETTE[i].name + ".png"
      {
      }
    }
  }

  /** Generation into an empty colour directory leaves exactly the four variants in
      it, in palette order, and touches no other directory. */
  lemma GenerateIntoEmpty(dirs: Dirs, texts: map<string, string>, file: string)
    requires ColorDir(file) in dirs && dirs[ColorDir(file)] == []
    requires SvgPath(file) in texts
    ensures Generate(dirs, texts, file).dirs == dirs[ColorDir(file) := VariantFileNames(file)]
  {
    VariantsDistinct(file);
    WriteAllFresh(dirs, ColorDir(file), VariantFileNames(file));
    assert [] + VariantFileNames(file) == VariantFileNames(file);
  }

  /** An asset without a canonical raster is rejected before anything happens. */
  lemma UnknownAsset(dirs: Dirs, sizes: map<string, nat>, texts: map<string, string>, file: string)
    requires PngPath(file) !in sizes
    ensures GetFileOutcome(dirs, sizes, texts, file) == Step(Err(NoEntry(PngPath(file))), dirs, [])
  {
  }

  /** Generation for an asset whose colour directory is missing from the store
      attempts the four renders but changes no directory and still reports four
      `undefined` entries. */
  lemma GenerateIntoMissing(dirs: Dirs, texts: map<string, string>, file: string)
    requires ColorDir(file) !in dirs
    requires SvgPath(file) in texts
    ensures Generate(dirs, texts, file) == Step(Ok(Placeholders(|PALETTE|)), dirs, VariantPaths(file))
  {
    WriteAllMissing(dirs, ColorDir(file), VariantFileNames(file));
  }

  /** Cache miss (the colour directory is absent, or present and empty): the
      directory is created if needed and generation runs. With a vector source the
      directory then holds the four variants and the four writes are made; without
      one it is left empty and the call fails. The detail exists exactly when the
      vector source exists and the display name is defined, and its colours are
      four `undefined` entries. */
  lemma CacheMiss(dirs: Dirs, sizes: map<string, nat>, texts: map<string, string>, file: string)
    requires PngPath(file) in sizes
    requires ColorDir(file) !in dirs || dirs[ColorDir(file)] == []
    ensures var o := GetFileOutcome(dirs, sizes, texts, file);
      && o.dirs == (if ColorDir(file) in dirs then dirs else Mkdir(dirs, file))
                     [ColorDir(file) := if SvgPath(file) in texts then VariantFileNames(file) else []]
      && o.renders == (if SvgPath(file) in texts then VariantPaths(file) else [])
      && (o.result.Ok? <==> SvgPath(file) in texts && !HasEmptyToken(Slug(file)))
      && (o.result.Ok? ==> o.result.value.colors == Placeholders(|PALETTE|))
  {
    var dir := ColorDir(file);
    var created := if dir in dirs then dirs else Mkdir(dirs, file);
    var base := if dir !in dirs then Mkdir(dirs, file) else dirs;
    assert base == created[dir := []];
    TitleCaseDefined(Slug(file));
    if SvgPath(file) in texts {
      GenerateIntoEmpty(base, texts, file);
      assert base[dir := VariantFileNames(file)] == created[dir := VariantFileNames(file)];
    }
  }

  /** Cache hit (the colour directory holds files): nothing is written, no directory
      changes, and the detail, when it exists, has one listed descriptor per existing
      entry, in listing order, whatever those entries are. */
  lemma CacheHit(dirs: Dirs, sizes: map<string, nat>, texts: map<string, string>, file: string)
    requires PngPath(file) in sizes
    requires ColorDir(file) in dirs && dirs[ColorDir(file)] != []
    ensures var o := GetFileOutcome(dirs, sizes, texts, file);
      && o.dirs == dirs
      && o.renders == []
      && (o.result.Ok? <==> SvgPath(file) in texts && !HasEmptyToken(Slug(file)))
      && (o.result.Ok? ==> o.result.value.colors == ListedEntries(file, dirs[ColorDir(file)]))
  {
    TitleCaseDefined(Slug(file));
  }

  /** Whenever the raster exists the colour directory exists afterwards. The only
      other directory that can change is `assets/colors`, whose listing gains the
      entry `file` exactly when the colour directory had to be created and was not
      already listed; nothing is removed. */
  lemma DirectoryExistsAfter(dirs: Dirs, sizes: map<string, nat>, texts: map<string, string>, file: string)
    requires PngPath(file) in sizes
    ensures var o := GetFileOutcome(dirs, sizes, texts, file);
      && o.dirs.Keys == dirs.Keys + {ColorDir(file)}
      && (forall d :: d in dirs && d != ColorDir(file) && d != COLORS_DIR ==> o.dirs[d] == dirs[d])
      && (COLORS_DIR in dirs ==>
            o.dirs[COLORS_DIR]
            == if ColorDir(file) !in dirs && file !in dirs[COLORS_DIR]
               then dirs[COLORS_DIR] + [file] else dirs[COLORS_DIR])
  {
    var dir := ColorDir(file);
    ColorDirsDistinct(file, file + "/");
    if dir in dirs && dirs[dir] != [] {
      CacheHit(dirs, sizes, texts, file);
    } else {
      CacheMiss(dirs, sizes, texts, file);
    }
  }

  /** A returned detail has `slug == file`, the raster uri `/assets/png/{file}.png`,
      the title-cased name, the size in kilobytes, the vector source text, and as
      colours exactly the list the cache decision chose. */
  lemma DetailFields(dirs: Dirs, sizes: map<string, nat>, texts: map<string, string>, file: string)
    requires GetFileOutcome(dirs, sizes, texts, file).result.Ok?
    ensures var d := GetFileOutcome(dirs, sizes, texts, file).result.value;
      && PngPath(file) in sizes && SvgPath(file) in texts
      && d.slug == file
      && d.uri == ORIGIN + "/assets/png/" + file + ".png"
      && TitleCase(Slug(file)) == Ok(d.name)
      && d.size * 1000.0 == sizes[PngPath(file)] as real
      && d.svg == texts[SvgPath(file)]
      && d.colors == (if ColorDir(file) in dirs && dirs[ColorDir(file)] != []
                      then ListedEntries(file, dirs[ColorDir(file)])
                      else Placeholders(|PALETTE|))
  {
    if ColorDir(file) in dirs && dirs[ColorDir(file)] != [] {
      CacheHit(dirs, sizes, texts, file);
    } else {
      CacheMiss(dirs, sizes, texts, file);
    }
  }

  /** Idempotence: on the store a call leaves behind, a second call for the same
      asset writes nothing and changes no directory, whatever the first call did. */
  lemma GetFileIdempotent(dirs: Dirs, sizes: map<string, nat>, texts: map<string, string>, file: string)
    ensures var first := GetFileOutcome(dirs, sizes, texts, file);
      var second := GetFileOutcome(first.dirs, sizes, texts, file);
      second.dirs == first.dirs && second.renders == []
  {
    var first := GetFileOutcome(dirs, sizes, texts, file);
    var dir := ColorDir(file);
    if PngPath(file) in sizes {
      if dir in dirs && dirs[dir] != [] {
        CacheHit(dirs, sizes, texts, file);
        CacheHit(first.dirs, sizes, texts, file);
      } else {
        CacheMiss(dirs, sizes, texts, file);
        if SvgPath(file) in texts {
          PaletteNames();
          assert first.dirs[dir] != [];
          CacheHit(first.dirs, sizes, texts, file);
        } else {
          assert first.dirs[dir] == [];
          CacheMiss(first.dirs, sizes, texts, file);
          assert first.dirs[dir := []] == first.dirs;
        }
      }
    }
  }

  /** After a first call generated the variants of an asset whose name has no `.`,
      a second call lists them and reports the four descriptors, in palette order:
      `{file}-yellow`, `{file}-red`, `{file}-blue`, `{file}-green`. */
  lemma SecondCallDescribesVariants(dirs: Dirs, sizes: map<string, nat>, texts: map<string, string>, file: string)
    requires PngPath(file) in sizes && SvgPath(file) in texts
    requires ColorDir(file) !in dirs || dirs[ColorDir(file)] == []
    requires '.' !in file
    ensures var first := GetFileOutcome(dirs, sizes, texts, file);
      var second := GetFileOutcome(first.dirs, sizes, texts, file);
      && (second.result.Ok? <==> !HasEmptyToken(file))
      && (second.result.Ok? ==>
            second.result.value.colors
              == seq(|PALETTE|, i requires 0 <= i < |PALETTE| => Listed(VariantDescriptor(file, PALETTE[i].name))))
  {
    var first := GetFileOutcome(dirs, sizes, texts, file);
    CacheMiss(dirs, sizes, texts, file);
    PaletteNames();
    assert first.dirs[ColorDir(file)] == VariantFileNames(file);
    CacheHit(first.dirs, sizes, texts, file);
    ListedVariantsAreDescriptors(file);
    SlugIdentity(file);
  }

  /** A colour directory holding exactly the four variant files, in whatever order
      the directory lists them, is a cache hit whose colours are the four variant
      descriptors, each once. */
  lemma CachedVariantsInAnyOrder(dirs: Dirs, sizes: map<string, nat>, texts: map<string, string>, file: string)
    requires PngPath(file) in sizes && SvgPath(file) in texts
    requires ColorDir(file) in dirs && multiset(dirs[ColorDir(file)]) == multiset(VariantFileNames(file))
    requires '.' !in file
    ensures var o := GetFileOutcome(dirs, sizes, texts, file);
      && o.dirs == dirs && o.renders == []
      && (o.result.Ok? <==> !HasEmptyToken(file))
      && (o.result.Ok? ==>
            multiset(o.result.value.colors)
              == multiset(seq(|PALETTE|, i requires 0 <= i < |PALETTE| => Listed(VariantDescriptor(file, PALETTE[i].name)))))
  {
    var listing := dirs[ColorDir(file)];
    assert |listing| == |multiset(listing)| == |VariantFileNames(file)|;
    CacheHit(dirs, sizes, texts, file);
    ListedVariantsInAnyOrder(file, listing);
    SlugIdentity(file);
  }
}
