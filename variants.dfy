/** The fixed palette and the names `generateColorFilesData` and `getFile`
    give to the recoloured renditions of one asset. */
module Variants {
  import opened Naming

  /** A palette entry: its key in the `colors` object and the tint it stands for. */
  datatype Color = Color(name: string, rgb: string)

  /** The `colors` object in key order, which is the order `Object.keys` gives. */
  const PALETTE: seq<Color> := [
    Color("yellow", "rgb(223, 156, 49)"),
    Color("red", "rgb(239, 68, 68)"),
    Color("blue", "rgb(99, 102, 241)"),
    Color("green", "rgb(16, 185, 129)")
  ]

  /** The descriptor of a colour file, `{name, slug, file, uri}`. */
  datatype ColorFile = ColorFile(name: string, slug: string, file: string, uri: string)

  /** An element of the `colors` array of a detail: a descriptor built from a
      directory listing, or `undefined`, the value of a `.map` callback without `return`. */
  datatype ColorEntry = Listed(descriptor: ColorFile) | Undefined

  /** The parent of every colour directory. */
  const COLORS_DIR: string := "assets/colors"

  /** The directory that caches the variants of an asset, `assets/colors/{file}`. */
  function ColorDir(file: string): (dir: string)
    ensures |dir| == |COLORS_DIR| + 1 + |file|
    ensures dir[..|COLORS_DIR| + 1] == COLORS_DIR + "/" && dir[|COLORS_DIR| + 1..] == file
  {
    COLORS_DIR + "/" + file
  }

  /** Distinct assets never share a colour directory, and none is the parent itself. */
  lemma ColorDirsDistinct(a: string, b: string)
    requires a != b
    ensures ColorDir(a) != ColorDir(b)
    ensures ColorDir(a) != COLORS_DIR
  {
    assert ColorDir(a)[|COLORS_DIR| + 1..] == a;
  }

  /** The name of one variant, `{file}-{color}.png`. */
  function VariantFileName(file: string, color: string): (name: string)
    ensures |name| == |file| + |color| + 5
    ensures '.' !in file && '.' !in color ==> Slug(name) == file + "-" + color
  {
    var stem := file + "-" + color;
    if '.' !in file && '.' !in color then
      assert forall j :: 0 <= j < |stem| ==> stem[j] in file || stem[j] == '-' || stem[j] in color;
      SlugOfStem(stem, ".png");
      stem + ".png"
    else
      stem + ".png"
  }

  /** The target of `toFile`, `assets/colors/{file}/{file}-{color}.png`. */
  function VariantPath(file: string, color: string): (path: string)
  {
    ColorDir(file) + "/" + VariantFileName(file, color)
  }

  /** A variant's path lies directly inside the asset's colour directory and its
      last component is the variant's file name. */
  lemma VariantPathParts(file: string, color: string)
    ensures |VariantPath(file, color)| == |ColorDir(file)| + 1 + |file| + |color| + 5
    ensures VariantPath(file, color)[..|ColorDir(file)| + 1] == ColorDir(file) + "/"
    ensures VariantPath(file, color)[|ColorDir(file)| + 1..] == VariantFileName(file, color)
  {
    var k := |ColorDir(file)| + 1;
    assert (ColorDir(file) + "/" + VariantFileName(file, color))[..k] == ColorDir(file) + "/";
  }

  /** The variant names of an asset, one per palette colour, in palette order. */
  function VariantFileNames(file: string): (names: seq<string>)
    ensures |names| == |PALETTE|
    ensures forall i :: 0 <= i < |PALETTE| ==> names[i] == VariantFileName(file, PALETTE[i].name)
  {
    seq(|PALETTE|, i requires 0 <= i < |PALETTE| => VariantFileName(file, PALETTE[i].name))
  }

  /** The toFile targets of an asset, one per palette colour, in palette order. */
  function VariantPaths(file: string): (paths: seq<string>)
    ensures |paths| == |PALETTE|
    ensures forall i :: 0 <= i < |PALETTE| ==> paths[i] == VariantPath(file, PALETTE[i].name)
  {
    seq(|PALETTE|, i requires 0 <= i < |PALETTE| => VariantPath(file, PALETTE[i].name))
  }

  /** The palette has four colours with pairwise different names of pairwise different lengths. */
  lemma PaletteNames()
    ensures |PALETTE| == 4
    ensures forall i, j :: 0 <= i < j < |PALETTE| ==> |PALETTE[i].name| != |PALETTE[j].name|
    ensures forall i :: 0 <= i < |PALETTE| ==> '.' !in PALETTE[i].name && '/' !in PALETTE[i].name
  {
  }

  /** The four variant names of an asset are pairwise distinct, and so are the four toFile targets. */
  lemma VariantsDistinct(file: string)
    ensures forall i, j :: 0 <= i < j < |PALETTE| ==>
              VariantFileNames(file)[i] != VariantFileNames(file)[j]
    ensures forall i, j :: 0 <= i < j < |PALETTE| ==>
              VariantPaths(file)[i] != VariantPaths(file)[j]
  {
  }

  /** The descriptor the `.then` callback builds for a written variant. */
  function VariantDescriptor(file: string, color: string): (d: ColorFile)
    ensures d.name == d.slug == file + "-" + color
    ensures d.file == d.slug + ".png" == VariantFileName(file, color)
    ensures d.uri == ORIGIN + "/" + VariantPath(file, color)
  {
    ColorFile(file + "-" + color, file + "-" + color, file + "-" + color + ".png",
              ORIGIN + "/assets/colors/" + file + "/" + file + "-" + color + ".png")
  }

  /** The descriptor `getFile` pushes for an entry `colorFile` of the colour directory. */
  function ListedEntry(file: string, colorFile: string): (e: ColorFile)
    ensures e.file == colorFile
    ensures e.name == e.slug && '.' !in e.slug
    ensures |e.slug| <= |colorFile| && colorFile[..|e.slug|] == e.slug
    ensures |e.slug| < |colorFile| ==> colorFile[|e.slug|] == '.'
    ensures e.uri == ORIGIN + "/" + ColorDir(file) + "/" + colorFile
  {
    ColorFile(Slug(colorFile), Slug(colorFile), colorFile,
              ORIGIN + "/assets/colors/" + file + "/" + colorFile)
  }

  /** The `colors` array built from a listing of the colour directory, in listing order. */
  function ListedEntries(file: string, listing: seq<string>): (entries: seq<ColorEntry>)
    ensures |entries| == |listing|
  {
    seq(|listing|, i requires 0 <= i < |listing| => Listed(ListedEntry(file, listing[i])))
  }

  /** `count` copies of `undefined`. */
  function Placeholders(count: nat): (entries: seq<ColorEntry>)
    ensures |entries| == count
  {
    seq(count, _ => Undefined)
  }

  /** Each listed descriptor names its entry by the entry's slug, which has no `.`,
      and locates it under `assets/colors/{file}/`. */
  lemma ListedEntriesShape(file: string, listing: seq<string>)
    ensures forall i :: 0 <= i < |listing| ==>
      var e := ListedEntries(file, listing)[i];
      && e.Listed?
      && e.descriptor.file == listing[i]
      && e.descriptor.name == e.descriptor.slug
      && '.' !in e.descriptor.slug
      && listing[i] == e.descriptor.slug + listing[i][|e.descriptor.slug|..]
      && e.descriptor.uri == ORIGIN + "/assets/colors/" + file + "/" + listing[i]
  {
  }

  /** For an asset whose name has no `.`, listing a variant file gives exactly the
      descriptor that generation builds for it. */
  lemma ListedVariantIsDescriptor(file: string, color: string)
    requires '.' !in file && '.' !in color
    ensures ListedEntry(file, VariantFileName(file, color)) == VariantDescriptor(file, color)
  {
  }

  /** Listing the four variants of such an asset gives the four descriptors in palette order. */
  lemma ListedVariantsAreDescriptors(file: string)
    requires '.' !in file
    ensures ListedEntries(file, VariantFileNames(file))
         == seq(|PALETTE|, i requires 0 <= i < |PALETTE| => Listed(VariantDescriptor(file, PALETTE[i].name)))
  {
    PaletteNames();
    forall i | 0 <= i < |PALETTE|
      ensures ListedEntry(file, VariantFileNames(file)[i]) == VariantDescriptor(file, PALETTE[i].name)
    {
      ListedVariantIsDescriptor(file, PALETTE[i].name);
    }
  }

  /** Listing distributes over concatenation of listings. */
  lemma ListedEntriesConcat(file: string, a: seq<string>, b: seq<string>)
    ensures ListedEntries(file, a + b) == ListedEntries(file, a) + ListedEntries(file, b)
  {
    assert forall i :: 0 <= i < |a + b| ==> (a + b)[i] == if i < |a| then a[i] else b[i - |a|];
  }

  /** Two listings with the same entries, in whatever order, are described by the
      same descriptors, in the corresponding order. */
  lemma {:induction false} ListedEntriesPermutation(file: string, xs: seq<string>, ys: seq<string>)
    requires multiset(xs) == multiset(ys)
    ensures multiset(ListedEntries(file, xs)) == multiset(ListedEntries(file, ys))
    decreases |xs|
  {
    if xs != [] {
      var x := xs[0];
      assert x in multiset(ys);
      var k :| 0 <= k < |ys| && ys[k] == x;
      var rest := ys[..k] + ys[k + 1..];
      assert ys == ys[..k] + [x] + ys[k + 1..];
      assert xs == [x] + xs[1..];
      calc {
        multiset(ys);
        multiset(ys[..k] + [x] + ys[k + 1..]);
        multiset(ys[..k]) + multiset{x} + multiset(ys[k + 1..]);
        multiset(rest) + multiset{x};
      }
      assert multiset(xs) == multiset(xs[1..]) + multiset{x};
      assert multiset(xs[1..]) == multiset(xs) - multiset{x};
      assert multiset(rest) == multiset(ys) - multiset{x};
      ListedEntriesPermutation(file, xs[1..], rest);
      ListedEntriesConcat(file, [x], xs[1..]);
      ListedEntriesConcat(file, ys[..k], ys[k + 1..]);
      ListedEntriesConcat(file, ys[..k] + [x], ys[k + 1..]);
      ListedEntriesConcat(file, ys[..k], [x]);
    } else {
      assert ys == [];
    }
  }

  /** However `readdir` orders the four variants of a dot-free asset, their
      listing describes exactly the four variant descriptors, each once. */
  lemma ListedVariantsInAnyOrder(file: string, listing: seq<string>)
    requires '.' !in file
    requires multiset(listing) == multiset(VariantFileNames(file))
    ensures |ListedEntries(file, listing)| == |PALETTE|
    ensures multiset(ListedEntries(file, listing))
         == multiset(seq(|PALETTE|, i requires 0 <= i < |PALETTE| => Listed(VariantDescriptor(file, PALETTE[i].name))))
  {
    assert |listing| == |multiset(listing)| == |VariantFileNames(file)|;
    ListedEntriesPermutation(file, listing, VariantFileNames(file));
    ListedVariantsAreDescriptors(file);
  }
}
