# Icon catalog backend: a Dafny model of its naming, variant generation and variant cache

The backend serves a catalog of icons. Each icon is a canonical raster
`assets/png/{slug}.png` plus a vector source `assets/svg/{slug}.svg`. On first
lookup, the backend renders one tinted PNG per colour of a fixed palette (yellow,
red, blue, green) into the cache directory `assets/colors/{slug}/`. This project
models the deterministic core of `index.js`:

- **Naming** (`naming.dfy`). JavaScript's one-character `split` and `join`, the
  slug `file.split('.')[0]`, the display name (split on `-`, upper-case each
  token's first character, join with spaces) and the size `bytes / 1000`. An
  empty hyphen token makes `word[0]` undefined, so the display name throws a
  `TypeError`. The model returns that as an error value, not as a precondition.
- **Listing** (`listing.dfy`). `getFiles(dir)` maps each directory entry to a
  summary `{name, slug, file, path, uri, size}`. The result is either the list or
  the first exception thrown.
- **Variants** (`variants.dfy`). The ordered palette, the variant names
  `{slug}-{color}.png`, their write targets `assets/colors/{slug}/{slug}-{color}.png`,
  the descriptor built in the `.then` callback and the descriptor built from a
  directory entry.
- **Catalog** (`catalog.dfy`, `catalog_properties.dfy`). `generateColorFilesData`
  and `getFile` over an abstract file store, the class `FileStore`:
  - `dirs` maps each directory to its entries. `mkdirSync` and the variant writes
    change it.
  - `sizes` holds the byte sizes `statSync` reports, by path.
  - `texts` holds what `readFileSync` returns, by path.
  - The renderer `sharp(svg).tint(rgb).toFile(path)` is an abstract step. It adds
    the variant's name to the cache directory, and the ghost trace `renders`
    records the target.

  The methods are proved against the specification functions `Generate` and
  `GetFileOutcome`. These return the result, the directories afterwards and the
  write targets. The lemmas in `CatalogProperties` state the cache decision:
  - Absent directory: it is created and generation runs.
  - Non-empty directory: its entries are described and nothing is written.
  - Empty directory: generation runs.

  With these come "the directory exists afterwards", idempotence of a second call,
  and what a second call reports.

The model follows the code as written, including these behaviours:
- `getFile` trusts any non-empty cache directory. It does not check that the set
  is complete.
- The `.map` callback in `generateColorFilesData` has no `return`. A call that
  generates therefore reports four `undefined` colours, not four descriptors.
  Only the next call, which lists the directory, reports the descriptors
  (`CatalogProperties.SecondCallDescribesVariants`).
- `mkdirSync` creates the cache directory, so the listing of `assets/colors`
  gains the entry `{slug}` (`Catalog.Mkdir`).
- An unknown slug fails with the `ENOENT` of `statSync`, here
  `NoEntry("assets/png/{slug}.png")`. No dedicated not-found error exists.
- There is no single-flight generation and no archive building.

Errors are the `Result` values of module `Results`:
- `NoEntry(path)` for a missing file or directory.
- `TypeError` for the undefined `word[0]`.

Each operation evaluates the steps that can throw in the order the code does.
Writes complete at once, where the code leaves them as unawaited promises.

## Model

| member | source | states |
|---|---|---|
| Naming.JoinWith | index.js:23 | A join starts with the first word, and with two or more words the separator follows it. |
| Naming.Capitalize | index.js:23 | `word[0].toUpperCase() + word.slice(1)` of a non-empty word keeps its length, upper-cases the first character and keeps the rest. |
| Naming.CapitalizeAll | index.js:23 | The `.map` gives one capitalized word per token, in order. |
| Naming.Split | index.js:23 | `split` gives at least one token. No token contains the separator. The first token is the longest separator-free prefix: it is followed by the separator or ends the string. |
| Naming.JoinSplit | index.js:23 | Joining the tokens of a split with the same separator gives back the string. |
| Naming.SplitJoin | index.js:23 | Splitting a join of separator-free tokens gives back the tokens. |
| Naming.Slug | index.js:32 | The slug is a prefix of the file name that contains no `.`. It stops at the first `.` or at the end of the name. |
| Naming.SlugOfStem | index.js:108 | A dot-free stem followed by an extension starting with `.` has the stem as its slug. |
| Naming.SlugIdentity | index.js:123 | A name without `.` is its own slug. |
| Naming.Upper | index.js:23 | `toUpperCase` of one character maps `a`–`z` to `A`–`Z` and keeps every other character. |
| Naming.TitleCase | index.js:23 | The only exception the display name can raise is the `TypeError` of an undefined `word[0]`. |
| Naming.SplitEmptyTokens | index.js:23 | The first hyphen token is empty iff the slug is empty or starts with `-`. A later token is empty iff some `-` ends the slug or is followed by another `-`. |
| Naming.TitleCaseDefined | index.js:123 | The display name is defined iff the slug has no empty hyphen token: it is not empty, does not start or end with `-`, and contains no `--`. |
| Naming.TitleCaseAt | index.js:23 | The display name has the slug's length. Each `-` becomes a space, the first character of every token is upper-cased, and every other character is unchanged. |
| Naming.TitleCaseWords | index.js:23 | For a slug without spaces, splitting the display name on spaces gives the hyphen tokens, each capitalized. So there are as many words as tokens. |
| Naming.SizeInKb | index.js:27 | The reported size times 1000 is the byte size, and the size is non-negative. |
| Variants.ColorDir | index.js:91 | The cache directory of an asset is `assets/colors/` followed by the asset's name. |
| Variants.ColorDirsDistinct | index.js:91 | Different assets have different cache directories, and no cache directory is `assets/colors` itself. |
| Variants.VariantFileName | index.js:71 | A variant name has the length of `{file}-{color}.png`. For dot-free names, its slug is `{file}-{color}`. |
| Variants.VariantPathParts | index.js:65 | A write target lies directly in the asset's cache directory, and its last component is the variant name. |
| Variants.PaletteNames | index.js:51-56 | The palette has four colours. No two names have the same length. No name contains `.` or `/`. |
| Variants.VariantFileNames | index.js:71 | There is one variant name per palette colour, in palette order: `{file}-{color}.png`. |
| Variants.VariantPaths | index.js:65 | There is one write target per palette colour, in palette order: `assets/colors/{file}/{file}-{color}.png`. |
| Variants.VariantsDistinct | index.js:61-65 | The four variant names of an asset are pairwise distinct, and so are its four write targets. |
| Variants.VariantDescriptor | index.js:68-73 | A variant descriptor has `name == slug == file-color` and `file == slug + ".png"`, the variant name. Its uri is the origin followed by the write target. |
| Variants.ListedEntry | index.js:107-112 | A listed descriptor keeps the entry as `file`. Its name equals its slug, which has no `.` and is the entry up to its first `.`. Its uri is the origin, the cache directory and the entry. |
| Variants.ListedEntries | index.js:105-113 | A listing yields exactly one `colors` entry per directory entry. |
| Variants.Placeholders | index.js:61-78 | The placeholder list has the requested length. |
| Variants.ListedEntriesShape | index.js:107-112 | Entry i of a listing describes the i-th file. Its name equals its slug, which is the file name up to the first `.` and has no `.`. Its uri is under `/assets/colors/{file}/`. |
| Variants.ListedVariantIsDescriptor | index.js:107-112 | For a dot-free asset name, describing a listed variant file gives exactly the descriptor generation builds for it. |
| Variants.ListedVariantsAreDescriptors | index.js:105-113 | Listing the four variants of a dot-free asset gives the four variant descriptors, in palette order. |
| Variants.ListedEntriesPermutation | index.js:105-113 | Listings that are permutations of each other give descriptor lists that are permutations of each other. |
| Variants.ListedVariantsInAnyOrder | index.js:105-113 | A listing of the four variant names of a dot-free asset, in any order, gives each of the four variant descriptors exactly once. |
| Listing.PathJoin | index.js:34 | `path.join(dir, file)` is `dir`, one `/`, and `file`. |
| Listing.Summary | index.js:21-38 | One entry's summary exists iff its display name is defined and `statSync` finds `dir/file`. |
| Listing.Summaries | index.js:21-38 | The map succeeds iff every entry does. It then has one summary per entry, in order. Otherwise the error is that of the first failing entry. |
| Listing.GetFiles | index.js:14-16 | A missing directory rejects with its `ENOENT`. |
| Listing.GetFilesDefined | index.js:14-38 | A listing succeeds iff the directory exists and every entry has a defined display name and a size on record. |
| Listing.GetFilesAsWritten | index.js:14-41 | The callback as written: a missing directory rejects with its `ENOENT` and then also throws an uncaught `TypeError`. For an existing directory, an entry that throws leaves the promise pending with the exception uncaught. Otherwise the promise settles as `GetFiles` says. |
| Listing.MissingDirectoryAlsoThrows | index.js:16-21 | For an empty store and `assets/png`, the callback both rejects and throws. |
| Listing.GetFilesEntries | index.js:21-38 | A listing has the directory's length and order. Entry i has the i-th name, a dot-free slug, the title-cased name and the uri `/assets/png/{file}`. Its size times 1000 is the byte size. |
| Catalog.Write | index.js:65 | One write keeps every directory. It changes only the target directory, keeps its listing as a prefix, lists the name afterwards and adds at most one entry. A write into a missing directory changes nothing. |
| Catalog.WriteAllFrame | index.js:61-65 | A run of writes keeps every directory and changes only the target. The target keeps its old listing in front and lists every written name. |
| Catalog.Mkdir | index.js:94-95 | `mkdirSync` adds the empty cache directory. When `assets/colors` is present, and the asset is not already listed there, the asset is appended to its listing. Every other directory is unchanged. |
| Catalog.Generate | index.js:47-79 | Generation succeeds iff the vector source exists. On failure it is the source's `ENOENT`, with nothing written. On success there is one entry and one write per colour. No directory is created or removed, and only the cache directory changes. |
| Catalog.Detail | index.js:122-129 | The detail exists iff the display name is defined and the vector source exists. An undefined name is the `TypeError`, raised first. The detail's fields are the title-cased name, `slug == file`, the raster uri, the size, the source text and the given colours. |
| Catalog.GetFileOutcome | index.js:82-133 | Without the raster, `getFile` fails with its `ENOENT` and changes nothing. A result has `slug == file` and the size in kilobytes. A non-empty cache directory leaves the store as it was and writes nothing. |
| Catalog.FileStore.Render | index.js:63-65 | A render records its write target and adds the variant name to the cache directory. If that directory is missing, nothing changes. |
| Catalog.FileStore.GenerateColorFilesData | index.js:47-79 | The result, the new directories and the writes are those of `Generate`: one render per colour, in palette order, each contributing `undefined`. |
| Catalog.FileStore.GetFile | index.js:82-133 | The result, the new directories and the writes are those of `GetFileOutcome`. |
| CatalogProperties.WriteAllMissing | index.js:65-77 | Writes into a missing directory fail, are only logged, and change nothing. |
| CatalogProperties.WriteAllFresh | index.js:61-65 | Writing distinct new names into a directory appends them in order and changes no other directory. |
| CatalogProperties.GenerateWritesPalette | index.js:59-78 | Without a vector source, generation fails and writes nothing. Otherwise it writes exactly once per colour, in palette order, to four distinct targets `assets/colors/{file}/{file}-{color}.png`, and returns four `undefined` entries. |
| CatalogProperties.GenerateIntoMissing | index.js:61-78 | Generation with a missing cache directory attempts the four writes, changes no directory and reports four `undefined` entries. |
| CatalogProperties.GenerateIntoEmpty | index.js:114-117 | Generation into an empty cache directory leaves exactly the four variants in it and changes no other directory. |
| CatalogProperties.UnknownAsset | index.js:87 | Without a canonical raster, `getFile` rejects with that file's `ENOENT` and changes nothing. |
| CatalogProperties.CacheMiss | index.js:94-118 | The directory is absent or empty. It is created if needed, which also lists the asset in `assets/colors`, and generation runs. Afterwards the directory holds the four variants and four writes were made, or it is empty if there is no vector source. The result exists iff the vector source exists and the display name is defined, and its colours are four `undefined` entries. |
| CatalogProperties.CacheHit | index.js:100-113 | The directory is non-empty. No write happens and no directory changes. The colours are one listed descriptor per existing entry, in order, with no completeness check. |
| CatalogProperties.DirectoryExistsAfter | index.js:94-118 | Whenever the raster exists, the cache directory exists afterwards and no directory is removed. Only `assets/colors` can change besides it: it gains the asset's entry exactly when the cache directory was created and the asset was not already listed. |
| CatalogProperties.DetailFields | index.js:122-129 | The detail has `slug == file` and uri `/assets/png/{file}.png`. It also has the title-cased name, the size in kilobytes and the vector source text. Its colours are exactly the list the cache decision chose. |
| CatalogProperties.GetFileIdempotent | index.js:94-118 | A second `getFile` on the store the first one left writes nothing and changes no directory. |
| CatalogProperties.SecondCallDescribesVariants | index.js:100-113 | After a generating first call for a dot-free asset, a second call reports the four descriptors `{file}-yellow`, `{file}-red`, `{file}-blue` and `{file}-green`, in that order. |
| CatalogProperties.CachedVariantsInAnyOrder | index.js:100-113 | A cache directory that holds exactly the four variant names, in any order, is a hit: nothing changes, and the colours are the four variant descriptors, each once. |

## Left out

- The Express app and its routes, static serving and `app.listen` (index.js:6-8, 136-164) are HTTP plumbing outside the core.
- Rasterisation and tinting by `sharp`, and the bytes of the PNG and SVG files, come from a foreign library. A render only adds a file name to the store. A render that fails for some other reason (a malformed vector source) is not modelled.
- Promises, callbacks and the unawaited `.then`/`.catch` chains are left out. Writes complete synchronously, and `console.error` logging is not modelled.
- Listing.GetFiles: an exception thrown by an entry inside the `readdir` callback escapes uncaught in the code, and the promise stays pending. `GetFiles` reports it as a rejection instead. `Listing.GetFilesAsWritten` models the escape.
- Concurrency is left out: the code has no locking or single-flight generation, and simultaneous requests are not modelled.
- Naming.SizeInKb: the size is an exact real quotient, not an IEEE double with its rounding.
- Naming.Upper: it maps only `a`–`z`. JavaScript's `toUpperCase` also maps other letters and can lengthen a string (`ß` becomes `SS`). With such letters, `TitleCaseAt`'s length property would not hold.
- `readdir` order depends on the file system. In the model, a directory lists its entries in the stored order, and new entries are appended.
- CatalogProperties.SecondCallDescribesVariants: the palette order it states comes from the model's append order of new entries, not from the code. `CatalogProperties.CachedVariantsInAnyOrder` states the order-free property.
- `path.join` normalisation (`..`, duplicate `/`) and the difference between `__dirname` and the working directory are left out. Every path is relative to one root, and slugs are plain file-name segments.
- `existsSync` on a plain file (where `readdirSync` would throw `ENOTDIR`) and `mkdirSync` failures (a missing `assets/colors`) are not modelled. The store holds directories only, and creating a cache directory always succeeds.
- JavaScript strings are UTF-16 code-unit sequences. The model uses `seq<char>`.

## Findings

| source | as written | input that shows it | evidently intended | confidence | as-written member | corrected member |
|---|---|---|---|---|---|---|
| index.js:16 | `if (err) reject(err);` has no `return`, so the callback goes on to call `files.map` on `undefined` | `getFiles` on a directory that does not exist: the promise rejects with `ENOENT`, then a `TypeError` escapes the callback uncaught (`Listing.MissingDirectoryAlsoThrows`) | reject with `ENOENT` and stop | not executed | Listing.GetFilesAsWritten | Listing.GetFiles |
