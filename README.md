# teamster in Dafny

teamster serves custom video-background images to the Teams client. It has
four parts:

- It walks an image directory depth-first.
- It makes a thumbnail for every image whose suffix is png, jpg, jpeg or gif,
  matched case-insensitively.
- It publishes a manifest (`/config.json`) of image entries. Each entry has a
  filetype, an id, a name, a source path and a thumbnail path. Jpeg and gif
  images are relabelled as jpg.
- It can point the Teams client's own configuration file at the server. The
  file is rewritten only when something changed.

This project models that core and proves what it does. It has seven modules:

- `Paths`: the parts of `pathlib` the code uses. These are a path's name, its
  last suffix and stem, its parent, `with_suffix("")` and `str()`. A path is
  a sequence of components relative to the image or thumbnail directory.
- `Catalog`: the pure side of `get_file_listing`. It covers which files are
  accepted, how each is classified, the entry built for it, and the list of
  items the depth-first walk finds (`NodeItems`). It also proves that this
  list is exactly the accepted files of the tree, each once.
- `Thumbnails`: `create_thumbnail` and the walk's "only when missing" guard.
  Both exist as functions over a directory value (`Create`, `Ensure`,
  `EnsureAll`) and as the class `ThumbnailDir`, which the walk updates in
  place.
- `Listing`: `get_file_listing` as the recursive walk it is. `Walk` is a
  method with a loop over each directory's children, proved against
  `EnsureAll` and `Catalog.Entries`. This module also holds the shaping of
  `/config.json`.
- `Resolver`: `find_file`, which maps a requested path back to a file.
- `TeamsConfig`: `update_config`. It merges three settings into the stored
  configuration and decides to rewrite the file by Python's `==`. Under that
  `==`, `True == 1` and `60 == 60.0`.
- `Wrappers`: `Option`, `Result` and `Outcome`.

The published path of a relabelled image follows the code at teamster.py:91.
The code appends ".jpg" to the whole relative path, so `sub/b.jpeg` is
published as `sub/b.jpeg.jpg`, with id `b`
(`Catalog.RelabelledEntryExample`). `find_file` then serves `sub/b.jpeg.jpg`
from `sub/b.jpeg` (`Resolver.ServesPublished`).

The walk in `Listing.Walk` takes the way missing thumbnail directories are
made as a parameter. `Plain` is the code's own `mkdir()` of the thumbnail's
parent. `Parents` is `mkdir(parents=True)`. See "Findings" for why the two
differ.

## Model

| member | source | states |
|---|---|---|
| Paths.Name | teamster.py:95-96 | `Path.name`, the last component, whose stem is the entry id; used by `Paths.SuffixShape` and `Paths.WithoutSuffixShape` |
| Paths.Parent | teamster.py:62 | `Path.parent`; used by `Thumbnails.CreateResult` |
| Paths.Suffix | teamster.py:80 | `PurePath.suffix` of a name; its meaning is stated by `Paths.SuffixShape` |
| Paths.Stem | teamster.py:95-96 | `PurePath.stem` of a name; its meaning is stated by `Paths.SuffixShape` |
| Paths.WithoutSuffix | teamster.py:105 | `with_suffix("")`; its meaning is stated by `Paths.WithoutSuffixShape` and `Paths.AppendThenStrip` |
| Paths.AppendSuffix | teamster.py:91 | the path whose name has text appended; its meaning is stated by `Paths.AppendedSuffix` and `Paths.JoinAppendSuffix` |
| Paths.Join | teamster.py:91 | `str()` of a relative path; related to appending by `Paths.JoinAppendSuffix` |
| Catalog.Ext | teamster.py:80 | the lower-cased extension; tied to the constants by `Catalog.TypeOfAgreesWithConstants` |
| Catalog.Classify | teamster.py:81 | the accepted type an extension names; tied to ACCEPTED_SUFFIXES by `Catalog.TypeOfAgreesWithConstants` |
| Catalog.TypeOf | teamster.py:80-83 | whether and as what a file is accepted; stated by `Catalog.TypeOfAgreesWithConstants` and the `TypeOf` examples |
| Catalog.Filetype | teamster.py:94 | `new_ext or ext`; stated by `Catalog.FiletypeOfAccepted` and `Catalog.TypeOfAgreesWithConstants` |
| Catalog.Published | teamster.py:91 | the published path; resolved back to the image by `Resolver.ServesPublished` |
| Catalog.MakeEntry | teamster.py:89-98 | the entry for one file; stated by `Catalog.EntryFields` and `Catalog.RelabelledEntryExample` |
| Catalog.NodeItems | teamster.py:72-83 | the accepted files under a node in walk order; stated by `Catalog.ItemsExactly`, `Catalog.ItemsPrefixFree` and `Catalog.ItemsBelow` |
| Catalog.ChildItems | teamster.py:74-76 | the accepted files under the first `k` children; stated by `Catalog.ChildItemsExactly` and `Catalog.ChildItemsGrow` |
| Catalog.ImageCatalog | teamster.py:72-99 | the entries `get_file_listing` yields; what `Listing.GetFileListing` returns |
| Thumbnails.MakeDirs | teamster.py:62-63 | `mkdir` of the missing parent, plain or with `parents=True`; stated by `Thumbnails.CreateResult` |
| Thumbnails.Create | teamster.py:60-69 | `create_thumbnail`; stated by `Thumbnails.CreateResult` and `Thumbnails.CreateSound` |
| Thumbnails.Ensure | teamster.py:85-87 | the `exists()` guard; stated by `Thumbnails.AllPresent` and `Thumbnails.EnsureAllCovers` |
| Thumbnails.EnsureAll | teamster.py:74-87 | the walk's thumbnail calls in order, stopped by the first error; stated by `Thumbnails.EnsureAllAppend`, `EnsureAllCovers`, `EnsureAllWritesOnlyItems` and `EnsureAllIdempotent` |
| Resolver.FindFile | teamster.py:102-105 | `find_file`; stated by `Resolver.FindFileResult` and `Resolver.ServesPublished` |
| TeamsConfig.PyEq | teamster.py:173 | Python's `==` on loaded JSON; stated by `TeamsConfig.PyEqReflexive`, `PyEqSymmetric` and `NumericEqualityKeepsFile` |
| TeamsConfig.Decimal | teamster.py:168 | `str()` of an int; stated by `TeamsConfig.DecimalInjective` and `DecimalSign` |
| TeamsConfig.BaseUrl | teamster.py:168 | the base URL for a port; distinct for distinct ports by `TeamsConfig.PortChangeRewrites` |
| TeamsConfig.Overrides | teamster.py:167-171 | the three settings written; stated by `TeamsConfig.Merge` |
| TeamsConfig.Changed | teamster.py:173 | `new_config != teams_config`; stated by `TeamsConfig.ChangedIff` |
| TeamsConfig.Load | teamster.py:161-167 | the configuration read: `{}` for a missing file, an error for bad JSON, and for a non-object the TypeError that the dict union raises at teamster.py:167, moved forward to the load; stated by `TeamsConfig.TeamsConfigFile.Update` |
| Paths.RFind | teamster.py:80 | the index `str.rfind` returns is -1 or a position in the text |
| Paths.RFindLast | teamster.py:80 | `rfind` returns -1 exactly when the character does not occur; otherwise it returns the position of its last occurrence |
| Paths.RFindAt | teamster.py:80 | a position holding the character, with no occurrence after it, is what `rfind` returns |
| Paths.SuffixShape | teamster.py:80 | a name is its stem followed by its suffix. The suffix is empty exactly when the name has no dot past its first character and before its last. Otherwise the suffix is a dot and at least one non-dot character, and it is shorter than the name. A non-empty name has a non-empty stem |
| Paths.AppendedSuffix | teamster.py:91 | a proper suffix appended to a non-empty name becomes that name's suffix, and the name becomes its stem |
| Paths.AppendThenStrip | teamster.py:105 | `with_suffix("")` undoes appending a suffix to a path with a non-empty name |
| Paths.WithoutSuffixShape | teamster.py:105 | `with_suffix("")` keeps the parent and the number of components, removes exactly the name's suffix, and leaves a path without a suffix unchanged |
| Paths.JoinAppendSuffix | teamster.py:91 | `str()` of a path whose name has text appended is `str()` of the path followed by that text |
| Catalog.Lower | teamster.py:80 | lower-casing keeps the length and lower-cases each character in place |
| Catalog.LowerIs | teamster.py:80-81 | the lower-cased extension equals a lower-case word exactly when it matches that word character by character |
| Catalog.TypeOfAgreesWithConstants | teamster.py:20-21 | a name is accepted iff its lower-cased extension is in ACCEPTED_SUFFIXES. That extension is the type's spelling. The type is relabelled iff EXTENSION_MAPPING has the extension, and the filetype is `new_ext or ext` |
| Catalog.TypeOfPng | teamster.py:80-82 | `x.png` is accepted as png |
| Catalog.TypeOfUpperCaseLastSuffix | teamster.py:80-82 | `b.tar.JPEG` is accepted as jpeg: case does not matter and only the last suffix counts |
| Catalog.TypeOfHiddenName | teamster.py:80-82 | `.png` has no suffix and is skipped |
| Catalog.TypeOfText | teamster.py:80-82 | `c.txt` is skipped |
| Catalog.FiletypeOfAccepted | teamster.py:94 | the filetype is jpg for every accepted type except png, and png only for png. It keeps the file's own spelling only for png and jpg |
| Catalog.ApiPrefix | teamster.py:89 | the prefix is the v2 API prefix exactly for Teams version 2, and empty exactly for version 1 |
| Catalog.EntryFields | teamster.py:89-99 | an entry's filetype is png or jpg. Its id and name are both the file's stem. Its source and thumbnail paths are the prefix, then `/images/` or `/thumbnails/`, then `str()` of the published path, which has ".jpg" appended for a relabelled type |
| Catalog.RelabelledEntryExample | teamster.py:91-98 | `sub/b.jpeg` under version 2 yields filetype jpg, id and name `b`, and source and thumbnail paths ending in `sub/b.jpeg.jpg` |
| Catalog.Entries | teamster.py:93-99 | one entry per item, in the items' order, each the entry built for that item |
| Catalog.EntriesAppend | teamster.py:76 | the entries of a concatenation are the entries of its parts, concatenated (`yield from` splices the sub-listing in place) |
| Catalog.ItemsBelow | teamster.py:74-79 | every item found under a node lies below the node's path, strictly below for a directory |
| Catalog.ChildItemsBelow | teamster.py:74-79 | every item found under the first `k` children of a directory lies strictly below the directory, through one of those children |
| Catalog.ItemsExactly | teamster.py:72-83 | a path is listed with a type and content iff it leads through the tree to a file with that content whose suffix is accepted as that type. Directories and other files are never listed |
| Catalog.ChildItemsExactly | teamster.py:74-83 | the items under the first `k` children are exactly the accepted files reached through one of them |
| Catalog.LastChildExactly | teamster.py:74-83 | the items under the `k`-th child are exactly the accepted files reached through it |
| Catalog.ExtendedPrefix | teamster.py:76 | a path lies below a child directory iff its next component is that child's name |
| Catalog.ItemsPrefixFree | teamster.py:74-79 | in a tree with distinct sibling names, no file is listed twice and no listed path leads through another |
| Catalog.ChildItemsPrefixFree | teamster.py:74-79 | the same holds for the items under the first `k` children of a directory |
| Catalog.ChildItemsGrow | teamster.py:74-76 | walking more children only extends the list: the items under the first `j` children are a prefix of those under the first `k` |
| Catalog.SiblingItemsApart | teamster.py:74-79 | in a directory with distinct child names, no path listed under earlier children leads through or equals one listed under a later child, nor the other way |
| Catalog.PrefixFreeAppend | teamster.py:76 | two prefix-free lists, neither of whose paths leads through the other's, make a prefix-free list together |
| Thumbnails.CreateSound | teamster.py:60-69 | `create_thumbnail` leaves a directory tree a tree and only adds paths, whether it succeeds or fails |
| Thumbnails.CreateResult | teamster.py:60-69 | it succeeds iff the image is good, the parent exists as a directory or `mkdir` can make it, and nothing but a file is at the thumbnail's path. On success exactly the thumbnail file is added. On failure no file is written. The directories change only when the parent is absent and `mkdir` can make it, and then by exactly the parent (plain `mkdir`) or all its missing prefixes (`parents=True`). A `mkdir` failure is reported iff `mkdir` cannot make the parent. After it, an unreadable image is an `Image.open` failure and an unscalable one the IOError naming the image |
| Thumbnails.EnsureAllAppend | teamster.py:74-87 | ensuring thumbnails for `a + b` is ensuring them for `a`, then, if that raised nothing, for `b` |
| Thumbnails.EnsureAllStopped | teamster.py:86-87 | once a thumbnail has failed, later items are not touched |
| Thumbnails.EnsureAllSound | teamster.py:85-87 | a run keeps the thumbnail directory a tree and deletes nothing |
| Thumbnails.EnsureAllCovers | teamster.py:85-87 | after a run without error, the thumbnail of every item exists |
| Thumbnails.EnsureAllWritesOnlyItems | teamster.py:85-87 | every file a run writes is the thumbnail of one of its items, and nothing was at that path before |
| Thumbnails.EnsureAllIdempotent | teamster.py:85-87 | a second run after a successful one writes nothing and succeeds |
| Thumbnails.AllPresent | teamster.py:86 | a run over items whose thumbnails all exist does nothing |
| Thumbnails.NestedDirectoryFails | teamster.py:62-63 | with plain `mkdir()`, the image `a/b/x.png` fails on an empty thumbnail directory with the `mkdir` of `a/b`, and nothing is written |
| Thumbnails.ParentsRunSucceeds | teamster.py:62-63 | with `mkdir(parents=True)`, a run over good images with distinct, prefix-free paths succeeds on any directory with nothing in their way |
| Thumbnails.ParentsFirstStep | teamster.py:62-67 | with `mkdir(parents=True)`, the first such image succeeds, the directory stays a tree, and nothing is in the way of the rest |
| Thumbnails.ThumbnailDir.CreateThumbnail | teamster.py:60-69 | the thumbnail directory's new contents and the outcome are those of `Create` with the given `mkdir` mode |
| Thumbnails.ThumbnailDir.EnsureThumbnail | teamster.py:85-87 | the thumbnail directory's new contents and the outcome are those of `Ensure`: nothing happens when something exists at the path |
| Listing.Walk | teamster.py:72-99 | the directory ends as the run of `EnsureAll`, with the given `mkdir` mode, over the accepted files below `d`, in walk order. The walk succeeds iff that run raised nothing, and then it returns exactly their entries. Otherwise it returns the run's error |
| Listing.WalkStep | teamster.py:74-76 | walking one more child appends its items, continues the run from where it stopped, and appends the child's entries |
| Listing.StopsAtError | teamster.py:86-87 | after a failure under the first `j` children, walking the others changes neither the directory nor the error |
| Listing.VisitFile | teamster.py:78-99 | visiting a file leaves the directory as the run of `EnsureAll` over the file's items left it: one item when the suffix is accepted, none otherwise. The visit fails iff that run failed, with its error. Otherwise it yields exactly the file's entries |
| Listing.GetFileListing | teamster.py:72-73 | the listing of the image directory is `ImageCatalog` when no thumbnail fails. Otherwise it is the first thumbnail error, with the thumbnails made before it kept |
| Listing.ShapeManifest | teamster.py:146-150 | the manifest holds the listing unchanged: bare for Teams version 1 and exactly then, otherwise under `videoBackgroundImages` |
| Listing.ServeConfigJson | teamster.py:143-151 | `/config.json` is the shaped catalog, or fails with the first thumbnail error, with the directory as the run left it. With `mkdir(parents=True)`, a first request over a tree of good images with distinct sibling names always succeeds |
| Listing.ItemsGood | teamster.py:74-79 | every item listed from a tree of good images is a good image |
| Listing.ChildItemsGood | teamster.py:74-79 | the same for the items under the first `k` children of a directory |
| Listing.ParentsListingSucceeds | teamster.py:62-63 | with `mkdir(parents=True)`, listing any tree of good images with distinct sibling names into an empty thumbnail directory never fails |
| Listing.NestedTreeItems | teamster.py:74-83 | the tree `a/b/x.png` has distinct sibling names and good images only, and lists just `a/b/x.png` as png |
| Listing.NestedImageFails | teamster.py:62-63 | listing that tree into an empty thumbnail directory, as the code is written, fails with the `mkdir` of `a/b` |
| Resolver.FindFileResult | teamster.py:102-105 | an existing path is returned unchanged. Otherwise the result keeps the parent and drops exactly the name's suffix. It is the path itself when the name has no suffix. It is an error exactly for a missing path with an empty name |
| Resolver.ServesPublished | teamster.py:102-105 | the published path of an existing image resolves back to the image, unless the published path names another existing file |
| Resolver.PublishedPathShadowed | teamster.py:102-105 | when `sub/b.jpeg.jpg` exists, it is served for the published path of `sub/b.jpeg` instead of the image |
| TeamsConfig.PyEqReflexive | teamster.py:173 | every loaded JSON value is `==` to itself |
| TeamsConfig.PyEqSymmetric | teamster.py:173 | `==` on loaded JSON values is symmetric |
| TeamsConfig.DigitsAreDigits | teamster.py:168 | the decimal digits of a number are non-empty and all digits, with at least two of them from 10 on |
| TeamsConfig.DigitsInjective | teamster.py:168 | different numbers have different digits |
| TeamsConfig.DecimalSign | teamster.py:168 | a printed int starts with '-' exactly when it is negative |
| TeamsConfig.DecimalInjective | teamster.py:168 | different ports give different base URLs' port parts |
| TeamsConfig.Merge | teamster.py:167-171 | the merged configuration has every key of both sides, the new values for the three settings and the stored values for every other key |
| TeamsConfig.ChangedIff | teamster.py:173 | the file is rewritten iff one of the three keys is missing or holds a value not `==` to the new one |
| TeamsConfig.MergeIdempotent | teamster.py:167-173 | merging twice is merging once, and the merged configuration never needs rewriting |
| TeamsConfig.EmptyAlwaysChanged | teamster.py:161-173 | without a stored configuration the file is always written |
| TeamsConfig.PortChangeRewrites | teamster.py:168-173 | a changed port always rewrites the file |
| TeamsConfig.NumericEqualityKeepsFile | teamster.py:169-173 | a file holding 1 for true and 60.0 for 60 is left alone |
| TeamsConfig.SecondUpdateWritesNothing | teamster.py:156-175 | after a successful update, a second update with the same settings writes nothing |
| TeamsConfig.TeamsConfigFile.Update | teamster.py:156-175 | a missing file starts from `{}`. Unparsable JSON or a non-object leaves the file alone and fails. Otherwise the file becomes the merge exactly when it changed, and the result says whether it was written |

## Left out

- The Flask application is not modelled: its routes, response headers, `send_from_directory`, the index template and the HTML listings of `/images` and `/thumbnails` (teamster.py:108-141). `find_file` is modelled on its own.
- Image decoding, resizing and saving by PIL are abstracted to three outcomes per file: good, cannot be opened, or cannot be shrunk or saved. The thumbnail size and the pixels are not modelled.
- Thumbnail contents are not modelled; the thumbnail directory is the set of its file and sub-directory paths.
- A failed save that leaves a partial file behind is not modelled: a failed save writes nothing.
- JSON text is not modelled. `json.dumps` of the manifest, `json.dump` of the Teams configuration and key order are left out. A file `json.load` cannot parse is one `Malformed` state.
- Floats are reals: NaN, infinities and float rounding are not modelled, and neither is the exactness of large int/float comparisons.
- Lower-casing is ASCII only. The only non-ASCII characters whose lower case contains an ASCII letter are U+212A KELVIN SIGN ('k') and U+0130 ('i' followed by U+0307). Neither can make an extension lower-case to png, jpg, jpeg or gif, so acceptance is unaffected.
- The order of `iterdir` is taken as the order of a directory's `children`.
- Symbolic links, permissions and concurrent changes to the directories are not modelled. Neither are absolute paths, `relative_to`, or requested paths that leave the served directory.
- `print` output, exception message text and the `from e` chaining are left out. Errors are identified by kind and path.
- Configuration loading is not modelled: `Config`, pydantic validation, `import_config`, the command line, the XDG paths and `main`. The thumbnail directory is taken to exist, as `main` creates it (teamster.py:185).
- The thumbnail directory is taken to lie outside the image directory; the image tree and the thumbnail directory are independent values. If `thumbnail_dir` were inside `image_dir` the walk would also list the thumbnails it writes, and if the two were equal every image would count as its own existing thumbnail; neither case is modelled.
- `update_config`'s `mkdir(exist_ok=True)` of the Teams configuration directory (teamster.py:157) is not modelled.
- Duplicate keys in the stored JSON are not modelled: `json.load` keeps the last one, and the model has one value per key.

## Findings

| source | as written | input that shows it | evidently intended | confidence | as-written member | corrected member |
|---|---|---|---|---|---|---|
| teamster.py:62-63 | `create_thumbnail` makes a missing thumbnail parent with a plain `mkdir()`. That raises when the grandparent does not exist either. The exception escapes the listing, and `/config.json` fails | an image directory whose only image is `a/b/x.png`, with an empty thumbnail directory: the `mkdir` of `thumbs/a/b` raises because `thumbs/a` does not exist | `mkdir(parents=True)`, so that images at any depth get thumbnails | medium, not executed | Listing.NestedImageFails | Listing.ParentsListingSucceeds |

The `ThumbnailDir` methods, `Listing.Walk` and the methods built on it take
the `mkdir` mode as a parameter. `Plain` is the behaviour as written, and
`Parents` is the corrected one. `Thumbnails.ParentsRunSucceeds` proves the
correction for any clear directory. `Listing.ParentsListingSucceeds` proves
it for a whole tree, and `Listing.ServeConfigJson` states it for the request.
