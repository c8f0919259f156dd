/**
 * `get_file_listing` (teamster.py:72-99) as the walk it is: a depth-first
 * loop over each directory's children that ensures every accepted file's
 * thumbnail and collects its entry, and `/config.json` (teamster.py:143-151),
 * which shapes the collected entries for the configured Teams version.
 */
module Listing {
  import opened Wrappers
  import opened Paths
  import opened Catalog
  import opened Thumbnails

  /**
   * `get_file_listing(config, image_dir / path)` for the directory `d` at
   * relative path `path`: the entries of the accepted files below it, in walk
   * order, each after its thumbnail has been ensured.  The first thumbnail
   * error ends the walk, keeping the directories and thumbnails made so far.
   * Missing thumbnail directories are made by `mode`: `Plain` is the code as
   * written, `Parents` the corrected `mkdir(parents=True)`.
   */
  method Walk(store: ThumbnailDir, d: Node, path: Path, v: TeamsVersion, mode: MkdirMode) returns (r: Result<seq<ImageEntry>, ThumbError>)
    requires d.Dir?
    modifies store
    ensures var items := NodeItems(d, path);
      var run := EnsureAll(old(store.Contents()), items, mode);
      && store.Contents() == run.disk
      && (r.Ok? <==> run.error.None?)
      && (r.Ok? ==> r.value == Entries(items, v))
      && (r.Err? ==> run.error == Some(r.error))
    decreases d
  {
    ghost var d0 := store.Contents();
    var entries: seq<ImageEntry> := [];
    for k := 0 to |d.children|
      invariant EnsureAll(d0, ChildItems(d, k, path), mode) == Run(store.Contents(), None)
      invariant entries == Entries(ChildItems(d, k, path), v)
    {
      var c := d.children[k];
      var p := path + [c.name];
      WalkStep(d0, d, k, path, v, mode);
      var sub;
      if c.Dir? {
        sub := Walk(store, c, p, v, mode);
      } else {
        sub := VisitFile(store, c, p, v, mode);
      }
      if sub.Err? {
        StopsAtError(d0, d, k + 1, |d.children|, path, mode);
        return Err(sub.error);
      }
      entries := entries + sub.value;
    }
    return Ok(entries);
  }

  /** Walking one more child continues the run and the list where the first `k` children left them. */
  lemma WalkStep(d0: Disk, d: Node, k: nat, path: Path, v: TeamsVersion, mode: MkdirMode)
    requires d.Dir? && k < |d.children|
    ensures var c := d.children[k];
      var front, back := ChildItems(d, k, path), NodeItems(c, path + [c.name]);
      var run := EnsureAll(d0, front, mode);
      && ChildItems(d, k + 1, path) == front + back
      && EnsureAll(d0, front + back, mode) == (if run.error.Some? then run else EnsureAll(run.disk, back, mode))
      && Entries(front + back, v) == Entries(front, v) + Entries(back, v)
  {
    var c := d.children[k];
    EnsureAllAppend(d0, ChildItems(d, k, path), NodeItems(c, path + [c.name]), mode);
    EntriesAppend(ChildItems(d, k, path), NodeItems(c, path + [c.name]), v);
  }

  /** Once the run over the first `j` children has failed, walking further children changes nothing. */
  lemma StopsAtError(d0: Disk, d: Node, j: nat, k: nat, path: Path, mode: MkdirMode)
    requires d.Dir? && j <= k <= |d.children|
    requires EnsureAll(d0, ChildItems(d, j, path), mode).error.Some?
    ensures EnsureAll(d0, ChildItems(d, k, path), mode) == EnsureAll(d0, ChildItems(d, j, path), mode)
  {
    var front, all := ChildItems(d, j, path), ChildItems(d, k, path);
    ChildItemsGrow(d, j, k, path);
    assert all == all[..|front|] + all[|front|..];
    EnsureAllStopped(d0, front, all[|front|..], mode);
  }

  /**
   * The walk's visit of the file `c` at relative path `p`: a file whose
   * lower-cased suffix is not accepted is skipped; otherwise its thumbnail
   * is ensured and its entry is yielded.
   */
  method VisitFile(store: ThumbnailDir, c: Node, p: Path, v: TeamsVersion, mode: MkdirMode) returns (r: Result<seq<ImageEntry>, ThumbError>)
    requires c.File?
    modifies store
    ensures var items := NodeItems(c, p);
      var run := EnsureAll(old(store.Contents()), items, mode);
      && store.Contents() == run.disk
      && (r.Ok? <==> run.error.None?)
      && (r.Ok? ==> r.value == Entries(items, v))
      && (r.Err? ==> run.error == Some(r.error))
  {
    var t := TypeOf(c.name);
    if t.None? {
      return Ok([]);
    }
    var made := store.EnsureThumbnail(p, c.content, mode);
    if made.Fail? {
      return Err(made.error);
    }
    return Ok([MakeEntry(p, t.value, v)]);
  }

  /** `get_file_listing(config)`: the walk of the image directory `root`. */
  method GetFileListing(store: ThumbnailDir, root: Node, v: TeamsVersion, mode: MkdirMode) returns (r: Result<seq<ImageEntry>, ThumbError>)
    requires root.Dir?
    modifies store
    ensures var run := EnsureAll(old(store.Contents()), NodeItems(root, []), mode);
      && store.Contents() == run.disk
      && (r.Ok? <==> run.error.None?)
      && (r.Ok? ==> r.value == ImageCatalog(root, v))
      && (r.Err? ==> run.error == Some(r.error))
  {
    r := Walk(store, root, [], v, mode);
  }

  const MANIFEST_KEY := "videoBackgroundImages"

  /** The body of `/config.json` before it is written out as JSON. */
  datatype Manifest =
    | Bare(entries: seq<ImageEntry>)                // Teams version 1: the list itself
    | Keyed(key: string, entries: seq<ImageEntry>)  // otherwise: an object with the list under one key

  /** The shape `/config.json` gives the listing for Teams version `v`. */
  function ShapeManifest(files: seq<ImageEntry>, v: TeamsVersion): (m: Manifest)
    ensures m.entries == files
    ensures m.Bare? <==> v == 1
    ensures m.Keyed? ==> m.key == MANIFEST_KEY
  {
    if v == 1 then Bare(files) else Keyed(MANIFEST_KEY, files)
  }

  /**
   * `/config.json`: list the images, then shape the list; a thumbnail error
   * fails the request.  With `mkdir(parents=True)` a first request over a
   * tree of good images always succeeds.
   */
  method ServeConfigJson(store: ThumbnailDir, root: Node, v: TeamsVersion, mode: MkdirMode) returns (r: Result<Manifest, ThumbError>)
    requires root.Dir?
    modifies store
    ensures var run := EnsureAll(old(store.Contents()), NodeItems(root, []), mode);
      && store.Contents() == run.disk
      && (r.Ok? <==> run.error.None?)
      && (r.Ok? ==> r.value == ShapeManifest(ImageCatalog(root, v), v))
      && (r.Err? ==> run.error == Some(r.error))
    ensures mode == Parents && old(store.Contents()) == Disk({}, {}) && WellFormed(root) && AllGood(root) ==> r.Ok?
  {
    ghost var d0 := store.Contents();
    var files := GetFileListing(store, root, v, mode);
    if mode == Parents && d0 == Disk({}, {}) && WellFormed(root) && AllGood(root) {
      ParentsListingSucceeds(root);
    }
    match files
    case Err(e) => r := Err(e);
    case Ok(list) => r := Ok(ShapeManifest(list, v));
  }

  /** Every file in the tree is a good image. */
  predicate AllGood(n: Node)
    decreases n
  {
    match n
    case File(_, content) => content == Good
    case Dir(_, children) => forall i :: 0 <= i < |children| ==> AllGood(children[i])
  }

  lemma {:induction false} ItemsGood(n: Node, path: Path)
    requires AllGood(n)
    ensures forall i :: 0 <= i < |NodeItems(n, path)| ==> NodeItems(n, path)[i].content == Good
    decreases n, 1
  {
    if n.Dir? {
      ChildItemsGood(n, |n.children|, path);
    }
  }

  lemma {:induction false} ChildItemsGood(d: Node, k: nat, path: Path)
    requires d.Dir? && k <= |d.children| && AllGood(d)
    ensures forall i :: 0 <= i < |ChildItems(d, k, path)| ==> ChildItems(d, k, path)[i].content == Good
    decreases d, 0, k
  {
    if k > 0 {
      var c := d.children[k - 1];
      var front: seq<Item>, back: seq<Item> := ChildItems(d, k - 1, path), NodeItems(c, path + [c.name]);
      ChildItemsGood(d, k - 1, path);
      ItemsGood(c, path + [c.name]);
      forall i | 0 <= i < |front + back| ensures (front + back)[i].content == Good {
        if i < |front| {
          assert (front + back)[i] == front[i];
        } else {
          assert (front + back)[i] == back[i - |front|];
        }
      }
    }
  }

  /**
   * With `mkdir(parents=True)` in `create_thumbnail`, listing a well-formed
   * tree of good images into an empty thumbnail directory never fails.
   */
  lemma ParentsListingSucceeds(root: Node)
    requires root.Dir? && WellFormed(root) && AllGood(root)
    ensures EnsureAll(Disk({}, {}), NodeItems(root, []), Parents).error.None?
  {
    var items := NodeItems(root, []);
    ItemsBelow(root, []);
    ItemsPrefixFree(root, []);
    ItemsGood(root, []);
    forall i | 0 <= i < |items| ensures items[i].path != [] {
      assert items[i] in items;
    }
    ParentsRunSucceeds(Disk({}, {}), items);
  }

  /** The tree of the nested example is well formed, holds good images only, and lists its one image. */
  lemma NestedTreeItems()
    ensures var root := Dir("images", [Dir("a", [Dir("b", [File("x.png", Good)])])]);
      && WellFormed(root) && AllGood(root)
      && NodeItems(root, []) == [Item(["a", "b", "x.png"], Png, Good)]
  {
    var x := File("x.png", Good);
    var b := Dir("b", [x]);
    var a := Dir("a", [b]);
    var items := [Item(["a", "b", "x.png"], Png, Good)];
    TypeOfPng();
    assert ["a", "b"] + ["x.png"] == ["a", "b", "x.png"];
    assert NodeItems(x, ["a", "b", "x.png"]) == items;
    assert ["a"] + ["b"] == ["a", "b"];
    assert ChildItems(b, 1, ["a", "b"]) == [] + items;
    assert NodeItems(b, ["a", "b"]) == items;
    assert [] + ["a"] == ["a"];
    assert ChildItems(a, 1, ["a"]) == [] + items;
  }

  /**
   * As the code is written, listing a tree whose only image sits two
   * directories down fails on an empty thumbnail directory: `mkdir()` of
   * `a/b` raises because `a` does not exist yet.
   */
  lemma NestedImageFails()
    ensures var root := Dir("images", [Dir("a", [Dir("b", [File("x.png", Good)])])]);
      && WellFormed(root) && AllGood(root)
      && EnsureAll(Disk({}, {}), NodeItems(root, []), Plain).error == Some(MkdirFailed(["a", "b"]))
  {
    NestedTreeItems();
    NestedDirectoryFails();
  }
}
