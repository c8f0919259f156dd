/**
 * The image catalog: which files of the image tree are published, under which
 * names, and in which order.  This module is the pure half of
 * `get_file_listing` (teamster.py:72-99); the walk itself, with its thumbnail
 * side effect, is `Listing.GetFileListing`.
 */
module Catalog {
  import opened Wrappers
  import opened Paths

  const V2_API_PREFIX := "/evergreen-assets/backgroundimages"
  const ACCEPTED_SUFFIXES: seq<string> := ["png", "jpg", "jpeg", "gif"]
  const EXTENSION_MAPPING: map<string, string> := map["jpeg" := "jpg", "gif" := "jpg"]

  /** The configured `teams_version`, which the configuration restricts to 1 or 2. */
  type TeamsVersion = v: int | v == 1 || v == 2 witness 2

  /** What the image library makes of a file's bytes. */
  datatype Content =
    | Good          // opens, shrinks and saves
    | Unreadable    // `Image.open` raises
    | Unscalable    // `thumbnail` or `save` raises

  /** The image directory as a tree; children are in `iterdir` order. */
  datatype Node =
    | File(name: string, content: Content)
    | Dir(name: string, children: seq<Node>)

  /** One manifest record (teamster.py:34-39). */
  datatype ImageEntry = ImageEntry(filetype: string, id: string, name: string, src: string, thumbSrc: string)

  /** The four accepted image types, one per entry of ACCEPTED_SUFFIXES. */
  datatype ImageType = Png | Jpg | Jpeg | Gif

  /** An accepted file found by the walk: its path relative to the image directory, its type and its bytes. */
  datatype Item = Item(path: Path, imageType: ImageType, content: Content)

  /** ASCII lower-casing of one character. */
  function LowerChar(c: char): char {
    if 'A' <= c <= 'Z' then (c as int - 'A' as int + 'a' as int) as char else c
  }

  /** `str.lower()` on ASCII text. */
  function Lower(s: string): (r: string)
    ensures |r| == |s|
    ensures forall i :: 0 <= i < |s| ==> r[i] == LowerChar(s[i])
  {
    if s == [] then [] else Lower(s[..|s| - 1]) + [LowerChar(s[|s| - 1])]
  }

  /**
   * `img.suffix.replace(".", "").lower()`: the name's last suffix without its
   * dot (the suffix holds no other dot), lower-cased.
   */
  function Ext(name: string): string {
    var s := Suffix(name);
    if s == "" then "" else Lower(s[1..])
  }

  /** How the type is spelt in ACCEPTED_SUFFIXES. */
  function Spelling(t: ImageType): string {
    match t
    case Png => "png"
    case Jpg => "jpg"
    case Jpeg => "jpeg"
    case Gif => "gif"
  }

  /** `s` lower-cases to the lower-case word `word`, compared character by character. */
  predicate LowersTo(s: string, word: string) {
    |s| == |word| && forall i :: 0 <= i < |s| ==> LowerChar(s[i]) == word[i]
  }

  /** The accepted type a lower-cased extension names, if any. */
  function Classify(e: string): Option<ImageType> {
    if LowersTo(e, "png") then Some(Png)
    else if LowersTo(e, "jpg") then Some(Jpg)
    else if LowersTo(e, "jpeg") then Some(Jpeg)
    else if LowersTo(e, "gif") then Some(Gif)
    else None
  }

  /** The accepted type of a file name's last suffix, case-insensitively; None when the walk skips the file. */
  function TypeOf(name: string): Option<ImageType> {
    var s := Suffix(name);
    if s == "" then None else Classify(s[1..])
  }

  /** Whether EXTENSION_MAPPING relabels the type. */
  predicate Relabelled(t: ImageType) {
    t == Jpeg || t == Gif
  }

  /** `new_ext or ext` for an accepted file. */
  function Filetype(t: ImageType): string {
    if Relabelled(t) then "jpg" else Spelling(t)
  }

  /** Comparing lower-cased text with a word is comparing character by character. */
  lemma LowerIs(s: string, word: string)
    ensures Lower(s) == word <==> LowersTo(s, word)
  {
    if LowersTo(s, word) {
      assert forall i :: 0 <= i < |s| ==> Lower(s)[i] == word[i];
    }
  }

  /**
   * The classification decides exactly what the source's constants decide:
   * a name is accepted iff its lower-cased extension is in ACCEPTED_SUFFIXES,
   * that extension is the type's spelling, the type is relabelled iff
   * EXTENSION_MAPPING has the extension, and the filetype is `new_ext or ext`.
   */
  lemma TypeOfAgreesWithConstants(name: string)
    ensures TypeOf(name).Some? <==> Ext(name) in ACCEPTED_SUFFIXES
    ensures TypeOf(name).Some? ==>
      var t := TypeOf(name).value;
      && Ext(name) == Spelling(t)
      && (Relabelled(t) <==> Ext(name) in EXTENSION_MAPPING)
      && Filetype(t) == (if Ext(name) in EXTENSION_MAPPING then EXTENSION_MAPPING[Ext(name)] else Ext(name))
  {
    var s := Suffix(name);
    if s != "" {
      var e := s[1..];
      LowerIs(e, "png");
      LowerIs(e, "jpg");
      LowerIs(e, "jpeg");
      LowerIs(e, "gif");
    }
  }

  /** A lower-case png name is accepted as png. */
  lemma TypeOfPng()
    ensures TypeOf("x.png") == Some(Png)
  {
    RFindAt("x.png", '.', 1);
    assert Suffix("x.png")[1..] == "png";
  }

  /** The suffix is matched case-insensitively, and only the last one counts. */
  lemma TypeOfUpperCaseLastSuffix()
    ensures TypeOf("b.tar.JPEG") == Some(Jpeg)
  {
    RFindAt("b.tar.JPEG", '.', 5);
    assert Suffix("b.tar.JPEG")[1..] == "JPEG";
  }

  /** A name whose only dot leads it has no suffix, so `.png` is skipped. */
  lemma TypeOfHiddenName()
    ensures TypeOf(".png") == None
  {
    RFindAt(".png", '.', 0);
  }

  /** Other suffixes are skipped. */
  lemma TypeOfText()
    ensures TypeOf("c.txt") == None
  {
    RFindAt("c.txt", '.', 1);
    assert Suffix("c.txt")[1..] == "txt";
  }

  /** Relabelling is total on the accepted types: png stays png, the other three become jpg. */
  lemma FiletypeOfAccepted(t: ImageType)
    ensures Filetype(t) == "jpg" <==> t != Png
    ensures Filetype(t) == "png" <==> t == Png
    ensures Filetype(t) == Spelling(t) <==> t == Png || t == Jpg
  {
  }

  /** The prefix of every public path: the v2 API prefix for Teams version 2, nothing otherwise. */
  function ApiPrefix(v: TeamsVersion): (r: string)
    ensures r == V2_API_PREFIX <==> v == 2
    ensures r == "" <==> v == 1
  {
    if v == 2 then V2_API_PREFIX else ""
  }

  /** The path under which a file of type `t` is published: with ".jpg" appended when the type is relabelled. */
  function Published(img: Path, t: ImageType): Path
    requires |img| > 0
  {
    if Relabelled(t) then AppendSuffix(img, ".jpg") else img
  }

  /** The entry built for the file at relative path `img`, of type `t` (teamster.py:89-98). */
  function MakeEntry(img: Path, t: ImageType, v: TeamsVersion): ImageEntry {
    var imgName := Join(img) + (if Relabelled(t) then ".jpg" else "");
    ImageEntry(Filetype(t), Stem(Name(img)), Stem(Name(img)),
               ApiPrefix(v) + "/images/" + imgName, ApiPrefix(v) + "/thumbnails/" + imgName)
  }

  /**
   * What an entry says about its file: the filetype is png or jpg, id and
   * name are the stem, and both public paths are rooted under the prefix and
   * name the published path.
   */
  lemma EntryFields(img: Path, t: ImageType, v: TeamsVersion)
    requires |img| > 0
    ensures var e := MakeEntry(img, t, v);
      && (e.filetype == "png" || e.filetype == "jpg")
      && e.id == e.name == Stem(Name(img))
      && e.src == ApiPrefix(v) + "/images/" + Join(Published(img, t))
      && e.thumbSrc == ApiPrefix(v) + "/thumbnails/" + Join(Published(img, t))
  {
    if Relabelled(t) {
      JoinAppendSuffix(img, ".jpg");
    }
  }

  /**
   * A relabelled file keeps its own suffix in the published path and gets
   * ".jpg" after it: `sub/b.jpeg` is served as `sub/b.jpeg.jpg`, with id `b`.
   */
  lemma RelabelledEntryExample()
    ensures var e := MakeEntry(["sub", "b.jpeg"], Jpeg, 2);
      && e.filetype == "jpg" && e.id == "b" && e.name == "b"
      && e.src == V2_API_PREFIX + "/images/" + "sub/b.jpeg.jpg"
      && e.thumbSrc == V2_API_PREFIX + "/thumbnails/" + "sub/b.jpeg.jpg"
  {
    RFindAt("b.jpeg", '.', 1);
    assert Join(["sub", "b.jpeg"]) + ".jpg" == "sub/b.jpeg.jpg";
  }

  /**
   * The accepted files under node `n`, whose own path is `path`, in
   * depth-first `iterdir` order: a file is kept when its lower-cased last
   * suffix is accepted, a directory is replaced by the files under it.
   */
  function NodeItems(n: Node, path: Path): seq<Item>
    decreases n, 1
  {
    match n
    case File(name, content) =>
      (match TypeOf(name)
       case Some(t) => [Item(path, t, content)]
       case None => [])
    case Dir(_, children) => ChildItems(n, |children|, path)
  }

  /** The accepted files under the first `k` children of directory `d`. */
  function ChildItems(d: Node, k: nat, path: Path): seq<Item>
    requires d.Dir? && k <= |d.children|
    decreases d, 0, k
  {
    if k == 0 then []
    else
      var c := d.children[k - 1];
      ChildItems(d, k - 1, path) + NodeItems(c, path + [c.name])
  }

  /** Walking more children only extends the list: the items under the first `j` children come first. */
  lemma {:induction false} ChildItemsGrow(d: Node, j: nat, k: nat, path: Path)
    requires d.Dir? && j <= k <= |d.children|
    ensures |ChildItems(d, j, path)| <= |ChildItems(d, k, path)|
    ensures ChildItems(d, k, path)[..|ChildItems(d, j, path)|] == ChildItems(d, j, path)
    decreases k
  {
    if j < k {
      ChildItemsGrow(d, j, k - 1, path);
      var c := d.children[k - 1];
      PrefixExtends(ChildItems(d, j, path), ChildItems(d, k - 1, path), NodeItems(c, path + [c.name]));
    }
  }

  /** A prefix of `b` is a prefix of `b + c`. */
  lemma PrefixExtends(a: seq<Item>, b: seq<Item>, c: seq<Item>)
    requires |a| <= |b| && b[..|a|] == a
    ensures |a| <= |b + c| && (b + c)[..|a|] == a
  {
    assert (b + c)[..|a|] == b[..|a|];
  }

  /** The entries built for a sequence of files, in the same order. */
  function Entries(items: seq<Item>, v: TeamsVersion): (r: seq<ImageEntry>)
    ensures |r| == |items|
    ensures forall i :: 0 <= i < |items| ==> r[i] == MakeEntry(items[i].path, items[i].imageType, v)
  {
    if items == [] then [] else [MakeEntry(items[0].path, items[0].imageType, v)] + Entries(items[1..], v)
  }

  /** The catalog of the image directory `root`, which `get_file_listing` yields. */
  function ImageCatalog(root: Node, v: TeamsVersion): seq<ImageEntry>
    requires root.Dir?
  {
    Entries(NodeItems(root, []), v)
  }

  /** `rel` leads from `n` to an accepted file with the given content. */
  predicate HasAcceptedFile(n: Node, rel: Path, t: ImageType, content: Content)
    decreases n
  {
    match n
    case File(name, c) => rel == [] && TypeOf(name) == Some(t) && c == content
    case Dir(_, children) =>
      |rel| > 0 &&
      exists i :: 0 <= i < |children| && children[i].name == rel[0] && HasAcceptedFile(children[i], rel[1..], t, content)
  }

  /** Sibling names are distinct throughout the tree, as in any directory. */
  predicate WellFormed(n: Node)
    decreases n
  {
    match n
    case File(_, _) => true
    case Dir(_, children) =>
      (forall i, j :: 0 <= i < j < |children| ==> children[i].name != children[j].name) &&
      (forall i :: 0 <= i < |children| ==> WellFormed(children[i]))
  }

  /** No item's path is another's, nor leads through another's; in particular no two items share a path. */
  predicate PrefixFree(items: seq<Item>) {
    forall i, j :: 0 <= i < |items| && 0 <= j < |items| && i != j ==> !(items[i].path <= items[j].path)
  }

  /** Every file found under `n` lies below `path`, strictly below when `n` is a directory. */
  lemma {:induction false} ItemsBelow(n: Node, path: Path)
    ensures forall it :: it in NodeItems(n, path) ==> path <= it.path
    ensures forall it :: it in NodeItems(n, path) ==> n.Dir? ==> |path| < |it.path|
    decreases n, 1
  {
    if n.Dir? {
      ChildItemsBelow(n, |n.children|, path);
    }
  }

  /** Every file found under the first `k` children of `d` lies below one of them. */
  lemma {:induction false} ChildItemsBelow(d: Node, k: nat, path: Path)
    requires d.Dir? && k <= |d.children|
    ensures forall it :: it in ChildItems(d, k, path) ==>
      |path| < |it.path| && path <= it.path &&
      exists i :: 0 <= i < k && it.path[|path|] == d.children[i].name
    decreases d, 0, k
  {
    if k > 0 {
      var c := d.children[k - 1];
      ChildItemsBelow(d, k - 1, path);
      ItemsBelow(c, path + [c.name]);
      forall it | it in NodeItems(c, path + [c.name])
        ensures |path| < |it.path| && path <= it.path && it.path[|path|] == d.children[k - 1].name
      {
        assert (path + [c.name])[|path|] == c.name;
      }
    }
  }

  /**
   * The walk finds exactly the accepted files: a path below `path` is listed
   * iff it leads through the tree to a file whose suffix is accepted.
   * Directories themselves and other files are never listed.
   */
  lemma {:induction false} ItemsExactly(n: Node, path: Path, rel: Path, t: ImageType, content: Content)
    ensures Item(path + rel, t, content) in NodeItems(n, path) <==> HasAcceptedFile(n, rel, t, content)
    decreases n, 1
  {
    match n
    case File(_, _) =>
      assert path + rel == path <==> rel == [];
    case Dir(_, children) =>
      ChildItemsExactly(n, |children|, path, rel, t, content);
      if HasAcceptedFile(n, rel, t, content) {
        var i :| 0 <= i < |children| && children[i].name == rel[0] && HasAcceptedFile(children[i], rel[1..], t, content);
        assert LeadsThrough(n, i, rel, t, content);
      }
  }

  /** Child `i` of directory `d` is named `rel[0]`, and the rest of `rel` leads from it to an accepted file. */
  predicate LeadsThrough(d: Node, i: nat, rel: Path, t: ImageType, content: Content)
    requires d.Dir? && i < |d.children| && |rel| > 0
  {
    d.children[i].name == rel[0] && HasAcceptedFile(d.children[i], rel[1..], t, content)
  }

  lemma {:induction false} ChildItemsExactly(d: Node, k: nat, path: Path, rel: Path, t: ImageType, content: Content)
    requires d.Dir? && k <= |d.children|
    ensures Item(path + rel, t, content) in ChildItems(d, k, path) <==>
      |rel| > 0 && exists i :: 0 <= i < k && LeadsThrough(d, i, rel, t, content)
    decreases d, 0, k, 1
  {
    if k > 0 {
      ChildItemsExactly(d, k - 1, path, rel, t, content);
      LastChildExactly(d, k, path, rel, t, content);
      if |rel| > 0 && exists i :: 0 <= i < k && LeadsThrough(d, i, rel, t, content) {
        var i :| 0 <= i < k && LeadsThrough(d, i, rel, t, content);
        if i == k - 1 {
          assert LeadsThrough(d, k - 1, rel, t, content);
        }
      }
    }
  }

  /** `path + rel` lies below the child `name` of `path` iff `rel` starts with `name`. */
  lemma ExtendedPrefix(path: Path, name: string, rel: Path)
    ensures path + [name] <= path + rel <==> |rel| > 0 && rel[0] == name
  {
    if path + [name] <= path + rel {
      assert (path + rel)[|path|] == (path + [name])[|path|];
    }
    if |rel| > 0 && rel[0] == name {
      assert path + rel == (path + [name]) + rel[1..];
    }
  }

  /** The files listed under the `k`-th child of `d` are exactly those `rel` leads to through it. */
  lemma {:induction false} LastChildExactly(d: Node, k: nat, path: Path, rel: Path, t: ImageType, content: Content)
    requires d.Dir? && 0 < k <= |d.children|
    ensures var c := d.children[k - 1];
      Item(path + rel, t, content) in NodeItems(c, path + [c.name]) <==>
      |rel| > 0 && LeadsThrough(d, k - 1, rel, t, content)
    decreases d, 0, k, 0
  {
    var c := d.children[k - 1];
    var q := path + [c.name];
    if |rel| > 0 && rel[0] == c.name {
      assert path + rel == q + rel[1..];
      ItemsExactly(c, q, rel[1..], t, content);
    } else {
      ItemsBelow(c, q);
      ExtendedPrefix(path, c.name, rel);
    }
  }

  /**
   * In a well-formed tree the walk lists every file at most once, and no
   * listed path leads through another: files are leaves.
   */
  lemma {:induction false} ItemsPrefixFree(n: Node, path: Path)
    requires WellFormed(n)
    ensures PrefixFree(NodeItems(n, path))
    decreases n, 1
  {
    if n.Dir? {
      ChildItemsPrefixFree(n, |n.children|, path);
    }
  }

  lemma {:induction false} ChildItemsPrefixFree(d: Node, k: nat, path: Path)
    requires d.Dir? && k <= |d.children| && WellFormed(d)
    ensures PrefixFree(ChildItems(d, k, path))
    decreases d, 0, k
  {
    if k > 0 {
      var c := d.children[k - 1];
      var q := path + [c.name];
      var front, back := ChildItems(d, k - 1, path), NodeItems(c, q);
      ChildItemsPrefixFree(d, k - 1, path);
      ItemsPrefixFree(c, q);
      SiblingItemsApart(d, k, path);
      PrefixFreeAppend(front, back);
    }
  }

  /** No path listed under the first `k - 1` children leads through one listed under the `k`-th, nor the other way. */
  lemma SiblingItemsApart(d: Node, k: nat, path: Path)
    requires d.Dir? && 0 < k <= |d.children| && WellFormed(d)
    ensures var c := d.children[k - 1];
      Apart(ChildItems(d, k - 1, path), NodeItems(c, path + [c.name]))
  {
    var c := d.children[k - 1];
    var q := path + [c.name];
    var front, back := ChildItems(d, k - 1, path), NodeItems(c, q);
    ChildItemsBelow(d, k - 1, path);
    ItemsBelow(c, q);
    forall i, j | 0 <= i < |front| && 0 <= j < |back|
      ensures !(front[i].path <= back[j].path) && !(back[j].path <= front[i].path)
    {
      assert front[i] in front && back[j] in back;
      var m :| 0 <= m < k - 1 && front[i].path[|path|] == d.children[m].name;
      assert back[j].path[|path|] == q[|path|];
    }
  }

  /** No path of `front` leads through or equals one of `back`, nor the other way. */
  predicate Apart(front: seq<Item>, back: seq<Item>) {
    forall i, j :: 0 <= i < |front| && 0 <= j < |back| ==>
      !(front[i].path <= back[j].path) && !(back[j].path <= front[i].path)
  }

  /** Two prefix-free lists of which neither's paths lead through the other's make a prefix-free list. */
  lemma PrefixFreeAppend(front: seq<Item>, back: seq<Item>)
    requires PrefixFree(front) && PrefixFree(back) && Apart(front, back)
    ensures PrefixFree(front + back)
  {
    var all := front + back;
    forall i, j | 0 <= i < |all| && 0 <= j < |all| && i != j ensures !(all[i].path <= all[j].path) {
      if i < |front| && j < |front| {
        assert all[i] == front[i] && all[j] == front[j];
      } else if i >= |front| && j >= |front| {
        assert all[i] == back[i - |front|] && all[j] == back[j - |front|];
      } else if i < |front| {
        assert all[i] == front[i] && all[j] == back[j - |front|];
      } else {
        assert all[i] == back[i - |front|] && all[j] == front[j];
      }
    }
  }

  /** Building entries distributes over concatenation: the entries of a split list are the entries of its parts. */
  lemma EntriesAppend(a: seq<Item>, b: seq<Item>, v: TeamsVersion)
    ensures Entries(a + b, v) == Entries(a, v) + Entries(b, v)
  {
    var ab := a + b;
    var ea, eb := Entries(a, v), Entries(b, v);
    var l, r := Entries(ab, v), ea + eb;
    assert |l| == |r|;
    forall i | 0 <= i < |l| ensures l[i] == r[i] {
      if i < |a| {
        assert r[i] == ea[i];
        assert ab[i] == a[i];
      } else {
        assert r[i] == eb[i - |a|];
        assert ab[i] == b[i - |a|];
      }
    }
  }
}
