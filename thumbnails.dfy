/**
 * The thumbnail directory and `create_thumbnail` (teamster.py:60-69), with
 * the "create only when missing" guard of the walk (teamster.py:85-87).
 *
 * Paths are relative to the thumbnail directory, whose own path is `[]`;
 * that directory exists, since `main` creates it before serving
 * (teamster.py:185).  A thumbnail lives at the same relative path as its
 * image.  The functions below specify one call and a run of calls; the
 * class `ThumbnailDir` performs them in place.
 */
module Thumbnails {
  import opened Wrappers
  import opened Paths
  import opened Catalog

  /** The thumbnail directory's contents: the paths of its files and of its sub-directories. */
  datatype Disk = Disk(files: set<Path>, dirs: set<Path>)

  /** Why a thumbnail could not be made: the exception `create_thumbnail` lets out. */
  datatype ThumbError =
    | MkdirFailed(dir: Path)       // `thumb.parent.mkdir()` raises (missing grandparent, or a file in the way)
    | OpenFailed(img: Path)        // `Image.open` raises; it is outside the `try`, so it escapes unwrapped
    | ThumbnailFailed(img: Path)   // the IOError "could not create thumbnail for ..."

  /** The directory after a call or a run of calls, and the error that stopped it, if any. */
  datatype Run = Run(disk: Disk, error: Option<ThumbError>)

  /**
   * How the missing parent directory is made: `Plain` is `mkdir()` as the
   * code calls it; `Parents` is `mkdir(parents=True)`, which also makes the
   * missing directories above it.
   */
  datatype MkdirMode = Plain | Parents

  predicate IsDir(d: Disk, p: Path) {
    p == [] || p in d.dirs
  }

  /** `Path.exists()`. */
  predicate Exists(d: Disk, p: Path) {
    IsDir(d, p) || p in d.files
  }

  /** A directory tree: every file and sub-directory sits in a directory, and no path is both. */
  predicate Sound(d: Disk) {
    && (forall p :: p in d.dirs ==> IsDir(d, Parent(p)))
    && (forall p :: p in d.files ==> p != [] && IsDir(d, Parent(p)))
    && d.files !! d.dirs
  }

  /** The non-empty prefixes of `p`: the directories `mkdir(parents=True)` makes for `p`. */
  function Prefixes(p: Path): set<Path> {
    set i | 1 <= i <= |p| :: p[..i]
  }

  /** `mkdir` of the absent directory `dir`; None when it raises. */
  function MakeDirs(d: Disk, dir: Path, mode: MkdirMode): Option<Disk> {
    match mode
    case Plain =>
      if dir != [] && IsDir(d, Parent(dir)) then Some(d.(dirs := d.dirs + {dir})) else None
    case Parents =>
      if forall i :: 1 <= i <= |dir| ==> dir[..i] !in d.files then Some(d.(dirs := d.dirs + Prefixes(dir))) else None
  }

  /** The parent directory is there, or `mkdir` can make it. */
  predicate MakeDirsOk(d: Disk, dir: Path, mode: MkdirMode) {
    Exists(d, dir) || MakeDirs(d, dir, mode).Some?
  }

  /**
   * `create_thumbnail` for the image at `p` with the given bytes: make the
   * parent directory if it does not exist, open the image, shrink it and
   * save it at `p`.  The save fails when the parent is not a directory or
   * `p` is one.  A directory made before a later step fails stays made.
   */
  function Create(d: Disk, p: Path, content: Content, mode: MkdirMode): Run {
    var par := Parent(p);
    var made := if Exists(d, par) then Some(d) else MakeDirs(d, par, mode);
    match made
    case None => Run(d, Some(MkdirFailed(par)))
    case Some(d1) =>
      if content == Unreadable then Run(d1, Some(OpenFailed(p)))
      else if content == Unscalable || !IsDir(d1, par) || IsDir(d1, p) then Run(d1, Some(ThumbnailFailed(p)))
      else Run(d1.(files := d1.files + {p}), None)
  }

  /** The walk's guard: a thumbnail is created only when nothing exists at its path. */
  function Ensure(d: Disk, p: Path, content: Content, mode: MkdirMode): Run {
    if Exists(d, p) then Run(d, None) else Create(d, p, content, mode)
  }

  /** The thumbnails of `items`, ensured one after another; the first error stops the run. */
  function EnsureAll(d: Disk, items: seq<Item>, mode: MkdirMode): Run
    decreases |items|
  {
    if items == [] then Run(d, None)
    else
      var r := Ensure(d, items[0].path, items[0].content, mode);
      if r.error.Some? then r else EnsureAll(r.disk, items[1..], mode)
  }

  /** A call on a sound directory leaves it sound, and only ever adds paths. */
  lemma CreateSound(d: Disk, p: Path, content: Content, mode: MkdirMode)
    requires Sound(d)
    ensures var r := Create(d, p, content, mode).disk;
      Sound(r) && d.files <= r.files && d.dirs <= r.dirs
  {
    var par := Parent(p);
    if !Exists(d, par) && mode == Parents && MakeDirs(d, par, mode).Some? {
      var d1 := MakeDirs(d, par, mode).value;
      forall q | q in d1.dirs ensures IsDir(d1, Parent(q)) {
        if q in Prefixes(par) {
          var i :| 1 <= i <= |par| && q == par[..i];
          if i > 1 {
            assert Parent(q) == par[..i - 1];
          }
        }
      }
    }
  }

  /**
   * What one call does: a successful call adds exactly the file at `p`, a
   * failed one writes no file.  The parent directory is made only when it is
   * absent and `mkdir` can make it, and then exactly the directories `mkdir`
   * makes are added.  A `mkdir` failure, an `Image.open` failure and a
   * shrink-or-save failure are reported as such, in that order.
   */
  lemma CreateResult(d: Disk, p: Path, content: Content, mode: MkdirMode)
    ensures var r := Create(d, p, content, mode);
      && (r.error.None? ==> r.disk.files == d.files + {p})
      && (r.error.Some? ==> r.disk.files == d.files)
      && (r.error.None? <==> content == Good && MakeDirsOk(d, Parent(p), mode) && !IsDir(d, p) && (Parent(p) in d.files ==> IsDir(d, Parent(p))))
    ensures var r := Create(d, p, content, mode);
      && (Exists(d, Parent(p)) || !MakeDirsOk(d, Parent(p), mode) ==> r.disk.dirs == d.dirs)
      && (!Exists(d, Parent(p)) && MakeDirsOk(d, Parent(p), mode) ==>
            r.disk.dirs == d.dirs + (if mode == Plain then {Parent(p)} else Prefixes(Parent(p))))
    ensures var r := Create(d, p, content, mode);
      && (r.error == Some(MkdirFailed(Parent(p))) <==> !MakeDirsOk(d, Parent(p), mode))
      && (MakeDirsOk(d, Parent(p), mode) && content == Unreadable ==> r.error == Some(OpenFailed(p)))
      && (MakeDirsOk(d, Parent(p), mode) && content == Unscalable ==> r.error == Some(ThumbnailFailed(p)))
  {
    var par := Parent(p);
    if !Exists(d, par) && MakeDirs(d, par, mode).Some? {
      var d1 := MakeDirs(d, par, mode).value;
      assert par != [];
      if mode == Parents {
        assert par == par[..|par|];
        assert p !in Prefixes(par);
      }
      assert IsDir(d1, par);
    }
  }

  /** Running over `a + b` is running over `a`, then, if that succeeded, over `b`. */
  lemma {:induction false} EnsureAllAppend(d: Disk, a: seq<Item>, b: seq<Item>, mode: MkdirMode)
    ensures EnsureAll(d, a + b, mode) ==
      (var r := EnsureAll(d, a, mode); if r.error.Some? then r else EnsureAll(r.disk, b, mode))
    decreases |a|
  {
    if a == [] {
      assert a + b == b;
    } else {
      assert (a + b)[0] == a[0];
      assert (a + b)[1..] == a[1..] + b;
      var r := Ensure(d, a[0].path, a[0].content, mode);
      if r.error.None? {
        EnsureAllAppend(r.disk, a[1..], b, mode);
      }
    }
  }

  /** A run that has failed stays failed: items after the error are not touched. */
  lemma EnsureAllStopped(d: Disk, a: seq<Item>, b: seq<Item>, mode: MkdirMode)
    requires EnsureAll(d, a, mode).error.Some?
    ensures EnsureAll(d, a + b, mode) == EnsureAll(d, a, mode)
  {
    EnsureAllAppend(d, a, b, mode);
  }

  /** A run on a sound directory leaves it sound and deletes nothing. */
  lemma {:induction false} EnsureAllSound(d: Disk, items: seq<Item>, mode: MkdirMode)
    requires Sound(d)
    ensures var r := EnsureAll(d, items, mode).disk;
      Sound(r) && d.files <= r.files && d.dirs <= r.dirs
    decreases |items|
  {
    if items != [] {
      var p := items[0].path;
      if !Exists(d, p) {
        CreateSound(d, p, items[0].content, mode);
      }
      var r := Ensure(d, p, items[0].content, mode);
      if r.error.None? {
        EnsureAllSound(r.disk, items[1..], mode);
      }
    }
  }

  /** After a run that stops without error, the thumbnail of every item exists. */
  lemma {:induction false} EnsureAllCovers(d: Disk, items: seq<Item>, mode: MkdirMode)
    requires Sound(d)
    ensures var r := EnsureAll(d, items, mode);
      r.error.None? ==> forall i :: 0 <= i < |items| ==> Exists(r.disk, items[i].path)
    decreases |items|
  {
    if items != [] {
      var r := Ensure(d, items[0].path, items[0].content, mode);
      if r.error.None? {
        if !Exists(d, items[0].path) {
          CreateSound(d, items[0].path, items[0].content, mode);
        }
        EnsureAllCovers(r.disk, items[1..], mode);
        EnsureAllSound(r.disk, items[1..], mode);
        var last := EnsureAll(r.disk, items[1..], mode);
        if last.error.None? {
          forall i | 0 <= i < |items| ensures Exists(last.disk, items[i].path) {
            if i > 0 {
              assert items[i] == items[1..][i - 1];
            }
          }
        }
      }
    }
  }

  /** Every thumbnail a run writes is the thumbnail of one of its items that did not exist before. */
  lemma {:induction false} EnsureAllWritesOnlyItems(d: Disk, items: seq<Item>, mode: MkdirMode)
    ensures var r := EnsureAll(d, items, mode).disk;
      forall p :: p in r.files && p !in d.files ==> !Exists(d, p) && exists i :: 0 <= i < |items| && items[i].path == p
    decreases |items|
  {
    if items != [] {
      var r := Ensure(d, items[0].path, items[0].content, mode);
      if r.error.None? {
        EnsureAllWritesOnlyItems(r.disk, items[1..], mode);
        var last := EnsureAll(r.disk, items[1..], mode).disk;
        forall p | p in last.files && p !in d.files
          ensures !Exists(d, p) && exists i :: 0 <= i < |items| && items[i].path == p
        {
          if p in r.disk.files {
            assert items[0].path == p;
          } else {
            var i :| 0 <= i < |items[1..]| && items[1..][i].path == p;
            assert items[i + 1].path == p;
          }
        }
      }
    }
  }

  /** A second run over the same items after a successful one changes nothing and succeeds. */
  lemma {:induction false} EnsureAllIdempotent(d: Disk, items: seq<Item>, mode: MkdirMode)
    requires Sound(d)
    ensures var r := EnsureAll(d, items, mode);
      r.error.None? ==> EnsureAll(r.disk, items, mode) == Run(r.disk, None)
  {
    var r := EnsureAll(d, items, mode);
    if r.error.None? {
      EnsureAllCovers(d, items, mode);
      AllPresent(r.disk, items, mode);
    }
  }

  /** A run over items whose thumbnails all exist does nothing. */
  lemma {:induction false} AllPresent(d: Disk, items: seq<Item>, mode: MkdirMode)
    requires forall i :: 0 <= i < |items| ==> Exists(d, items[i].path)
    ensures EnsureAll(d, items, mode) == Run(d, None)
    decreases |items|
  {
    if items != [] {
      AllPresent(d, items[1..], mode);
    }
  }

  /**
   * The code as written: a directory two levels down whose parent has no
   * thumbnail directory yet makes `mkdir()` raise, so the first image there
   * gets no thumbnail and the listing fails.
   */
  lemma NestedDirectoryFails()
    ensures var items := [Item(["a", "b", "x.png"], Png, Good)];
      EnsureAll(Disk({}, {}), items, Plain) == Run(Disk({}, {}), Some(MkdirFailed(["a", "b"])))
  {
    var p: Path := ["a", "b", "x.png"];
    assert Parent(p) == ["a", "b"];
    assert Parent(Parent(p)) == ["a"];
  }

  /**
   * Nothing already in the directory is in the way of `items`: no file on a
   * directory above an item, no directory or file at an item's path.
   */
  predicate Clear(d: Disk, items: seq<Item>) {
    forall i :: 0 <= i < |items| ==>
      && items[i].path != []
      && items[i].path !in d.dirs
      && items[i].path !in d.files
      && forall j :: 1 <= j < |items[i].path| ==> items[i].path[..j] !in d.files
  }

  /** With `mkdir(parents=True)` a run over good images succeeds on any directory that is clear for them. */
  lemma {:induction false} ParentsRunSucceeds(d: Disk, items: seq<Item>)
    requires Sound(d) && PrefixFree(items) && Clear(d, items)
    requires forall i :: 0 <= i < |items| ==> items[i].content == Good
    ensures EnsureAll(d, items, Parents).error.None?
    decreases |items|
  {
    if items != [] {
      var r := Ensure(d, items[0].path, Good, Parents);
      ParentsFirstStep(d, items);
      var rest := items[1..];
      forall i, j | 0 <= i < |rest| && 0 <= j < |rest| && i != j ensures !(rest[i].path <= rest[j].path) {
        assert rest[i] == items[i + 1] && rest[j] == items[j + 1];
      }
      ParentsRunSucceeds(r.disk, rest);
    }
  }

  /** With `mkdir(parents=True)` the first of a clear, prefix-free list of good images succeeds and leaves the rest clear. */
  lemma ParentsFirstStep(d: Disk, items: seq<Item>)
    requires Sound(d) && PrefixFree(items) && Clear(d, items) && |items| > 0 && items[0].content == Good
    ensures var r := Ensure(d, items[0].path, Good, Parents);
      r.error.None? && Sound(r.disk) && Clear(r.disk, items[1..])
  {
    var p := items[0].path;
    var par := Parent(p);
    assert forall j :: 1 <= j <= |par| ==> par[..j] == p[..j];
    var r := Ensure(d, p, Good, Parents);
    assert r.error.None?;
    CreateSound(d, p, Good, Parents);
    var rest := items[1..];
    forall i | 0 <= i < |rest|
      ensures rest[i].path != [] && rest[i].path !in r.disk.dirs && rest[i].path !in r.disk.files
      ensures forall j :: 1 <= j < |rest[i].path| ==> rest[i].path[..j] !in r.disk.files
    {
      var q := rest[i].path;
      assert rest[i] == items[i + 1];
      assert !(p <= q) && !(q <= p);
    }
  }

  /** The thumbnail directory, updated in place by the walk. */
  class ThumbnailDir {
    var files: set<Path>
    var dirs: set<Path>

    function Contents(): Disk
      reads this
    {
      Disk(files, dirs)
    }

    /** A thumbnail directory holding `d`. */
    constructor (d: Disk)
      ensures Contents() == d
    {
      files := d.files;
      dirs := d.dirs;
    }

    /** `create_thumbnail(img, thumb, size)` with `thumb` at relative path `p`, making its parent by `mode`. */
    method CreateThumbnail(p: Path, content: Content, mode: MkdirMode) returns (r: Outcome<ThumbError>)
      modifies this
      ensures var run := Create(old(Contents()), p, content, mode);
        Contents() == run.disk && (r.Pass? <==> run.error.None?) && (r.Fail? ==> run.error == Some(r.error))
    {
      var par := Parent(p);
      if !(par == [] || par in dirs || par in files) {
        match mode {
          case Plain =>
            if !(par != [] && (Parent(par) == [] || Parent(par) in dirs)) {
              return Fail(MkdirFailed(par));
            }
            dirs := dirs + {par};
          case Parents =>
            if exists i :: 1 <= i <= |par| && par[..i] in files {
              return Fail(MkdirFailed(par));
            }
            dirs := dirs + Prefixes(par);
        }
      }
      if content == Unreadable {
        return Fail(OpenFailed(p));
      }
      if content == Unscalable || !(par == [] || par in dirs) || p == [] || p in dirs {
        return Fail(ThumbnailFailed(p));
      }
      files := files + {p};
      r := Pass;
    }

    /** `if not thumb.exists(): create_thumbnail(...)`. */
    method EnsureThumbnail(p: Path, content: Content, mode: MkdirMode) returns (r: Outcome<ThumbError>)
      modifies this
      ensures var run := Ensure(old(Contents()), p, content, mode);
        Contents() == run.disk && (r.Pass? <==> run.error.None?) && (r.Fail? ==> run.error == Some(r.error))
    {
      if p == [] || p in dirs || p in files {
        return Pass;
      }
      r := CreateThumbnail(p, content, mode);
    }
  }
}
