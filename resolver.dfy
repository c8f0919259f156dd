/**
 * `find_file` (teamster.py:102-105), which the image and thumbnail routes
 * (teamster.py:127-141) use to map a requested path back to a file: the path
 * itself when it exists, otherwise the path with its last suffix removed.
 * That is what lets `sub/b.jpeg.jpg`, as published for a relabelled image,
 * be served from `sub/b.jpeg`.
 */
module Resolver {
  import opened Wrappers
  import opened Paths
  import opened Catalog

  /** `with_suffix` raises ValueError on a path whose name is empty. */
  datatype PathError = EmptyName

  /**
   * `find_file` for `p`, relative to a served directory whose existing files
   * and sub-directories are `existing`; the directory itself (`[]`) exists.
   */
  function FindFile(p: Path, existing: set<Path>): Result<Path, PathError> {
    if p == [] || p in existing then Ok(p)
    else if Name(p) == "" then Err(EmptyName)
    else Ok(WithoutSuffix(p))
  }

  /**
   * What `find_file` returns: an existing path unchanged; otherwise the path
   * in the same directory whose name is the requested name without its
   * suffix (the path itself when the name has none).
   */
  lemma FindFileResult(p: Path, existing: set<Path>)
    ensures (p == [] || p in existing) ==> FindFile(p, existing) == Ok(p)
    ensures p != [] && p !in existing && Name(p) != "" ==>
      var r := FindFile(p, existing);
      && r.Ok?
      && |r.value| == |p| && Parent(r.value) == Parent(p)
      && Name(r.value) + Suffix(Name(p)) == Name(p)
      && (Suffix(Name(p)) == "" ==> r.value == p)
    ensures FindFile(p, existing).Err? <==> p != [] && p !in existing && Name(p) == ""
  {
    if p != [] && p !in existing && Name(p) != "" {
      WithoutSuffixShape(p);
    }
  }

  /**
   * Every published path leads back to its image: the path of an image of
   * type `t` as the listing publishes it resolves to the image's own path,
   * unless the published path happens to name another existing file.
   */
  lemma ServesPublished(q: Path, t: ImageType, existing: set<Path>)
    requires |q| > 0 && Name(q) != "" && q in existing
    requires Relabelled(t) ==> Published(q, t) !in existing
    ensures FindFile(Published(q, t), existing) == Ok(q)
  {
    if Relabelled(t) {
      AppendThenStrip(q, ".jpg");
    }
  }

  /** When `sub/b.jpeg.jpg` is itself a file, it is what gets served, not `sub/b.jpeg`. */
  lemma PublishedPathShadowed(existing: set<Path>)
    requires ["sub", "b.jpeg.jpg"] in existing
    ensures FindFile(Published(["sub", "b.jpeg"], Jpeg), existing) == Ok(["sub", "b.jpeg.jpg"])
  {
    assert Parent(["sub", "b.jpeg"]) == ["sub"];
    assert "b.jpeg" + ".jpg" == "b.jpeg.jpg";
    assert Published(["sub", "b.jpeg"], Jpeg) == ["sub"] + ["b.jpeg.jpg"];
    assert ["sub"] + ["b.jpeg.jpg"] == ["sub", "b.jpeg.jpg"];
  }
}
