/**
 * The parts of `pathlib` the listing code relies on: a path's name (its last
 * component), the name's last suffix and stem, `with_suffix("")`, the parent
 * path and `str()` of a relative path.  A path is the sequence of its
 * components; names never contain '/'.
 *
 * The functions carry no postconditions of their own: what they mean is
 * stated by the lemmas below them, so that a proof about paths pays for
 * those facts only where it asks for them.
 */
module Paths {

  type Path = seq<string>

  /** `Path.name`: the last component, or "" for the root. */
  function Name(p: Path): string {
    if |p| == 0 then "" else p[|p| - 1]
  }

  /** `Path.parent`: everything but the last component; the root is its own parent. */
  function Parent(p: Path): Path {
    if |p| == 0 then [] else p[..|p| - 1]
  }

  /** `str.rfind`: the index of the last occurrence of `c` in `s`, or -1. */
  function RFind(s: string, c: char): (r: int)
    ensures -1 <= r < |s|
  {
    if |s| == 0 then -1
    else if s[|s| - 1] == c then |s| - 1
    else RFind(s[..|s| - 1], c)
  }

  /** The name has a suffix when its last dot is neither its first nor its last character. */
  predicate HasSuffix(name: string) {
    0 < RFind(name, '.') < |name| - 1
  }

  /** `PurePath.suffix` of a name: from the last dot on, or "" when there is no suffix. */
  function Suffix(name: string): string {
    var i := RFind(name, '.');
    if 0 < i < |name| - 1 then name[i..] else ""
  }

  /** `PurePath.stem` of a name: the name without its suffix. */
  function Stem(name: string): string {
    var i := RFind(name, '.');
    if 0 < i < |name| - 1 then name[..i] else name
  }

  /** `with_suffix("")` of a path with a non-empty name: its last component loses its suffix. */
  function WithoutSuffix(p: Path): Path
    requires |p| > 0
  {
    Parent(p) + [Stem(Name(p))]
  }

  /** The path whose last component is this path's name with `suffix` appended as text. */
  function AppendSuffix(p: Path, suffix: string): Path
    requires |p| > 0
  {
    Parent(p) + [Name(p) + suffix]
  }

  /** `str()` of a relative path: its components joined by '/', or "." when it has none. */
  function Join(p: Path): string {
    if |p| == 0 then "."
    else if |p| == 1 then p[0]
    else p[0] + "/" + Join(p[1..])
  }

  /** A suffix as `PurePath.suffix` reports it: a dot followed by at least one character, none of them a dot. */
  predicate IsSuffix(s: string) {
    2 <= |s| && s[0] == '.' && forall j :: 0 < j < |s| ==> s[j] != '.'
  }

  /** RFind finds the last occurrence, and -1 exactly when there is none. */
  lemma {:induction false} RFindLast(s: string, c: char)
    ensures RFind(s, c) == -1 ==> forall j :: 0 <= j < |s| ==> s[j] != c
    ensures 0 <= RFind(s, c) ==> s[RFind(s, c)] == c && forall j :: RFind(s, c) < j < |s| ==> s[j] != c
  {
    if |s| > 0 && s[|s| - 1] != c {
      var t := s[..|s| - 1];
      RFindLast(t, c);
      assert forall j :: 0 <= j < |t| ==> s[j] == t[j];
    }
  }

  /** The last occurrence is found where `c` occurs with no `c` after it. */
  lemma RFindAt(s: string, c: char, i: nat)
    requires i < |s| && s[i] == c && forall j :: i < j < |s| ==> s[j] != c
    ensures RFind(s, c) == i
  {
    RFindLast(s, c);
  }

  /**
   * A name splits into its stem followed by its suffix; the suffix is either
   * empty (no dot, a leading dot only, or a trailing dot) or a proper suffix
   * shorter than the name; a non-empty name has a non-empty stem.
   */
  lemma SuffixShape(name: string)
    ensures Suffix(name) == "" <==> !HasSuffix(name)
    ensures Suffix(name) == "" || (IsSuffix(Suffix(name)) && |Suffix(name)| < |name|)
    ensures Stem(name) + Suffix(name) == name
    ensures name != "" ==> Stem(name) != ""
  {
    RFindLast(name, '.');
    var i := RFind(name, '.');
    if 0 < i < |name| - 1 {
      assert name[..i] + name[i..] == name;
    }
  }

  /** Appending a suffix to a non-empty name gives the name exactly that suffix, and the name back as its stem. */
  lemma AppendedSuffix(name: string, suffix: string)
    requires name != "" && IsSuffix(suffix)
    ensures Suffix(name + suffix) == suffix
    ensures Stem(name + suffix) == name
  {
    var s := name + suffix;
    RFindLast(s, '.');
    var i := RFind(s, '.');
    assert s[|name|] == '.';
    assert s[|name| + 1..] == suffix[1..];
    assert i == |name|;
  }

  /** `with_suffix("")` undoes `AppendSuffix` on a path with a non-empty name. */
  lemma AppendThenStrip(p: Path, suffix: string)
    requires |p| > 0 && Name(p) != "" && IsSuffix(suffix)
    ensures WithoutSuffix(AppendSuffix(p, suffix)) == p
  {
    AppendedSuffix(Name(p), suffix);
  }

  /** `with_suffix("")` keeps the parent and the number of components, and drops exactly the suffix. */
  lemma WithoutSuffixShape(p: Path)
    requires |p| > 0
    ensures |WithoutSuffix(p)| == |p| && Parent(WithoutSuffix(p)) == Parent(p)
    ensures Name(WithoutSuffix(p)) + Suffix(Name(p)) == Name(p)
    ensures Suffix(Name(p)) == "" ==> WithoutSuffix(p) == p
  {
    SuffixShape(Name(p));
    var q := WithoutSuffix(p);
    assert q[..|q| - 1] == Parent(p);
    if Suffix(Name(p)) == "" {
      assert p == Parent(p) + [Name(p)];
    }
  }

  /** `str()` of a path with `suffix` appended to its name is `str()` of the path followed by `suffix`. */
  lemma {:induction false} JoinAppendSuffix(p: Path, suffix: string)
    requires |p| > 0
    ensures Join(AppendSuffix(p, suffix)) == Join(p) + suffix
  {
    var q := AppendSuffix(p, suffix);
    if |p| == 1 {
      assert q == [p[0] + suffix];
    } else {
      assert q[0] == p[0];
      assert q[1..] == AppendSuffix(p[1..], suffix);
      JoinAppendSuffix(p[1..], suffix);
    }
  }
}
