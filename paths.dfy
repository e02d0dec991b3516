/**
 * Rust's `std::path::Path`, seen through its `components()`: a path is the
 * sequence of its (already normalised) components. Only the operations the
 * modelled code calls are here: `file_name`, `extension`, `strip_prefix` and
 * the `Ord` used by sorting.
 */
module Paths {
  import opened Wrappers

  /** `std::path::Component`, without the Windows-only `Prefix`. Declaration order is the `Ord` order. */
  datatype Component = RootDir | CurDir | ParentDir | Normal(name: string)

  type Path = seq<Component>

  /** `Path::file_name`: the last component when it is a normal one. */
  function FileName(p: Path): (r: Option<string>)
    ensures r.Some? <==> |p| > 0 && p[|p| - 1].Normal?
    ensures r.Some? ==> r.value == p[|p| - 1].name
  {
    if |p| > 0 && p[|p| - 1].Normal? then Some(p[|p| - 1].name) else None
  }

  /** Position of the last occurrence of `c` in `s`. */
  function LastIndexOf(s: string, c: char): (r: Option<nat>)
    ensures r.Some? ==> r.value < |s| && s[r.value] == c
    ensures r.Some? ==> forall j :: r.value < j < |s| ==> s[j] != c
    ensures r.None? ==> forall j :: 0 <= j < |s| ==> s[j] != c
    decreases |s|
  {
    if s == [] then None
    else if s[|s| - 1] == c then Some(|s| - 1)
    else LastIndexOf(s[..|s| - 1], c)
  }

  /**
   * The extension of a file name, as `rsplit_file_at_dot` splits it: the
   * text after the last '.', provided the text before that dot is not empty;
   * `..` has none.
   */
  function NameExtension(name: string): (r: Option<string>)
    ensures r.None? <==> name == ".." || forall k :: 0 < k < |name| ==> name[k] != '.'
    ensures r.Some? ==> exists k :: 0 < k < |name| && name[k] == '.' && r.value == name[k + 1..]
    ensures r.Some? ==> forall j :: 0 <= j < |r.value| ==> r.value[j] != '.'
  {
    if name == ".." then None
    else match LastIndexOf(name, '.')
      case None => None
      case Some(k) =>
        if k == 0 then None
        else
          Some(name[k + 1..])
  }

  /** A name `base.ext`, with a non-empty base and a dot-free `ext`, has extension `ext`. */
  lemma NameExtensionOf(base: string, ext: string)
    requires |base| > 0 && base + "." + ext != ".."
    requires forall j :: 0 <= j < |ext| ==> ext[j] != '.'
    ensures NameExtension(base + "." + ext) == Some(ext)
  {
    var name := base + "." + ext;
    assert name[|base|] == '.';
    var r := NameExtension(name);
    var k :| 0 < k < |name| && name[k] == '.' && r.value == name[k + 1..];
    assert name[|base| + 1..] == ext;
  }

  /** `Path::extension`. */
  function Extension(p: Path): (r: Option<string>)
    ensures r.Some? ==> FileName(p).Some?
    ensures r.Some? ==> exists k :: 0 < k < |FileName(p).value| && FileName(p).value[k] == '.' && r.value == FileName(p).value[k + 1..]
    ensures r.Some? ==> forall j :: 0 <= j < |r.value| ==> r.value[j] != '.'
  {
    match FileName(p)
    case None => None
    case Some(name) => NameExtension(name)
  }

  /** A one-component path `base.ext` has extension `ext`. */
  lemma ExtensionOfFile(name: string, base: string, ext: string)
    requires name == base + "." + ext && |base| > 0 && name != ".."
    requires forall j :: 0 <= j < |ext| ==> ext[j] != '.'
    ensures Extension([Normal(name)]) == Some(ext)
  {
    NameExtensionOf(base, ext);
  }

  /** `Path::strip_prefix`: what follows `base` when `base` is a component-wise prefix of `p`. */
  function StripPrefix(p: Path, base: Path): (r: Option<Path>)
    ensures r.Some? <==> base <= p
    ensures r.Some? ==> base + r.value == p
  {
    if |base| <= |p| && p[..|base|] == base then Some(p[|base|..]) else None
  }

  /** Lexicographic order on strings by code point (the order of their UTF-8 bytes). */
  predicate StrLe(a: string, b: string) {
    if a == [] then true
    else if b == [] then false
    else if a[0] != b[0] then a[0] < b[0]
    else StrLe(a[1..], b[1..])
  }

  function Rank(c: Component): nat {
    match c
    case RootDir => 0
    case CurDir => 1
    case ParentDir => 2
    case Normal(_) => 3
  }

  /** The derived `Ord` of `Component`: variant order first, then the name. */
  predicate ComponentLe(x: Component, y: Component) {
    if Rank(x) != Rank(y) then Rank(x) < Rank(y)
    else x.Normal? ==> StrLe(x.name, y.name)
  }

  /** `Ord for Path`: lexicographic over the components. */
  predicate PathLe(a: Path, b: Path) {
    if a == [] then true
    else if b == [] then false
    else if a[0] != b[0] then ComponentLe(a[0], b[0])
    else PathLe(a[1..], b[1..])
  }

  lemma {:induction false} StrLeTotal(a: string, b: string)
    ensures StrLe(a, b) || StrLe(b, a)
  {
    if a != [] && b != [] && a[0] == b[0] {
      StrLeTotal(a[1..], b[1..]);
    }
  }

  lemma {:induction false} StrLeAntisymmetric(a: string, b: string)
    requires StrLe(a, b) && StrLe(b, a)
    ensures a == b
  {
    if a != [] && b != [] {
      StrLeAntisymmetric(a[1..], b[1..]);
      assert a == [a[0]] + a[1..] && b == [b[0]] + b[1..];
    }
  }

  lemma {:induction false} StrLeTransitive(a: string, b: string, c: string)
    requires StrLe(a, b) && StrLe(b, c)
    ensures StrLe(a, c)
  {
    if a != [] && b != [] && c != [] && a[0] == b[0] && b[0] == c[0] {
      StrLeTransitive(a[1..], b[1..], c[1..]);
    }
  }

  lemma ComponentLeTotal(x: Component, y: Component)
    ensures ComponentLe(x, y) || ComponentLe(y, x)
  {
    if x.Normal? && y.Normal? { StrLeTotal(x.name, y.name); }
  }

  lemma ComponentLeAntisymmetric(x: Component, y: Component)
    requires ComponentLe(x, y) && ComponentLe(y, x)
    ensures x == y
  {
    if x.Normal? && y.Normal? { StrLeAntisymmetric(x.name, y.name); }
  }

  lemma ComponentLeTransitive(x: Component, y: Component, z: Component)
    requires ComponentLe(x, y) && ComponentLe(y, z)
    ensures ComponentLe(x, z)
  {
    if x.Normal? && y.Normal? && z.Normal? { StrLeTransitive(x.name, y.name, z.name); }
  }

  /** Any two paths are comparable. */
  lemma {:induction false} PathLeTotal(a: Path, b: Path)
    ensures PathLe(a, b) || PathLe(b, a)
  {
    if a != [] && b != [] {
      if a[0] == b[0] {
        PathLeTotal(a[1..], b[1..]);
      } else {
        ComponentLeTotal(a[0], b[0]);
      }
    }
  }

  /** Paths that compare both ways are equal, so a sorted order is unique. */
  lemma {:induction false} PathLeAntisymmetric(a: Path, b: Path)
    requires PathLe(a, b) && PathLe(b, a)
    ensures a == b
  {
    if a != [] && b != [] {
      if a[0] == b[0] {
        PathLeAntisymmetric(a[1..], b[1..]);
        assert a == [a[0]] + a[1..] && b == [b[0]] + b[1..];
      } else {
        ComponentLeAntisymmetric(a[0], b[0]);
      }
    }
  }

  lemma {:induction false} PathLeTransitive(a: Path, b: Path, c: Path)
    requires PathLe(a, b) && PathLe(b, c)
    ensures PathLe(a, c)
  {
    if a != [] && b != [] && c != [] {
      if a[0] == b[0] && b[0] == c[0] {
        PathLeTransitive(a[1..], b[1..], c[1..]);
      } else if a[0] != b[0] && b[0] != c[0] {
        ComponentLeTransitive(a[0], b[0], c[0]);
        if a[0] == c[0] { ComponentLeAntisymmetric(a[0], b[0]); }
      }
    }
  }
}
