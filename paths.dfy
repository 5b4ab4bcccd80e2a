/**
 * An abstract model of the `java.nio.file` Unix path operations the storage service uses:
 * parsing a string into name segments, `resolve`, `normalize`, `toAbsolutePath`,
 * `getParent` and `equals`. A path is its absoluteness and its list of names; symbolic
 * links and the operating system's own resolution are not part of the model.
 */
module Paths {
  import opened Wrappers
  import opened Strings

  datatype Path = Path(absolute: bool, segments: seq<string>)

  /** The names of a path string: the text between separators, with empty names dropped. */
  function Segments(s: string): (r: seq<string>)
    ensures forall k :: 0 <= k < |r| ==> r[k] != "" && '/' !in r[k]
    decreases |s|
  {
    match IndexOf(s, '/')
    case None => if s == "" then [] else [s]
    case Some(i) => (if i == 0 then [] else [s[..i]]) + Segments(s[i + 1..])
  }

  /** Every character of every name comes from the string. */
  lemma {:induction false} SegmentsChars(s: string)
    ensures forall k, c :: 0 <= k < |Segments(s)| && c in Segments(s)[k] ==> c in s
    decreases |s|
  {
    match IndexOf(s, '/')
    case None =>
    case Some(i) =>
      SegmentsAt(s, i);
      SegmentsChars(s[i + 1..]);
      assert forall c :: c in s[..i] ==> c in s;
      assert forall c :: c in s[i + 1..] ==> c in s;
  }

  /**
   * `UnixPath` refuses a path string holding a NUL character: `Paths.get` and
   * `resolve(String)` throw `InvalidPathException` with this reason, followed by ": " and
   * the string. `Parse` below is the parse of every other string.
   */
  const NulReason := "Nul character not allowed"

  /** `Paths.get(s)` / `Path.of(s)`: a leading separator makes the path absolute. */
  function Parse(s: string): (p: Path)
    ensures p.absolute <==> |s| > 0 && s[0] == '/'
    ensures forall k :: 0 <= k < |p.segments| ==> p.segments[k] != "" && '/' !in p.segments[k]
  {
    Path(|s| > 0 && s[0] == '/', Segments(s))
  }

  /** `base.resolve(other)`: an absolute `other` replaces `base`, a relative one is appended. */
  function Resolve(base: Path, other: Path): (r: Path)
    ensures other.absolute ==> r == other
    ensures r.absolute <==> base.absolute || other.absolute
    ensures !other.absolute ==>
      |r.segments| == |base.segments| + |other.segments| &&
      r.segments[..|base.segments|] == base.segments && r.segments[|base.segments|..] == other.segments
  {
    if other.absolute then other else Path(base.absolute, base.segments + other.segments)
  }

  /** A name that is neither "." nor "..". */
  predicate Plain(name: string) {
    name != "." && name != ".."
  }

  /**
   * One step of `normalize`: "." disappears, ".." removes the preceding name when there is
   * one to remove, is dropped at the top of an absolute path and kept in a relative one.
   */
  function Step(absolute: bool, acc: seq<string>, name: string): seq<string> {
    if name == "." then acc
    else if name == ".." then
      if |acc| > 0 && acc[|acc| - 1] != ".." then acc[..|acc| - 1]
      else if absolute then acc
      else acc + [".."]
    else acc + [name]
  }

  /** The names `acc` followed by `names`, normalised from left to right. */
  function NormFrom(absolute: bool, acc: seq<string>, names: seq<string>): seq<string>
    decreases |names|
  {
    if names == [] then acc
    else Step(absolute, NormFrom(absolute, acc, names[..|names| - 1]), names[|names| - 1])
  }

  /**
   * The shape of a normalised name list: no "." names, ".." names only at the front, and
   * none at all in an absolute path.
   */
  predicate Canonical(absolute: bool, names: seq<string>) {
    && "." !in names
    && (absolute ==> ".." !in names)
    && (forall i, j :: 0 <= i < j < |names| && names[j] == ".." ==> names[i] == "..")
  }

  /** `Path.normalize()`: same absoluteness, canonical names, and never more names than before. */
  function Normalize(p: Path): (r: Path)
    ensures r.absolute == p.absolute
    ensures Canonical(r.absolute, r.segments)
    ensures |r.segments| <= |p.segments|
  {
    NormFromCanonical(p.absolute, [], p.segments);
    Path(p.absolute, NormFrom(p.absolute, [], p.segments))
  }

  /** Each step of `normalize` keeps a canonical list canonical and adds at most one name. */
  lemma StepCanonical(absolute: bool, acc: seq<string>, name: string)
    requires Canonical(absolute, acc)
    ensures Canonical(absolute, Step(absolute, acc, name))
    ensures |Step(absolute, acc, name)| <= |acc| + 1
  {
    var r := Step(absolute, acc, name);
    if name == ".." && |acc| > 0 && acc[|acc| - 1] != ".." {
      assert forall x :: x in r ==> x in acc;
    } else if name == ".." && !absolute {
      assert forall i :: 0 <= i < |acc| ==> acc[i] == "..";
    }
  }

  /** Normalising from a canonical list gives a canonical list, at most `names` longer. */
  lemma {:induction false} NormFromCanonical(absolute: bool, acc: seq<string>, names: seq<string>)
    requires Canonical(absolute, acc)
    ensures Canonical(absolute, NormFrom(absolute, acc, names))
    ensures |NormFrom(absolute, acc, names)| <= |acc| + |names|
    decreases |names|
  {
    if names != [] {
      NormFromCanonical(absolute, acc, names[..|names| - 1]);
      StepCanonical(absolute, NormFrom(absolute, acc, names[..|names| - 1]), names[|names| - 1]);
    }
  }

  /** A canonical list is left as it is by `normalize`. */
  lemma {:induction false} CanonicalIsFixed(absolute: bool, names: seq<string>)
    requires Canonical(absolute, names)
    ensures NormFrom(absolute, [], names) == names
    decreases |names|
  {
    if names != [] {
      var init := names[..|names| - 1];
      var last := names[|names| - 1];
      assert Canonical(absolute, init) by {
        assert forall x :: x in init ==> x in names;
      }
      CanonicalIsFixed(absolute, init);
      assert last != "." by {
        assert last in names;
      }
      assert init + [last] == names;
    }
  }

  /** `normalize` is idempotent. */
  lemma NormalizeIdempotent(p: Path)
    ensures IsNormal(Normalize(p))
  {
    var q := Normalize(p);
    CanonicalIsFixed(q.absolute, q.segments);
  }

  predicate IsNormal(p: Path) {
    Normalize(p) == p
  }

  /**
   * `Path.toAbsolutePath()`, with `cwd` the names of the process's working directory: an
   * absolute path is kept, a relative one ends up after the working directory.
   */
  function ToAbsolute(p: Path, cwd: seq<string>): (r: Path)
    ensures r.absolute
    ensures p.absolute ==> r == p
    ensures !p.absolute ==>
      |r.segments| == |cwd| + |p.segments| && r.segments[..|cwd|] == cwd && r.segments[|cwd|..] == p.segments
  {
    if p.absolute then p else Path(true, cwd + p.segments)
  }

  /**
   * `Path.getParent()`: absent for the empty path, for "/" and for a relative single name;
   * otherwise the path with its last name removed.
   */
  function Parent(p: Path): (r: Option<Path>)
    ensures r.Some? <==> |p.segments| > 1 || (|p.segments| == 1 && p.absolute)
    ensures r.Some? ==>
      r.value.absolute == p.absolute && r.value.segments + [p.segments[|p.segments| - 1]] == p.segments
  {
    if |p.segments| == 0 || (|p.segments| == 1 && !p.absolute) then None
    else Some(Path(p.absolute, p.segments[..|p.segments| - 1]))
  }

  /** A path with no separator in it is one name. */
  lemma SegmentsOfName(s: string)
    requires s != "" && '/' !in s
    ensures Segments(s) == [s]
  {
  }

  /** Splitting at a separator splits the list of names. */
  lemma {:induction false} SegmentsJoin(x: string, y: string)
    ensures Segments(x + "/" + y) == Segments(x) + Segments(y)
    decreases |x|
  {
    if '/' !in x {
      SegmentsJoinName(x, y);
    } else {
      var i := IndexOf(x, '/').value;
      SegmentsJoin(x[i + 1..], y);
      SegmentsJoinAt(x, y, i);
    }
  }

  /** SegmentsJoin when the first separator of the first part is at `i`, given it for the rest. */
  lemma SegmentsJoinAt(x: string, y: string, i: nat)
    requires IndexOf(x, '/') == Some(i)
    requires Segments(x[i + 1..] + "/" + y) == Segments(x[i + 1..]) + Segments(y)
    ensures Segments(x + "/" + y) == Segments(x) + Segments(y)
  {
    JoinHead(x, y, i);
    SegmentsAt(x, i);
    var head := if i == 0 then [] else [x[..i]];
    ConcatRegroup(head, Segments(x[i + 1..]), Segments(y));
  }

  /**
   * Regrouping a three-part concatenation. Kept as a lemma of its own: stated inline, next
   * to the unfolded `Segments` terms, the same step exhausts the solver.
   */
  lemma ConcatRegroup(head: seq<string>, a: seq<string>, b: seq<string>)
    ensures head + (a + b) == (head + a) + b
  {
  }

  /** The text before the first separator of x heads the split of x, then the separator, then y. */
  lemma JoinHead(x: string, y: string, i: nat)
    requires IndexOf(x, '/') == Some(i)
    ensures Segments(x + "/" + y) == (if i == 0 then [] else [x[..i]]) + Segments(x[i + 1..] + "/" + y)
  {
    FirstSeparatorOfJoin(x, y, i);
    SegmentsAt(x + "/" + y, i);
  }

  /** Appending a separator and more text keeps the first separator where it was. */
  lemma FirstSeparatorOfJoin(x: string, y: string, i: nat)
    requires IndexOf(x, '/') == Some(i)
    ensures IndexOf(x + "/" + y, '/') == Some(i)
    ensures (x + "/" + y)[..i] == x[..i]
    ensures (x + "/" + y)[i + 1..] == x[i + 1..] + "/" + y
  {
    var s := x + "/" + y;
    assert s[..i] == x[..i];
    IndexOfIsFirst(s, '/', i);
  }

  /** SegmentsJoin when the first part has no separator. */
  lemma SegmentsJoinName(x: string, y: string)
    requires '/' !in x
    ensures Segments(x + "/" + y) == Segments(x) + Segments(y)
  {
    var s := x + "/" + y;
    assert s[..|x|] == x && s[|x|] == '/';
    IndexOfIsFirst(s, '/', |x|);
    SegmentsAt(s, |x|);
    assert s[|x| + 1..] == y;
    assert Segments(x) == if x == "" then [] else [x];
  }

  /** The names of a string whose first separator is at `i`. */
  lemma SegmentsAt(s: string, i: nat)
    requires IndexOf(s, '/') == Some(i)
    ensures Segments(s) == (if i == 0 then [] else [s[..i]]) + Segments(s[i + 1..])
  {
  }

  /** Normalising a concatenation is normalising the second part after the first. */
  lemma {:induction false} NormFromAppend(absolute: bool, acc: seq<string>, a: seq<string>, b: seq<string>)
    ensures NormFrom(absolute, acc, a + b) == NormFrom(absolute, NormFrom(absolute, acc, a), b)
    decreases |b|
  {
    if b == [] {
      assert a + b == a;
    } else {
      assert (a + b)[..|a + b| - 1] == a + b[..|b| - 1];
      NormFromAppend(absolute, acc, a, b[..|b| - 1]);
    }
  }

  /** Plain names pass through `normalize` unchanged. */
  lemma {:induction false} NormFromPlain(absolute: bool, acc: seq<string>, names: seq<string>)
    requires forall k :: 0 <= k < |names| ==> Plain(names[k])
    ensures NormFrom(absolute, acc, names) == acc + names
    decreases |names|
  {
    if names != [] {
      NormFromPlain(absolute, acc, names[..|names| - 1]);
      assert names[..|names| - 1] + [names[|names| - 1]] == names;
    }
  }

  /** `normalize` never produces a "." name, nor a ".." name in an absolute path. */
  lemma {:induction false} NormFromClean(absolute: bool, acc: seq<string>, names: seq<string>)
    requires "." !in acc
    requires absolute ==> ".." !in acc
    ensures "." !in NormFrom(absolute, acc, names)
    ensures absolute ==> ".." !in NormFrom(absolute, acc, names)
    decreases |names|
  {
    if names != [] {
      var prev := NormFrom(absolute, acc, names[..|names| - 1]);
      NormFromClean(absolute, acc, names[..|names| - 1]);
      if |prev| > 0 {
        assert forall x :: x in prev[..|prev| - 1] ==> x in prev;
      }
    }
  }

  /**
   * A configured root that still holds a "." name, or a ".." name in an absolute path,
   * is not normal. (A relative root may begin with ".." names and still be normal.)
   */
  lemma DotsMakeRootAbnormal(root: Path)
    requires "." in root.segments || (root.absolute && ".." in root.segments)
    ensures !IsNormal(root)
  {
    NormFromClean(root.absolute, [], root.segments);
  }
}
