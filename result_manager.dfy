/**
 * The JSON-like values the scan summary is made of, and the conversion
 * that `save_results` applies before writing them: every path reachable
 * through dicts and lists becomes its string form.
 */
module ResultManager {
  import opened Text
  import opened FileLoader

  datatype Atom = AStr(s: string) | AInt(n: int) | ABool(b: bool) | ANone

  datatype Json =
    | Dict(entries: map<string, Json>)
    | List(items: seq<Json>)
    | PathV(path: Path)
    | Tuple(elems: seq<Json>)
    | Other(atom: Atom)

  /** `str(path)`: the components joined by "/"; the empty path is ".". */
  function PathString(p: Path): (r: string)
    ensures p == [] ==> r == "."
    ensures p != [] ==> EndsWith(r, p[|p| - 1])
    ensures |p| > 1 ==> EndsWith(r, "/" + p[|p| - 1]) && |r| >= |p| - 1
  {
    if p == [] then "."
    else if |p| == 1 then p[0]
    else
      var last := p[|p| - 1];
      var r := PathString(p[..|p| - 1]) + "/" + last;
      assert r[|r| - |last| - 1..] == "/" + last;
      r
  }

  /** No path is reachable from `j` through dicts and lists. */
  predicate PathFree(j: Json)
  {
    match j
    case Dict(m) => forall k :: k in m ==> PathFree(m[k])
    case List(xs) => forall i :: 0 <= i < |xs| ==> PathFree(xs[i])
    case PathV(_) => false
    case _ => true
  }

  /** `_convert_paths_to_str`. */
  function ConvertPathsToStr(j: Json): (r: Json)
    ensures PathFree(r)
  {
    match j
    case Dict(m) => Dict(map k | k in m :: ConvertPathsToStr(m[k]))
    case List(xs) => List(seq(|xs|, i requires 0 <= i < |xs| => ConvertPathsToStr(xs[i])))
    case PathV(p) => Other(AStr(PathString(p)))
    case _ => j
  }

  /** A value is left as it is exactly when it holds no reachable path. */
  lemma {:induction false} ConvertUnchangedIffPathFree(j: Json)
    ensures ConvertPathsToStr(j) == j <==> PathFree(j)
  {
    match j
    case Dict(m) =>
      if PathFree(j) {
        forall k | k in m ensures ConvertPathsToStr(m[k]) == m[k] {
          ConvertUnchangedIffPathFree(m[k]);
        }
        assert (map k | k in m :: ConvertPathsToStr(m[k])) == m;
      }
    case List(xs) =>
      if PathFree(j) {
        forall i | 0 <= i < |xs| ensures ConvertPathsToStr(xs[i]) == xs[i] {
          ConvertUnchangedIffPathFree(xs[i]);
        }
        assert seq(|xs|, i requires 0 <= i < |xs| => ConvertPathsToStr(xs[i])) == xs;
      }
    case PathV(_) =>
    case Tuple(_) =>
    case Other(_) =>
  }

  /** Converting twice is converting once. */
  lemma ConvertIdempotent(j: Json)
    ensures ConvertPathsToStr(ConvertPathsToStr(j)) == ConvertPathsToStr(j)
  {
    ConvertUnchangedIffPathFree(ConvertPathsToStr(j));
  }

  /** The container structure of a value: dict keys and list lengths, leaves forgotten. */
  datatype Shape = SDict(fields: map<string, Shape>) | SList(elems: seq<Shape>) | SLeaf

  function ShapeOf(j: Json): Shape
  {
    match j
    case Dict(m) => SDict(map k | k in m :: ShapeOf(m[k]))
    case List(xs) => SList(seq(|xs|, i requires 0 <= i < |xs| => ShapeOf(xs[i])))
    case _ => SLeaf
  }

  /**
   * A dict becomes a dict with the same keys and a list a list of the same
   * length, all the way down; a path becomes its string, everything else
   * (tuples included) is untouched.
   */
  lemma {:induction false} ConvertPreservesShape(j: Json)
    ensures ShapeOf(ConvertPathsToStr(j)) == ShapeOf(j)
    ensures j.PathV? ==> ConvertPathsToStr(j) == Other(AStr(PathString(j.path)))
    ensures !j.Dict? && !j.List? && !j.PathV? ==> ConvertPathsToStr(j) == j
  {
    match j
    case Dict(m) =>
      var r := ConvertPathsToStr(j);
      forall k | k in m ensures ShapeOf(r.entries[k]) == ShapeOf(m[k]) {
        ConvertPreservesShape(m[k]);
      }
      assert (map k | k in r.entries :: ShapeOf(r.entries[k])) == (map k | k in m :: ShapeOf(m[k]));
    case List(xs) =>
      var r := ConvertPathsToStr(j);
      forall i | 0 <= i < |xs| ensures ShapeOf(r.items[i]) == ShapeOf(xs[i]) {
        ConvertPreservesShape(xs[i]);
      }
      assert seq(|r.items|, i requires 0 <= i < |r.items| => ShapeOf(r.items[i]))
          == seq(|xs|, i requires 0 <= i < |xs| => ShapeOf(xs[i]));
    case PathV(_) =>
    case Tuple(_) =>
    case Other(_) =>
  }

  /** A path inside a tuple is not converted. */
  lemma PathInTupleSurvives(p: Path)
    ensures ConvertPathsToStr(Tuple([PathV(p)])) == Tuple([PathV(p)])
  {
  }
}
