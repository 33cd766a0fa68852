/**
 * Paths as the resolver sees them.  Every path string in the resolver is
 * split on the separator with empty pieces dropped before it reaches the
 * filesystem (`normalize(p).split(sep).filter(Boolean)` and `path.join`), so
 * a path is modelled directly as its sequence of non-empty segments and
 * joining two paths is sequence concatenation.
 */
module PathModel {

  /** One path segment: non-empty and free of the separator. */
  type Segment = s: string | s != "" && '/' !in s witness "a"

  /** A relative or rooted path, as its segments. */
  type Path = seq<Segment>

  /** A page extension such as "tsx"; it is written into a segment after a dot. */
  type Extension = e: string | '/' !in e

  datatype Option<+T> = None | Some(value: T)

  /** The path written out as a rooted string, with a separator before every segment. */
  function Text(p: Path): string
  {
    if p == [] then "" else "/" + p[0] + Text(p[1..])
  }

  /** Writing out one more segment appends a separator and that segment. */
  lemma {:induction false} TextSnoc(p: Path, s: Segment)
    ensures Text(p + [s]) == Text(p) + "/" + s
  {
    if p == [] {
      assert [] + [s] == [s] && [s][1..] == [];
    } else {
      assert (p + [s])[1..] == p[1..] + [s];
      TextSnoc(p[1..], s);
    }
  }

  /** String suffix test, as `String.prototype.endsWith`. */
  predicate EndsWith(s: string, suffix: string)
  {
    |suffix| <= |s| && s[|s| - |suffix|..] == suffix
  }
}
