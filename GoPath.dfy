/**
 * Go's `path/filepath.Join` and `Clean` on a system whose separator is `/`,
 * following their documented rules: collapse repeated separators, drop `.`
 * elements, let `..` cancel the element before it (and vanish at the root of
 * an absolute path), and write an empty result as `.`.
 */
module GoPath {
  import GoStrings

  /** An ordinary path element: none of the cases `Clean` rewrites. */
  predicate IsName(s: string) {
    s != "" && s != "." && s != ".." && '/' !in s
  }

  /** Processes one element against the elements kept so far. */
  function Resolve(kept: seq<string>, elem: string, rooted: bool): (r: seq<string>)
  {
    if elem == "" || elem == "." then kept
    else if elem != ".." then kept + [elem]
    else if |kept| > 0 && kept[|kept| - 1] != ".." then kept[..|kept| - 1]
    else if rooted then kept
    else kept + [".."]
  }

  /** Processes the elements of a path from left to right. */
  function Reduce(elems: seq<string>, rooted: bool): (r: seq<string>)
    decreases |elems|
  {
    if elems == [] then []
    else Resolve(Reduce(elems[..|elems| - 1], rooted), elems[|elems| - 1], rooted)
  }

  /** `filepath.Clean`: the shortest lexically equivalent path; never empty. */
  function Clean(p: string): (r: string)
    ensures r != ""
  {
    if p == "" then "."
    else
      var rooted := p[0] == '/';
      var body := GoStrings.Join(Reduce(GoStrings.Split(p, '/'), rooted), '/');
      if rooted then "/" + body
      else if body == "" then "."
      else body
  }

  /**
   * `filepath.Join`: skips the leading empty elements, joins the rest with
   * `/` and cleans the result; all elements empty give the empty string.
   */
  function Join(elems: seq<string>): (r: string)
    ensures r == "" <==> forall i :: 0 <= i < |elems| ==> elems[i] == ""
  {
    if elems == [] then ""
    else if elems[0] == "" then Join(elems[1..])
    else Clean(GoStrings.Join(elems, '/'))
  }

  /** Ordinary elements pass through `Reduce` untouched. */
  lemma {:induction false} ReduceNames(elems: seq<string>, rooted: bool)
    requires forall i :: 0 <= i < |elems| ==> IsName(elems[i])
    ensures Reduce(elems, rooted) == elems
    decreases |elems|
  {
    if elems != [] {
      var n := |elems|;
      ReduceNames(elems[..n - 1], rooted);
      assert elems[..n - 1] + [elems[n - 1]] == elems;
    }
  }

  /** Joining ordinary elements is plain `/`-joining: no cleaning happens. */
  lemma JoinNames(elems: seq<string>)
    requires |elems| >= 1
    requires forall i :: 0 <= i < |elems| ==> IsName(elems[i])
    ensures Join(elems) == GoStrings.Join(elems, '/')
  {
    var s := GoStrings.Join(elems, '/');
    GoStrings.SplitJoin(elems, '/');
    ReduceNames(elems, s[0] == '/');
    JoinStartsWith(elems, '/');
  }

  /** A join starts with the first character of its first element. */
  lemma JoinStartsWith(elems: seq<string>, sep: char)
    requires |elems| >= 1 && elems[0] != ""
    ensures var s := GoStrings.Join(elems, sep); s != "" && s[0] == elems[0][0]
  {
  }
}
