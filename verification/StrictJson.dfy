/** Strict JSON decoding (arena/reviewers/strict_json.py): unique keys, and a loop with an
    explicit stack that bounds depth, node count and float finiteness. */
module StrictJson {
  import opened Common

  const MAX_DEPTH := 64
  const MAX_NODES := 200_000

  /** A decoded value; an object lists its keys and values in document order. */
  datatype Json =
    | Null | Bool(b: bool) | Int(i: int) | Float(finite: bool) | Text(s: string)
    | Array(items: seq<Json>)
    | Object(keys: seq<string>, values: seq<Json>)

  function Children(j: Json): seq<Json> {
    match j
    case Array(items) => items
    case Object(_, values) => values
    case _ => []
  }

  // ---------------------------------------------------------------- the recursive reading

  ghost function Depth(j: Json): nat
    decreases j, 1
  {
    match j
    case Array(items) => 1 + DepthOfAll(items)
    case Object(_, values) => 1 + DepthOfAll(values)
    case _ => 1
  }

  /** The greatest depth in the list; 0 for none. */
  ghost function DepthOfAll(js: seq<Json>): nat
    decreases js, 0
  {
    if js == [] then 0 else Max(Depth(js[0]), DepthOfAll(js[1..]))
  }

  ghost function Nodes(j: Json): nat
    decreases j, 1
  {
    match j
    case Array(items) => 1 + NodesOfAll(items)
    case Object(_, values) => 1 + NodesOfAll(values)
    case _ => 1
  }

  ghost function NodesOfAll(js: seq<Json>): nat
    decreases js, 0
  {
    if js == [] then 0 else Nodes(js[0]) + NodesOfAll(js[1..])
  }

  ghost predicate Finite(j: Json)
    decreases j, 1
  {
    match j
    case Float(finite) => finite
    case Array(items) => FiniteAll(items)
    case Object(_, values) => FiniteAll(values)
    case _ => true
  }

  ghost predicate FiniteAll(js: seq<Json>)
    decreases js, 0
  {
    js == [] || (Finite(js[0]) && FiniteAll(js[1..]))
  }

  /** What a document must satisfy, without any notion of traversal. */
  ghost predicate Acceptable(j: Json) {
    Depth(j) <= MAX_DEPTH && Nodes(j) <= MAX_NODES && Finite(j)
  }

  // ---------------------------------------------------------------- the same, by paths

  /** The way to a value inside a document: the position in each array or object on the way. */
  type Path = seq<nat>

  ghost predicate HasPath(j: Json, p: Path)
    decreases |p|
  {
    || p == []
    || (j.Array? && p[0] < |j.items| && HasPath(j.items[p[0]], p[1..]))
    || (j.Object? && p[0] < |j.values| && HasPath(j.values[p[0]], p[1..]))
  }

  ghost function At(j: Json, p: Path): Json
    requires HasPath(j, p)
    decreases |p|
  {
    if p == [] then j
    else if j.Array? then At(j.items[p[0]], p[1..])
    else At(j.values[p[0]], p[1..])
  }

  /** All paths of a document. */
  ghost function Paths(j: Json): seq<Path>
    decreases j, 1
  {
    match j
    case Array(items) => [[]] + PathsOfAll(items, 0)
    case Object(_, values) => [[]] + PathsOfAll(values, 0)
    case _ => [[]]
  }

  /** The paths into a list whose first element has position n. */
  ghost function PathsOfAll(js: seq<Json>, n: nat): seq<Path>
    decreases js, 0
  {
    if js == [] then [] else Below(n, Paths(js[0])) + PathsOfAll(js[1..], n + 1)
  }

  ghost function Below(n: nat, ps: seq<Path>): (below: seq<Path>)
    ensures |below| == |ps| && forall i :: 0 <= i < |ps| ==> below[i] == [n] + ps[i]
  {
    seq(|ps|, i requires 0 <= i < |ps| => [n] + ps[i])
  }

  ghost predicate HasPathInto(js: seq<Json>, n: nat, p: Path) {
    p != [] && n <= p[0] < n + |js| && HasPath(js[p[0] - n], p[1..])
  }

  lemma {:induction false} BelowHas(n: nat, ps: seq<Path>, p: Path)
    ensures p in Below(n, ps) <==> p != [] && p[0] == n && p[1..] in ps
    ensures Distinct(ps) ==> Distinct(Below(n, ps))
  {
    var below := Below(n, ps);
    if p in below {
      var i :| 0 <= i < |ps| && below[i] == p;
      assert p[1..] == ps[i];
    }
    if p != [] && p[0] == n && p[1..] in ps {
      var i :| 0 <= i < |ps| && ps[i] == p[1..];
      assert below[i] == p;
    }
    forall i, k | 0 <= i < k < |ps| && Distinct(ps) ensures below[i] != below[k] {
      assert below[i][1..] == ps[i] && below[k][1..] == ps[k];
    }
  }

  lemma {:induction false} PathsAre(j: Json, p: Path)
    ensures |Paths(j)| == Nodes(j)
    ensures p in Paths(j) <==> HasPath(j, p)
    decreases j, 1
  {
    match j {
      case Array(items) =>
        PathsOfAllAre(items, 0, p);
      case Object(_, values) =>
        PathsOfAllAre(values, 0, p);
      case _ =>
    }
  }

  lemma {:induction false} InConcat(a: seq<Path>, b: seq<Path>, p: Path)
    ensures p in a + b <==> p in a || p in b
  {
  }

  lemma {:induction false} PathsOfAllAre(js: seq<Json>, n: nat, p: Path)
    ensures |PathsOfAll(js, n)| == NodesOfAll(js)
    ensures p in PathsOfAll(js, n) <==> HasPathInto(js, n, p)
    decreases js, 0
  {
    hide Paths, Nodes, HasPath;
    if js != [] {
      PathsAre(js[0], if p == [] then [] else p[1..]);
      PathsOfAllAre(js[1..], n + 1, p);
      BelowHas(n, Paths(js[0]), p);
      hide Below;
      InConcat(Below(n, Paths(js[0])), PathsOfAll(js[1..], n + 1), p);
    }
  }

  lemma {:induction false} PathsDiffer(j: Json)
    ensures Distinct(Paths(j))
    decreases j, 1
  {
    match j {
      case Array(items) =>
        PathsOfAllDiffer(items, 0);
        NoEmptyPath(items);
      case Object(_, values) =>
        PathsOfAllDiffer(values, 0);
        NoEmptyPath(values);
      case _ =>
    }
  }

  lemma {:induction false} NoEmptyPath(js: seq<Json>)
    ensures Distinct(PathsOfAll(js, 0)) ==> Distinct([[]] + PathsOfAll(js, 0))
  {
    PathsOfAllAre(js, 0, []);
    var rest := PathsOfAll(js, 0);
    forall i | 0 <= i < |rest| ensures rest[i] != [] { assert rest[i] in rest; }
  }

  lemma {:induction false} PathsOfAllDiffer(js: seq<Json>, n: nat)
    ensures Distinct(PathsOfAll(js, n))
    decreases js, 0
  {
    if js != [] {
      var first, rest := Below(n, Paths(js[0])), PathsOfAll(js[1..], n + 1);
      PathsDiffer(js[0]);
      PathsOfAllDiffer(js[1..], n + 1);
      BelowHas(n, Paths(js[0]), []);
      forall i, k | 0 <= i < |first| && 0 <= k < |rest| ensures first[i] != rest[k] {
        PathsOfAllAre(js[1..], n + 1, rest[k]);
        assert rest[k] in rest;
      }
    }
  }

  /** A value lies deeper than n exactly when some path has n steps. */
  lemma {:induction false} DepthByPaths(j: Json, n: nat)
    ensures Depth(j) > n <==> exists p: Path :: |p| == n && HasPath(j, p)
    decreases j, 1
  {
    if n == 0 {
      assert HasPath(j, []);
      assert Depth(j) > 0;
    } else {
      match j {
        case Array(items) => DeepElement(j, items, n);
        case Object(_, values) => DeepElement(j, values, n);
        case _ =>
      }
    }
  }

  lemma {:induction false} DeepElement(j: Json, js: seq<Json>, n: nat)
    requires n > 0 && ((j.Array? && js == j.items) || (j.Object? && js == j.values))
    ensures DepthOfAll(js) >= n <==> exists p: Path :: |p| == n && HasPath(j, p)
    decreases js, 0
  {
    DepthOfAllIsMax(js, n - 1);
    if k: nat :| k < |js| && Depth(js[k]) >= n {
      DepthByPaths(js[k], n - 1);
      var p: Path :| |p| == n - 1 && HasPath(js[k], p);
      assert ([k] + p)[1..] == p;
      assert HasPath(j, [k] + p);
    }
    if p: Path :| |p| == n && HasPath(j, p) {
      DepthByPaths(js[p[0]], n - 1);
      assert |p[1..]| == n - 1 && HasPath(js[p[0]], p[1..]);
    }
  }

  lemma {:induction false} FiniteByPaths(j: Json, p: Path)
    requires Finite(j) && HasPath(j, p)
    ensures !(At(j, p).Float? && !At(j, p).finite)
    decreases |p|
  {
    if p != [] {
      var js := if j.Array? then j.items else j.values;
      DepthOfAllIsMax(js, 0);
      FiniteByPaths(js[p[0]], p[1..]);
    }
  }

  lemma {:induction false} InfiniteFloat(j: Json) returns (p: Path)
    requires !Finite(j)
    ensures HasPath(j, p) && At(j, p).Float? && !At(j, p).finite
    decreases j
  {
    if j.Float? { return []; }
    var js := if j.Array? then j.items else j.values;
    DepthOfAllIsMax(js, 0);
    var k :| 0 <= k < |js| && !Finite(js[k]);
    var rest := InfiniteFloat(js[k]);
    p := [k] + rest;
    assert p[1..] == rest;
  }

  /** A document is acceptable exactly when no path has as many steps as MAX_DEPTH, there are at most
      MAX_NODES paths, and none leads to a float that is not finite. */
  lemma {:induction false} AcceptableByPaths(j: Json)
    ensures Acceptable(j) <==>
              && (forall p :: HasPath(j, p) ==> |p| < MAX_DEPTH)
              && |Paths(j)| <= MAX_NODES
              && (forall p :: HasPath(j, p) ==> !(At(j, p).Float? && !At(j, p).finite))
    ensures Distinct(Paths(j)) && forall p :: p in Paths(j) <==> HasPath(j, p)
  {
    PathsAre(j, []);
    PathsDiffer(j);
    forall p ensures p in Paths(j) <==> HasPath(j, p) { PathsAre(j, p); }
    hide Depth, Nodes, Finite, Paths, HasPath, At;
    DepthByPaths(j, MAX_DEPTH);
    if Depth(j) <= MAX_DEPTH {
      forall p | HasPath(j, p) ensures |p| < MAX_DEPTH { if |p| >= MAX_DEPTH { Shorten(j, p, MAX_DEPTH); } }
    }
    if Finite(j) {
      forall p | HasPath(j, p) ensures !(At(j, p).Float? && !At(j, p).finite) { FiniteByPaths(j, p); }
    } else {
      var p := InfiniteFloat(j);
    }
  }

  lemma {:induction false} Shorten(j: Json, p: Path, n: nat)
    requires HasPath(j, p) && n <= |p|
    ensures HasPath(j, p[..n])
    decreases n
  {
    if n > 0 {
      var js := if j.Array? then j.items else j.values;
      Shorten(js[p[0]], p[1..], n - 1);
      assert p[..n][1..] == p[1..][..n - 1];
    }
  }

  // ---------------------------------------------------------------- the explicit stack

  datatype Verdict = Accepted | TooDeep | TooManyNodes | NonFinite

  /** A value still to be visited, and the depth at which it occurs. */
  datatype Frame = Frame(node: Json, depth: nat)

  ghost function PendingNodes(stack: seq<Frame>): nat {
    if stack == [] then 0 else PendingNodes(stack[..|stack| - 1]) + Nodes(stack[|stack| - 1].node)
  }

  /** Every pending value, hung at its depth, stays within the depth bound. */
  ghost predicate PendingFits(stack: seq<Frame>) {
    forall i :: 0 <= i < |stack| ==> stack[i].depth + Depth(stack[i].node) <= MAX_DEPTH + 1
  }

  ghost predicate PendingFinite(stack: seq<Frame>) {
    forall i :: 0 <= i < |stack| ==> Finite(stack[i].node)
  }

  lemma {:induction false} DepthOfAllIsMax(js: seq<Json>, bound: nat)
    ensures DepthOfAll(js) <= bound <==> forall i :: 0 <= i < |js| ==> Depth(js[i]) <= bound
    ensures FiniteAll(js) <==> forall i :: 0 <= i < |js| ==> Finite(js[i])
  {
    if js != [] {
      DepthOfAllIsMax(js[1..], bound);
      assert forall i :: 1 <= i < |js| ==> js[i] == js[1..][i - 1];
    }
  }

  lemma {:induction false} NodesOfAllAppend(js: seq<Json>, j: Json)
    ensures NodesOfAll(js + [j]) == NodesOfAll(js) + Nodes(j)
  {
    if js == [] {
      assert js + [j] == [j];
    } else {
      NodesOfAllAppend(js[1..], j);
      assert (js + [j])[1..] == js[1..] + [j];
    }
  }

  /** Push the children of a visited value. */
  method PushChildren(stack: seq<Frame>, children: seq<Json>, depth: nat) returns (pushed: seq<Frame>)
    ensures PendingNodes(pushed) == PendingNodes(stack) + NodesOfAll(children)
    ensures PendingFits(pushed) <==> PendingFits(stack) && (children == [] || depth + DepthOfAll(children) <= MAX_DEPTH + 1)
    ensures PendingFinite(pushed) <==> PendingFinite(stack) && FiniteAll(children)
  {
    pushed := stack;
    for c := 0 to |children|
      invariant |pushed| == |stack| + c && pushed[..|stack|] == stack
      invariant forall i :: 0 <= i < c ==> pushed[|stack| + i] == Frame(children[i], depth)
      invariant PendingNodes(pushed) == PendingNodes(stack) + NodesOfAll(children[..c])
    {
      var frame := Frame(children[c], depth);
      assert (pushed + [frame])[..|pushed|] == pushed;
      NodesOfAllAppend(children[..c], children[c]);
      assert children[..c + 1] == children[..c] + [children[c]];
      pushed := pushed + [frame];
    }
    assert children[..|children|] == children;
    PushedFrames(stack, children, depth, pushed);
  }

  lemma {:induction false} PushedFrames(stack: seq<Frame>, children: seq<Json>, depth: nat, pushed: seq<Frame>)
    requires |pushed| == |stack| + |children| && pushed[..|stack|] == stack
    requires forall i :: 0 <= i < |children| ==> pushed[|stack| + i] == Frame(children[i], depth)
    ensures PendingFits(pushed) <==> PendingFits(stack) && (children == [] || depth + DepthOfAll(children) <= MAX_DEPTH + 1)
    ensures PendingFinite(pushed) <==> PendingFinite(stack) && FiniteAll(children)
  {
    var n := |stack|;
    assert forall i :: 0 <= i < n ==> pushed[i] == stack[i];
    assert forall i :: n <= i < |pushed| ==> pushed[i] == Frame(children[i - n], depth);
    if depth <= MAX_DEPTH + 1 {
      DepthOfAllIsMax(children, MAX_DEPTH + 1 - depth);
    } else if children != [] {
      DepthOfAllIsMax(children, 0);
      assert pushed[n].depth == depth;
    }
    DepthOfAllIsMax(children, 0);
    forall i | 0 <= i < |children| ensures Finite(pushed[n + i].node) == Finite(children[i]) {}
  }

  /** Taking out any one frame. */
  lemma {:induction false} WithoutFrame(stack: seq<Frame>, i: nat)
    requires i < |stack|
    ensures
      var rest, frame := stack[..i] + stack[i + 1..], stack[i];
      && PendingNodes(stack) == PendingNodes(rest) + Nodes(frame.node)
      && (PendingFits(stack) <==> PendingFits(rest) && frame.depth + Depth(frame.node) <= MAX_DEPTH + 1)
      && (PendingFinite(stack) <==> PendingFinite(rest) && Finite(frame.node))
  {
    hide Depth, Finite, Nodes, PendingNodes;
    NodesWithoutFrame(stack, i);
    AllButOne(stack, i, stack[..i] + stack[i + 1..], (frame: Frame) => frame.depth + Depth(frame.node) <= MAX_DEPTH + 1);
    AllButOne(stack, i, stack[..i] + stack[i + 1..], (frame: Frame) => Finite(frame.node));
  }

  lemma {:induction false} AllButOne(stack: seq<Frame>, i: nat, rest: seq<Frame>, p: Frame -> bool)
    requires i < |stack| && rest == stack[..i] + stack[i + 1..]
    ensures (forall k :: 0 <= k < |stack| ==> p(stack[k])) <==> p(stack[i]) && forall k :: 0 <= k < |rest| ==> p(rest[k])
  {
    assert forall k :: 0 <= k < |rest| ==> rest[k] == stack[if k < i then k else k + 1];
    forall k | 0 <= k < |stack| && k != i ensures stack[k] == rest[if k < i then k else k - 1] {}
  }

  lemma {:induction false} NodesWithoutFrame(stack: seq<Frame>, i: nat)
    requires i < |stack|
    ensures PendingNodes(stack) == PendingNodes(stack[..i] + stack[i + 1..]) + Nodes(stack[i].node)
  {
    var n := |stack| - 1;
    if i < n {
      NodesWithoutFrame(stack[..n], i);
      var rest := stack[..i] + stack[i + 1..];
      assert rest[..n - 1] == stack[..n][..i] + stack[..n][i + 1..] && rest[n - 1] == stack[n];
    } else {
      assert stack[..i] + stack[i + 1..] == stack[..n];
    }
  }

  /** The loop accepts a document exactly when it is acceptable, and each error names a bound that
      the document really breaks.  The source pops the last frame; here any frame may be next, so
      none of this depends on the order of the visits. */
  method ValidateStructure(root: Json) returns (verdict: Verdict)
    ensures verdict.Accepted? <==> Acceptable(root)
    ensures verdict.TooDeep? ==> Depth(root) > MAX_DEPTH
    ensures verdict.TooManyNodes? ==> Nodes(root) > MAX_NODES
    ensures verdict.NonFinite? ==> !Finite(root)
  {
    var nodes := 0;
    var stack := [Frame(root, 1)];
    assert stack[..0] == [];
    while stack != []
      invariant nodes + PendingNodes(stack) == Nodes(root) && nodes <= MAX_NODES
      invariant PendingFits(stack) <==> Depth(root) <= MAX_DEPTH
      invariant PendingFinite(stack) <==> Finite(root)
      decreases PendingNodes(stack)
    {
      var i :| 0 <= i < |stack|;
      var top, rest := stack[i], stack[..i] + stack[i + 1..];
      WithoutFrame(stack, i);
      if top.depth > MAX_DEPTH { return TooDeep; }
      nodes := nodes + 1;
      if nodes > MAX_NODES { return TooManyNodes; }
      if top.node.Float? && !top.node.finite { return NonFinite; }
      stack := PushChildren(rest, Children(top.node), top.depth + 1);
    }
    return Accepted;
  }

  // ---------------------------------------------------------------- duplicate keys

  /** The check applied to every decoded object. */
  method NoDuplicateKeys(keys: seq<string>) returns (ok: bool)
    ensures ok <==> Distinct(keys)
  {
    var seen: set<string> := {};
    for i := 0 to |keys|
      invariant Distinct(keys[..i])
      invariant forall k :: 0 <= k < i ==> keys[k] in seen
      invariant forall key :: key in seen ==> key in keys[..i]
    {
      if keys[i] in seen {
        var key := keys[i];
        assert key in keys[..i];
        return false;
      }
      seen := seen + {keys[i]};
      assert keys[..i + 1] == keys[..i] + [keys[i]];
    }
    assert keys[..|keys|] == keys;
    return true;
  }

  /** Every value counts itself, so an acceptable document bounds the length of its lists. */
  lemma {:induction false} ListFitsNodes(js: seq<Json>)
    ensures |js| <= NodesOfAll(js)
  {
    if js != [] { ListFitsNodes(js[1..]); }
  }
}
