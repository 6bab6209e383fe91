/** Single-edit mutants of a syntax tree (arena/benchmark/mutation.py).  The parsed tree is a
    value; every mutant is made by changing one node of a fresh copy in place.  Operator nodes,
    which are leaves and never mutation sites, are part of their parent's label. */
module Mutation {
  import opened Common

  datatype CompareOp = Eq | NotEq | Lt | GtE | Gt | LtE | Is | IsNot | In | NotIn

  datatype BoolOperator = And | Or

  datatype ArithOp = Add | Sub | Mult | Div | OtherArith(name: string)

  datatype Label =
    | Compare(ops: seq<CompareOp>)
    | BoolOp(boolOp: BoolOperator)
    | BinOp(arithOp: ArithOp)
    | BoolConst(value: bool)
    | Other(text: string)

  datatype Kind = CompareSite | BoolOpSite | ArithSite | ConstSite

  datatype Tree = Tree(root: Label, children: seq<Tree>)

  /** The operator that replaces op, and the inverse of every replacement. */
  function SwapCompare(op: CompareOp): (swapped: CompareOp)
  {
    match op
    case Eq => NotEq
    case NotEq => Eq
    case Lt => GtE
    case GtE => Lt
    case Gt => LtE
    case LtE => Gt
    case Is => IsNot
    case IsNot => Is
    case In => NotIn
    case NotIn => In
  }

  function SwapArith(op: ArithOp): ArithOp {
    match op
    case Add => Sub
    case Sub => Add
    case Mult => Div
    case Div => Mult
    case OtherArith(_) => op
  }

  /** What kind of mutation site a node is, if any. */
  function KindOf(l: Label): Option<Kind> {
    match l
    case Compare(ops) => if |ops| == 1 then Some(CompareSite) else None
    case BoolOp(_) => Some(BoolOpSite)
    case BinOp(op) => if op.OtherArith? then None else Some(ArithSite)
    case BoolConst(_) => Some(ConstSite)
    case Other(_) => None
  }

  /** The label after the edit. */
  function Swapped(l: Label): Label
    requires KindOf(l).Some?
  {
    match l
    case Compare(ops) => Compare([SwapCompare(ops[0])])
    case BoolOp(op) => BoolOp(if op.And? then Or else And)
    case BinOp(op) => BinOp(SwapArith(op))
    case BoolConst(value) => BoolConst(!value)
  }

  /** Editing changes the label, keeps the kind of site, and done twice gives the label back. */
  lemma {:induction false} SwapIsInvolution(l: Label)
    requires KindOf(l).Some?
    ensures Swapped(l) != l && KindOf(Swapped(l)) == KindOf(l) && Swapped(Swapped(l)) == l
  {
    match l
    case Compare(ops) => assert ops == [ops[0]];
    case BoolOp(_) =>
    case BinOp(_) =>
    case BoolConst(_) =>
  }

  // ---------------------------------------------------------------- addresses

  /** A node is named by the child indices on the way to it. */
  type Address = seq<nat>

  predicate ValidAt(t: Tree, a: Address)
    decreases |a|
  {
    a == [] || (a[0] < |t.children| && ValidAt(t.children[a[0]], a[1..]))
  }

  function At(t: Tree, a: Address): Tree
    requires ValidAt(t, a)
    decreases |a|
  {
    if a == [] then t else At(t.children[a[0]], a[1..])
  }

  /** t with another label at one node. */
  function Relabel(t: Tree, a: Address, l: Label): Tree
    requires ValidAt(t, a)
    decreases |a|
  {
    if a == [] then Tree(l, t.children)
    else t.(children := t.children[a[0] := Relabel(t.children[a[0]], a[1..], l)])
  }

  lemma {:induction false} RelabelAt(t: Tree, a: Address, l: Label, b: Address)
    requires ValidAt(t, a)
    ensures ValidAt(Relabel(t, a, l), b) <==> ValidAt(t, b)
    ensures ValidAt(t, b) ==>
              && |At(Relabel(t, a, l), b).children| == |At(t, b).children|
              && At(Relabel(t, a, l), b).root == if b == a then l else At(t, b).root
    decreases |a|
  {
    if a != [] && b != [] && a[0] == b[0] && a[0] < |t.children| {
      RelabelAt(t.children[a[0]], a[1..], l, b[1..]);
      assert a == [a[0]] + a[1..] && b == [b[0]] + b[1..];
    }
  }

  lemma {:induction false} RelabelTwice(t: Tree, a: Address, l: Label, m: Label)
    requires ValidAt(t, a)
    ensures ValidAt(Relabel(t, a, l), a)
    ensures Relabel(Relabel(t, a, l), a, m) == Relabel(t, a, m)
    ensures Relabel(t, a, At(t, a).root) == t
    decreases |a|
  {
    if a != [] {
      RelabelTwice(t.children[a[0]], a[1..], l, m);
    }
  }

  lemma {:induction false} ValidChild(t: Tree, a: Address, j: nat)
    ensures ValidAt(t, a + [j]) <==> ValidAt(t, a) && j < |At(t, a).children|
    ensures ValidAt(t, a + [j]) ==> At(t, a + [j]) == At(t, a).children[j]
    decreases |a|
  {
    if a != [] {
      assert (a + [j])[1..] == a[1..] + [j];
      if a[0] < |t.children| { ValidChild(t.children[a[0]], a[1..], j); }
    } else {
      assert (a + [j])[1..] == [];
    }
  }

  lemma {:induction false} ValidParent(t: Tree, a: Address, b: Address)
    requires ValidAt(t, a + b)
    ensures ValidAt(t, a)
    decreases |a|
  {
    if a != [] {
      assert (a + b)[1..] == a[1..] + b;
      ValidParent(t.children[a[0]], a[1..], b);
    }
  }

  // ---------------------------------------------------------------- the walk

  function Size(t: Tree): (n: nat)
    ensures n > 0
  {
    1 + SizeAll(t.children)
  }

  function SizeAll(ts: seq<Tree>): nat {
    if ts == [] then 0 else Size(ts[0]) + SizeAll(ts[1..])
  }

  ghost predicate AllValid(t: Tree, queue: seq<Address>) {
    forall i :: 0 <= i < |queue| ==> ValidAt(t, queue[i])
  }

  function Work(t: Tree, queue: seq<Address>): nat
    requires AllValid(t, queue)
  {
    if queue == [] then 0 else Size(At(t, queue[0])) + Work(t, queue[1..])
  }

  /** The addresses of the first n children of a, in order. */
  function Children(a: Address, n: nat): (kids: seq<Address>)
    ensures |kids| == n && forall j :: 0 <= j < n ==> kids[j] == a + [j]
  {
    seq(n, j requires 0 <= j < n => a + [j])
  }

  lemma {:induction false} WorkAdds(t: Tree, p: seq<Address>, q: seq<Address>)
    requires AllValid(t, p) && AllValid(t, q)
    ensures AllValid(t, p + q) && Work(t, p + q) == Work(t, p) + Work(t, q)
  {
    if p == [] {
      assert p + q == q;
    } else {
      assert (p + q)[1..] == p[1..] + q;
      WorkAdds(t, p[1..], q);
    }
  }

  lemma {:induction false} WorkOfChildren(t: Tree, a: Address, from: nat)
    requires ValidAt(t, a) && from <= |At(t, a).children|
    ensures
      var kids := Children(a, |At(t, a).children|);
      AllValid(t, kids[from..]) && Work(t, kids[from..]) == SizeAll(At(t, a).children[from..])
    decreases |At(t, a).children| - from
  {
    var ts := At(t, a).children;
    var kids := Children(a, |ts|);
    forall i | 0 <= i < |kids[from..]| ensures ValidAt(t, kids[from..][i]) {
      ValidChild(t, a, from + i);
    }
    if from < |ts| {
      WorkOfChildren(t, a, from + 1);
      ValidChild(t, a, from);
      assert kids[from..][1..] == kids[from + 1..] && ts[from..][1..] == ts[from + 1..];
    }
  }

  /** Taking a node off the front of the queue and putting its children at the back. */
  lemma {:induction false} StepWorks(t: Tree, queue: seq<Address>)
    requires AllValid(t, queue) && queue != []
    ensures
      var next := queue[1..] + Children(queue[0], |At(t, queue[0]).children|);
      AllValid(t, next) && Work(t, next) == Work(t, queue) - 1
  {
    var a := queue[0];
    var kids := Children(a, |At(t, a).children|);
    WorkOfChildren(t, a, 0);
    assert kids[0..] == kids && At(t, a).children[0..] == At(t, a).children;
    WorkAdds(t, queue[1..], kids);
  }

  /** The breadth-first walk from a queue of nodes. */
  function WalkFrom(t: Tree, queue: seq<Address>): seq<Address>
    requires AllValid(t, queue)
    decreases Work(t, queue)
  {
    if queue == [] then []
    else
      StepWorks(t, queue);
      [queue[0]] + WalkFrom(t, queue[1..] + Children(queue[0], |At(t, queue[0]).children|))
  }

  function Walk(t: Tree): seq<Address> { WalkFrom(t, [[]]) }

  /** From a queue the walk visits exactly the nodes below some node of the queue. */
  ghost predicate Below(a: Address, queue: seq<Address>) {
    exists i :: 0 <= i < |queue| && queue[i] <= a
  }

  lemma {:induction false} BelowConcat(a: Address, p: seq<Address>, q: seq<Address>)
    ensures Below(a, p + q) <==> Below(a, p) || Below(a, q)
  {
    var all := p + q;
    if Below(a, p) {
      var i :| 0 <= i < |p| && p[i] <= a;
      assert all[i] <= a;
    }
    if Below(a, q) {
      var i :| 0 <= i < |q| && q[i] <= a;
      assert all[|p| + i] <= a;
    }
  }

  lemma {:induction false} BelowNode(t: Tree, first: Address, a: Address)
    requires ValidAt(t, first) && ValidAt(t, a)
    ensures first <= a <==> a == first || Below(a, Children(first, |At(t, first).children|))
  {
    var kids := Children(first, |At(t, first).children|);
    if first <= a && a != first {
      var j := a[|first|];
      assert a == first + [j] + a[|first| + 1..];
      ValidParent(t, first + [j], a[|first| + 1..]);
      ValidChild(t, first, j);
      assert kids[j] == first + [j] && kids[j] <= a;
    }
  }

  lemma {:induction false} BelowStep(t: Tree, queue: seq<Address>, a: Address)
    requires AllValid(t, queue) && queue != [] && ValidAt(t, a)
    ensures
      var next := queue[1..] + Children(queue[0], |At(t, queue[0]).children|);
      Below(a, queue) <==> a == queue[0] || Below(a, next)
  {
    assert queue == [queue[0]] + queue[1..];
    BelowNode(t, queue[0], a);
    BelowConcat(a, [queue[0]], queue[1..]);
    BelowConcat(a, queue[1..], Children(queue[0], |At(t, queue[0]).children|));
    assert Below(a, [queue[0]]) <==> queue[0] <= a by {
      if queue[0] <= a { assert [queue[0]][0] <= a; }
    }
  }

  lemma {:induction false} WalkVisits(t: Tree, queue: seq<Address>, a: Address)
    requires AllValid(t, queue)
    ensures a in WalkFrom(t, queue) <==> ValidAt(t, a) && Below(a, queue)
    decreases Work(t, queue)
  {
    if queue != [] {
      StepWorks(t, queue);
      var next := queue[1..] + Children(queue[0], |At(t, queue[0]).children|);
      WalkVisits(t, next, a);
      if ValidAt(t, a) { BelowStep(t, queue, a); }
    }
  }

  // ---------------------------------------------------------------- the order of the walk

  /** Among addresses of one length: the first difference decides. */
  predicate LexLess(a: Address, b: Address)
    requires |a| == |b|
  {
    a != [] && (a[0] < b[0] || (a[0] == b[0] && LexLess(a[1..], b[1..])))
  }

  /** Shallower nodes first, then from left to right. */
  predicate Before(a: Address, b: Address) {
    |a| < |b| || (|a| == |b| && LexLess(a, b))
  }

  lemma {:induction false} LexTransitive(a: Address, b: Address, c: Address)
    requires |a| == |b| == |c| && LexLess(a, b) && LexLess(b, c)
    ensures LexLess(a, c)
  {
    if a[0] == b[0] == c[0] { LexTransitive(a[1..], b[1..], c[1..]); }
  }

  lemma {:induction false} BeforeTransitive(a: Address, b: Address, c: Address)
    requires Before(a, b) && Before(b, c)
    ensures Before(a, c)
  {
    if |a| == |b| == |c| { LexTransitive(a, b, c); }
  }

  lemma {:induction false} LexIrreflexive(a: Address)
    ensures !LexLess(a, a)
  {
    if a != [] { LexIrreflexive(a[1..]); }
  }

  /** Children keep the order of their parents, and siblings are ordered by their index. */
  lemma {:induction false} LexChildren(a: Address, b: Address, i: nat, j: nat)
    requires |a| == |b|
    ensures LexLess(a, b) || (a == b && i < j) ==> LexLess(a + [i], b + [j])
  {
    if LexLess(a, b) || (a == b && i < j) {
      if a != [] {
        assert (a + [i])[1..] == a[1..] + [i] && (b + [j])[1..] == b[1..] + [j];
        LexChildren(a[1..], b[1..], i, j);
      }
    }
  }

  ghost predicate Sorted(s: seq<Address>) {
    forall i, k :: 0 <= i < k < |s| ==> Before(s[i], s[k])
  }

  /** What the queue of a breadth-first walk looks like: in order, and all that is one level deeper
      than its first node are children of nodes before that node. */
  ghost predicate Frontier(queue: seq<Address>) {
    && Sorted(queue)
    && forall i :: 0 < i < |queue| ==>
         || |queue[i]| == |queue[0]|
         || (|queue[i]| == |queue[0]| + 1 && LexLess(queue[i][..|queue[0]|], queue[0]))
  }

  lemma {:induction false} ChildrenSorted(a: Address, n: nat)
    ensures Sorted(Children(a, n))
  {
    forall i, k | 0 <= i < k < n ensures Before(Children(a, n)[i], Children(a, n)[k]) {
      LexChildren(a, a, i, k);
    }
  }

  /** A node of the queue that is one level deeper than a comes before every child of a. */
  lemma {:induction false} QueuedBeforeChild(queue: seq<Address>, i: nat, j: nat)
    requires Frontier(queue) && 0 < i < |queue|
    ensures Before(queue[i], queue[0] + [j])
  {
    var a, q := queue[0], queue[i];
    if |q| == |a| + 1 {
      assert q == q[..|a|] + [q[|a|]];
      LexChildren(q[..|a|], a, q[|a|], j);
    }
  }

  lemma {:induction false} SortedConcat(p: seq<Address>, q: seq<Address>)
    requires Sorted(p) && Sorted(q) && forall i, k :: 0 <= i < |p| && 0 <= k < |q| ==> Before(p[i], q[k])
    ensures Sorted(p + q)
  {
  }

  lemma {:induction false} FrontierStep(queue: seq<Address>, n: nat)
    requires Frontier(queue) && queue != []
    ensures Frontier(queue[1..] + Children(queue[0], n))
    ensures forall i :: 0 <= i < |queue| - 1 + n ==> Before(queue[0], (queue[1..] + Children(queue[0], n))[i])
  {
    var a := queue[0];
    var kids := Children(a, n);
    var next := queue[1..] + kids;
    ChildrenSorted(a, n);
    forall i, k | 0 <= i < |queue| - 1 && 0 <= k < n ensures Before(queue[1..][i], kids[k]) {
      QueuedBeforeChild(queue, i + 1, k);
    }
    SortedConcat(queue[1..], kids);
    forall i | 0 < i < |next|
      ensures || |next[i]| == |next[0]|
              || (|next[i]| == |next[0]| + 1 && LexLess(next[i][..|next[0]|], next[0]))
    {
      FrontierLevels(queue, n, i);
    }
  }

  lemma {:induction false} FrontierLevels(queue: seq<Address>, n: nat, i: nat)
    requires Frontier(queue) && queue != [] && 0 < i < |queue| - 1 + n
    ensures
      var next := queue[1..] + Children(queue[0], n);
      || |next[i]| == |next[0]|
      || (|next[i]| == |next[0]| + 1 && LexLess(next[i][..|next[0]|], next[0]))
  {
    var a := queue[0];
    var next := queue[1..] + Children(a, n);
    if |queue| > 1 {
      var b := queue[1];
      assert next[0] == b;
      assert Before(a, b);
      if i < |queue| - 1 {
        assert next[i] == queue[i + 1];
        if |b| == |a| && |queue[i + 1]| == |a| + 1 {
          LexTransitive(queue[i + 1][..|a|], a, b);
        } else if |b| == |a| + 1 {
          assert Before(b, queue[i + 1]);
        }
      } else {
        assert next[i] == a + [i - (|queue| - 1)];
        assert next[i][..|a|] == a;
      }
    }
  }

  lemma {:induction false} WalkInOrder(t: Tree, queue: seq<Address>)
    requires AllValid(t, queue) && Frontier(queue)
    ensures Sorted(WalkFrom(t, queue))
    ensures forall a :: a in WalkFrom(t, queue) && queue != [] ==> a == queue[0] || Before(queue[0], a)
    decreases Work(t, queue)
  {
    if queue != [] {
      StepWorks(t, queue);
      var n := |At(t, queue[0]).children|;
      var next := queue[1..] + Children(queue[0], n);
      FrontierStep(queue, n);
      WalkInOrder(t, next);
      var rest := WalkFrom(t, next);
      forall i | 0 <= i < |rest| ensures Before(queue[0], rest[i]) {
        assert rest[i] in rest;
        if next == [] {
        } else {
          assert Before(queue[0], next[0]);
          if rest[i] != next[0] { BeforeTransitive(queue[0], next[0], rest[i]); }
        }
      }
    }
  }

  /** The walk lists every node of the tree exactly once, level by level and from left to right. */
  lemma {:induction false} WalkIsLevelOrder(t: Tree)
    ensures forall a :: a in Walk(t) <==> ValidAt(t, a)
    ensures Sorted(Walk(t)) && forall i, k :: 0 <= i < k < |Walk(t)| ==> Walk(t)[i] != Walk(t)[k]
  {
    var queue: seq<Address> := [[]];
    forall a ensures a in Walk(t) <==> ValidAt(t, a) {
      WalkVisits(t, queue, a);
      assert queue[0] <= a;
    }
    assert Frontier(queue);
    WalkInOrder(t, queue);
    forall i, k | 0 <= i < k < |Walk(t)| ensures Walk(t)[i] != Walk(t)[k] {
      LexIrreflexive(Walk(t)[i]);
    }
  }

  // ---------------------------------------------------------------- sites and mutants

  /** The mutation sites among these nodes, in order. */
  function SitesIn(t: Tree, walk: seq<Address>): seq<(Kind, Address)>
    requires AllValid(t, walk)
  {
    if walk == [] then []
    else
      var last := walk[|walk| - 1];
      var kind := KindOf(At(t, last).root);
      SitesIn(t, walk[..|walk| - 1]) + if kind.Some? then [(kind.value, last)] else []
  }

  lemma {:induction false} WalkIsValid(t: Tree)
    ensures AllValid(t, Walk(t))
  {
    WalkIsLevelOrder(t);
    forall i | 0 <= i < |Walk(t)| ensures ValidAt(t, Walk(t)[i]) {
      assert Walk(t)[i] in Walk(t);
    }
  }

  function Sites(t: Tree): seq<(Kind, Address)> {
    WalkIsValid(t);
    SitesIn(t, Walk(t))
  }

  /** The sites are the nodes with a kind, each once, in the order of the walk. */
  lemma {:induction false} SitesInAre(t: Tree, walk: seq<Address>)
    requires AllValid(t, walk)
    ensures forall s :: s in SitesIn(t, walk) <==> s.1 in walk && ValidAt(t, s.1) && KindOf(At(t, s.1).root) == Some(s.0)
    ensures Sorted(walk) ==>
              forall i, k :: 0 <= i < k < |SitesIn(t, walk)| ==> Before(SitesIn(t, walk)[i].1, SitesIn(t, walk)[k].1)
  {
    hide Before;
    if walk != [] {
      var rest, last := walk[..|walk| - 1], walk[|walk| - 1];
      SitesInAre(t, rest);
      assert walk == rest + [last];
      forall i | 0 <= i < |SitesIn(t, rest)| && Sorted(walk) ensures Before(SitesIn(t, rest)[i].1, last) {
        assert SitesIn(t, rest)[i] in SitesIn(t, rest);
      }
    }
  }

  lemma {:induction false} SitesAre(t: Tree)
    ensures forall s :: s in Sites(t) <==> ValidAt(t, s.1) && KindOf(At(t, s.1).root) == Some(s.0)
    ensures forall i, k :: 0 <= i < k < |Sites(t)| ==> Before(Sites(t)[i].1, Sites(t)[k].1)
  {
    WalkIsValid(t);
    WalkIsLevelOrder(t);
    SitesInAre(t, Walk(t));
  }

  /** Which nodes are sites: a comparison by one operator, an and/or, an addition, subtraction,
      multiplication or division, and a boolean constant. */
  lemma {:induction false} SiteLabels(t: Tree, a: Address)
    requires ValidAt(t, a)
    ensures
      var l := At(t, a).root;
      && ((CompareSite, a) in Sites(t) <==> l.Compare? && |l.ops| == 1)
      && ((BoolOpSite, a) in Sites(t) <==> l.BoolOp?)
      && ((ArithSite, a) in Sites(t) <==> l.BinOp? && (l.arithOp.Add? || l.arithOp.Sub? || l.arithOp.Mult? || l.arithOp.Div?))
      && ((ConstSite, a) in Sites(t) <==> l.BoolConst?)
  {
    SitesAre(t);
    hide Sites, ValidAt, At;
  }

  lemma {:induction false} SiteIsValid(t: Tree, k: nat)
    requires k < |Sites(t)|
    ensures ValidAt(t, Sites(t)[k].1) && KindOf(At(t, Sites(t)[k].1).root) == Some(Sites(t)[k].0)
  {
    SitesAre(t);
    assert Sites(t)[k] in Sites(t);
  }

  function Mutated(t: Tree, k: nat): Tree
    requires k < |Sites(t)|
  {
    SiteIsValid(t, k);
    var a := Sites(t)[k].1;
    Relabel(t, a, Swapped(At(t, a).root))
  }

  /** The mutant has the shape of the original and differs from it at the k-th site and nowhere else. */
  lemma {:induction false} MutantDiffersAtOneNode(t: Tree, k: nat, b: Address)
    requires k < |Sites(t)|
    ensures ValidAt(Mutated(t, k), b) <==> ValidAt(t, b)
    ensures ValidAt(t, b) ==>
              && |At(Mutated(t, k), b).children| == |At(t, b).children|
              && (At(Mutated(t, k), b).root != At(t, b).root <==> b == Sites(t)[k].1)
              && KindOf(At(Mutated(t, k), b).root) == KindOf(At(t, b).root)
  {
    SiteIsValid(t, k);
    var a := Sites(t)[k].1;
    RelabelAt(t, a, Swapped(At(t, a).root), b);
    SwapIsInvolution(At(t, a).root);
  }

  ghost predicate SameShape(t: Tree, u: Tree) {
    forall a :: (ValidAt(t, a) <==> ValidAt(u, a)) && (ValidAt(t, a) ==> |At(t, a).children| == |At(u, a).children|)
  }

  lemma {:induction false} WalkOfSameShape(t: Tree, u: Tree, queue: seq<Address>)
    requires SameShape(t, u) && AllValid(t, queue)
    ensures AllValid(u, queue) && WalkFrom(u, queue) == WalkFrom(t, queue)
    decreases Work(t, queue)
  {
    if queue != [] {
      StepWorks(t, queue);
      StepWorks(u, queue);
      WalkOfSameShape(t, u, queue[1..] + Children(queue[0], |At(t, queue[0]).children|));
    }
  }

  lemma {:induction false} SitesOfSameKinds(t: Tree, u: Tree, walk: seq<Address>)
    requires AllValid(t, walk) && AllValid(u, walk)
    requires forall i :: 0 <= i < |walk| ==> KindOf(At(t, walk[i]).root) == KindOf(At(u, walk[i]).root)
    ensures SitesIn(t, walk) == SitesIn(u, walk)
  {
    if walk != [] {
      SitesOfSameKinds(t, u, walk[..|walk| - 1]);
    }
  }

  /** A mutation changes neither the number, nor the order, nor the kinds of the sites. */
  lemma {:induction false} MutationKeepsSites(t: Tree, k: nat)
    requires k < |Sites(t)|
    ensures Sites(Mutated(t, k)) == Sites(t)
  {
    var u := Mutated(t, k);
    forall b
      ensures (ValidAt(t, b) <==> ValidAt(u, b)) && (ValidAt(t, b) ==> |At(t, b).children| == |At(u, b).children|)
      ensures ValidAt(t, b) ==> KindOf(At(t, b).root) == KindOf(At(u, b).root)
    {
      MutantDiffersAtOneNode(t, k, b);
    }
    hide KindOf, ValidAt, At, Mutated;
    WalkOfSameShape(t, u, [[]]);
    WalkIsValid(t);
    SitesOfSameKinds(t, u, Walk(t));
  }

  /** Mutating the same site again restores the tree. */
  lemma {:induction false} MutationIsUndone(t: Tree, k: nat)
    requires k < |Sites(t)|
    ensures k < |Sites(Mutated(t, k))| && Mutated(Mutated(t, k), k) == t
  {
    MutationKeepsSites(t, k);
    SiteIsValid(t, k);
    var a := Sites(t)[k].1;
    var l := At(t, a).root;
    SwapIsInvolution(l);
    RelabelAt(t, a, Swapped(l), a);
    RelabelTwice(t, a, Swapped(l), l);
  }

  /** Different sites give different mutants. */
  lemma {:induction false} MutantsAreDistinct(t: Tree, k: nat, m: nat)
    requires k < m < |Sites(t)|
    ensures Mutated(t, k) != Mutated(t, m) && Mutated(t, k) != t
  {
    SitesAre(t);
    SiteIsValid(t, k);
    var a, b := Sites(t)[k].1, Sites(t)[m].1;
    assert a != b by {
      assert Before(a, b);
      LexIrreflexive(a);
    }
    MutantDiffersAtOneNode(t, k, a);
    MutantDiffersAtOneNode(t, m, a);
  }

  // ---------------------------------------------------------------- what a mutant means

  /** How the two operands of a comparison relate: at most one of less, equal and greater. */
  datatype Operands = Operands(less: bool, equal: bool, greater: bool, identical: bool, member: bool)
  {
    predicate Consistent() { !(less && equal) && !(less && greater) && !(equal && greater) }
    predicate Ordered() { less || equal || greater }
  }

  function Holds(op: CompareOp, o: Operands): bool {
    match op
    case Eq => o.equal
    case NotEq => !o.equal
    case Lt => o.less
    case GtE => o.greater || o.equal
    case Gt => o.greater
    case LtE => o.less || o.equal
    case Is => o.identical
    case IsNot => !o.identical
    case In => o.member
    case NotIn => !o.member
  }

  /** A comparison by <, <=, > or >=. */
  predicate ComparesOrder(l: Label) {
    l.Compare? && |l.ops| == 1 && (l.ops[0].Lt? || l.ops[0].GtE? || l.ops[0].Gt? || l.ops[0].LtE?)
  }

  /** The truth value of a node, given how pairs of operands relate and what other nodes are worth. */
  function Truth(t: Tree, relate: (Tree, Tree) -> Operands, other: Tree -> bool): bool {
    match t.root
    case BoolConst(value) => value
    case BoolOp(op) =>
      if op.And? then forall i :: 0 <= i < |t.children| ==> Truth(t.children[i], relate, other)
      else exists i :: 0 <= i < |t.children| && Truth(t.children[i], relate, other)
    case Compare(ops) =>
      if |ops| == 1 && |t.children| == 2 then Holds(ops[0], relate(t.children[0], t.children[1])) else other(t)
    case _ => other(t)
  }

  lemma {:induction false} RelabelledNode(t: Tree, a: Address, l: Label)
    requires ValidAt(t, a)
    ensures ValidAt(Relabel(t, a, l), a) && At(Relabel(t, a, l), a) == Tree(l, At(t, a).children)
    decreases |a|
  {
    if a != [] { RelabelledNode(t.children[a[0]], a[1..], l); }
  }

  /** The node at the k-th site, and the same node of the k-th mutant. */
  ghost function SiteNode(t: Tree, k: nat): Tree
    requires k < |Sites(t)|
  {
    SiteIsValid(t, k);
    At(t, Sites(t)[k].1)
  }

  ghost function MutantNode(t: Tree, k: nat): Tree
    requires k < |Sites(t)|
  {
    MutantDiffersAtOneNode(t, k, Sites(t)[k].1);
    SiteIsValid(t, k);
    At(Mutated(t, k), Sites(t)[k].1)
  }

  lemma {:induction false} MutatedNode(t: Tree, k: nat)
    requires k < |Sites(t)|
    ensures KindOf(SiteNode(t, k).root) == Some(Sites(t)[k].0)
    ensures MutantNode(t, k) == Tree(Swapped(SiteNode(t, k).root), SiteNode(t, k).children)
  {
    SiteIsValid(t, k);
    RelabelledNode(t, Sites(t)[k].1, Swapped(At(t, Sites(t)[k].1).root));
  }

  /** A constant mutant negates its node. */
  lemma {:induction false} ConstMutantNegates(t: Tree, k: nat, relate: (Tree, Tree) -> Operands, other: Tree -> bool)
    requires k < |Sites(t)| && Sites(t)[k].0.ConstSite?
    ensures Truth(MutantNode(t, k), relate, other) == !Truth(SiteNode(t, k), relate, other)
  {
    MutatedNode(t, k);
  }

  /** A comparison mutant negates its node exactly when the operands are ordered, or the operator
      does not ask for an order. */
  lemma {:induction false} CompareMutantNegatesExactly(t: Tree, k: nat, relate: (Tree, Tree) -> Operands, other: Tree -> bool)
    requires k < |Sites(t)| && Sites(t)[k].0.CompareSite?
    requires |SiteNode(t, k).children| == 2
    requires relate(SiteNode(t, k).children[0], SiteNode(t, k).children[1]).Consistent()
    ensures Truth(MutantNode(t, k), relate, other) == !Truth(SiteNode(t, k), relate, other) <==>
              !ComparesOrder(SiteNode(t, k).root) || relate(SiteNode(t, k).children[0], SiteNode(t, k).children[1]).Ordered()
  {
    MutatedNode(t, k);
  }

  /** The value of a binary operation on numbers. */
  ghost function Calculate(op: ArithOp, x: real, y: real): real
    requires !op.OtherArith? && (op.Div? ==> y != 0.0)
  {
    match op
    case Add => x + y
    case Sub => x - y
    case Mult => x * y
    case Div => x / y
  }

  /** An arithmetic mutant uses the operator that undoes the original one. */
  lemma {:induction false} ArithMutantUndoes(t: Tree, k: nat, x: real, y: real)
    requires k < |Sites(t)| && Sites(t)[k].0.ArithSite? && y != 0.0
    ensures
      var l, m := SiteNode(t, k).root, MutantNode(t, k).root;
      && l.BinOp? && !l.arithOp.OtherArith? && m.BinOp? && !m.arithOp.OtherArith?
      && Calculate(m.arithOp, Calculate(l.arithOp, x, y), y) == x
  {
    MutatedNode(t, k);
    hide SiteNode, MutantNode, Sites;
    MultiplyAndDivide(x, y);
  }

  lemma {:induction false} MultiplyAndDivide(x: real, y: real)
    requires y != 0.0
    ensures x * y / y == x && x / y * y == x
  {
    var q := x * y / y;
    assert q * y == x * y;
    assert (q - x) * y == 0.0;
  }

  lemma {:induction false} TruthOfBoolOp(u: Tree, truth: seq<bool>, relate: (Tree, Tree) -> Operands, other: Tree -> bool)
    requires u.root.BoolOp? && |truth| == |u.children|
    requires forall i :: 0 <= i < |truth| ==> truth[i] == Truth(u.children[i], relate, other)
    ensures Truth(u, relate, other) == if u.root.boolOp.And? then AllTrue(truth) else SomeTrue(truth)
  {
    if u.root.boolOp.And? {
      if !AllTrue(truth) {
        var i :| 0 <= i < |truth| && !truth[i];
        assert !Truth(u.children[i], relate, other);
      }
    } else if SomeTrue(truth) {
      var i :| 0 <= i < |truth| && truth[i];
      assert Truth(u.children[i], relate, other);
    }
  }

  /** An and/or mutant goes unnoticed at its node exactly when all its operands agree. */
  lemma {:induction false} BoolOpMutantAgreesExactly(t: Tree, k: nat, relate: (Tree, Tree) -> Operands, other: Tree -> bool)
    requires k < |Sites(t)| && Sites(t)[k].0.BoolOpSite? && SiteNode(t, k).children != []
    ensures Truth(MutantNode(t, k), relate, other) == Truth(SiteNode(t, k), relate, other) <==>
              forall i, j :: 0 <= i < |SiteNode(t, k).children| && 0 <= j < |SiteNode(t, k).children| ==>
                Truth(SiteNode(t, k).children[i], relate, other) == Truth(SiteNode(t, k).children[j], relate, other)
  {
    MutatedNode(t, k);
    var u, v := SiteNode(t, k), MutantNode(t, k);
    var truth := seq(|u.children|, i requires 0 <= i < |u.children| => Truth(u.children[i], relate, other));
    TruthOfBoolOp(u, truth, relate, other);
    TruthOfBoolOp(v, truth, relate, other);
    AllOrSome(truth);
    hide Truth, SiteNode, MutantNode;
  }

  ghost predicate SomeTrue(s: seq<bool>) { exists i :: 0 <= i < |s| && s[i] }

  lemma {:induction false} AllOrSome(s: seq<bool>)
    requires s != []
    ensures AllTrue(s) == SomeTrue(s) <==> forall i, j :: 0 <= i < |s| && 0 <= j < |s| ==> s[i] == s[j]
  {
    if AllTrue(s) { assert s[0]; }
    if !SomeTrue(s) { assert !s[0]; }
    if forall i, j :: 0 <= i < |s| && 0 <= j < |s| ==> s[i] == s[j] {
      if s[0] { assert forall i :: 0 <= i < |s| ==> s[i] == s[0]; } else { assert forall i :: 0 <= i < |s| ==> s[i] == s[0]; }
    }
  }

  // ---------------------------------------------------------------- the tree as objects

  /** A syntax node; only its label changes after construction. */
  class Node {
    var root: Label
    const children: seq<Node>

    constructor (root: Label, children: seq<Node>)
      ensures this.root == root && this.children == children
    {
      this.root, this.children := root, children;
    }
  }

  /** The objects below n have the shape of t. */
  ghost predicate Shape(n: Node, t: Tree) {
    |n.children| == |t.children| && forall i :: 0 <= i < |t.children| ==> Shape(n.children[i], t.children[i])
  }

  ghost function NodeAt(n: Node, t: Tree, a: Address): Node
    requires Shape(n, t) && ValidAt(t, a)
    decreases |a|
  {
    if a == [] then n else NodeAt(n.children[a[0]], t.children[a[0]], a[1..])
  }

  /** No object occurs twice in the tree. */
  ghost predicate NoSharing(n: Node, t: Tree)
    requires Shape(n, t)
  {
    forall a, b :: ValidAt(t, a) && ValidAt(t, b) && a != b ==> NodeAt(n, t, a) != NodeAt(n, t, b)
  }

  /** The objects carry the labels of t. */
  ghost predicate Labelled(n: Node, t: Tree)
    requires Shape(n, t)
    reads *
  {
    forall a :: ValidAt(t, a) ==> NodeAt(n, t, a).root == At(t, a).root
  }

  lemma {:induction false} NodeAtChild(n: Node, t: Tree, a: Address, j: nat)
    requires Shape(n, t) && ValidAt(t, a) && j < |At(t, a).children|
    ensures ValidAt(t, a + [j])
    ensures |NodeAt(n, t, a).children| == |At(t, a).children|
    ensures NodeAt(n, t, a + [j]) == NodeAt(n, t, a).children[j]
    decreases |a|
  {
    ValidChild(t, a, j);
    if a != [] {
      assert (a + [j])[1..] == a[1..] + [j];
      NodeAtChild(n.children[a[0]], t.children[a[0]], a[1..], j);
    } else {
      assert (a + [j])[1..] == [];
    }
  }

  ghost predicate Apart(n: Node, t: Tree, m: Node, u: Tree)
    requires Shape(n, t) && Shape(m, u)
  {
    forall a, b :: ValidAt(t, a) && ValidAt(u, b) ==> NodeAt(n, t, a) != NodeAt(m, u, b)
  }

  lemma {:induction false} NoSharingAbove(n: Node, t: Tree)
    requires Shape(n, t)
    requires forall j :: 0 <= j < |t.children| ==> NoSharing(n.children[j], t.children[j])
    requires forall j, k :: 0 <= j < k < |t.children| ==> Apart(n.children[j], t.children[j], n.children[k], t.children[k])
    requires forall j, a :: 0 <= j < |t.children| && ValidAt(t.children[j], a) ==> NodeAt(n.children[j], t.children[j], a) != n
    ensures NoSharing(n, t)
  {
    forall a, b | ValidAt(t, a) && ValidAt(t, b) && a != b ensures NodeAt(n, t, a) != NodeAt(n, t, b) {
      if a == [] {
        assert NodeAt(n.children[b[0]], t.children[b[0]], b[1..]) != n;
      } else if b == [] {
        assert NodeAt(n.children[a[0]], t.children[a[0]], a[1..]) != n;
      } else if a[0] == b[0] {
        assert a == [a[0]] + a[1..] && b == [b[0]] + b[1..];
        assert NoSharing(n.children[a[0]], t.children[a[0]]);
      } else {
        var j, k := if a[0] < b[0] then a[0] else b[0], if a[0] < b[0] then b[0] else a[0];
        assert Apart(n.children[j], t.children[j], n.children[k], t.children[k]);
      }
    }
  }

  /** copy.deepcopy: fresh objects for the whole tree. */
  method Copy(t: Tree) returns (n: Node, ghost nodes: set<Node>)
    ensures Shape(n, t) && NoSharing(n, t) && Labelled(n, t)
    ensures fresh(nodes) && forall a :: ValidAt(t, a) ==> NodeAt(n, t, a) in nodes
    decreases t
  {
    var kids: seq<Node> := [];
    nodes := {};
    for i := 0 to |t.children|
      invariant |kids| == i && fresh(nodes)
      invariant forall j :: 0 <= j < i ==> Shape(kids[j], t.children[j]) && NoSharing(kids[j], t.children[j])
      invariant forall j :: 0 <= j < i ==> Labelled(kids[j], t.children[j])
      invariant forall j, a :: 0 <= j < i && ValidAt(t.children[j], a) ==> NodeAt(kids[j], t.children[j], a) in nodes
      invariant forall j, k :: 0 <= j < k < i ==> Apart(kids[j], t.children[j], kids[k], t.children[k])
    {
      var kid, made := Copy(t.children[i]);
      assert made !! nodes;
      forall j | 0 <= j < i ensures Labelled(kids[j], t.children[j]) {}
      kids := kids + [kid];
      nodes := nodes + made;
    }
    n := new Node(t.root, kids);
    forall j | 0 <= j < |t.children| ensures Labelled(n.children[j], t.children[j]) {
      assert Labelled(kids[j], t.children[j]);
    }
    NoSharingAbove(n, t);
    nodes := nodes + {n};
    forall a | ValidAt(t, a) ensures NodeAt(n, t, a) in nodes {
      if a != [] { assert NodeAt(kids[a[0]], t.children[a[0]], a[1..]) in nodes; }
    }
  }

  lemma {:induction false} SitesStep(t: Tree, walked: seq<Address>, a: Address)
    requires AllValid(t, walked) && ValidAt(t, a)
    ensures AllValid(t, walked + [a])
    ensures
      var kind := KindOf(At(t, a).root);
      SitesIn(t, walked + [a]) == SitesIn(t, walked) + if kind.Some? then [(kind.value, a)] else []
  {
    assert (walked + [a])[..|walked|] == walked;
  }

  lemma {:induction false} NodeArity(n: Node, t: Tree, a: Address)
    requires Shape(n, t) && ValidAt(t, a)
    ensures |NodeAt(n, t, a).children| == |At(t, a).children|
    decreases |a|
  {
    if a != [] { NodeArity(n.children[a[0]], t.children[a[0]], a[1..]); }
  }

  /** These objects are the nodes at these addresses. */
  ghost predicate Names(root: Node, t: Tree, nodes: seq<Node>, queue: seq<Address>)
    requires Shape(root, t)
  {
    |nodes| == |queue| && AllValid(t, queue) && forall i :: 0 <= i < |nodes| ==> nodes[i] == NodeAt(root, t, queue[i])
  }

  /** These sites are the mutation sites among the walked nodes. */
  ghost predicate NamesSites(root: Node, t: Tree, sites: seq<(Kind, Node)>, named: seq<(Kind, Address)>)
    requires Shape(root, t)
  {
    && |sites| == |named|
    && forall i :: 0 <= i < |sites| ==>
         ValidAt(t, named[i].1) && sites[i] == (named[i].0, NodeAt(root, t, named[i].1))
  }

  lemma {:induction false} NamesStep(root: Node, t: Tree, todo: seq<Node>, queue: seq<Address>)
    requires Shape(root, t) && Names(root, t, todo, queue) && todo != []
    ensures Names(root, t, todo[1..] + todo[0].children, queue[1..] + Children(queue[0], |At(t, queue[0]).children|))
  {
    var a := queue[0];
    NodeArity(root, t, a);
    forall j | 0 <= j < |At(t, a).children|
      ensures ValidAt(t, a + [j]) && NodeAt(root, t, a + [j]) == todo[0].children[j]
    {
      NodeAtChild(root, t, a, j);
    }
  }

  /** The state of the walk over the objects: what is still in the queue, what has been visited,
      and the sites found so far. */
  ghost predicate Walking(root: Node, t: Tree, todo: seq<Node>, queue: seq<Address>, walked: seq<Address>, sites: seq<(Kind, Node)>)
    requires Shape(root, t)
  {
    && AllValid(t, walked) && Names(root, t, todo, queue)
    && Walk(t) == walked + WalkFrom(t, queue)
    && NamesSites(root, t, sites, SitesIn(t, walked))
  }

  lemma {:induction false} WalkBegins(root: Node, t: Tree)
    requires Shape(root, t)
    ensures Walking(root, t, [root], [[]], [], [])
  {
    WalkIsValid(t);
  }

  lemma {:induction false} WalkEnds(root: Node, t: Tree, queue: seq<Address>, walked: seq<Address>, sites: seq<(Kind, Node)>)
    requires Shape(root, t) && Walking(root, t, [], queue, walked, sites)
    ensures NamesSites(root, t, sites, Sites(t))
  {
    assert walked + [] == walked;
  }

  lemma {:induction false} WalkUnrolls(t: Tree, walked: seq<Address>, queue: seq<Address>)
    requires AllValid(t, queue) && queue != []
    ensures
      var next := queue[1..] + Children(queue[0], |At(t, queue[0]).children|);
      AllValid(t, next) && walked + WalkFrom(t, queue) == (walked + [queue[0]]) + WalkFrom(t, next)
  {
    StepWorks(t, queue);
    var next := queue[1..] + Children(queue[0], |At(t, queue[0]).children|);
    assert WalkFrom(t, queue) == [queue[0]] + WalkFrom(t, next);
  }

  lemma {:induction false} WalkGoesOn(root: Node, t: Tree, todo: seq<Node>, queue: seq<Address>, walked: seq<Address>, sites: seq<(Kind, Node)>)
    requires Shape(root, t) && Labelled(root, t) && todo != [] && Walking(root, t, todo, queue, walked, sites)
    ensures queue != [] && ValidAt(t, queue[0]) && AllValid(t, queue)
    ensures
      var node, a := todo[0], queue[0];
      var kind := KindOf(node.root);
      var queue' := queue[1..] + Children(a, |At(t, a).children|);
      && Walking(root, t, todo[1..] + node.children, queue', walked + [a],
                 sites + if kind.Some? then [(kind.value, node)] else [])
      && AllValid(t, queue') && Work(t, queue') < Work(t, queue)
  {
    var a := queue[0];
    StepWorks(t, queue);
    NamesStep(root, t, todo, queue);
    SitesStep(t, walked, a);
    WalkUnrolls(t, walked, queue);
    assert todo[0].root == At(t, a).root;
    hide At, NodeAt, Shape, KindOf, Labelled, Names, SitesIn, Work, WalkFrom, ValidAt, AllValid, Walk;
  }

  /** The mutation sites of a tree of objects, by the queue of a breadth-first walk. */
  method Eligible(root: Node, ghost t: Tree) returns (sites: seq<(Kind, Node)>)
    requires Shape(root, t) && Labelled(root, t)
    ensures NamesSites(root, t, sites, Sites(t))
  {
    hide *;
    sites := [];
    var todo := [root];
    ghost var queue: seq<Address> := [[]];
    ghost var walked: seq<Address> := [];
    WalkBegins(root, t);
    while todo != []
      invariant Labelled(root, t) && Walking(root, t, todo, queue, walked, sites)
      decreases if AllValid(t, queue) then Work(t, queue) else 0
    {
      WalkGoesOn(root, t, todo, queue, walked, sites);
      var node := todo[0];
      todo := todo[1..] + node.children;
      walked := walked + [queue[0]];
      queue := queue[1..] + Children(queue[0], |At(t, queue[0]).children|);
      var kind := KindOf(node.root);
      if kind.Some? { sites := sites + [(kind.value, node)]; } else { assert sites + [] == sites; }
    }
    WalkEnds(root, t, queue, walked, sites);
  }

  // ---------------------------------------------------------------- the edit

  function CompareName(op: CompareOp): string {
    match op
    case Eq => "Eq"
    case NotEq => "NotEq"
    case Lt => "Lt"
    case GtE => "GtE"
    case Gt => "Gt"
    case LtE => "LtE"
    case Is => "Is"
    case IsNot => "IsNot"
    case In => "In"
    case NotIn => "NotIn"
  }

  function BoolName(op: BoolOperator): string { if op.And? then "And" else "Or" }

  function ArithName(op: ArithOp): string {
    match op
    case Add => "Add"
    case Sub => "Sub"
    case Mult => "Mult"
    case Div => "Div"
    case OtherArith(name) => name
  }

  /** How the edit of a node with label l is described. */
  function Describe(l: Label): string
    requires KindOf(l).Some?
  {
    match l
    case Compare(ops) => "compare " + CompareName(ops[0]) + " -> " + CompareName(SwapCompare(ops[0]))
    case BoolOp(op) => "boolop " + BoolName(op) + " -> " + BoolName(if op.And? then Or else And)
    case BinOp(op) => "arith " + ArithName(op) + " -> " + ArithName(SwapArith(op))
    case BoolConst(value) => "const bool -> " + if value then "False" else "True"
  }

  ghost function LabelName(l: Label): string
    requires KindOf(l).Some?
  {
    match l
    case Compare(ops) => CompareName(ops[0])
    case BoolOp(op) => BoolName(op)
    case BinOp(op) => ArithName(op)
    case BoolConst(value) => if value then "True" else "False"
  }

  /** The description of the k-th mutant names what stood there and what stands there now. */
  lemma {:induction false} DescriptionNamesBoth(t: Tree, k: nat)
    requires k < |Sites(t)|
    ensures KindOf(SiteNode(t, k).root).Some? && KindOf(MutantNode(t, k).root).Some?
    ensures
      var before, after := LabelName(SiteNode(t, k).root), LabelName(MutantNode(t, k).root);
      Describe(SiteNode(t, k).root) ==
        match Sites(t)[k].0
        case CompareSite => "compare " + before + " -> " + after
        case BoolOpSite => "boolop " + before + " -> " + after
        case ArithSite => "arith " + before + " -> " + after
        case ConstSite => "const bool -> " + after
  {
    MutatedNode(t, k);
    SwapIsInvolution(SiteNode(t, k).root);
    hide SiteNode, MutantNode, Sites, SwapCompare, SwapArith, CompareName, ArithName;
  }

  /** Changes the label of one node in place. */
  method Apply(kind: Kind, node: Node) returns (description: string)
    requires KindOf(node.root) == Some(kind)
    modifies node
    ensures node.root == Swapped(old(node.root))
    ensures description == Describe(old(node.root))
  {
    if kind.CompareSite? {
      var before := node.root.ops[0];
      var after := SwapCompare(before);
      node.root := Compare([after]);
      return "compare " + CompareName(before) + " -> " + CompareName(after);
    }
    if kind.BoolOpSite? {
      var before := node.root.boolOp;
      var after := if before.And? then Or else And;
      node.root := BoolOp(after);
      return "boolop " + BoolName(before) + " -> " + BoolName(after);
    }
    if kind.ArithSite? {
      var before := node.root.arithOp;
      var after := SwapArith(before);
      node.root := BinOp(after);
      return "arith " + ArithName(before) + " -> " + ArithName(after);
    }
    node.root := BoolConst(!node.root.value);
    return "const bool -> " + if node.root.value then "True" else "False";
  }

  lemma {:induction false} ShapeOfRelabelled(n: Node, t: Tree, a: Address, l: Label, b: Address)
    requires Shape(n, t) && ValidAt(t, a)
    ensures Shape(n, Relabel(t, a, l))
    ensures ValidAt(t, b) ==> ValidAt(Relabel(t, a, l), b) && NodeAt(n, Relabel(t, a, l), b) == NodeAt(n, t, b)
    decreases |a|
  {
    if a != [] {
      ShapeOfRelabelled(n.children[a[0]], t.children[a[0]], a[1..], l, []);
      if b != [] && a[0] == b[0] && ValidAt(t, b) {
        ShapeOfRelabelled(n.children[a[0]], t.children[a[0]], a[1..], l, b[1..]);
      }
    }
    if ValidAt(t, b) { RelabelAt(t, a, l, b); }
    if a != [] && b != [] && a[0] != b[0] && ValidAt(t, b) {
      assert Relabel(t, a, l).children[b[0]] == t.children[b[0]];
    }
  }

  /** A tree of objects with one edited label represents the tree with that label. */
  lemma {:induction false} EditRepresents(n: Node, t: Tree, a: Address, l: Label)
    requires Shape(n, t) && ValidAt(t, a)
    requires forall b :: ValidAt(t, b) ==> NodeAt(n, t, b).root == if b == a then l else At(t, b).root
    ensures Shape(n, Relabel(t, a, l)) && Labelled(n, Relabel(t, a, l))
  {
    ShapeOfRelabelled(n, t, a, l, a);
    forall b | ValidAt(Relabel(t, a, l), b)
      ensures NodeAt(n, Relabel(t, a, l), b).root == At(Relabel(t, a, l), b).root
    {
      RelabelAt(t, a, l, b);
      ShapeOfRelabelled(n, t, a, l, b);
    }
  }

  /** Reads the tree back, as unparsing does. */
  method ReadTree(n: Node, ghost t: Tree) returns (u: Tree)
    requires Shape(n, t) && Labelled(n, t)
    ensures u == t
    decreases t
  {
    var kids: seq<Tree> := [];
    for i := 0 to |n.children|
      invariant kids == t.children[..i]
    {
      LabelledChild(n, t, i);
      var kid := ReadTree(n.children[i], t.children[i]);
      kids := kids + [kid];
    }
    assert t.children[..|n.children|] == t.children;
    assert ValidAt(t, []) && NodeAt(n, t, []) == n && At(t, []) == t;
    return Tree(n.root, kids);
  }

  lemma {:induction false} LabelledChild(n: Node, t: Tree, i: nat)
    requires Shape(n, t) && Labelled(n, t) && i < |t.children|
    ensures Labelled(n.children[i], t.children[i])
  {
    forall a | ValidAt(t.children[i], a) ensures NodeAt(n.children[i], t.children[i], a).root == At(t.children[i], a).root {
      assert ([i] + a)[1..] == a;
      assert ValidAt(t, [i] + a);
    }
  }

  // ---------------------------------------------------------------- all mutants

  datatype Mutant = Mutant(description: string, source: string)

  /** The mutants of the first n sites; a mutant that cannot be printed, prints as white space or
      prints as the original text is left out. */
  function Mutants(t: Tree, source: string, unparse: Tree -> Option<string>, blank: string -> bool, n: nat): seq<Mutant>
    requires n <= |Sites(t)|
  {
    if n == 0 then []
    else
      SiteIsValid(t, n - 1);
      var text := unparse(Mutated(t, n - 1));
      Mutants(t, source, unparse, blank, n - 1)
      + if text.Some? && !blank(text.value) && text.value != source
        then [Mutant(Describe(At(t, Sites(t)[n - 1].1).root), text.value)]
        else []
  }

  function Count(t: Tree, limit: int): (n: nat)
    ensures n <= |Sites(t)|
  {
    if limit < 0 then 0 else if limit < |Sites(t)| then limit else |Sites(t)|
  }

  lemma {:induction false} MutantsGrow(t: Tree, source: string, unparse: Tree -> Option<string>, blank: string -> bool, n: nat, m: nat)
    requires n <= m <= |Sites(t)|
    ensures Mutants(t, source, unparse, blank, n) <= Mutants(t, source, unparse, blank, m)
    ensures |Mutants(t, source, unparse, blank, m)| <= |Mutants(t, source, unparse, blank, n)| + m - n
  {
    hide Sites, Mutated, Describe;
    if n < m { MutantsGrow(t, source, unparse, blank, n, m - 1); }
  }

  /** At most `limit` mutants, beginning with those of the first `limit` sites. */
  ghost predicate FitLimit(t: Tree, source: string, unparse: Tree -> Option<string>, blank: string -> bool, limit: int, mutants: seq<Mutant>) {
    && (mutants == [] || |mutants| <= limit)
    && forall n: nat :: n <= limit && n <= |Sites(t)| ==> Mutants(t, source, unparse, blank, n) <= mutants
  }

  lemma {:induction false} CountedFitLimit(t: Tree, source: string, unparse: Tree -> Option<string>, blank: string -> bool, limit: int)
    ensures FitLimit(t, source, unparse, blank, limit, Mutants(t, source, unparse, blank, Count(t, limit)))
  {
    forall n: nat | n <= limit && n <= |Sites(t)|
      ensures Mutants(t, source, unparse, blank, n) <= Mutants(t, source, unparse, blank, Count(t, limit))
    {
      MutantsGrow(t, source, unparse, blank, n, Count(t, limit));
    }
    MutantsGrow(t, source, unparse, blank, 0, Count(t, limit));
  }

  lemma {:induction false} MutantsStep(t: Tree, source: string, unparse: Tree -> Option<string>, blank: string -> bool, k: nat)
    requires k < |Sites(t)|
    ensures Mutants(t, source, unparse, blank, 0) == []
    ensures ValidAt(t, Sites(t)[k].1) && KindOf(At(t, Sites(t)[k].1).root).Some?
    ensures
      var text := unparse(Mutated(t, k));
      Mutants(t, source, unparse, blank, k + 1)
      == Mutants(t, source, unparse, blank, k)
         + if text.Some? && !blank(text.value) && text.value != source
           then [Mutant(Describe(At(t, Sites(t)[k].1).root), text.value)]
           else []
  {
    hide Sites, Mutated, Describe;
    SiteIsValid(t, k);
  }

  method GenerateMutants(source: string, parsed: Option<Tree>, unparse: Tree -> Option<string>, blank: string -> bool, limit: int)
    returns (mutants: seq<Mutant>)
    ensures mutants == if parsed.None? then [] else Mutants(parsed.value, source, unparse, blank, Count(parsed.value, limit))
    ensures parsed.Some? ==> FitLimit(parsed.value, source, unparse, blank, limit, mutants)
  {
    if parsed.None? { return []; }
    var t := parsed.value;
    assert Mutants(t, source, unparse, blank, 0) == [];
    hide Sites, KindOf, Describe, At, ValidAt, Mutated, FitLimit, Mutants;
    CountedFitLimit(t, source, unparse, blank, limit);
    var siteCount := CountSites(t);
    var count := if limit < 0 then 0 else if limit < siteCount then limit else siteCount;
    mutants := [];
    for index := 0 to count
      invariant mutants == Mutants(t, source, unparse, blank, index)
    {
      var description, mutated := MutateCopy(t, index);
      MutantsStep(t, source, unparse, blank, index);
      var text := unparse(mutated);
      if text.Some? && !blank(text.value) && text.value != source {
        mutants := mutants + [Mutant(description, text.value)];
      }
    }
  }

  method CountSites(t: Tree) returns (n: nat)
    ensures n == |Sites(t)|
  {
    hide Sites;
    var tree, _ := Copy(t);
    var all := Eligible(tree, t);
    return |all|;
  }

  /** One mutant: copy, find the site again in the copy, edit it, read the copy. */
  method MutateCopy(t: Tree, index: nat) returns (description: string, mutated: Tree)
    requires index < |Sites(t)|
    ensures mutated == Mutated(t, index)
    ensures ValidAt(t, Sites(t)[index].1) && KindOf(At(t, Sites(t)[index].1).root).Some?
    ensures description == Describe(At(t, Sites(t)[index].1).root)
  {
    var clone, _ := Copy(t);
    var sites := Eligible(clone, t);
    SiteIsValid(t, index);
    ghost var a := Sites(t)[index].1;
    hide Sites, KindOf, Swapped, Describe, Relabel;
    description := Apply(sites[index].0, sites[index].1);
    ghost var edited := Swapped(At(t, a).root);
    EditRepresents(clone, t, a, edited);
    mutated := ReadTree(clone, Relabel(t, a, edited));
  }

  /** The mutants are the texts of the tree after the edit of one site, where there is such a text,
      it is not blank and it differs from the source. */
  lemma {:induction false} MutantsAreSingleEdits(t: Tree, source: string, unparse: Tree -> Option<string>, blank: string -> bool, n: nat, m: Mutant)
    requires n <= |Sites(t)|
    ensures m in Mutants(t, source, unparse, blank, n) <==>
              && m.source != source && !blank(m.source)
              && exists k :: 0 <= k < n && IsMutant(t, unparse, k, m)
  {
    hide Sites, SiteNode, Mutated, Describe, Mutants, UsedSites;
    MutantsInSiteOrder(t, source, unparse, blank, n);
    var used := UsedSites(t, source, unparse, blank, n);
    assert forall i :: 0 <= i < |used| ==> IsMutant(t, unparse, used[i], Mutants(t, source, unparse, blank, n)[i]);
    if m in Mutants(t, source, unparse, blank, n) {
      var i :| 0 <= i < |used| && Mutants(t, source, unparse, blank, n)[i] == m;
      assert used[i] in used && IsMutant(t, unparse, used[i], m);
    }
    if m.source != source && !blank(m.source) && exists k :: 0 <= k < n && IsMutant(t, unparse, k, m) {
      var k :| 0 <= k < n && IsMutant(t, unparse, k, m);
      assert k in used;
      var i :| 0 <= i < |used| && used[i] == k;
      assert Mutants(t, source, unparse, blank, n)[i] == m;
    }
  }

  /** The sites among the first n whose mutants are used, in order. */
  ghost function UsedSites(t: Tree, source: string, unparse: Tree -> Option<string>, blank: string -> bool, n: nat): (used: seq<nat>)
    requires n <= |Sites(t)|
    ensures forall i :: 0 <= i < |used| ==> used[i] < n
    ensures forall i, j :: 0 <= i < j < |used| ==> used[i] < used[j]
    ensures forall k :: 0 <= k < n ==>
              (k in used <==>
                 unparse(Mutated(t, k)).Some? && !blank(unparse(Mutated(t, k)).value) && unparse(Mutated(t, k)).value != source)
  {
    if n == 0 then []
    else
      var text := unparse(Mutated(t, n - 1));
      UsedSites(t, source, unparse, blank, n - 1)
      + if text.Some? && !blank(text.value) && text.value != source then [n - 1] else []
  }

  /** These mutants are the printed ones of these sites. */
  ghost predicate MutantsOf(t: Tree, unparse: Tree -> Option<string>, mutants: seq<Mutant>, used: seq<nat>) {
    |mutants| == |used| && forall i :: 0 <= i < |used| ==> used[i] < |Sites(t)| && IsMutant(t, unparse, used[i], mutants[i])
  }

  /** The mutants come in the order of their sites, one for each site that has one. */
  lemma {:induction false} MutantsInSiteOrder(t: Tree, source: string, unparse: Tree -> Option<string>, blank: string -> bool, n: nat)
    requires n <= |Sites(t)|
    ensures MutantsOf(t, unparse, Mutants(t, source, unparse, blank, n), UsedSites(t, source, unparse, blank, n))
  {
    hide *;
    if n > 0 {
      MutantsInSiteOrder(t, source, unparse, blank, n - 1);
      UsedStep(t, source, unparse, blank, n - 1);
      AnotherMutant(t, unparse, Mutants(t, source, unparse, blank, n - 1), UsedSites(t, source, unparse, blank, n - 1), n - 1);
    } else {
      NoMutants(t, source, unparse, blank);
    }
  }

  lemma {:induction false} NoMutants(t: Tree, source: string, unparse: Tree -> Option<string>, blank: string -> bool)
    ensures MutantsOf(t, unparse, Mutants(t, source, unparse, blank, 0), UsedSites(t, source, unparse, blank, 0))
  {
    hide Sites;
  }

  lemma {:induction false} UsedStep(t: Tree, source: string, unparse: Tree -> Option<string>, blank: string -> bool, k: nat)
    requires k < |Sites(t)|
    ensures KindOf(SiteNode(t, k).root).Some?
    ensures
      var text := unparse(Mutated(t, k));
      var mutants, used := Mutants(t, source, unparse, blank, k), UsedSites(t, source, unparse, blank, k);
      if text.Some? && !blank(text.value) && text.value != source
      then && Mutants(t, source, unparse, blank, k + 1) == mutants + [Mutant(Describe(SiteNode(t, k).root), text.value)]
           && UsedSites(t, source, unparse, blank, k + 1) == used + [k]
      else && Mutants(t, source, unparse, blank, k + 1) == mutants + []
           && UsedSites(t, source, unparse, blank, k + 1) == used + []
  {
    hide Sites, Mutated, Describe, At, ValidAt, KindOf;
    SiteNodeIs(t, k);
  }

  lemma {:induction false} AnotherMutant(t: Tree, unparse: Tree -> Option<string>, mutants: seq<Mutant>, used: seq<nat>, k: nat)
    requires MutantsOf(t, unparse, mutants, used) && k < |Sites(t)|
    ensures KindOf(SiteNode(t, k).root).Some?
    ensures MutantsOf(t, unparse, mutants + [], used + [])
    ensures
      var text := unparse(Mutated(t, k));
      text.Some? ==> MutantsOf(t, unparse, mutants + [Mutant(Describe(SiteNode(t, k).root), text.value)], used + [k])
  {
    hide Sites, Mutated, Describe, SiteNode, KindOf;
    SiteNodeIs(t, k);
  }

  lemma {:induction false} SiteNodeIs(t: Tree, k: nat)
    requires k < |Sites(t)|
    ensures ValidAt(t, Sites(t)[k].1) && SiteNode(t, k) == At(t, Sites(t)[k].1) && KindOf(SiteNode(t, k).root).Some?
  {
    SiteIsValid(t, k);
  }

  /** m is the printed k-th mutant with its description. */
  ghost predicate IsMutant(t: Tree, unparse: Tree -> Option<string>, k: nat, m: Mutant)
    requires k < |Sites(t)|
  {
    SiteNodeIs(t, k);
    unparse(Mutated(t, k)) == Some(m.source) && m.description == Describe(SiteNode(t, k).root)
  }
}
