// Binary hash trees, and climbing from one of their subtrees to the root.
// SHA-256 is a parameter: every statement holds for all hash functions.
module HashTrees {
  import opened Wrappers

  type byte = x: int | 0 <= x < 256
  type Bytes = seq<byte>
  type Digest = d: Bytes | |d| == 32 witness seq(32, _ => 0)
  type HashFn = Bytes -> Digest

  function LeafInput(leaf: Bytes): Bytes { [0x00] + leaf }

  function NodeInput(left: Bytes, right: Bytes): Bytes { [0x01] + left + right }

  lemma NodeInputInjective(l: Digest, r: Digest, l': Digest, r': Digest)
    requires NodeInput(l, r) == NodeInput(l', r')
    ensures l == l' && r == r'
  {
    assert l == NodeInput(l, r)[1..33] == NodeInput(l', r')[1..33] == l';
    assert r == NodeInput(l, r)[33..] == NodeInput(l', r')[33..] == r';
  }

  lemma LeafInputInjective(x: Bytes, y: Bytes)
    requires LeafInput(x) == LeafInput(y)
    ensures x == y
  {
    assert x == LeafInput(x)[1..] == LeafInput(y)[1..] == y;
  }

  // ----- trees -----

  datatype Tree = Empty | Leaf(bytes: Bytes) | Node(left: Tree, right: Tree)

  function TreeHash(H: HashFn, t: Tree): Digest { H(TopInput(H, t)) }

  // The string hashed last when hashing t.
  function TopInput(H: HashFn, t: Tree): Bytes {
    match t
    case Empty => []
    case Leaf(b) => LeafInput(b)
    case Node(l, r) => NodeInput(H(TopInput(H, l)), H(TopInput(H, r)))
  }

  // Is x one of the strings hashed when hashing t?
  predicate TreeHashes(H: HashFn, t: Tree, x: Bytes) {
    || x == TopInput(H, t)
    || (t.Node? && (TreeHashes(H, t.left, x) || TreeHashes(H, t.right, x)))
  }

  function Leaves(t: Tree): seq<Bytes> {
    match t
    case Empty => []
    case Leaf(b) => [b]
    case Node(l, r) => Leaves(l) + Leaves(r)
  }

  // ----- routes -----

  // On which side of the way up the sibling hash of a level stands.
  datatype Side = LeftSibling | RightSibling

  // The way down from a root to one of its subtrees.
  datatype Route = Here | Past(sibling: Side, below: Route)

  function Length(r: Route): nat {
    if r.Here? then 0 else 1 + Length(r.below)
  }

  predicate HasRoute(t: Tree, r: Route) {
    match r
    case Here => true
    case Past(side, below) => t.Node? && HasRoute(Below(t, side), below)
  }

  function Below(t: Tree, sibling: Side): Tree
    requires t.Node?
  {
    if sibling == LeftSibling then t.right else t.left
  }

  function Beside(t: Tree, sibling: Side): Tree
    requires t.Node?
  {
    if sibling == LeftSibling then t.left else t.right
  }

  // The subtree the route leads to.
  function Foot(t: Tree, r: Route): Tree
    requires HasRoute(t, r)
  {
    match r
    case Here => t
    case Past(side, below) => Foot(Below(t, side), below)
  }

  // The tree that is left when everything to the right of the foot is removed.
  function Trimmed(t: Tree, r: Route): Tree
    requires HasRoute(t, r)
  {
    match r
    case Here => t
    case Past(LeftSibling, below) => Node(t.left, Trimmed(t.right, below))
    case Past(RightSibling, below) => Trimmed(t.left, below)
  }

  // Does nothing stand to the left of the foot?
  predicate Leftmost(r: Route) {
    r.Here? || (r.sibling == RightSibling && Leftmost(r.below))
  }

  // The sibling hashes an honest prover sends, lowest first.
  function HonestPath(H: HashFn, t: Tree, r: Route): (p: seq<Digest>)
    requires HasRoute(t, r)
    ensures |p| == Length(r)
  {
    match r
    case Here => []
    case Past(side, below) => HonestPath(H, Below(t, side), below) + [TreeHash(H, Beside(t, side))]
  }

  // The honest path with the hash of the foot in front, left out when the
  // verifier knows it already: when known holds and the foot is leftmost.
  function SeededPath(H: HashFn, t: Tree, r: Route, known: bool): seq<Digest>
    requires HasRoute(t, r)
  {
    match r
    case Here => if known then [] else [TreeHash(H, t)]
    case Past(side, below) =>
      SeededPath(H, Below(t, side), below, known && side == RightSibling) + [TreeHash(H, Beside(t, side))]
  }

  lemma {:induction false} SeededPathSplits(H: HashFn, t: Tree, r: Route, known: bool)
    requires HasRoute(t, r)
    ensures SeededPath(H, t, r, known) ==
      (if known && Leftmost(r) then [] else [TreeHash(H, Foot(t, r))]) + HonestPath(H, t, r)
  {
    match r
    case Here =>
    case Past(side, below) =>
      SeededPathSplits(H, Below(t, side), below, known && side == RightSibling);
  }

  // ----- climbs -----

  // A climb in progress: the current node and every string hashed so far.
  datatype Climb = Climb(node: Bytes, hashed: seq<Bytes>)

  function LeafClimb(H: HashFn, leaf: Bytes): Climb {
    Climb(H(LeafInput(leaf)), [LeafInput(leaf)])
  }

  function JoinInput(c: Climb, side: Side, sibling: Bytes): Bytes {
    if side == LeftSibling then NodeInput(sibling, c.node) else NodeInput(c.node, sibling)
  }

  function Join(H: HashFn, c: Climb, side: Side, sibling: Bytes): Climb {
    var input := JoinInput(c, side, sibling);
    Climb(H(input), c.hashed + [input])
  }

  function JoinIfLeft(H: HashFn, c: Climb, side: Side, sibling: Bytes): Climb {
    if side == LeftSibling then Join(H, c, side, sibling) else c
  }

  // Climb up a route with the given siblings, lowest first.
  function ClimbUp(H: HashFn, r: Route, c: Climb, p: seq<Bytes>): (end: Climb)
    requires |p| == Length(r)
    ensures |c.node| == 32 ==> |end.node| == 32
    ensures c.hashed <= end.hashed
  {
    match r
    case Here => c
    case Past(side, below) => Join(H, ClimbUp(H, below, c, p[..|p| - 1]), side, p[|p| - 1])
  }

  // The climb in the trimmed tree: siblings on the right are not there yet.
  function ClimbLeft(H: HashFn, r: Route, c: Climb, p: seq<Bytes>): (end: Climb)
    requires |p| == Length(r)
    ensures c.hashed <= end.hashed
  {
    match r
    case Here => c
    case Past(side, below) => JoinIfLeft(H, ClimbLeft(H, below, c, p[..|p| - 1]), side, p[|p| - 1])
  }

  // ----- completeness -----

  // The honest path leads from the foot to the root, and its left siblings
  // alone lead to the root of the trimmed tree.
  lemma {:induction false} HonestClimb(H: HashFn, t: Tree, r: Route, c: Climb)
    requires HasRoute(t, r) && c.node == TreeHash(H, Foot(t, r))
    ensures ClimbUp(H, r, c, HonestPath(H, t, r)).node == TreeHash(H, t)
    ensures ClimbLeft(H, r, c, HonestPath(H, t, r)).node == TreeHash(H, Trimmed(t, r))
  {
    match r
    case Here =>
    case Past(side, below) =>
      var p := HonestPath(H, t, r);
      assert p[..|p| - 1] == HonestPath(H, Below(t, side), below);
      HonestClimb(H, Below(t, side), below, c);
  }

  // ----- binding: a root pins down everything below it -----

  datatype Collision = Collision(x: Bytes, y: Bytes)

  predicate IsCollision(H: HashFn, c: Collision) {
    c.x != c.y && H(c.x) == H(c.y)
  }

  // c is a collision between a string hashed by a verifier run and a string
  // hashed while hashing t.
  predicate CollidesWithTree(H: HashFn, c: Collision, hashed: seq<Bytes>, t: Tree) {
    IsCollision(H, c) && c.x in hashed && TreeHashes(H, t, c.y)
  }

  // The prefixes keep leaves, nodes and the empty tree apart.
  lemma SameKind(H: HashFn, t: Tree, u: Tree)
    requires TopInput(H, t) == TopInput(H, u)
    ensures t.Leaf? == u.Leaf? && t.Node? == u.Node?
  {
    var x, y := TopInput(H, t), TopInput(H, u);
    if x != [] {
      assert x[0] == y[0];
    }
  }

  // Two trees with the same root hash are equal, or hashing them hashes two
  // different strings to the same digest.
  function CompareTrees(H: HashFn, t: Tree, u: Tree): (r: Option<Collision>)
    requires TreeHash(H, t) == TreeHash(H, u)
    ensures r.None? ==> t == u
    ensures r.Some? ==> IsCollision(H, r.value) && TreeHashes(H, t, r.value.x) && TreeHashes(H, u, r.value.y)
  {
    var x, y := TopInput(H, t), TopInput(H, u);
    if x != y then Some(Collision(x, y))
    else
      SameKind(H, t, u);
      match (t, u)
      case (Node(l, r), Node(l', r')) =>
        NodeInputInjective(TreeHash(H, l), TreeHash(H, r), TreeHash(H, l'), TreeHash(H, r'));
        var left := CompareTrees(H, l, l');
        if left.Some? then left else CompareTrees(H, r, r')
      case (Leaf(b), Leaf(b')) =>
        LeafInputInjective(b, b');
        None
      case (Empty, Empty) => None
  }

  // The topmost step of a climb to the hash of t: it hashed the same string as
  // the tree did, and then both children agree, or the two strings collide.
  lemma CompareTop(H: HashFn, t: Tree, side: Side, below: Route, c: Climb, p: seq<Digest>)
    requires |c.node| == 32 && |p| == 1 + Length(below)
    requires ClimbUp(H, Past(side, below), c, p).node == TreeHash(H, t)
    ensures var child, end := ClimbUp(H, below, c, p[..|p| - 1]), ClimbUp(H, Past(side, below), c, p);
      var input := JoinInput(child, side, p[|p| - 1]);
      && child.hashed <= end.hashed
      && if input != TopInput(H, t) then CollidesWithTree(H, Collision(input, TopInput(H, t)), end.hashed, t)
         else t.Node? && child.node == TreeHash(H, Below(t, side)) && p[|p| - 1] == TreeHash(H, Beside(t, side))
  {
    var child, sib := ClimbUp(H, below, c, p[..|p| - 1]), p[|p| - 1];
    var input := JoinInput(child, side, sib);
    if input == TopInput(H, t) {
      assert input[0] == 1;
      if side == LeftSibling {
        NodeInputInjective(sib, child.node, TreeHash(H, t.left), TreeHash(H, t.right));
      } else {
        NodeInputInjective(child.node, sib, TreeHash(H, t.left), TreeHash(H, t.right));
      }
    }
  }

  // A climb that reaches the hash of t started at the foot's hash and used the
  // honest path, or it hashed a string that collides with one of the tree's.
  function CompareClimb(H: HashFn, t: Tree, r: Route, c: Climb, p: seq<Digest>): (found: Option<Collision>)
    requires HasRoute(t, r) && |c.node| == 32 && |p| == Length(r)
    requires ClimbUp(H, r, c, p).node == TreeHash(H, t)
    ensures found.None? ==> c.node == TreeHash(H, Foot(t, r)) && p == HonestPath(H, t, r)
    ensures found.Some? ==> CollidesWithTree(H, found.value, ClimbUp(H, r, c, p).hashed, t)
  {
    match r
    case Here => None
    case Past(side, below) =>
      CompareTop(H, t, side, below, c, p);
      var init := p[..|p| - 1];
      var input := JoinInput(ClimbUp(H, below, c, init), side, p[|p| - 1]);
      if input != TopInput(H, t) then Some(Collision(input, TopInput(H, t)))
      else CompareClimb(H, Below(t, side), below, c, init)
  }

  // A climb of any shape from a leaf to the hash of t started at a leaf of t,
  // or a collision is found. Neither index nor size is trusted here; the leaf
  // and node prefixes are what makes it work.
  function LocateLeaf(H: HashFn, t: Tree, leaf: Bytes, r: Route, p: seq<Digest>): (found: Option<Collision>)
    requires |p| == Length(r)
    requires ClimbUp(H, r, LeafClimb(H, leaf), p).node == TreeHash(H, t)
    ensures found.None? ==> HasRoute(t, r) && Foot(t, r) == Leaf(leaf)
    ensures found.Some? ==> CollidesWithTree(H, found.value, ClimbUp(H, r, LeafClimb(H, leaf), p).hashed, t)
  {
    match r
    case Here =>
      if LeafInput(leaf) != TopInput(H, t) then Some(Collision(LeafInput(leaf), TopInput(H, t)))
      else
        assert TopInput(H, t)[0] == 0;
        LeafInputInjective(leaf, t.bytes);
        None
    case Past(side, below) =>
      CompareTop(H, t, side, below, LeafClimb(H, leaf), p);
      var init := p[..|p| - 1];
      var input := JoinInput(ClimbUp(H, below, LeafClimb(H, leaf), init), side, p[|p| - 1]);
      if input != TopInput(H, t) then Some(Collision(input, TopInput(H, t)))
      else LocateLeaf(H, Below(t, side), leaf, below, init)
  }

  lemma {:induction false} FootLeafIsLeaf(t: Tree, r: Route, leaf: Bytes)
    requires HasRoute(t, r) && Foot(t, r) == Leaf(leaf)
    ensures leaf in Leaves(t)
  {
    if r.Past? {
      FootLeafIsLeaf(Below(t, r.sibling), r.below, leaf);
    }
  }

  lemma {:induction false} FootIsHashed(H: HashFn, t: Tree, r: Route)
    requires HasRoute(t, r)
    ensures TreeHashes(H, t, TopInput(H, Foot(t, r)))
  {
    if r.Past? {
      FootIsHashed(H, Below(t, r.sibling), r.below);
    }
  }

  // ----- climbing one level at a time -----

  // The sides met on the way up, lowest first.
  function Sides(r: Route): (s: seq<Side>)
    ensures |s| == Length(r)
  {
    match r
    case Here => []
    case Past(side, below) => Sides(below) + [side]
  }

  // Follow one route and then another.
  function Then(r: Route, rest: Route): Route {
    match r
    case Here => rest
    case Past(side, below) => Past(side, Then(below, rest))
  }

  lemma {:induction false} SidesThen(r: Route, rest: Route)
    ensures Sides(Then(r, rest)) == Sides(rest) + Sides(r)
  {
    if r.Past? {
      SidesThen(r.below, rest);
    }
  }

  // The same climbs as a loop runs them, consuming the lowest level first.
  function ClimbLevels(H: HashFn, sides: seq<Side>, c: Climb, p: seq<Bytes>): Climb
    requires |sides| == |p|
  {
    if sides == [] then c
    else ClimbLevels(H, sides[1..], Join(H, c, sides[0], p[0]), p[1..])
  }

  function ClimbLeftLevels(H: HashFn, sides: seq<Side>, c: Climb, p: seq<Bytes>): Climb
    requires |sides| == |p|
  {
    if sides == [] then c
    else ClimbLeftLevels(H, sides[1..], JoinIfLeft(H, c, sides[0], p[0]), p[1..])
  }

  lemma {:induction false} LevelsLast(H: HashFn, sides: seq<Side>, c: Climb, p: seq<Bytes>, side: Side, sib: Bytes)
    requires |sides| == |p|
    ensures ClimbLevels(H, sides + [side], c, p + [sib]) == Join(H, ClimbLevels(H, sides, c, p), side, sib)
    ensures ClimbLeftLevels(H, sides + [side], c, p + [sib]) ==
      JoinIfLeft(H, ClimbLeftLevels(H, sides, c, p), side, sib)
    decreases |sides|
  {
    if sides != [] {
      assert (sides + [side])[1..] == sides[1..] + [side];
      assert (p + [sib])[1..] == p[1..] + [sib];
      LevelsLast(H, sides[1..], Join(H, c, sides[0], p[0]), p[1..], side, sib);
      LevelsLast(H, sides[1..], JoinIfLeft(H, c, sides[0], p[0]), p[1..], side, sib);
    }
  }

  lemma {:induction false} LevelsClimbUp(H: HashFn, r: Route, c: Climb, p: seq<Bytes>)
    requires |p| == Length(r)
    ensures ClimbLevels(H, Sides(r), c, p) == ClimbUp(H, r, c, p)
    ensures ClimbLeftLevels(H, Sides(r), c, p) == ClimbLeft(H, r, c, p)
  {
    match r
    case Here =>
    case Past(side, below) =>
      var init, last := p[..|p| - 1], p[|p| - 1];
      assert p == init + [last];
      LevelsClimbUp(H, below, c, init);
      LevelsLast(H, Sides(below), c, init, side, last);
  }
}
