/**
 * The octree of src/physics/collisions/classes/octree.rs.
 *
 * The boxed tree of `OctreeNode`s is an arena: node 0 is the root and a
 * node's `children` hold the arena indices of its eight children. The
 * process-global `CHUNK_NUMBER` and the `Chunk` component of each entity,
 * which `insert` rewrites through `Commands`, are two more fields of the
 * same object, so that one `Octree` holds everything an insertion changes.
 */
module Octree {
  import opened Wrappers
  import opened Geometry

  type EntityId = nat

  /**
   * `PhysicsEntity`: the bevy entity and the AABB of its collider under its
   * transform (`compute_aabb(transform_to_isometry(..))`, computed by the caller).
   */
  datatype PhysicsEntity = PhysicsEntity(entity: EntityId, aabb: Aabb)

  /** `OctreeNode`: `children` is `None` for a leaf, otherwise the arena indices of the children. */
  datatype Node = Node(children: Option<seq<nat>>, boundingBox: Aabb, objects: seq<PhysicsEntity>, chunkNum: int)

  /** A node without children and without objects. */
  function Leaf(boundingBox: Aabb, chunkNum: int): Node {
    Node(None, boundingBox, [], chunkNum)
  }

  /** The node shape invariant: no children, or exactly eight that exist in the arena. */
  predicate NodeOk(node: Node, size: nat) {
    node.children.Some? ==>
      |node.children.value| == 8 && forall k :: 0 <= k < 8 ==> node.children.value[k] < size
  }

  predicate ArenaOk(nodes: seq<Node>) {
    |nodes| > 0 && forall i :: 0 <= i < |nodes| ==> NodeOk(nodes[i], |nodes|)
  }

  /** No node stores any object. */
  ghost predicate NoObjects(nodes: seq<Node>) {
    forall i :: 0 <= i < |nodes| ==> nodes[i].objects == []
  }

  /** The first of `kids[k..]` whose box contains `box`, as a position in `kids`. */
  function FirstContainingFrom(nodes: seq<Node>, kids: seq<nat>, box: Aabb, k: nat): (r: Option<nat>)
    requires |kids| == 8 && k <= 8 && forall j :: 0 <= j < 8 ==> kids[j] < |nodes|
    ensures r.Some? ==>
      && k <= r.value < 8 && AabbContains(nodes[kids[r.value]].boundingBox, box)
      && forall j :: k <= j < r.value ==> !AabbContains(nodes[kids[j]].boundingBox, box)
    ensures r.None? ==> forall j :: k <= j < 8 ==> !AabbContains(nodes[kids[j]].boundingBox, box)
    decreases 8 - k
  {
    if k == 8 then None
    else if AabbContains(nodes[kids[k]].boundingBox, box) then Some(k)
    else FirstContainingFrom(nodes, kids, box, k + 1)
  }

  /**
   * The child `insert` descends into: the first child, in array order, whose
   * box contains `box`; `None` for a leaf or when no child contains it.
   */
  function FirstContaining(nodes: seq<Node>, node: Node, box: Aabb): (r: Option<nat>)
    requires NodeOk(node, |nodes|)
    ensures r.Some? ==>
      && node.children.Some? && r.value < 8
      && AabbContains(nodes[node.children.value[r.value]].boundingBox, box)
      && forall j :: 0 <= j < r.value ==> !AabbContains(nodes[node.children.value[j]].boundingBox, box)
    ensures r.None? ==>
      node.children.None? || forall j :: 0 <= j < 8 ==> !AabbContains(nodes[node.children.value[j]].boundingBox, box)
  {
    if node.children.None? then None else FirstContainingFrom(nodes, node.children.value, box, 0)
  }

  /**
   * Descending from `n` never asks a node to pass `depth - 1` on with
   * `depth == 0`, which would underflow the `usize` `max_depth`.
   */
  predicate RoutesWithinDepth(nodes: seq<Node>, n: nat, box: Aabb, depth: nat)
    requires ArenaOk(nodes) && n < |nodes|
    decreases depth
  {
    match FirstContaining(nodes, nodes[n], box)
    case None => true
    case Some(k) => depth > 0 && RoutesWithinDepth(nodes, nodes[n].children.value[k], box, depth - 1)
  }

  /**
   * The node where `insert` from `n` stops, with the depth budget left
   * there: no child of it contains `box`, and unless it is `n` itself its
   * own box contains `box`.
   */
  function Route(nodes: seq<Node>, n: nat, box: Aabb, depth: nat): (r: (nat, nat))
    requires ArenaOk(nodes) && n < |nodes| && RoutesWithinDepth(nodes, n, box, depth)
    ensures r.0 < |nodes| && r.1 <= depth
    ensures FirstContaining(nodes, nodes[r.0], box).None?
    ensures r.0 == n || AabbContains(nodes[r.0].boundingBox, box)
    decreases depth
  {
    match FirstContaining(nodes, nodes[n], box)
    case None => (n, depth)
    case Some(k) => Route(nodes, nodes[n].children.value[k], box, depth - 1)
  }

  /** The arena indices given to the eight children of a split. */
  function ChildIndices(base: nat): seq<nat> {
    [base, base + 1, base + 2, base + 3, base + 4, base + 5, base + 6, base + 7]
  }

  /** Eight leaves over `boxes`, all with the one chunk number `chunkNum`. */
  function NewLeaves(boxes: seq<Aabb>, chunkNum: int): seq<Node>
    requires |boxes| == 8
  {
    seq(8, k requires 0 <= k < 8 => Leaf(boxes[k], chunkNum))
  }

  /** The arena after node `t` is split: new leaf children appended, `t`'s objects taken. */
  ghost function SplitNodes(nodes: seq<Node>, t: nat, chunkNum: int): seq<Node>
    requires t < |nodes|
  {
    nodes[t := nodes[t].(children := Some(ChildIndices(|nodes|)), objects := [])]
      + NewLeaves(SubdivideAabb(nodes[t].boundingBox), chunkNum)
  }

  /**
   * The chunk components after the objects `objs` are re-inserted, in order,
   * among children with boxes `boxes` and chunk number `chunkNum`: an object
   * that fits in some child gets `[chunkNum]`, one that fits in none keeps
   * what it had.
   */
  ghost function Redistribute(chunks: map<EntityId, seq<int>>, objs: seq<PhysicsEntity>, boxes: seq<Aabb>, chunkNum: int): map<EntityId, seq<int>>
    decreases |objs|
  {
    if objs == [] then chunks
    else
      var before := Redistribute(chunks, objs[..|objs| - 1], boxes, chunkNum);
      var o := objs[|objs| - 1];
      if exists k :: 0 <= k < |boxes| && AabbContains(boxes[k], o.aabb) then before[o.entity := [chunkNum]]
      else before
  }

  /**
   * The state after `split` of node `t`, from the arena, counter and chunk
   * components before it: the counter goes up by one, `t` gets eight new
   * leaf children sharing the new counter value and loses its objects, and
   * the objects are redistributed.
   */
  ghost predicate SplitOutcome(
    nodes0: seq<Node>, counter0: int, chunks0: map<EntityId, seq<int>>, t: nat,
    nodes1: seq<Node>, counter1: int, chunks1: map<EntityId, seq<int>>)
    requires t < |nodes0|
  {
    && counter1 == counter0 + 1
    && nodes1 == SplitNodes(nodes0, t, counter1)
    && chunks1 == Redistribute(chunks0, nodes0[t].objects, SubdivideAabb(nodes0[t].boundingBox), counter1)
  }

  /** A split keeps the node shape invariant and grows the arena by eight nodes. */
  lemma SplitKeepsShape(nodes: seq<Node>, t: nat, chunkNum: int)
    requires ArenaOk(nodes) && t < |nodes|
    ensures |SplitNodes(nodes, t, chunkNum)| == |nodes| + 8
    ensures ArenaOk(SplitNodes(nodes, t, chunkNum))
  {
    var r := SplitNodes(nodes, t, chunkNum);
    forall i | 0 <= i < |r|
      ensures NodeOk(r[i], |r|)
    {
      if i < |nodes| && i != t {
        assert r[i] == nodes[i] && NodeOk(nodes[i], |nodes|);
      }
    }
  }

  /**
   * What a split leaves behind: node `t` keeps its box and chunk number,
   * holds no objects and has eight children, which are leaves without
   * objects over the octants of its box, all with chunk number `chunkNum`;
   * every other node is unchanged.
   */
  lemma SplitNodesLayout(nodes: seq<Node>, t: nat, chunkNum: int)
    requires t < |nodes|
    ensures var r := SplitNodes(nodes, t, chunkNum);
      && r[t].children == Some(ChildIndices(|nodes|)) && r[t].objects == []
      && r[t].boundingBox == nodes[t].boundingBox && r[t].chunkNum == nodes[t].chunkNum
      && (forall k :: 0 <= k < 8 ==>
            var child := r[ChildIndices(|nodes|)[k]];
            && child.children.None? && child.objects == [] && child.chunkNum == chunkNum
            && child.boundingBox == SubdivideAabb(nodes[t].boundingBox)[k])
      && (forall i :: 0 <= i < |nodes| && i != t ==> r[i] == nodes[i])
  {
  }

  /**
   * The octree together with the two pieces of state its operations write:
   * the global chunk counter and the `Chunk` component of each entity.
   */
  class Octree {
    /** The nodes; node 0 is the root. */
    var nodes: seq<Node>
    /** `CHUNK_NUMBER`. */
    var chunkNumber: int
    /** The `Chunk` component of each entity that has one. */
    var chunks: map<EntityId, seq<int>>

    ghost predicate Valid()
      reads this
    {
      ArenaOk(nodes)
    }

    /**
     * `OctreeNode::new`: a root leaf over `boundingBox` with chunk number 0
     * and no objects. The counter and the chunk components are whatever
     * they were.
     */
    constructor (boundingBox: Aabb, chunkNumber: int, chunks: map<EntityId, seq<int>>)
      ensures Valid()
      ensures nodes == [Leaf(boundingBox, 0)]
      ensures this.chunkNumber == chunkNumber && this.chunks == chunks
    {
      nodes := [Leaf(boundingBox, 0)];
      this.chunkNumber := chunkNumber;
      this.chunks := chunks;
    }

    /**
     * `insert` at node `n`: descend to the first child whose box contains
     * the entity's AABB; where no child does (or at a leaf) replace the
     * entity's chunk with this node's chunk number and split when the node
     * holds more than `maxObjects` objects and depth is left. The entity
     * itself is never stored in `objects`.
     */
    method Insert(n: nat, e: PhysicsEntity, maxObjects: nat, maxDepth: nat)
      requires Valid() && n < |nodes| && RoutesWithinDepth(nodes, n, e.aabb, maxDepth)
      modifies this
      ensures Valid()
      ensures
        var route := Route(old(nodes), n, e.aabb, maxDepth);
        var t := route.0;
        var depth := route.1;
        var target := old(nodes)[t];
        var rechunked := old(chunks)[e.entity := [target.chunkNum]];
        if |target.objects| > maxObjects && depth > 0 then
          SplitOutcome(old(nodes), old(chunkNumber), rechunked, t, nodes, chunkNumber, chunks)
        else
          nodes == old(nodes) && chunkNumber == old(chunkNumber) && chunks == rechunked
      ensures old(NoObjects(nodes)) ==>
        && nodes == old(nodes) && chunkNumber == old(chunkNumber)
        && chunks == old(chunks)[e.entity := [old(nodes)[Route(old(nodes), n, e.aabb, maxDepth).0].chunkNum]]
      decreases maxDepth, 1
    {
      var node := nodes[n];
      if node.children.Some? {
        var kids := node.children.value;
        var k := 0;
        while k < 8
          invariant 0 <= k <= 8
          invariant nodes == old(nodes) && chunkNumber == old(chunkNumber) && chunks == old(chunks)
          invariant forall j :: 0 <= j < k ==> !AabbContains(nodes[kids[j]].boundingBox, e.aabb)
        {
          if AabbContains(nodes[kids[k]].boundingBox, e.aabb) {
            assert FirstContaining(nodes, node, e.aabb) == Some(k);
            Insert(kids[k], e, maxObjects, maxDepth - 1);
            return;
          }
          k := k + 1;
        }
      }
      assert FirstContaining(nodes, node, e.aabb).None?;
      chunks := chunks[e.entity := [node.chunkNum]];
      if |node.objects| > maxObjects && maxDepth > 0 {
        Split(n, maxObjects, maxDepth);
      }
    }

    /**
     * `split` of node `t`: bump the counter once, give the node eight leaf
     * children over the octants of its box that all carry the new counter
     * value, take its objects and re-insert each into the first child whose
     * box contains it; an object that fits in no child is dropped.
     */
    method Split(t: nat, maxObjects: nat, maxDepth: nat)
      requires Valid() && t < |nodes| && maxDepth > 0
      modifies this
      ensures Valid()
      ensures SplitOutcome(old(nodes), old(chunkNumber), old(chunks), t, nodes, chunkNumber, chunks)
      decreases maxDepth, 0
    {
      var subBoxes := SubdivideAabb(nodes[t].boundingBox);
      chunkNumber := chunkNumber + 1;
      var base := |nodes|;
      nodes := nodes + NewLeaves(subBoxes, chunkNumber);
      nodes := nodes[t := nodes[t].(children := Some(ChildIndices(base)))];
      var entities := nodes[t].objects;
      nodes := nodes[t := nodes[t].(objects := [])];
      assert nodes == SplitNodes(old(nodes), t, chunkNumber);
      SplitKeepsShape(old(nodes), t, chunkNumber);
      var i := 0;
      while i < |entities|
        invariant 0 <= i <= |entities|
        invariant chunkNumber == old(chunkNumber) + 1
        invariant nodes == SplitNodes(old(nodes), t, chunkNumber) && Valid()
        invariant chunks == Redistribute(old(chunks), entities[..i], subBoxes, chunkNumber)
      {
        var physicsEntity := entities[i];
        var kids := nodes[t].children.value;
        ghost var found := false;
        var k := 0;
        while k < 8
          invariant 0 <= k <= 8
          invariant chunkNumber == old(chunkNumber) + 1
          invariant nodes == SplitNodes(old(nodes), t, chunkNumber) && Valid()
          invariant chunks == Redistribute(old(chunks), entities[..i], subBoxes, chunkNumber)
          invariant forall j :: 0 <= j < k ==> !AabbContains(subBoxes[j], physicsEntity.aabb)
        {
          assert nodes[kids[k]] == Leaf(subBoxes[k], chunkNumber);
          if AabbContains(nodes[kids[k]].boundingBox, physicsEntity.aabb) {
            Insert(kids[k], physicsEntity, maxObjects, maxDepth - 1);
            found := true;
            break;
          }
          k := k + 1;
        }
        assert entities[..i + 1][..i] == entities[..i];
        i := i + 1;
      }
      assert entities[..|entities|] == entities;
    }
  }
}
