/** The scene hierarchy the tool searches: game objects with their attached
    components and child objects, and references to objects placed in the tree. */
module Scene {

  /** One slot of a game object's component array: a component known by the
      name of its type, or a missing one (a destroyed or unloadable component
      shows up as null in `GetComponents`). */
  datatype Component = Missing | Attached(typeName: string)

  /** A game object: `id` stands for its reference identity, `activeSelf` for its
      own activity flag; `children` are the objects under its transform, in order. */
  datatype Node = Node(id: nat, name: string, activeSelf: bool, components: seq<Component>, children: seq<Node>)

  /** A reference to a game object as it sits in the scene: the object and the
      chain of its transform's parents, nearest first; a root has no parents. */
  datatype Located = Located(node: Node, parents: seq<Node>)

  /** The reference to the `k`-th child of the object `at` refers to. */
  function ChildAt(at: Located, k: nat): Located
    requires k < |at.node.children|
  {
    Located(at.node.children[k], [at.node] + at.parents)
  }

  /** `activeInHierarchy`: the object and all of its parents are active. */
  function ActiveInHierarchy(l: Located): (r: bool)
    ensures r ==> l.node.activeSelf
    ensures l.parents == [] ==> (r <==> l.node.activeSelf)
  {
    l.node.activeSelf && forall i :: 0 <= i < |l.parents| ==> l.parents[i].activeSelf
  }

  /** Unity's recursive reading: an object with a parent is active in the
      hierarchy exactly when it is active itself and its parent is active in
      the hierarchy. */
  lemma ActiveInHierarchyStep(l: Located)
    requires l.parents != []
    ensures ActiveInHierarchy(l) <==>
      l.node.activeSelf && ActiveInHierarchy(Located(l.parents[0], l.parents[1..]))
  {
    var up := Located(l.parents[0], l.parents[1..]);
    if l.node.activeSelf && ActiveInHierarchy(up) {
      forall i | 0 <= i < |l.parents| ensures l.parents[i].activeSelf {
        if i > 0 { assert l.parents[i] == up.parents[i - 1]; }
      }
    }
    if ActiveInHierarchy(l) {
      forall i | 0 <= i < |up.parents| ensures up.parents[i].activeSelf {
        assert up.parents[i] == l.parents[i + 1];
      }
    }
  }

  /** Identities of all objects in the subtree of `n`. */
  ghost function TreeIds(n: Node): set<nat>
    decreases n, |n.children| + 1
  {
    {n.id} + KidIds(n, |n.children|)
  }

  /** Identities in the subtrees of the first `k` children of `n`. */
  ghost function KidIds(n: Node, k: nat): set<nat>
    requires k <= |n.children|
    decreases n, k
  {
    if k == 0 then {} else KidIds(n, k - 1) + TreeIds(n.children[k - 1])
  }

  /** The subtree of `n` is a tree of distinct objects: no identity occurs twice. */
  ghost predicate WellFormed(n: Node) {
    && n.id !in KidIds(n, |n.children|)
    && (forall i :: 0 <= i < |n.children| ==> WellFormed(n.children[i]))
    && (forall i, j :: 0 <= i < j < |n.children| ==> TreeIds(n.children[i]) !! TreeIds(n.children[j]))
  }

  /** Roots of a scene: each a well-formed tree, no identity shared between two. */
  ghost predicate WellFormedForest(roots: seq<Node>) {
    && (forall i :: 0 <= i < |roots| ==> WellFormed(roots[i]))
    && (forall i, j :: 0 <= i < j < |roots| ==> TreeIds(roots[i]) !! TreeIds(roots[j]))
  }

  /** An identity among those of the first `k` children lies in one child's subtree. */
  lemma {:induction false} KidIdsFrom(n: Node, k: nat, id: nat) returns (j: nat)
    requires k <= |n.children| && id in KidIds(n, k)
    ensures j < k && id in TreeIds(n.children[j])
  {
    if id in TreeIds(n.children[k - 1]) {
      j := k - 1;
    } else {
      j := KidIdsFrom(n, k - 1, id);
    }
  }

  /** In a well-formed tree, the first `k` children's identities avoid the `k`-th child's. */
  lemma {:induction false} KidIdsDisjoint(n: Node, k: nat)
    requires WellFormed(n) && k < |n.children|
    ensures KidIds(n, k) !! TreeIds(n.children[k])
  {
    forall id | id in KidIds(n, k)
      ensures id !in TreeIds(n.children[k])
    {
      var j := KidIdsFrom(n, k, id);
      assert TreeIds(n.children[j]) !! TreeIds(n.children[k]);
    }
  }
}
