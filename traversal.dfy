/** What the recursive search does to the result list, as a function of the list
    before the call, and what that amounts to: a reference preorder walk of the
    objects the activity rule lets the search enter, keeping those that match. */
module Traversal {
  import opened Scene
  import opened Matching

  /** `foundObjects.Contains(obj)`: the list holds a reference to the same object. */
  predicate ContainsId(found: seq<Located>, id: nat) {
    exists j :: 0 <= j < |found| && found[j].node.id == id
  }

  ghost function IdsOf(s: seq<Located>): set<nat> {
    set j | 0 <= j < |s| :: s[j].node.id
  }

  predicate IsPrefix(a: seq<Located>, b: seq<Located>) {
    |a| <= |b| && b[..|a|] == a
  }

  /** `b` is `a` with entries appended at the end, each one an object not listed before it. */
  predicate FreshTail(a: seq<Located>, b: seq<Located>) {
    IsPrefix(a, b) && forall i :: |a| <= i < |b| ==> !ContainsId(b[..i], b[i].node.id)
  }

  /** No object is listed twice. */
  predicate NoDupIds(s: seq<Located>) {
    forall i, j :: 0 <= i < j < |s| ==> s[i].node.id != s[j].node.id
  }

  /** Whether the search descends into `child`: always when inactive objects are
      included, otherwise only when the child is active in the hierarchy. */
  predicate Enters(includeInactive: bool, child: Located) {
    includeInactive || ActiveInHierarchy(child)
  }

  // ---------------------------------------------------------------------------
  // The search as the source writes it.

  /** The result list after `SearchRecursive(at)` starting from `found`: nothing
      happens to an object already listed; otherwise the object is appended if it
      matches, then the children are searched in order. */
  ghost function Visit(found: seq<Located>, at: Located, q: Query): seq<Located>
    decreases at.node, |at.node.children| + 1
  {
    if ContainsId(found, at.node.id) then found
    else
      var f := if Selects(q, at.node) then found + [at] else found;
      VisitKids(f, at, q, |at.node.children|)
  }

  /** The result list after the children loop has handled the first `k` children. */
  ghost function VisitKids(found: seq<Located>, at: Located, q: Query, k: nat): seq<Located>
    requires k <= |at.node.children|
    decreases at.node, k
  {
    if k == 0 then found
    else
      var acc := VisitKids(found, at, q, k - 1);
      var child := ChildAt(at, k - 1);
      if Enters(q.includeInactive, child) then Visit(acc, child, q) else acc
  }

  // ---------------------------------------------------------------------------
  // Reference definitions.

  /** The objects the search may enter from `at`: `at` itself, whatever its
      activity, and the subtrees of the children it descends into. */
  ghost function Entered(at: Located, includeInactive: bool): set<Located>
    decreases at.node, |at.node.children| + 1
  {
    {at} + EnteredKids(at, includeInactive, |at.node.children|)
  }

  ghost function EnteredKids(at: Located, includeInactive: bool, k: nat): set<Located>
    requires k <= |at.node.children|
    decreases at.node, k
  {
    if k == 0 then {}
    else
      var child := ChildAt(at, k - 1);
      EnteredKids(at, includeInactive, k - 1) + (if Enters(includeInactive, child) then Entered(child, includeInactive) else {})
  }

  /** The matching objects under `at` in depth-first preorder, without any check
      against earlier results. */
  ghost function Reach(at: Located, q: Query): seq<Located>
    decreases at.node, |at.node.children| + 1
  {
    (if Selects(q, at.node) then [at] else []) + ReachKids(at, q, |at.node.children|)
  }

  ghost function ReachKids(at: Located, q: Query, k: nat): seq<Located>
    requires k <= |at.node.children|
    decreases at.node, k
  {
    if k == 0 then []
    else
      var child := ChildAt(at, k - 1);
      ReachKids(at, q, k - 1) + (if Enters(q.includeInactive, child) then Reach(child, q) else [])
  }

  // ---------------------------------------------------------------------------
  // Small facts about the list predicates.

  lemma ContainsIdIff(s: seq<Located>, id: nat)
    ensures ContainsId(s, id) <==> id in IdsOf(s)
  {
    if id in IdsOf(s) {
      var j :| 0 <= j < |s| && s[j].node.id == id;
    }
  }

  lemma IdsOfConcat(a: seq<Located>, b: seq<Located>)
    ensures IdsOf(a + b) == IdsOf(a) + IdsOf(b)
  {
    forall id | id in IdsOf(a + b) ensures id in IdsOf(a) + IdsOf(b) {
      var j :| 0 <= j < |a + b| && (a + b)[j].node.id == id;
      if j >= |a| { assert b[j - |a|] == (a + b)[j]; }
    }
    forall id | id in IdsOf(a) ensures id in IdsOf(a + b) {
      var j :| 0 <= j < |a| && a[j].node.id == id;
      assert (a + b)[j] == a[j];
    }
    forall id | id in IdsOf(b) ensures id in IdsOf(a + b) {
      var j :| 0 <= j < |b| && b[j].node.id == id;
      assert (a + b)[|a| + j] == b[j];
    }
  }

  lemma FreshTailTrans(a: seq<Located>, b: seq<Located>, c: seq<Located>)
    requires FreshTail(a, b) && FreshTail(b, c)
    ensures FreshTail(a, c)
    ensures c[|a|..] == b[|a|..] + c[|b|..]
  {
    assert c[..|a|] == c[..|b|][..|a|];
    forall i | |a| <= i < |b| ensures !ContainsId(c[..i], c[i].node.id) {
      assert c[..i] == b[..i];
    }
    assert c == c[..|b|] + c[|b|..];
  }

  /** Appending fresh entries keeps a list free of duplicates. */
  lemma FreshTailNoDup(a: seq<Located>, b: seq<Located>)
    requires NoDupIds(a) && FreshTail(a, b)
    ensures NoDupIds(b)
  {
    forall i, j | 0 <= i < j < |b| ensures b[i].node.id != b[j].node.id {
      if j < |a| {
        assert b[i] == a[i] && b[j] == a[j];
      } else {
        assert b[..j][i] == b[i];
      }
    }
  }

  // ---------------------------------------------------------------------------
  // The search only appends, never an object twice, and only what Reach lists.

  lemma {:induction false} VisitGrows(found: seq<Located>, at: Located, q: Query)
    ensures FreshTail(found, Visit(found, at, q))
    ensures forall l :: l in Visit(found, at, q)[|found|..] ==> l in Reach(at, q)
    decreases at.node, |at.node.children| + 1
  {
    if !ContainsId(found, at.node.id) {
      var f := if Selects(q, at.node) then found + [at] else found;
      var head := if Selects(q, at.node) then [at] else [];
      assert f == found + head;
      assert f[..|found|] == found;
      VisitKidsGrows(f, at, q, |at.node.children|);
      var r := VisitKids(f, at, q, |at.node.children|);
      FreshTailTrans(found, f, r);
      assert f[|found|..] == head;
    } else {
      assert Visit(found, at, q)[|found|..] == [];
    }
  }

  lemma {:induction false} VisitKidsGrows(found: seq<Located>, at: Located, q: Query, k: nat)
    requires k <= |at.node.children|
    ensures FreshTail(found, VisitKids(found, at, q, k))
    ensures forall l :: l in VisitKids(found, at, q, k)[|found|..] ==> l in ReachKids(at, q, k)
    decreases at.node, k
  {
    if k == 0 {
      assert found[..|found|] == found;
      assert found[|found|..] == [];
    } else {
      VisitKidsGrows(found, at, q, k - 1);
      var acc := VisitKids(found, at, q, k - 1);
      var child := ChildAt(at, k - 1);
      if Enters(q.includeInactive, child) {
        VisitGrows(acc, child, q);
        FreshTailTrans(found, acc, Visit(acc, child, q));
      }
    }
  }

  /** Each call appends its own object at most once and never one already listed. */
  lemma VisitKeepsNoDup(found: seq<Located>, at: Located, q: Query)
    requires NoDupIds(found)
    ensures NoDupIds(Visit(found, at, q))
  {
    VisitGrows(found, at, q);
    FreshTailNoDup(found, Visit(found, at, q));
  }

  // ---------------------------------------------------------------------------
  // What Reach lists: exactly the entered objects that match.

  lemma {:induction false} ReachIff(at: Located, q: Query, l: Located)
    ensures l in Reach(at, q) <==> l in Entered(at, q.includeInactive) && Selects(q, l.node)
    decreases at.node, |at.node.children| + 1
  {
    ReachKidsIff(at, q, |at.node.children|, l);
  }

  lemma {:induction false} ReachKidsIff(at: Located, q: Query, k: nat, l: Located)
    requires k <= |at.node.children|
    ensures l in ReachKids(at, q, k) <==> l in EnteredKids(at, q.includeInactive, k) && Selects(q, l.node)
    decreases at.node, k
  {
    if k > 0 {
      ReachKidsIff(at, q, k - 1, l);
      var child := ChildAt(at, k - 1);
      if Enters(q.includeInactive, child) {
        ReachIff(child, q, l);
      }
    }
  }

  lemma {:induction false} ReachIds(at: Located, q: Query)
    ensures IdsOf(Reach(at, q)) <= TreeIds(at.node)
    decreases at.node, |at.node.children| + 1
  {
    ReachKidsIds(at, q, |at.node.children|);
    var head := if Selects(q, at.node) then [at] else [];
    IdsOfConcat(head, ReachKids(at, q, |at.node.children|));
  }

  lemma {:induction false} ReachKidsIds(at: Located, q: Query, k: nat)
    requires k <= |at.node.children|
    ensures IdsOf(ReachKids(at, q, k)) <= KidIds(at.node, k)
    decreases at.node, k
  {
    if k > 0 {
      ReachKidsIds(at, q, k - 1);
      var child := ChildAt(at, k - 1);
      var tail := if Enters(q.includeInactive, child) then Reach(child, q) else [];
      if Enters(q.includeInactive, child) {
        ReachIds(child, q);
      }
      IdsOfConcat(ReachKids(at, q, k - 1), tail);
    }
  }

  // ---------------------------------------------------------------------------
  // On a tree of distinct objects that the list does not already reach into, the
  // search appends exactly Reach.

  lemma {:induction false} VisitExact(found: seq<Located>, at: Located, q: Query)
    requires WellFormed(at.node) && IdsOf(found) !! TreeIds(at.node)
    ensures Visit(found, at, q) == found + Reach(at, q)
    decreases at.node, |at.node.children| + 1, 0
  {
    ContainsIdIff(found, at.node.id);
    var head := if Selects(q, at.node) then [at] else [];
    var f := found + head;
    assert f == (if Selects(q, at.node) then found + [at] else found);
    IdsOfConcat(found, head);
    assert IdsOf(head) <= {at.node.id};
    assert !ContainsId(found, at.node.id);
    assert IdsOf(f) !! KidIds(at.node, |at.node.children|);
    VisitKidsExact(f, at, q, |at.node.children|);
    assert Visit(found, at, q) == f + ReachKids(at, q, |at.node.children|);
  }

  lemma {:induction false} VisitKidsExact(found: seq<Located>, at: Located, q: Query, k: nat)
    requires k <= |at.node.children|
    requires WellFormed(at.node) && IdsOf(found) !! KidIds(at.node, k)
    ensures VisitKids(found, at, q, k) == found + ReachKids(at, q, k)
    decreases at.node, k, 1
  {
    if k > 0 {
      assert KidIds(at.node, k) == KidIds(at.node, k - 1) + TreeIds(at.node.children[k - 1]);
      VisitKidsExact(found, at, q, k - 1);
      if Enters(q.includeInactive, ChildAt(at, k - 1)) {
        VisitChildExact(found, at, q, k);
      }
    }
  }

  /** The step for one entered child, once the earlier children are done. */
  lemma {:induction false} VisitChildExact(found: seq<Located>, at: Located, q: Query, k: nat)
    requires 0 < k <= |at.node.children| && Enters(q.includeInactive, ChildAt(at, k - 1))
    requires WellFormed(at.node) && IdsOf(found) !! KidIds(at.node, k)
    requires VisitKids(found, at, q, k - 1) == found + ReachKids(at, q, k - 1)
    ensures VisitKids(found, at, q, k) == found + ReachKids(at, q, k)
    decreases at.node, k, 0
  {
    var child := ChildAt(at, k - 1);
    var earlier := ReachKids(at, q, k - 1);
    assert IdsOf(found + earlier) !! TreeIds(child.node) by {
      assert KidIds(at.node, k) == KidIds(at.node, k - 1) + TreeIds(child.node);
      ReachKidsIds(at, q, k - 1);
      KidIdsDisjoint(at.node, k - 1);
      IdsOfConcat(found, earlier);
    }
    assert WellFormed(child.node);
    VisitExact(found + earlier, child, q);
    assert VisitKids(found, at, q, k) == Visit(found + earlier, child, q);
    assert ReachKids(at, q, k) == earlier + Reach(child, q);
    assert (found + earlier) + Reach(child, q) == found + (earlier + Reach(child, q));
  }

  // ---------------------------------------------------------------------------
  // The activity rule.

  /** Without inactive objects, only entered objects are reached. */
  lemma {:induction false} EnteredExcludingIsSmaller(at: Located, l: Located)
    requires l in Entered(at, false)
    ensures l in Entered(at, true)
    decreases at.node, |at.node.children| + 1
  {
    if l != at {
      EnteredKidsExcludingIsSmaller(at, |at.node.children|, l);
    }
  }

  lemma {:induction false} EnteredKidsExcludingIsSmaller(at: Located, k: nat, l: Located)
    requires k <= |at.node.children| && l in EnteredKids(at, false, k)
    ensures l in EnteredKids(at, true, k)
    decreases at.node, k
  {
    var child := ChildAt(at, k - 1);
    if l in EnteredKids(at, false, k - 1) {
      EnteredKidsExcludingIsSmaller(at, k - 1, l);
    } else {
      EnteredExcludingIsSmaller(child, l);
    }
  }

  /** Without inactive objects, everything entered but the start object is active
      in the hierarchy, so nothing beneath an inactive object is entered. */
  lemma {:induction false} EnteredExcludingIsActive(at: Located, l: Located)
    requires l in Entered(at, false)
    ensures l == at || ActiveInHierarchy(l)
    decreases at.node, |at.node.children| + 1
  {
    if l != at {
      EnteredKidsExcludingIsActive(at, |at.node.children|, l);
    }
  }

  lemma {:induction false} EnteredKidsExcludingIsActive(at: Located, k: nat, l: Located)
    requires k <= |at.node.children| && l in EnteredKids(at, false, k)
    ensures ActiveInHierarchy(l)
    decreases at.node, k
  {
    var child := ChildAt(at, k - 1);
    if l in EnteredKids(at, false, k - 1) {
      EnteredKidsExcludingIsActive(at, k - 1, l);
    } else {
      EnteredExcludingIsActive(child, l);
    }
  }

  /** An object active in the hierarchy sits below an object that is too. */
  lemma {:induction false} ActiveBelowActive(at: Located, incl: bool, l: Located)
    requires l in Entered(at, incl) && ActiveInHierarchy(l)
    ensures ActiveInHierarchy(at)
    decreases at.node, |at.node.children| + 1
  {
    if l != at {
      ActiveKidsBelowActive(at, incl, |at.node.children|, l);
    }
  }

  lemma {:induction false} ActiveKidsBelowActive(at: Located, incl: bool, k: nat, l: Located)
    requires k <= |at.node.children| && l in EnteredKids(at, incl, k) && ActiveInHierarchy(l)
    ensures ActiveInHierarchy(at)
    decreases at.node, k
  {
    var child := ChildAt(at, k - 1);
    if l in EnteredKids(at, incl, k - 1) {
      ActiveKidsBelowActive(at, incl, k - 1, l);
    } else {
      ActiveBelowActive(child, incl, l);
      assert child.parents[0] == at.node;
      forall i | 0 <= i < |at.parents| ensures at.parents[i].activeSelf {
        assert child.parents[i + 1] == at.parents[i];
      }
    }
  }

  /** Without inactive objects, every object of the subtree that is active in the
      hierarchy is still entered. */
  lemma {:induction false} ActiveIsEntered(at: Located, l: Located)
    requires l in Entered(at, true) && ActiveInHierarchy(l)
    ensures l in Entered(at, false)
    decreases at.node, |at.node.children| + 1
  {
    if l != at {
      ActiveKidsAreEntered(at, |at.node.children|, l);
    }
  }

  lemma {:induction false} ActiveKidsAreEntered(at: Located, k: nat, l: Located)
    requires k <= |at.node.children| && l in EnteredKids(at, true, k) && ActiveInHierarchy(l)
    ensures l in EnteredKids(at, false, k)
    decreases at.node, k
  {
    var child := ChildAt(at, k - 1);
    if l in EnteredKids(at, true, k - 1) {
      ActiveKidsAreEntered(at, k - 1, l);
    } else {
      ActiveBelowActive(child, true, l);
      ActiveIsEntered(child, l);
    }
  }

  /** The start object is searched even when it is inactive, but then nothing below it is. */
  lemma InactiveStartAlone(at: Located)
    requires !ActiveInHierarchy(at)
    ensures Entered(at, false) == {at}
  {
    forall l | l in Entered(at, false) ensures l == at {
      EnteredExcludingIsActive(at, l);
      if l != at {
        ActiveBelowActive(at, false, l);
      }
    }
  }

  /** Whatever a case-sensitive search reaches, a case-insensitive one reaches too. */
  lemma CaseSensitiveReachIsSmaller(at: Located, names: seq<string>, incl: bool, l: Located)
    requires l in Reach(at, Query(names, true, incl))
    ensures l in Reach(at, Query(names, false, incl))
  {
    ReachIff(at, Query(names, true, incl), l);
    CaseSensitiveMatchImpliesIgnoreCase(l.node.components, names);
    ReachIff(at, Query(names, false, incl), l);
  }

  // ---------------------------------------------------------------------------
  // The same facts for one call of the search.

  /** An object not yet listed is appended by its own call exactly when it matches. */
  lemma VisitAppendsStart(found: seq<Located>, at: Located, q: Query)
    requires !ContainsId(found, at.node.id)
    ensures IsPrefix(found, Visit(found, at, q))
    ensures at in Visit(found, at, q)[|found|..] <==> Selects(q, at.node)
  {
    VisitGrows(found, at, q);
    ReachIff(at, q, at);
    if Selects(q, at.node) {
      var f := found + [at];
      VisitKidsGrows(f, at, q, |at.node.children|);
      var r := Visit(found, at, q);
      assert r[..|f|] == f;
      assert r[|found|..][0] == at;
    }
  }

  /** Whatever a call appends lies in the subtree of its object and matches. */
  lemma VisitStaysInSubtree(found: seq<Located>, at: Located, q: Query)
    ensures IsPrefix(found, Visit(found, at, q))
    ensures forall l :: l in Visit(found, at, q)[|found|..] ==> l in Entered(at, true) && Selects(q, l.node)
  {
    VisitGrows(found, at, q);
    forall l | l in Visit(found, at, q)[|found|..]
      ensures l in Entered(at, true) && Selects(q, l.node)
    {
      ReachIff(at, q, l);
      if !q.includeInactive {
        EnteredExcludingIsSmaller(at, l);
      }
    }
  }

  /** Without inactive objects, a call appends nothing inactive in the hierarchy
      except, possibly, its own object. */
  lemma VisitSkipsInactive(found: seq<Located>, at: Located, q: Query)
    requires !q.includeInactive
    ensures IsPrefix(found, Visit(found, at, q))
    ensures forall l :: l in Visit(found, at, q)[|found|..] ==> l == at || ActiveInHierarchy(l)
  {
    VisitGrows(found, at, q);
    forall l | l in Visit(found, at, q)[|found|..]
      ensures l == at || ActiveInHierarchy(l)
    {
      ReachIff(at, q, l);
      EnteredExcludingIsActive(at, l);
    }
  }

  /** With inactive objects included, a call on a tree of distinct objects, none
      listed yet, lists every matching object of the subtree. */
  lemma VisitFindsAll(found: seq<Located>, at: Located, q: Query)
    requires q.includeInactive && WellFormed(at.node) && IdsOf(found) !! TreeIds(at.node)
    ensures forall l :: l in Entered(at, true) && Selects(q, l.node) ==> l in Visit(found, at, q)
  {
    VisitExact(found, at, q);
    forall l | l in Entered(at, true) && Selects(q, l.node)
      ensures l in Visit(found, at, q)
    {
      ReachIff(at, q, l);
    }
  }

  // ---------------------------------------------------------------------------
  // The driver loop over the scene's roots.

  function RootAt(roots: seq<Node>, i: nat): Located
    requires i < |roots|
  {
    Located(roots[i], [])
  }

  /** The result list after the first `k` roots have been searched. */
  ghost function SearchRoots(found: seq<Located>, roots: seq<Node>, q: Query, k: nat): seq<Located>
    requires k <= |roots|
  {
    if k == 0 then found else Visit(SearchRoots(found, roots, q, k - 1), RootAt(roots, k - 1), q)
  }

  /** Reference result of the first `k` roots: their Reach lists one after the other. */
  ghost function ForestReach(roots: seq<Node>, q: Query, k: nat): seq<Located>
    requires k <= |roots|
  {
    if k == 0 then [] else ForestReach(roots, q, k - 1) + Reach(RootAt(roots, k - 1), q)
  }

  ghost function ForestIds(roots: seq<Node>, k: nat): set<nat>
    requires k <= |roots|
  {
    if k == 0 then {} else ForestIds(roots, k - 1) + TreeIds(roots[k - 1])
  }

  /** Searching more roots only appends: the results of the roots completed before
      a cancellation are a prefix of the results of the whole search. */
  lemma {:induction false} SearchRootsGrows(found: seq<Located>, roots: seq<Node>, q: Query, j: nat, k: nat)
    requires j <= k <= |roots|
    ensures FreshTail(SearchRoots(found, roots, q, j), SearchRoots(found, roots, q, k))
    decreases k
  {
    if j == k {
      var s := SearchRoots(found, roots, q, j);
      assert s[..|s|] == s;
    } else {
      SearchRootsGrows(found, roots, q, j, k - 1);
      VisitGrows(SearchRoots(found, roots, q, k - 1), RootAt(roots, k - 1), q);
      FreshTailTrans(SearchRoots(found, roots, q, j), SearchRoots(found, roots, q, k - 1), SearchRoots(found, roots, q, k));
    }
  }

  lemma SearchRootsNoDup(found: seq<Located>, roots: seq<Node>, q: Query, k: nat)
    requires k <= |roots| && NoDupIds(found)
    ensures NoDupIds(SearchRoots(found, roots, q, k))
  {
    SearchRootsGrows(found, roots, q, 0, k);
    FreshTailNoDup(found, SearchRoots(found, roots, q, k));
  }

  lemma {:induction false} ForestReachIds(roots: seq<Node>, q: Query, k: nat)
    requires k <= |roots|
    ensures IdsOf(ForestReach(roots, q, k)) <= ForestIds(roots, k)
  {
    if k > 0 {
      ForestReachIds(roots, q, k - 1);
      ReachIds(RootAt(roots, k - 1), q);
      IdsOfConcat(ForestReach(roots, q, k - 1), Reach(RootAt(roots, k - 1), q));
    }
  }

  lemma {:induction false} ForestIdsDisjoint(roots: seq<Node>, k: nat, m: nat)
    requires WellFormedForest(roots) && k <= m < |roots|
    ensures ForestIds(roots, k) !! TreeIds(roots[m])
  {
    if k > 0 {
      ForestIdsDisjoint(roots, k - 1, m);
      assert TreeIds(roots[k - 1]) !! TreeIds(roots[m]);
    }
  }

  /** On a well-formed scene the search appends the roots' Reach lists in order. */
  lemma {:induction false} SearchRootsExact(found: seq<Located>, roots: seq<Node>, q: Query, k: nat)
    requires k <= |roots| && WellFormedForest(roots) && IdsOf(found) !! ForestIds(roots, k)
    ensures SearchRoots(found, roots, q, k) == found + ForestReach(roots, q, k)
  {
    if k > 0 {
      assert ForestIds(roots, k) == ForestIds(roots, k - 1) + TreeIds(roots[k - 1]);
      SearchRootsExact(found, roots, q, k - 1);
      SearchRootExact(found, roots, q, k);
    }
  }

  /** The step for one root, once the earlier roots are done. */
  lemma SearchRootExact(found: seq<Located>, roots: seq<Node>, q: Query, k: nat)
    requires 0 < k <= |roots| && WellFormedForest(roots) && IdsOf(found) !! ForestIds(roots, k)
    requires SearchRoots(found, roots, q, k - 1) == found + ForestReach(roots, q, k - 1)
    ensures SearchRoots(found, roots, q, k) == found + ForestReach(roots, q, k)
  {
    var root := roots[k - 1];
    var at := RootAt(roots, k - 1);
    var earlier := ForestReach(roots, q, k - 1);
    var acc := found + earlier;
    assert IdsOf(acc) !! TreeIds(root) by {
      assert ForestIds(roots, k) == ForestIds(roots, k - 1) + TreeIds(root);
      ForestReachIds(roots, q, k - 1);
      ForestIdsDisjoint(roots, k - 1, k - 1);
      IdsOfConcat(found, earlier);
    }
    assert WellFormed(root);
    VisitExact(acc, at, q);
    assert acc + Reach(at, q) == found + (earlier + Reach(at, q));
  }

  lemma {:induction false} ForestReachIff(roots: seq<Node>, q: Query, k: nat, l: Located)
    requires k <= |roots|
    ensures l in ForestReach(roots, q, k) <==>
      exists i :: 0 <= i < k && l in Entered(RootAt(roots, i), q.includeInactive) && Selects(q, l.node)
  {
    if k > 0 {
      ForestReachIff(roots, q, k - 1, l);
      ReachIff(RootAt(roots, k - 1), q, l);
    }
  }

  /** A whole search of a well-formed scene from an empty list lists no object
      twice, and lists exactly the matching objects it may enter from some root. */
  lemma SearchResult(roots: seq<Node>, q: Query, l: Located)
    requires WellFormedForest(roots)
    ensures NoDupIds(SearchRoots([], roots, q, |roots|))
    ensures l in SearchRoots([], roots, q, |roots|) <==>
      exists i :: 0 <= i < |roots| && l in Entered(RootAt(roots, i), q.includeInactive) && Selects(q, l.node)
  {
    SearchRootsNoDup([], roots, q, |roots|);
    SearchRootsExact([], roots, q, |roots|);
    assert [] + ForestReach(roots, q, |roots|) == ForestReach(roots, q, |roots|);
    ForestReachIff(roots, q, |roots|, l);
  }
}
