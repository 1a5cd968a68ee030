/** The search engine inside the editor window: its fields, the start of a
    search, the loop over the scene's roots, the recursive match-and-collect
    walk and the path of a found object. */
module ComponentSearch {
  import opened Scene
  import opened Matching
  import opened Traversal
  import opened Names
  import opened Paths

  class ComponentSearchTool {
    /** The text typed into the "Components" field. */
    var componentName: string
    /** The wanted type names parsed from it. */
    var componentNames: seq<string>
    var caseSensitive: bool
    var includeInactive: bool
    /** The results, in the order found. */
    var foundObjects: seq<Located>
    var isSearching: bool
    var cancelSearch: bool
    /** `searchProgress`, the fraction `progressDone / progressTotal` of roots done;
        0 / 0 stands for the initial 0. */
    var progressDone: nat
    var progressTotal: nat

    /** The window as it opens: the field initialisers. */
    constructor ()
      ensures componentName == "" && componentNames == [""]
      ensures !caseSensitive && includeInactive
      ensures foundObjects == [] && !isSearching && !cancelSearch
      ensures progressDone == 0 && progressTotal == 0
    {
      componentName := "";
      componentNames := [""];
      caseSensitive := false;
      includeInactive := true;
      foundObjects := [];
      isSearching := false;
      cancelSearch := false;
      progressDone := 0;
      progressTotal := 0;
    }

    function CurrentQuery(): Query
      reads this
    {
      Query(componentNames, caseSensitive, includeInactive)
    }

    /** `SearchForComponents`: marks a search as running, clears the results and
        parses the names; the host then calls `PerformSearch` on its next update. */
    method SearchForComponents()
      modifies this
      ensures isSearching && !cancelSearch && foundObjects == []
      ensures componentNames == ParseNames(componentName)
      ensures componentName == old(componentName)
      ensures caseSensitive == old(caseSensitive) && includeInactive == old(includeInactive)
      ensures progressDone == old(progressDone) && progressTotal == old(progressTotal)
    {
      isSearching := true;
      cancelSearch := false;
      foundObjects := [];
      componentNames := ParseNames(componentName);
    }

    /** `PerformSearch` over the scene's roots. Before each root it stops if a
        cancellation was requested; after each searched root it counts it and
        updates the progress. Returns the count of roots searched. Nothing in the
        loop changes `cancelSearch`, so a request made before the call stops the
        search before the first root and none made later can be seen. */
    method PerformSearch(rootObjects: seq<Node>) returns (processed: nat)
      modifies this
      ensures processed == (if old(cancelSearch) then 0 else |rootObjects|)
      ensures foundObjects == SearchRoots(old(foundObjects), rootObjects, old(CurrentQuery()), processed)
      ensures !isSearching
      ensures if processed > 0 then progressDone == processed && progressTotal == |rootObjects|
              else progressDone == old(progressDone) && progressTotal == old(progressTotal)
      ensures cancelSearch == old(cancelSearch) && componentName == old(componentName)
      ensures CurrentQuery() == old(CurrentQuery())
    {
      var total := |rootObjects|;
      processed := 0;
      var i := 0;
      while i < total
        invariant 0 <= i <= total && processed == i
        invariant old(cancelSearch) ==> i == 0
        invariant foundObjects == SearchRoots(old(foundObjects), rootObjects, old(CurrentQuery()), i)
        invariant cancelSearch == old(cancelSearch) && componentName == old(componentName)
        invariant CurrentQuery() == old(CurrentQuery())
        invariant if i > 0 then progressDone == i && progressTotal == total
                  else progressDone == old(progressDone) && progressTotal == old(progressTotal)
      {
        if cancelSearch {
          isSearching := false;
          return;
        }
        SearchRecursive(RootAt(rootObjects, i));
        processed := processed + 1;
        progressDone, progressTotal := processed, total;
        i := i + 1;
      }
      isSearching := false;
    }

    /** `SearchRecursive`: unless the object is already listed, appends it when one
        of its components has a wanted type (checking the names in order and
        stopping at the first that matches), then searches the children; when
        inactive objects are excluded, only children active in the hierarchy. */
    method SearchRecursive(obj: Located)
      modifies this`foundObjects
      ensures foundObjects == Visit(old(foundObjects), obj, CurrentQuery())
      decreases obj.node
    {
      if ContainsId(foundObjects, obj.node.id) {
        return;
      }
      ghost var before := foundObjects;
      var components := obj.node.components;
      var i := 0;
      while i < |componentNames|
        invariant 0 <= i <= |componentNames| && foundObjects == before
        invariant forall j, c :: 0 <= j < i && 0 <= c < |components| ==>
          !ComponentIs(components[c], componentNames[j], caseSensitive)
      {
        var hit := FirstMatch(components, componentNames[i], caseSensitive);
        if hit.Some? {
          assert ComponentIs(components[hit.value], componentNames[i], caseSensitive);
          foundObjects := foundObjects + [obj];
          break;
        }
        i := i + 1;
      }
      assert foundObjects == if Selects(CurrentQuery(), obj.node) then before + [obj] else before;
      ghost var start := foundObjects;
      var children := obj.node.children;
      if !includeInactive {
        var k := 0;
        while k < |children|
          invariant 0 <= k <= |children|
          invariant foundObjects == VisitKids(start, obj, CurrentQuery(), k)
        {
          var child := ChildAt(obj, k);
          if ActiveInHierarchy(child) {
            SearchRecursive(child);
          }
          k := k + 1;
        }
      } else {
        var k := 0;
        while k < |children|
          invariant 0 <= k <= |children|
          invariant foundObjects == VisitKids(start, obj, CurrentQuery(), k)
        {
          SearchRecursive(ChildAt(obj, k));
          k := k + 1;
        }
      }
    }

    /** `GetFullPath`: starts from "/" and the object's name and prepends "/" and
        the name of each parent, walking up to the root. */
    method GetFullPath(obj: Located) returns (path: string)
      ensures path == FullPath(obj)
    {
      var ps := obj.parents;
      path := "/" + obj.node.name;
      var i := 0;
      assert NamesOf(ps[..0]) == [] && [obj.node.name][1..] == [];
      while i < |ps|
        invariant 0 <= i <= |ps|
        invariant path == Slashed(Reversed(NamesOf(ps[..i])) + [obj.node.name])
      {
        PrependParent(ps, i, obj.node.name);
        path := "/" + ps[i].name + path;
        i := i + 1;
      }
      assert ps[..i] == ps;
    }
  }
}
