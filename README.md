# Component Search Tool — a Dafny model of its search engine

The Component Search Tool is a Unity editor window. It finds every game object in
the open scene that carries a component whose type name is on a comma-separated
list. This project models the engine under the window, in
`Assets/Editor/ComponentSearchTool.cs`, and proves properties of it:

- **Name parsing** (`SearchForComponents`). The text is split at commas, empty
  pieces are dropped, and each remaining piece is trimmed. Pieces are dropped
  before trimming, so a piece of blanks survives as `""`. The model is in module
  `Names`, with `Split`, `Trim` and `Join` in module `Text`.
- **Match and collect** (`SearchRecursive`). An object not yet in the results is
  appended if one of its components has a wanted type name. Names are compared
  ordinally, or ordinally ignoring case. The search then descends into the
  children. When inactive objects are excluded, it enters only children that are
  active in the hierarchy. The object the search starts from is always tested.
  The class method is proved against the function `Traversal.Visit`. That function
  only ever appends objects not listed before, and only entries of an independent
  preorder definition, `Traversal.Reach`. The list it returns is free of
  duplicates when the list it started from is. On a tree of distinct objects, none
  of them listed yet, it appends exactly `Reach`. `Reach` in turn holds exactly
  the matching objects of `Traversal.Entered`, the set of objects the activity
  rule lets the search enter.
- **The root loop** (`PerformSearch`). The roots are searched in order. The loop
  checks `cancelSearch` before each root, and counts and reports progress after
  each one.
- **Paths** (`GetFullPath`, `CopyResultsToClipboard`). A path has the form
  `/Root/.../Name`. The clipboard text is the paths joined by newlines.

Game objects are values of `Scene.Node`. Each has an `id` that stands for its
reference identity. A reference held in the result list is a `Scene.Located`: the
object together with its chain of parents, which is what `transform.parent` walks.
`activeInHierarchy` is computed from that chain.

Three consequences of the code are worth stating outright:

- `ValidateInput` checks only the raw text, before it is split. So `","` is
  accepted, and the search then looks for no name at all
  (`Names.ValidInputWithoutNames`).
- There is no visited set. Only `foundObjects.Contains` guards re-entry. An
  object that does not match can therefore be entered again, but no object is
  ever listed twice.
- Nothing in the root loop changes `cancelSearch`, and the whole loop runs inside
  one editor update. So a cancel request takes effect only if it was made before
  the first root. `PerformSearch` states exactly this.
  `Traversal.SearchRootsGrows` states the general fact: the results after the
  first k roots are a prefix of the results after all of them.

## Model

| member | source | states |
|---|---|---|
| `Text.Trim` | Assets/Editor/ComponentSearchTool.cs:150 | the result has no white space at either end; it is a slice of the input with only white space cut off on both sides; it is empty exactly when the input is all white space |
| `Text.Split` | Assets/Editor/ComponentSearchTool.cs:149 | there is at least one piece; no piece holds the separator; joining the pieces with the separator gives back the input |
| `Text.Join` | Assets/Editor/ComponentSearchTool.cs:283 | joining more than one piece puts the separator in the text |
| `Text.JoinStartsWithFirst` | Assets/Editor/ComponentSearchTool.cs:283 | a join begins with its first piece |
| `Text.SplitJoin` | Assets/Editor/ComponentSearchTool.cs:283 | splitting a join gives back the joined pieces, when none of them holds the separator |
| `Text.SplitCovers` | Assets/Editor/ComponentSearchTool.cs:149 | every character other than the separator lies in some piece |
| `Names.DropEmpty` | Assets/Editor/ComponentSearchTool.cs:149 | `RemoveEmptyEntries` keeps one entry per non-empty piece, as often as it occurs, and no empty one: the result is the multiset of the pieces with every `""` removed, and its length is the number of non-empty pieces |
| `Names.DropEmptyConcat` | Assets/Editor/ComponentSearchTool.cs:149 | dropping works piece by piece: what is kept from a concatenation is what is kept from each part, in the same order, so the kept pieces keep their order |
| `Names.DropEmptyOne` | Assets/Editor/ComponentSearchTool.cs:149 | a single piece is kept exactly when it is not empty |
| `Names.ParseNames` | Assets/Editor/ComponentSearchTool.cs:149-151 | at most one name per comma-separated piece, and exactly one per non-empty piece; every name is trimmed and holds no comma; every name is the trimmed form of a non-empty piece; every non-empty piece gives its trimmed form |
| `Names.BlankPieceBecomesEmptyName` | Assets/Editor/ComponentSearchTool.cs:149-151 | a non-empty piece of blanks yields the name `""` instead of being dropped |
| `Names.NameCharGivesName` | Assets/Editor/ComponentSearchTool.cs:149-151 | a character that is neither a comma nor white space yields at least one non-empty name |
| `Names.ValidateInput` | Assets/Editor/ComponentSearchTool.cs:132-140 | the text is accepted exactly when it holds a character that is not white space, that is, exactly when trimming it leaves something |
| `Names.ValidInputWithoutNames` | Assets/Editor/ComponentSearchTool.cs:132-151 | the text `","` passes `ValidateInput` but parses to no name |
| `Names.BlankInputRejected` | Assets/Editor/ComponentSearchTool.cs:132-140 | white space alone is refused before a search starts |
| `Matching.NameEquals` | Assets/Editor/ComponentSearchTool.cs:213-215 | case-sensitive comparison is equality; ignore-case comparison holds exactly when the names have the same length and agree character by character after folding; equal names are equal in either mode |
| `Matching.ComponentIs` | Assets/Editor/ComponentSearchTool.cs:211-215 | a missing (null) component never matches; a component that matches in either mode matches ignoring case |
| `Matching.FirstMatch` | Assets/Editor/ComponentSearchTool.cs:211-215 | `FirstOrDefault` gives the first component that is present and whose type name equals the wanted name, or nothing exactly when no component is such |
| `Matching.CaseSensitiveMatchImpliesIgnoreCase` | Assets/Editor/ComponentSearchTool.cs:209-222 | an object matched case-sensitively is matched ignoring case |
| `Matching.RigidbodyExample` | Assets/Editor/ComponentSearchTool.cs:213-215 | a `Rigidbody` component matches `"rigidbody"` only when the search ignores case |
| `Scene.ActiveInHierarchy` | Assets/Editor/ComponentSearchTool.cs:229 | an object active in the hierarchy is active itself; a root is active in the hierarchy exactly when it is active itself |
| `Scene.ActiveInHierarchyStep` | Assets/Editor/ComponentSearchTool.cs:229 | an object with a parent is active in the hierarchy exactly when it is active itself and its parent is active in the hierarchy |
| `Traversal.Visit` | Assets/Editor/ComponentSearchTool.cs:201-242 | the result list after `SearchRecursive` of an object, as a function of the list before the call; a definition without a contract of its own, whose properties `VisitGrows`, `VisitKeepsNoDup` and `VisitExact` state |
| `Traversal.VisitKids` | Assets/Editor/ComponentSearchTool.cs:225-241 | the result list after the children loop has handled its first k children; a definition without a contract of its own, covered by `VisitKidsGrows` and `VisitKidsExact` through `VisitGrows` and `VisitExact` |
| `Traversal.VisitGrows` | Assets/Editor/ComponentSearchTool.cs:201-242 | the recursive search only appends to the result list; every appended object was not listed before it; every appended entry is one that the preorder reference `Reach` lists |
| `Traversal.VisitKeepsNoDup` | Assets/Editor/ComponentSearchTool.cs:203-220 | a result list without duplicates stays without duplicates |
| `Traversal.VisitAppendsStart` | Assets/Editor/ComponentSearchTool.cs:203-222 | an object not yet listed is appended by its own call exactly when some component's type name equals some wanted name, whatever its activity |
| `Traversal.VisitStaysInSubtree` | Assets/Editor/ComponentSearchTool.cs:209-241 | every entry a call appends lies in the subtree of its object and matches the query |
| `Traversal.VisitSkipsInactive` | Assets/Editor/ComponentSearchTool.cs:225-233 | with inactive objects excluded, a call appends nothing that is inactive in the hierarchy, except its own object |
| `Traversal.VisitFindsAll` | Assets/Editor/ComponentSearchTool.cs:235-241 | with inactive objects included, a call on a tree of distinct objects none of which is listed yet lists every matching object of the subtree |
| `Traversal.VisitExact` | Assets/Editor/ComponentSearchTool.cs:201-242 | on such a tree the search appends exactly the preorder reference list `Reach` |
| `Traversal.ReachIff` | Assets/Editor/ComponentSearchTool.cs:209-241 | an entry is in `Reach` if and only if the search may enter it and it matches |
| `Traversal.EnteredExcludingIsSmaller` | Assets/Editor/ComponentSearchTool.cs:225-241 | excluding inactive objects enters only objects that including them enters as well |
| `Traversal.EnteredExcludingIsActive` | Assets/Editor/ComponentSearchTool.cs:225-233 | with inactive objects excluded, every entered object except the start is active in the hierarchy, so nothing beneath an inactive object is entered |
| `Traversal.ActiveBelowActive` | Assets/Editor/ComponentSearchTool.cs:229 | an object active in the hierarchy lies below a start object that is active too |
| `Traversal.ActiveIsEntered` | Assets/Editor/ComponentSearchTool.cs:225-233 | with inactive objects excluded, every object of the subtree that is active in the hierarchy is still entered |
| `Traversal.InactiveStartAlone` | Assets/Editor/ComponentSearchTool.cs:201-233 | an inactive start object is tested, but with inactive objects excluded nothing below it is entered |
| `Traversal.CaseSensitiveReachIsSmaller` | Assets/Editor/ComponentSearchTool.cs:209-241 | what a case-sensitive search reaches, a case-insensitive search reaches too |
| `Traversal.SearchRoots` | Assets/Editor/ComponentSearchTool.cs:165-181 | the result list after the loop has searched its first k roots; a definition without a contract of its own, whose properties `SearchRootsGrows`, `SearchRootsNoDup` and `SearchRootsExact` state |
| `Traversal.SearchRootsGrows` | Assets/Editor/ComponentSearchTool.cs:165-181 | the results after the first j roots are a prefix of those after the first k ≥ j roots, extended without duplicates |
| `Traversal.SearchRootsNoDup` | Assets/Editor/ComponentSearchTool.cs:165-176 | searching the roots keeps a duplicate-free result list duplicate-free |
| `Traversal.SearchRootsExact` | Assets/Editor/ComponentSearchTool.cs:165-181 | on a scene of distinct objects, the loop appends the roots' preorder lists one after another |
| `Traversal.ForestReachIff` | Assets/Editor/ComponentSearchTool.cs:165-181 | an entry is in the roots' combined reference list exactly when some root's search may enter it and it matches |
| `Traversal.SearchResult` | Assets/Editor/ComponentSearchTool.cs:157-189 | a whole search of a scene of distinct objects, from an empty list, lists no object twice, and lists exactly the matching objects it may enter from some root |
| `Paths.FullPath` | Assets/Editor/ComponentSearchTool.cs:267-276 | the path is the join, at `/`, of an empty first piece and the names from the root down to the object |
| `Paths.FullPathShape` | Assets/Editor/ComponentSearchTool.cs:267-276 | a path starts with `/` and ends with `/` and the object's own name; it has one name per level from the root down |
| `Paths.FullPathRoundTrip` | Assets/Editor/ComponentSearchTool.cs:267-276 | when no name holds `/`, splitting the path at `/` gives an empty piece followed by the names from the root down to the object |
| `Paths.WeaponPathExample` | Assets/Editor/ComponentSearchTool.cs:267-276 | root `World`, child `Player`, grandchild `Weapon` give the path `/World/Player/Weapon` |
| `Paths.PathList` | Assets/Editor/ComponentSearchTool.cs:283 | one path per result, each beginning with `/` |
| `Paths.ClipboardText` | Assets/Editor/ComponentSearchTool.cs:278-283 | there is clipboard text exactly when there are results; it begins with `/`, and it holds a newline when there is more than one result |
| `Paths.ClipboardLines` | Assets/Editor/ComponentSearchTool.cs:278-286 | when no name holds a newline, the clipboard text splits into one line per result, each that result's path, in order |
| `ComponentSearch.ComponentSearchTool.constructor` | Assets/Editor/ComponentSearchTool.cs:9-22 | the fields start as their initialisers set them |
| `ComponentSearch.ComponentSearchTool.SearchForComponents` | Assets/Editor/ComponentSearchTool.cs:142-155 | a search is marked running, the cancel flag and the results are cleared, and the names are the parse of the text; the other settings are unchanged |
| `ComponentSearch.ComponentSearchTool.PerformSearch` | Assets/Editor/ComponentSearchTool.cs:157-189 | with a cancel request pending, no root is searched; otherwise every root is searched, and the count of roots searched is returned; the results are those of the searched roots in order; the progress shows the count out of the total once a root is done; the search is no longer running at the end |
| `ComponentSearch.ComponentSearchTool.SearchRecursive` | Assets/Editor/ComponentSearchTool.cs:201-242 | the result list afterwards is `Visit` of the list before the call, and only the result list changes |
| `ComponentSearch.ComponentSearchTool.GetFullPath` | Assets/Editor/ComponentSearchTool.cs:267-276 | walking up the parents and prepending `/` and each name gives `FullPath`, the root-first slash-prefixed names |

## Left out

- The window and its controls: `OnGUI`, `DrawSearchParameters`, `DrawSearchResults`, `DrawProgressBar`, `OnEnable`, `ShowWindow` and the styles. They only lay out the interface.
- The Search and Cancel buttons inside `OnGUI`. They only call `ValidateInput` with `SearchForComponents`, or set `cancelSearch`.
- Dialog boxes, the clipboard write, `SaveFilePanel`, and `File.WriteAllLines` with its error handling. These are input and output. The lines written to the file are `Paths.PathList`, the same list the clipboard text joins.
- Subscribing `PerformSearch` to `EditorApplication.update`, and `Repaint`, `DisplayProgressBar`, `ClearProgressBar` and `Debug.Log`. These are host scheduling and interface callbacks. The host's next update is modelled as a direct call of `PerformSearch` with the roots.
- `GetRootGameObjects`. It is a scene API; the roots are a parameter of `PerformSearch`.
- `searchProgress` as a float, and its percentage. The model keeps the integer pair `progressDone` / `progressTotal` instead.
- `comp.GetType().Name`. It is reflection; a component carries its type name as a string, and a null component is `Component.Missing`.
- Matching.NameEquals: folds only the ASCII letters when case does not matter. The Unicode upper-case mapping of `OrdinalIgnoreCase` is not modelled.
- ComponentSearch.ComponentSearchTool.PerformSearch: returns its local counter `processed` so that the count of searched roots can be stated. In the code it is a local variable.
- A cancel request that arrives while `PerformSearch` is running. The code cannot observe one: the loop runs within a single editor update, and that is what the model shows.
- Null object names. Unity object names are never null, so no empty-name fallback is modelled.
- The scene is a fixed value. A result is a `Scene.Located` snapshot of the object and its parent chain taken during the search. In the code, `GetFullPath` reads the live `transform.parent` chain and names each time it runs, so renaming or reparenting an object after the search changes its displayed path. The model does not represent edits to the scene after the search.
