/** Deciding whether a game object carries a component of one of the wanted
    types: ordinal or ordinal-ignore-case comparison of type names. */
module Matching {
  import opened Scene

  datatype Option<T> = None | Some(value: T)

  /** The search parameters: the parsed list of wanted type names and the two toggles. */
  datatype Query = Query(names: seq<string>, caseSensitive: bool, includeInactive: bool)

  /** The per-character fold under which ordinal-ignore-case comparison treats two
      characters as equal; only the ASCII letters are folded here. */
  function FoldChar(c: char): char {
    if 'a' <= c <= 'z' then (c as int - 32) as char else c
  }

  function Fold(s: string): string {
    seq(|s|, i requires 0 <= i < |s| => FoldChar(s[i]))
  }

  /** `a.Equals(b, StringComparison.Ordinal)` or, when not case sensitive,
      `a.Equals(b, StringComparison.OrdinalIgnoreCase)`. */
  function NameEquals(a: string, b: string, caseSensitive: bool): (r: bool)
    ensures caseSensitive ==> (r <==> a == b)
    ensures !caseSensitive ==>
      (r <==> |a| == |b| && forall i :: 0 <= i < |a| ==> FoldChar(a[i]) == FoldChar(b[i]))
    ensures a == b ==> r
  {
    if caseSensitive then a == b
    else
      assert Fold(a) == Fold(b) <==> |a| == |b| && forall i :: 0 <= i < |a| ==> FoldChar(a[i]) == FoldChar(b[i]) by {
        if |a| == |b| && forall i :: 0 <= i < |a| ==> FoldChar(a[i]) == FoldChar(b[i]) {
          assert forall i :: 0 <= i < |a| ==> Fold(a)[i] == Fold(b)[i];
        }
        if Fold(a) == Fold(b) {
          assert forall i :: 0 <= i < |a| ==> Fold(a)[i] == FoldChar(a[i]);
        }
      }
      Fold(a) == Fold(b)
  }

  /** The condition of the lambda handed to `FirstOrDefault`: the component is
      there and its type name equals `name`. */
  function ComponentIs(c: Component, name: string, caseSensitive: bool): (r: bool)
    ensures c.Missing? ==> !r
    ensures r ==> NameEquals(c.typeName, name, false)
  {
    c.Attached? && NameEquals(c.typeName, name, caseSensitive)
  }

  /** `components.FirstOrDefault(...)`: the position of the first component whose
      type is `name`, or None when no component is. */
  function FirstMatch(components: seq<Component>, name: string, caseSensitive: bool): (r: Option<nat>)
    ensures r.Some? ==> r.value < |components| && ComponentIs(components[r.value], name, caseSensitive)
    ensures r.Some? ==> forall j :: 0 <= j < r.value ==> !ComponentIs(components[j], name, caseSensitive)
    ensures r.None? <==> forall j :: 0 <= j < |components| ==> !ComponentIs(components[j], name, caseSensitive)
  {
    if |components| == 0 then None
    else if ComponentIs(components[0], name, caseSensitive) then Some(0)
    else
      match FirstMatch(components[1..], name, caseSensitive)
      case None => None
      case Some(k) => Some(k + 1)
  }

  /** Some component's type name equals some wanted name under the chosen mode. */
  ghost predicate Matches(components: seq<Component>, names: seq<string>, caseSensitive: bool) {
    exists i, j :: 0 <= i < |names| && 0 <= j < |components| && ComponentIs(components[j], names[i], caseSensitive)
  }

  /** The object is one the query asks for. */
  ghost predicate Selects(q: Query, n: Node) {
    Matches(n.components, q.names, q.caseSensitive)
  }

  /** An object found with case-sensitive comparison is found without it. */
  lemma CaseSensitiveMatchImpliesIgnoreCase(components: seq<Component>, names: seq<string>)
    ensures Matches(components, names, true) ==> Matches(components, names, false)
  {
    if Matches(components, names, true) {
      var i, j :| 0 <= i < |names| && 0 <= j < |components| && ComponentIs(components[j], names[i], true);
      assert ComponentIs(components[j], names[i], false);
    }
  }

  /** A `Rigidbody` component is found by "rigidbody" only when case does not matter. */
  lemma RigidbodyExample()
    ensures Matches([Attached("Rigidbody")], ["rigidbody"], false)
    ensures !Matches([Attached("Rigidbody")], ["rigidbody"], true)
  {
    assert Fold("Rigidbody") == "RIGIDBODY";
    assert Fold("rigidbody") == "RIGIDBODY";
    assert ComponentIs([Attached("Rigidbody")][0], ["rigidbody"][0], false);
  }
}
