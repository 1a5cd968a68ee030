/** The path that identifies a found object (`GetFullPath`) and the newline-joined
    text of all paths that goes to the clipboard (`CopyResultsToClipboard`). */
module Paths {
  import opened Text
  import opened Scene
  import opened Matching

  /** Names of a chain of objects, in the chain's order. */
  function NamesOf(ps: seq<Node>): seq<string> {
    seq(|ps|, i requires 0 <= i < |ps| => ps[i].name)
  }

  function Reversed(s: seq<string>): (r: seq<string>)
    ensures |r| == |s|
    ensures forall x :: x in r <==> x in s
  {
    if s == [] then [] else [s[|s| - 1]] + Reversed(s[..|s| - 1])
  }

  /** The names from the scene root down to the object itself. */
  function RootFirst(l: Located): seq<string> {
    Reversed(NamesOf(l.parents)) + [l.node.name]
  }

  /** Each name preceded by a slash. */
  function Slashed(ns: seq<string>): string {
    if ns == [] then "" else "/" + ns[0] + Slashed(ns[1..])
  }

  /** The path of an object: `/Root/.../Name`. */
  function FullPath(l: Located): (r: string)
    ensures r == Join([""] + RootFirst(l), '/')
  {
    SlashedIsJoin(RootFirst(l));
    Slashed(RootFirst(l))
  }

  /** One step of walking up: the next parent's name goes in front of the path. */
  lemma PrependParent(ps: seq<Node>, i: nat, name: string)
    requires i < |ps|
    ensures Slashed(Reversed(NamesOf(ps[..i + 1])) + [name])
         == "/" + ps[i].name + Slashed(Reversed(NamesOf(ps[..i])) + [name])
  {
    var up := NamesOf(ps[..i]);
    var longer := up + [ps[i].name];
    assert NamesOf(ps[..i + 1]) == longer;
    assert longer[..|up|] == up;
    assert Reversed(longer) == [ps[i].name] + Reversed(up);
    var tail := Reversed(up) + [name];
    assert Reversed(longer) + [name] == [ps[i].name] + tail;
    assert ([ps[i].name] + tail)[1..] == tail;
  }

  /** No object along the chain has `c` in its name. */
  predicate NamesAvoid(l: Located, c: char) {
    c !in l.node.name && forall i :: 0 <= i < |l.parents| ==> c !in l.parents[i].name
  }

  lemma {:induction false} SlashedSnoc(ns: seq<string>, n: string)
    ensures Slashed(ns + [n]) == Slashed(ns) + "/" + n
  {
    if ns == [] {
      assert ([] + [n])[1..] == [];
    } else {
      assert (ns + [n])[1..] == ns[1..] + [n];
      SlashedSnoc(ns[1..], n);
    }
  }

  /** A slash-prefixed list of names is the join of an empty first piece and the names. */
  lemma {:induction false} SlashedIsJoin(ns: seq<string>)
    requires |ns| >= 1
    ensures Slashed(ns) == Join([""] + ns, '/')
  {
    if |ns| > 1 {
      SlashedIsJoin(ns[1..]);
      assert ([""] + ns)[1..] == ns;
      assert ([""] + ns[1..])[1..] == ns[1..];
    } else {
      assert ([""] + ns)[1..] == ns;
      assert ns[1..] == [];
    }
  }

  lemma {:induction false} SlashedAvoids(ns: seq<string>, c: char)
    requires c != '/' && forall i :: 0 <= i < |ns| ==> c !in ns[i]
    ensures c !in Slashed(ns)
  {
    if ns != [] {
      SlashedAvoids(ns[1..], c);
    }
  }

  lemma RootFirstAvoids(l: Located, c: char)
    requires NamesAvoid(l, c)
    ensures forall i :: 0 <= i < |RootFirst(l)| ==> c !in RootFirst(l)[i]
  {
    var up := NamesOf(l.parents);
    forall i | 0 <= i < |RootFirst(l)| ensures c !in RootFirst(l)[i] {
      if i < |up| {
        assert RootFirst(l)[i] in Reversed(up);
        var j :| 0 <= j < |up| && up[j] == RootFirst(l)[i];
      }
    }
  }

  /** A path starts with a slash, ends with the object's own name and holds one
      slash-prefixed name per level from the root down. */
  lemma FullPathShape(l: Located)
    ensures |FullPath(l)| > 0 && FullPath(l)[0] == '/'
    ensures |FullPath(l)| >= |l.node.name| + 1
    ensures FullPath(l)[|FullPath(l)| - |l.node.name| - 1..] == "/" + l.node.name
    ensures |RootFirst(l)| == |l.parents| + 1
  {
    SlashedSnoc(Reversed(NamesOf(l.parents)), l.node.name);
  }

  /** When no name holds a slash, splitting the path at slashes gives back the
      names from the root down, after an empty first piece. */
  lemma FullPathRoundTrip(l: Located)
    requires NamesAvoid(l, '/')
    ensures Split(FullPath(l), '/') == [""] + RootFirst(l)
  {
    RootFirstAvoids(l, '/');
    SlashedIsJoin(RootFirst(l));
    SplitJoin([""] + RootFirst(l), '/');
  }

  /** Root "World", child "Player", grandchild "Weapon". */
  lemma WeaponPathExample(world: Node, player: Node, weapon: Node)
    requires world.name == "World" && player.name == "Player" && weapon.name == "Weapon"
    ensures FullPath(Located(weapon, [player, world])) == "/World/Player/Weapon"
  {
    var up := NamesOf([player, world]);
    assert up == ["Player", "World"];
    assert Reversed(up) == ["World", "Player"] by {
      assert up[..1] == ["Player"];
      assert Reversed(up[..1]) == ["Player"];
    }
    var ns := ["World", "Player", "Weapon"];
    assert RootFirst(Located(weapon, [player, world])) == ns;
    assert Slashed(ns) == "/World/Player/Weapon" by {
      assert ns[1..] == ["Player", "Weapon"] && ns[1..][1..] == ["Weapon"] && ns[1..][1..][1..] == [];
      assert Slashed(["Weapon"]) == "/Weapon";
      assert Slashed(["Player", "Weapon"]) == "/Player" + "/Weapon";
    }
  }

  /** The path of every found object, in result order. */
  function PathList(found: seq<Located>): (r: seq<string>)
    ensures |r| == |found|
    ensures forall i :: 0 <= i < |r| ==> |r[i]| > 0 && r[i][0] == '/'
  {
    var r := seq(|found|, i requires 0 <= i < |found| => FullPath(found[i]));
    assert forall i :: 0 <= i < |r| ==> |r[i]| > 0 && r[i][0] == '/' by {
      forall i | 0 <= i < |r| ensures |r[i]| > 0 && r[i][0] == '/' {
        FullPathShape(found[i]);
      }
    }
    r
  }

  /** The text `CopyResultsToClipboard` puts on the clipboard: nothing when there
      are no results, otherwise the paths joined by newlines. */
  function ClipboardText(found: seq<Located>): (r: Option<string>)
    ensures r.Some? <==> |found| > 0
    ensures r.Some? ==> |r.value| > 0 && r.value[0] == '/'
    ensures r.Some? ==> |found| > 1 ==> '\n' in r.value
  {
    if |found| == 0 then None
    else
      var text := Join(PathList(found), '\n');
      JoinStartsWithFirst(PathList(found), '\n');
      Some(text)
  }

  /** When no name holds a newline, the clipboard text has one line per result,
      each the path of that result, in order. */
  lemma ClipboardLines(found: seq<Located>)
    requires forall i :: 0 <= i < |found| ==> NamesAvoid(found[i], '\n')
    ensures ClipboardText(found).Some? ==>
      Split(ClipboardText(found).value, '\n') == PathList(found) && |Split(ClipboardText(found).value, '\n')| == |found|
  {
    if |found| > 0 {
      forall i | 0 <= i < |found| ensures '\n' !in PathList(found)[i] {
        RootFirstAvoids(found[i], '\n');
        SlashedAvoids(RootFirst(found[i]), '\n');
      }
      SplitJoin(PathList(found), '\n');
    }
  }
}
