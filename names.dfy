/** Turning the comma-separated text the user types into the list of wanted type
    names (`Split` with `RemoveEmptyEntries`, then `Trim` on each piece), and the
    check that comes before it. */
module Names {
  import opened Text

  /** `StringSplitOptions.RemoveEmptyEntries`: the non-empty pieces, in order. */
  function DropEmpty(pieces: seq<string>): (r: seq<string>)
    ensures |r| == |pieces| - multiset(pieces)[""]
    ensures forall i :: 0 <= i < |r| ==> r[i] != "" && r[i] in pieces
    ensures forall p :: p in pieces && p != "" ==> p in r
    ensures multiset(r) == multiset(pieces)["" := 0]
  {
    if |pieces| == 0 then []
    else
      var head := if pieces[0] == "" then [] else [pieces[0]];
      var rest := DropEmpty(pieces[1..]);
      assert pieces == [pieces[0]] + pieces[1..];
      assert multiset(pieces) == multiset{pieces[0]} + multiset(pieces[1..]);
      head + rest
  }

  /** Dropping empty pieces works piece by piece: the pieces kept from a
      concatenation are those kept from each part, in the same order. Together
      with the one-piece case this fixes both order and multiplicity. */
  lemma {:induction false} DropEmptyConcat(a: seq<string>, b: seq<string>)
    ensures DropEmpty(a + b) == DropEmpty(a) + DropEmpty(b)
  {
    if |a| > 0 {
      var head := if a[0] == "" then [] else [a[0]];
      assert (a + b)[0] == a[0] && (a + b)[1..] == a[1..] + b;
      assert DropEmpty(a + b) == head + DropEmpty(a[1..] + b);
      DropEmptyConcat(a[1..], b);
      assert DropEmpty(a) == head + DropEmpty(a[1..]);
      assert head + (DropEmpty(a[1..]) + DropEmpty(b)) == (head + DropEmpty(a[1..])) + DropEmpty(b);
    } else {
      assert a + b == b;
    }
  }

  /** A single piece is kept exactly when it is not empty. */
  lemma DropEmptyOne(p: string)
    ensures DropEmpty([p]) == (if p == "" then [] else [p])
  {
    assert [p][1..] == [];
  }

  /** `componentName.Split(',', RemoveEmptyEntries).Select(Trim).ToArray()`.
      Empty pieces are dropped before trimming, so a piece of blanks stays, as "". */
  function ParseNames(input: string): (names: seq<string>)
    ensures |names| <= |Split(input, ',')|
    ensures |names| == |Split(input, ',')| - multiset(Split(input, ','))[""]
    ensures forall i :: 0 <= i < |names| ==> IsTrimmed(names[i]) && ',' !in names[i]
    ensures forall i :: 0 <= i < |names| ==>
      exists p :: p in Split(input, ',') && p != "" && names[i] == Trim(p)
    ensures forall p :: p in Split(input, ',') && p != "" ==> Trim(p) in names
  {
    var pieces := DropEmpty(Split(input, ','));
    var names := seq(|pieces|, i requires 0 <= i < |pieces| => Trim(pieces[i]));
    forall i | 0 <= i < |names|
      ensures exists p :: p in Split(input, ',') && p != "" && names[i] == Trim(p)
    {
      assert pieces[i] in Split(input, ',') && pieces[i] != "" && names[i] == Trim(pieces[i]);
    }
    forall p | p in Split(input, ',') && p != "" ensures Trim(p) in names {
      var i :| 0 <= i < |pieces| && pieces[i] == p;
      assert names[i] == Trim(p);
    }
    names
  }

  /** `ValidateInput`: the text must not be empty or white space only, that is,
      trimming it must leave something. */
  function ValidateInput(componentName: string): (ok: bool)
    ensures ok <==> Trim(componentName) != ""
    ensures ok <==> exists k :: 0 <= k < |componentName| && !IsWhiteSpace(componentName[k])
  {
    !AllWhite(componentName)
  }

  /** A non-empty piece of blanks becomes the empty name rather than vanishing. */
  lemma BlankPieceBecomesEmptyName(input: string, p: string)
    requires p in Split(input, ',') && p != "" && AllWhite(p)
    ensures "" in ParseNames(input)
  {
  }

  /** A character that is neither a comma nor white space yields a non-empty name. */
  lemma NameCharGivesName(input: string, k: nat)
    requires k < |input| && input[k] != ',' && !IsWhiteSpace(input[k])
    ensures exists i :: 0 <= i < |ParseNames(input)| && ParseNames(input)[i] != ""
  {
    SplitCovers(input, ',', k);
    var p :| p in Split(input, ',') && input[k] in p;
    assert !AllWhite(p);
    var names := ParseNames(input);
    assert Trim(p) in names;
    var i :| 0 <= i < |names| && names[i] == Trim(p);
  }

  /** Text that passes the check can still parse to no name at all. */
  lemma ValidInputWithoutNames()
    ensures ValidateInput(",")
    ensures ParseNames(",") == []
  {
    assert !IsWhiteSpace(","[0]);
    assert Split(",", ',') == ["", ""] by {
      assert ","[1..] == "";
    }
  }

  /** White space alone is refused before any search begins. */
  lemma BlankInputRejected()
    ensures !ValidateInput("   ")
  {
  }
}
