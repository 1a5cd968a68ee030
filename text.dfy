/** String operations the search tool relies on: .NET's notion of white space,
    `String.Trim`, `String.Split` on one separator character, and `String.Join`. */
module Text {

  /** True of the characters `char.IsWhiteSpace` accepts: U+0009..U+000D, U+0085
      and the Unicode space, line and paragraph separators. */
  predicate IsWhiteSpace(c: char) {
    c == ' ' || ('\t' <= c <= '\r') || c == '\U{85}' || c == '\U{A0}' || c == '\U{1680}'
    || ('\U{2000}' <= c <= '\U{200A}') || c == '\U{2028}' || c == '\U{2029}'
    || c == '\U{202F}' || c == '\U{205F}' || c == '\U{3000}'
  }

  predicate AllWhite(s: string) {
    forall i :: 0 <= i < |s| ==> IsWhiteSpace(s[i])
  }

  /** No white space at either end. */
  predicate IsTrimmed(s: string) {
    s == [] || (!IsWhiteSpace(s[0]) && !IsWhiteSpace(s[|s| - 1]))
  }

  /** Length of the run of white space that opens `s`. */
  function LeadingWhite(s: string): (k: nat)
    ensures k <= |s| && AllWhite(s[..k])
    ensures k < |s| ==> !IsWhiteSpace(s[k])
  {
    if |s| > 0 && IsWhiteSpace(s[0]) then
      var k := 1 + LeadingWhite(s[1..]);
      assert s[1..][..k - 1] == s[1..k];
      k
    else 0
  }

  /** Where the run of white space that closes `s` begins. */
  function TrailingStart(s: string): (k: nat)
    ensures k <= |s| && AllWhite(s[k..])
    ensures 0 < k ==> !IsWhiteSpace(s[k - 1])
  {
    if |s| > 0 && IsWhiteSpace(s[|s| - 1]) then
      var k := TrailingStart(s[..|s| - 1]);
      assert s[..|s| - 1][k..] + [s[|s| - 1]] == s[k..];
      k
    else |s|
  }

  /** `String.Trim()`: removes white space from both ends. */
  function Trim(s: string): (r: string)
    ensures IsTrimmed(r)
    ensures exists a, b :: 0 <= a <= b <= |s| && r == s[a..b] && AllWhite(s[..a]) && AllWhite(s[b..])
    ensures r == [] <==> AllWhite(s)
  {
    var a := LeadingWhite(s);
    var b := TrailingStart(s);
    if a == |s| then
      assert s[..a] == s;
      assert s == s[..a] + s[a..a] + s[a..];
      []
    else
      assert a < b;
      assert !AllWhite(s) by { assert !IsWhiteSpace(s[a]); }
      s[a..b]
  }

  /** `String.Join(sep, xs)`. */
  function Join(xs: seq<string>, sep: char): (r: string)
    ensures |xs| > 1 ==> sep in r
  {
    if |xs| == 0 then ""
    else if |xs| == 1 then xs[0]
    else
      var r := xs[0] + [sep] + Join(xs[1..], sep);
      assert r[|xs[0]|] == sep;
      r
  }

  /** A join begins with its first piece. */
  lemma JoinStartsWithFirst(xs: seq<string>, sep: char)
    requires |xs| > 0
    ensures |Join(xs, sep)| >= |xs[0]| && Join(xs, sep)[..|xs[0]|] == xs[0]
  {
  }

  /** `String.Split(sep)` without options: the pieces between separators,
      empty ones included; the empty string splits into one empty piece. */
  function Split(s: string, sep: char): (r: seq<string>)
    ensures |r| >= 1
    ensures forall i :: 0 <= i < |r| ==> sep !in r[i]
    ensures Join(r, sep) == s
  {
    if |s| == 0 then [""]
    else
      var rest := Split(s[1..], sep);
      if s[0] == sep then
        assert Join([""] + rest, sep) == [sep] + Join(rest, sep) by {
          assert ([""] + rest)[1..] == rest;
        }
        [""] + rest
      else
        var r := [[s[0]] + rest[0]] + rest[1..];
        assert r[1..] == rest[1..];
        assert Join(r, sep) == [s[0]] + Join(rest, sep);
        r
  }

  /** Splitting a piece followed by a separator. */
  lemma {:induction false} SplitCons(a: string, t: string, sep: char)
    requires sep !in a
    ensures Split(a + [sep] + t, sep) == [a] + Split(t, sep)
  {
    if |a| == 0 {
      assert a + [sep] + t == [sep] + t;
      assert ([sep] + t)[1..] == t;
    } else {
      assert (a + [sep] + t)[1..] == a[1..] + [sep] + t;
      SplitCons(a[1..], t, sep);
      assert [a[0]] + a[1..] == a;
    }
  }

  /** A string without the separator is a single piece. */
  lemma {:induction false} SplitNoSep(a: string, sep: char)
    requires sep !in a
    ensures Split(a, sep) == [a]
  {
    if |a| > 0 {
      SplitNoSep(a[1..], sep);
      assert [a[0]] + a[1..] == a;
    }
  }

  /** Splitting undoes joining when no piece holds the separator. */
  lemma {:induction false} SplitJoin(xs: seq<string>, sep: char)
    requires |xs| >= 1
    requires forall i :: 0 <= i < |xs| ==> sep !in xs[i]
    ensures Split(Join(xs, sep), sep) == xs
  {
    if |xs| == 1 {
      SplitNoSep(xs[0], sep);
    } else {
      SplitJoin(xs[1..], sep);
      SplitCons(xs[0], Join(xs[1..], sep), sep);
      assert [xs[0]] + xs[1..] == xs;
    }
  }

  /** Every character other than the separator lies in some piece. */
  lemma {:induction false} SplitCovers(s: string, sep: char, k: nat)
    requires k < |s| && s[k] != sep
    ensures exists p :: p in Split(s, sep) && s[k] in p
  {
    var rest := Split(s[1..], sep);
    if k == 0 {
      assert s[0] in Split(s, sep)[0];
    } else {
      SplitCovers(s[1..], sep, k - 1);
      var p :| p in rest && s[k] in p;
      if s[0] == sep {
        assert p in Split(s, sep);
      } else if p == rest[0] {
        assert s[k] in Split(s, sep)[0];
      } else {
        assert p in rest[1..];
        assert p in Split(s, sep);
      }
    }
  }
}
