/** The few java.lang.String operations the request handler relies on, for a
    separator that contains no regular-expression metacharacter (so that
    String.split matches it literally). */
module JavaStrings {

  /** `sep` occurs in `s` starting at index `k`. */
  predicate OccursAt(s: string, sep: string, k: int) {
    0 <= k && k + |sep| <= |s| && s[k..k + |sep|] == sep
  }

  /** `sep` occurs nowhere in `s`. */
  predicate Absent(s: string, sep: string) {
    forall k :: 0 <= k <= |s| - |sep| ==> !OccursAt(s, sep, k)
  }

  lemma OccursAfterFirst(s: string, sep: string, k: int)
    requires s != [] && 0 <= k
    ensures OccursAt(s[1..], sep, k) <==> OccursAt(s, sep, k + 1)
  {
    if k + 1 + |sep| <= |s| {
      assert s[1..][k..k + |sep|] == s[k + 1..k + 1 + |sep|];
    }
  }

  lemma OccursInPrefix(s: string, i: int, sep: string, k: int)
    requires 0 <= i <= |s| && 0 <= k && k + |sep| <= i
    ensures OccursAt(s[..i], sep, k) <==> OccursAt(s, sep, k)
  {
    assert s[..i][k..k + |sep|] == s[k..k + |sep|];
  }

  /** String.indexOf: the first index at which `sep` occurs in `s`, or -1. */
  function IndexOf(s: string, sep: string): (r: int)
    ensures r == -1 || OccursAt(s, sep, r)
    ensures r == -1 ==> Absent(s, sep)
    ensures forall k :: 0 <= k < r ==> !OccursAt(s, sep, k)
    decreases |s|
  {
    if |s| < |sep| then -1
    else if s[..|sep|] == sep then 0
    else
      var i := IndexOf(s[1..], sep);
      assert !OccursAt(s, sep, 0);
      assert forall k :: 1 <= k && (i < 0 || k <= i) ==> !OccursAt(s, sep, k) by {
        forall k | 1 <= k && (i < 0 || k <= i) ensures !OccursAt(s, sep, k) { OccursAfterFirst(s, sep, k - 1); }
      }
      if i < 0 then -1 else OccursAfterFirst(s, sep, i); i + 1
  }

  /** The pieces of `s` between its successive leftmost, non-overlapping
      occurrences of `sep`, the (possibly empty) last piece included: the list
      that java.util.regex.Pattern.split builds before it trims. */
  function Pieces(s: string, sep: string): (r: seq<string>)
    requires sep != []
    ensures |r| >= 1
    ensures forall p :: p in r ==> Absent(p, sep)
    decreases |s|
  {
    var i := IndexOf(s, sep);
    if i < 0 then [s]
    else
      assert Absent(s[..i], sep) by {
        forall k | 0 <= k <= i - |sep| ensures !OccursAt(s[..i], sep, k) { OccursInPrefix(s, i, sep, k); }
      }
      [s[..i]] + Pieces(s[i + |sep|..], sep)
  }

  /** The pieces joined back together with `sep` between neighbours. */
  function Join(pieces: seq<string>, sep: string): string
    requires |pieces| >= 1
  {
    if |pieces| == 1 then pieces[0] else pieces[0] + sep + Join(pieces[1..], sep)
  }

  lemma JoinCons(x: string, pieces: seq<string>, sep: string)
    requires |pieces| >= 1
    ensures Join([x] + pieces, sep) == x + sep + Join(pieces, sep)
  {
    assert ([x] + pieces)[1..] == pieces;
  }

  lemma PiecesAtOccurrence(s: string, sep: string)
    requires sep != [] && IndexOf(s, sep) >= 0
    ensures var i := IndexOf(s, sep);
            Pieces(s, sep) == [s[..i]] + Pieces(s[i + |sep|..], sep) && s[i..i + |sep|] == sep
  {
  }

  lemma Around(s: string, i: int, n: int)
    requires 0 <= i && 0 <= n && i + n <= |s|
    ensures s == s[..i] + s[i..i + n] + s[i + n..]
  {
  }

  /** Splitting and re-joining gives back the original string. */
  lemma {:induction false} JoinPieces(s: string, sep: string)
    requires sep != []
    ensures Join(Pieces(s, sep), sep) == s
    decreases |s|
  {
    var i := IndexOf(s, sep);
    if i >= 0 {
      var rest := s[i + |sep|..];
      var p := Pieces(rest, sep);
      PiecesAtOccurrence(s, sep);
      JoinPieces(rest, sep);
      JoinCons(s[..i], p, sep);
      Around(s, i, |sep|);
    }
  }

  /** Drops the empty strings at the end of a list of pieces. */
  function TrimTrailingEmpty(pieces: seq<string>): (r: seq<string>)
    ensures |r| <= |pieces| && r == pieces[..|r|]
    ensures r == [] || r[|r| - 1] != []
    ensures forall i :: |r| <= i < |pieces| ==> pieces[i] == []
  {
    if pieces != [] && pieces[|pieces| - 1] == [] then TrimTrailingEmpty(pieces[..|pieces| - 1])
    else pieces
  }

  /** String.split(sep) (limit 0): with no occurrence the whole string is the one
      element, otherwise the pieces with the trailing empty ones removed. */
  function Split(s: string, sep: string): (r: seq<string>)
    requires sep != []
    ensures IndexOf(s, sep) < 0 ==> r == [s]
    ensures IndexOf(s, sep) >= 0 ==> |r| <= |Pieces(s, sep)| && r == Pieces(s, sep)[..|r|]
    ensures IndexOf(s, sep) >= 0 ==> forall i :: |r| <= i < |Pieces(s, sep)| ==> Pieces(s, sep)[i] == []
    ensures IndexOf(s, sep) >= 0 ==> r == [] || r[|r| - 1] != []
  {
    if IndexOf(s, sep) < 0 then [s] else TrimTrailingEmpty(Pieces(s, sep))
  }

  /** A string that starts with `sep` and has no further occurrence of it
      splits into the empty string and the rest. */
  lemma SplitAfterLeadingSeparator(sep: string, rest: string)
    requires sep != [] && rest != []
    requires Absent(rest, sep)
    ensures Split(sep + rest, sep) == ["", rest]
  {
    var s := sep + rest;
    assert OccursAt(s, sep, 0) by { assert s[..|sep|] == sep; }
    assert IndexOf(s, sep) == 0;
    assert s[|sep|..] == rest;
    assert Pieces(rest, sep) == [rest];
    assert Pieces(s, sep) == ["", rest];
  }
}
