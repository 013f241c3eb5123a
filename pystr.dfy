/** Python's `str.split(sep)` with an explicit, non-empty separator, and the
    facts about the separator `"M/S"` that the UNI-T decoder relies on. */
module PyStr {

  /** `sep` occurs in `s` starting at index `i`. */
  predicate OccursAt(s: string, sep: string, i: int) {
    0 <= i && i + |sep| <= |s| && s[i..i + |sep|] == sep
  }

  predicate Occurs(s: string, sep: string) {
    exists i :: 0 <= i <= |s| && OccursAt(s, sep, i)
  }

  /** `s.find(sep, start)`: the first occurrence at or after `start`, or -1. */
  function Find(s: string, sep: string, start: nat): (i: int)
    requires start <= |s|
    ensures -1 <= i <= |s|
    ensures i >= 0 ==> start <= i && OccursAt(s, sep, i)
    ensures forall j :: start <= j && (i < 0 || j < i) ==> !OccursAt(s, sep, j)
    decreases |s| - start
  {
    if OccursAt(s, sep, start) then start
    else if start == |s| then -1
    else Find(s, sep, start + 1)
  }

  /** `s.split(sep)`: cut at every occurrence found by a left-to-right scan. */
  function Split(s: string, sep: string): (parts: seq<string>)
    requires sep != []
    ensures |parts| >= 1
    ensures |parts| == 1 <==> Find(s, sep, 0) < 0
    decreases |s|
  {
    var i := Find(s, sep, 0);
    if i < 0 then [s]
    else [s[..i]] + Split(s[i + |sep|..], sep)
  }

  /** `sep.join(parts)`. */
  function Join(parts: seq<string>, sep: string): (s: string)
    requires |parts| >= 1
  {
    if |parts| == 1 then parts[0] else parts[0] + sep + Join(parts[1..], sep)
  }

  /** The text before the first occurrence does not contain the separator. */
  lemma NothingBeforeFirst(s: string, sep: string)
    requires sep != [] && Find(s, sep, 0) >= 0
    ensures !Occurs(s[..Find(s, sep, 0)], sep)
  {
    var i := Find(s, sep, 0);
    forall j | 0 <= j <= i && OccursAt(s[..i], sep, j) ensures false {
      assert s[..i][j..j + |sep|] == s[j..j + |sep|];
      assert OccursAt(s, sep, j) && j < i;
    }
  }

  /** An occurrence in the text after a cut is an occurrence in the whole text. */
  lemma OccursInSuffix(s: string, sep: string, n: nat, k: int)
    requires n <= |s| && OccursAt(s[n..], sep, k)
    ensures OccursAt(s, sep, k + n)
  {
    assert s[n..][k..k + |sep|] == s[k + n..k + n + |sep|];
  }

  /** An occurrence past a cut is an occurrence in the text after the cut. */
  lemma OccursBeyond(s: string, sep: string, n: nat, j: int)
    requires n <= j && OccursAt(s, sep, j)
    ensures OccursAt(s[n..], sep, j - n)
  {
    assert s[n..][j - n..j - n + |sep|] == s[j..j + |sep|];
  }

  lemma Recompose(s: string, i: int, j: int)
    requires 0 <= i <= j <= |s|
    ensures s[..i] + s[i..j] + s[j..] == s
  {
  }

  lemma SplitAtFirst(s: string, sep: string)
    requires sep != [] && Find(s, sep, 0) >= 0
    ensures Split(s, sep) == [s[..Find(s, sep, 0)]] + Split(s[Find(s, sep, 0) + |sep|..], sep)
  {
  }

  lemma JoinCons(a: string, ps: seq<string>, sep: string)
    requires |ps| >= 1
    ensures Join([a] + ps, sep) == a + sep + Join(ps, sep)
  {
    assert ([a] + ps)[1..] == ps;
  }

  /** `s.split(sep)` leaves `s` whole exactly when `sep` does not occur in it. */
  lemma SplitOnePiece(s: string, sep: string)
    requires sep != []
    ensures |Split(s, sep)| == 1 <==> !Occurs(s, sep)
  {
    var i := Find(s, sep, 0);
    if i >= 0 {
      assert OccursAt(s, sep, i);
    }
  }

  /** Joining the pieces with the separator restores the text. */
  lemma {:induction false} JoinSplit(s: string, sep: string)
    requires sep != []
    ensures Join(Split(s, sep), sep) == s
    decreases |s|
  {
    var i := Find(s, sep, 0);
    if i >= 0 {
      var rest := s[i + |sep|..];
      JoinSplit(rest, sep);
      SplitAtFirst(s, sep);
      JoinCons(s[..i], Split(rest, sep), sep);
      Recompose(s, i, i + |sep|);
    }
  }

  /** No piece of the split contains the separator. */
  lemma {:induction false} SplitPiecesFree(s: string, sep: string)
    requires sep != []
    ensures forall k :: 0 <= k < |Split(s, sep)| ==> !Occurs(Split(s, sep)[k], sep)
  {
    var i := Find(s, sep, 0);
    if i >= 0 {
      var rest := s[i + |sep|..];
      var parts := Split(s, sep);
      SplitPiecesFree(rest, sep);
      NothingBeforeFirst(s, sep);
      assert parts[1..] == Split(rest, sep);
      forall k | 0 <= k < |parts| ensures !Occurs(parts[k], sep) {
        if k > 0 {
          assert parts[k] == Split(rest, sep)[k - 1];
        }
      }
    }
  }

  /** The separator the UNI-T text window is split on. */
  const Token: string := "M/S"

  /** Two occurrences of `"M/S"` never overlap: the token has no proper border. */
  lemma TokenOccurrencesApart(s: string, i: int, j: int)
    requires OccursAt(s, Token, i) && OccursAt(s, Token, j) && i < j
    ensures j >= i + |Token|
  {
    assert s[j..j + 3] == Token && s[i..i + 3] == Token;
    assert s[j] == 'M';
    assert s[i + 1] == '/' && s[i + 2] == 'S';
  }

  predicate OnlyOccurrence(s: string, i: int) {
    OccursAt(s, Token, i) && forall j :: 0 <= j <= |s| && OccursAt(s, Token, j) ==> j == i
  }

  /** No character of `s` can start the token. */
  predicate NoTokenStart(s: string) {
    forall k :: 0 <= k < |s| ==> s[k] != 'M'
  }

  lemma NoTokenStartNoOccurrence(s: string)
    requires NoTokenStart(s)
    ensures !Occurs(s, Token)
  {
    forall i | 0 <= i <= |s| ensures !OccursAt(s, Token, i) {
      if i + |Token| <= |s| {
        assert s[i..i + |Token|][0] == s[i];
      }
    }
  }

  /** Split into exactly two pieces means the first occurrence is the only one. */
  lemma TwoPiecesOnlyOccurrence(s: string)
    requires |Split(s, Token)| == 2
    ensures Find(s, Token, 0) >= 0 && OnlyOccurrence(s, Find(s, Token, 0))
  {
    var i := Find(s, Token, 0);
    var rest := s[i + 3..];
    SplitAtFirst(s, Token);
    assert |Split(rest, Token)| == 1;
    assert Find(rest, Token, 0) < 0;
    forall j | 0 <= j <= |s| && OccursAt(s, Token, j) ensures j == i {
      if j > i {
        TokenOccurrencesApart(s, i, j);
        OccursBeyond(s, Token, i + 3, j);
      }
    }
  }

  /** A single occurrence splits the text into the parts before and after it. */
  lemma OnlyOccurrenceTwoPieces(s: string, i: int)
    requires OnlyOccurrence(s, i)
    ensures Split(s, Token) == [s[..i], s[i + |Token|..]]
  {
    assert Find(s, Token, 0) == i;
    var rest := s[i + 3..];
    if Occurs(rest, Token) {
      var k :| 0 <= k <= |rest| && OccursAt(rest, Token, k);
      OccursInSuffix(s, Token, i + 3, k);
    }
  }

  /** Unpacking `s.split("M/S")` into two names succeeds exactly when `"M/S"`
      occurs once, and then the two names are the text before and after it. */
  lemma SplitTokenInTwo(s: string)
    ensures |Split(s, Token)| == 2 <==> exists i :: OnlyOccurrence(s, i)
    ensures forall i :: OnlyOccurrence(s, i) ==>
      Split(s, Token) == [s[..i], s[i + |Token|..]]
  {
    if |Split(s, Token)| == 2 {
      TwoPiecesOnlyOccurrence(s);
    }
    forall i | OnlyOccurrence(s, i) ensures Split(s, Token) == [s[..i], s[i + |Token|..]] {
      OnlyOccurrenceTwoPieces(s, i);
    }
  }
}
