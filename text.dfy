/**
  The .NET string operations the user store relies on, over `seq<char>`:
  `String.Split(char)`, `String.Join(string, IEnumerable<string>)` and the
  ordinal `String.IndexOf` / `String.Contains`.
*/
module Text {

  /** `s.Split(sep)`: the pieces between separators, in order, empty pieces kept. */
  function Split(s: string, sep: char): (pieces: seq<string>)
    ensures |pieces| >= 1
    ensures forall i :: 0 <= i < |pieces| ==> sep !in pieces[i]
    decreases |s|
  {
    if s == [] then [[]]
    else
      var rest := Split(s[1..], sep);
      if s[0] == sep then [[]] + rest
      else [[s[0]] + rest[0]] + rest[1..]
  }

  /**
    `String.Join(sep, xs)`: the pieces in order with one separator between
    neighbours. It undoes `Split`: splitting the join of at least one piece,
    none containing the separator, gives the pieces back. (No pieces join to
    "", whose split is [""].)
  */
  function Join(sep: char, xs: seq<string>): (r: string)
    ensures xs == [] ==> r == []
    ensures |xs| >= 1 && (forall i :: 0 <= i < |xs| ==> sep !in xs[i]) ==> Split(r, sep) == xs
    decreases |xs|
  {
    if xs == [] then []
    else if |xs| == 1 then
      SplitSeparatorFree(xs[0], sep);
      xs[0]
    else
      var rest := Join(sep, xs[1..]);
      SplitSeparatorFree(xs[0], sep);
      SplitConcat(xs[0], rest, sep);
      assert xs == [xs[0]] + xs[1..];
      xs[0] + [sep] + rest
  }

  /** A piece without separator is not split any further. */
  lemma {:induction false} SplitSeparatorFree(a: string, sep: char)
    ensures sep !in a ==> Split(a, sep) == [a]
    decreases |a|
  {
    if a != [] && sep !in a {
      assert sep !in a[1..];
      SplitSeparatorFree(a[1..], sep);
      assert a == [a[0]] + a[1..];
    }
  }

  /** Splitting at a separator splits both sides independently. */
  lemma {:induction false} SplitConcat(a: string, b: string, sep: char)
    ensures Split(a + [sep] + b, sep) == Split(a, sep) + Split(b, sep)
    decreases |a|
  {
    if a == [] {
      assert a + [sep] + b == [sep] + b;
      assert ([sep] + b)[1..] == b;
    } else {
      assert (a + [sep] + b)[0] == a[0];
      assert (a + [sep] + b)[1..] == a[1..] + [sep] + b;
      SplitConcat(a[1..], b, sep);
    }
  }

  /** Joining the pieces of a split gives back the original string, for every string. */
  lemma {:induction false} JoinSplit(s: string, sep: char)
    ensures Join(sep, Split(s, sep)) == s
    decreases |s|
  {
    if s != [] {
      JoinSplit(s[1..], sep);
      var rest := Split(s[1..], sep);
      if s[0] != sep && |rest| > 1 {
        assert Join(sep, rest) == rest[0] + [sep] + Join(sep, rest[1..]);
        assert ([[s[0]] + rest[0]] + rest[1..])[1..] == rest[1..];
      } else if s[0] == sep {
        assert ([[]] + rest)[1..] == rest;
      }
      assert s == [s[0]] + s[1..];
    }
  }

  /** `t` occurs in `s` starting at index `i`. */
  predicate OccursAt(s: string, t: string, i: int)
  {
    0 <= i && i + |t| <= |s| && s[i..i + |t|] == t
  }

  /** Ordinal `s.IndexOf(t)`: the first index at which `t` occurs in `s`, or -1. */
  function IndexOf(s: string, t: string): (r: int)
    ensures -1 <= r
    ensures r >= 0 ==> OccursAt(s, t, r)
    ensures r >= 0 ==> forall i :: 0 <= i < r ==> !OccursAt(s, t, i)
    ensures r == -1 ==> forall i :: !OccursAt(s, t, i)
    decreases |s|
  {
    if OccursAt(s, t, 0) then 0
    else if s == [] then -1
    else
      var k := IndexOf(s[1..], t);
      assert forall i :: 1 <= i ==> (OccursAt(s, t, i) <==> OccursAt(s[1..], t, i - 1)) by {
        forall i | 1 <= i ensures OccursAt(s, t, i) <==> OccursAt(s[1..], t, i - 1) {
          if i + |t| <= |s| {
            assert s[1..][i - 1..i - 1 + |t|] == s[i..i + |t|];
          }
        }
      }
      if k < 0 then -1 else k + 1
  }

  /** Ordinal `s.Contains(t)`: `t` occurs somewhere in `s` (the empty string occurs everywhere). */
  function Contains(s: string, t: string): (r: bool)
    ensures r <==> exists i :: OccursAt(s, t, i)
    ensures t == [] ==> r
  {
    IndexOf(s, t) >= 0
  }

  /** The first piece of a split is a prefix of the string. */
  lemma {:induction false} SplitFirstIsPrefix(s: string, sep: char)
    ensures |Split(s, sep)[0]| <= |s| && s[..|Split(s, sep)[0]|] == Split(s, sep)[0]
    decreases |s|
  {
    if s != [] && s[0] != sep {
      SplitFirstIsPrefix(s[1..], sep);
    }
  }

  /** Every piece of a split occurs in the string that was split. */
  lemma {:induction false} SplitPiecesOccur(s: string, sep: char, k: int)
    requires 0 <= k < |Split(s, sep)|
    ensures Contains(s, Split(s, sep)[k])
    decreases |s|
  {
    var piece := Split(s, sep)[k];
    if k == 0 {
      SplitFirstIsPrefix(s, sep);
      assert OccursAt(s, piece, 0);
    } else {
      var j := if s[0] == sep then k - 1 else k;
      assert piece == Split(s[1..], sep)[j];
      SplitPiecesOccur(s[1..], sep, j);
      var i := IndexOf(s[1..], piece);
      assert s[1..][i..i + |piece|] == s[i + 1..i + 1 + |piece|];
      assert OccursAt(s, piece, i + 1);
    }
  }
}
