/**
  Sequences and the hash sets built from them: `EnumarableExtensions.ToHashSet`,
  and what it means to enumerate a set (a `HashSet<string>` is enumerated in an
  order the model does not fix, each element exactly once).
*/
module Enumerable {

  import opened Wrappers
  import opened Identity

  /** No element occurs twice. */
  predicate NoDuplicates<T(==)>(xs: seq<T>)
  {
    forall i, j :: 0 <= i < j < |xs| ==> xs[i] != xs[j]
  }

  /** The set of elements of a sequence. */
  function Elements<T(==)>(xs: seq<T>): set<T>
  {
    set x | x in xs
  }

  /** `xs` lists every element of `s` exactly once, in some order. */
  predicate IsEnumeration<T(==)>(xs: seq<T>, s: set<T>)
  {
    && NoDuplicates(xs)
    && (forall x | x in xs :: x in s)
    && (forall x | x in s :: x in xs)
  }

  /**
    `source.ToHashSet()`: throws `ArgumentNullException` on a null source,
    otherwise holds each element of the source once.
  */
  function ToHashSet<T(==)>(source: Option<seq<T>>): (r: Result<set<T>, Fault>)
    ensures r.Err? <==> source.None?
    ensures source.None? ==> r.error == ArgumentNullFault
    ensures source.Some? ==> (forall x | x in r.value :: x in source.value) && (forall x | x in source.value :: x in r.value)
    ensures source.Some? ==> |r.value| <= |source.value|
    ensures source.Some? && NoDuplicates(source.value) ==> |r.value| == |source.value|
  {
    match source
    case None => Err(ArgumentNullFault)
    case Some(xs) =>
      CardinalityOfElements(xs);
      Ok(Elements(xs))
  }

  /** A sequence has at least as many positions as distinct elements, and exactly as many when none repeats. */
  lemma {:induction false} CardinalityOfElements<T>(xs: seq<T>)
    ensures |Elements(xs)| <= |xs|
    ensures NoDuplicates(xs) ==> |Elements(xs)| == |xs|
    decreases |xs|
  {
    if xs != [] {
      var tail := xs[1..];
      CardinalityOfElements(tail);
      assert Elements(xs) == {xs[0]} + Elements(tail);
      if NoDuplicates(xs) {
        assert NoDuplicates(tail);
        assert xs[0] !in Elements(tail) by {
          forall j | 0 <= j < |tail| ensures tail[j] != xs[0] {
            assert tail[j] == xs[j + 1];
          }
        }
      }
    }
  }

  /** An enumeration lists as many elements as the set holds. */
  lemma EnumerationLength<T>(xs: seq<T>, s: set<T>)
    requires IsEnumeration(xs, s)
    ensures |xs| == |s|
  {
    assert Elements(xs) == s;
    CardinalityOfElements(xs);
  }

  /** Every finite set can be enumerated. */
  lemma {:induction false} EnumerationExists<T>(s: set<T>)
    ensures exists xs :: IsEnumeration(xs, s)
    decreases s
  {
    if s == {} {
      assert IsEnumeration([], s);
    } else {
      var x :| x in s;
      EnumerationExists(s - {x});
      var rest :| IsEnumeration(rest, s - {x});
      assert IsEnumeration([x] + rest, s);
    }
  }
}
