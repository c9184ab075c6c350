// Facts about lists that several components share.
module Sequences {

  ghost predicate Distinct<T>(s: seq<T>) {
    forall i, j | 0 <= i < j < |s| :: s[i] != s[j]
  }

  ghost function Elements<T>(s: seq<T>): set<T> {
    set x | x in s
  }

  lemma OneMoreTaken<T>(s: seq<T>, i: nat)
    requires i < |s|
    ensures s[..i + 1] == s[..i] + [s[i]]
    ensures s[..0] == []
  {
  }

  lemma AllTaken<T>(s: seq<T>)
    ensures s[..|s|] == s
  {
  }

  lemma AppendElement<T>(s: seq<T>, x: T)
    ensures Elements(s + [x]) == Elements(s) + {x}
    ensures Distinct(s) && x !in Elements(s) ==> Distinct(s + [x])
  {
    assert forall y :: y in s + [x] <==> y in s || y == x;
  }

  lemma FirstElement<T>(s: seq<T>)
    requires s != []
    ensures Elements(s) == {s[0]} + Elements(s[1..])
  {
    assert s == [s[0]] + s[1..];
  }

  /** The list s with every element that occurred earlier left out. */
  function Dedupe<T(==)>(s: seq<T>): seq<T> {
    if s == [] then []
    else
      var front := Dedupe(s[..|s| - 1]);
      if s[|s| - 1] in s[..|s| - 1] then front else front + [s[|s| - 1]]
  }

  lemma {:induction false} DedupeKeepsElements<T>(s: seq<T>)
    ensures Distinct(Dedupe(s))
    ensures forall x :: x in Dedupe(s) <==> x in s
  {
    if s != [] {
      var front, last := s[..|s| - 1], s[|s| - 1];
      DedupeKeepsElements(front);
      assert s == front + [last];
      assert forall x :: x in s <==> x in front || x == last;
    }
  }

  /** Appending one element to the input either leaves the deduplicated list alone or appends it. */
  lemma DedupeStep<T>(s: seq<T>, x: T)
    ensures Dedupe(s + [x]) == if x in s then Dedupe(s) else Dedupe(s) + [x]
  {
    assert (s + [x])[..|s + [x]| - 1] == s;
  }

  /** Removes later repetitions and keeps the order of first occurrences. */
  method DedupeKeepOrder<T(==)>(values: seq<T>) returns (out: seq<T>)
    ensures out == Dedupe(values)
    ensures Distinct(out) && Elements(out) == Elements(values)
  {
    var seen: set<T> := {};
    out := [];
    for i := 0 to |values|
      invariant out == Dedupe(values[..i])
      invariant forall x :: x in seen <==> x in values[..i]
    {
      assert values[..i + 1] == values[..i] + [values[i]];
      DedupeStep(values[..i], values[i]);
      if values[i] !in seen {
        seen := seen + {values[i]};
        out := out + [values[i]];
      }
    }
    assert values[..|values|] == values;
    DedupeKeepsElements(values);
  }

  lemma {:induction false} DistinctCount<T>(s: seq<T>)
    requires Distinct(s)
    ensures |Elements(s)| == |s|
  {
    if s != [] {
      var front, last := s[..|s| - 1], s[|s| - 1];
      DistinctCount(front);
      assert Elements(s) == Elements(front) + {last};
    }
  }

  lemma SubsetCount<T>(a: set<T>, b: set<T>)
    requires a <= b
    ensures |a| <= |b|
    ensures |a| == |b| ==> a == b
  {
    assert b == a + (b - a);
  }
}
