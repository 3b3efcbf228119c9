/**
 * The excluded-id set. The handlers load the stored array into a JavaScript
 * `Set` and store it back with `Array.from`, so the stored value is the set's
 * insertion order: a sequence without duplicates where `add` appends a new
 * element and `delete` removes one in place.
 */
module IdSets {
  import opened Types

  /** `set.add(x)`: appends x unless it is already present. */
  function Add(s: seq<string>, x: string): (r: seq<string>)
    ensures forall y :: y in r <==> y in s || y == x
    ensures Distinct(s) ==> Distinct(r)
    ensures x in s ==> r == s
    ensures x !in s ==> r == s + [x]
  {
    if x in s then s else s + [x]
  }

  /** Adds each of xs in turn, as a loop of `set.add` calls does. */
  function AddAll(s: seq<string>, xs: seq<string>): (r: seq<string>)
    ensures forall y :: y in r <==> y in s || y in xs
    ensures Distinct(s) ==> Distinct(r)
    ensures |r| <= |s| + |xs|
  {
    if xs == [] then s
    else
      var front := AddAll(s, xs[..|xs| - 1]);
      assert forall y :: y in xs <==> y in xs[..|xs| - 1] || y == xs[|xs| - 1] by {
        assert xs == xs[..|xs| - 1] + [xs[|xs| - 1]];
      }
      Add(front, xs[|xs| - 1])
  }

  /** `new Set(raw)` read back with `Array.from`: duplicates dropped, first occurrences kept. */
  function FromArray(raw: seq<string>): (r: seq<string>)
    ensures Distinct(r)
    ensures forall y :: y in r <==> y in raw
  {
    AddAll([], raw)
  }

  /** `set.delete(x)`: removes x, keeping the order of the rest. */
  function Delete(s: seq<string>, x: string): (r: seq<string>)
    ensures forall y :: y in r <==> y in s && y != x
    ensures Distinct(s) ==> Distinct(r)
    ensures x !in s ==> r == s
    ensures |r| <= |s|
  {
    if s == [] then []
    else
      var front := Delete(s[..|s| - 1], x);
      var last := s[|s| - 1];
      assert forall y :: y in s <==> y in s[..|s| - 1] || y == last by {
        assert s == s[..|s| - 1] + [last];
      }
      if last == x then front
      else
        assert Distinct(s) ==> Distinct(front + [last]) by {
          if Distinct(s) {
            assert Distinct(s[..|s| - 1]);
            assert last !in s[..|s| - 1];
          }
        }
        front + [last]
  }

  /** A duplicate-free array is stored back unchanged. */
  lemma {:induction false} FromArrayOfDistinct(raw: seq<string>)
    requires Distinct(raw)
    ensures FromArray(raw) == raw
  {
    AddAllOfDistinct([], raw);
  }

  lemma {:induction false} AddAllOfDistinct(s: seq<string>, xs: seq<string>)
    requires Distinct(s + xs)
    ensures AddAll(s, xs) == s + xs
  {
    if xs != [] {
      var front := xs[..|xs| - 1];
      var last := xs[|xs| - 1];
      assert s + xs == (s + front) + [last];
      assert Distinct(s + front) by {
        forall i, j | 0 <= i < j < |s + front| ensures (s + front)[i] != (s + front)[j] {
          assert (s + front)[i] == (s + xs)[i] && (s + front)[j] == (s + xs)[j];
        }
      }
      AddAllOfDistinct(s, front);
      assert last !in s + front by {
        forall k | 0 <= k < |s + front| ensures (s + front)[k] != last {
          assert (s + front)[k] == (s + xs)[k];
          assert last == (s + xs)[|s + xs| - 1];
        }
      }
    }
  }

  /** Deleting an id that was just added to a set without it gives the set back. */
  lemma AddThenDelete(s: seq<string>, x: string)
    requires x !in s
    ensures Delete(Add(s, x), x) == s
  {
    assert (s + [x])[..|s + [x]| - 1] == s;
  }

  /** In a set without duplicates, deleting the element at position i removes
      exactly that position. */
  lemma {:induction false} DeleteAt(s: seq<string>, i: nat)
    requires Distinct(s) && i < |s|
    ensures Delete(s, s[i]) == s[..i] + s[i + 1..]
    decreases |s|
  {
    var front := s[..|s| - 1];
    var last := s[|s| - 1];
    assert Distinct(front);
    if i == |s| - 1 {
      assert last !in front;
      assert s[..i] + s[i + 1..] == front;
    } else {
      assert front[i] == s[i];
      assert last != s[i];
      DeleteAt(front, i);
      assert s[..i] + s[i + 1..] == front[..i] + front[i + 1..] + [last];
    }
  }
}
