/** What a loop that scans a list and collects from it is expected to return. */
module Lists {
  /** `r` holds the images of the kept elements; `at` are their positions, in increasing order. */
  ghost predicate Picks<T, U>(list: seq<T>, keep: T -> bool, image: T -> U, r: seq<U>, at: seq<nat>) {
    && |at| == |r|
    && (forall i, j :: 0 <= i < j < |at| ==> at[i] < at[j])
    && (forall i :: 0 <= i < |at| ==> at[i] < |list| && keep(list[at[i]]) && r[i] == image(list[at[i]]))
    && (forall p: nat :: p < |list| && keep(list[p]) ==> p in at)
  }

  /** `r` is the image of exactly the kept elements, each occurrence once, in order. */
  ghost predicate Collected<T, U>(list: seq<T>, keep: T -> bool, image: T -> U, r: seq<U>) {
    exists at :: Picks(list, keep, image, r, at)
  }

  lemma NothingCollected<T, U>(keep: T -> bool, image: T -> U)
    ensures Collected([], keep, image, [])
  {
    assert Picks([], keep, image, [], []);
  }

  lemma PicksSkip<T, U>(list: seq<T>, keep: T -> bool, image: T -> U, r: seq<U>, at: seq<nat>)
    requires list != [] && !keep(list[|list| - 1]) && Picks(list[..|list| - 1], keep, image, r, at)
    ensures Picks(list, keep, image, r, at)
  {
    var front := list[..|list| - 1];
    assert forall p: nat :: p < |front| ==> front[p] == list[p];
  }

  lemma PicksTake<T, U>(list: seq<T>, keep: T -> bool, image: T -> U, r: seq<U>, at: seq<nat>)
    requires list != [] && keep(list[|list| - 1]) && Picks(list[..|list| - 1], keep, image, r, at)
    ensures Picks(list, keep, image, r + [image(list[|list| - 1])], at + [|list| - 1])
  {
    var n := |list| - 1;
    var front, next := list[..n], at + [n];
    assert next[|at|] == n;
    forall p: nat | p < |list| && keep(list[p])
      ensures p in next
    {
      if p < n { assert front[p] == list[p] && p in at; }
    }
  }

  lemma OneMoreCollected<T, U>(list: seq<T>, keep: T -> bool, image: T -> U, r: seq<U>)
    requires list != [] && Collected(list[..|list| - 1], keep, image, r)
    ensures Collected(list, keep, image, r + (if keep(list[|list| - 1]) then [image(list[|list| - 1])] else []))
  {
    hide Picks;
    var at :| Picks(list[..|list| - 1], keep, image, r, at);
    if keep(list[|list| - 1]) {
      PicksTake(list, keep, image, r, at);
    } else {
      PicksSkip(list, keep, image, r, at);
      assert r + [] == r;
    }
  }

  /** Nothing else has these properties. */
  lemma CollectedUnique<T, U>(list: seq<T>, keep: T -> bool, image: T -> U, r: seq<U>, s: seq<U>)
    requires Collected(list, keep, image, r) && Collected(list, keep, image, s)
    ensures r == s
  {
    var a :| Picks(list, keep, image, r, a);
    var b :| Picks(list, keep, image, s, b);
    SamePositions(a, b);
  }

  lemma FirstIsMember(a: seq<nat>)
    ensures a == [] || a[0] in a
  {
  }

  /** Increasing lists with the same members are equal. */
  lemma {:induction false} SamePositions(a: seq<nat>, b: seq<nat>)
    requires forall i, j :: 0 <= i < j < |a| ==> a[i] < a[j]
    requires forall i, j :: 0 <= i < j < |b| ==> b[i] < b[j]
    requires forall p :: p in a <==> p in b
    ensures a == b
  {
    if a != [] && b != [] {
      assert a[0] in b && b[0] in a;
      forall p
        ensures p in a[1..] <==> p in b[1..]
      {
        assert p in a <==> p == a[0] || p in a[1..];
        assert p in b <==> p == b[0] || p in b[1..];
      }
      SamePositions(a[1..], b[1..]);
    } else {
      FirstIsMember(a);
      FirstIsMember(b);
    }
  }
}
