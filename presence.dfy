/**
 Staleness-based exit detection. `active` maps each present identity to
 the frame it was last seen in, and `order` lists its keys in the order the
 dictionary iterates them (insertion order).
 */
module Presence {

  /** Frames an identity may go unseen before it counts as gone. */
  const EXIT_THRESHOLD := 20

  ghost predicate Distinct(s: seq<int>)
  {
    forall i, j :: 0 <= i < j < |s| ==> s[i] != s[j]
  }

  /** `r` is `s` with some elements left out, the rest in their order in `s`. */
  ghost predicate Subseq(r: seq<int>, s: seq<int>)
    decreases |s|
  {
    || r == []
    || (&& s != []
        && ((r[|r| - 1] == s[|s| - 1] && Subseq(r[..|r| - 1], s[..|s| - 1])) || Subseq(r, s[..|s| - 1])))
  }

  /** An active identity not observed this tick whose last sighting is more than EXIT_THRESHOLD frames old. */
  predicate Stale(id: int, active: map<int, int>, current: seq<int>, frame: int)
    ensures Stale(id, active, current, frame) ==> id in active && active[id] < frame - EXIT_THRESHOLD
    ensures id in current ==> !Stale(id, active, current, frame)
  {
    id in active && id !in current && frame - active[id] > EXIT_THRESHOLD
  }

  /** The stale ids of `order`, in the order they appear there. */
  function StaleIds(order: seq<int>, active: map<int, int>, current: seq<int>, frame: int): (r: seq<int>)
    ensures forall id :: id in r <==> id in order && Stale(id, active, current, frame)
    ensures Distinct(order) ==> Distinct(r)
    ensures Subseq(r, order)
  {
    if order == [] then []
    else
      var last := order[|order| - 1];
      var prev := StaleIds(order[..|order| - 1], active, current, frame);
      if Stale(last, active, current, frame) then
        assert (prev + [last])[..|prev|] == prev;
        prev + [last]
      else
        prev
  }

  /** The last-seen map after every id of `ids` was seen in frame `frame`. */
  function Touch(active: map<int, int>, ids: seq<int>, frame: int): (r: map<int, int>)
    ensures forall id :: id in r <==> id in active || id in ids
    ensures forall id :: id in ids ==> r[id] == frame
    ensures forall id :: id in active && id !in ids ==> r[id] == active[id]
  {
    if ids == [] then active
    else Touch(active, ids[..|ids| - 1], frame)[ids[|ids| - 1] := frame]
  }

  /** The iteration order after the ids of `ids` were inserted: a new key goes last, a known key stays put. */
  function Arrivals(order: seq<int>, ids: seq<int>): (r: seq<int>)
    ensures order <= r
    ensures forall id :: id in r <==> id in order || id in ids
    ensures forall id :: id in r[|order|..] <==> id in ids && id !in order
    ensures Distinct(order) ==> Distinct(r)
  {
    if ids == [] then order
    else
      var prev := Arrivals(order, ids[..|ids| - 1]);
      var last := ids[|ids| - 1];
      if last in prev then prev else prev + [last]
  }

  /**
   Inserting more ids only appends to the order reached so far, so the new
   keys follow one another in the order they were first seen.
   */
  lemma {:induction false} ArrivalsPrefix(order: seq<int>, ids: seq<int>, m: nat)
    requires m <= |ids|
    ensures Arrivals(order, ids[..m]) <= Arrivals(order, ids)
    decreases |ids|
  {
    if m < |ids| {
      var init := ids[..|ids| - 1];
      assert init[..m] == ids[..m];
      ArrivalsPrefix(order, init, m);
    } else {
      assert ids[..m] == ids;
    }
  }

  lemma ArrivalsStep(order: seq<int>, ids: seq<int>, id: int)
    ensures var prev := Arrivals(order, ids);
      Arrivals(order, ids + [id]) == if id in prev then prev else prev + [id]
  {
    assert (ids + [id])[..|ids|] == ids;
  }

  /** `s` with every element of `xs` removed, the rest in their order. */
  function Without(s: seq<int>, xs: set<int>): (r: seq<int>)
    ensures forall x :: x in r <==> x in s && x !in xs
    ensures Distinct(s) ==> Distinct(r)
    ensures Subseq(r, s)
  {
    if s == [] then []
    else
      var last := s[|s| - 1];
      var prev := Without(s[..|s| - 1], xs);
      if last in xs then prev
      else
        assert (prev + [last])[..|prev|] == prev;
        prev + [last]
  }

  /** The elements of `s`, as a set. */
  function Elems(s: seq<int>): set<int>
  {
    set x | x in s
  }

  /** Removing the first j + 1 entries of `exited` from a map removes the first j and then entry j. */
  lemma RemoveKeysStep(active: map<int, int>, exited: seq<int>, j: nat)
    requires j < |exited| && Distinct(exited)
    ensures exited[j] !in Elems(exited[..j])
    ensures (active - Elems(exited[..j])) - {exited[j]} == active - Elems(exited[..j + 1])
  {
    assert exited[..j + 1] == exited[..j] + [exited[j]];
    assert Elems(exited[..j + 1]) == Elems(exited[..j]) + {exited[j]};
  }

  /** The same step for the iteration order of the map. */
  lemma WithoutStep(order: seq<int>, exited: seq<int>, j: nat)
    requires j < |exited|
    ensures Without(Without(order, Elems(exited[..j])), {exited[j]}) == Without(order, Elems(exited[..j + 1]))
  {
    assert exited[..j + 1] == exited[..j] + [exited[j]];
    assert Elems(exited[..j + 1]) == Elems(exited[..j]) + {exited[j]};
    WithoutTwice(order, Elems(exited[..j]), exited[j]);
  }

  /** Deleting no key leaves the order as it was. */
  lemma {:induction false} WithoutNothing(s: seq<int>)
    ensures Without(s, {}) == s
  {
    if s != [] {
      var init, last := s[..|s| - 1], s[|s| - 1];
      WithoutNothing(init);
      calc {
        Without(s, {});
        Without(init, {}) + [last];
        init + [last];
        s;
      }
    }
  }

  /** Deleting keys one at a time is deleting them all at once. */
  lemma {:induction false} WithoutTwice(s: seq<int>, xs: set<int>, y: int)
    ensures Without(Without(s, xs), {y}) == Without(s, xs + {y})
  {
    if s != [] {
      var init, last := s[..|s| - 1], s[|s| - 1];
      WithoutTwice(init, xs, y);
      var w := Without(init, xs);
      if last in xs {
        assert Without(s, xs) == w + [];
        assert w + [] == w;
      } else {
        assert Without(s, xs) == w + [last];
        assert (w + [last])[..|w + [last]| - 1] == w;
      }
    }
  }

  /** The boundary is strict: last seen at frame 10, an absent id is kept at frame 30 and exits at frame 31. */
  lemma ExitBoundary()
    ensures StaleIds([1], map[1 := 10], [], 30) == []
    ensures StaleIds([1], map[1 := 10], [], 31) == [1]
    ensures StaleIds([1], map[1 := 10], [1], 31) == []
  {
  }
}
