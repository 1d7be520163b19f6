/**
 First-match search over the stored embeddings. Identities are numbered
 1, 2, 3, ... in registration order and never removed, so scanning the
 store in insertion order is scanning the ids in ascending order, and the
 first hit is the least id whose stored embedding is close to the probe.
 `close(a, b)` stands for "the Euclidean distance of a and b is below 0.6".
 */
module Matching {

  datatype Option<T> = None | Some(value: T)

  /** Every id from `lo` to `hi` has a stored embedding. */
  ghost predicate Covers<E>(db: map<int, E>, lo: int, hi: int)
  {
    forall id :: lo <= id <= hi ==> id in db
  }

  /**
   Compares `emb` with the embeddings stored under ids `lo`, `lo + 1`, ...,
   `hi` in that order and stops at the first close one.
   */
  function Scan<E>(db: map<int, E>, close: (E, E) -> bool, emb: E, lo: int, hi: int): (r: Option<int>)
    requires Covers(db, lo, hi)
    ensures r.Some? ==> lo <= r.value <= hi && close(emb, db[r.value])
    ensures r.Some? ==> forall id :: lo <= id < r.value ==> !close(emb, db[id])
    ensures r.None? ==> forall id :: lo <= id <= hi ==> !close(emb, db[id])
    decreases hi - lo
  {
    if lo > hi then None
    else if close(emb, db[lo]) then Some(lo)
    else Scan(db, close, emb, lo + 1, hi)
  }

  /** The id the matcher reports for `emb` against a store holding ids 1..count. */
  function FirstMatch<E>(db: map<int, E>, count: int, close: (E, E) -> bool, emb: E): Option<int>
    requires Covers(db, 1, count)
  {
    Scan(db, close, emb, 1, count)
  }

  /** Store keys are exactly the ids 1..count. */
  ghost predicate Dense<E>(db: map<int, E>, count: int)
  {
    forall id :: id in db <==> 1 <= id <= count
  }

  /** What handling a frame's embeddings yields: their ids in order, and the store afterwards. */
  datatype Outcome<E> = Outcome(ids: seq<int>, db: map<int, E>, count: int)

  /** What matching one embedding yields: its id, and the store and counter afterwards. */
  datatype Step<E> = Step(id: int, db: map<int, E>, count: int)

  /**
   One match-or-register step: the first close stored embedding's id, or
   else the next id, under which `e` is then stored.
   */
  function MatchOne<E>(db: map<int, E>, count: nat, close: (E, E) -> bool, e: E): (r: Step<E>)
    requires Dense(db, count)
    ensures count <= r.count <= count + 1 && Dense(r.db, r.count)
    ensures forall id :: id in db ==> r.db[id] == db[id]
    ensures r.id in r.db && (close(e, r.db[r.id]) || r.db[r.id] == e)
    ensures r.count == count + 1 ==> r.id == r.count && r.db[r.id] == e
    ensures r.count == count + 1 <==> forall id :: 1 <= id <= count ==> !close(e, db[id])
    ensures r.count == count ==>
      && 1 <= r.id <= count && close(e, db[r.id])
      && forall id :: 1 <= id < r.id ==> !close(e, db[id])
  {
    match FirstMatch(db, count, close, e)
    case Some(id) => Step(id, db, count)
    case None => Step(count + 1, db[count + 1 := e], count + 1)
  }

  /**
   The faces of one frame, handled in detector order: each is matched
   against the store as it stands after the faces before it, and registered
   under the next id when nothing matches.
   */
  function MatchAll<E>(db: map<int, E>, count: nat, close: (E, E) -> bool, embs: seq<E>): (r: Outcome<E>)
    requires Dense(db, count)
    ensures count <= r.count <= count + |embs| && Dense(r.db, r.count) && |r.ids| == |embs|
    ensures forall id :: id in db ==> r.db[id] == db[id]
    ensures forall k :: 0 <= k < |embs| ==>
      (r.ids[k] in r.db && (close(embs[k], r.db[r.ids[k]]) || r.db[r.ids[k]] == embs[k]))
    ensures forall id :: count < id <= r.count ==> id in r.ids
    decreases |embs|
  {
    if embs == [] then Outcome([], db, count)
    else
      var prev := MatchAll(db, count, close, embs[..|embs| - 1]);
      var s := MatchOne(prev.db, prev.count, close, embs[|embs| - 1]);
      Outcome(prev.ids + [s.id], s.db, s.count)
  }

  /** One more face at the end of the frame: the reference takes one more match-or-register step. */
  lemma MatchAllStep<E>(db: map<int, E>, count: nat, close: (E, E) -> bool, embs: seq<E>, e: E)
    requires Dense(db, count)
    ensures var prev := MatchAll(db, count, close, embs);
      var s := MatchOne(prev.db, prev.count, close, e);
      MatchAll(db, count, close, embs + [e]) == Outcome(prev.ids + [s.id], s.db, s.count)
  {
    assert (embs + [e])[..|embs|] == embs;
  }

  /**
   Registering `e` under the next id `hi + 1` changes no earlier answer: a
   probe that matched before matches the same id, and a probe that matched
   nothing now matches the new id exactly when it is close to `e`. This is
   why a face registered earlier in a frame is found by later faces of the
   same frame.
   */
  lemma {:induction false} ScanExtend<E>(db: map<int, E>, close: (E, E) -> bool, probe: E, e: E, lo: int, hi: int)
    requires lo <= hi + 1 && Covers(db, lo, hi)
    ensures Covers(db[hi + 1 := e], lo, hi + 1)
    ensures Scan(db[hi + 1 := e], close, probe, lo, hi + 1) ==
      match Scan(db, close, probe, lo, hi)
      case Some(id) => Some(id)
      case None => if close(probe, e) then Some(hi + 1) else None
    decreases hi - lo
  {
    var db' := db[hi + 1 := e];
    if lo <= hi {
      assert db'[lo] == db[lo];
      if !close(probe, db[lo]) {
        ScanExtend(db, close, probe, e, lo + 1, hi);
      }
    }
  }

  /**
   The matcher is idempotent: an embedding that was just registered because
   nothing matched it is matched to its own new id on the next call,
   provided it is close to itself (it is, unless its distance to itself is
   not a number).
   */
  lemma RegisteredIsFound<E>(db: map<int, E>, count: int, close: (E, E) -> bool, emb: E)
    requires 0 <= count && Covers(db, 1, count)
    requires FirstMatch(db, count, close, emb) == None && close(emb, emb)
    ensures Covers(db[count + 1 := emb], 1, count + 1)
    ensures FirstMatch(db[count + 1 := emb], count + 1, close, emb) == Some(count + 1)
  {
    ScanExtend(db, close, emb, emb, 1, count);
  }

  /**
   Two embeddings that are not close get different ids: after `e1` is
   registered as a new identity, an embedding `e2` that is not close to it
   is not given `e1`'s id, whatever the earlier embeddings are.
   */
  lemma FarEmbeddingNotMerged<E>(db: map<int, E>, count: int, close: (E, E) -> bool, e1: E, e2: E)
    requires 0 <= count && Covers(db, 1, count)
    requires FirstMatch(db, count, close, e1) == None && !close(e2, e1)
    ensures Covers(db[count + 1 := e1], 1, count + 1)
    ensures FirstMatch(db[count + 1 := e1], count + 1, close, e2) != Some(count + 1)
  {
    ScanExtend(db, close, e2, e1, 1, count);
  }

  /** A frame holding one unmatched face registers it under the next id. */
  lemma RegisterOne<E>(db: map<int, E>, count: nat, close: (E, E) -> bool, e: E)
    requires Dense(db, count) && FirstMatch(db, count, close, e) == None
    ensures MatchAll(db, count, close, [e]) == Outcome([count + 1], db[count + 1 := e], count + 1)
  {
    assert [e][..0] == [];
    assert MatchAll(db, count, close, []) == Outcome([], db, count);
    assert MatchOne(db, count, close, e) == Step(count + 1, db[count + 1 := e], count + 1);
  }

  /**
   Three mutually distant faces seen in the first frame of a run get the
   ids 1, 2 and 3, in detector order.
   */
  lemma ThreeVisitors()
    ensures MatchAll(map[], 0, (a: int, b: int) => a == b, [10, 20, 30]) == Outcome([1, 2, 3], map[1 := 10, 2 := 20, 3 := 30], 3)
  {
    var eq := (a: int, b: int) => a == b;
    assert [10, 20, 30][..2] == [10, 20];
    assert [10, 20][..1] == [10];
    RegisterOne(map[], 0, eq, 10);
    assert FirstMatch(map[1 := 10], 1, eq, 20) == None;
    assert MatchAll(map[], 0, eq, [10, 20]) == Outcome([1, 2], map[1 := 10, 2 := 20], 2);
    assert FirstMatch(map[1 := 10, 2 := 20], 2, eq, 30) == None;
  }

  /**
   Handling the first n faces of a frame is the start of handling all of
   them: the same ids for those faces, and a store the rest only extends.
   */
  lemma MatchAllPrefix<E>(db: map<int, E>, count: nat, close: (E, E) -> bool, embs: seq<E>, n: nat)
    requires Dense(db, count) && n <= |embs|
    ensures var p := MatchAll(db, count, close, embs[..n]);
      var r := MatchAll(db, count, close, embs);
      && p.ids == r.ids[..n] && p.count <= r.count
      && forall id :: id in p.db ==> id in r.db && r.db[id] == p.db[id]
  {
    PrefixIds(db, count, close, embs, n);
    PrefixStore(db, count, close, embs, n);
  }

  lemma {:induction false} PrefixIds<E>(db: map<int, E>, count: nat, close: (E, E) -> bool, embs: seq<E>, n: nat)
    requires Dense(db, count) && n <= |embs|
    ensures var p := MatchAll(db, count, close, embs[..n]);
      var r := MatchAll(db, count, close, embs);
      forall k :: 0 <= k < n ==> p.ids[k] == r.ids[k]
    decreases |embs|
  {
    if n == |embs| {
      assert embs[..n] == embs;
    } else {
      var init := embs[..|embs| - 1];
      assert init[..n] == embs[..n];
      PrefixIds(db, count, close, init, n);
      MatchAllGrows(db, count, close, embs);
    }
  }

  lemma {:induction false} PrefixStore<E>(db: map<int, E>, count: nat, close: (E, E) -> bool, embs: seq<E>, n: nat)
    requires Dense(db, count) && n <= |embs|
    ensures var p := MatchAll(db, count, close, embs[..n]);
      var r := MatchAll(db, count, close, embs);
      p.count <= r.count && forall id :: id in p.db ==> id in r.db && r.db[id] == p.db[id]
    decreases |embs|
  {
    if n == |embs| {
      assert embs[..n] == embs;
    } else {
      var init := embs[..|embs| - 1];
      assert init[..n] == embs[..n];
      PrefixStore(db, count, close, init, n);
      MatchAllGrows(db, count, close, embs);
    }
  }

  /** One more face keeps the ids of the faces before it and only extends the store. */
  lemma MatchAllGrows<E>(db: map<int, E>, count: nat, close: (E, E) -> bool, embs: seq<E>)
    requires Dense(db, count) && embs != []
    ensures var prev := MatchAll(db, count, close, embs[..|embs| - 1]);
      var r := MatchAll(db, count, close, embs);
      && r.ids[..|embs| - 1] == prev.ids && prev.count <= r.count
      && forall id :: id in prev.db ==> id in r.db && r.db[id] == prev.db[id]
  {
    var prev := MatchAll(db, count, close, embs[..|embs| - 1]);
    var s := MatchOne(prev.db, prev.count, close, embs[|embs| - 1]);
    assert MatchAll(db, count, close, embs) == Outcome(prev.ids + [s.id], s.db, s.count);
  }

  /**
   Face k of a frame takes one match-or-register step on the store left by
   faces 0..k-1, and the faces after it only extend the store that step
   leaves.
   */
  lemma MatchAllAt<E>(db: map<int, E>, count: nat, close: (E, E) -> bool, embs: seq<E>, k: nat)
    requires Dense(db, count) && k < |embs|
    ensures var p := MatchAll(db, count, close, embs[..k]);
      var s := MatchOne(p.db, p.count, close, embs[k]);
      var r := MatchAll(db, count, close, embs);
      && r.ids[k] == s.id && s.count <= r.count
      && forall id :: id in s.db ==> id in r.db && r.db[id] == s.db[id]
  {
    MatchAllPrefix(db, count, close, embs, k + 1);
    assert embs[..k + 1][..k] == embs[..k];
  }

  /** A store that only grew by later ids gives every earlier match the same answer. */
  lemma FirstMatchGrow<E>(db1: map<int, E>, n1: nat, db2: map<int, E>, n2: nat, close: (E, E) -> bool, e: E, m: int)
    requires Dense(db1, n1) && Dense(db2, n2) && n1 <= n2
    requires forall id :: id in db1 ==> db2[id] == db1[id]
    requires FirstMatch(db1, n1, close, e) == Some(m)
    ensures FirstMatch(db2, n2, close, e) == Some(m)
  {
    assert db2[m] == db1[m];
  }

  /**
   After a frame, every face that is close to itself is found by the
   matcher under the id it was given, whether it matched an older identity
   or was registered during the frame.
   */
  lemma MatchAllFinds<E>(db: map<int, E>, count: nat, close: (E, E) -> bool, embs: seq<E>)
    requires Dense(db, count)
    ensures var r := MatchAll(db, count, close, embs);
      forall k :: 0 <= k < |embs| && close(embs[k], embs[k]) ==> FirstMatch(r.db, r.count, close, embs[k]) == Some(r.ids[k])
  {
    var r := MatchAll(db, count, close, embs);
    forall k | 0 <= k < |embs| && close(embs[k], embs[k])
      ensures FirstMatch(r.db, r.count, close, embs[k]) == Some(r.ids[k])
    {
      FoundAt(db, count, close, embs, k);
    }
  }

  /** A self-close embedding is found, right after its step, under the id that step gave it. */
  lemma MatchOneFinds<E>(db: map<int, E>, count: nat, close: (E, E) -> bool, e: E)
    requires Dense(db, count) && close(e, e)
    ensures var s := MatchOne(db, count, close, e); FirstMatch(s.db, s.count, close, e) == Some(s.id)
  {
    if FirstMatch(db, count, close, e).None? {
      RegisteredIsFound(db, count, close, e);
    }
  }

  lemma FoundAt<E>(db: map<int, E>, count: nat, close: (E, E) -> bool, embs: seq<E>, k: nat)
    requires Dense(db, count) && k < |embs| && close(embs[k], embs[k])
    ensures var r := MatchAll(db, count, close, embs);
      FirstMatch(r.db, r.count, close, embs[k]) == Some(r.ids[k])
  {
    var p := MatchAll(db, count, close, embs[..k]);
    var s := MatchOne(p.db, p.count, close, embs[k]);
    var r := MatchAll(db, count, close, embs);
    MatchAllAt(db, count, close, embs, k);
    MatchOneFinds(p.db, p.count, close, embs[k]);
    FirstMatchGrow(s.db, s.count, r.db, r.count, close, embs[k], s.id);
  }

  /**
   Within one frame, a face close to the embedding stored under an earlier
   face's id is never registered anew: it gets an id already in the store
   when its turn comes, and no larger than the earlier face's id. In
   particular it sees faces registered earlier in the same frame.
   */
  lemma SameFrameVisibility<E>(db: map<int, E>, count: nat, close: (E, E) -> bool, embs: seq<E>, i: nat, j: nat)
    requires Dense(db, count) && i < j < |embs|
    requires var r := MatchAll(db, count, close, embs); close(embs[j], r.db[r.ids[i]])
    ensures var r := MatchAll(db, count, close, embs);
      r.ids[j] <= r.ids[i] && r.ids[j] in MatchAll(db, count, close, embs[..j]).db
  {
    var p := MatchAll(db, count, close, embs[..j]);
    var r := MatchAll(db, count, close, embs);
    MatchAllPrefix(db, count, close, embs, j);
    MatchAllAt(db, count, close, embs, j);
    assert p.ids[i] == r.ids[i];
    assert p.db[r.ids[i]] == r.db[r.ids[i]];
  }

  /**
   Two unmatched faces, the second close to the first: the first is
   registered and the second gets its id.
   */
  lemma TwoSightings<E>(db: map<int, E>, count: nat, close: (E, E) -> bool, e1: E, e2: E)
    requires Dense(db, count)
    requires FirstMatch(db, count, close, e1) == None && FirstMatch(db, count, close, e2) == None
    requires close(e2, e1)
    ensures MatchAll(db, count, close, [e1, e2]).ids == [count + 1, count + 1]
  {
    RegisterOne(db, count, close, e1);
    ScanExtend(db, close, e2, e1, 1, count);
    assert [e1, e2][..1] == [e1];
  }
}
