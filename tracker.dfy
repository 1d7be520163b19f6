/**
 The identity-tracking state of the capture loop and the steps that change
 it: the embedding store and its counter, the dictionary of active faces
 with their last-seen frame, the frame counter, and the table of entry and
 exit events.
 */
module Tracker {
  import opened Geometry
  import opened Sampling
  import opened Matching
  import opened Presence
  import opened Events

  /** One face as the detector reports it: an embedding and an integer bounding box. */
  datatype Detection<E> = Detection(embedding: E, bbox: Box)

  /** The embeddings of a frame's detections, in detector order. */
  function Embeddings<E>(faces: seq<Detection<E>>): (r: seq<E>)
    ensures |r| == |faces|
  {
    seq(|faces|, k requires 0 <= k < |faces| => faces[k].embedding)
  }

  lemma EmbeddingsSnoc<E>(faces: seq<Detection<E>>, k: nat)
    requires k < |faces|
    ensures Embeddings(faces[..k + 1]) == Embeddings(faces[..k]) + [faces[k].embedding]
  {
  }

  /**
   Exits are only looked for on searched frames. With the default settings
   a face last seen at frame 10 and absent since is kept by the exit test
   at frame 30; frames 31 to 34 are not searched, and frame 35, the next
   searched one, collects it.
   */
  lemma DefaultExitFrame()
    ensures StaleIds([1], map[1 := 10], [], 30) == []
    ensures forall f :: 31 <= f <= 34 ==> Plan(f, DEFAULT_SAVE_FRAMES_EVERY, DEFAULT_DETECTION_SKIP) == Run(false, false)
    ensures Plan(35, DEFAULT_SAVE_FRAMES_EVERY, DEFAULT_DETECTION_SKIP) == Run(false, true)
    ensures StaleIds([1], map[1 := 10], [], 35) == [1]
  {
  }

  /**
   Registering the next id keeps the store dense, the entry rows in
   registration order, and every row's id registered.
   */
  lemma RegisterKeepsInvariant<E>(db: map<int, E>, n: nat, log: seq<Event>, e: E, image: Image,
                                  db': map<int, E>, log': seq<Event>)
    requires Dense(db, n) && EntryIds(log) == Ids(n)
    requires forall i :: 0 <= i < |log| ==> log[i].id in db
    requires db' == db[n + 1 := e] && log' == log + [Event(n + 1, Entry, image)]
    ensures Dense(db', n + 1)
    ensures EntryIds(log') == Ids(n + 1)
    ensures forall i :: 0 <= i < |log'| ==> log'[i].id in db'
  {
    assert forall id :: id in db' <==> id in db || id == n + 1;
    EntryAppended(log, n, image);
    forall i | 0 <= i < |log'|
      ensures log'[i].id in db'
    {
      if i < |log| {
        assert log'[i] == log[i];
      }
    }
  }

  class FaceTracker<E> {
    /** `close(a, b)`: the distance between embeddings a and b is below the match threshold. */
    const close: (E, E) -> bool
    const detectionSkip: int
    const saveFramesEvery: int

    /** id -> the embedding first seen for it; never updated, never deleted. */
    var faceDatabase: map<int, E>
    /** id -> frame in which it was last seen, for the identities currently present. */
    var activeFaces: map<int, int>
    /** The keys of `activeFaces` in dictionary iteration (insertion) order. */
    var activeOrder: seq<int>
    var uniqueCount: nat
    var frameCount: nat
    /** The rows written to the visitors table, oldest first. */
    var log: seq<Event>

    ghost predicate Valid()
      reads this
    {
      // the store holds exactly the ids handed out so far, 1..uniqueCount
      && Dense(faceDatabase, uniqueCount)
      // only registered identities are present, and none was seen in the future
      && (forall id :: id in activeFaces ==> id in faceDatabase && activeFaces[id] <= frameCount)
      && Distinct(activeOrder)
      && (forall id :: id in activeOrder <==> id in activeFaces)
      // one entry row per identity, written in registration order
      && EntryIds(log) == Ids(uniqueCount)
      && (forall i :: 0 <= i < |log| ==> log[i].id in faceDatabase)
    }

    /** The start of the run: empty store and presence table, both counters at zero. */
    constructor (close: (E, E) -> bool, detectionSkip: int, saveFramesEvery: int)
      ensures Valid()
      ensures this.close == close && this.detectionSkip == detectionSkip && this.saveFramesEvery == saveFramesEvery
      ensures faceDatabase == map[] && uniqueCount == 0 && frameCount == 0
      ensures activeFaces == map[] && activeOrder == [] && log == []
    {
      this.close := close;
      this.detectionSkip := detectionSkip;
      this.saveFramesEvery := saveFramesEvery;
      faceDatabase := map[];
      activeFaces := map[];
      activeOrder := [];
      uniqueCount := 0;
      frameCount := 0;
      log := [];
    }

    /** The answer of the first-match search for `emb` in the current store. */
    ghost function Lookup(emb: E): Option<int>
      reads this
      requires Valid()
    {
      FirstMatch(faceDatabase, uniqueCount, close, emb)
    }

    /**
     Walks the store in insertion order, which is ascending id order, and
     stops at the first stored embedding close to `emb`.
     */
    method FindMatch(emb: E) returns (m: Option<int>)
      requires Valid()
      ensures m == Lookup(emb)
      ensures m.Some? ==> 1 <= m.value <= uniqueCount && close(emb, faceDatabase[m.value])
      ensures m.Some? ==> forall id :: 1 <= id < m.value ==> !close(emb, faceDatabase[id])
      ensures m.None? ==> forall id :: 1 <= id <= uniqueCount ==> !close(emb, faceDatabase[id])
    {
      m := None;
      var fid := 1;
      while fid <= uniqueCount
        invariant 1 <= fid <= uniqueCount + 1
        invariant Lookup(emb) == Scan(faceDatabase, close, emb, fid, uniqueCount)
      {
        if close(emb, faceDatabase[fid]) {
          m := Some(fid);
          break;
        }
        fid := fid + 1;
      }
    }

    /**
     Returns the matched id, or registers `emb` under the next id and writes
     its entry row with the image chosen from the clamped box `box`.
     */
    method MatchOrRegister(emb: E, box: Box) returns (id: int)
      requires Valid()
      modifies this
      ensures Valid()
      ensures 1 <= id <= uniqueCount
      ensures old(Lookup(emb)).Some? ==>
        && id == old(Lookup(emb)).value
        && faceDatabase == old(faceDatabase) && uniqueCount == old(uniqueCount) && log == old(log)
      ensures old(Lookup(emb)).None? ==>
        && id == uniqueCount == old(uniqueCount) + 1
        && id !in old(faceDatabase)
        && faceDatabase == old(faceDatabase)[id := emb]
        && log == old(log) + [Event(id, Entry, EntryImage(box))]
      ensures close(emb, emb) ==> Lookup(emb) == Some(id)
      ensures activeFaces == old(activeFaces) && activeOrder == old(activeOrder) && frameCount == old(frameCount)
    {
      var m := FindMatch(emb);
      if m.None? {
        id := Register(emb, box);
      } else {
        id := m.value;
      }
    }

    /**
     Registers an embedding nothing matched: the counter goes up by one,
     the embedding is stored under the new count, and its entry row is
     written with the image chosen from the clamped box `box`.
     */
    method Register(emb: E, box: Box) returns (id: int)
      requires Valid() && Lookup(emb) == None
      modifies this
      ensures Valid()
      ensures id == uniqueCount == old(uniqueCount) + 1 && id !in old(faceDatabase)
      ensures faceDatabase == old(faceDatabase)[id := emb]
      ensures log == old(log) + [Event(id, Entry, EntryImage(box))]
      ensures close(emb, emb) ==> Lookup(emb) == Some(id)
      ensures activeFaces == old(activeFaces) && activeOrder == old(activeOrder) && frameCount == old(frameCount)
    {
      var image := EntryImage(box);
      RegisterKeepsInvariant(faceDatabase, uniqueCount, log, emb, image,
                             faceDatabase[uniqueCount + 1 := emb], log + [Event(uniqueCount + 1, Entry, image)]);
      if close(emb, emb) {
        RegisteredIsFound(faceDatabase, uniqueCount, close, emb);
      }
      uniqueCount := uniqueCount + 1;
      id := uniqueCount;
      faceDatabase := faceDatabase[id := emb];
      log := log + [Event(id, Entry, image)];
    }

    /** Records that `id` was seen in the current frame. */
    method MarkSeen(id: int)
      requires Valid() && id in faceDatabase
      modifies this
      ensures Valid()
      ensures activeFaces == old(activeFaces)[id := frameCount]
      ensures activeOrder == if id in old(activeFaces) then old(activeOrder) else old(activeOrder) + [id]
      ensures faceDatabase == old(faceDatabase) && uniqueCount == old(uniqueCount)
      ensures frameCount == old(frameCount) && log == old(log)
    {
      if id !in activeFaces {
        activeOrder := activeOrder + [id];
      }
      activeFaces := activeFaces[id := frameCount];
    }

    /**
     Handles one detected face: clamp its box to the frame, match or
     register its embedding, and mark the resulting id seen in this frame.
     */
    method ObserveFace(face: Detection<E>, width: int, height: int) returns (id: int)
      requires Valid()
      modifies this
      ensures Valid()
      ensures Step(id, faceDatabase, uniqueCount) == MatchOne(old(faceDatabase), old(uniqueCount), close, face.embedding)
      ensures log == if uniqueCount == old(uniqueCount) then old(log)
        else old(log) + [Event(id, Entry, EntryImage(Clamp(face.bbox, width, height)))]
      ensures activeFaces == old(activeFaces)[id := frameCount]
      ensures activeOrder == if id in old(activeOrder) then old(activeOrder) else old(activeOrder) + [id]
      ensures frameCount == old(frameCount)
    {
      var box := Clamp(face.bbox, width, height);
      id := MatchOrRegister(face.embedding, box);
      MarkSeen(id);
    }

    /**
     The state reached from store `db0` (ids 1..n0), active map `active0`
     with order `order0` and log `log0` by handling faces with embeddings
     `embs` in order, which got the ids `ids`: store and counter as the
     reference `MatchAll` gives them, every id marked seen in the current
     frame, and one new row per new identity.
     */
    ghost predicate Handled(embs: seq<E>, ids: seq<int>, db0: map<int, E>, n0: nat,
                            active0: map<int, int>, order0: seq<int>, log0: seq<Event>)
      reads this
      requires Dense(db0, n0)
    {
      && (var r := MatchAll(db0, n0, close, embs); ids == r.ids && faceDatabase == r.db && uniqueCount == r.count)
      && activeFaces == Touch(active0, ids, frameCount)
      && activeOrder == Arrivals(order0, ids)
      && log0 <= log && |log| == |log0| + uniqueCount - n0
      && AllEntries(log[|log0|..])
    }

    /** Handles face k of the frame, extending what `Handled` says of the faces before it by that face. */
    method ObserveNext(faces: seq<Detection<E>>, k: nat, width: int, height: int, ghost ids: seq<int>,
                       ghost db0: map<int, E>, ghost n0: nat, ghost active0: map<int, int>,
                       ghost order0: seq<int>, ghost log0: seq<Event>)
      returns (id: int)
      requires k < |faces| && Valid() && Dense(db0, n0)
      requires Handled(Embeddings(faces[..k]), ids, db0, n0, active0, order0, log0)
      modifies this
      ensures Valid() && frameCount == old(frameCount)
      ensures Handled(Embeddings(faces[..k + 1]), ids + [id], db0, n0, active0, order0, log0)
    {
      EmbeddingsSnoc(faces, k);
      var embs := Embeddings(faces[..k]);
      id := ObserveFace(faces[k], width, height);
      MatchAllStep(db0, n0, close, embs, faces[k].embedding);
      ArrivalsStep(order0, ids, id);
      AllEntriesSnoc(old(log), |log0|, log, Event(id, Entry, EntryImage(Clamp(faces[k].bbox, width, height))));
      assert (ids + [id])[..|ids|] == ids;
    }

    /**
     Handles the faces of one sampled frame in detector order and returns
     their ids in that order: ids and store are those of the reference
     `MatchAll`, every id is marked seen in this frame, and one entry row
     is written per newly registered identity.
     */
    method ProcessDetections(faces: seq<Detection<E>>, width: int, height: int) returns (currentIds: seq<int>)
      requires Valid()
      modifies this
      ensures Valid()
      ensures frameCount == old(frameCount)
      ensures Handled(Embeddings(faces), currentIds, old(faceDatabase), old(uniqueCount),
                      old(activeFaces), old(activeOrder), old(log))
    {
      currentIds := [];
      var k := 0;
      while k < |faces|
        invariant 0 <= k <= |faces|
        invariant Valid() && frameCount == old(frameCount)
        invariant Handled(Embeddings(faces[..k]), currentIds, old(faceDatabase), old(uniqueCount),
                          old(activeFaces), old(activeOrder), old(log))
      {
        var id := ObserveNext(faces, k, width, height, currentIds,
                              old(faceDatabase), old(uniqueCount), old(activeFaces), old(activeOrder), old(log));
        currentIds := currentIds + [id];
        k := k + 1;
      }
      assert faces[..k] == faces;
    }

    /**
     The first exit loop: walks the active ids in dictionary order and
     collects those not seen this tick whose last sighting is more than
     EXIT_THRESHOLD frames old. Changes nothing.
     */
    method CollectExits(currentIds: seq<int>) returns (exited: seq<int>)
      requires Valid()
      ensures exited == StaleIds(activeOrder, activeFaces, currentIds, frameCount)
    {
      exited := [];
      var i := 0;
      while i < |activeOrder|
        invariant 0 <= i <= |activeOrder|
        invariant exited == StaleIds(activeOrder[..i], activeFaces, currentIds, frameCount)
      {
        var fid := activeOrder[i];
        if fid !in currentIds && frameCount - activeFaces[fid] > EXIT_THRESHOLD {
          exited := exited + [fid];
        }
        assert activeOrder[..i + 1][..i] == activeOrder[..i];
        i := i + 1;
      }
      assert activeOrder[..i] == activeOrder;
    }

    /** Writes the exit row for `fid`, with the whole frame, and deletes it from the active set. */
    method RecordExit(fid: int)
      requires Valid() && fid in activeFaces
      modifies this
      ensures Valid()
      ensures activeFaces == old(activeFaces) - {fid}
      ensures activeOrder == Without(old(activeOrder), {fid})
      ensures log == old(log) + [Event(fid, Exit, FullFrame)]
      ensures faceDatabase == old(faceDatabase) && uniqueCount == old(uniqueCount) && frameCount == old(frameCount)
    {
      EntryIdsAppend(log, [Event(fid, Exit, FullFrame)]);
      assert EntryIds([Event(fid, Exit, FullFrame)]) == [];
      log := log + [Event(fid, Exit, FullFrame)];
      activeFaces := activeFaces - {fid};
      activeOrder := Without(activeOrder, {fid});
    }

    /** The second exit loop: records and removes each collected id in turn. */
    method RemoveExited(exited: seq<int>)
      requires Valid() && Distinct(exited) && forall id :: id in exited ==> id in activeFaces
      modifies this
      ensures Valid()
      ensures activeFaces == old(activeFaces) - Elems(exited)
      ensures activeOrder == Without(old(activeOrder), Elems(exited))
      ensures log == old(log) + ExitEvents(exited)
      ensures faceDatabase == old(faceDatabase) && uniqueCount == old(uniqueCount) && frameCount == old(frameCount)
    {
      WithoutNothing(activeOrder);
      assert Elems(exited[..0]) == {};
      var j := 0;
      while j < |exited|
        invariant 0 <= j <= |exited|
        invariant Valid()
        invariant activeFaces == old(activeFaces) - Elems(exited[..j])
        invariant activeOrder == Without(old(activeOrder), Elems(exited[..j]))
        invariant log == old(log) + ExitEvents(exited[..j])
        invariant faceDatabase == old(faceDatabase) && uniqueCount == old(uniqueCount) && frameCount == old(frameCount)
      {
        var fid := exited[j];
        RemoveKeysStep(old(activeFaces), exited, j);
        WithoutStep(old(activeOrder), exited, j);
        ExitEventsSnoc(old(log), exited, j);
        RecordExit(fid);
        j := j + 1;
      }
      assert exited[..j] == exited;
    }

    /** Exit detection for one tick: collect the stale ids, then record and remove them. */
    method DetectExits(currentIds: seq<int>) returns (exited: seq<int>)
      requires Valid()
      modifies this
      ensures Valid()
      ensures exited == StaleIds(old(activeOrder), old(activeFaces), currentIds, frameCount)
      ensures activeFaces == old(activeFaces) - Elems(exited)
      ensures activeOrder == Without(old(activeOrder), Elems(exited))
      ensures log == old(log) + ExitEvents(exited)
      ensures faceDatabase == old(faceDatabase) && uniqueCount == old(uniqueCount) && frameCount == old(frameCount)
    {
      exited := CollectExits(currentIds);
      RemoveExited(exited);
    }

    /**
     One pass of the capture loop for a frame the source delivered: advance
     the frame counter, apply the sampling rule, and on a detection frame
     handle `faces` (what the detector found in it) and then the exits.
     */
    method ProcessFrame(faces: seq<Detection<E>>, width: int, height: int)
      returns (plan: FramePlan, currentIds: seq<int>, exited: seq<int>)
      requires Valid()
      modifies this
      ensures Valid()
      ensures frameCount == old(frameCount) + 1
      ensures plan == Plan(frameCount, saveFramesEvery, detectionSkip)
      ensures !(plan.Run? && plan.detect) ==>
        && currentIds == [] && exited == []
        && faceDatabase == old(faceDatabase) && uniqueCount == old(uniqueCount) && log == old(log)
        && activeFaces == old(activeFaces) && activeOrder == old(activeOrder)
      ensures plan.Run? && plan.detect ==>
        && (var r := MatchAll(old(faceDatabase), old(uniqueCount), close, Embeddings(faces));
            currentIds == r.ids && faceDatabase == r.db && uniqueCount == r.count)
        && exited == StaleIds(Arrivals(old(activeOrder), currentIds), Touch(old(activeFaces), currentIds, frameCount),
                              currentIds, frameCount)
        && activeFaces == Touch(old(activeFaces), currentIds, frameCount) - Elems(exited)
        && activeOrder == Without(Arrivals(old(activeOrder), currentIds), Elems(exited))
        && (forall id :: id in currentIds ==> id in activeFaces && activeFaces[id] == frameCount)
        && (forall id :: id in exited <==> Stale(id, old(activeFaces), currentIds, frameCount))
        && (forall id :: id in exited ==> id !in activeFaces)
        && Distinct(exited)
        && old(log) <= log && |log| == |old(log)| + (uniqueCount - old(uniqueCount)) + |exited|
        && AllEntries(log[|old(log)|..|log| - |exited|])
        && log[|log| - |exited|..] == ExitEvents(exited)
    {
      frameCount := frameCount + 1;
      plan := Plan(frameCount, saveFramesEvery, detectionSkip);
      currentIds, exited := [], [];
      if plan.Run? && plan.detect {
        currentIds := ProcessDetections(faces, width, height);
        ghost var active1, log1 := activeFaces, log;
        exited := DetectExits(currentIds);
        forall id ensures id in exited <==> Stale(id, old(activeFaces), currentIds, frameCount) {
          assert Stale(id, active1, currentIds, frameCount) <==> Stale(id, old(activeFaces), currentIds, frameCount);
        }
        assert log[|log1|..] == ExitEvents(exited);
        assert log[|old(log)|..|log| - |exited|] == log1[|old(log)|..];
      }
    }
  }
}
