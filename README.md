# Face tracker identity bookkeeping

A Dafny model of the identity-tracking core of `face.py`, a headless
visitor counter. For every frame it reads from a camera, the loop does
the following:

- It advances a frame counter.
- It saves an inspection frame every `save_frames_every` frames.
- It runs the face detector on every `detection_skip_frames`-th frame.
- It matches each detected face's embedding against a store of known
  embeddings, registering it under a fresh id when nothing is close.
- It keeps a dictionary of the identities currently present, mapping each
  to the frame it was last seen in.
- It writes one `entry` row per new identity and one `exit` row per
  identity unseen for more than 20 frames, then forgets the exited ones.

The model is organised as follows:

- `geometry.dfy` (`Geometry`): the bounding-box clamp, and the choice
  between a crop of the face and the whole frame as the entry image.
- `sampling.dfy` (`Sampling`): the sampling rule, with Python's `%`
  written out. A zero setting raises an uncaught `ZeroDivisionError`;
  that case is modelled as the `ZeroDivision` plan. `ProcessFrame` then
  changes nothing but the frame counter. In Python the error ends the
  run, so a caller must not pass further frames after a `ZeroDivision`
  plan.
- `matching.dfy` (`Matching`): the first-match search, and `MatchAll`, a
  pure reference for how one frame's faces are matched or registered in
  detector order.
- `presence.dfy` (`Presence`): which active ids are stale, the last-seen
  update (`Touch`), and the dictionary's iteration order on insert
  (`Arrivals`) and delete (`Without`).
- `events.dfy` (`Events`): the rows of the `visitors` table, as a log of
  `Event(id, kind, image)`.
- `tracker.dfy` (`Tracker`): the class `FaceTracker`. Its fields are the
  four pieces of tracking state (`face_database`, `active_faces`,
  `unique_count`, `frame_count`), plus the dictionary's key order and the
  event log. Its methods are the loops of `face.py`, each proved against
  the pure definitions above.

`FaceTracker.Valid()` is the class invariant. It states:

- the store's keys are exactly `1..uniqueCount`. Its insertion order is
  ascending id order, because `Register` is the only update of the store,
  it adds `uniqueCount + 1`, and nothing is ever deleted or overwritten;
- every present identity is registered and was last seen no later than
  the current frame;
- the key order lists each active id once;
- the entry rows carry ids `1, 2, ..., uniqueCount` in that order;
- every row's id is registered.

Embeddings are a type parameter `E`. The test
`np.linalg.norm(emb - femb) < 0.6` is the tracker's `close` field. No
property of `close` is assumed. In particular, it is not assumed to be
reflexive: an embedding holding a NaN is not close to itself. Idempotence
is therefore stated for embeddings with `close(e, e)`.

Two consequences of the code are worth stating on their own:

- The exit test is strict (`frame_count - last_seen > EXIT_THRESHOLD`),
  so a face last seen at frame 10 and absent since is kept at frame 30
  and is stale from frame 31 on (`Presence.ExitBoundary`). Exits are only
  looked for on searched frames, so it leaves at the first searched frame
  after frame 30. That is frame 31 only when every frame is searched; with
  the default `detection_skip_frames` of 5 it is frame 35
  (`Tracker.DefaultExitFrame`).
- An identity that returns after its exit gets the first id whose stored
  embedding is close to its own, usually its old one. It is marked present
  again and gets no new `entry` row. `FaceTracker.ObserveFace` states
  this: on a match the log is unchanged.

## Model

| member | source | states |
|---|---|---|
| Geometry.Clamp | face.py:110-112 | the clamped box has x1, y1 >= 0, x2 <= width-1 and y2 <= height-1; each corner only moves inwards, and each coordinate is either kept or moved onto the frame edge |
| Geometry.ClampIdempotent | face.py:110-112 | clamping twice is clamping once, and a box already inside the frame is unchanged |
| Geometry.EntryImage | face.py:128 | the entry image is a crop exactly when x1 < x2 and y1 < y2, and the crop is then the box itself; otherwise it is the whole frame |
| Geometry.CropInsideFrame | face.py:128 | after the clamp, the crop is used exactly when x2 > x1 and y2 > y1, and it is then a non-empty region inside the frame; otherwise the whole frame is used |
| Sampling.PyMod | face.py:94 | Python's remainder takes the sign of the divisor, lies strictly within it, and satisfies a == b * (a // b) + a % b |
| Sampling.PyModZero | face.py:94-100 | Python's remainder is zero exactly when the Euclidean remainder is, so only divisibility decides sampling |
| Sampling.Plan | face.py:91-101 | the frame is saved iff the counter is a multiple of save_frames_every, and detection runs iff it is a multiple of detection_skip_frames; a zero setting raises, after the save test when only the skip is zero |
| Sampling.DefaultSampling | face.py:22-24 | with the default settings 30 and 5, frame 30 is saved and searched, frame 5 only searched, frame 7 neither |
| Sampling.DetectionPeriod | face.py:100-101 | frame f + skip is searched exactly when frame f is |
| Matching.Scan | face.py:115-119 | the search returns the least id in range whose stored embedding is close, and None only if no id in range is close |
| Matching.MatchOne | face.py:114-125 | one match-or-register step keeps every stored embedding and the dense id range; it registers the new id `count + 1` storing `e` exactly when no stored embedding is close to `e`, and otherwise returns the least id whose stored embedding is close |
| Matching.MatchAll | face.py:106-125 | a frame's faces get one id each, in order; old ids keep their embeddings; the store stays dense; each face's id stores that face's embedding or one close to it; every new id is the id of some face of the frame |
| Matching.MatchAllPrefix | face.py:106-125 | handling the first n faces of a frame is the start of handling all of them: the same ids for those faces, and a store the later faces only extend |
| Matching.MatchAllGrows | face.py:106-125 | one more face keeps the ids of the faces before it and only adds to the store |
| Matching.MatchAllAt | face.py:106-125 | face k's id is the result of one match-or-register step on the store left by faces 0..k-1, and the faces after it only extend the store that step leaves |
| Matching.ScanExtend | face.py:116-125 | registering the next id changes no earlier answer, and a probe that matched nothing now matches the new id iff it is close to the new embedding |
| Matching.FirstMatchGrow | face.py:115-125 | a store that only grew by later ids gives every earlier match the same answer |
| Matching.RegisteredIsFound | face.py:114-125 | an embedding just registered because nothing matched is matched to its new id next time, if it is close to itself |
| Matching.MatchOneFinds | face.py:114-125 | right after its step, a self-close embedding is matched to the id that step gave it |
| Matching.MatchAllFinds | face.py:106-125 | after a whole frame, every self-close face is matched to the id it was given, whether it matched an older identity or was registered during the frame |
| Matching.FarEmbeddingNotMerged | face.py:114-125 | an embedding not close to a newly registered one is not given that one's id |
| Matching.SameFrameVisibility | face.py:116-125 | for any faces i < j of one frame, if face j is close to the embedding stored under face i's id, face j is not registered anew: its id was already in the store at its turn and is no larger than face i's |
| Matching.RegisterOne | face.py:122-125 | a frame holding one unmatched face registers it as `count + 1` |
| Matching.TwoSightings | face.py:114-125 | two unmatched faces, the second close to the first, both get id `count + 1` |
| Matching.ThreeVisitors | face.py:106-125 | three mutually distant faces in the first detection frame get ids 1, 2, 3 in detector order |
| Presence.Stale | face.py:152-154 | a stale id is active and last seen more than 20 frames ago; an id observed this tick is never stale |
| Presence.StaleIds | face.py:151-155 | an id is collected iff it is active, not observed this tick, and last seen more than 20 frames ago; the result is a subsequence of the dictionary's order, and no id repeats when the order has no repeats |
| Presence.Touch | face.py:147 | after the frame's ids are marked seen, the observed ids map to the current frame, the others keep their value, and no other key appears |
| Presence.Arrivals | face.py:147 | the key order after inserting the observed ids starts with the old order; the keys after it are exactly the observed ids that were not keys before; no key repeats when none did before |
| Presence.ArrivalsPrefix | face.py:147 | inserting more ids only appends to the key order reached so far, so new keys follow one another in the order they were first seen |
| Presence.Without | face.py:170 | deleting keys leaves exactly the other keys, as a subsequence of the old order, with no repeats when there were none |
| Presence.WithoutTwice | face.py:157-170 | deleting the exited keys one at a time equals deleting them all at once |
| Presence.ExitBoundary | face.py:154 | last seen at frame 10, an absent id is kept by the exit test at frame 30 and collected by it at frame 31; an observed id is never collected |
| Tracker.DefaultExitFrame | face.py:94-155 | with the default settings, an id last seen at frame 10 is kept at frame 30, frames 31 to 34 are not searched, and frame 35 is searched and collects it |
| Events.EntryIds | face.py:133-136 | every entry id comes from an entry row of the log, and there are no more entry ids than rows |
| Events.EntryRowsListed | face.py:133-136 | conversely, the id of every entry row is among the entry ids |
| Events.ExitEvents | face.py:157-167 | one exit row per exited id, in the same order, each with the whole frame as its image |
| Events.EntryIdsAppend | face.py:133-166 | the entry ids of two consecutive stretches of rows are those of each stretch, in order |
| Events.ExitsAddNoEntries | face.py:163-166 | exit rows add no entry ids |
| Events.EntryAppended | face.py:122-136 | registering id n + 1 extends the entry ids 1..n by n + 1 |
| Events.AllEntriesSnoc | face.py:122-148 | a face that writes an entry row or nothing keeps the rows written since the frame began all entry rows |
| Events.OnlyEntries | face.py:133-166 | a stretch of rows with as many entry ids as rows holds entry rows only |
| Events.GrowthIsEntries | face.py:122-139 | a log that grew by one row per newly handed-out id grew by entry rows only |
| Tracker.RegisterKeepsInvariant | face.py:122-136 | registering the next id keeps the store dense, keeps the entry ids 1..n in order with n + 1 appended, and keeps every row's id registered |
| Tracker.FaceTracker.constructor | face.py:61-64 | the run starts with an empty store and presence table and both counters at zero |
| Tracker.FaceTracker.FindMatch | face.py:115-119 | the loop with `break` returns the least id whose stored embedding is close, and None exactly when no stored embedding is close |
| Tracker.FaceTracker.Register | face.py:122-136 | the counter grows by one, the new id was not a key and is the only key added, exactly one entry row is written with the crop-or-frame image, presence is untouched, and a self-close embedding is found under the new id afterwards |
| Tracker.FaceTracker.MatchOrRegister | face.py:114-139 | on a match, store, counter and log are unchanged; otherwise the counter grows by one, the new id was not a key, it is the only key added, and exactly one entry row is written with the crop-or-frame image; a self-close embedding is found under the returned id afterwards |
| Tracker.FaceTracker.MarkSeen | face.py:147 | the id's last-seen frame becomes the current frame; a new key goes last in the dictionary order and a known key keeps its place |
| Tracker.FaceTracker.ObserveFace | face.py:106-148 | one face is clamped, matched or registered exactly as `MatchOne` says, marked seen, and writes an entry row with the image of its clamped box only when it got a new id |
| Tracker.FaceTracker.ObserveNext | face.py:106-148 | handling one more face extends the state reached by the earlier faces of the frame by that face |
| Tracker.FaceTracker.ProcessDetections | face.py:103-148 | the frame's ids, store and counter are those of `MatchAll`; the presence table and its order are the `Touch` and `Arrivals` updates; the log is extended by one entry row per new identity, and by nothing else |
| Tracker.FaceTracker.CollectExits | face.py:151-155 | the first exit loop returns exactly the stale ids, in dictionary order, and changes nothing |
| Tracker.FaceTracker.RecordExit | face.py:157-170 | one exit row with the whole frame is written and the id is deleted from the presence table |
| Tracker.FaceTracker.RemoveExited | face.py:157-170 | each collected id gets exactly one exit row, in order, and is deleted; the other entries keep their last-seen frames |
| Tracker.FaceTracker.DetectExits | face.py:150-170 | exit detection collects the stale ids, writes their exit rows and deletes them; store, counters and the other entries are unchanged |
| Tracker.FaceTracker.ProcessFrame | face.py:91-170 | the counter goes up by one. A frame that is not searched changes nothing else. On a searched frame: ids and store are as `MatchAll` gives them; observed ids are present at the current frame; an id exits iff it was stale, and no id exits twice; exited ids are gone; the log grows by one entry row per new identity followed by exactly the exit rows |

## Left out

- Video capture is not modelled: opening the source, reading frames, the open failure and the end-of-stream break are device I/O. Each frame arrives as the parameters of `ProcessFrame`: its width, its height and the detector's faces.
- The insightface detector and embedder are not modelled. Their output is an input sequence of `Detection(embedding, bbox)`, with the box already cast to integers.
- The Euclidean distance and the 0.6 threshold are floating point. They are the abstract `close` relation.
- Image files are not written. Each event records which image would be saved: a crop region or the whole frame.
- The SQLite table is modelled only as the appended rows (`log`). Row ids, timestamps, image paths and commits are left out.
- `logging` and `print` output are not modelled.
- Reading and writing `config.json` and creating the output folders are not modelled. The settings are constructor parameters, and only their defaults appear, as constants.
- The `KeyboardInterrupt` handler and the `finally` release of camera and database are not modelled. They are teardown of I/O.
- The numpy slice that cuts the crop out of the frame is not modelled. Only the integer test that decides between crop and whole frame is.
- Tracker.FaceTracker.ProcessDetections: states the number, kind and ids of the new entry rows (through `Valid`, they carry the new ids in order), but not their images. `ObserveFace` states the image of each row as it is written.
- Tracker.FaceTracker.ProcessFrame: on a searched frame, states that the log grows by one entry row per new identity followed by the exit rows, and, through `Valid`, the ids of all entry rows, but not the images of the frame's new entry rows.
