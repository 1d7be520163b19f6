/**
 The rows written to the `visitors` table: one per entry or exit, with the
 identity and the image saved for it. Timestamps and file paths are not
 modelled.
 */
module Events {
  import opened Geometry

  datatype Kind = Entry | Exit

  datatype Event = Event(id: int, kind: Kind, image: Image)

  /** The ids of the entry events of `log`, in log order. */
  function EntryIds(log: seq<Event>): (r: seq<int>)
    ensures |r| <= |log|
    ensures forall id :: id in r ==> exists i :: 0 <= i < |log| && log[i] == Event(id, Entry, log[i].image)
  {
    if log == [] then []
    else EntryIds(log[..|log| - 1]) + (if log[|log| - 1].kind == Entry then [log[|log| - 1].id] else [])
  }

  /** Conversely, the id of every entry row of `log` is among its entry ids. */
  lemma {:induction false} EntryRowsListed(log: seq<Event>)
    ensures forall i :: 0 <= i < |log| && log[i].kind == Entry ==> log[i].id in EntryIds(log)
    decreases |log|
  {
    if log != [] {
      var init := log[..|log| - 1];
      EntryRowsListed(init);
      assert forall i :: 0 <= i < |init| ==> log[i] == init[i];
    }
  }

  /** The ids 1, 2, ..., n. */
  function Ids(n: nat): seq<int>
  {
    seq(n, i => i + 1)
  }

  /** The rows written for the identities found to have left, one exit per id, each with the full frame. */
  function ExitEvents(exited: seq<int>): (r: seq<Event>)
    ensures |r| == |exited|
    ensures forall k :: 0 <= k < |r| ==> r[k].id == exited[k] && r[k].kind == Exit && r[k].image == FullFrame
  {
    seq(|exited|, k requires 0 <= k < |exited| => Event(exited[k], Exit, FullFrame))
  }

  /** The exit rows of a longer prefix extend those of the shorter by one row. */
  lemma ExitEventsSnoc(log: seq<Event>, exited: seq<int>, j: nat)
    requires j < |exited|
    ensures log + ExitEvents(exited[..j]) + [Event(exited[j], Exit, FullFrame)] == log + ExitEvents(exited[..j + 1])
  {
    assert ExitEvents(exited[..j + 1]) == ExitEvents(exited[..j]) + [Event(exited[j], Exit, FullFrame)];
  }

  /** Entry ids of a concatenated log are those of each part, in order. */
  lemma {:induction false} EntryIdsAppend(a: seq<Event>, b: seq<Event>)
    ensures EntryIds(a + b) == EntryIds(a) + EntryIds(b)
    decreases |b|
  {
    if b != [] {
      var b' := b[..|b| - 1];
      assert (a + b)[..|a + b| - 1] == a + b';
      assert (a + b)[|a + b| - 1] == b[|b| - 1];
      EntryIdsAppend(a, b');
    } else {
      assert a + b == a;
    }
  }

  /** Exit rows add no entry ids. */
  lemma {:induction false} ExitsAddNoEntries(exited: seq<int>)
    ensures EntryIds(ExitEvents(exited)) == []
    decreases |exited|
  {
    if exited != [] {
      var init := exited[..|exited| - 1];
      assert ExitEvents(exited)[..|exited| - 1] == ExitEvents(init);
      ExitsAddNoEntries(init);
    }
  }

  /** Registering identity n + 1 extends the entry ids 1..n by n + 1. */
  lemma EntryAppended(log: seq<Event>, n: nat, image: Image)
    requires EntryIds(log) == Ids(n)
    ensures EntryIds(log + [Event(n + 1, Entry, image)]) == Ids(n + 1)
  {
    EntryIdsAppend(log, [Event(n + 1, Entry, image)]);
    assert EntryIds([Event(n + 1, Entry, image)]) == [n + 1];
  }

  /** Every row of `rows` is an entry row. */
  ghost predicate AllEntries(rows: seq<Event>)
  {
    forall i :: 0 <= i < |rows| ==> rows[i].kind == Entry
  }

  /** Appending an entry row, or nothing, keeps the rows written since `start` all entries. */
  lemma AllEntriesSnoc(log: seq<Event>, start: nat, log': seq<Event>, row: Event)
    requires start <= |log| && AllEntries(log[start..])
    requires row.kind == Entry && (log' == log || log' == log + [row])
    ensures start <= |log'| && AllEntries(log'[start..])
  {
    if log' != log {
      assert log'[start..] == log[start..] + [row];
    }
  }

  /** A stretch of rows holding as many entry ids as rows holds nothing but entries. */
  lemma {:induction false} OnlyEntries(rows: seq<Event>)
    requires |EntryIds(rows)| == |rows|
    ensures AllEntries(rows)
    decreases |rows|
  {
    if rows != [] {
      var init := rows[..|rows| - 1];
      OnlyEntries(init);
      assert rows == init + [rows[|rows| - 1]];
    }
  }

  /**
   A log that grew from one holding the entries of ids 1..n0 to one
   holding those of 1..n by exactly n - n0 rows grew by entry rows only.
   */
  lemma GrowthIsEntries(log0: seq<Event>, log: seq<Event>, n0: nat, n: nat)
    requires log0 <= log && n0 <= n && |log| == |log0| + n - n0
    requires EntryIds(log0) == Ids(n0) && EntryIds(log) == Ids(n)
    ensures AllEntries(log[|log0|..])
  {
    assert log == log0 + log[|log0|..];
    EntryIdsAppend(log0, log[|log0|..]);
    OnlyEntries(log[|log0|..]);
  }
}
