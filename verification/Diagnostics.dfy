/** The ring of the last sixteen diagnostic events, against an unbounded log. */
module Diagnostics {
  import opened Common
  import opened Arithmetic

  const CAPACITY := 16
  const COMPONENT_LEN := 16
  const EVENT_LEN := 24
  const DETAIL_LEN := 64
  const MAX_LIMIT := 8

  datatype Event = Event(seqNo: uint32, uptimeMs: nat, freeHeap: nat, minimumFreeHeap: nat,
                         component: string, event: string, detail: string)

  const NO_EVENT := Event(0, 0, 0, 0, "", "", "")

  // `copy_text`: as much of a C string as a buffer of `size` characters holds.
  function CopyText(src: Option<string>, size: nat): (r: string)
    requires size > 0
    ensures |r| < size && '\0' !in r
    ensures src.None? ==> r == ""
    ensures src.Some? ==> r <= CString(src.value) && (r == CString(src.value) || |r| == size - 1)
  {
    match src
    case None => ""
    case Some(s) =>
      var c := CString(s);
      var r := c[..Min(|c|, size - 1)];
      assert forall x :: x in r ==> x in c;
      r
  }

  function MakeEvent(number: nat, uptimeMs: nat, freeHeap: nat, minimumFreeHeap: nat,
                     component: Option<string>, event: Option<string>, detail: Option<string>): Event {
    Event(number % 0x1_0000_0000, uptimeMs, freeHeap, minimumFreeHeap,
          CopyText(component, COMPONENT_LEN), CopyText(event, EVENT_LEN), CopyText(detail, DETAIL_LEN))
  }

  datatype Snapshot = Snapshot(capacity: nat, count: uint32, overwritten: uint32, nextSeq: uint32, events: seq<Event>)

  // The last `n` entries of the log.
  function Last(log: seq<Event>, n: nat): seq<Event>
    requires n <= |log|
  {
    log[|log| - n..]
  }

  function SnapshotSpec(log: seq<Event>): Snapshot {
    var count := Min(|log|, CAPACITY);
    Snapshot(CAPACITY, count, (|log| - count) % 0x1_0000_0000, (|log| + 1) % 0x1_0000_0000, Last(log, count))
  }

  // Entry `i` of the log carries sequence number `i + 1`.
  ghost predicate Numbered(log: seq<Event>) {
    forall i :: 0 <= i < |log| ==> log[i].seqNo == (i + 1) % 0x1_0000_0000
  }

  lemma CountersOf(log: seq<Event>)
    ensures var s := SnapshotSpec(log);
            s.count == Min(|log|, CAPACITY) <= |log| && s.events == Last(log, s.count) && |s.events| == s.count
  {
  }

  // What the counters make of a snapshot's header.
  lemma CountersShown(log: seq<Event>, count: nat, nextIndex: nat, nextSeq: uint32, overwritten: uint32)
    requires Counters(|log|, count, nextIndex, nextSeq, overwritten)
    ensures count <= |log| && count <= CAPACITY && nextIndex < CAPACITY && |Last(log, count)| == count
    ensures SnapshotSpec(log) == Snapshot(CAPACITY, count, overwritten, nextSeq, Last(log, count))
  {
  }

  // The cell the snapshot loop reads for its `i`-th event holds that event.
  lemma RingRead(ring: seq<Event>, log: seq<Event>, count: nat, nextIndex: nat, nextSeq: uint32,
                 overwritten: uint32, i: nat)
    requires Counters(|log|, count, nextIndex, nextSeq, overwritten) && i < count
    requires |ring| == CAPACITY && count <= |log| && Holds(ring, log, count)
    ensures ring[((nextIndex + CAPACITY - count) % CAPACITY + i) % CAPACITY] == Last(log, count)[i]
    ensures Last(log, count)[..i] + [Last(log, count)[i]] == Last(log, count)[..i + 1]
  {
    RingIndex(|log|, count, i);
    assert ring[(|log| - count + i) % CAPACITY] == log[|log| - count + i];
  }

  // Two log positions less than a ring apart never share a cell.
  lemma CellsDiffer(i: nat, j: nat)
    requires i < j < i + CAPACITY
    ensures i % CAPACITY != j % CAPACITY
  {
  }

  // The counters after `n` events.
  ghost predicate Counters(n: nat, count: nat, nextIndex: nat, nextSeq: uint32, overwritten: uint32) {
    && count == Min(n, CAPACITY) && nextIndex == n % CAPACITY
    && nextSeq == (n + 1) % 0x1_0000_0000 && overwritten == (n - count) % 0x1_0000_0000
  }

  lemma CountersKnown(n: nat, count: nat, nextIndex: nat, nextSeq: uint32, overwritten: uint32)
    requires Counters(n, count, nextIndex, nextSeq, overwritten)
    ensures nextIndex == n % CAPACITY < CAPACITY && count == Min(n, CAPACITY) && nextSeq == (n + 1) % 0x1_0000_0000
    ensures Min(n + 1, CAPACITY) == if count < CAPACITY then count + 1 else count
  {
  }

  lemma CountersNext(n: nat, count: nat, nextIndex: nat, nextSeq: uint32, overwritten: uint32)
    requires Counters(n, count, nextIndex, nextSeq, overwritten)
    ensures Counters(n + 1, if count < CAPACITY then count + 1 else count, (nextIndex + 1) % CAPACITY,
                     (nextSeq + 1) % 0x1_0000_0000,
                     if count < CAPACITY then overwritten else (overwritten + 1) % 0x1_0000_0000)
  {
    AddModulo(n + 1, 1, 0x1_0000_0000);
    AddModulo(n - count, 1, 0x1_0000_0000);
    AddModulo(n, 1, CAPACITY);
  }

  lemma NumberedNext(log: seq<Event>, item: Event)
    requires Numbered(log) && item.seqNo == (|log| + 1) % 0x1_0000_0000
    ensures Numbered(log + [item])
  {
  }

  // The ring's cells hold the last `count` entries.
  ghost predicate Holds(ring: seq<Event>, log: seq<Event>, count: nat)
    requires |ring| == CAPACITY && count <= |log|
  {
    forall i :: |log| - count <= i < |log| ==> ring[i % CAPACITY] == log[i]
  }

  lemma HoldsNext(ring: seq<Event>, log: seq<Event>, item: Event)
    requires |ring| == CAPACITY && Holds(ring, log, Min(|log|, CAPACITY))
    ensures Holds(ring[|log| % CAPACITY := item], log + [item], Min(|log| + 1, CAPACITY))
  {
    var n := |log|;
    var next := ring[n % CAPACITY := item];
    forall i | n + 1 - Min(n + 1, CAPACITY) <= i < n + 1 ensures next[i % CAPACITY] == (log + [item])[i] {
      if i < n {
        CellsDiffer(i, n);
        assert ring[i % CAPACITY] == log[i];
      }
    }
  }

  class DiagLog {
    const events: array<Event>
    var count: nat
    var nextIndex: nat
    var nextSeq: uint32
    var overwritten: uint32
    ghost var log: seq<Event>

    ghost predicate Valid()
      reads this, events
    {
      && events.Length == CAPACITY && Numbered(log)
      && Counters(|log|, count, nextIndex, nextSeq, overwritten)
      && Holds(events[..], log, count)
    }

    constructor ()
      ensures Valid() && fresh(events) && log == []
    {
      events := new Event[CAPACITY](_ => NO_EVENT);
      count, nextIndex, nextSeq, overwritten, log := 0, 0, 1, 0, [];
    }

    method RecordEvent(uptimeMs: nat, freeHeap: nat, minimumFreeHeap: nat,
                       component: Option<string>, event: Option<string>, detail: Option<string>)
      requires Valid()
      modifies this, events
      ensures Valid()
      ensures log == old(log) + [MakeEvent(|old(log)| + 1, uptimeMs, freeHeap, minimumFreeHeap,
                                           component, event, detail)]
      // The entry holds the next number, the readings and the three texts, each cut to its own buffer.
      ensures var e := log[|log| - 1];
              && e.seqNo == |log| % 0x1_0000_0000 && e.uptimeMs == uptimeMs
              && e.freeHeap == freeHeap && e.minimumFreeHeap == minimumFreeHeap
              && e.component == CopyText(component, 16) && e.event == CopyText(event, 24)
              && e.detail == CopyText(detail, 64)
    {
      var item := Event(0, uptimeMs, freeHeap, minimumFreeHeap,
                        CopyText(component, COMPONENT_LEN), CopyText(event, EVENT_LEN), CopyText(detail, DETAIL_LEN));
      hide CopyText, Holds, Numbered, Counters;
      CountersKnown(|log|, count, nextIndex, nextSeq, overwritten);
      CountersNext(|log|, count, nextIndex, nextSeq, overwritten);
      item := item.(seqNo := nextSeq);
      HoldsNext(events[..], log, item);
      NumberedNext(log, item);
      nextSeq := (nextSeq + 1) % 0x1_0000_0000;
      events[nextIndex] := item;
      nextIndex := (nextIndex + 1) % CAPACITY;
      if count < CAPACITY {
        count := count + 1;
      } else {
        overwritten := (overwritten + 1) % 0x1_0000_0000;
      }
      log := log + [item];
    }

    method GetEvents() returns (snapshot: Snapshot)
      requires Valid()
      ensures snapshot == SnapshotSpec(log)
    {
      hide Holds, Numbered, Counters, SnapshotSpec, Last;
      CountersShown(log, count, nextIndex, nextSeq, overwritten);
      var copied: seq<Event> := [];
      var first := (nextIndex + CAPACITY - count) % CAPACITY;
      var i := 0;
      while i < count
        invariant 0 <= i <= count && copied == Last(log, count)[..i]
      {
        var index := (first + i) % CAPACITY;
        RingRead(events[..], log, count, nextIndex, nextSeq, overwritten, i);
        copied := copied + [events[index]];
        i := i + 1;
      }
      assert Last(log, count)[..count] == Last(log, count);
      snapshot := Snapshot(CAPACITY, count, overwritten, nextSeq, copied);
    }

    // `format_event_log_json`: the events it walks.
    method SelectEvents(limit: uint32) returns (walked: seq<Event>)
      requires Valid()
      ensures walked == Last(log, Min(limit, Min(8, Min(|log|, 16))))
    {
      hide Holds, Numbered, Counters, Last;
      var snapshot := GetEvents();
      CountersOf(log);
      var n := limit;
      if n > MAX_LIMIT {
        n := MAX_LIMIT;
      }
      if n > snapshot.count {
        n := snapshot.count;
      }
      var start := if snapshot.count > n then snapshot.count - n else 0;
      LastOfLast(log, snapshot.count, n);
      walked := Walk(snapshot.events, start);
    }
  }

  method Walk(events: seq<Event>, start: nat) returns (walked: seq<Event>)
    requires start <= |events|
    ensures walked == events[start..]
  {
    walked := [];
    var i := start;
    while i < |events|
      invariant start <= i <= |events| && walked == events[start..i]
    {
      walked := walked + [events[i]];
      i := i + 1;
    }
  }

  lemma LastOfLast(log: seq<Event>, count: nat, n: nat)
    requires n <= count <= |log|
    ensures Last(log, count)[count - n..] == Last(log, n)
  {
  }

  // The ring position the snapshot reads for its `i`-th event is that of the right log entry.
  lemma RingIndex(n: nat, count: nat, i: nat)
    requires count == Min(n, CAPACITY) && i < count
    ensures ((n % CAPACITY + CAPACITY - count) % CAPACITY + i) % CAPACITY == (n - count + i) % CAPACITY
  {
  }

  // What a snapshot shows: the last min(n, 16) of n events, oldest first, numbered without gaps up to
  // the number before `nextSeq`; shown and overwritten events add up to all that were recorded.
  lemma {:induction false} SnapshotIsRecent(log: seq<Event>)
    requires Numbered(log)
    ensures var s := SnapshotSpec(log);
            && s.capacity == 16 && |s.events| == s.count == Min(|log|, 16)
            && (s.overwritten + s.count) % 0x1_0000_0000 == |log| % 0x1_0000_0000
            && (forall k :: 0 <= k < |s.events| ==> s.events[k] == log[|log| - |s.events| + k])
            && (forall k :: 0 <= k < |s.events| ==>
                  (s.events[k].seqNo + (|s.events| - k)) % 0x1_0000_0000 == s.nextSeq)
  {
    hide Numbered, Last;
    var m := Min(|log|, CAPACITY);
    CountsAddUp(|log|, m);
    ShownEvents(log, m);
    ShownNumbers(log, m);
  }

  lemma CountsAddUp(n: nat, m: nat)
    requires m <= n
    ensures ((n - m) % 0x1_0000_0000 + m) % 0x1_0000_0000 == n % 0x1_0000_0000
  {
    AddModulo(n - m, m, 0x1_0000_0000);
  }

  lemma ShownEvents(log: seq<Event>, m: nat)
    requires m <= |log|
    ensures |Last(log, m)| == m && forall k :: 0 <= k < m ==> Last(log, m)[k] == log[|log| - m + k]
  {
  }

  lemma ShownNumbers(log: seq<Event>, m: nat)
    requires Numbered(log) && m <= |log|
    ensures forall k :: 0 <= k < m ==>
                          (Last(log, m)[k].seqNo + (m - k)) % 0x1_0000_0000 == (|log| + 1) % 0x1_0000_0000
  {
    hide Numbered;
    forall k | 0 <= k < m
      ensures (Last(log, m)[k].seqNo + (m - k)) % 0x1_0000_0000 == (|log| + 1) % 0x1_0000_0000
    {
      NumbersLeft(log, |log| - m + k);
    }
  }

  // Entry `i` of the log is numbered so that `nextSeq` follows after the entries behind it.
  lemma NumbersLeft(log: seq<Event>, i: nat)
    requires Numbered(log) && i < |log|
    ensures (log[i].seqNo + (|log| - i)) % 0x1_0000_0000 == (|log| + 1) % 0x1_0000_0000
  {
    assert log[i].seqNo == (i + 1) % 0x1_0000_0000;
    AddModulo(i + 1, |log| - i, 0x1_0000_0000);
  }
}
