/**
  The lock-protected ring buffer of opensbi/lib/sbi/sbi_fifo.c.

  `Ring` keeps the source's `avail` and `tail` counters over a fixed block of
  entries. Every operation is specified on `Contents()`, the queued entries from
  the oldest to the newest. The callback of the in-place update is a function
  that gives the entry's new value together with its verdict.
 */
module Fifo {

  datatype UpdateType = Skip | Updated | Unchanged

  /** The largest value of the 16-bit counters. */
  const U16_MAX := 0xFFFF

  /** What an in-place update does to a queue: entries are offered oldest first, up to the first match. */
  function InplaceUpdated<T>(queue: seq<T>, incoming: T, callback: (T, T) -> (T, UpdateType)): (seq<T>, UpdateType)
  {
    if queue == [] then
      ([], Unchanged)
    else
      var (entry, verdict) := callback(incoming, queue[0]);
      if verdict != Unchanged then
        ([entry] + queue[1..], verdict)
      else
        var (rest, later) := InplaceUpdated(queue[1..], incoming, callback);
        ([entry] + rest, later)
  }

  /**
    A callback that leaves an entry alone when it answers `Unchanged` changes at
    most one entry of the queue: the first one it accepts.
   */
  lemma {:induction false} InplaceUpdatedChangesOne<T>(queue: seq<T>, incoming: T,
                                                       callback: (T, T) -> (T, UpdateType))
    returns (at: nat)
    requires forall entry <- queue :: callback(incoming, entry).1 == Unchanged ==> callback(incoming, entry).0 == entry
    ensures at <= |queue|
    ensures forall k :: 0 <= k < at ==> callback(incoming, queue[k]).1 == Unchanged
    ensures at == |queue| ==> InplaceUpdated(queue, incoming, callback) == (queue, Unchanged)
    ensures at < |queue| ==>
              && callback(incoming, queue[at]).1 != Unchanged
              && InplaceUpdated(queue, incoming, callback)
                 == (queue[at := callback(incoming, queue[at]).0], callback(incoming, queue[at]).1)
  {
    if queue == [] {
      at := 0;
    } else if callback(incoming, queue[0]).1 != Unchanged {
      at := 0;
      assert [callback(incoming, queue[0]).0] + queue[1..] == queue[0 := callback(incoming, queue[0]).0];
    } else {
      var rest := InplaceUpdatedChangesOne(queue[1..], incoming, callback);
      at := rest + 1;
      assert queue == [queue[0]] + queue[1..];
      forall k | 0 <= k < at
        ensures callback(incoming, queue[k]).1 == Unchanged
      {
        if k > 0 {
          assert queue[1..][k - 1] == queue[k];
        }
      }
      if at < |queue| {
        var e := callback(incoming, queue[at]).0;
        assert [queue[0]] + queue[1..][rest := e] == queue[at := e];
      }
    }
  }

  class Ring<T(0)> {
    const queue: array<T>
    var avail: nat
    var tail: nat

    ghost predicate Valid()
      reads this
    {
      && 0 < queue.Length <= U16_MAX
      && avail <= queue.Length
      && tail < queue.Length
    }

    /** The array slot of the i-th queued entry. */
    function Slot(i: nat): (slot: nat)
      requires Valid() && i <= queue.Length
      reads this
      ensures slot < queue.Length
    {
      if tail + i >= queue.Length then tail + i - queue.Length else tail + i
    }

    /** The queued entries, oldest first. */
    ghost function Contents(): (s: seq<T>)
      requires Valid()
      reads this, queue
      ensures |s| == avail
      ensures forall i :: 0 <= i < avail ==> s[i] == queue[Slot(i)]
    {
      seq(avail, i requires 0 <= i < avail && Valid() reads this, queue => queue[Slot(i)])
    }

    constructor (entries: nat, blank: T)
      requires 0 < entries <= U16_MAX
      ensures Valid() && fresh(queue)
      ensures queue.Length == entries
      ensures Contents() == []
    {
      queue := new T[entries](_ => blank);
      avail := 0;
      tail := 0;
    }

    method IsFull() returns (full: bool)
      requires Valid()
      ensures full <==> |Contents()| == queue.Length
    {
      full := avail == queue.Length;
    }

    method Enqueue(data: T) returns (ok: bool)
      requires Valid()
      modifies this, queue
      ensures Valid()
      ensures ok <==> |old(Contents())| < queue.Length
      ensures Contents() == if ok then old(Contents()) + [data] else old(Contents())
    {
      if avail == queue.Length {
        assert Contents() == old(Contents());
        return false;
      }
      var head := tail + avail;
      if head >= queue.Length {
        head := head - queue.Length;
      }
      assert forall i :: 0 <= i < avail ==> Slot(i) != head;
      queue[head] := data;
      avail := avail + 1;
      assert Contents() == old(Contents()) + [data];
      return true;
    }

    method Dequeue(blank: T) returns (ok: bool, data: T)
      requires Valid()
      modifies this
      ensures Valid()
      ensures ok <==> old(Contents()) != []
      ensures ok ==> old(Contents()) == [data] + Contents()
      ensures !ok ==> data == blank && Contents() == []
    {
      if avail == 0 {
        return false, blank;
      }
      data := queue[tail];
      avail := avail - 1;
      tail := tail + 1;
      if tail >= queue.Length {
        tail := 0;
      }
      assert forall i :: 0 <= i < avail ==> Slot(i) == old(Slot(i + 1));
      assert old(Contents()) == [data] + Contents();
      return true, data;
    }

    /** Overwrites the i-th queued entry where it lies. */
    method Store(i: nat, entry: T)
      requires Valid() && i < avail
      modifies queue
      ensures Valid()
      ensures Contents() == old(Contents())[i := entry]
    {
      var index := tail + i;
      if index >= queue.Length {
        index := index - queue.Length;
      }
      assert forall k :: 0 <= k < avail && k != i ==> Slot(k) != index;
      queue[index] := entry;
    }

    method InplaceUpdate(incoming: T, callback: (T, T) -> (T, UpdateType)) returns (ret: UpdateType)
      requires Valid()
      modifies queue
      ensures Valid()
      ensures (Contents(), ret) == InplaceUpdated(old(Contents()), incoming, callback)
    {
      ret := Unchanged;
      ghost var before, whole := Contents(), InplaceUpdated(Contents(), incoming, callback);
      ghost var done: seq<T> := [];
      var i := 0;
      assert before[0..] == before && [] + whole.0 == whole.0;
      while i < avail && ret == Unchanged
        invariant i == |done| <= avail
        invariant Contents() == done + before[i..]
        invariant ret == Unchanged ==> Resumed(done, before[i..], incoming, callback) == whole
        invariant ret != Unchanged ==> whole == (Contents(), ret)
      {
        ResumedStep(done, before[i..], incoming, callback);
        assert Contents()[i] == before[i..][0];
        var (entry, verdict) := callback(incoming, queue[Slot(i)]);
        Store(i, entry);
        ret := verdict;
        StoreAfter(done, before[i..], entry);
        assert before[i..][1..] == before[i + 1..];
        done := done + [entry];
        i := i + 1;
      }
      assert ret == Unchanged ==> before[i..] == [] && done + [] == done;
    }
  }

  /** The outcome of an in-place update that has already passed over `done`. */
  ghost function Resumed<T>(done: seq<T>, queue: seq<T>, incoming: T, callback: (T, T) -> (T, UpdateType))
    : (seq<T>, UpdateType)
  {
    var (rest, verdict) := InplaceUpdated(queue, incoming, callback);
    (done + rest, verdict)
  }

  lemma StoreAfter<T>(done: seq<T>, queue: seq<T>, entry: T)
    requires queue != []
    ensures (done + queue)[|done| := entry] == done + ([entry] + queue[1..]) == (done + [entry]) + queue[1..]
  {
  }

  lemma ResumedStep<T>(done: seq<T>, queue: seq<T>, incoming: T, callback: (T, T) -> (T, UpdateType))
    requires queue != []
    ensures var (entry, verdict) := callback(incoming, queue[0]);
            Resumed(done, queue, incoming, callback)
            == if verdict != Unchanged then (done + ([entry] + queue[1..]), verdict)
               else Resumed(done + [entry], queue[1..], incoming, callback)
  {
    var (entry, verdict) := callback(incoming, queue[0]);
    var rest := InplaceUpdated(queue[1..], incoming, callback).0;
    assert done + ([entry] + rest) == (done + [entry]) + rest;
  }
}
