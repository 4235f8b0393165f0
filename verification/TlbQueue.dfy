/**
  The FIFO-facing code of opensbi/lib/sbi/sbi_tlb.c on the ring buffer itself,
  without interference: what one call does to the queue. The protocol model in
  `Shootdown` takes the same effects one lock-protected operation at a time.
 */
module TlbQueue {
  import opened Fifo
  import opened Tlb

  /** tlb_update's queueing for one target: merge, or append unless the queue is full. */
  method QueueRequest(ring: Ring<Info>, req: Info) returns (queued: bool)
    requires ring.Valid()
    modifies ring, ring.queue
    ensures ring.Valid()
    ensures var (merged, verdict) := InplaceUpdated(old(ring.Contents()), req, UpdateCallback);
            && (verdict != Unchanged ==> queued && ring.Contents() == merged)
            && (verdict == Unchanged ==>
                  && (queued <==> |old(ring.Contents())| < ring.queue.Length)
                  && ring.Contents() == if queued then old(ring.Contents()) + [req] else old(ring.Contents()))
  {
    ghost var before := ring.Contents();
    ghost var at := InplaceUpdatedChangesOne(before, req, UpdateCallback);
    var verdict := ring.InplaceUpdate(req, UpdateCallback);
    if verdict != Unchanged {
      return true;
    }
    queued := ring.Enqueue(req);
  }

  lemma MoveAcross(done: seq<Info>, entry: Info, rest: seq<Info>)
    ensures done + ([entry] + rest) == (done + [entry]) + rest
  {
  }

  /** tlb_process: take everything off the queue, oldest first. */
  method Process(ring: Ring<Info>, blank: Info) returns (flushed: seq<Info>)
    requires ring.Valid()
    modifies ring
    ensures ring.Valid() && ring.Contents() == []
    ensures flushed == old(ring.Contents())
  {
    flushed := [];
    var more := true;
    while more
      invariant ring.Valid()
      invariant flushed + ring.Contents() == old(ring.Contents())
      invariant !more ==> ring.Contents() == []
      decreases more, ring.avail
    {
      var entry;
      more, entry := ring.Dequeue(blank);
      if more {
        MoveAcross(flushed, entry, ring.Contents());
        flushed := flushed + [entry];
      }
    }
  }

  /** tlb_process_count with the count the source always passes: at most two entries, oldest first. */
  method ProcessCount(ring: Ring<Info>, blank: Info) returns (flushed: seq<Info>)
    requires ring.Valid()
    modifies ring
    ensures ring.Valid()
    ensures flushed + ring.Contents() == old(ring.Contents())
    ensures |flushed| == if |old(ring.Contents())| < 2 then |old(ring.Contents())| else 2
  {
    flushed := [];
    var count, more := 0, true;
    while more
      invariant ring.Valid()
      invariant flushed + ring.Contents() == old(ring.Contents())
      invariant count == |flushed| <= 2
      invariant count == 2 ==> !more
      invariant !more && count < 2 ==> ring.Contents() == []
      decreases more, ring.avail
    {
      var entry;
      more, entry := ring.Dequeue(blank);
      if more {
        MoveAcross(flushed, entry, ring.Contents());
        flushed := flushed + [entry];
        count := count + 1;
        if count > 1 {
          more := false;
        }
      }
    }
  }
}
