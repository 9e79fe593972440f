/**
  `encoder_buffer_callback` of input_raspicam.c: the encoder delivers a frame in fragments,
  and the mutex of the frame slot is taken with the first fragment and given back with the
  last one.
 */
module Fragments {
  import opened Bits

  /** One call: the bytes in the buffer header, and whether a frame-end flag is set. */
  datatype Call = Call(data: seq<byte>, end: bool)

  // What the calls mean

  /** The fragments since the last end flag, put together. */
  function Pending(calls: seq<Call>): seq<byte> {
    if calls == [] then [] else
      var n := |calls| - 1;
      if calls[n].end then [] else Pending(calls[..n]) + calls[n].data
  }

  /** The frames that the calls complete. */
  function Frames(calls: seq<Call>): seq<seq<byte>> {
    if calls == [] then [] else
      var n := |calls| - 1;
      if calls[n].end then Frames(calls[..n]) + [Pending(calls[..n]) + calls[n].data] else Frames(calls[..n])
  }

  /** The end of a frame without any byte. */
  ghost predicate EmptyFrameAt(calls: seq<Call>, i: nat) {
    i < |calls| && calls[i].end && calls[i].data == [] && Pending(calls[..i]) == []
  }

  ghost predicate NoEmptyFrame(calls: seq<Call>) {
    forall i: nat :: !EmptyFrameAt(calls, i)
  }

  /** Every frame fits into the slot. */
  ghost predicate FitAll(calls: seq<Call>, capacity: nat) {
    forall i :: 0 <= i < |calls| ==> |Pending(calls[..i])| + |calls[i].data| <= capacity
  }

  lemma NoEmptyFrameStep(calls: seq<Call>, c: Call)
    ensures NoEmptyFrame(calls + [c])
       <==> NoEmptyFrame(calls) && !(c.end && c.data == [] && Pending(calls) == [])
  {
    var all, n := calls + [c], |calls|;
    assert all[..n] == calls;
    assert forall i: nat :: i < n ==> all[..i] == calls[..i];
    assert forall i: nat :: i < n ==> (EmptyFrameAt(all, i) <==> EmptyFrameAt(calls, i));
    assert EmptyFrameAt(all, n) <==> c.end && c.data == [] && Pending(calls) == [];
    if NoEmptyFrame(all) {
      forall i: nat ensures !EmptyFrameAt(calls, i) {
        assert !EmptyFrameAt(all, i);
      }
    }
    if NoEmptyFrame(calls) && !(c.end && c.data == [] && Pending(calls) == []) {
      forall i: nat ensures !EmptyFrameAt(all, i) {
        assert !EmptyFrameAt(calls, i);
      }
    }
  }

  /** What the calls leave behind: the bytes in the slot, the frames broadcast, and misuse of the mutex. */
  ghost predicate Explains(calls: seq<Call>, held: seq<byte>, published: seq<seq<byte>>, misused: bool, capacity: nat) {
    && FitAll(calls, capacity)
    && held == Pending(calls) && published == Frames(calls)
    && (misused <==> !NoEmptyFrame(calls))
  }

  lemma ExplainsNext(calls: seq<Call>, c: Call, held: seq<byte>, published: seq<seq<byte>>, misused: bool, capacity: nat)
    requires Explains(calls, held, published, misused, capacity) && |Pending(calls)| + |c.data| <= capacity
    ensures held == Pending(calls)
    ensures if c.end then Explains(calls + [c], [], published + [held + c.data], misused || held + c.data == [], capacity)
            else Explains(calls + [c], held + c.data, published, misused, capacity)
  {
    NoEmptyFrameStep(calls, c);
    StepFacts(calls, c, capacity);
    hide NoEmptyFrame, FitAll, Pending, Frames;
  }

  class Assembler {
    const buf: array<byte>
    var offset: nat
    var size: nat
    var locked: bool
    /** Set when the mutex is unlocked without being held, or locked while held. */
    var misused: bool
    /** The frames broadcast so far. */
    var published: seq<seq<byte>>
    ghost var calls: seq<Call>

    /** The fields are determined by the calls made. */
    ghost predicate Valid()
      reads this, buf
    {
      && offset <= buf.Length && locked == (offset > 0)
      && Explains(calls, buf[..offset], published, misused, buf.Length)
    }

    constructor (capacity: nat)
      ensures Valid() && calls == [] && buf.Length == capacity && fresh(buf)
    {
      buf := new byte[capacity];
      offset, size, locked, misused, published, calls := 0, 0, false, false, [], [];
    }

    /** The memcpy of line 393. */
    method CopyIn(data: seq<byte>)
      requires offset + |data| <= buf.Length
      modifies buf
      ensures buf[..offset + |data|] == old(buf[..offset]) + data
    {
      forall k | 0 <= k < |data| {
        buf[offset + k] := data[k];
      }
    }

    /** Lines 382-397. */
    method Store(data: seq<byte>)
      requires offset + |data| <= buf.Length && locked == (offset > 0)
      modifies this`offset, this`locked, this`misused, buf
      ensures offset == old(offset) + |data| && buf[..offset] == old(buf[..offset]) + data
      ensures locked == (offset > 0) && misused == old(misused)
    {
      if |data| > 0 {
        if offset == 0 {
          misused := misused || locked;
          locked := true;
        }
        CopyIn(data);
        offset := offset + |data|;
      }
    }

    /** Lines 400-419. */
    method EndFrame()
      requires offset <= buf.Length && locked == (offset > 0)
      modifies this`offset, this`size, this`published, this`locked, this`misused
      ensures size == old(offset) && published == old(published) + [buf[..size]]
      ensures offset == 0 && !locked
      ensures misused == (old(misused) || old(offset) == 0)
    {
      size := offset;
      published := published + [buf[..size]];
      offset := 0;
      misused := misused || !locked;
      locked := false;
    }

    method Callback(c: Call)
      requires Valid() && |Pending(calls)| + |c.data| <= buf.Length
      modifies this, buf
      ensures Valid() && calls == old(calls) + [c]
      ensures c.end ==> size == |old(Pending(calls))| + |c.data|
    {
      ExplainsNext(calls, c, buf[..offset], published, misused, buf.Length);
      hide Explains, Pending;
      Store(c.data);
      if c.end {
        EndFrame();
      }
      calls := calls + [c];
    }
  }

  lemma StepFacts(calls: seq<Call>, c: Call, capacity: nat)
    requires FitAll(calls, capacity) && |Pending(calls)| + |c.data| <= capacity
    ensures FitAll(calls + [c], capacity)
    ensures Pending(calls + [c]) == if c.end then [] else Pending(calls) + c.data
    ensures Frames(calls + [c]) == if c.end then Frames(calls) + [Pending(calls) + c.data] else Frames(calls)
  {
    var all := calls + [c];
    assert all[..|calls|] == calls;
    assert forall i :: 0 <= i < |calls| ==> all[..i] == calls[..i];
  }

  ghost predicate NoneEmpty(frames: seq<seq<byte>>) {
    forall k :: 0 <= k < |frames| ==> frames[k] != []
  }

  lemma NoneEmptyMore(frames: seq<seq<byte>>, last: seq<byte>)
    ensures NoneEmpty(frames + [last]) <==> NoneEmpty(frames) && last != []
  {
    var all := frames + [last];
    assert all[|frames|] == last;
    assert forall k :: 0 <= k < |frames| ==> all[k] == frames[k];
  }

  /** No frame ends without a byte exactly if no complete frame is empty. */
  lemma {:induction false} NoEmptyFrameIff(calls: seq<Call>)
    ensures NoEmptyFrame(calls) <==> NoneEmpty(Frames(calls))
  {
    if calls != [] {
      var n := |calls| - 1;
      NoEmptyFrameIff(calls[..n]);
      NoEmptyFrameStep(calls[..n], calls[n]);
      assert calls == calls[..n] + [calls[n]];
      hide NoEmptyFrame, Pending;
      var before := Frames(calls[..n]);
      if calls[n].end {
        var last := Pending(calls[..n]) + calls[n].data;
        assert last == [] <==> Pending(calls[..n]) == [] && calls[n].data == [];
        NoneEmptyMore(before, last);
      }
    }
  }

  lemma {:induction false} FramesFit(calls: seq<Call>, capacity: nat)
    requires FitAll(calls, capacity)
    ensures forall k :: 0 <= k < |Frames(calls)| ==> |Frames(calls)[k]| <= capacity
  {
    if calls != [] {
      var n := |calls| - 1;
      assert forall i :: 0 <= i < n ==> calls[..n][..i] == calls[..i];
      FramesFit(calls[..n], capacity);
      assert |Pending(calls[..n])| + |calls[n].data| <= capacity;
      hide Pending, FitAll;
    }
  }

  /**
    Over any run of calls whose frames fit the slot: between two calls the mutex is held
    exactly while bytes of a frame are pending, the published frames are the fragments
    between two end flags put together, and the mutex is never misused exactly when no
    frame ends without a byte.
   */
  method RunCalls(a: Assembler, calls: seq<Call>)
    requires a.Valid() && a.calls == [] && FitAll(calls, a.buf.Length)
    modifies a, a.buf
    ensures a.Valid() && a.calls == calls
    ensures a.locked <==> Pending(calls) != []
    ensures a.published == Frames(calls)
    ensures a.misused <==> !NoEmptyFrame(calls)
  {
    var i := 0;
    assert calls[..0] == [];
    while i < |calls|
      invariant i <= |calls| && a.Valid() && a.calls == calls[..i]
    {
      a.Callback(calls[i]);
      i := i + 1;
    }
    assert calls[..i] == calls;
  }

  function Gather(calls: seq<Call>): seq<byte> {
    if calls == [] then [] else calls[0].data + Gather(calls[1..])
  }

  lemma {:induction false} GatherAppend(calls: seq<Call>, c: Call)
    ensures Gather(calls + [c]) == Gather(calls) + c.data
  {
    if calls == [] {
      assert [c][1..] == [];
    } else {
      GatherAppend(calls[1..], c);
      assert (calls + [c])[1..] == calls[1..] + [c];
    }
  }

  /** A frame sent in fragments behind a complete frame is published in one piece. */
  lemma {:induction false} FragmentsOfOneFrame(before: seq<Call>, parts: seq<Call>)
    requires Pending(before) == [] && forall i :: 0 <= i < |parts| ==> !parts[i].end
    ensures Pending(before + parts) == Gather(parts)
    ensures Frames(before + parts) == Frames(before)
    decreases |parts|
  {
    if parts == [] {
      assert before + parts == before;
    } else {
      var n := |parts| - 1;
      FragmentsOfOneFrame(before, parts[..n]);
      GatherAppend(parts[..n], parts[n]);
      assert parts == parts[..n] + [parts[n]];
      assert (before + parts)[..|before| + n] == before + parts[..n];
    }
  }

  lemma OneFrame(before: seq<Call>, parts: seq<Call>, last: Call)
    requires Pending(before) == [] && last.end && forall i :: 0 <= i < |parts| ==> !parts[i].end
    ensures Frames(before + parts + [last]) == Frames(before) + [Gather(parts + [last])]
    ensures Pending(before + parts + [last]) == []
  {
    FragmentsOfOneFrame(before, parts);
    GatherAppend(parts, last);
    assert (before + parts + [last])[..|before + parts|] == before + parts;
  }
}
