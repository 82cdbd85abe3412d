/**
 When the bytes of a `BinaryOSocket` go out: what a write sends and what it only buffers, which rounds of
 the flusher thread wait, how far a flush gets, and how large the buffer is.
 */
module OutputTiming {
  import opened Arithmetic
  import opened Bytes
  import opened OutputSocket

  ghost predicate AllPossible(steps: seq<Step>) {
    forall step :: step in steps ==> step.Possible()
  }

  lemma RunOne(w: Writer, step: Step)
    requires w.Inv() && step.Possible()
    ensures Run(w, [step]) == Apply(w, step)
  {
    hide Apply, Writer.Inv;
    StepKeepsInv(w, step);
    assert [step][1..] == [];
  }

  lemma RunMore(w: Writer, step: Step, steps: seq<Step>)
    requires w.Inv() && step.Possible() && AllPossible(steps)
    ensures Apply(w, step).Inv() && Run(w, [step] + steps) == Run(Apply(w, step), steps)
  {
    hide Apply, Writer.Inv;
    StepKeepsInv(w, step);
    assert ([step] + steps)[1..] == steps;
  }

  // --- how far a flush gets ----------------------------------------------------------------------

  /** How many bytes the answers before the first failure can take; one send takes at most INT_MAX. */
  function Capacity(script: seq<Response>): nat {
    if script == [] || script[0].Failed? then 0
    else (if script[0].n > 0x7fff_ffff then 0x7fff_ffff else script[0].n) + Capacity(script[1..])
  }

  /** `Min(n, Capacity(script))` bytes of `n` go out. */
  function Reach(n: nat, script: seq<Response>): nat {
    if n <= Capacity(script) then n else Capacity(script)
  }

  lemma {:induction false} DrainReaches(pending: seq<byte>, script: seq<Response>)
    ensures var d := Drain(pending, script);
      d.out == pending[..Reach(|pending|, script)] && (d.ok <==> |pending| <= Capacity(script))
    decreases |script|
  {
    hide Drain, Capacity;
    CapacityUnfold(script);
    if pending == [] {
      DrainNothing(Drained([], [], true, script), script);
    } else {
      DrainStep(pending, script);
      if script != [] && script[0].Sent? {
        var k := Min(script[0].n, Min(|pending|, INT_MAX));
        DrainReaches(pending[k..], script[1..]);
        PrefixTwice(pending, k, Reach(|pending| - k, script[1..]));
      }
    }
  }

  lemma CapacityUnfold(script: seq<Response>)
    ensures Capacity(script) ==
      if script == [] || script[0].Failed? then 0
      else (if script[0].n > 0x7fff_ffff then 0x7fff_ffff else script[0].n) + Capacity(script[1..])
  {
  }

  lemma PrefixTwice(s: seq<byte>, k: nat, m: nat)
    requires k + m <= |s|
    ensures s[..k] + s[k..][..m] == s[..k + m]
  {
  }

  /** A flush of a good stream sends the front of the buffer, as far as the answers go, and fails if they end. */
  lemma FlushReaches(w: Writer)
    requires w.Inv() && w.state.IsGood()
    ensures var f, n := w.Flush(), Reach(w.current, w.script);
      && f.sent == w.sent + w.buffer[..n] && f.current == w.current - n
      && f.state == (if w.current <= Capacity(w.script) then w.state else w.state.(bad := true))
      && f.buffer == w.buffer && f.accepted == w.accepted && f.stopped == w.stopped && f.skipABeat == w.skipABeat
  {
    var pending := w.buffer[..w.current];
    DrainReaches(pending, w.script);
    hide Drain, Capacity;
    var n := Reach(w.current, w.script);
    assert pending[..n] == w.buffer[..n];
    if w.socket.None? {
      assert w.sent + w.buffer[..0] == w.sent;
    }
  }

  // --- the beat after a write --------------------------------------------------------------------

  /** A write that succeeds asks for a round to be skipped. */
  lemma {:induction false} WriteAsksForABeat(w: Writer, data: seq<byte>)
    requires w.Inv() && w.socket.Some?
    ensures var (v, ok) := w.WriteAll(data);
      (ok ==> v.skipABeat) && v.stopped == w.stopped
    decreases |data|
  {
    if data == [] {
      WriteNothing(w);
    } else {
      FirstChunk(w, data);
      ChunkKeepsFlags(w, data);
      WriteAllOnce(w, data);
      hide Writer.NextChunk, Writer.WriteAll, Writer.Inv;
      var (c, size) := w.NextChunk(data);
      if size > 0 {
        WriteAsksForABeat(c, data[size..]);
      }
    }
  }

  lemma ChunkKeepsFlags(w: Writer, data: seq<byte>)
    requires w.Inv() && w.socket.Some? && data != []
    ensures w.NextChunk(data).0.stopped == w.stopped
  {
    hide Drain;
  }

  /** Two writers that differ in nothing but the flag that makes the flusher wait. */
  ghost predicate OnlyTheFlagDiffers(v: Writer, u: Writer) {
    && u.socket == v.socket && u.requested == v.requested && u.buffer == v.buffer && u.current == v.current
    && u.state == v.state && u.stopped == v.stopped && u.script == v.script
    && u.sent == v.sent && u.accepted == v.accepted
  }

  lemma BeatsAfter(v: Writer)
    requires v.Inv() && v.skipABeat && !v.stopped
    ensures var u := v.Beat(true);
      OnlyTheFlagDiffers(v, u) && u.Inv() && OnlyTheFlagDiffers(v.Flush(), u.Beat(true))
  {
    hide Drain;
  }

  /**
   From any state: after a write that succeeded, the next round of the flusher sends nothing and changes
   nothing else.  The round after it sends what is in the buffer as far as the socket takes it: everything,
   if the stream was good and no send fails.
   */
  lemma BeatAfterWriteWaits(w: Writer, data: seq<byte>)
    requires w.Inv() && w.Write(data).1
    ensures var v := Run(w, [WriteStep(data)]);
      && v.Inv()
      && OnlyTheFlagDiffers(v, Run(w, [WriteStep(data), BeatStep(true)]))
      && var t := Run(w, [WriteStep(data), BeatStep(true), BeatStep(true)]);
         && (w.stopped || !v.state.IsGood() ==> OnlyTheFlagDiffers(v, t))
         && (!w.stopped && v.state.IsGood() ==>
               && t.sent == v.sent + v.buffer[..Reach(v.current, v.script)]
               && (t.state.IsGood() <==> v.current <= Capacity(v.script))
               && (t.state.IsGood() ==> t.sent == w.accepted + data && t.current == 0))
  {
    hide Writer.WriteAll, Writer.Flush, Writer.Beat, Capacity;
    var v := w.Write(data).0;
    WriteUnfold(w, data);
    assert w.socket.Some? by {
      hide *;
      SucceedsWithSocket(w, data);
    }
    WriteAsksForABeat(w, data);
    WriteAllKeepsInv(w, data);
    var beat := BeatStep(true);
    RunOne(w, WriteStep(data));
    RunMore(w, WriteStep(data), [beat]);
    RunMore(w, WriteStep(data), [beat, beat]);
    assert [WriteStep(data)] + [beat] == [WriteStep(data), beat];
    assert [WriteStep(data)] + [beat, beat] == [WriteStep(data), beat, beat];
    TwoRounds(v);
    if !w.stopped && v.state.IsGood() {
      FlushReaches(v);
      FlushKeepsInv(v);
    }
  }

  lemma SucceedsWithSocket(w: Writer, data: seq<byte>)
    requires w.Inv() && w.Write(data).1
    ensures w.socket.Some?
  {
    hide Writer.WriteAll;
  }

  lemma TwoRounds(v: Writer)
    requires v.Inv() && v.skipABeat
    ensures OnlyTheFlagDiffers(v, Run(v, [BeatStep(true)]))
    ensures OnlyTheFlagDiffers(if v.stopped then v else v.Flush(), Run(v, [BeatStep(true), BeatStep(true)]))
    ensures !v.state.IsGood() ==> v.Flush() == v
  {
    RunOne(v, BeatStep(true));
    RunMore(v, BeatStep(true), [BeatStep(true)]);
    hide Writer.Flush, Run;
    assert [BeatStep(true)] + [BeatStep(true)] == [BeatStep(true), BeatStep(true)];
    RunOne(v.Beat(true), BeatStep(true));
    if !v.stopped {
      BeatsAfter(v);
    }
    if !v.state.IsGood() {
      FlushOfBadStream(v);
    }
  }

  lemma FlushOfBadStream(v: Writer)
    requires v.current <= |v.buffer| && !v.state.IsGood()
    ensures v.Flush() == v
  {
  }

  /** Data that fits behind what is buffered is only buffered. */
  lemma FittingWriteSendsNothing(w: Writer, data: seq<byte>)
    requires w.Inv() && w.state.IsGood() && w.socket.Some? && w.current + |data| <= |w.buffer|
    ensures w.Write(data).1
    ensures var v := Run(w, [WriteStep(data)]);
      && v.Inv() && v.sent == w.sent && v.script == w.script && v.state == w.state
      && v.current == w.current + |data| && v.buffer[..v.current] == w.buffer[..w.current] + data
      && v.accepted == w.accepted + data
  {
    RunOne(w, WriteStep(data));
    StepKeepsInv(w, WriteStep(data));
    hide Run, Writer.Flush;
    if data == [] {
      WriteNothing(w);
      assert w.buffer[..w.current] + [] == w.buffer[..w.current] && w.accepted + [] == w.accepted;
    } else {
      WriteAllUnfold(w, data);
      var c := w.Copy(data);
      assert data[..|data|] == data && data[|data|..] == [];
      WriteNothing(c);
    }
  }

  /** A new stream holds nothing, and two rounds after a write that fits have sent it if the socket takes it. */
  lemma NewStream(size: nat, requested: nat, script: seq<Response>, sent: seq<byte>, data: seq<byte>)
    requires size > 0 && |data| <= size && (requested > 0 ==> |data| <= requested) && |data| <= Capacity(script)
    ensures var w := Started(Some(size), requested, script, sent);
      && w.Inv() && w.state.IsGood() && w.sent == sent && w.current == 0
      && var t := Run(w, [WriteStep(data), BeatStep(true), BeatStep(true)]);
         t.state.IsGood() && t.sent == sent + data && t.current == 0
  {
    var w := Started(Some(size), requested, script, sent);
    assert w.buffer[..0] == [] && sent + [] == sent;
    FittingWriteSendsNothing(w, data);
    BeatAfterWriteWaits(w, data);
    hide Run, Capacity;
  }

  /** Rounds that find the lock taken do nothing, and no round does anything once the thread is stopped. */
  lemma IdleBeats(w: Writer, locked: bool)
    requires w.Inv()
    ensures Run(w, [BeatStep(false)]) == w
    ensures Run(w, [CloseStep, BeatStep(locked)]) == Run(w, [CloseStep])
  {
    hide Writer.Flush;
    StepKeepsInv(w, CloseStep);
    RunOne(w, BeatStep(false));
    RunOne(w, CloseStep);
    RunMore(w, CloseStep, [BeatStep(locked)]);
    assert [CloseStep] + [BeatStep(locked)] == [CloseStep, BeatStep(locked)];
    RunOne(w.Close(), BeatStep(locked));
    ClosedIsStopped(w);
  }

  lemma ClosedIsStopped(w: Writer)
    requires w.Inv()
    ensures w.Close().stopped
  {
    hide Drain;
  }

  // --- writes without a socket -------------------------------------------------------------------

  /** Without a socket a write sets the bad bit and nothing else. */
  lemma WriteWithoutSocket(w: Writer, data: seq<byte>)
    requires w.Inv() && w.socket.None?
    ensures !w.Write(data).1 && Run(w, [WriteStep(data)]) == w.(state := w.state.(bad := true))
  {
    hide Writer.WriteAll, Writer.Inv;
    RunOne(w, WriteStep(data));
  }

  // --- the size of the buffer --------------------------------------------------------------------

  /** After any run: as large as requested where the socket allows it, and as large as the socket's otherwise. */
  lemma BufferFits(w: Writer, steps: seq<Step>)
    requires w.Inv() && AllPossible(steps)
    ensures var v := Run(w, steps);
      && v.requested == w.requested
      && (v.socket.None? ==> |v.buffer| == v.requested)
      && (v.socket.Some? ==>
            && |v.buffer| <= v.socket.value
            && (1 <= v.requested <= v.socket.value ==> |v.buffer| == v.requested)
            && (v.requested == 0 || v.requested > v.socket.value ==> |v.buffer| == v.socket.value))
  {
    RunInvariant(w, steps);
    RequestedStays(w, steps);
  }

  lemma {:induction false} RequestedStays(w: Writer, steps: seq<Step>)
    requires w.Inv() && AllPossible(steps)
    ensures Run(w, steps).requested == w.requested
    decreases |steps|
  {
    hide Apply;
    if steps != [] {
      assert steps[0] in steps;
      StepKeepsInv(w, steps[0]);
      StepKeepsRequested(w, steps[0]);
      RequestedStays(Apply(w, steps[0]), steps[1..]);
    }
  }

  lemma StepKeepsRequested(w: Writer, step: Step)
    requires w.Inv() && step.Possible()
    ensures Apply(w, step).requested == w.requested
  {
    hide Drain;
    if step.WriteStep? && w.socket.Some? {
      WriteKeepsRequested(w, step.data);
    }
  }

  lemma {:induction false} WriteKeepsRequested(w: Writer, data: seq<byte>)
    requires w.Inv() && w.socket.Some?
    ensures w.WriteAll(data).0.requested == w.requested
    decreases |data|
  {
    if data == [] {
      WriteNothing(w);
    } else {
      FirstChunk(w, data);
      ChunkKeepsRequested(w, data);
      WriteAllOnce(w, data);
      hide Writer.NextChunk, Writer.WriteAll, Writer.Inv;
      var (c, size) := w.NextChunk(data);
      if size > 0 {
        WriteKeepsRequested(c, data[size..]);
      }
    }
  }

  lemma ChunkKeepsRequested(w: Writer, data: seq<byte>)
    requires w.Inv() && w.socket.Some? && data != []
    ensures w.NextChunk(data).0.requested == w.requested
  {
    hide Drain;
  }
}
