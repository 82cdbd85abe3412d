/**
 `BinaryOSocket`: a buffered writer over a socket, with a background thread that flushes.  Every
 public operation and every round of the thread runs under the buffer lock, so a run of the program
 is a sequence of such steps in some order.  What the socket answers to the successive `send` calls
 is a script: it may take any part of what it is offered, nothing at all, or fail.
 */
module OutputSocket {
  import opened Arithmetic
  import opened Bytes
  import opened StreamState

  const INT_MAX: nat := 0x7fff_ffff

  datatype Response = Sent(n: nat) | Failed

  // --- the stream as a value ---------------------------------------------------------------------

  /** What a sending loop did: bytes sent, bytes left, whether no send failed, script left. */
  datatype Drained = Drained(out: seq<byte>, left: seq<byte>, ok: bool, script: seq<Response>)

  /** Sends until nothing is left or a send fails; a script that is used up fails. */
  function Drain(pending: seq<byte>, script: seq<Response>): (d: Drained)
    ensures d.out + d.left == pending
    ensures d.ok ==> d.left == []
    decreases |script|
  {
    if pending == [] then Drained([], [], true, script)
    else if script == [] then Drained([], pending, false, [])
    else
      match script[0]
      case Failed => Drained([], pending, false, script[1..])
      case Sent(n) =>
        var k := Min(n, Min(|pending|, INT_MAX));
        var d := Drain(pending[k..], script[1..]);
        Rejoin(pending, k, d.out, d.left);
        After(pending[..k], d)
  }

  /** The same, with some bytes sent before. */
  function After(out: seq<byte>, d: Drained): Drained {
    d.(out := out + d.out)
  }

  /**
   The stream.  `socket` holds the size of the socket's send buffer; `sent` is all that sockets took
   so far, `accepted` all that was copied into the buffer so far.
   */
  datatype Writer = Writer(socket: Option<nat>, requested: nat, buffer: seq<byte>, current: nat,
                           state: IoState, skipABeat: bool, stopped: bool,
                           script: seq<Response>, sent: seq<byte>, accepted: seq<byte>) {

    /** What must hold between any two steps. */
    ghost predicate Inv() {
      && current <= |buffer|
      && (socket.Some? ==> socket.value > 0 && buffer != [])
      && |buffer| == BufferSize(socket, requested)
      && (socket.None? && state.IsGood() ==> current == 0)
      && sent <= accepted
      && (state.IsGood() ==> sent + buffer[..current] == accepted)
    }

    /** `flushImpl`: the buffer itself is not shifted, only `current_` comes down. */
    function Flush(): Writer
      requires current <= |buffer|
    {
      if !state.IsGood() || socket.None? || buffer == [] then this
      else
        var d := Drain(buffer[..current], script);
        this.(sent := sent + d.out, current := |d.left|, script := d.script,
              state := if d.ok then state else state.(bad := true))
    }

    function Copy(chunk: seq<byte>): Writer
      requires current + |chunk| <= |buffer|
    {
      this.(buffer := buffer[..current] + chunk + buffer[current + |chunk|..],
            current := current + |chunk|, accepted := accepted + chunk)
    }

    /** A full buffer is flushed before anything is copied. */
    function MakeRoom(): (w: Writer)
      requires current <= |buffer|
    {
      if current == |buffer| then Flush() else this
    }

    lemma RoomIsMade()
      requires current <= |buffer| && socket.Some? && buffer != []
      ensures var w := MakeRoom();
        && w.current <= |w.buffer| && w.socket == socket && |w.buffer| == |buffer|
        && (w.state.IsGood() ==> w.current < |w.buffer|)
    {
      hide Drain;
    }

    /** One round of the loop of `doWrite`: the size of the chunk is 0 when the stream is not good. */
    function NextChunk(data: seq<byte>): (r: (Writer, nat))
      requires current <= |buffer| && socket.Some? && buffer != [] && data != []
      ensures r.0.current <= |r.0.buffer| && r.0.socket == socket && r.0.buffer != [] && r.1 <= |data|
    {
      RoomIsMade();
      var w := MakeRoom();
      if w.state.IsGood() then
        var size := Min(|data|, |w.buffer| - w.current);
        (w.Copy(data[..size]), size)
      else (w, 0)
    }

    /** The loop of `doWrite`. */
    function WriteAll(data: seq<byte>): (Writer, bool)
      requires current <= |buffer| && socket.Some? && buffer != []
      decreases |data|
    {
      if data == [] then (this.(skipABeat := true), true)
      else
        var (w, size) := NextChunk(data);
        if size == 0 then (w, false) else w.WriteAll(data[size..])
    }

    /** `doWrite`: true when all bytes were accepted, otherwise it returns 0. */
    function Write(data: seq<byte>): (Writer, bool)
      requires current <= |buffer| && (socket.Some? ==> buffer != [])
    {
      if socket.None? then (this.(state := state.(bad := true)), false) else WriteAll(data)
    }

    /** `init` after the socket has been replaced. */
    function Init(): Writer {
      this.(buffer := Resize(buffer, BufferSize(socket, requested)), current := 0)
    }

    function SetSocket(s: Option<nat>): Writer
      requires current <= |buffer|
    {
      Flush().(socket := s).Init()
    }

    /** One round of the flusher thread; another thread may hold the lock. */
    function Beat(locked: bool): Writer
      requires current <= |buffer|
    {
      if stopped || !locked then this
      else (if !skipABeat then Flush() else this).(skipABeat := false)
    }

    /** The destructor. */
    function Close(): Writer
      requires current <= |buffer|
    {
      this.(stopped := true, skipABeat := false).Flush()
    }
  }

  function BufferSize(socket: Option<nat>, requested: nat): nat {
    if socket.None? then requested
    else if requested != 0 then Min(requested, socket.value)
    else socket.value
  }

  function Resize(s: seq<byte>, size: nat): (r: seq<byte>)
    ensures |r| == size
  {
    if size <= |s| then s[..size] else s + seq(size - |s|, _ => 0)
  }

  /** A stream just constructed, on a wire that has already carried `sent`. */
  function Started(socket: Option<nat>, requested: nat, script: seq<Response>, sent: seq<byte>): Writer {
    Writer(socket, requested, Resize([], BufferSize(socket, requested)), 0, GOOD, false, false, script, sent, sent)
  }

  datatype Step = WriteStep(data: seq<byte>) | FlushStep | BeatStep(locked: bool)
                | SetSocketStep(socket: Option<nat>) | CloseStep {
    /** A socket's send buffer is never empty. */
    predicate Possible() {
      SetSocketStep? ==> socket.None? || socket.value > 0
    }
  }

  function Apply(w: Writer, step: Step): Writer
    requires w.current <= |w.buffer| && (w.socket.Some? ==> w.buffer != [])
  {
    match step
    case WriteStep(data) => w.Write(data).0
    case FlushStep => w.Flush()
    case BeatStep(locked) => w.Beat(locked)
    case SetSocketStep(s) => w.SetSocket(s)
    case CloseStep => w.Close()
  }

  // --- one step ----------------------------------------------------------------------------------

  lemma FlushKeepsInv(w: Writer)
    requires w.Inv()
    ensures w.Flush().Inv() && w.sent <= w.Flush().sent && w.Flush().accepted == w.accepted
    ensures w.Flush().state.IsGood() ==> w.state.IsGood() && w.Flush().current == 0 && w.Flush().sent == w.accepted
    ensures w.Flush().buffer == w.buffer && w.Flush().socket == w.socket
  {
    hide Drain;
    if w.state.IsGood() && w.socket.Some? {
      var d := Drain(w.buffer[..w.current], w.script);
      assert (w.sent + d.out) + d.left == w.accepted;
      assert d.ok ==> w.sent + d.out == w.accepted;
    } else if w.state.IsGood() {
      assert w.sent + w.buffer[..0] == w.sent;
    }
  }

  lemma CopyKeepsInv(w: Writer, chunk: seq<byte>)
    requires w.Inv() && w.state.IsGood() && w.socket.Some? && w.current + |chunk| <= |w.buffer|
    ensures w.Copy(chunk).Inv()
    ensures w.Copy(chunk).accepted == w.accepted + chunk && w.Copy(chunk).sent == w.sent
    ensures w.Copy(chunk).socket == w.socket && w.Copy(chunk).state == w.state
  {
    var c := w.Copy(chunk);
    assert c.buffer[..c.current] == w.buffer[..w.current] + chunk;
    assert w.sent + (w.buffer[..w.current] + chunk) == (w.sent + w.buffer[..w.current]) + chunk;
  }

  lemma MakeRoomKeepsInv(w: Writer)
    requires w.Inv() && w.socket.Some?
    ensures var f := w.MakeRoom();
      && f.Inv() && f.socket == w.socket && w.sent <= f.sent && f.accepted == w.accepted
      && (f.state.IsGood() ==> w.state.IsGood())
  {
    hide Writer.Flush;
    FlushKeepsInv(w);
  }

  /** A write that succeeds accepts its data and nothing else; one that fails, a prefix of it. */
  ghost predicate IsWrite(w: Writer, data: seq<byte>, w': Writer, ok: bool) {
    && w'.Inv() && w.sent <= w'.sent && w.accepted <= w'.accepted <= w.accepted + data
    && (ok ==> w'.accepted == w.accepted + data)
    && (data != [] ==> (ok <==> w'.state.IsGood()))
    && (data == [] ==> w'.state == w.state)
  }

  lemma WriteAfterChunk(w: Writer, f: Writer, chunk: seq<byte>, rest: seq<byte>, w': Writer, ok: bool)
    requires w.sent <= f.sent && f.accepted == w.accepted + chunk && f.state.IsGood() && chunk != []
    requires IsWrite(f, rest, w', ok) && (rest == [] ==> ok)
    ensures IsWrite(w, chunk + rest, w', ok)
  {
    hide Writer.Inv;
    AppendTwice(w.accepted, chunk, rest);
  }

  lemma EmptyWrite(w: Writer)
    requires w.Inv()
    ensures IsWrite(w, [], w.(skipABeat := true), true)
  {
    assert w.accepted + [] == w.accepted;
  }

  lemma FailedWrite(w: Writer, f: Writer, data: seq<byte>)
    requires f.Inv() && w.sent <= f.sent && w.accepted == f.accepted && !f.state.IsGood() && data != []
    ensures IsWrite(w, data, f, false)
  {
    hide Writer.Inv;
    assert w.accepted <= w.accepted + data;
  }

  lemma {:induction false} WriteAllKeepsInv(w: Writer, data: seq<byte>)
    requires w.Inv() && w.socket.Some?
    ensures var (w', ok) := w.WriteAll(data);
      IsWrite(w, data, w', ok) && (data == [] ==> ok)
    decreases |data|
  {
    hide IsWrite;
    if data == [] {
      WriteNothing(w);
      hide Writer.WriteAll;
      EmptyWrite(w);
    } else {
      FirstChunk(w, data);
      WriteAllOnce(w, data);
      hide Writer.NextChunk, Writer.WriteAll, Writer.Inv;
      var (c, size) := w.NextChunk(data);
      if size > 0 {
        var chunk, rest := data[..size], data[size..];
        WriteAllKeepsInv(c, rest);
        assert chunk + rest == data;
        WriteAfterChunk(w, c, chunk, rest, c.WriteAll(rest).0, c.WriteAll(rest).1);
      }
    }
  }

  lemma FirstChunk(w: Writer, data: seq<byte>)
    requires w.Inv() && w.socket.Some? && data != []
    ensures var (c, size) := w.NextChunk(data);
      if size == 0 then IsWrite(w, data, c, false)
      else
        && size <= |data| && c.Inv() && c.state.IsGood() && c.socket == w.socket
        && w.sent <= c.sent && c.accepted == w.accepted + data[..size]
  {
    hide Writer.MakeRoom, Writer.Copy, IsWrite;
    w.RoomIsMade();
    MakeRoomKeepsInv(w);
    var f := w.MakeRoom();
    if f.state.IsGood() {
      CopyKeepsInv(f, data[..Min(|data|, |f.buffer| - f.current)]);
    } else {
      FailedWrite(w, f, data);
    }
  }

  lemma AppendTwice(a: seq<byte>, b: seq<byte>, c: seq<byte>)
    ensures (a + b) + c == a + (b + c)
    ensures a <= a + b <= a + (b + c)
  {
    assert (a + b) + c == a + (b + c);
  }

  lemma SetSocketKeepsInv(w: Writer, s: Option<nat>)
    requires w.Inv() && (s.None? || s.value > 0)
    ensures var w' := w.SetSocket(s);
      && w'.Inv() && w.sent <= w'.sent && w'.accepted == w.accepted
      && (w'.state.IsGood() ==> w.state.IsGood())
  {
    hide Drain, Writer.Flush;
    FlushKeepsInv(w);
    var f := w.Flush();
    var w' := w.SetSocket(s);
    assert w'.buffer[..0] == [];
    if f.state.IsGood() {
      assert f.buffer[..0] == [];
      assert f.sent + [] == f.sent && w'.sent + [] == f.sent;
    }
  }

  /** What a step adds to the accepted bytes when the stream stays good. */
  function Data(step: Step): seq<byte> {
    if step.WriteStep? then step.data else []
  }

  /** Every step keeps the invariant, only adds to the bytes sent, and accepts in order. */
  lemma StepKeepsInv(w: Writer, step: Step)
    requires w.Inv() && step.Possible()
    ensures var w' := Apply(w, step);
      && w'.Inv() && w.sent <= w'.sent && w.accepted <= w'.accepted <= w.accepted + Data(step)
      && (w'.state.IsGood() ==> w.state.IsGood() && w'.accepted == w.accepted + Data(step))
  {
    hide Drain, Writer.Flush, Writer.WriteAll, Writer.Init;
    assert w.accepted + [] == w.accepted;
    match step {
      case WriteStep(data) =>
        if w.socket.Some? {
          WriteAllKeepsInv(w, data);
          if !w.state.IsGood() {
            WriteToBadStream(w, data);
          }
        }
      case FlushStep =>
        FlushKeepsInv(w);
      case BeatStep(locked) =>
        FlushKeepsInv(w);
      case SetSocketStep(s) =>
        SetSocketKeepsInv(w, s);
      case CloseStep =>
        FlushKeepsInv(w.(stopped := true, skipABeat := false));
    }
  }

  /** A stream that is not good takes nothing, sends nothing and stays that way. */
  lemma WriteToBadStream(w: Writer, data: seq<byte>)
    requires w.Inv() && w.socket.Some? && !w.state.IsGood()
    ensures var w' := w.WriteAll(data).0;
      !w'.state.IsGood() && w'.sent == w.sent && w'.accepted == w.accepted
  {
  }

  lemma BadStepIsFrozen(w: Writer, step: Step)
    requires w.Inv() && step.Possible() && !w.state.IsGood()
    ensures var w' := Apply(w, step);
      !w'.state.IsGood() && w'.sent == w.sent && w'.accepted == w.accepted
  {
    hide Drain, Writer.WriteAll;
    if step.WriteStep? && w.socket.Some? {
      WriteToBadStream(w, step.data);
    }
  }

  // --- whole runs --------------------------------------------------------------------------------

  function Run(w: Writer, steps: seq<Step>): Writer
    requires w.Inv() && forall step :: step in steps ==> step.Possible()
    decreases |steps|
  {
    if steps == [] then w
    else
      assert steps[0] in steps;
      StepKeepsInv(w, steps[0]);
      Run(Apply(w, steps[0]), steps[1..])
  }

  /** All bytes of all writes, in the order of the writes. */
  function AllData(steps: seq<Step>): seq<byte> {
    if steps == [] then [] else Data(steps[0]) + AllData(steps[1..])
  }

  /**
   At every point of every interleaving: the bytes sent are a prefix of the bytes accepted; and if
   the stream is good, the bytes sent followed by the live part of the buffer are all bytes of all
   writes so far, in order, each once.
   */
  lemma {:induction false} RunInvariant(w: Writer, steps: seq<Step>)
    requires w.Inv() && forall step :: step in steps ==> step.Possible()
    ensures var w' := Run(w, steps);
      && w'.Inv() && w.sent <= w'.sent && w.accepted <= w'.accepted
      && (w'.state.IsGood() ==>
            && w.state.IsGood()
            && w'.accepted == w.accepted + AllData(steps)
            && w'.sent + w'.buffer[..w'.current] == w.accepted + AllData(steps))
    decreases |steps|
  {
    hide Apply;
    if steps == [] {
      assert w.accepted + [] == w.accepted;
    } else {
      assert steps[0] in steps;
      StepKeepsInv(w, steps[0]);
      RunInvariant(Apply(w, steps[0]), steps[1..]);
      AppendTwice(w.accepted, Data(steps[0]), AllData(steps[1..]));
    }
  }

  /** After a failure the bytes sent stay a fixed prefix of the bytes accepted, whatever follows. */
  lemma {:induction false} FailureIsFinal(w: Writer, steps: seq<Step>)
    requires w.Inv() && !w.state.IsGood() && forall step :: step in steps ==> step.Possible()
    ensures var w' := Run(w, steps);
      !w'.state.IsGood() && w'.sent == w.sent && w'.accepted == w.accepted && w'.sent <= w'.accepted
    decreases |steps|
  {
    hide Apply;
    if steps == [] {
    } else {
      assert steps[0] in steps;
      StepKeepsInv(w, steps[0]);
      BadStepIsFrozen(w, steps[0]);
      FailureIsFinal(Apply(w, steps[0]), steps[1..]);
    }
  }

  /** The flusher needs at most two rounds to send what was written before them. */
  lemma TwoBeatsSendAll(w: Writer)
    requires w.Inv() && !w.stopped
    ensures var w' := w.Beat(true).Beat(true);
      w'.state.IsGood() ==> w'.sent == w.accepted && w'.current == 0
    ensures !w.skipABeat && w.Beat(true).state.IsGood() ==> w.Beat(true).sent == w.accepted
  {
    hide Drain, Writer.Flush;
    FlushKeepsInv(w);
    FlushKeepsInv(w.Beat(true));
  }

  /** A stream that is still good after its destructor has sent everything. */
  lemma CloseSendsAll(w: Writer)
    requires w.Inv()
    ensures w.Close().state.IsGood() ==> w.Close().sent == w.accepted
  {
    hide Drain, Writer.Flush;
    FlushKeepsInv(w.(stopped := true, skipABeat := false));
  }

  // --- clearing the error state ------------------------------------------------------------------

  /** `clear()`, and a socket that works again. */
  function Cleared(w: Writer, script: seq<Response>): Writer {
    w.(state := GOOD, script := script)
  }

  /**
   A failed flush leaves the front of the buffer, not the unsent rest, marked as live.  If the error
   state is cleared and the next flush succeeds, the receiver gets the right bytes exactly when
   these two stretches happen to be equal, in particular when the failed flush had sent nothing.
   */
  lemma FlushAfterClear(w: Writer, script: seq<Response>)
    requires w.Inv() && w.state.IsGood() && w.socket.Some? && !w.Flush().state.IsGood()
    requires Cleared(w.Flush(), script).Flush().state.IsGood()
    ensures var left := w.Flush().current;
      && left <= w.current
      && (Cleared(w.Flush(), script).Flush().sent == w.accepted <==>
          w.buffer[..left] == w.buffer[w.current - left..w.current])
  {
    hide Drain;
    var pending := w.buffer[..w.current];
    var d := Drain(pending, w.script);
    var left := |d.left|;
    var e := Drain(w.buffer[..left], script);
    assert d.left == pending[w.current - left..] == w.buffer[w.current - left..w.current];
    assert e.out == w.buffer[..left];
    assert Cleared(w.Flush(), script).Flush().sent == (w.sent + d.out) + w.buffer[..left];
    AppendTwice(w.sent, d.out, d.left);
    assert w.accepted == (w.sent + d.out) + d.left;
    SameTail(w.sent + d.out, w.buffer[..left], d.left);
  }

  lemma SameTail(a: seq<byte>, b: seq<byte>, c: seq<byte>)
    ensures a + b == a + c <==> b == c
  {
    if a + b == a + c {
      assert (a + b)[|a|..] == b && (a + c)[|a|..] == c;
    }
  }

  /** Two bytes written, one sent before the failure: after a clear the first goes out again. */
  lemma ClearResendsTheWrongByte()
    ensures Started(Some(4096), 3, [Sent(1), Failed], []).Inv()
    ensures var failed := Run(Started(Some(4096), 3, [Sent(1), Failed], []), [WriteStep([1, 2]), FlushStep]);
      && failed.accepted == [1, 2] && failed.sent == [1] && !failed.state.IsGood()
      && Cleared(failed, [Sent(1)]).Flush().state.IsGood()
      && Cleared(failed, [Sent(1)]).Flush().sent == [1, 1]
  {
  }

  // --- the class ---------------------------------------------------------------------------------

  /** The network side: the answers still to come and the bytes that went out. */
  class Wire {
    var script: seq<Response>
    var sent: seq<byte>

    constructor (script: seq<Response>)
      ensures this.script == script && sent == []
    {
      this.script, sent := script, [];
    }

    /** `Socket::send`: how many bytes were taken, or `None` for an exception. */
    method Send(data: seq<byte>) returns (n: Option<nat>)
      requires data != []
      modifies this
      ensures script == if old(script) == [] then [] else old(script)[1..]
      ensures if old(script) != [] && old(script)[0].Sent?
        then n == Some(Min(old(script)[0].n, |data|)) && sent == old(sent) + data[..n.value]
        else n.None? && sent == old(sent)
    {
      n := None;
      if script != [] {
        if script[0].Sent? {
          n := Some(Min(script[0].n, |data|));
          sent := sent + data[..n.value];
        }
        script := script[1..];
      }
    }
  }

  class BinaryOSocket {
    var socket: Option<nat>
    const requestedBufferSize: nat
    var buffer: array<byte>
    var current: nat
    var state: IoState
    var stopFlushThread: bool
    var skipABeat: bool
    const wire: Wire

    /** All bytes ever copied into the buffer. */
    ghost var accepted: seq<byte>

    ghost function Model(): Writer
      reads this, buffer, wire
    {
      Writer(socket, requestedBufferSize, buffer[..], current, state, skipABeat, stopFlushThread,
             wire.script, wire.sent, accepted)
    }

    ghost predicate Valid()
      reads this, buffer, wire
    {
      Model().Inv()
    }

    constructor (socket: Option<nat>, bufferSize: nat, wire: Wire)
      requires socket.None? || socket.value > 0
      ensures Valid() && this.wire == wire && fresh(buffer)
      ensures Model() == Started(socket, bufferSize, wire.script, wire.sent)
    {
      this.socket, requestedBufferSize, this.wire := socket, bufferSize, wire;
      buffer := new byte[0];
      current, state, stopFlushThread, skipABeat := 0, GOOD, false, false;
      accepted := wire.sent;
      new;
      assert buffer[..] == [];
      Init();
      assert buffer[..0] == [];
    }

    method Init()
      requires current <= buffer.Length
      modifies this`buffer, this`current
      ensures fresh(buffer) && Model() == old(Model()).Init()
    {
      var size := BufferSize(socket, requestedBufferSize);
      var before := buffer[..];
      var resized := Resize(before, size);
      buffer := new byte[size](k requires 0 <= k < size && |resized| == size => resized[k]);
      assert buffer[..] == resized;
      current := 0;
    }

    method FlushImpl()
      requires Valid()
      modifies this`current, this`state, wire
      ensures Valid() && Model() == old(Model()).Flush()
    {
      FlushKeepsInv(Model());
      if !state.IsGood() || socket.None? || buffer.Length == 0 {
        return;
      }
      hide Drain;
      SendPending();
    }

    /** The loop of `flushImpl`. */
    method SendPending()
      requires current <= buffer.Length
      modifies this`current, this`state, wire
      ensures var d := Drain(buffer[..old(current)], old(wire.script));
        && current == |d.left|
        && state == (if d.ok then old(state) else old(state).(bad := true))
        && wire.sent == old(wire.sent) + d.out && wire.script == d.script
    {
      hide Drain;
      var rest := buffer[..current]; // from `begin` to the end of the live part
      ghost var all := Drain(rest, wire.script);
      ghost var out: seq<byte> := [];
      ghost var before := wire.sent;
      DrainNothing(all, wire.script);
      while current > 0
        invariant current == |rest|
        invariant state == old(state) && wire.sent == before + out
        invariant all == After(out, Drain(rest, wire.script))
        decreases |wire.script|, current
      {
        DrainStep(rest, wire.script);
        var n := Min(current, INT_MAX);
        var sent := wire.Send(rest[..n]);
        if sent.None? {
          state := state.(bad := true);
          AfterNothing(out, rest, wire.script);
          return;
        }
        SentPart(before, out, rest, n, sent.value, wire.script);
        out := out + rest[..sent.value];
        rest := rest[sent.value..];
        current := current - sent.value;
      }
      AfterEverything(out, wire.script);
    }

    /** A full buffer goes out first. */
    method FlushWhenFull()
      requires Valid()
      modifies this`current, this`state, wire
      ensures Valid() && Model() == old(Model()).MakeRoom()
    {
      hide Writer.Flush;
      FlushKeepsInv(Model());
      if current == buffer.Length {
        FlushImpl();
      }
    }

    /** One round of the loop of `doWrite`: what is written is the same with the rest of the data. */
    method WriteChunk(first: seq<byte>) returns (ok: bool, writeSize: nat)
      requires Valid() && socket.Some? && first != []
      modifies this`current, this`state, this`accepted, buffer, wire
      ensures Valid()
      ensures ok ==> 1 <= writeSize <= |first|
      ensures old(Model()).WriteAll(first) ==
        if ok then Model().WriteAll(first[writeSize..]) else (Model(), false)
    {
      hide Writer.MakeRoom, Writer.Copy, Writer.WriteAll;
      WriteAllUnfold(Model(), first);
      FlushWhenFull();
      if !state.IsGood() {
        return false, 0;
      }
      writeSize := Min(|first|, buffer.Length - current);
      CopyKeepsInv(Model(), first[..writeSize]);
      CopyIn(first[..writeSize]);
      ok := true;
    }

    /** Everything in one critical section; 0 when the stream is not good at some point. */
    method DoWrite(data: seq<byte>) returns (count: nat)
      requires Valid()
      modifies this, buffer, wire
      ensures Valid() && buffer == old(buffer)
      ensures Model() == old(Model()).Write(data).0
      ensures count == if old(Model()).Write(data).1 then |data| else 0
    {
      hide Writer.WriteAll, Writer.Write;
      WriteUnfold(Model(), data);
      if socket.None? {
        state := state.(bad := true);
        return 0;
      }
      ghost var goal := Model().WriteAll(data);
      var first := data;
      while first != []
        invariant Valid() && buffer == old(buffer) && socket.Some?
        invariant goal == Model().WriteAll(first)
        decreases |first|
      {
        var ok, writeSize := WriteChunk(first);
        if !ok {
          return 0;
        }
        first := first[writeSize..];
      }
      WriteNothing(Model());
      skipABeat := true;
      count := |data|;
    }

    /** `memcpy` behind the live part. */
    method CopyIn(chunk: seq<byte>)
      requires current + |chunk| <= buffer.Length
      modifies this`current, this`accepted, buffer
      ensures Model() == old(Model()).Copy(chunk)
    {
      forall k | 0 <= k < |chunk| {
        buffer[current + k] := chunk[k];
      }
      current := current + |chunk|;
      accepted := accepted + chunk;
    }

    method SetSocket(socket: Option<nat>)
      requires Valid() && (socket.None? || socket.value > 0)
      modifies this, wire
      ensures Valid() && fresh(buffer) && Model() == old(Model()).SetSocket(socket)
    {
      SetSocketKeepsInv(Model(), socket);
      FlushImpl();
      this.socket := socket;
      Init();
    }

    /** One round of the loop of `flusher`. */
    method FlusherRound(locked: bool)
      requires Valid()
      modifies this, wire
      ensures Valid() && buffer == old(buffer) && Model() == old(Model()).Beat(locked)
    {
      if !stopFlushThread && locked {
        if !skipABeat {
          FlushImpl();
        }
        skipABeat := false;
      }
    }

    method Close()
      requires Valid()
      modifies this, wire
      ensures Valid() && buffer == old(buffer) && Model() == old(Model()).Close()
    {
      stopFlushThread := true;
      skipABeat := false;
      FlushImpl();
    }

    /** Any interleaving of writers, flusher rounds and the rest. */
    method Execute(steps: seq<Step>)
      requires Valid() && forall step :: step in steps ==> step.Possible()
      modifies this, buffer, wire
      ensures Valid() && Model() == Run(old(Model()), steps)
      ensures buffer == old(buffer) || fresh(buffer)
      decreases |steps|
    {
      hide Writer.Flush, Writer.Write, Writer.WriteAll, Writer.SetSocket, Writer.Inv, Drain;
      if steps != [] {
        assert steps[0] in steps;
        StepKeepsInv(Model(), steps[0]);
        match steps[0] {
          case WriteStep(data) => var _ := DoWrite(data);
          case FlushStep => FlushImpl();
          case BeatStep(locked) => FlusherRound(locked);
          case SetSocketStep(s) => SetSocket(s);
          case CloseStep => Close();
        }
        Execute(steps[1..]);
      }
    }
  }

  lemma AfterNothing(out: seq<byte>, left: seq<byte>, script: seq<Response>)
    ensures After(out, Drained([], left, false, script)) == Drained(out, left, false, script)
  {
    assert out + [] == out;
  }

  lemma AfterEverything(out: seq<byte>, script: seq<Response>)
    ensures After(out, Drain([], script)) == Drained(out, [], true, script)
  {
    assert out + [] == out;
  }

  lemma SentPart(before: seq<byte>, out: seq<byte>, pending: seq<byte>, n: nat, k: nat, script: seq<Response>)
    requires k <= n <= |pending|
    ensures (before + out) + pending[..n][..k] == before + (out + pending[..k])
    ensures After(out, After(pending[..k], Drain(pending[k..], script)))
         == After(out + pending[..k], Drain(pending[k..], script))
  {
    hide Drain;
    assert pending[..n][..k] == pending[..k];
    AfterTwice(out, pending[..k], Drain(pending[k..], script));
  }

  lemma WriteAllUnfold(w: Writer, data: seq<byte>)
    requires w.current <= |w.buffer| && w.socket.Some? && w.buffer != [] && data != []
    ensures !w.MakeRoom().state.IsGood() ==> w.WriteAll(data) == (w.MakeRoom(), false)
    ensures w.MakeRoom().state.IsGood() ==>
      var f := w.MakeRoom();
      var size := Min(|data|, |f.buffer| - f.current);
      && 1 <= size && f.current + size <= |f.buffer| && f.socket.Some?
      && w.WriteAll(data) == f.Copy(data[..size]).WriteAll(data[size..])
  {
    hide Writer.MakeRoom, Writer.Copy, Writer.WriteAll;
    w.RoomIsMade();
    WriteAllOnce(w, data);
  }

  lemma WriteAllOnce(w: Writer, data: seq<byte>)
    requires w.current <= |w.buffer| && w.socket.Some? && w.buffer != [] && data != []
    ensures w.WriteAll(data) ==
      var (f, size) := w.NextChunk(data);
      if size == 0 then (f, false) else f.WriteAll(data[size..])
  {
    hide Writer.NextChunk;
  }

  lemma WriteUnfold(w: Writer, data: seq<byte>)
    requires w.Inv()
    ensures w.Write(data) ==
      if w.socket.None? then (w.(state := w.state.(bad := true)), false) else w.WriteAll(data)
    ensures w.Write(data).0.Inv()
  {
    hide Writer.WriteAll;
    StepKeepsInv(w, WriteStep(data));
  }

  lemma WriteNothing(w: Writer)
    requires w.current <= |w.buffer| && w.socket.Some? && w.buffer != []
    ensures w.WriteAll([]) == (w.(skipABeat := true), true)
  {
  }

  lemma DrainNothing(d: Drained, script: seq<Response>)
    ensures Drain([], script) == Drained([], [], true, script)
    ensures After([], d) == d
  {
    assert [] + d.out == d.out;
  }

  lemma AfterTwice(a: seq<byte>, b: seq<byte>, d: Drained)
    ensures After(a, After(b, d)) == After(a + b, d)
  {
    assert a + (b + d.out) == (a + b) + d.out;
  }

  lemma DrainStep(pending: seq<byte>, script: seq<Response>)
    requires pending != []
    ensures if script != [] && script[0].Sent?
      then var k := Min(script[0].n, Min(|pending|, INT_MAX));
        Drain(pending, script) == After(pending[..k], Drain(pending[k..], script[1..]))
      else Drain(pending, script) == Drained([], pending, false, if script == [] then [] else script[1..])
  {
  }
}
