/**
 `BinaryISocket`: reads that ask the socket again until all bytes are there.  The channel is a
 lossless queue; `incoming` holds the bytes it will still deliver.  A script says how much each
 `receive` delivers: any part of what is asked for, nothing (the peer has closed) or a failure.
 */
module InputSocket {
  import opened Arithmetic
  import opened Bytes
  import opened StreamState

  datatype Arrival = Received(n: nat) | Broken

  datatype Outcome = Complete | Closed | Failed

  /** What a receiving loop got, how it ended, and what is left of channel and script. */
  datatype Taken = Taken(got: seq<byte>, outcome: Outcome, incoming: seq<byte>, script: seq<Arrival>)

  function Before(first: seq<byte>, t: Taken): Taken {
    t.(got := first + t.got)
  }

  function Take(want: nat, incoming: seq<byte>, script: seq<Arrival>): (t: Taken)
    ensures t.got + t.incoming == incoming
    ensures |t.got| <= want && (t.outcome == Complete <==> |t.got| == want)
    decreases |script|
  {
    if want == 0 then Taken([], Complete, incoming, script)
    else if script == [] then Taken([], Failed, incoming, [])
    else
      match script[0]
      case Broken => Taken([], Failed, incoming, script[1..])
      case Received(n) =>
        var k := Min(n, Min(want, |incoming|));
        if k == 0 then Taken([], Closed, incoming, script[1..])
        else
          var t := Take(want - k, incoming[k..], script[1..]);
          Rejoin(incoming, k, t.got, t.incoming);
          Before(incoming[..k], t)
  }

  datatype Reader = Reader(connected: bool, state: IoState, incoming: seq<byte>, script: seq<Arrival>) {

    /** `doRead`: the stream afterwards, the bytes taken off the channel and the count returned. */
    function Read(n: nat): (r: (Reader, seq<byte>, nat))
      ensures r.1 + r.0.incoming == incoming && r.0.connected == connected
      ensures r.0.state.IsGood() ==> state.IsGood() && |r.1| == n
    {
      if !state.IsGood() then (this, [], 0)
      else if !connected then (this.(state := state.(failed := true)), [], 0)
      else
        var t := Take(n, incoming, script);
        var r := this.(incoming := t.incoming, script := t.script);
        match t.outcome
        case Complete => (r, t.got, n)
        case Closed => (r.(state := state.(eof := true)), t.got, 0)
        case Failed => (r.(state := state.(bad := true)), t.got, |t.got|)
    }

    /** `setSocket`: a new channel; `setstate(goodbit)` adds no bit and clears none. */
    function SetSocket(connected: bool, incoming: seq<byte>, script: seq<Arrival>): Reader {
      Reader(connected, state.Plus(GOOD), incoming, script)
    }
  }

  /** A number of reads: the stream afterwards and the bytes each of them took. */
  function Reads(r: Reader, counts: seq<nat>): (x: (Reader, seq<seq<byte>>))
    ensures |x.1| == |counts|
    decreases |counts|
  {
    if counts == [] then (r, [])
    else
      var (r', got, _) := r.Read(counts[0]);
      var (last, rest) := Reads(r', counts[1..]);
      (last, [got] + rest)
  }

  /** `parts` are consecutive stretches of `s` with the given lengths, from the start of `s` on. */
  predicate Cuts(parts: seq<seq<byte>>, counts: seq<nat>, s: seq<byte>)
    requires |parts| == |counts|
  {
    counts == [] ||
      (counts[0] <= |s| && parts[0] == s[..counts[0]] && Cuts(parts[1..], counts[1..], s[counts[0]..]))
  }

  lemma {:induction false} BadReaderStaysBad(r: Reader, counts: seq<nat>)
    requires !r.state.IsGood()
    ensures Reads(r, counts).0 == r && forall part :: part in Reads(r, counts).1 ==> part == []
    decreases |counts|
  {
    if counts == [] {
    } else {
      BadReaderStaysBad(r.Read(counts[0]).0, counts[1..]);
    }
  }

  /**
   If the stream is good after the reads, they returned the next bytes of the channel, each read
   exactly as many as it asked for, whatever way the channel cut them into pieces.
   */
  lemma {:induction false} GoodReadsAreExact(r: Reader, counts: seq<nat>)
    ensures var (r', parts) := Reads(r, counts);
      r'.state.IsGood() && (r.connected || counts == []) ==>
        && Cuts(parts, counts, r.incoming)
        && Sum(counts) <= |r.incoming|
        && r'.incoming == r.incoming[Sum(counts)..]
    decreases |counts|
  {
    if counts == [] || !r.connected {
    } else {
      hide Take;
      var (r', got, _) := r.Read(counts[0]);
      if r'.state.IsGood() {
        assert r.state.IsGood() && |got| == counts[0];
        assert got == (got + r'.incoming)[..|got|] && r'.incoming == (got + r'.incoming)[|got|..];
        GoodReadsAreExact(r', counts[1..]);
      } else {
        BadReaderStaysBad(r', counts[1..]);
      }
    }
  }

  /** The next receive delivers something. */
  predicate Delivers(script: seq<Arrival>) {
    script != [] && script[0].Received? && script[0].n > 0
  }

  /**
   A new socket does not mend a stream: reads from it return bytes if and only if the stream was good
   before.  If it was not, nothing is taken off the new channel; if it was and still is after the
   reads, they are exact.
   */
  lemma ReadsAfterSetSocket(r: Reader, incoming: seq<byte>, script: seq<Arrival>, counts: seq<nat>)
    ensures var r' := r.SetSocket(true, incoming, script);
      && (!r.state.IsGood() ==>
            Reads(r', counts).0 == r' && forall part :: part in Reads(r', counts).1 ==> part == [])
      && (Reads(r', counts).0.state.IsGood() ==> r.state.IsGood() && Cuts(Reads(r', counts).1, counts, incoming))
    ensures counts != [] && counts[0] > 0 && incoming != [] && Delivers(script) ==>
      (Reads(r.SetSocket(true, incoming, script), counts).1[0] != [] <==> r.state.IsGood())
  {
    var r' := r.SetSocket(true, incoming, script);
    assert r'.state == r.state;
    if r.state.IsGood() {
      GoodReadsAreExact(r', counts);
    } else {
      BadReaderStaysBad(r', counts);
    }
  }

  // --- what a read reports -----------------------------------------------------------------------

  /** What the first `j` receives of a script offer together. */
  function Offered(script: seq<Arrival>, j: nat): nat
    requires j <= |script| && forall i :: 0 <= i < j ==> script[i].Received?
  {
    if j == 0 then 0 else script[0].n + Offered(script[1..], j - 1)
  }

  /**
   A read of `want` bytes comes to receive number `j`: all receives before it delivered something, and
   together less than `want`.
   */
  ghost predicate Asks(want: nat, available: nat, script: seq<Arrival>, j: nat) {
    && j <= |script|
    && (forall i :: 0 <= i < j ==> script[i].Received? && script[i].n > 0)
    && (forall i: nat :: i < j ==> Offered(script, i) < available)
    && (Offered(script, j) < want || available < want)
  }

  /** Receive number `j` delivers nothing. */
  ghost predicate ClosesAt(want: nat, available: nat, script: seq<Arrival>, j: nat) {
    && Asks(want, available, script, j) && j < |script|
    && script[j].Received? && (script[j].n == 0 || available <= Offered(script, j))
  }

  /** Receive number `j` fails, or there is no answer any more. */
  ghost predicate BreaksAt(want: nat, available: nat, script: seq<Arrival>, j: nat) {
    Asks(want, available, script, j) && (j == |script| || script[j].Broken?)
  }

  lemma OfferedNext(script: seq<Arrival>, j: nat)
    requires j < |script| && forall i :: 0 <= i <= j ==> script[i].Received?
    ensures Offered(script, j + 1) == script[0].n + Offered(script[1..], j)
  {
  }

  lemma AsksNext(want: nat, available: nat, script: seq<Arrival>, j: nat)
    requires want > 0 && available > 0 && script != [] && script[0].Received? && script[0].n > 0
    ensures var k := Min(script[0].n, Min(want, available));
      Asks(want, available, script, j + 1) <==> Asks(want - k, available - k, script[1..], j)
  {
    hide Offered;
    var k := Min(script[0].n, Min(want, available));
    var rest := script[1..];
    if Asks(want - k, available - k, rest, j) {
      AskLater(want, available, script, j);
    }
    if Asks(want, available, script, j + 1) {
      AskEarlier(want, available, script, j);
    }
  }

  lemma AskLater(want: nat, available: nat, script: seq<Arrival>, j: nat)
    requires want > 0 && available > 0 && script != [] && script[0].Received? && script[0].n > 0
    requires Asks(want - Min(script[0].n, Min(want, available)), available - Min(script[0].n, Min(want, available)),
                  script[1..], j)
    ensures Asks(want, available, script, j + 1)
  {
    assert forall i :: 1 <= i <= j ==> script[i] == script[1..][i - 1];
    OfferedNext(script, j);
    forall i: nat | i < j + 1
      ensures Offered(script, i) < available
    {
      if i > 0 {
        OfferedNext(script, i - 1);
      }
    }
  }

  lemma AskEarlier(want: nat, available: nat, script: seq<Arrival>, j: nat)
    requires want > 0 && available > 0 && script != [] && script[0].Received? && script[0].n > 0
    requires Asks(want, available, script, j + 1)
    ensures var k := Min(script[0].n, Min(want, available)); Asks(want - k, available - k, script[1..], j)
  {
    var k := Min(script[0].n, Min(want, available));
    assert forall i :: 0 <= i < j ==> script[1..][i] == script[i + 1];
    OfferedNext(script, j);
    if j > 0 {
      OfferedNext(script, 0);
      assert Offered(script, 1) < available;
    }
    forall i: nat | i < j
      ensures Offered(script[1..], i) < available - k
    {
      OfferedNext(script, i);
      assert Offered(script, i + 1) < available;
    }
  }

  /** The first receive delivers something, and the reading goes on without it. */
  predicate GoesOn(want: nat, incoming: seq<byte>, script: seq<Arrival>) {
    want > 0 && incoming != [] && script != [] && script[0].Received? && script[0].n > 0
  }

  function First(want: nat, incoming: seq<byte>, script: seq<Arrival>): (k: nat)
    requires GoesOn(want, incoming, script)
    ensures 1 <= k <= want && k <= |incoming|
  {
    Min(script[0].n, Min(want, |incoming|))
  }

  /** Receive `j + 1` of a read is receive `j` of what is left after the first one. */
  lemma EndsLater(want: nat, incoming: seq<byte>, script: seq<Arrival>, j: nat)
    requires GoesOn(want, incoming, script)
    ensures var k, n := First(want, incoming, script), |incoming|;
      && (ClosesAt(want, n, script, j + 1) <==> ClosesAt(want - k, n - k, script[1..], j))
      && (BreaksAt(want, n, script, j + 1) <==> BreaksAt(want - k, n - k, script[1..], j))
      && (Asks(want, n, script, j + 1) ==>
            Min(Offered(script, j + 1), n) == k + Min(Offered(script[1..], j), n - k))
  {
    var k, n := First(want, incoming, script), |incoming|;
    AsksNext(want, n, script, j);
    if Asks(want, n, script, j + 1) {
      FewerOffered(want, incoming, script, j);
      if j + 1 < |script| {
        assert script[j + 1] == script[1..][j];
      }
    }
    hide Offered;
  }

  lemma FewerOffered(want: nat, incoming: seq<byte>, script: seq<Arrival>, j: nat)
    requires GoesOn(want, incoming, script) && Asks(want, |incoming|, script, j + 1)
    ensures forall i :: 0 <= i < j ==> script[1..][i].Received?
    ensures var k, n := First(want, incoming, script), |incoming|;
      && (n <= Offered(script, j + 1) <==> n - k <= Offered(script[1..], j))
      && Min(Offered(script, j + 1), n) == k + Min(Offered(script[1..], j), n - k)
  {
    assert forall i :: 0 <= i < j ==> script[1..][i] == script[i + 1];
    OfferedNext(script, j);
    if j > 0 {
      OfferedNext(script, 0);
      assert Offered(script, 1) < |incoming|;
    }
  }

  lemma EndsAtOnce(want: nat, incoming: seq<byte>, script: seq<Arrival>)
    ensures GoesOn(want, incoming, script) || want == 0 ==>
      !ClosesAt(want, |incoming|, script, 0) && !BreaksAt(want, |incoming|, script, 0)
    ensures !GoesOn(want, incoming, script) && want > 0 ==>
      && (ClosesAt(want, |incoming|, script, 0) <==> script != [] && script[0].Received?)
      && (BreaksAt(want, |incoming|, script, 0) <==> script == [] || script[0].Broken?)
  {
  }

  lemma NothingFurther(want: nat, incoming: seq<byte>, script: seq<Arrival>, j: nat)
    requires !GoesOn(want, incoming, script) && j > 0
    ensures !Asks(want, |incoming|, script, j)
  {
    assert Offered(script, 0) == 0;
  }

  lemma TakeStops(want: nat, incoming: seq<byte>, script: seq<Arrival>)
    requires !GoesOn(want, incoming, script)
    ensures var t := Take(want, incoming, script);
      && t.got == []
      && t.outcome == if want == 0 then Complete else if script != [] && script[0].Received? then Closed else Failed
  {
  }

  lemma TakeGoesOn(want: nat, incoming: seq<byte>, script: seq<Arrival>)
    requires GoesOn(want, incoming, script)
    ensures var k := First(want, incoming, script);
      var t, u := Take(want, incoming, script), Take(want - k, incoming[k..], script[1..]);
      t.outcome == u.outcome && t.got == incoming[..k] + u.got
  {
  }

  /** A read that comes to a receive that delivers nothing, or to one that fails, ends there. */
  lemma {:induction false} TakeEndsAt(want: nat, incoming: seq<byte>, script: seq<Arrival>, j: nat)
    ensures var t := Take(want, incoming, script);
      && (ClosesAt(want, |incoming|, script, j) ==> t.outcome == Closed)
      && (BreaksAt(want, |incoming|, script, j) ==> t.outcome == Failed)
      && (ClosesAt(want, |incoming|, script, j) || BreaksAt(want, |incoming|, script, j) ==>
            |t.got| == Min(Offered(script, j), |incoming|))
    decreases |script|
  {
    hide Take, First;
    if !GoesOn(want, incoming, script) {
      EndsAtOnce(want, incoming, script);
      TakeStops(want, incoming, script);
      if j > 0 {
        NothingFurther(want, incoming, script, j);
      }
    } else if j == 0 {
      EndsAtOnce(want, incoming, script);
    } else {
      EndsLater(want, incoming, script, j - 1);
      TakeGoesOn(want, incoming, script);
      var k := First(want, incoming, script);
      hide Asks;
      TakeEndsAt(want - k, incoming[k..], script[1..], j - 1);
    }
  }

  /** A read that is not complete ended at some receive. */
  lemma {:induction false} TakeEnds(want: nat, incoming: seq<byte>, script: seq<Arrival>) returns (j: nat)
    ensures var t := Take(want, incoming, script);
      && (t.outcome == Closed ==> ClosesAt(want, |incoming|, script, j))
      && (t.outcome == Failed ==> BreaksAt(want, |incoming|, script, j))
    decreases |script|
  {
    j := 0;
    if !GoesOn(want, incoming, script) {
      EndsAtOnce(want, incoming, script);
      TakeStops(want, incoming, script);
    } else {
      TakeGoesOn(want, incoming, script);
      var k := First(want, incoming, script);
      hide Take, Asks, First;
      var i := TakeEnds(want - k, incoming[k..], script[1..]);
      EndsLater(want, incoming, script, i);
      j := i + 1;
    }
  }

  /**
   What a read of a good stream reports: eof, and 0 bytes, exactly if a receive delivered nothing; bad, and
   the bytes that came before it, exactly if a receive failed; fail, and 0 bytes, exactly without a socket.
   Otherwise no bit is set and all bytes were read.
   */
  lemma ReadSignals(r: Reader, n: nat)
    requires r.state.IsGood()
    ensures var (d, got, count) := r.Read(n);
      && (d.state.failed <==> !r.connected)
      && (d.state.eof <==> r.connected && exists j :: ClosesAt(n, |r.incoming|, r.script, j))
      && (d.state.bad <==> r.connected && exists j :: BreaksAt(n, |r.incoming|, r.script, j))
      && (d.state.failed || d.state.eof ==> count == 0)
      && (d.state.bad ==> count == |got| < n)
      && (d.state.bad ==> forall j :: BreaksAt(n, |r.incoming|, r.script, j) ==>
            count == Min(Offered(r.script, j), |r.incoming|))
      && (d.state.IsGood() ==> count == |got| == n)
  {
    hide Take, Offered;
    if r.connected {
      var i := TakeEnds(n, r.incoming, r.script);
      forall j: nat
        ensures var t := Take(n, r.incoming, r.script);
          && (ClosesAt(n, |r.incoming|, r.script, j) ==> t.outcome == Closed)
          && (BreaksAt(n, |r.incoming|, r.script, j) ==>
                t.outcome == Failed && |t.got| == Min(Offered(r.script, j), |r.incoming|))
      {
        TakeEndsAt(n, r.incoming, r.script, j);
      }
    }
  }

  // --- the class ---------------------------------------------------------------------------------

  class Channel {
    var incoming: seq<byte>
    var script: seq<Arrival>

    constructor (incoming: seq<byte>, script: seq<Arrival>)
      ensures this.incoming == incoming && this.script == script
    {
      this.incoming, this.script := incoming, script;
    }

    /** `Socket::receive`: the bytes delivered, or `None` for an exception. */
    method Receive(length: nat) returns (got: Option<seq<byte>>)
      modifies this
      ensures script == if old(script) == [] then [] else old(script)[1..]
      ensures if old(script) != [] && old(script)[0].Received?
        then
          var k := Min(old(script)[0].n, Min(length, |old(incoming)|));
          got == Some(old(incoming)[..k]) && incoming == old(incoming)[k..]
        else got.None? && incoming == old(incoming)
    {
      got := None;
      if script != [] {
        if script[0].Received? {
          var k := Min(script[0].n, Min(length, |incoming|));
          got := Some(incoming[..k]);
          incoming := incoming[k..];
        }
        script := script[1..];
      }
    }
  }

  class BinaryISocket {
    var socket: Channel?
    var state: IoState

    ghost function Model(channel: Channel): Reader
      reads this, channel
    {
      Reader(socket != null, state, channel.incoming, channel.script)
    }

    constructor (socket: Channel?)
      ensures this.socket == socket && state == GOOD
    {
      this.socket, state := socket, GOOD;
    }

    /** `setSocket`. */
    method SetSocket(socket: Channel?, ghost before: Channel, ghost channel: Channel)
      requires (this.socket == null || this.socket == before) && (socket == null || socket == channel)
      modifies this
      ensures this.socket == socket
      ensures Model(channel) == old(Model(before)).SetSocket(socket != null, channel.incoming, channel.script)
    {
      this.socket := socket;
      state := state.Plus(GOOD);
    }

    /** Fills `out` from its start; the source asserts that the count fits an `int`. */
    method DoRead(out: array<byte>, numberOfBytes: nat, ghost channel: Channel) returns (count: nat)
      requires socket == null || socket == channel
      requires numberOfBytes <= out.Length && numberOfBytes < 0x8000_0000
      modifies this`state, socket, out
      ensures var (r, got, n) := old(Model(channel)).Read(numberOfBytes);
        && Model(channel) == r && count == n
        && |got| <= numberOfBytes && out[..] == got + old(out[..])[|got|..]
    {
      hide Take;
      assert out[..] == [] + out[..][0..];
      if !state.IsGood() {
        return 0;
      }
      if socket == null {
        state := state.(failed := true);
        return 0;
      }
      var outcome;
      count, outcome := ReceiveAll(socket, out, numberOfBytes);
      match outcome {
        case Complete =>
        case Closed =>
          state := state.(eof := true);
          count := 0;
        case Failed =>
          state := state.(bad := true);
      }
    }
  }

  method CopyTo(out: array<byte>, at: nat, piece: seq<byte>)
    requires at + |piece| <= out.Length
    modifies out
    ensures out[..] == old(out[..at]) + piece + old(out[at + |piece|..])
  {
    forall i | 0 <= i < |piece| {
      out[at + i] := piece[i];
    }
  }

  /** The loop of `doRead`. */
  method ReceiveAll(socket: Channel, out: array<byte>, numberOfBytes: nat) returns (count: nat, outcome: Outcome)
    requires numberOfBytes <= out.Length
    modifies socket, out
    ensures var t := Take(numberOfBytes, old(socket.incoming), old(socket.script));
      && outcome == t.outcome && count == |t.got|
      && socket.incoming == t.incoming && socket.script == t.script
      && out[..] == t.got + old(out[..])[count..]
  {
    hide Take, Before;
    ghost var goal := Take(numberOfBytes, socket.incoming, socket.script);
    ghost var before := out[..];
    ghost var got: seq<byte> := [];
    var left: nat := numberOfBytes;
    count := 0;
    BeforeNothing(goal);
    assert before == [] + before[0..];
    while left > 0
      invariant count == |got| && count + left == numberOfBytes <= |before|
      invariant out[..] == got + before[count..]
      invariant goal == Before(got, Take(left, socket.incoming, socket.script))
      decreases |socket.script|, left
    {
      ghost var taken := got;
      var ended, read;
      ended, outcome, read, got := ReceivePiece(socket, out, count, left, taken, before);
      if ended {
        return;
      }
      count := count + read;
      left := left - read;
    }
    TakeUnfold(0, socket.incoming, socket.script);
    BeforeNothingMore(got, Complete, socket.incoming, socket.script);
    outcome := Complete;
  }

  /** One round of the loop of `doRead`: the outcome, or one more piece behind the `count` bytes there are. */
  method ReceivePiece(socket: Channel, out: array<byte>, count: nat, left: nat,
                      ghost got: seq<byte>, ghost before: seq<byte>)
    returns (ended: bool, outcome: Outcome, read: nat, ghost got': seq<byte>)
    requires left > 0 && count == |got| && count + left <= |before| && out[..] == got + before[count..]
    modifies socket, out
    ensures read <= left && |got'| == count + read && out[..] == got' + before[count + read..]
    ensures ended ==> read == 0
    ensures var t := Before(got, Take(left, old(socket.incoming), old(socket.script)));
      if ended then t == Taken(got, outcome, socket.incoming, socket.script) && got' == got && out[..] == old(out[..])
      else
        && t == Before(got', Take(left - read, socket.incoming, socket.script))
        && |socket.script| < |old(socket.script)|
  {
    hide Take, Before;
    ended, outcome, read, got' := true, Failed, 0, got;
    TakeUnfold(left, socket.incoming, socket.script);
    var piece := socket.Receive(left);
    if piece.None? {
      BeforeNothingMore(got, Failed, socket.incoming, socket.script);
      return;
    }
    if piece.value == [] {
      BeforeNothingMore(got, Closed, socket.incoming, socket.script);
      outcome := Closed;
      return;
    }
    CopyTo(out, count, piece.value);
    BeforeTwice(got, piece.value, Take(left - |piece.value|, socket.incoming, socket.script));
    Overwrite(got, before, piece.value);
    ended, read, got' := false, |piece.value|, got + piece.value;
  }

  lemma BeforeNothingMore(got: seq<byte>, outcome: Outcome, incoming: seq<byte>, script: seq<Arrival>)
    ensures Before(got, Taken([], outcome, incoming, script)) == Taken(got, outcome, incoming, script)
  {
    assert got + [] == got;
  }

  lemma Overwrite(got: seq<byte>, before: seq<byte>, piece: seq<byte>)
    requires |got| + |piece| <= |before|
    ensures var s := got + before[|got|..];
      s[..|got|] + piece + s[|got| + |piece|..] == (got + piece) + before[|got| + |piece|..]
  {
  }

  lemma BeforeNothing(t: Taken)
    ensures Before([], t) == t
  {
    assert [] + t.got == t.got;
  }

  lemma BeforeTwice(a: seq<byte>, b: seq<byte>, t: Taken)
    ensures Before(a, Before(b, t)) == Before(a + b, t)
  {
    assert a + (b + t.got) == (a + b) + t.got;
  }

  lemma TakeUnfold(want: nat, incoming: seq<byte>, script: seq<Arrival>)
    ensures Take(want, incoming, script) ==
      if want == 0 then Taken([], Complete, incoming, script)
      else if script == [] then Taken([], Failed, incoming, [])
      else if script[0].Broken? then Taken([], Failed, incoming, script[1..])
      else
        var k := Min(script[0].n, Min(want, |incoming|));
        if k == 0 then Taken([], Closed, incoming, script[1..])
        else Before(incoming[..k], Take(want - k, incoming[k..], script[1..]))
  {
  }
}
