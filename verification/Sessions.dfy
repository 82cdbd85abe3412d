/**
 A stream whose socket is replaced during its life: what each of the sockets receives.  The flush that
 `setSocket` begins with still goes to the socket that is replaced.
 */
module Sessions {
  import opened Bytes
  import opened OutputSocket

  /** One more piece for the first socket; a socket change ends what that socket gets. */
  function Attach(piece: seq<byte>, change: bool, pieces: seq<seq<byte>>): (r: seq<seq<byte>>)
    requires pieces != []
    ensures |r| == if change then |pieces| + 1 else |pieces|
  {
    if change then [piece] + pieces else [piece + pieces[0]] + pieces[1..]
  }

  /** The bytes of the writes, grouped by the socket that was installed. */
  function Written(steps: seq<Step>): (r: seq<seq<byte>>)
    ensures r != []
  {
    if steps == [] then [[]] else Attach(Data(steps[0]), steps[0].SetSocketStep?, Written(steps[1..]))
  }

  /** The bytes each socket took in a run. */
  function Received(w: Writer, steps: seq<Step>): (r: seq<seq<byte>>)
    requires w.Inv() && forall step :: step in steps ==> step.Possible()
    ensures |r| == |Written(steps)|
    decreases |steps|
  {
    if steps == [] then [[]]
    else
      FirstIsPossible(w, steps);
      var w' := Apply(w, steps[0]);
      Attach(w'.sent[|w.sent|..], steps[0].SetSocketStep?, Received(w', steps[1..]))
  }

  /** The bytes accepted while each socket was installed. */
  function Accepted(w: Writer, steps: seq<Step>): (r: seq<seq<byte>>)
    requires w.Inv() && forall step :: step in steps ==> step.Possible()
    ensures |r| == |Written(steps)|
    decreases |steps|
  {
    if steps == [] then [[]]
    else
      FirstIsPossible(w, steps);
      var w' := Apply(w, steps[0]);
      Attach(w'.accepted[|w.accepted|..], steps[0].SetSocketStep?, Accepted(w', steps[1..]))
  }

  lemma FirstIsPossible(w: Writer, steps: seq<Step>)
    requires w.Inv() && steps != [] && forall step :: step in steps ==> step.Possible()
    ensures steps[0].Possible() && Apply(w, steps[0]).Inv()
    ensures w.sent <= Apply(w, steps[0]).sent && w.accepted <= Apply(w, steps[0]).accepted
  {
    assert steps[0] in steps;
    hide Apply, Writer.Inv;
    StepKeepsInv(w, steps[0]);
  }

  /** The bytes accepted and not yet sent. */
  function Gap(w: Writer): seq<byte>
    requires w.sent <= w.accepted
  {
    w.accepted[|w.sent|..]
  }

  lemma GapOfGood(w: Writer)
    requires w.Inv() && w.state.IsGood()
    ensures Gap(w) == w.buffer[..w.current]
  {
  }

  /** What a step accepts comes behind the gap, what it sends leaves it in front. */
  lemma GapMoves(w: Writer, w': Writer)
    requires w.sent <= w.accepted && w'.sent <= w'.accepted && w.sent <= w'.sent && w.accepted <= w'.accepted
    ensures Gap(w) + w'.accepted[|w.accepted|..] == w'.sent[|w.sent|..] + Gap(w')
  {
    assert w.accepted + w'.accepted[|w.accepted|..] == w'.accepted == w'.sent + Gap(w');
    assert (w.accepted + w'.accepted[|w.accepted|..])[|w.sent|..] == Gap(w) + w'.accepted[|w.accepted|..];
    assert (w'.sent + Gap(w'))[|w.sent|..] == w'.sent[|w.sent|..] + Gap(w');
  }

  /** A socket change on a stream that stays good leaves no gap. */
  lemma ChangeClosesGap(w: Writer, step: Step)
    requires w.Inv() && step.Possible() && step.SetSocketStep? && Apply(w, step).state.IsGood()
    ensures Apply(w, step).Inv() && Gap(Apply(w, step)) == []
  {
    hide Writer.Flush;
    StepKeepsInv(w, step);
    GapOfGood(Apply(w, step));
  }

  // --- on a good stream --------------------------------------------------------------------------

  /** The sockets got the writes, but for what is still in the buffer of the last one. */
  ghost predicate Match(gap: seq<byte>, written: seq<seq<byte>>, received: seq<seq<byte>>, live: seq<byte>)
    requires written != [] && |written| == |received|
  {
    forall k :: 0 <= k < |written| ==>
      received[k] + (if k == |written| - 1 then live else []) == (if k == 0 then gap else []) + written[k]
  }

  lemma MatchAttach(gap: seq<byte>, data: seq<byte>, sent: seq<byte>, gap': seq<byte>, change: bool,
                    written: seq<seq<byte>>, received: seq<seq<byte>>, live: seq<byte>)
    requires written != [] && |written| == |received| && Match(gap', written, received, live)
    requires gap + data == sent + gap' && (change ==> gap' == [])
    ensures Match(gap, Attach(data, change, written), Attach(sent, change, received), live)
  {
    var w, r := Attach(data, change, written), Attach(sent, change, received);
    var last := |w| - 1;
    forall k | 0 <= k < |w|
      ensures r[k] + (if k == last then live else []) == (if k == 0 then gap else []) + w[k]
    {
      if change {
        if k == 0 {
          assert sent + [] == gap + data;
        } else {
          assert received[k - 1] + (if k == last then live else []) == [] + written[k - 1];
        }
      } else if k == 0 {
        var end := if last == 0 then live else [];
        assert received[0] + end == gap' + written[0];
        Associate(sent, received[0], end);
        Associate(sent, gap', written[0]);
        Associate(gap, data, written[0]);
      } else {
        assert received[k] + (if k == last then live else []) == [] + written[k];
      }
    }
  }

  lemma {:induction false} ReceivedMatchesWritten(w: Writer, steps: seq<Step>)
    requires w.Inv() && (forall step :: step in steps ==> step.Possible()) && Run(w, steps).state.IsGood()
    ensures Run(w, steps).Inv()
    ensures Match(Gap(w), Written(steps), Received(w, steps), Gap(Run(w, steps)))
    decreases |steps|
  {
    if steps == [] {
      assert Gap(w) + [] == Gap(w) && [] + Gap(w) == Gap(w);
    } else {
      FirstIsPossible(w, steps);
      var w' := Apply(w, steps[0]);
      ReceivedMatchesWritten(w', steps[1..]);
      StepToEnd(w, steps);
      hide Apply, Run, Writer.Inv, Attach, Match;
      if steps[0].SetSocketStep? {
        ChangeClosesGap(w, steps[0]);
      }
      GapMoves(w, w');
      MatchAttach(Gap(w), Data(steps[0]), w'.sent[|w.sent|..], Gap(w'), steps[0].SetSocketStep?,
                  Written(steps[1..]), Received(w', steps[1..]), Gap(Run(w, steps)));
    }
  }

  /** A run that ends well has a good first step, which accepts its data. */
  lemma StepToEnd(w: Writer, steps: seq<Step>)
    requires w.Inv() && steps != [] && (forall step :: step in steps ==> step.Possible())
    requires Run(w, steps).state.IsGood()
    ensures Apply(w, steps[0]).Inv() && Run(w, steps) == Run(Apply(w, steps[0]), steps[1..])
    ensures Apply(w, steps[0]).state.IsGood() && w.state.IsGood()
    ensures w.accepted <= Apply(w, steps[0]).accepted
    ensures Apply(w, steps[0]).accepted[|w.accepted|..] == Data(steps[0])
  {
    FirstIsPossible(w, steps);
    hide Apply, Writer.Inv;
    assert steps[0] in steps;
    StepKeepsInv(w, steps[0]);
    RunInvariant(Apply(w, steps[0]), steps[1..]);
  }

  /**
   While the stream is good, every socket that has been replaced received exactly the bytes written while
   it was installed; the present one received them up to what is still in the buffer.
   */
  lemma EachSocketGetsItsWrites(w: Writer, steps: seq<Step>, k: nat)
    requires w.Inv() && w.sent == w.accepted && (forall step :: step in steps ==> step.Possible())
    requires Run(w, steps).state.IsGood() && k < |Written(steps)|
    ensures Run(w, steps).current <= |Run(w, steps).buffer|
    ensures var live := Run(w, steps).buffer[..Run(w, steps).current];
      if k < |Written(steps)| - 1 then Received(w, steps)[k] == Written(steps)[k]
      else Received(w, steps)[k] + live == Written(steps)[k]
  {
    ReceivedMatchesWritten(w, steps);
    GapOfGood(Run(w, steps));
    hide Run, Written, Received;
    assert Gap(w) == [];
    assert [] + Written(steps)[k] == Written(steps)[k];
    assert Received(w, steps)[k] + [] == Received(w, steps)[k];
  }

  // --- when the stream fails ---------------------------------------------------------------------

  /** No socket got more than was accepted for it. */
  ghost predicate Within(gap: seq<byte>, accepted: seq<seq<byte>>, received: seq<seq<byte>>)
    requires |accepted| == |received|
  {
    forall k :: 0 <= k < |accepted| ==> received[k] <= (if k == 0 then gap else []) + accepted[k]
  }

  lemma WithinAttach(gap: seq<byte>, more: seq<byte>, sent: seq<byte>, gap': seq<byte>, change: bool,
                     accepted: seq<seq<byte>>, received: seq<seq<byte>>)
    requires accepted != [] && |accepted| == |received| && Within(gap', accepted, received)
    requires gap + more == sent + gap'
    requires change ==> Within([], accepted, received)
    ensures Within(gap, Attach(more, change, accepted), Attach(sent, change, received))
  {
    var a, r := Attach(more, change, accepted), Attach(sent, change, received);
    forall k | 0 <= k < |a|
      ensures r[k] <= (if k == 0 then gap else []) + a[k]
    {
      if change {
        if k == 0 {
          assert sent <= sent + gap';
        } else {
          assert received[k - 1] <= [] + accepted[k - 1];
        }
      } else if k == 0 {
        assert received[0] <= gap' + accepted[0];
        WithinFirst(gap, more, sent, gap', accepted[0], received[0]);
      } else {
        assert received[k] <= [] + accepted[k];
      }
    }
  }

  lemma WithinFirst(gap: seq<byte>, more: seq<byte>, sent: seq<byte>, gap': seq<byte>, a: seq<byte>, r: seq<byte>)
    requires gap + more == sent + gap' && r <= gap' + a
    ensures sent + r <= gap + (more + a)
  {
    Associate(sent, gap', a);
    Associate(gap, more, a);
    PrefixBehind(sent, r, gap' + a);
  }

  lemma PrefixBehind(a: seq<byte>, b: seq<byte>, c: seq<byte>)
    requires b <= c
    ensures a + b <= a + c
  {
    assert c == b + c[|b|..];
    Associate(a, b, c[|b|..]);
  }

  lemma {:induction false} NothingAfterFailure(w: Writer, steps: seq<Step>)
    requires w.Inv() && !w.state.IsGood() && forall step :: step in steps ==> step.Possible()
    ensures forall k :: 0 <= k < |Received(w, steps)| ==> Received(w, steps)[k] == []
    decreases |steps|
  {
    if steps == [] {
    } else {
      FirstIsPossible(w, steps);
      BadStepIsFrozen(w, steps[0]);
      hide Apply, Writer.Inv;
      NothingAfterFailure(Apply(w, steps[0]), steps[1..]);
    }
  }

  lemma {:induction false} ReceivedWithinAccepted(w: Writer, steps: seq<Step>)
    requires w.Inv() && forall step :: step in steps ==> step.Possible()
    ensures Within(Gap(w), Accepted(w, steps), Received(w, steps))
    decreases |steps|
  {
    if steps == [] {
    } else {
      FirstIsPossible(w, steps);
      var w' := Apply(w, steps[0]);
      ReceivedWithinAccepted(w', steps[1..]);
      if steps[0].SetSocketStep? {
        if w'.state.IsGood() {
          ChangeClosesGap(w, steps[0]);
        } else {
          NothingAfterFailure(w', steps[1..]);
        }
      }
      hide Apply, Writer.Inv, Attach;
      GapMoves(w, w');
      WithinAttach(Gap(w), w'.accepted[|w.accepted|..], w'.sent[|w.sent|..], Gap(w'), steps[0].SetSocketStep?,
                   Accepted(w', steps[1..]), Received(w', steps[1..]));
    }
  }

  /** Whatever fails, each socket received a prefix of what was accepted while it was installed. */
  lemma EachSocketGetsAPrefix(w: Writer, steps: seq<Step>, k: nat)
    requires w.Inv() && w.sent == w.accepted && forall step :: step in steps ==> step.Possible()
    requires k < |Received(w, steps)|
    ensures Received(w, steps)[k] <= Accepted(w, steps)[k]
  {
    ReceivedWithinAccepted(w, steps);
    hide Received, Accepted;
    assert Gap(w) == [];
    assert [] + Accepted(w, steps)[k] == Accepted(w, steps)[k];
  }

  /** A stream that fails accepts a prefix of what is being written, and nothing later. */
  lemma {:induction false} AcceptedWithinWritten(w: Writer, steps: seq<Step>, k: nat)
    requires w.Inv() && (forall step :: step in steps ==> step.Possible()) && k < |Written(steps)|
    ensures Accepted(w, steps)[k] <= Written(steps)[k]
    decreases |steps|
  {
    if steps == [] {
    } else {
      FirstIsPossible(w, steps);
      assert steps[0] in steps;
      StepKeepsInv(w, steps[0]);
      var w' := Apply(w, steps[0]);
      var piece, data, change := w'.accepted[|w.accepted|..], Data(steps[0]), steps[0].SetSocketStep?;
      PieceOfData(w.accepted, w'.accepted, data);
      hide Apply, Writer.Inv, Attach;
      var j := if change && k > 0 then k - 1 else if change then 0 else k;
      AcceptedWithinWritten(w', steps[1..], j);
      if !w'.state.IsGood() {
        NothingAcceptedAfterFailure(w', steps[1..]);
      }
      AttachKeepsPrefix(piece, data, change, Accepted(w', steps[1..]), Written(steps[1..]), k);
    }
  }

  lemma AttachKeepsPrefix(piece: seq<byte>, data: seq<byte>, change: bool, a: seq<seq<byte>>, b: seq<seq<byte>>, k: nat)
    requires a != [] && |a| == |b| && piece <= data && k < |Attach(data, change, b)|
    requires if change then k > 0 ==> a[k - 1] <= b[k - 1] else a[k] <= b[k]
    requires piece == data || a[0] == []
    ensures Attach(piece, change, a)[k] <= Attach(data, change, b)[k]
  {
    if !change && k == 0 {
      if piece == data {
        PrefixBehind(piece, a[0], b[0]);
      } else {
        assert piece + [] == piece;
        assert data <= data + b[0];
      }
    }
  }

  lemma PieceOfData(a: seq<byte>, b: seq<byte>, data: seq<byte>)
    requires a <= b <= a + data
    ensures b[|a|..] <= data
    ensures b == a + data ==> b[|a|..] == data
  {
  }

  lemma {:induction false} NothingAcceptedAfterFailure(w: Writer, steps: seq<Step>)
    requires w.Inv() && !w.state.IsGood() && forall step :: step in steps ==> step.Possible()
    ensures forall k :: 0 <= k < |Accepted(w, steps)| ==> Accepted(w, steps)[k] == []
    decreases |steps|
  {
    if steps == [] {
    } else {
      FirstIsPossible(w, steps);
      BadStepIsFrozen(w, steps[0]);
      hide Apply, Writer.Inv;
      NothingAcceptedAfterFailure(Apply(w, steps[0]), steps[1..]);
    }
  }
}
