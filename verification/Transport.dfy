/**
 End to end: a `BinaryOSocket` at one end of a lossless channel, a `BinaryISocket` at the other.
 The bytes a socket of the writer takes are the bytes the channel behind it delivers.
 */
module Transport {
  import opened Bytes
  import opened Endian
  import opened Serialization
  import O = OutputSocket
  import I = InputSocket
  import S = Sessions
  import T = SocketSerialization

  /** A writer just constructed over a socket. */
  ghost predicate Fresh(w: O.Writer) {
    w.Inv() && w.sent == [] && w.accepted == [] && w.state.IsGood()
  }

  lemma CutsOfPrefix(parts: seq<seq<byte>>, counts: seq<nat>, s: seq<byte>, t: seq<byte>)
    requires |parts| == |counts| && I.Cuts(parts, counts, s) && s <= t
    ensures I.Cuts(parts, counts, t)
    decreases |counts|
  {
    if counts != [] {
      CutsOfPrefix(parts[1..], counts[1..], s[counts[0]..], t[counts[0]..]);
    }
  }

  /**
   Any interleaving of writes, flushes, flusher rounds and socket changes, any partial sends, any
   partial receives: as long as both streams are good, a reader behind the k-th socket gets consecutive
   stretches of the concatenated writes made while that socket was installed, each exactly as long as
   asked for.
   */
  lemma ReadsReturnWrites(w: O.Writer, steps: seq<O.Step>, k: nat, r: I.Reader, counts: seq<nat>)
    requires Fresh(w) && forall step :: step in steps ==> step.Possible()
    requires k < |S.Received(w, steps)| && r.connected && r.incoming == S.Received(w, steps)[k]
    requires O.Run(w, steps).state.IsGood() && I.Reads(r, counts).0.state.IsGood()
    ensures I.Cuts(I.Reads(r, counts).1, counts, S.Written(steps)[k])
  {
    S.EachSocketGetsItsWrites(w, steps, k);
    I.GoodReadsAreExact(r, counts);
    hide O.Run, I.Reads, S.Received, S.Written;
    CutsOfPrefix(I.Reads(r, counts).1, counts, r.incoming, S.Written(steps)[k]);
  }

  /** If the writer failed on the way, good reads still return stretches of what it had accepted for that socket. */
  lemma ReadsReturnAccepted(w: O.Writer, steps: seq<O.Step>, k: nat, r: I.Reader, counts: seq<nat>)
    requires Fresh(w) && forall step :: step in steps ==> step.Possible()
    requires k < |S.Received(w, steps)| && r.connected && r.incoming == S.Received(w, steps)[k]
    requires I.Reads(r, counts).0.state.IsGood()
    ensures I.Cuts(I.Reads(r, counts).1, counts, S.Accepted(w, steps)[k])
  {
    S.EachSocketGetsAPrefix(w, steps, k);
    I.GoodReadsAreExact(r, counts);
    hide O.Run, I.Reads, S.Received, S.Accepted;
    CutsOfPrefix(I.Reads(r, counts).1, counts, r.incoming, S.Accepted(w, steps)[k]);
  }

  /**
   Typed values end to end, whatever fails on the way: if the writes made while the k-th socket was
   installed are a list of values, a reader behind that socket gets some of the values from the first
   on, each whole, and no other; it gets all of them if and only if its stream is good afterwards.
   */
  lemma TypedValuesArrive(w: O.Writer, steps: seq<O.Step>, k: nat, items: seq<Item>, writer: Endianness, r: I.Reader,
                          m: Machine) returns (n: nat)
    requires Fresh(w) && forall step :: step in steps ==> step.Possible()
    requires k < |S.Received(w, steps)| && r.connected && r.state.IsGood() && r.incoming == S.Received(w, steps)[k]
    requires AllValid(items) && T.AllFit(items) && S.Written(steps)[k] == WrittenAll(items, m.stream, writer)
    ensures var (r', got) := T.ReadItems(r, Kinds(items), m);
      && T.WholeUpTo(got, items, n)
      && (r'.state.IsGood() <==> n == |items|)
  {
    S.EachSocketGetsAPrefix(w, steps, k);
    S.AcceptedWithinWritten(w, steps, k);
    hide S.Received, S.Accepted, S.Written, WrittenAll, T.ReadItems;
    assert WrittenAll(items, m.stream, writer) + [] == WrittenAll(items, m.stream, writer);
    n := T.ItemsArrive(r, items, [], writer, m);
  }
}
