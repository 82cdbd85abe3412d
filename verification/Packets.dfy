/**
 The packet structure that both run-length coders share.  A line of items is cut into
 raw packets (literal items) and run packets (one item repeated).  `Step` says, by
 looking at the line alone, when a packet may stand at a position; a coder is then
 specified by `Covers`, without mentioning any of its loop variables.
 */
module Packets {

  datatype Packet<T> = Raw(items: seq<T>) | Run(item: T, count: nat)

  /** The two constants in which the coders differ: shortest and longest run packet. */
  datatype Limits = Limits(minRun: nat, maxRun: nat)

  const MAX_RAW: nat := 128

  function Length<T>(p: Packet<T>): nat {
    match p
    case Raw(items) => |items|
    case Run(_, count) => count
  }

  /** The items from `at` on start with at least `n` equal ones. */
  ghost predicate RunAt<T>(line: seq<T>, at: nat, n: nat) {
    && at + n <= |line|
    && forall i :: at <= i < at + n ==> line[i] == line[at]
  }

  /**
   Packet `p` is the one a greedy coder emits at position `at`: a raw packet holds no
   position where a run could start and is cut short only by such a position, by the end
   of the line or by its capacity; a run packet is cut short only by a different item, by
   the end of the line or by its capacity.
   */
  ghost predicate Step<T>(p: Packet<T>, line: seq<T>, at: nat, lim: Limits) {
    && at + Length(p) <= |line|
    && match p
       case Raw(items) =>
         && 1 <= |items| <= MAX_RAW
         && items == line[at..at + |items|]
         && (forall i :: at <= i < at + |items| ==> !RunAt(line, i, lim.minRun))
         && (|items| < MAX_RAW && at + |items| < |line| ==> RunAt(line, at + |items|, lim.minRun))
       case Run(item, count) =>
         && lim.minRun <= count <= lim.maxRun
         && (forall i :: at <= i < at + count ==> line[i] == item)
         && (count < lim.maxRun && at + count < |line| ==> line[at + count] != item)
  }

  /** The packets `ps`, one after the other, take the line from `from` to `to`. */
  ghost predicate Covers<T>(ps: seq<Packet<T>>, line: seq<T>, from: nat, to: nat, lim: Limits) {
    if ps == [] then from == to
    else Step(ps[0], line, from, lim) && Covers(ps[1..], line, from + Length(ps[0]), to, lim)
  }

  lemma CoversUnfold<T>(ps: seq<Packet<T>>, line: seq<T>, from: nat, to: nat, lim: Limits)
    requires 1 <= lim.minRun && Covers(ps, line, from, to, lim)
    ensures ps == [] ==> from == to
    ensures ps != [] ==>
      && Step(ps[0], line, from, lim)
      && from < from + Length(ps[0]) <= |line|
      && Covers(ps[1..], line, from + Length(ps[0]), to, lim)
  {
  }

  lemma CoversNothing<T>(line: seq<T>, lim: Limits)
    requires line != []
    ensures !Covers([], line, 0, |line|, lim)
  {
  }

  lemma StepBehind<T>(p: Packet<T>, line: seq<T>, k: nat, at: nat, lim: Limits)
    requires k <= |line| && 1 <= lim.minRun && Step(p, line, k + at, lim)
    ensures Step(p, line[k..], at, lim)
  {
    assert forall i :: k <= i < |line| ==> line[k..][i - k] == line[i];
    forall i | 0 <= i
      ensures RunAt(line[k..], i, lim.minRun) <==> RunAt(line, k + i, lim.minRun)
    {
      RunBehind(line, k, i, lim.minRun);
    }
    hide RunAt;
  }

  lemma RunBehind<T>(line: seq<T>, k: nat, i: nat, n: nat)
    requires k <= |line| && n >= 1
    ensures RunAt(line[k..], i, n) <==> RunAt(line, k + i, n)
  {
    if RunAt(line[k..], i, n) {
      forall j | k + i <= j < k + i + n
        ensures line[j] == line[k + i]
      {
        assert line[j] == line[k..][j - k];
      }
    }
  }

  /** What covers the end of a line covers that end as a line of its own. */
  lemma {:induction false} CoversBehind<T>(ps: seq<Packet<T>>, line: seq<T>, k: nat, at: nat, lim: Limits)
    requires k + at <= |line| && 1 <= lim.minRun && Covers(ps, line, k + at, |line|, lim)
    ensures Covers(ps, line[k..], at, |line| - k, lim)
    decreases |ps|
  {
    hide Step;
    CoversUnfold(ps, line, k + at, |line|, lim);
    if ps != [] {
      StepBehind(ps[0], line, k, at, lim);
      CoversBehind(ps[1..], line, k, at + Length(ps[0]), lim);
    }
  }

  lemma {:induction false} CoversAppend<T>(ps: seq<Packet<T>>, p: Packet<T>, line: seq<T>,
                                           from: nat, to: nat, lim: Limits)
    requires Covers(ps, line, from, to, lim)
    requires Step(p, line, to, lim)
    ensures Covers(ps + [p], line, from, to + Length(p), lim)
  {
    hide Step, Length;
    if ps == [] {
      assert (ps + [p])[1..] == [];
    } else {
      CoversAppend(ps[1..], p, line, from + Length(ps[0]), to, lim);
      assert (ps + [p])[1..] == ps[1..] + [p];
    }
  }

  /** After a raw packet that was cut short by an item, not by the end of the line, comes a run. */
  lemma ShortRawIsFollowedByRun<T>(p: Packet<T>, q: Packet<T>, line: seq<T>, at: nat, lim: Limits)
    requires p.Raw? && Length(p) < MAX_RAW && at + Length(p) < |line|
    requires Step(p, line, at, lim) && Step(q, line, at + Length(p), lim)
    ensures q.Run?
  {
    assert RunAt(line, at + Length(p), lim.minRun);
  }

  /** At every position at most one packet satisfies `Step`. */
  lemma StepIsDeterministic<T>(p: Packet<T>, q: Packet<T>, line: seq<T>, at: nat, lim: Limits)
    requires 2 <= lim.minRun
    requires Step(p, line, at, lim) && Step(q, line, at, lim)
    ensures p == q
  {
    match (p, q) {
      case (Raw(a), Raw(b)) =>
        assert |a| == |b|;
      case (Run(i, m), Run(j, n)) =>
        assert i == line[at] == j;
        assert m == n;
      case (Raw(_), Run(_, _)) =>
        assert RunAt(line, at, lim.minRun);
      case (Run(_, _), Raw(_)) =>
        assert RunAt(line, at, lim.minRun);
    }
  }

  /** The packets are a function of the line: two coverings of the same stretch are equal. */
  lemma {:induction false} CoveringIsUnique<T>(ps: seq<Packet<T>>, qs: seq<Packet<T>>, line: seq<T>,
                                               from: nat, lim: Limits)
    requires 2 <= lim.minRun
    requires Covers(ps, line, from, |line|, lim) && Covers(qs, line, from, |line|, lim)
    ensures ps == qs
  {
    if ps == [] || qs == [] {
    } else {
      StepIsDeterministic(ps[0], qs[0], line, from, lim);
      CoveringIsUnique(ps[1..], qs[1..], line, from + Length(ps[0]), lim);
    }
  }
}
