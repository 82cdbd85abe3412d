/** Tables stored row after row in one sequence. */
module Rows {

  /** The rows of `width` values that lie one after the other in `s`. */
  function Split<T>(s: seq<T>, width: nat): (rows: seq<seq<T>>)
    requires width >= 1
    ensures forall row :: row in rows ==> |row| == width
  {
    if |s| < width then [] else [s[..width]] + Split(s[width..], width)
  }

  /** Where row `i` starts: `i * width`. */
  function Offset(i: nat, width: nat): nat {
    if i == 0 then 0 else Offset(i - 1, width) + width
  }

  lemma {:induction false} OffsetIsProduct(i: nat, width: nat)
    ensures Offset(i, width) == i * width
  {
    if i == 0 {
    } else {
      OffsetIsProduct(i - 1, width);
      assert (i - 1) * width == i * width - width;
    }
  }

  lemma {:induction false} SplitCount<T>(s: seq<T>, width: nat, count: nat)
    requires width >= 1 && |s| == Offset(count, width)
    ensures |Split(s, width)| == count
    decreases count
  {
    if count == 0 {
    } else {
      SplitCount(s[width..], width, count - 1);
    }
  }

  lemma SliceBehind<T>(s: seq<T>, width: nat, from: nat, count: nat)
    requires width + from + count <= |s|
    ensures s[width..][from..from + count] == s[from + width..from + width + count]
  {
  }

  lemma {:induction false} SplitRow<T>(s: seq<T>, width: nat, i: nat)
    requires width >= 1 && i < |Split(s, width)|
    ensures Offset(i, width) + width <= |s|
    ensures Split(s, width)[i] == s[Offset(i, width)..Offset(i, width) + width]
    decreases i
  {
    SplitCons(s, width);
    hide Split;
    if i == 0 {
    } else {
      SplitRow(s[width..], width, i - 1);
      assert Offset(i, width) == Offset(i - 1, width) + width;
      hide Offset;
      SliceBehind(s, width, Offset(i - 1, width), width);
    }
  }

  function Overwritten<T>(s: seq<T>, at: nat, row: seq<T>): (t: seq<T>)
    requires at + |row| <= |s|
    ensures |t| == |s|
  {
    s[..at] + row + s[at + |row|..]
  }

  lemma IsOverwritten<T>(s: seq<T>, t: seq<T>, at: nat, row: seq<T>)
    requires |t| == |s| && at + |row| <= |s|
    requires forall k :: 0 <= k < |s| && !(at <= k < at + |row|) ==> t[k] == s[k]
    requires forall k :: at <= k < at + |row| ==> t[k] == row[k - at]
    ensures t == Overwritten(s, at, row)
  {
  }

  lemma OverwrittenTail<T>(s: seq<T>, at: nat, row: seq<T>, width: nat)
    requires width <= at && at + |row| <= |s|
    ensures Overwritten(s, at, row)[..width] == s[..width]
    ensures Overwritten(s, at, row)[width..] == Overwritten(s[width..], at - width, row)
  {
  }

  lemma SplitCons<T>(s: seq<T>, width: nat)
    requires 1 <= width <= |s|
    ensures Split(s, width) == [s[..width]] + Split(s[width..], width)
  {
  }

  lemma UpdateBehind<T>(first: seq<T>, rows: seq<seq<T>>, i: nat, row: seq<T>)
    requires 1 <= i <= |rows|
    ensures ([first] + rows)[i := row] == [first] + rows[i - 1 := row]
  {
  }

  lemma SplitUpdateFirst<T>(s: seq<T>, width: nat, row: seq<T>)
    requires 1 <= width == |row| <= |s|
    ensures Split(Overwritten(s, 0, row), width) == [row] + Split(s[width..], width)
  {
    var t := Overwritten(s, 0, row);
    SplitCons(t, width);
    hide Split;
    assert t[..width] == row;
    assert t[width..] == s[width..];
  }

  /** Writing over row `i` changes that row and no other. */
  lemma {:induction false} SplitUpdate<T>(s: seq<T>, width: nat, i: nat, row: seq<T>)
    requires width >= 1 && i < |Split(s, width)| && |row| == width
    requires Offset(i, width) + width <= |s|
    ensures Split(Overwritten(s, Offset(i, width), row), width) == Split(s, width)[i := row]
    decreases i
  {
    hide Overwritten, Split;
    SplitCons(s, width);
    if i == 0 {
      SplitUpdateFirst(s, width, row);
    } else {
      var at := Offset(i, width);
      assert at == Offset(i - 1, width) + width;
      hide Offset;
      OverwrittenTail(s, at, row, width);
      SplitCons(Overwritten(s, at, row), width);
      SplitUpdate(s[width..], width, i - 1, row);
      UpdateBehind(s[..width], Split(s[width..], width), i, row);
    }
  }

  // --- rows of images, whose width may be 0 ------------------------------------------------------

  lemma {:induction false} OffsetBound(i: nat, count: nat, width: nat)
    requires i < count
    ensures Offset(i, width) + width <= Offset(count, width)
    decreases count
  {
    if i + 1 == count {
    } else {
      OffsetBound(i, count - 1, width);
    }
  }

  function Line<T>(s: seq<T>, i: nat, width: nat): (line: seq<T>)
    requires Offset(i, width) + width <= |s|
    ensures |line| == width
  {
    s[Offset(i, width)..Offset(i, width) + width]
  }

  /** Lines of `count * width` items determine them all. */
  lemma {:induction false} LinesDetermine<T>(s: seq<T>, t: seq<T>, count: nat, width: nat)
    requires |s| == |t| == Offset(count, width)
    requires forall i :: 0 <= i < count ==>
      (OffsetBound(i, count, width); Line(s, i, width) == Line(t, i, width))
    ensures s == t
    decreases count
  {
    if count == 0 {
    } else {
      var at := Offset(count - 1, width);
      forall i | 0 <= i < count - 1
        ensures (OffsetBound(i, count - 1, width); Line(s[..at], i, width) == Line(t[..at], i, width))
      {
        OffsetBound(i, count, width);
        OffsetBound(i, count - 1, width);
        assert Line(s[..at], i, width) == Line(s, i, width);
        assert Line(t[..at], i, width) == Line(t, i, width);
      }
      LinesDetermine(s[..at], t[..at], count - 1, width);
      OffsetBound(count - 1, count, width);
      assert s == s[..at] + Line(s, count - 1, width);
      assert t == t[..at] + Line(t, count - 1, width);
    }
  }

  lemma SliceOfOverwritten<T>(s: seq<T>, at: nat, row: seq<T>, from: nat, count: nat)
    requires at + |row| <= |s| && from + count <= |s|
    requires from + count <= at || at + |row| <= from || (from == at && count == |row|)
    ensures Overwritten(s, at, row)[from..from + count] ==
      if from == at && count == |row| then row else s[from..from + count]
  {
  }

  /** Writing over one line leaves the others alone. */
  lemma LineOfOverwritten<T>(s: seq<T>, j: nat, line: seq<T>, i: nat, count: nat, width: nat)
    requires |s| == Offset(count, width) && |line| == width && i < count && j < count
    ensures Offset(i, width) + width <= |s| && Offset(j, width) + width <= |s|
    ensures Line(Overwritten(s, Offset(j, width), line), i, width) == if i == j then line else Line(s, i, width)
  {
    hide Offset, Overwritten;
    OffsetBound(i, count, width);
    OffsetBound(j, count, width);
    if i < j {
      OffsetBound(i, j, width);
    } else if j < i {
      OffsetBound(j, i, width);
    }
    SliceOfOverwritten(s, Offset(j, width), line, Offset(i, width), width);
  }

  function Lines<T>(s: seq<T>, rows: nat, cols: nat): (lines: seq<seq<T>>)
    requires |s| == Offset(rows, cols)
    ensures |lines| == rows && forall y :: 0 <= y < rows ==> |lines[y]| == cols
  {
    seq(rows, y requires 0 <= y < rows && |s| == Offset(rows, cols) => (OffsetBound(y, rows, cols); Line(s, y, cols)))
  }

  lemma LinesAreAll<T>(a: seq<T>, b: seq<T>, rows: nat, cols: nat)
    requires |a| == |b| == Offset(rows, cols) && Lines(a, rows, cols) == Lines(b, rows, cols)
    ensures a == b
  {
    forall y | 0 <= y < rows
      ensures (OffsetBound(y, rows, cols); Line(a, y, cols) == Line(b, y, cols))
    {
      OffsetBound(y, rows, cols);
      assert Lines(a, rows, cols)[y] == Line(a, y, cols) && Lines(b, rows, cols)[y] == Line(b, y, cols);
    }
    LinesDetermine(a, b, rows, cols);
  }

  /** Where number `i` of `count` goes: from the start on, or from the end back. */
  function Place(i: nat, count: nat, forwards: bool): (place: nat)
    requires i < count
    ensures place < count
  {
    if forwards then i else count - 1 - i
  }

  lemma PlaceTwice(i: nat, count: nat, forwards: bool)
    requires i < count
    ensures Place(Place(i, count, forwards), count, forwards) == i
  {
  }

  datatype Picture<T> = Picture(rows: nat, cols: nat, lines: seq<seq<T>>)

  ghost predicate Rectangular<T>(p: Picture<T>) {
    |p.lines| == p.rows && forall y :: 0 <= y < p.rows ==> |p.lines[y]| == p.cols
  }
}
