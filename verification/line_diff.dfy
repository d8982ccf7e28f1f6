/**
 * The line-by-line comparison shown when two saved versions are compared: a
 * two-pointer walk over the old and the new lines with a one-line look-ahead.
 */
module LineDiff {
  import Text

  datatype Kind = Added | Removed | Unchanged

  /** One line of the comparison (its display line number is not modelled). */
  datatype DiffLine = DiffLine(kind: Kind, text: string)

  /** The old side: texts of removed and unchanged lines, in order. */
  function Left(d: seq<DiffLine>): seq<string> {
    if d == [] then []
    else Left(d[..|d| - 1]) + if d[|d| - 1].kind == Added then [] else [d[|d| - 1].text]
  }

  /** The new side: texts of added and unchanged lines, in order. */
  function Right(d: seq<DiffLine>): seq<string> {
    if d == [] then []
    else Right(d[..|d| - 1]) + if d[|d| - 1].kind == Removed then [] else [d[|d| - 1].text]
  }

  /** `lines.indexOf(x)`: the first index holding `x`, or -1. */
  function IndexOfLine(lines: seq<string>, x: string): (r: int)
    ensures -1 <= r < |lines|
    ensures r >= 0 ==> lines[r] == x
  {
    if lines == [] then -1
    else if lines[0] == x then 0
    else
      var k := IndexOfLine(lines[1..], x);
      if k == -1 then -1 else k + 1
  }

  /** No line before the index `IndexOfLine` reports holds `x`; with -1, no line at all does. */
  lemma {:induction false} IndexOfLineIsFirst(lines: seq<string>, x: string)
    ensures var r := IndexOfLine(lines, x);
      forall k :: 0 <= k < |lines| && (r == -1 || k < r) ==> lines[k] != x
  {
    if lines != [] && lines[0] != x {
      IndexOfLineIsFirst(lines[1..], x);
      forall k | 1 <= k < |lines|
        ensures lines[k] == lines[1..][k - 1]
      {
      }
    }
  }

  /** What one turn of the walk emits, and where it leaves the two pointers. */
  datatype Move = Move(emitted: seq<DiffLine>, i: nat, j: nat)

  /** One turn of the walk at positions `i` and `j`; it advances `i`, `j`, or both. */
  function NextMove(lines1: seq<string>, lines2: seq<string>, i: nat, j: nat): (mv: Move)
    requires i <= |lines1| && j <= |lines2| && (i < |lines1| || j < |lines2|)
    ensures i <= mv.i <= |lines1| && j <= mv.j <= |lines2| && i + j < mv.i + mv.j
  {
    if i >= |lines1| then Move([DiffLine(Added, lines2[j])], i, j + 1)
    else if j >= |lines2| then Move([DiffLine(Removed, lines1[i])], i + 1, j)
    else if lines1[i] == lines2[j] then Move([DiffLine(Unchanged, lines1[i])], i + 1, j + 1)
    else
      var nextMatch1 := IndexOfLine(lines2[j + 1..], lines1[i]);
      var nextMatch2 := IndexOfLine(lines1[i + 1..], lines2[j]);
      if nextMatch1 != -1 && (nextMatch2 == -1 || nextMatch1 < nextMatch2) then
        Move([DiffLine(Removed, lines1[i])], i + 1, j)
      else if nextMatch2 != -1 && (nextMatch1 == -1 || nextMatch2 < nextMatch1) then
        Move([DiffLine(Added, lines2[j])], i, j + 1)
      else
        Move([DiffLine(Removed, lines1[i]), DiffLine(Added, lines2[j])], i + 1, j + 1)
  }

  /** The lines the walk emits from positions `i` and `j` onwards. */
  function DiffFrom(lines1: seq<string>, lines2: seq<string>, i: nat, j: nat): seq<DiffLine>
    requires i <= |lines1| && j <= |lines2|
    decreases (|lines1| - i) + (|lines2| - j), 0
  {
    if i >= |lines1| && j >= |lines2| then [] else Walk(lines1, lines2, NextMove(lines1, lines2, i, j))
  }

  /** The lines of one turn followed by the rest of the walk from where it leaves the pointers. */
  function Walk(lines1: seq<string>, lines2: seq<string>, mv: Move): seq<DiffLine>
    requires mv.i <= |lines1| && mv.j <= |lines2|
    decreases (|lines1| - mv.i) + (|lines2| - mv.j), 1
  {
    mv.emitted + DiffFrom(lines1, lines2, mv.i, mv.j)
  }

  /** The comparison of two line lists. */
  function Diff(lines1: seq<string>, lines2: seq<string>): seq<DiffLine> {
    DiffFrom(lines1, lines2, 0, 0)
  }

  lemma LeftAppend(a: seq<DiffLine>, b: seq<DiffLine>)
    ensures Left(a + b) == Left(a) + Left(b)
    decreases |b|
  {
    if b != [] {
      LeftAppend(a, b[..|b| - 1]);
      assert (a + b)[..|a + b| - 1] == a + b[..|b| - 1];
    } else {
      assert a + b == a;
    }
  }

  lemma RightAppend(a: seq<DiffLine>, b: seq<DiffLine>)
    ensures Right(a + b) == Right(a) + Right(b)
    decreases |b|
  {
    if b != [] {
      RightAppend(a, b[..|b| - 1]);
      assert (a + b)[..|a + b| - 1] == a + b[..|b| - 1];
    } else {
      assert a + b == a;
    }
  }

  lemma LeftRightOfOne(x: DiffLine)
    ensures Left([x]) == if x.kind == Added then [] else [x.text]
    ensures Right([x]) == if x.kind == Removed then [] else [x.text]
  {
    assert [x][..0] == [];
  }

  lemma LeftRightOfPair(x: DiffLine, y: DiffLine)
    requires x.kind == Removed && y.kind == Added
    ensures Left([x, y]) == [x.text] && Right([x, y]) == [y.text]
  {
    assert [x, y][..1] == [x];
    LeftRightOfOne(x);
  }

  /** One turn emits, on each side, exactly the lines its pointer moves over. */
  lemma NextMoveProjects(lines1: seq<string>, lines2: seq<string>, i: nat, j: nat)
    requires i <= |lines1| && j <= |lines2| && (i < |lines1| || j < |lines2|)
    ensures Left(NextMove(lines1, lines2, i, j).emitted) == lines1[i..NextMove(lines1, lines2, i, j).i]
    ensures Right(NextMove(lines1, lines2, i, j).emitted) == lines2[j..NextMove(lines1, lines2, i, j).j]
  {
    if i >= |lines1| {
      OneLineProjects(DiffLine(Added, lines2[j]), lines1, lines2, i, j, i, j + 1);
    } else if j >= |lines2| {
      OneLineProjects(DiffLine(Removed, lines1[i]), lines1, lines2, i, j, i + 1, j);
    } else if lines1[i] == lines2[j] {
      OneLineProjects(DiffLine(Unchanged, lines1[i]), lines1, lines2, i, j, i + 1, j + 1);
    } else {
      var nextMatch1 := IndexOfLine(lines2[j + 1..], lines1[i]);
      var nextMatch2 := IndexOfLine(lines1[i + 1..], lines2[j]);
      if nextMatch1 != -1 && (nextMatch2 == -1 || nextMatch1 < nextMatch2) {
        OneLineProjects(DiffLine(Removed, lines1[i]), lines1, lines2, i, j, i + 1, j);
      } else if nextMatch2 != -1 && (nextMatch1 == -1 || nextMatch2 < nextMatch1) {
        OneLineProjects(DiffLine(Added, lines2[j]), lines1, lines2, i, j, i, j + 1);
      } else {
        var x, y := DiffLine(Removed, lines1[i]), DiffLine(Added, lines2[j]);
        LeftRightOfPair(x, y);
        assert lines1[i..i + 1] == [lines1[i]] && lines2[j..j + 1] == [lines2[j]];
      }
    }
  }

  /** A single entry projects onto the lines between the old and new pointer positions. */
  lemma OneLineProjects(x: DiffLine, lines1: seq<string>, lines2: seq<string>, i: nat, j: nat, i2: nat, j2: nat)
    requires i <= i2 <= |lines1| && j <= j2 <= |lines2|
    requires x.kind == Added ==> i2 == i && j2 == j + 1 && x.text == lines2[j]
    requires x.kind == Removed ==> i2 == i + 1 && j2 == j && x.text == lines1[i]
    requires x.kind == Unchanged ==> i2 == i + 1 && j2 == j + 1 && x.text == lines1[i] && x.text == lines2[j]
    ensures Left([x]) == lines1[i..i2] && Right([x]) == lines2[j..j2]
  {
    LeftRightOfOne(x);
    if i2 == i + 1 {
      assert lines1[i..i2] == [lines1[i]];
    }
    if j2 == j + 1 {
      assert lines2[j..j2] == [lines2[j]];
    }
  }

  /** Entries projecting onto the two parts of a split line list project onto the whole. */
  lemma {:induction false} ProjectionsJoin(e: seq<DiffLine>, rest: seq<DiffLine>, xs: seq<string>, ys: seq<string>,
                                           a: nat, b: nat)
    requires a <= |xs| && b <= |ys|
    requires Left(e) == xs[..a] && Right(e) == ys[..b]
    requires Left(rest) == xs[a..] && Right(rest) == ys[b..]
    ensures Left(e + rest) == xs && Right(e + rest) == ys
  {
    LeftAppend(e, rest);
    RightAppend(e, rest);
    assert xs[..a] + xs[a..] == xs;
    assert ys[..b] + ys[b..] == ys;
  }

  /** One turn of the walk from `(i, j)`: what it emits, where it leaves the pointers, and what it consumes. */
  lemma DiffFromStep(lines1: seq<string>, lines2: seq<string>, i: nat, j: nat) returns (e: seq<DiffLine>, a: nat, b: nat)
    requires i <= |lines1| && j <= |lines2| && (i < |lines1| || j < |lines2|)
    ensures i <= a <= |lines1| && j <= b <= |lines2| && i + j < a + b
    ensures DiffFrom(lines1, lines2, i, j) == e + DiffFrom(lines1, lines2, a, b)
    ensures Left(e) == lines1[i..a] && Right(e) == lines2[j..b]
  {
    var mv := NextMove(lines1, lines2, i, j);
    e, a, b := mv.emitted, mv.i, mv.j;
    NextMoveProjects(lines1, lines2, i, j);
  }

  /** Entries consuming `xs[i..a]`, followed by entries projecting onto `xs[a..]`, project onto `xs[i..]`. */
  lemma SuffixProjectionsJoin(e: seq<DiffLine>, rest: seq<DiffLine>, xs: seq<string>, ys: seq<string>,
                              i: nat, j: nat, a: nat, b: nat)
    requires i <= a <= |xs| && j <= b <= |ys|
    requires Left(e) == xs[i..a] && Right(e) == ys[j..b]
    requires Left(rest) == xs[a..] && Right(rest) == ys[b..]
    ensures Left(e + rest) == xs[i..] && Right(e + rest) == ys[j..]
  {
    assert xs[i..][..a - i] == xs[i..a] && xs[i..][a - i..] == xs[a..];
    assert ys[j..][..b - j] == ys[j..b] && ys[j..][b - j..] == ys[b..];
    ProjectionsJoin(e, rest, xs[i..], ys[j..], a - i, b - j);
  }

  /**
   * The walk from `(i, j)` reproduces the rest of both inputs: its old side is
   * `lines1[i..]` and its new side is `lines2[j..]`.
   */
  lemma {:induction false} DiffFromProjects(lines1: seq<string>, lines2: seq<string>, i: nat, j: nat)
    requires i <= |lines1| && j <= |lines2|
    ensures Left(DiffFrom(lines1, lines2, i, j)) == lines1[i..]
    ensures Right(DiffFrom(lines1, lines2, i, j)) == lines2[j..]
    decreases (|lines1| - i) + (|lines2| - j)
  {
    if i < |lines1| || j < |lines2| {
      var e, a, b := DiffFromStep(lines1, lines2, i, j);
      DiffFromProjects(lines1, lines2, a, b);
      SuffixProjectionsJoin(e, DiffFrom(lines1, lines2, a, b), lines1, lines2, i, j, a, b);
    }
  }

  /** The old side of the comparison is the old lines, and the new side the new lines. */
  lemma DiffProjects(lines1: seq<string>, lines2: seq<string>)
    ensures Left(Diff(lines1, lines2)) == lines1
    ensures Right(Diff(lines1, lines2)) == lines2
  {
    DiffFromProjects(lines1, lines2, 0, 0);
  }

  /** Each side has at most one text per entry, and every entry feeds at least one side. */
  lemma {:induction false} SideLengths(d: seq<DiffLine>)
    ensures |Left(d)| <= |d| && |Right(d)| <= |d|
    ensures |d| <= |Left(d)| + |Right(d)|
  {
    if d != [] {
      SideLengths(d[..|d| - 1]);
    }
  }

  /** The comparison has between max(n, m) and n + m entries. */
  lemma DiffLength(lines1: seq<string>, lines2: seq<string>)
    ensures |lines1| <= |Diff(lines1, lines2)| && |lines2| <= |Diff(lines1, lines2)|
    ensures |Diff(lines1, lines2)| <= |lines1| + |lines2|
  {
    DiffProjects(lines1, lines2);
    SideLengths(Diff(lines1, lines2));
  }

  /** `d` holds one entry of `kind` per line of `xs`, in order. */
  predicate AllOfKind(d: seq<DiffLine>, kind: Kind, xs: seq<string>) {
    |d| == |xs| && forall k :: 0 <= k < |d| ==> d[k] == DiffLine(kind, xs[k])
  }

  /** An entry of `kind` for the first line, followed by entries for the rest, covers all the lines. */
  lemma PrependOfKind(kind: Kind, xs: seq<string>, rest: seq<DiffLine>)
    requires |xs| > 0 && AllOfKind(rest, kind, xs[1..])
    ensures AllOfKind([DiffLine(kind, xs[0])] + rest, kind, xs)
  {
    var d := [DiffLine(kind, xs[0])] + rest;
    forall k | 0 <= k < |d| ensures d[k] == DiffLine(kind, xs[k]) {
      if k > 0 {
        assert d[k] == rest[k - 1] && xs[1..][k - 1] == xs[k];
      }
    }
  }

  /** Identical inputs give one unchanged entry per line. */
  lemma {:induction false} IdenticalFrom(lines: seq<string>, i: nat)
    requires i <= |lines|
    ensures AllOfKind(DiffFrom(lines, lines, i, i), Unchanged, lines[i..])
    decreases |lines| - i
  {
    if i < |lines| {
      IdenticalFrom(lines, i + 1);
      var rest := DiffFrom(lines, lines, i + 1, i + 1);
      assert NextMove(lines, lines, i, i) == Move([DiffLine(Unchanged, lines[i])], i + 1, i + 1);
      assert DiffFrom(lines, lines, i, i) == [DiffLine(Unchanged, lines[i])] + rest;
      assert lines[i..][1..] == lines[i + 1..];
      PrependOfKind(Unchanged, lines[i..], rest);
    }
  }

  lemma IdenticalInputsUnchanged(lines: seq<string>)
    ensures |Diff(lines, lines)| == |lines|
    ensures forall k :: 0 <= k < |lines| ==> Diff(lines, lines)[k] == DiffLine(Unchanged, lines[k])
  {
    IdenticalFrom(lines, 0);
    assert lines[0..] == lines;
  }

  /** Once the old lines are used up, every remaining new line is emitted as added. */
  lemma {:induction false} OldExhaustedAllAdded(lines1: seq<string>, lines2: seq<string>, j: nat)
    requires j <= |lines2|
    ensures AllOfKind(DiffFrom(lines1, lines2, |lines1|, j), Added, lines2[j..])
    decreases |lines2| - j
  {
    if j < |lines2| {
      OldExhaustedAllAdded(lines1, lines2, j + 1);
      var rest := DiffFrom(lines1, lines2, |lines1|, j + 1);
      assert NextMove(lines1, lines2, |lines1|, j) == Move([DiffLine(Added, lines2[j])], |lines1|, j + 1);
      assert DiffFrom(lines1, lines2, |lines1|, j) == [DiffLine(Added, lines2[j])] + rest;
      assert lines2[j..][1..] == lines2[j + 1..];
      PrependOfKind(Added, lines2[j..], rest);
    }
  }

  /** Once the new lines are used up, every remaining old line is emitted as removed. */
  lemma {:induction false} NewExhaustedAllRemoved(lines1: seq<string>, lines2: seq<string>, i: nat)
    requires i <= |lines1|
    ensures AllOfKind(DiffFrom(lines1, lines2, i, |lines2|), Removed, lines1[i..])
    decreases |lines1| - i
  {
    if i < |lines1| {
      NewExhaustedAllRemoved(lines1, lines2, i + 1);
      var rest := DiffFrom(lines1, lines2, i + 1, |lines2|);
      assert NextMove(lines1, lines2, i, |lines2|) == Move([DiffLine(Removed, lines1[i])], i + 1, |lines2|);
      assert DiffFrom(lines1, lines2, i, |lines2|) == [DiffLine(Removed, lines1[i])] + rest;
      assert lines1[i..][1..] == lines1[i + 1..];
      PrependOfKind(Removed, lines1[i..], rest);
    }
  }

  /**
   * When the current lines differ and the old line recurs in the new lines
   * `d1 + 1` places ahead, strictly sooner than the new line recurs in the old
   * lines, the old line is reported removed and only the old pointer advances.
   */
  lemma RemovedWhenOldLineRecursSooner(lines1: seq<string>, lines2: seq<string>, i: nat, j: nat, d1: nat)
    requires i < |lines1| && j < |lines2| && lines1[i] != lines2[j]
    requires j + 1 + d1 < |lines2| && lines2[j + 1 + d1] == lines1[i]
    requires forall k :: j + 1 <= k < j + 1 + d1 ==> lines2[k] != lines1[i]
    requires forall k :: i + 1 <= k <= i + 1 + d1 && k < |lines1| ==> lines1[k] != lines2[j]
    ensures DiffFrom(lines1, lines2, i, j) == [DiffLine(Removed, lines1[i])] + DiffFrom(lines1, lines2, i + 1, j)
  {
    var nextMatch1 := IndexOfLine(lines2[j + 1..], lines1[i]);
    var nextMatch2 := IndexOfLine(lines1[i + 1..], lines2[j]);
    IndexOfLineIsFirst(lines2[j + 1..], lines1[i]);
    assert lines2[j + 1..][d1] == lines1[i];
    assert nextMatch1 == d1;
    assert nextMatch2 == -1 || nextMatch2 > d1 by {
      if nextMatch2 != -1 {
        assert lines1[i + 1..][nextMatch2] == lines1[i + 1 + nextMatch2];
      }
    }
  }

  /**
   * Symmetrically, when the new line recurs in the old lines strictly sooner,
   * it is reported added and only the new pointer advances.
   */
  lemma AddedWhenNewLineRecursSooner(lines1: seq<string>, lines2: seq<string>, i: nat, j: nat, d2: nat)
    requires i < |lines1| && j < |lines2| && lines1[i] != lines2[j]
    requires i + 1 + d2 < |lines1| && lines1[i + 1 + d2] == lines2[j]
    requires forall k :: i + 1 <= k < i + 1 + d2 ==> lines1[k] != lines2[j]
    requires forall k :: j + 1 <= k <= j + 1 + d2 && k < |lines2| ==> lines2[k] != lines1[i]
    ensures DiffFrom(lines1, lines2, i, j) == [DiffLine(Added, lines2[j])] + DiffFrom(lines1, lines2, i, j + 1)
  {
    var nextMatch1 := IndexOfLine(lines2[j + 1..], lines1[i]);
    var nextMatch2 := IndexOfLine(lines1[i + 1..], lines2[j]);
    IndexOfLineIsFirst(lines1[i + 1..], lines2[j]);
    assert lines1[i + 1..][d2] == lines2[j];
    assert nextMatch2 == d2;
    assert nextMatch1 == -1 || nextMatch1 > d2 by {
      if nextMatch1 != -1 {
        assert lines2[j + 1..][nextMatch1] == lines2[j + 1 + nextMatch1];
      }
    }
  }

  /**
   * When neither differing line recurs ahead on the other side, the pair is
   * reported as a removal followed by an addition and both pointers advance.
   */
  lemma PairWhenNeitherRecurs(lines1: seq<string>, lines2: seq<string>, i: nat, j: nat)
    requires i < |lines1| && j < |lines2| && lines1[i] != lines2[j]
    requires forall k :: j < k < |lines2| ==> lines2[k] != lines1[i]
    requires forall k :: i < k < |lines1| ==> lines1[k] != lines2[j]
    ensures DiffFrom(lines1, lines2, i, j)
         == [DiffLine(Removed, lines1[i]), DiffLine(Added, lines2[j])] + DiffFrom(lines1, lines2, i + 1, j + 1)
  {
    var rest2, rest1 := lines2[j + 1..], lines1[i + 1..];
    assert forall k :: 0 <= k < |rest2| ==> rest2[k] != lines1[i] by {
      forall k | 0 <= k < |rest2| ensures rest2[k] != lines1[i] {
        assert rest2[k] == lines2[j + 1 + k];
      }
    }
    assert forall k :: 0 <= k < |rest1| ==> rest1[k] != lines2[j] by {
      forall k | 0 <= k < |rest1| ensures rest1[k] != lines2[j] {
        assert rest1[k] == lines1[i + 1 + k];
      }
    }
    assert IndexOfLine(rest2, lines1[i]) == -1;
    assert IndexOfLine(rest1, lines2[j]) == -1;
    assert NextMove(lines1, lines2, i, j)
        == Move([DiffLine(Removed, lines1[i]), DiffLine(Added, lines2[j])], i + 1, j + 1);
  }

  /**
   * The pair is also emitted when both lines recur at the same distance `d + 1`:
   * neither recurs strictly sooner, so the last branch of the loop body applies.
   */
  lemma PairWhenBothRecurEquallySoon(lines1: seq<string>, lines2: seq<string>, i: nat, j: nat, d: nat)
    requires i < |lines1| && j < |lines2| && lines1[i] != lines2[j]
    requires j + 1 + d < |lines2| && lines2[j + 1 + d] == lines1[i]
    requires forall k :: j + 1 <= k < j + 1 + d ==> lines2[k] != lines1[i]
    requires i + 1 + d < |lines1| && lines1[i + 1 + d] == lines2[j]
    requires forall k :: i + 1 <= k < i + 1 + d ==> lines1[k] != lines2[j]
    ensures DiffFrom(lines1, lines2, i, j)
         == [DiffLine(Removed, lines1[i]), DiffLine(Added, lines2[j])] + DiffFrom(lines1, lines2, i + 1, j + 1)
  {
    var rest2, rest1 := lines2[j + 1..], lines1[i + 1..];
    var nextMatch1 := IndexOfLine(rest2, lines1[i]);
    var nextMatch2 := IndexOfLine(rest1, lines2[j]);
    IndexOfLineIsFirst(rest2, lines1[i]);
    IndexOfLineIsFirst(rest1, lines2[j]);
    assert rest2[d] == lines1[i] && rest1[d] == lines2[j];
    assert nextMatch1 == d && nextMatch2 == d;
    assert NextMove(lines1, lines2, i, j)
        == Move([DiffLine(Removed, lines1[i]), DiffLine(Added, lines2[j])], i + 1, j + 1);
  }


  /** One turn of the walk keeps the loop's invariants, for the comparison `whole` it is building. */
  lemma WalkAdvances(lines1: seq<string>, lines2: seq<string>, done: seq<DiffLine>, i: nat, j: nat,
                     whole: seq<DiffLine>)
    requires i <= |lines1| && j <= |lines2| && (i < |lines1| || j < |lines2|)
    requires Left(done) == lines1[..i] && Right(done) == lines2[..j]
    requires done + DiffFrom(lines1, lines2, i, j) == whole
    ensures var mv := NextMove(lines1, lines2, i, j);
      && Left(done + mv.emitted) == lines1[..mv.i] && Right(done + mv.emitted) == lines2[..mv.j]
      && done + mv.emitted + DiffFrom(lines1, lines2, mv.i, mv.j) == whole
  {
    var mv := NextMove(lines1, lines2, i, j);
    var e, a, b := mv.emitted, mv.i, mv.j;
    assert DiffFrom(lines1, lines2, i, j) == e + DiffFrom(lines1, lines2, a, b);
    assert done + e + DiffFrom(lines1, lines2, a, b) == done + DiffFrom(lines1, lines2, i, j);
    NextMoveProjects(lines1, lines2, i, j);
    assert lines1[..a][..i] == lines1[..i] && lines1[..a][i..] == lines1[i..a];
    assert lines2[..b][..j] == lines2[..j] && lines2[..b][j..] == lines2[j..b];
    ProjectionsJoin(done, e, lines1[..a], lines2[..b], i, j);
  }

  /**
   * `computeDiff(text1, text2)`: splits both texts on newlines and walks both
   * line lists with two pointers, each step advancing at least one of them.
   */
  method ComputeDiff(text1: string, text2: string) returns (diff: seq<DiffLine>)
    ensures diff == Diff(Text.SplitOn(text1, "\n"), Text.SplitOn(text2, "\n"))
    ensures Left(diff) == Text.SplitOn(text1, "\n") && Right(diff) == Text.SplitOn(text2, "\n")
    ensures Text.Join(Left(diff), "\n") == text1 && Text.Join(Right(diff), "\n") == text2
  {
    var lines1 := Text.SplitOn(text1, "\n");
    var lines2 := Text.SplitOn(text2, "\n");
    diff := [];
    var i, j := 0, 0;
    while i < |lines1| || j < |lines2|
      invariant i <= |lines1| && j <= |lines2|
      invariant Left(diff) == lines1[..i] && Right(diff) == lines2[..j]
      invariant diff + DiffFrom(lines1, lines2, i, j) == Diff(lines1, lines2)
      decreases (|lines1| - i) + (|lines2| - j)
    {
      ghost var before, i0, j0 := diff, i, j;
      var emitted: seq<DiffLine>;
      if i >= |lines1| {
        emitted := [DiffLine(Added, lines2[j])];
        j := j + 1;
      } else if j >= |lines2| {
        emitted := [DiffLine(Removed, lines1[i])];
        i := i + 1;
      } else if lines1[i] == lines2[j] {
        emitted := [DiffLine(Unchanged, lines1[i])];
        i, j := i + 1, j + 1;
      } else {
        var nextMatch1 := IndexOfLine(lines2[j + 1..], lines1[i]);
        var nextMatch2 := IndexOfLine(lines1[i + 1..], lines2[j]);
        if nextMatch1 != -1 && (nextMatch2 == -1 || nextMatch1 < nextMatch2) {
          emitted := [DiffLine(Removed, lines1[i])];
          i := i + 1;
        } else if nextMatch2 != -1 && (nextMatch1 == -1 || nextMatch2 < nextMatch1) {
          emitted := [DiffLine(Added, lines2[j])];
          j := j + 1;
        } else {
          emitted := [DiffLine(Removed, lines1[i]), DiffLine(Added, lines2[j])];
          i, j := i + 1, j + 1;
        }
      }
      assert Move(emitted, i, j) == NextMove(lines1, lines2, i0, j0);
      WalkAdvances(lines1, lines2, before, i0, j0, Diff(lines1, lines2));
      diff := diff + emitted;
    }
    assert lines1[..i] == lines1 && lines2[..j] == lines2;
  }
}
