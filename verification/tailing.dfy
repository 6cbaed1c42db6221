/**
 * The buffer handling of `FileMonitor.read` as values: one cycle appends a
 * chunk to the pending partial line, splits at the last '\n', hands the
 * complete lines on and keeps the rest for the next cycle.
 */
module Tailing {
  import opened Wrappers
  import opened Text

  /** What one cycle makes of its buffer: the lines handed to `lineRead` and the partial line kept. */
  datatype Batch = Batch(lines: seq<string>, rest: string)

  /**
   * `buffer.rsplit('\n', 1)` followed by `splitlines()` of the head. The
   * kept rest is what follows the last '\n'; without any '\n' nothing is
   * handed on and the whole buffer is kept.
   */
  function SplitBuffer(buffer: string): (b: Batch)
    ensures '\n' !in b.rest
    ensures forall i :: 0 <= i < |b.lines| ==> '\n' !in b.lines[i]
    ensures '\n' !in buffer ==> b == Batch([], buffer)
  {
    match RSplitOnce(buffer, '\n')
    case None => Batch([], buffer)
    case Some((head, tail)) => Batch(SplitLines(head), tail)
  }

  /** The kept rest is a suffix of the buffer, and when the buffer has a '\n' it follows the last one. */
  lemma SplitBufferRest(buffer: string)
    ensures var b := SplitBuffer(buffer);
      && |b.rest| <= |buffer| && buffer[|buffer| - |b.rest|..] == b.rest
      && ('\n' in buffer ==> |b.rest| < |buffer| && buffer[|buffer| - |b.rest| - 1] == '\n')
  {
    match RSplitOnce(buffer, '\n')
    case None =>
    case Some((head, tail)) =>
      assert buffer[|head| + 1..] == tail && buffer[|head|] == '\n';
  }

  /**
   * The same split read off the '\n'-pieces of the buffer: the kept rest is
   * the last piece, the lines are the other pieces, less a last one that is
   * empty.
   */
  lemma SplitBufferPieces(buffer: string)
    ensures SplitBuffer(buffer) ==
      Batch(DropEmptyLast(Terminated(Split(buffer, '\n'))), LastPiece(Split(buffer, '\n')))
  {
    var r := RSplitOnce(buffer, '\n');
    if r.None? {
      SplitWithoutSep(buffer, '\n');
    } else {
      var head, tail := r.value.0, r.value.1;
      SplitAtSep(head, tail, '\n');
      SplitWithoutSep(tail, '\n');
      var ps := Split(buffer, '\n');
      assert ps == Split(head, '\n') + [tail];
      assert Terminated(ps) == Split(head, '\n');
      assert LastPiece(ps) == tail;
      assert SplitBuffer(buffer) == Batch(SplitLines(head), tail);
    }
  }

  /** All chunks, one after the other. */
  function Concat(chunks: seq<string>): string
  {
    if chunks == [] then [] else chunks[0] + Concat(chunks[1..])
  }

  /** Successive cycles from a pending partial line: all lines handed on, in order, and the final rest. */
  function Feed(data: string, chunks: seq<string>): Batch
    decreases |chunks|
  {
    if chunks == [] then Batch([], data)
    else
      var b := SplitBuffer(data + chunks[0]);
      var r := Feed(b.rest, chunks[1..]);
      Batch(b.lines + r.lines, r.rest)
  }

  /** No '\n'-terminated line of the text is empty. */
  predicate NoEmptyLine(text: string)
  {
    [] !in Terminated(Split(text, '\n'))
  }

  /** A cycle's buffer followed by more text: its terminated pieces, then the kept rest continued. */
  lemma CycleSplit(buffer: string, more: string)
    ensures Split(buffer + more, '\n') ==
      Terminated(Split(buffer, '\n')) + Split(SplitBuffer(buffer).rest + more, '\n')
    ensures SplitBuffer(buffer).lines == DropEmptyLast(Terminated(Split(buffer, '\n')))
  {
    SplitBufferPieces(buffer);
    SplitConcat(buffer, more, '\n');
  }

  /** The last piece and the terminated pieces of pieces that follow others. */
  lemma PiecesAppend(first: seq<string>, later: seq<string>)
    requires |later| >= 1
    ensures LastPiece(first + later) == LastPiece(later)
    ensures Terminated(first + later) == first + Terminated(later)
  {
  }

  /** One cycle of `Feed`, taken from the front. */
  lemma FeedCycle(data: string, chunks: seq<string>)
    requires chunks != []
    ensures Feed(data, chunks) ==
      var b := SplitBuffer(data + chunks[0]);
      Batch(b.lines + Feed(b.rest, chunks[1..]).lines, Feed(b.rest, chunks[1..]).rest)
  {
  }

  /** The text of a first chunk and the chunks after it. */
  lemma ConcatCycle(data: string, chunks: seq<string>)
    requires chunks != []
    ensures data + Concat(chunks) == (data + chunks[0]) + Concat(chunks[1..])
  {
  }

  /**
   * Partial lines carry over between cycles: however the text arrives in
   * chunks, the rest kept at the end is what follows the text's last '\n'.
   */
  lemma {:induction false} CarryOverRest(data: string, chunks: seq<string>)
    requires '\n' !in data
    ensures Feed(data, chunks).rest == LastPiece(Split(data + Concat(chunks), '\n'))
    decreases |chunks|
  {
    if chunks == [] {
      SplitWithoutSep(data, '\n');
      assert data + Concat(chunks) == data;
    } else {
      var buffer := data + chunks[0];
      var more := Concat(chunks[1..]);
      var rest := SplitBuffer(buffer).rest;
      FeedCycle(data, chunks);
      ConcatCycle(data, chunks);
      CycleSplit(buffer, more);
      CarryOverRest(rest, chunks[1..]);
      PiecesAppend(Terminated(Split(buffer, '\n')), Split(rest + more, '\n'));
    }
  }

  /**
   * When no line of the text is empty, the lines handed on over all cycles
   * are exactly the text's '\n'-terminated lines, in order, each joined up
   * across chunk boundaries, however the text is cut into chunks.
   */
  lemma {:induction false} CarryOverLines(data: string, chunks: seq<string>)
    requires '\n' !in data
    requires NoEmptyLine(data + Concat(chunks))
    ensures Feed(data, chunks).lines == Terminated(Split(data + Concat(chunks), '\n'))
    decreases |chunks|
  {
    if chunks == [] {
      SplitWithoutSep(data, '\n');
      assert data + Concat(chunks) == data;
    } else {
      var buffer := data + chunks[0];
      var more := Concat(chunks[1..]);
      var rest := SplitBuffer(buffer).rest;
      FeedCycle(data, chunks);
      ConcatCycle(data, chunks);
      CycleSplit(buffer, more);
      var first := Terminated(Split(buffer, '\n'));
      var later := Split(rest + more, '\n');
      PiecesAppend(first, later);
      assert [] !in first && [] !in Terminated(later);
      CarryOverLines(rest, chunks[1..]);
      assert DropEmptyLast(first) == first;
    }
  }

  /** The non-empty lines among `lines`, in order. */
  function NonEmptyLines(lines: seq<string>): (r: seq<string>)
    ensures [] !in r
    ensures forall i :: 0 <= i < |r| ==> r[i] in lines
  {
    if lines == [] then []
    else (if lines[0] == [] then [] else [lines[0]]) + NonEmptyLines(lines[1..])
  }

  lemma {:induction false} NonEmptyLinesConcat(a: seq<string>, b: seq<string>)
    ensures NonEmptyLines(a + b) == NonEmptyLines(a) + NonEmptyLines(b)
  {
    if a == [] {
      assert a + b == b;
    } else {
      assert (a + b)[0] == a[0] && (a + b)[1..] == a[1..] + b;
      NonEmptyLinesConcat(a[1..], b);
    }
  }

  /** Dropping an empty last line drops no non-empty line. */
  lemma NonEmptyLinesDropEmptyLast(parts: seq<string>)
    ensures NonEmptyLines(DropEmptyLast(parts)) == NonEmptyLines(parts)
  {
    if parts != [] && parts[|parts| - 1] == [] {
      var k := |parts| - 1;
      assert parts == parts[..k] + [[]];
      NonEmptyLinesConcat(parts[..k], [[]]);
    }
  }

  /**
   * Partial lines carry over between cycles, for every text: however the
   * text is cut into chunks, the non-empty lines handed on over all cycles
   * are exactly the text's non-empty '\n'-terminated lines, in order, each
   * joined up across chunk boundaries.
   */
  lemma {:induction false} CarryOverNonEmpty(data: string, chunks: seq<string>)
    requires '\n' !in data
    ensures NonEmptyLines(Feed(data, chunks).lines) ==
      NonEmptyLines(Terminated(Split(data + Concat(chunks), '\n')))
    decreases |chunks|
  {
    if chunks == [] {
      SplitWithoutSep(data, '\n');
      assert data + Concat(chunks) == data;
    } else {
      var buffer := data + chunks[0];
      var more := Concat(chunks[1..]);
      var b := SplitBuffer(buffer);
      FeedCycle(data, chunks);
      ConcatCycle(data, chunks);
      CycleSplit(buffer, more);
      var first := Terminated(Split(buffer, '\n'));
      var later := Split(b.rest + more, '\n');
      PiecesAppend(first, later);
      CarryOverNonEmpty(b.rest, chunks[1..]);
      NonEmptyLinesConcat(b.lines, Feed(b.rest, chunks[1..]).lines);
      NonEmptyLinesConcat(first, Terminated(later));
      NonEmptyLinesDropEmptyLast(first);
    }
  }

  /** "foo\nbar" then "baz\n" hands on "foo" and then "barbaz", and keeps nothing. */
  lemma CarryOverExample()
    ensures Feed("", ["foo\nbar", "baz\n"]) == Batch(["foo", "barbaz"], "")
  {
    var first, second := "foo\nbar", "baz\n";
    CarryOverFirstCycle();
    CarryOverSecondCycle();
    FeedCycle("bar", [second]);
    assert [second][1..] == [];
    FeedCycle("", [first, second]);
    assert [first, second][1..] == [second];
  }

  /** The text "\nb\n" in one chunk hands on the lines "" and "b". */
  lemma EmptyLineKeptInOneChunk()
    ensures Feed("", ["\nb\n"]).lines == ["", "b"]
  {
    var whole := "\nb\n";
    WholeCycle();
    FeedCycle("", [whole]);
    assert [whole][1..] == [];
  }

  /**
   * The same text cut after its first '\n' hands on only "b": `splitlines`
   * of the empty head of "\n" yields no line, so the empty line is lost.
   * Which empty lines reach the rules thus depends on how the text arrives.
   */
  lemma EmptyLineLostAcrossChunks()
    ensures Feed("", ["\n", "b\n"]).lines == ["b"]
  {
    var first, second := "\n", "b\n";
    EmptyLineCycle();
    LineBCycle();
    FeedCycle("", [second]);
    assert [second][1..] == [];
    FeedCycle("", [first, second]);
    assert [first, second][1..] == [second];
  }

  /** "\nb\n" as one cycle: both lines are handed on. */
  lemma WholeCycle()
    ensures SplitBuffer("" + "\nb\n") == Batch(["", "b"], [])
  {
    TwoLines([], "b");
    assert "" + "\nb\n" == [] + ['\n'] + "b" + ['\n'];
  }

  /** Two lines, each with its terminator, the last one not empty: both are handed on and nothing stays. */
  lemma TwoLines(one: string, two: string)
    requires '\n' !in one && '\n' !in two && two != []
    ensures SplitBuffer(one + ['\n'] + two + ['\n']) == Batch([one, two], [])
  {
    var head := one + ['\n'] + two;
    var buffer := head + ['\n'] + [];
    assert buffer == one + ['\n'] + two + ['\n'];
    SplitAtSep(head, [], '\n');
    SplitAtSep(one, two, '\n');
    SplitWithoutSep(one, '\n');
    SplitWithoutSep(two, '\n');
    SplitWithoutSep([], '\n');
    assert Split(buffer, '\n') == [one, two, []];
    SplitBufferPieces(buffer);
    assert Terminated(Split(buffer, '\n')) == [one, two];
  }

  /** "\n" alone as a cycle: the empty head yields no line. */
  lemma EmptyLineCycle()
    ensures SplitBuffer("" + "\n") == Batch([], [])
  {
    LineThenPartial([], []);
    assert "" + "\n" == [] + ['\n'] + [];
  }

  /** "b\n" as a cycle: "b" is handed on. */
  lemma LineBCycle()
    ensures SplitBuffer("" + "b\n") == Batch(["b"], [])
  {
    LineThenPartial("b", []);
    assert "" + "b\n" == "b" + ['\n'] + [];
  }

  /** The first cycle of the carry-over example: "foo" is handed on, "bar" stays. */
  lemma CarryOverFirstCycle()
    ensures SplitBuffer([] + "foo\nbar") == Batch(["foo"], "bar")
  {
    LineThenPartial("foo", "bar");
    assert [] + "foo\nbar" == "foo" + ['\n'] + "bar";
  }

  /** The second cycle of the carry-over example: "bar" and "baz\n" complete "barbaz". */
  lemma CarryOverSecondCycle()
    ensures SplitBuffer("bar" + "baz\n") == Batch(["barbaz"], [])
  {
    LineThenPartial("barbaz", []);
    assert "bar" + "baz\n" == "barbaz" + ['\n'] + [];
  }

  /**
   * One line, its terminator and a partial line: the line is handed on
   * (unless it is empty) and the partial line stays.
   */
  lemma LineThenPartial(line: string, partial: string)
    requires '\n' !in line && '\n' !in partial
    ensures SplitBuffer(line + ['\n'] + partial) == Batch(if line == [] then [] else [line], partial)
  {
    var buffer := line + ['\n'] + partial;
    SplitAtSep(line, partial, '\n');
    SplitWithoutSep(line, '\n');
    SplitWithoutSep(partial, '\n');
    SplitBufferPieces(buffer);
    assert Split(buffer, '\n') == [line, partial];
    assert Terminated(Split(buffer, '\n')) == [line];
  }
}
