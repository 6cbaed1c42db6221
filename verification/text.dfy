/**
 * The string operations the monitor uses: `sep.join`, `str.rsplit(sep, 1)`
 * and `str.splitlines()` restricted to the '\n' line terminator. `Split`,
 * which cuts a text at every separator, is the helper used to define
 * `splitlines` and to state what a join gives back.
 */
module Text {
  import opened Wrappers

  /** The pieces of `s` between occurrences of `sep`: a helper, with the semantics of Python's `s.split(sep)`. */
  function Split(s: string, sep: char): (parts: seq<string>)
    ensures |parts| >= 1
    ensures forall i :: 0 <= i < |parts| ==> sep !in parts[i]
  {
    if s == [] then [[]]
    else
      var tail := Split(s[1..], sep);
      if s[0] == sep then [[]] + tail
      else [[s[0]] + tail[0]] + tail[1..]
  }

  /** `sep.join(parts)`. */
  function Join(parts: seq<string>, sep: char): string
  {
    if parts == [] then []
    else if |parts| == 1 then parts[0]
    else parts[0] + [sep] + Join(parts[1..], sep)
  }

  /** The last piece of a split: what follows the last separator. */
  function LastPiece(parts: seq<string>): string
    requires |parts| >= 1
  {
    parts[|parts| - 1]
  }

  /** All pieces of a split but the last: the pieces that a separator ends. */
  function Terminated(parts: seq<string>): seq<string>
    requires |parts| >= 1
  {
    parts[..|parts| - 1]
  }

  /** Joining the pieces of a split gives back the string. */
  lemma {:induction false} JoinSplit(s: string, sep: char)
    ensures Join(Split(s, sep), sep) == s
  {
    if s != [] {
      var tail := Split(s[1..], sep);
      JoinSplit(s[1..], sep);
      if s[0] == sep {
        assert ([[]] + tail)[1..] == tail;
      } else if |tail| == 1 {
      } else {
        var parts := [[s[0]] + tail[0]] + tail[1..];
        assert parts[1..] == tail[1..];
        assert Join(tail, sep) == tail[0] + [sep] + Join(tail[1..], sep);
      }
    }
  }

  /** A string without the separator splits into itself alone. */
  lemma {:induction false} SplitWithoutSep(s: string, sep: char)
    requires sep !in s
    ensures Split(s, sep) == [s]
  {
    if s != [] {
      SplitWithoutSep(s[1..], sep);
      assert [s[0]] + s[1..] == s;
    }
  }

  /** One step of `Split`: the first character either ends the first piece or joins it. */
  lemma SplitCons(a: char, s: string, sep: char)
    ensures Split([a] + s, sep) ==
      if a == sep then [[]] + Split(s, sep) else [[a] + Split(s, sep)[0]] + Split(s, sep)[1..]
  {
    assert ([a] + s)[0] == a && ([a] + s)[1..] == s;
  }

  /**
   * Splitting a concatenation: the terminated pieces of `x` come first, and
   * the unterminated last piece of `x` is continued by `y`.
   */
  lemma {:induction false} SplitConcat(x: string, y: string, sep: char)
    ensures Split(x + y, sep) == Terminated(Split(x, sep)) + Split(LastPiece(Split(x, sep)) + y, sep)
  {
    if x == [] {
      assert x + y == y;
    } else {
      var a, x' := x[0], x[1..];
      assert x == [a] + x';
      assert x + y == [a] + (x' + y);
      SplitConcat(x', y, sep);
      SplitCons(a, x', sep);
      SplitCons(a, x' + y, sep);
      var s' := Split(x', sep);
      var l' := LastPiece(s');
      if a == sep {
        SplitConcatSepStep(s', Split(x' + y, sep), Split(l' + y, sep));
      } else if |s'| == 1 {
        SplitConcatOneStep(a, s', y, Split(x' + y, sep), sep);
      } else {
        SplitConcatCharStep(a, s', Split(x' + y, sep), Split(l' + y, sep));
      }
    }
  }

  /** The step of `SplitConcat` when the rest of `x` holds no separator. */
  lemma SplitConcatOneStep(a: char, s': seq<string>, y: string, t: seq<string>, sep: char)
    requires a != sep && |s'| == 1 && t == Split(s'[0] + y, sep)
    ensures [[a] + t[0]] + t[1..] ==
      Terminated([[a] + s'[0]] + s'[1..]) + Split(LastPiece([[a] + s'[0]] + s'[1..]) + y, sep)
  {
    SplitCons(a, s'[0] + y, sep);
    assert [a] + (s'[0] + y) == [a] + s'[0] + y;
  }

  /** The step of `SplitConcat` when the first character is the separator. */
  lemma SplitConcatSepStep(s': seq<string>, t: seq<string>, u: seq<string>)
    requires |s'| >= 1 && t == Terminated(s') + u
    ensures [[]] + t == Terminated([[]] + s') + u
    ensures LastPiece([[]] + s') == LastPiece(s')
  {
  }

  /** The step of `SplitConcat` when the first character extends the first piece. */
  lemma SplitConcatCharStep(a: char, s': seq<string>, t: seq<string>, u: seq<string>)
    requires |s'| >= 2 && t == Terminated(s') + u
    ensures [[a] + t[0]] + t[1..] == Terminated([[a] + s'[0]] + s'[1..]) + u
    ensures LastPiece([[a] + s'[0]] + s'[1..]) == LastPiece(s')
  {
    assert t[0] == s'[0];
    assert t[1..] == s'[1..|s'| - 1] + u;
  }

  /** A separator-free prefix ended by a separator is the first piece. */
  lemma {:induction false} SplitFirstPiece(l: string, y: string, sep: char)
    requires sep !in l
    ensures Split(l + [sep] + y, sep) == [l] + Split(y, sep)
  {
    if l == [] {
      SplitCons(sep, y, sep);
      assert l + [sep] + y == [sep] + y;
    } else {
      SplitFirstPiece(l[1..], y, sep);
      SplitCons(l[0], l[1..] + [sep] + y, sep);
      assert l + [sep] + y == [l[0]] + (l[1..] + [sep] + y);
      ExtendFirstPiece(l[0], l[1..], Split(y, sep), Split(l[1..] + [sep] + y, sep));
      assert [l[0]] + l[1..] == l;
    }
  }

  /** A character put in front of the first piece. */
  lemma ExtendFirstPiece(c: char, first: string, more: seq<string>, pieces: seq<string>)
    requires pieces == [first] + more
    ensures [[c] + pieces[0]] + pieces[1..] == [[c] + first] + more
  {
    assert pieces[0] == first && pieces[1..] == more;
  }

  /** A separator cuts a string into the pieces before it and the pieces after it. */
  lemma SplitAtSep(x: string, y: string, sep: char)
    ensures Split(x + [sep] + y, sep) == Split(x, sep) + Split(y, sep)
  {
    var px := Split(x, sep);
    var l := LastPiece(px);
    assert x + [sep] + y == x + ([sep] + y);
    SplitConcat(x, [sep] + y, sep);
    assert l + ([sep] + y) == l + [sep] + y;
    SplitFirstPiece(l, y, sep);
    RejoinLast(px, Split(y, sep));
  }

  /** The terminated pieces, the last piece and more pieces are all the pieces and the more. */
  lemma RejoinLast(pieces: seq<string>, more: seq<string>)
    requires |pieces| >= 1
    ensures Terminated(pieces) + ([LastPiece(pieces)] + more) == pieces + more
  {
    assert pieces == Terminated(pieces) + [LastPiece(pieces)];
  }

  /** Splitting the join of separator-free pieces gives back the pieces. */
  lemma {:induction false} SplitJoin(parts: seq<string>, sep: char)
    requires |parts| >= 1
    requires forall i :: 0 <= i < |parts| ==> sep !in parts[i]
    ensures Split(Join(parts, sep), sep) == parts
  {
    if |parts| == 1 {
      SplitWithoutSep(parts[0], sep);
    } else {
      SplitJoin(parts[1..], sep);
      SplitAtSep(parts[0], Join(parts[1..], sep), sep);
      SplitWithoutSep(parts[0], sep);
    }
  }

  /** The index of the last `c` in `s`, or -1 when there is none. */
  function LastIndexOf(s: string, c: char): (i: int)
    ensures -1 <= i < |s|
    ensures i >= 0 ==> s[i] == c
    ensures forall j :: i < j < |s| ==> s[j] != c
  {
    if s == [] then -1
    else if s[|s| - 1] == c then |s| - 1
    else LastIndexOf(s[..|s| - 1], c)
  }

  /**
   * `s.rsplit(sep, 1)`: `None` stands for the one-element list (no separator),
   * `Some((head, tail))` for the two-element list.
   */
  function RSplitOnce(s: string, sep: char): (r: Option<(string, string)>)
    ensures r.None? <==> sep !in s
    ensures r.Some? ==> s == r.value.0 + [sep] + r.value.1 && sep !in r.value.1
  {
    var i := LastIndexOf(s, sep);
    if i < 0 then None
    else
      assert s == s[..i] + [sep] + s[i + 1..];
      Some((s[..i], s[i + 1..]))
  }

  /** Drops the last piece when it is empty: a terminator at the very end opens no line. */
  function DropEmptyLast(parts: seq<string>): (r: seq<string>)
    ensures r == parts || (parts != [] && parts[|parts| - 1] == [] && r == parts[..|parts| - 1])
  {
    if parts != [] && parts[|parts| - 1] == [] then parts[..|parts| - 1] else parts
  }

  /** `s.splitlines()` with '\n' as the only line terminator. */
  function SplitLines(s: string): (lines: seq<string>)
    ensures forall i :: 0 <= i < |lines| ==> '\n' !in lines[i]
  {
    DropEmptyLast(Split(s, '\n'))
  }

  /** Every text that does not end in a terminator is the join of its lines. */
  lemma JoinSplitLines(s: string)
    requires s == [] || s[|s| - 1] != '\n'
    ensures Join(SplitLines(s), '\n') == s
  {
    var parts := Split(s, '\n');
    JoinSplit(s, '\n');
    if s != [] && parts[|parts| - 1] == [] {
      SplitConcat(s[..|s| - 1], [s[|s| - 1]], '\n');
      assert s[..|s| - 1] + [s[|s| - 1]] == s;
      var l := LastPiece(Split(s[..|s| - 1], '\n'));
      assert l + [s[|s| - 1]] != [];
      SplitWithoutSep(l + [s[|s| - 1]], '\n');
      assert false;
    }
  }

  /** Lines without terminators, the last of them non-empty, come back from their join. */
  lemma SplitLinesJoin(lines: seq<string>)
    requires forall i :: 0 <= i < |lines| ==> '\n' !in lines[i]
    requires lines != [] ==> lines[|lines| - 1] != []
    ensures SplitLines(Join(lines, '\n')) == lines
  {
    if lines != [] {
      SplitJoin(lines, '\n');
    }
  }

  /** A text ending in a terminator is the join of its lines followed by that terminator. */
  lemma SplitLinesTerminated(s: string)
    requires s != [] && s[|s| - 1] == '\n'
    ensures Join(SplitLines(s), '\n') + "\n" == s
  {
    var x := s[..|s| - 1];
    assert s == x + ['\n'] + [];
    SplitAtSep(x, [], '\n');
    JoinSplit(x, '\n');
  }

  /**
   * Newline-free lines followed by a final terminator come back from
   * `splitlines`: the final line break opens no further line.
   */
  lemma SplitLinesJoinTerminated(lines: seq<string>)
    requires lines != []
    requires forall i :: 0 <= i < |lines| ==> '\n' !in lines[i]
    ensures SplitLines(Join(lines, '\n') + "\n") == lines
  {
    SplitAtSep(Join(lines, '\n'), [], '\n');
    SplitJoin(lines, '\n');
    assert Join(lines, '\n') + "\n" == Join(lines, '\n') + ['\n'] + [];
  }
}
