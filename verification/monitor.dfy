/**
 * `FileMonitor`: one tailed file, its pending partial line, its rules and
 * the counters and stores those rules fill.
 */
module Monitor {
  import opened Wrappers
  import opened Text
  import opened Accumulators
  import opened Rules
  import opened Tailing

  /** A file object returned by a successful `open`: the path it reads and whether it was closed. */
  class Handle {
    const path: string
    var closed: bool

    constructor (path: string)
      ensures this.path == path && !closed
    {
      this.path := path;
      closed := false;
    }

    method Close()
      modifies this
      ensures closed
    {
      closed := true;
    }
  }

  class FileMonitor {
    const name: string
    var filename: string
    /** The open file, or null before the first successful open and after a rename. */
    var file: Handle?
    /** The text read after the last '\n' seen: a line not yet complete. */
    var data: string
    const blockSize: nat
    var stores: Stores
    var counters: Counters
    var rules: seq<Rule>
    /** The lines handed to `lineRead`, in order. */
    ghost var lineLog: seq<string>

    /**
     * The pending text never holds a '\n' (every complete line has been
     * handed on), and an open file is open on the current filename.
     */
    ghost predicate Valid()
      reads this, file
    {
      && '\n' !in data
      && (file != null ==> file.path == filename && !file.closed)
    }

    function Tallies(): Tally
      reads this
    {
      Tally(counters, stores)
    }

    /** `FileMonitor(name, filename, block_size=8192)`: no file open yet, nothing pending, nothing counted. */
    constructor (name: string, filename: string, blockSize: nat := 8192)
      ensures Valid()
      ensures this.name == name && this.filename == filename && this.blockSize == blockSize
      ensures file == null && data == []
      ensures counters == map[] && stores == map[] && rules == [] && lineLog == []
    {
      this.name := name;
      this.filename := filename;
      this.blockSize := blockSize;
      file := null;
      data := [];
      stores := map[];
      counters := map[];
      rules := [];
      lineLog := [];
    }

    /**
     * The `filename` setter: closes the open file, if any, and forgets it so
     * that the next `read` opens the new name. The pending partial line is
     * kept.
     */
    method SetFilename(filename: string)
      requires Valid()
      modifies this, file
      ensures Valid()
      ensures this.filename == filename && file == null
      ensures old(file) != null ==> old(file).closed
      ensures data == old(data) && rules == old(rules)
      ensures Tallies() == old(Tallies()) && lineLog == old(lineLog)
    {
      if file != null {
        file.Close();
        file := null;
      }
      this.filename := filename;
    }

    /**
     * `lineRead`: runs `check` of each rule in order on the line and stops
     * after the first that returns True.
     */
    method LineRead(line: string)
      modifies this`counters, this`stores, this`lineLog
      ensures Tallies() == Evaluate(rules, line, old(Tallies()))
      ensures lineLog == old(lineLog) + [line]
    {
      var i := 0;
      while i < |rules|
        invariant 0 <= i <= |rules|
        invariant Evaluate(rules[i..], line, Tallies()) == Evaluate(rules, line, old(Tallies()))
        invariant lineLog == old(lineLog)
      {
        var rule := rules[i];
        assert rules[i..][0] == rule && rules[i..][1..] == rules[i + 1..];
        var halt, counters', stores' := rule.Check(line, counters, stores);
        counters, stores := counters', stores';
        if halt {
          break;
        }
        i := i + 1;
      }
      lineLog := lineLog + [line];
    }

    /** The loop at the end of `read`: `lineRead` on each line, in order. */
    method HandOn(lines: seq<string>)
      modifies this`counters, this`stores, this`lineLog
      ensures Tallies() == ProcessLines(rules, lines, old(Tallies()))
      ensures lineLog == old(lineLog) + lines
    {
      var i := 0;
      while i < |lines|
        invariant 0 <= i <= |lines|
        invariant ProcessLines(rules, lines[i..], Tallies()) == ProcessLines(rules, lines, old(Tallies()))
        invariant lineLog == old(lineLog) + lines[..i]
      {
        assert lines[i..][0] == lines[i] && lines[i..][1..] == lines[i + 1..];
        assert lines[..i + 1] == lines[..i] + [lines[i]];
        LineRead(lines[i]);
        i := i + 1;
      }
      assert lines[..i] == lines;
    }

    /**
     * The rest of `read` once the file is open: the chunk is appended to the
     * pending text, the text up to its last '\n' is handed on line by line
     * and what follows stays pending.
     */
    method Absorb(chunk: string)
      modifies this`data, this`counters, this`stores, this`lineLog
      ensures var b := SplitBuffer(old(data) + chunk);
        && data == b.rest
        && Tallies() == ProcessLines(rules, b.lines, old(Tallies()))
        && lineLog == old(lineLog) + b.lines
    {
      ghost var batch := SplitBuffer(data + chunk);
      data := data + chunk;
      var contents := RSplitOnce(data, '\n');
      if contents.Some? {
        var (head, tail) := contents.value;
        var lines := SplitLines(head);
        assert batch == Batch(lines, tail);
        data := tail;
        HandOn(lines);
      } else {
        assert batch == Batch([], data);
      }
    }

    /**
     * `read`, one polling cycle. `openOk` says whether `open(filename)`
     * succeeds when no file is open; `chunk` is what `file.read(block_size)`
     * returns. When the open fails nothing changes; otherwise the chunk is
     * absorbed.
     */
    method Read(openOk: bool, chunk: string)
      requires Valid()
      requires |chunk| <= blockSize
      modifies this
      ensures Valid()
      ensures filename == old(filename) && rules == old(rules)
      ensures old(file) == null && !openOk ==>
        file == null && data == old(data) && Tallies() == old(Tallies()) && lineLog == old(lineLog)
      ensures old(file) != null ==> file == old(file)
      ensures old(file) == null && openOk ==> fresh(file)
      ensures old(file) != null || openOk ==>
        var b := SplitBuffer(old(data) + chunk);
        && data == b.rest
        && Tallies() == ProcessLines(rules, b.lines, old(Tallies()))
        && lineLog == old(lineLog) + b.lines
    {
      if file != null || openOk {
        ghost var before := data;
        if file == null {
          file := new Handle(filename);
        }
        assert data == before;
        Absorb(chunk);
      }
    }

    /**
     * The reads the `loop` timer makes once the file can be opened, one per
     * chunk: together they hand on the lines of `Feed` and keep its rest.
     */
    method Poll(chunks: seq<string>)
      requires Valid()
      requires forall i :: 0 <= i < |chunks| ==> |chunks[i]| <= blockSize
      modifies this
      ensures Valid()
      ensures filename == old(filename) && rules == old(rules)
      ensures var f := Feed(old(data), chunks);
        && data == f.rest
        && Tallies() == ProcessLines(rules, f.lines, old(Tallies()))
        && lineLog == old(lineLog) + f.lines
    {
      ghost var f := Feed(data, chunks);
      var i := 0;
      while i < |chunks|
        invariant 0 <= i <= |chunks|
        invariant Valid()
        invariant filename == old(filename) && rules == old(rules)
        invariant Feed(data, chunks[i..]).rest == f.rest
        invariant ProcessLines(rules, Feed(data, chunks[i..]).lines, Tallies()) == ProcessLines(rules, f.lines, old(Tallies()))
        invariant lineLog + Feed(data, chunks[i..]).lines == old(lineLog) + f.lines
      {
        FeedRead(data, chunks[i..], lineLog, Tallies(), rules);
        assert chunks[i..][0] == chunks[i] && chunks[i..][1..] == chunks[i + 1..];
        Read(true, chunks[i]);
        i := i + 1;
      }
      assert chunks[i..] == [];
    }
  }

  /**
   * A monitor on a file that does not exist yet, then "foo\nbar" and
   * "baz\n" in two cycles: the failed open changes nothing, and the lines
   * handed on are "foo" and then "barbaz".
   */
  method CarryOverScenario(rules: seq<Rule>) returns (m: FileMonitor)
    ensures m.lineLog == ["foo", "barbaz"] && m.data == []
  {
    m := new FileMonitor("junk", "/tmp/junk.txt");
    m.rules := rules;
    m.Read(false, "ignored\n");
    assert m.lineLog == [] && m.data == [];
    CarryOverFirstCycle();
    CarryOverSecondCycle();
    m.Read(true, "foo\nbar");
    m.Read(true, "baz\n");
  }

  /**
   * A partial line read before a rename is still pending afterwards and is
   * prefixed to the first line of the new file.
   */
  method RenameScenario(rules: seq<Rule>) returns (m: FileMonitor)
    ensures m.lineLog == ["partial"] && m.filename == "/tmp/new.txt"
  {
    m := new FileMonitor("junk", "/tmp/old.txt");
    m.rules := rules;
    PartialCycle();
    m.Read(true, "par");
    m.SetFilename("/tmp/new.txt");
    CompletedCycle();
    m.Read(true, "tial\n");
  }

  /** "par" alone: no line is complete and all of it stays pending. */
  lemma PartialCycle()
    ensures SplitBuffer([] + "par") == Batch([], "par")
  {
    assert [] + "par" == "par";
    assert '\n' !in "par";
  }

  /** "par" pending and "tial\n" read: the line "partial" is complete. */
  lemma CompletedCycle()
    ensures SplitBuffer("par" + "tial\n") == Batch(["partial"], [])
  {
    LineThenPartial("partial", []);
    assert "par" + "tial\n" == "partial" + ['\n'] + [];
  }

  /**
   * One read of `Poll`: the first chunk's cycle followed by the cycles of
   * the other chunks is the cycles of all of them, for the pending text,
   * the tallies and the lines handed on.
   */
  lemma FeedRead(data: string, chunks: seq<string>, log: seq<string>, t: Tally, rules: seq<Rule>)
    requires chunks != []
    ensures var b := SplitBuffer(data + chunks[0]);
      && Feed(b.rest, chunks[1..]).rest == Feed(data, chunks).rest
      && ProcessLines(rules, Feed(b.rest, chunks[1..]).lines, ProcessLines(rules, b.lines, t)) ==
         ProcessLines(rules, Feed(data, chunks).lines, t)
      && (log + b.lines) + Feed(b.rest, chunks[1..]).lines == log + Feed(data, chunks).lines
  {
    var b := SplitBuffer(data + chunks[0]);
    FeedCycle(data, chunks);
    CombineCycles(b, Feed(b.rest, chunks[1..]), Feed(data, chunks), log, t, rules);
  }

  /** A batch followed by a later one, taken as one batch. */
  lemma CombineCycles(b: Batch, later: Batch, whole: Batch, log: seq<string>, t: Tally, rules: seq<Rule>)
    requires whole == Batch(b.lines + later.lines, later.rest)
    ensures ProcessLines(rules, later.lines, ProcessLines(rules, b.lines, t)) == ProcessLines(rules, whole.lines, t)
    ensures (log + b.lines) + later.lines == log + whole.lines
  {
    ProcessLinesConcat(rules, b.lines, later.lines, t);
    assert (log + b.lines) + later.lines == log + (b.lines + later.lines);
  }
}
