/**
 * Rules and their evaluation: `Rule.check` and the rule walk of
 * `FileMonitor.lineRead`, stated on values.
 */
module Rules {
  import opened Wrappers
  import opened Text
  import opened Accumulators

  /**
   * A compiled regular expression applied with `search`: the capture groups
   * of a match anywhere in the line, or `None` when the line does not match.
   */
  type Pattern = string -> Option<seq<string>>

  /**
   * A rule: its pattern text and compiled pattern, the counters to increment
   * and the stores to append to on a match, and the flag returned to the
   * rule walk.
   */
  datatype Rule = Rule(regex: string, re: Pattern, counters: seq<string>, stores: seq<string>, stop: bool)
  {
    /** What `check` does to the monitor's counters and stores for one line. */
    function Effect(line: string, t: Tally): Tally
    {
      match re(line)
      case None => t
      case Some(groups) =>
        var recorded := Recorded(line, groups);
        Tally(Increment(t.counters, counters), AppendAll(t.stores, stores, recorded))
    }

    /**
     * `check`: searches the line; on a match, increments every listed counter
     * and appends the recorded line to every listed store. Returns the
     * rule's stop flag whether or not the line matched.
     */
    method Check(line: string, counters: Counters, stores: Stores)
      returns (halt: bool, counters': Counters, stores': Stores)
      ensures halt == stop
      ensures Tally(counters', stores') == Effect(line, Tally(counters, stores))
    {
      counters', stores' := counters, stores;
      var found := re(line);
      if found.Some? {
        var groups := found.value;
        var recorded := line;
        if |groups| > 0 {
          recorded := Join(groups, ' ');
        }
        var i := 0;
        while i < |this.counters|
          invariant 0 <= i <= |this.counters|
          invariant counters' == Increment(counters, this.counters[..i])
        {
          var name := this.counters[i];
          IncrementStep(counters, this.counters, i);
          counters' := counters'[name := Count(counters', name) + 1];
          i := i + 1;
        }
        assert this.counters[..i] == this.counters;
        var j := 0;
        while j < |this.stores|
          invariant 0 <= j <= |this.stores|
          invariant stores' == AppendAll(stores, this.stores[..j], recorded)
        {
          var name := this.stores[j];
          AppendAllStep(stores, this.stores, recorded, j);
          stores' := stores'[name := Stored(stores', name) + [recorded]];
          j := j + 1;
        }
        assert this.stores[..j] == this.stores;
        assert recorded == Recorded(line, groups);
        assert Effect(line, Tally(counters, stores)) == Tally(Increment(counters, this.counters), AppendAll(stores, this.stores, recorded));
      }
      halt := stop;
    }
  }

  /**
   * `Rule(regex)`: a rule with no counters, no stores and the stop flag off,
   * so that it changes nothing and never halts the rule walk until it is
   * configured.
   */
  function NewRule(regex: string, re: Pattern): (r: Rule)
    ensures r.regex == regex && r.re == re
    ensures r.counters == [] && r.stores == [] && !r.stop
    ensures forall line, t :: r.Effect(line, t) == t
  {
    Rule(regex, re, [], [], false)
  }

  /** The line a match records: its capture groups joined by single spaces, or the line itself. */
  function Recorded(line: string, groups: seq<string>): string
  {
    if |groups| > 0 then Join(groups, ' ') else line
  }

  /**
   * Without groups the whole line is recorded; with groups the recorded line
   * is exactly the groups, in order, one space between each (so it splits
   * back into them when no group holds a space).
   */
  lemma RecordedLine(line: string, groups: seq<string>)
    ensures groups == [] ==> Recorded(line, groups) == line
    ensures groups != [] && (forall i :: 0 <= i < |groups| ==> ' ' !in groups[i]) ==>
      Split(Recorded(line, groups), ' ') == groups
  {
    if groups != [] && (forall i :: 0 <= i < |groups| ==> ' ' !in groups[i]) {
      SplitJoin(groups, ' ');
    }
  }

  /** A rule's effect on one counter: up by its number of listings on a match, unchanged otherwise. */
  function CounterGain(rule: Rule, line: string, name: string): nat
  {
    if rule.re(line).Some? then multiset(rule.counters)[name] else 0
  }

  /** A rule's effect on one store: the recorded line once per listing on a match, nothing otherwise. */
  function StoreGain(rule: Rule, line: string, name: string): seq<string>
  {
    match rule.re(line)
    case None => []
    case Some(groups) => Repeat(Recorded(line, groups), multiset(rule.stores)[name])
  }

  lemma EffectOnCounter(rule: Rule, line: string, t: Tally, name: string)
    ensures Count(rule.Effect(line, t).counters, name) == Count(t.counters, name) + CounterGain(rule, line, name)
  {
    if rule.re(line).Some? {
      IncrementCount(t.counters, rule.counters, name);
    }
  }

  lemma EffectOnStore(rule: Rule, line: string, t: Tally, name: string)
    ensures Stored(rule.Effect(line, t).stores, name) == Stored(t.stores, name) + StoreGain(rule, line, name)
  {
    match rule.re(line)
    case None =>
    case Some(groups) =>
      AppendAllStored(t.stores, rule.stores, Recorded(line, groups), name);
  }

  /** `lineRead` for one line: the rules in order, until one whose `check` returns True. */
  function Evaluate(rules: seq<Rule>, line: string, t: Tally): Tally
  {
    if rules == [] then t
    else
      var t' := rules[0].Effect(line, t);
      if rules[0].stop then t' else Evaluate(rules[1..], line, t')
  }

  /**
   * The rules whose `check` runs for a line: the list up to and including
   * the first rule with the stop flag, whether that rule matches or not.
   */
  function Reached(rules: seq<Rule>): (r: seq<Rule>)
    ensures |r| <= |rules| && r == rules[..|r|]
    ensures rules != [] ==> r != []
    ensures forall i :: 0 <= i < |r| - 1 ==> !r[i].stop
    ensures |r| < |rules| ==> r[|r| - 1].stop
  {
    if rules == [] then []
    else if rules[0].stop then [rules[0]]
    else [rules[0]] + Reached(rules[1..])
  }

  /** How much the reached rules that match raise one counter. */
  function Hits(rules: seq<Rule>, line: string, name: string): nat
  {
    if rules == [] then 0 else CounterGain(rules[0], line, name) + Hits(rules[1..], line, name)
  }

  /** What the reached rules that match append to one store, in rule order. */
  function Appended(rules: seq<Rule>, line: string, name: string): seq<string>
  {
    if rules == [] then [] else StoreGain(rules[0], line, name) + Appended(rules[1..], line, name)
  }

  /** Every counter rises by exactly the gains of the matching rules among those reached. */
  lemma {:induction false} EvaluateCounter(rules: seq<Rule>, line: string, t: Tally, name: string)
    ensures Count(Evaluate(rules, line, t).counters, name) == Count(t.counters, name) + Hits(Reached(rules), line, name)
  {
    if rules != [] {
      var t' := rules[0].Effect(line, t);
      EffectOnCounter(rules[0], line, t, name);
      if !rules[0].stop {
        EvaluateCounter(rules[1..], line, t', name);
      }
    }
  }

  /** Every store is extended by exactly the recorded lines of the matching rules reached, in rule order. */
  lemma {:induction false} EvaluateStore(rules: seq<Rule>, line: string, t: Tally, name: string)
    ensures Stored(Evaluate(rules, line, t).stores, name) == Stored(t.stores, name) + Appended(Reached(rules), line, name)
  {
    if rules != [] {
      var t' := rules[0].Effect(line, t);
      EffectOnStore(rules[0], line, t, name);
      AppendedReached(rules, line, name);
      if rules[0].stop {
        assert Evaluate(rules, line, t) == t';
      } else {
        assert Evaluate(rules, line, t) == Evaluate(rules[1..], line, t');
        EvaluateStore(rules[1..], line, t', name);
        var gain, later := StoreGain(rules[0], line, name), Appended(Reached(rules[1..]), line, name);
        assert Stored(t.stores, name) + gain + later == Stored(t.stores, name) + (gain + later);
      }
    }
  }

  /** What the reached rules append: the first rule's share, then the rest's unless the first one stops. */
  lemma AppendedReached(rules: seq<Rule>, line: string, name: string)
    requires rules != []
    ensures Appended(Reached(rules), line, name) ==
      StoreGain(rules[0], line, name) + if rules[0].stop then [] else Appended(Reached(rules[1..]), line, name)
  {
    var r := Reached(rules);
    assert r[0] == rules[0];
    if rules[0].stop {
      assert r[1..] == [];
    } else {
      assert r[1..] == Reached(rules[1..]);
    }
  }

  /** The rules after a stop rule have no effect on the line. */
  lemma {:induction false} AfterStopIgnored(rules: seq<Rule>, k: nat, line: string, t: Tally)
    requires k < |rules| && rules[k].stop
    ensures Evaluate(rules, line, t) == Evaluate(rules[..k + 1], line, t)
  {
    if !rules[0].stop {
      AfterStopIgnored(rules[1..], k - 1, line, rules[0].Effect(line, t));
      assert rules[..k + 1][1..] == rules[1..][..k];
    }
  }

  /**
   * When none of the rules up to a stop rule matches, the line changes
   * nothing: the stop rule ends the walk although it did not match.
   */
  lemma {:induction false} UnmatchedStopHalts(rules: seq<Rule>, k: nat, line: string, t: Tally)
    requires k < |rules| && rules[k].stop
    requires forall j :: 0 <= j <= k ==> rules[j].re(line).None?
    ensures Evaluate(rules, line, t) == t
  {
    if !rules[0].stop {
      UnmatchedStopHalts(rules[1..], k - 1, line, t);
    }
  }

  /** `lineRead` applied to each line in turn. */
  function ProcessLines(rules: seq<Rule>, lines: seq<string>, t: Tally): Tally
  {
    if lines == [] then t else ProcessLines(rules, lines[1..], Evaluate(rules, lines[0], t))
  }

  /** Processing two batches one after the other is processing their concatenation. */
  lemma {:induction false} ProcessLinesConcat(rules: seq<Rule>, a: seq<string>, b: seq<string>, t: Tally)
    ensures ProcessLines(rules, a + b, t) == ProcessLines(rules, b, ProcessLines(rules, a, t))
  {
    if a != [] {
      assert (a + b)[0] == a[0] && (a + b)[1..] == a[1..] + b;
      ProcessLinesConcat(rules, a[1..], b, Evaluate(rules, a[0], t));
    } else {
      assert a + b == b;
    }
  }

  /** Between two tallies: no counter went down and every store only grew at its end. */
  ghost predicate Grown(before: Tally, after: Tally)
  {
    forall name ::
      Count(before.counters, name) <= Count(after.counters, name) &&
      Stored(before.stores, name) <= Stored(after.stores, name)
  }

  /** Counters never decrease and stores are append-only, whatever lines are processed. */
  lemma {:induction false} ProcessLinesGrows(rules: seq<Rule>, lines: seq<string>, t: Tally)
    ensures Grown(t, ProcessLines(rules, lines, t))
  {
    if lines != [] {
      var t' := Evaluate(rules, lines[0], t);
      forall name
        ensures Count(t.counters, name) <= Count(t'.counters, name)
        ensures Stored(t.stores, name) <= Stored(t'.stores, name)
      {
        EvaluateCounter(rules, lines[0], t, name);
        EvaluateStore(rules, lines[0], t, name);
      }
      ProcessLinesGrows(rules, lines[1..], t');
    }
  }
}
