/**
 * The monitor's two result mappings: `counters`, a `defaultdict(int)`, and
 * `stores`, a `defaultdict(list)`. A name that was never touched reads as 0
 * or as the empty list, and is created by its first increment or append.
 */
module Accumulators {

  type Counters = map<string, nat>
  type Stores = map<string, seq<string>>

  /** The counters and stores of one monitor, taken together. */
  datatype Tally = Tally(counters: Counters, stores: Stores)

  /** `counters[name]` on the defaultdict: 0 for a name never incremented. */
  function Count(counters: Counters, name: string): nat
  {
    if name in counters then counters[name] else 0
  }

  /** `stores[name]` on the defaultdict: the empty list for a name never appended to. */
  function Stored(stores: Stores, name: string): seq<string>
  {
    if name in stores then stores[name] else []
  }

  /** `count` copies of `line`. */
  function Repeat(line: string, count: nat): (r: seq<string>)
    ensures |r| == count
    ensures forall i :: 0 <= i < |r| ==> r[i] == line
  {
    if count == 0 then [] else Repeat(line, count - 1) + [line]
  }

  /** `counters[name] += 1` for each name in turn. */
  function Increment(counters: Counters, names: seq<string>): (r: Counters)
  {
    if names == [] then counters
    else
      var last := names[|names| - 1];
      var before := Increment(counters, names[..|names| - 1]);
      before[last := Count(before, last) + 1]
  }

  /** `stores[name].append(line)` for each name in turn. */
  function AppendAll(stores: Stores, names: seq<string>, line: string): (r: Stores)
  {
    if names == [] then stores
    else
      var last := names[|names| - 1];
      var before := AppendAll(stores, names[..|names| - 1], line);
      before[last := Stored(before, last) + [line]]
  }

  /** Incrementing one more listed name is one more `+= 1`. */
  lemma IncrementStep(counters: Counters, names: seq<string>, i: nat)
    requires i < |names|
    ensures Increment(counters, names[..i + 1]) ==
      Increment(counters, names[..i])[names[i] := Count(Increment(counters, names[..i]), names[i]) + 1]
  {
    assert names[..i + 1][..i] == names[..i];
  }

  /** Appending for one more listed name is one more `append`. */
  lemma AppendAllStep(stores: Stores, names: seq<string>, line: string, i: nat)
    requires i < |names|
    ensures AppendAll(stores, names[..i + 1], line) ==
      AppendAll(stores, names[..i], line)[names[i] := Stored(AppendAll(stores, names[..i], line), names[i]) + [line]]
  {
    assert names[..i + 1][..i] == names[..i];
  }

  /** Exactly the listed names are added to the counters' keys. */
  lemma {:induction false} IncrementKeys(counters: Counters, names: seq<string>)
    ensures Increment(counters, names).Keys == counters.Keys + set n | n in names
  {
    if names != [] {
      var k := |names| - 1;
      IncrementKeys(counters, names[..k]);
      assert names == names[..k] + [names[k]];
    }
  }

  /** Exactly the listed names are added to the stores' keys. */
  lemma {:induction false} AppendAllKeys(stores: Stores, names: seq<string>, line: string)
    ensures AppendAll(stores, names, line).Keys == stores.Keys + set n | n in names
  {
    if names != [] {
      var k := |names| - 1;
      AppendAllKeys(stores, names[..k], line);
      assert names == names[..k] + [names[k]];
    }
  }

  /** Each counter goes up by the number of times its name is listed, and no other changes. */
  lemma {:induction false} IncrementCount(counters: Counters, names: seq<string>, name: string)
    ensures Count(Increment(counters, names), name) == Count(counters, name) + multiset(names)[name]
  {
    if names != [] {
      var k := |names| - 1;
      IncrementCount(counters, names[..k], name);
      assert names == names[..k] + [names[k]];
    }
  }

  /** Each store gains the line once per listing of its name, at its end, and no other changes. */
  lemma {:induction false} AppendAllStored(stores: Stores, names: seq<string>, line: string, name: string)
    ensures Stored(AppendAll(stores, names, line), name) == Stored(stores, name) + Repeat(line, multiset(names)[name])
  {
    if names != [] {
      var k := |names| - 1;
      var hit := names[k] == name;
      AppendAllStored(stores, names[..k], line, name);
      AppendAllLast(stores, names, line, name);
      MultisetLast(names, name);
      RepeatMore(Stored(stores, name), line, multiset(names[..k])[name], if hit then [line] else [], if hit then 1 else 0);
    }
  }

  /** The last listed name gets the last append. */
  lemma AppendAllLast(stores: Stores, names: seq<string>, line: string, name: string)
    requires names != []
    ensures var k := |names| - 1;
      Stored(AppendAll(stores, names, line), name) ==
      Stored(AppendAll(stores, names[..k], line), name) + if names[k] == name then [line] else []
  {
  }

  /** The last listed name adds one to its multiplicity. */
  lemma MultisetLast(names: seq<string>, name: string)
    requires names != []
    ensures var k := |names| - 1;
      multiset(names)[name] == multiset(names[..k])[name] + if names[k] == name then 1 else 0
  {
    var k := |names| - 1;
    assert names == names[..k] + [names[k]];
  }

  /** One more copy at the end of the repeated lines. */
  lemma RepeatMore(prefix: seq<string>, line: string, m: nat, extra: seq<string>, c: nat)
    requires (extra == [line] && c == 1) || (extra == [] && c == 0)
    ensures prefix + Repeat(line, m) + extra == prefix + Repeat(line, m + c)
  {
    if c == 1 {
      assert Repeat(line, m + 1) == Repeat(line, m) + [line];
    }
  }
}
