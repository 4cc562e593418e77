/**
 * CountController.cs over one channel's "counters_{Channel}" collection, a
 * sequence of counters in store order. The channel name from the request
 * headers is a parameter; it only appears in replies.
 */
module CountController {
  import opened Optional
  import opened Int32
  import opened SeqSearch
  import opened Utils
  import opened Counters

  function NameIs(name: string): Counter -> bool {
    (c: Counter) => c.name == name
  }

  /** At most one counter per name. */
  ghost predicate NamesUnique(cc: seq<Counter>) {
    forall i, j :: 0 <= i < j < |cc| ==> cc[i].name != cc[j].name
  }

  /** The reply of `Count` and `Subtract` for the counter `c` they touched. */
  function Report(channel: string, name: string, c: Counter): string {
    if c.verb.None? then name + ": " + IntToString(c.currentCount)
    else "@" + channel + " has " + c.verb.value + " " + MultiStringify(c.currentCount, "zero times")
  }

  /** The collection after a tally, where the touched counter sits, and the reply. */
  datatype Tallied = Tallied(counters: seq<Counter>, at: nat, reply: string)

  /**
   * The shape shared by `Count` and `Subtract`: change the first counter named
   * `name` and take over a non-null label, or insert a new counter.
   */
  function Tally(cc: seq<Counter>, channel: string, name: string, verb: Option<string>,
                 change: Counter -> Counter, created: Counter): (r: Tallied)
    requires forall c :: change(c).name == c.name && change(c).verb == c.verb
    requires created.name == name && created.verb == verb
    ensures |r.counters| >= |cc| && r.at < |r.counters| && r.counters[r.at].name == name
    ensures forall j :: 0 <= j < r.at ==> r.counters[j].name != name
    ensures forall j :: 0 <= j < |cc| && j != r.at ==> r.counters[j] == cc[j]
    ensures r.reply == Report(channel, name, r.counters[r.at])
    ensures (exists i :: 0 <= i < |cc| && cc[i].name == name) ==>
              && |r.counters| == |cc| && cc[r.at].name == name
              && r.counters[r.at].currentCount == change(cc[r.at]).currentCount
              && r.counters[r.at].verb == (if verb.Some? then verb else cc[r.at].verb)
    ensures (forall i :: 0 <= i < |cc| ==> cc[i].name != name) ==> r.counters == cc + [created]
    ensures NamesUnique(cc) ==> NamesUnique(r.counters)
  {
    match FirstIndex(cc, NameIs(name))
    case Some(i) =>
      var changed := change(cc[i]);
      var current := if verb.Some? && changed.verb != verb then changed.(verb := verb) else changed;
      Tallied(cc[i := current], i, Report(channel, name, current))
    case None =>
      Tallied(cc + [created], |cc|, Report(channel, name, created))
  }

  /** `Count`: add `amount` to the counter, or start it at `amount`. */
  function Count(cc: seq<Counter>, channel: string, name: string, verb: Option<string>, amount: Int32): (r: Tallied)
    ensures |r.counters| >= |cc| && r.at < |r.counters| && r.counters[r.at].name == name
    ensures forall j :: 0 <= j < |cc| && j != r.at ==> r.counters[j] == cc[j]
    ensures r.reply == Report(channel, name, r.counters[r.at])
    ensures (exists i :: 0 <= i < |cc| && cc[i].name == name) ==>
              && |r.counters| == |cc| && cc[r.at].name == name
              && (forall j :: 0 <= j < r.at ==> cc[j].name != name)
              && r.counters[r.at].currentCount == Add(cc[r.at], amount).currentCount
              && r.counters[r.at].verb == (if verb.Some? then verb else cc[r.at].verb)
    ensures (forall i :: 0 <= i < |cc| ==> cc[i].name != name) ==> r.counters == cc + [Counter(name, verb, amount)]
    ensures NamesUnique(cc) ==> NamesUnique(r.counters)
  {
    Tally(cc, channel, name, verb, (c: Counter) => Add(c, amount), Counter(name, verb, amount))
  }

  /** `Subtract`: take `amount` off the counter (never below zero), or start it at zero. */
  function Subtract(cc: seq<Counter>, channel: string, name: string, verb: Option<string>, amount: Int32): (r: Tallied)
    ensures |r.counters| >= |cc| && r.at < |r.counters| && r.counters[r.at].name == name
    ensures r.counters[r.at].currentCount >= 0
    ensures forall j :: 0 <= j < |cc| && j != r.at ==> r.counters[j] == cc[j]
    ensures r.reply == Report(channel, name, r.counters[r.at])
    ensures (exists i :: 0 <= i < |cc| && cc[i].name == name) ==>
              && |r.counters| == |cc| && cc[r.at].name == name
              && (forall j :: 0 <= j < r.at ==> cc[j].name != name)
              && r.counters[r.at].currentCount == Counters.Subtract(cc[r.at], amount).currentCount
              && r.counters[r.at].verb == (if verb.Some? then verb else cc[r.at].verb)
    // a counter that does not exist yet starts at zero: the amount is not applied
    ensures (forall i :: 0 <= i < |cc| ==> cc[i].name != name) ==> r.counters == cc + [Counter(name, verb, 0)]
    ensures NamesUnique(cc) ==> NamesUnique(r.counters)
  {
    Tally(cc, channel, name, verb, (c: Counter) => Counters.Subtract(c, amount), Counter(name, verb, 0))
  }

  datatype ResetResult = ResetResult(counters: seq<Counter>, reply: string)

  /** `Reset`: zero the counter if it exists; nothing is created. */
  function Reset(cc: seq<Counter>, name: string): (r: ResetResult)
    ensures |r.counters| == |cc|
    ensures (forall i :: 0 <= i < |cc| ==> cc[i].name != name) <==> r.counters == cc && r.reply == name + " aren't being tracked yet"
    ensures (exists i :: 0 <= i < |cc| && cc[i].name == name) ==> r.reply == name + " have been reset"
    ensures forall i :: 0 <= i < |cc| ==>
              r.counters[i] == if cc[i].name == name && (forall j :: 0 <= j < i ==> cc[j].name != name)
                               then Counters.Reset(cc[i]) else cc[i]
    ensures NamesUnique(cc) ==> NamesUnique(r.counters)
  {
    match FirstIndex(cc, NameIs(name))
    case Some(i) => ResetResult(cc[i := Counters.Reset(cc[i])], name + " have been reset")
    case None => ResetResult(cc, name + " aren't being tracked yet")
  }

  datatype DefineResult = DefineResult(counters: seq<Counter>, reply: string)

  /**
   * `Define`: create the counter with a label and a seed unless one of that
   * name exists. For an existing counter the reply says its label has been
   * updated, but nothing is written. `example` stands for the random number in
   * 1..46 the reply shows as a sample count.
   */
  function Define(cc: seq<Counter>, channel: string, name: string, verb: Option<string>, seed: Int32, example: Int32)
    : (r: DefineResult)
    requires 1 <= example < 47
    ensures (exists i :: 0 <= i < |cc| && cc[i].name == name) ==> r.counters == cc
    ensures (forall i :: 0 <= i < |cc| ==> cc[i].name != name) ==> r.counters == cc + [Counter(name, verb, seed)]
    // an existing counter: the reply shows the first one's count and claims a label update that never happens
    ensures forall i :: 0 <= i < |cc| && cc[i].name == name && (forall j :: 0 <= j < i ==> cc[j].name != name) ==>
              r.reply == name + " already exists for this channel and is currently at " + IntToString(cc[i].currentCount)
                         + ". The label has been updated."
    // a new counter: the reply shows a sample with the label (empty when none was given) and the example count
    ensures (forall i :: 0 <= i < |cc| ==> cc[i].name != name) ==>
              r.reply == name + " counter has been setup, and will look like: '" + channel + " has " + verb.GetOr("")
                         + " " + MultiStringify(example, "") + "'"
    ensures NamesUnique(cc) ==> NamesUnique(r.counters)
  {
    match FirstIndex(cc, NameIs(name))
    case Some(i) =>
      assert forall k :: 0 <= k < |cc| && cc[k].name == name && (forall j :: 0 <= j < k ==> cc[j].name != name) ==> k == i by {
        assert forall j :: 0 <= j < i ==> cc[j].name != name;
      }
      DefineResult(cc, name + " already exists for this channel and is currently at " + IntToString(cc[i].currentCount)
                       + ". The label has been updated.")
    case None =>
      DefineResult(cc + [Counter(name, verb, seed)],
                   name + " counter has been setup, and will look like: '" + channel + " has " + verb.GetOr("")
                   + " " + MultiStringify(example, "") + "'")
  }

  /** Counting and then subtracting the same amount restores the collection, when the counter existed, was not negative, and no label is passed. */
  lemma CountThenSubtractRestores(cc: seq<Counter>, channel: string, name: string, amount: Int32, i: nat)
    requires i < |cc| && cc[i].name == name && cc[i].currentCount >= 0
    requires forall j :: 0 <= j < i ==> cc[j].name != name
    ensures Subtract(Count(cc, channel, name, None, amount).counters, channel, name, None, amount).counters == cc
  {
    var c1 := Count(cc, channel, name, None, amount);
    assert c1.at == i;
    var c2 := Subtract(c1.counters, channel, name, None, amount);
    assert c2.at == i;
    AddThenSubtractRestores(cc[i], amount);
    assert c2.counters[i] == cc[i];
  }

  /** `Define` never touches an existing counter, whatever label it is given. */
  lemma DefineKeepsExistingLabel(cc: seq<Counter>, channel: string, name: string, verb: Option<string>,
                                 seed: Int32, example: Int32, i: nat)
    requires 1 <= example < 47
    requires i < |cc| && cc[i].name == name
    ensures Define(cc, channel, name, verb, seed, example).counters[i].verb == cc[i].verb
  {
  }

  /** A defined counter keeps its label; the next count adds to its seed and is reported with that label. */
  lemma DefineThenCount(cc: seq<Counter>, channel: string, name: string, verb: string, seed: Int32,
                        example: Int32, amount: Int32)
    requires 1 <= example < 47
    requires forall i :: 0 <= i < |cc| ==> cc[i].name != name
    ensures var r := Count(Define(cc, channel, name, Some(verb), seed, example).counters, channel, name, None, amount);
            && r.at == |cc|
            && r.counters[r.at] == Add(Counter(name, Some(verb), seed), amount)
            && r.reply == Report(channel, name, r.counters[r.at])
  {
    var d := Define(cc, channel, name, Some(verb), seed, example).counters;
    assert d == cc + [Counter(name, Some(verb), seed)];
    CountAppended(d, channel, name, amount);
  }

  /** Counting a counter that sits last, with no other of its name before it, adds to it in place. */
  lemma CountAppended(d: seq<Counter>, channel: string, name: string, amount: Int32)
    requires |d| > 0 && d[|d| - 1].name == name
    requires forall i :: 0 <= i < |d| - 1 ==> d[i].name != name
    ensures var r := Count(d, channel, name, None, amount);
            && r.at == |d| - 1
            && r.counters[r.at] == Add(d[|d| - 1], amount)
            && r.reply == Report(channel, name, r.counters[r.at])
  {
  }

  /** A counter with a label is reported as a sentence about the channel. */
  lemma LabelledReport(channel: string, name: string, verb: string, count: Int32)
    ensures Report(channel, name, Counter(name, Some(verb), count))
         == "@" + channel + " has " + verb + " " + MultiStringify(count, "zero times")
  {
  }

  /** After `Reset` the next `Count` reports exactly the amount counted. */
  lemma ResetThenCount(cc: seq<Counter>, channel: string, name: string, amount: Int32, i: nat)
    requires i < |cc| && cc[i].name == name
    requires forall j :: 0 <= j < i ==> cc[j].name != name
    ensures var r := Count(Reset(cc, name).counters, channel, name, None, amount);
            r.at == i && r.counters[i].currentCount == amount
  {
    var z := Reset(cc, name).counters;
    assert z[i].name == name && z[i].currentCount == 0;
    var r := Count(z, channel, name, None, amount);
    assert r.at == i;
  }
}
