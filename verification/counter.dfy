/** Counter.cs: a named, optionally labelled tally with C# `int` arithmetic. */
module Counters {
  import opened Optional
  import opened Int32

  /** A counter record; `verb` is the `Label` (the past-tense verb of "@channel has died 17 times"). The LiteDB id is not modelled. */
  datatype Counter = Counter(name: string, verb: Option<string>, currentCount: Int32)

  /** `Add`: `CurrentCount += Amount`, wrapping on overflow. */
  function Add(c: Counter, amount: Int32): (r: Counter)
    ensures r.name == c.name && r.verb == c.verb
    ensures MinInt32 <= c.currentCount + amount <= MaxInt32 ==> r.currentCount == c.currentCount + amount
    ensures (r.currentCount - (c.currentCount + amount)) % Modulus == 0
  {
    c.(currentCount := Wrap(c.currentCount + amount))
  }

  /** `Subtract`: `CurrentCount -= Amount` (wrapping), then floored at zero. */
  function Subtract(c: Counter, amount: Int32): (r: Counter)
    ensures r.name == c.name && r.verb == c.verb
    ensures r.currentCount >= 0
    ensures MinInt32 <= c.currentCount - amount <= MaxInt32 ==>
              r.currentCount == if c.currentCount - amount < 0 then 0 else c.currentCount - amount
    // an overflow below `int.MinValue` wraps to a large positive count, one above `int.MaxValue` to a negative one, floored
    ensures c.currentCount - amount < MinInt32 ==> r.currentCount == c.currentCount - amount + Modulus
    ensures c.currentCount - amount > MaxInt32 ==> r.currentCount == 0
  {
    var w := Wrap(c.currentCount - amount);
    assert c.currentCount - amount < MinInt32 ==> w == c.currentCount - amount + Modulus by {
      if c.currentCount - amount < MinInt32 { WrapBelow(c.currentCount - amount); }
    }
    assert c.currentCount - amount > MaxInt32 ==> w == c.currentCount - amount - Modulus by {
      if c.currentCount - amount > MaxInt32 { WrapAbove(c.currentCount - amount); }
    }
    c.(currentCount := if w < 0 then 0 else w)
  }

  /** `Reset`: back to zero, name and verb kept. */
  function Reset(c: Counter): (r: Counter)
    ensures r.name == c.name && r.verb == c.verb && r.currentCount == 0
  {
    c.(currentCount := 0)
  }

  /** Subtracting what was just added restores a counter that was not negative, even across an overflow. */
  lemma AddThenSubtractRestores(c: Counter, amount: Int32)
    requires c.currentCount >= 0
    ensures Subtract(Add(c, amount), amount) == c
  {
    AddThenSubtractWraps(c.currentCount, amount);
  }

  /**
   * Subtracting and adding back the same non-negative amount does not
   * restore the count when the subtraction hit the floor: the result is the
   * larger of the old count and the amount.
   */
  lemma SubtractThenAddFloors(c: Counter, amount: Int32)
    requires c.currentCount >= 0 && amount >= 0
    ensures Add(Subtract(c, amount), amount).currentCount ==
              if c.currentCount >= amount then c.currentCount else amount
  {
  }

  /** Subtracting `int.MaxValue` from a count of -5 overflows, and the count GROWS to `int.MaxValue - 3`. */
  lemma SubtractOverflowGrows(c: Counter)
    requires c.currentCount == -5
    ensures Subtract(c, MaxInt32).currentCount == MaxInt32 - 3
  {
  }

  /** Adding past `int.MaxValue` wraps to a negative count. */
  lemma AddWrapsAtMax(c: Counter)
    requires c.currentCount == MaxInt32
    ensures Add(c, 1).currentCount == MinInt32
  {
    assert Wrap(MaxInt32 + 1) == MinInt32;
  }
}
