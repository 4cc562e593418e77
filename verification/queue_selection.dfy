/**
 * `GetQueue` and `GetUserPositionInQueue` of QueueController.cs over one
 * channel's queue collection, a sequence of records in store order.
 */
module QueueSelection {
  import opened Optional
  import opened Int32
  import opened QueueRecords
  import opened QueueOrder
  import opened SeqSearch
  import StableSort

  /** A candidate record and its index in the collection, so that an update can be written back to it. */
  datatype Slot = Slot(at: nat, entry: QueuedUser)

  function SlotKey(s: Slot): SortKey {
    KeyOf(s.entry)
  }

  /** The `Where` of `GetQueue`: the game matches and the record is not removed; `Skipped` is not looked at. */
  predicate Selectable(u: QueuedUser, game: string) {
    u.game == game && !u.removed
  }

  /** The selectable records of the collection, in store order. */
  function Candidates(q: seq<QueuedUser>, game: string): (c: seq<Slot>)
    ensures forall i :: 0 <= i < |c| ==> c[i].at < |q| && q[c[i].at] == c[i].entry && Selectable(c[i].entry, game)
    ensures forall i, j :: 0 <= i < j < |c| ==> c[i].at < c[j].at
    ensures forall n :: 0 <= n < |q| && Selectable(q[n], game) ==> Slot(n, q[n]) in c
    decreases |q|
  {
    if |q| == 0 then []
    else
      var last := |q| - 1;
      Candidates(q[..last], game) + (if Selectable(q[last], game) then [Slot(last, q[last])] else [])
  }

  /** All candidates in queue order: the sort of `GetQueue` before `Take`. */
  function Ranking(q: seq<QueuedUser>, game: string): seq<Slot> {
    StableSort.Sort(Candidates(q, game), SlotKey, RanksNoLater)
  }

  /** Slots listed in strictly increasing store order. */
  ghost predicate Increasing(c: seq<Slot>) {
    forall i, j :: 0 <= i < j < |c| ==> c[i].at < c[j].at
  }

  lemma {:induction false} WithKeyIncreasing(c: seq<Slot>, k: SortKey)
    requires Increasing(c)
    ensures Increasing(StableSort.WithKey(c, SlotKey, k))
  {
    if |c| > 0 {
      var tail := c[1..];
      var wt := StableSort.WithKey(tail, SlotKey, k);
      WithKeyIncreasing(tail, k);
      WithKeyWithin(tail, k);
      var w := StableSort.WithKey(c, SlotKey, k);
      if SlotKey(c[0]) == k {
        assert w == [c[0]] + wt;
        forall i, j | 0 <= i < j < |w|
          ensures w[i].at < w[j].at
        {
          if i == 0 {
            assert w[j] in wt;
            assert w[j] in tail;
            var m :| 0 <= m < |tail| && tail[m] == w[j];
            assert c[m + 1] == w[j];
          } else {
            assert w[i] == wt[i - 1] && w[j] == wt[j - 1];
          }
        }
      } else {
        assert w == [] + wt;
      }
    }
  }

  lemma {:induction false} WithKeyWithin(c: seq<Slot>, k: SortKey)
    ensures forall x :: x in StableSort.WithKey(c, SlotKey, k) ==> x in c
  {
    if |c| > 0 {
      WithKeyWithin(c[1..], k);
    }
  }

  /**
   * The ranking lists exactly the selectable records, each once, in
   * (Priority, TimeQueued, LastPlayed-descending) order, and records with equal
   * keys in store order.
   */
  lemma RankingSpec(q: seq<QueuedUser>, game: string)
    ensures var r := Ranking(q, game);
            && StableSort.SortedBy(r, SlotKey, RanksNoLater)
            && multiset(r) == multiset(Candidates(q, game))
            && Distinct(r)
            && (forall s :: s in r <==> s.at < |q| && q[s.at] == s.entry && Selectable(s.entry, game))
            && (forall i, j :: 0 <= i < j < |r| && SlotKey(r[i]) == SlotKey(r[j]) ==> r[i].at < r[j].at)
  {
    var c := Candidates(q, game);
    var r := Ranking(q, game);
    RanksNoLaterIsTotalPreorder();
    StableSort.SortSorted(c, SlotKey, RanksNoLater);
    StableSort.SortPermutes(c, SlotKey, RanksNoLater);
    DistinctPermutation(c, r);
    forall s
      ensures s in r <==> s.at < |q| && q[s.at] == s.entry && Selectable(s.entry, game)
    {
      assert s in r <==> s in multiset(c);
    }
    forall i, j | 0 <= i < j < |r| && SlotKey(r[i]) == SlotKey(r[j])
      ensures r[i].at < r[j].at
    {
      RankingTieInStoreOrder(q, game, i, j);
    }
  }

  /** Two slots of the order with the same key keep their store order. */
  lemma RankingTieInStoreOrder(q: seq<QueuedUser>, game: string, i: nat, j: nat)
    requires i < j < |Ranking(q, game)|
    requires SlotKey(Ranking(q, game)[i]) == SlotKey(Ranking(q, game)[j])
    ensures Ranking(q, game)[i].at < Ranking(q, game)[j].at
  {
    var c := Candidates(q, game);
    var r := Ranking(q, game);
    var k := SlotKey(r[i]);
    RanksNoLaterIsTotalPreorder();
    StableSort.WithKeyKeepsOrder(r, SlotKey, i, j);
    StableSort.SortStable(c, SlotKey, RanksNoLater, k);
    WithKeyIncreasing(c, k);
    var w := StableSort.WithKey(r, SlotKey, k);
    var p, p' :| 0 <= p < p' < |w| && w[p] == r[i] && w[p'] == r[j];
  }

  /** The slots `GetQueue` returns: the first `Limit ?? 5` of the ranking. */
  function Chosen(q: seq<QueuedUser>, game: string, limit: Option<Int32>): seq<Slot> {
    Take(Ranking(q, game), limit.GetOr(5))
  }

  /** Is the record at index `n` one of the chosen ones? */
  predicate IsChosen(chosen: seq<Slot>, n: nat) {
    exists i :: 0 <= i < |chosen| && chosen[i].at == n
  }

  datatype Pull = Pull(queue: seq<QueuedUser>, picked: seq<QueuedUser>)

  /**
   * `GetQueue(Channel, Game, Limit, Remove)`. With `Remove`, the chosen records
   * are marked removed in the collection; the returned list is enumerated again
   * after that, so its records carry `Removed == true` as well.
   */
  function GetQueue(q: seq<QueuedUser>, game: string, limit: Option<Int32>, remove: bool): (r: Pull)
    ensures |r.queue| == |q|
    ensures |r.picked| == |Chosen(q, game, limit)|
    ensures forall i :: 0 <= i < |r.picked| ==> r.picked[i] == Chosen(q, game, limit)[i].entry.(removed := remove)
    // without Remove the collection is untouched
    ensures !remove ==> r.queue == q
    // with Remove exactly the chosen records become removed and nothing else changes
    ensures remove ==> forall n :: 0 <= n < |q| ==>
              r.queue[n] == q[n].(removed := q[n].removed || IsChosen(Chosen(q, game, limit), n))
  {
    var chosen := Chosen(q, game, limit);
    var picked := seq(|chosen|, i requires 0 <= i < |chosen| => chosen[i].entry.(removed := remove));
    if remove then
      Pull(seq(|q|, n requires 0 <= n < |q| => if IsChosen(chosen, n) then q[n].(removed := true) else q[n]), picked)
    else
      Pull(q, picked)
  }

  /** The ranking holds one slot per selectable record. */
  lemma RankingLength(q: seq<QueuedUser>, game: string)
    ensures |Ranking(q, game)| == |Candidates(q, game)|
  {
    StableSort.SortPermutes(Candidates(q, game), SlotKey, RanksNoLater);
    assert |multiset(Ranking(q, game))| == |multiset(Candidates(q, game))|;
  }

  /** Chosen slots are distinct selectable records of the collection, in queue order. */
  lemma ChosenFromQueue(q: seq<QueuedUser>, game: string, limit: Option<Int32>)
    ensures var c := Chosen(q, game, limit);
            && |c| == |Take(Candidates(q, game), limit.GetOr(5))|
            && (forall i :: 0 <= i < |c| ==> c[i].at < |q| && q[c[i].at] == c[i].entry && Selectable(c[i].entry, game))
            && (forall i, j :: 0 <= i < j < |c| ==> c[i].at != c[j].at)
            && (forall i, j :: 0 <= i < j < |c| ==> RanksNoLater(SlotKey(c[i]), SlotKey(c[j])))
  {
    var r := Ranking(q, game);
    var c := Chosen(q, game, limit);
    RankingSpec(q, game);
    RankingLength(q, game);
    forall i | 0 <= i < |c|
      ensures c[i].at < |q| && q[c[i].at] == c[i].entry && Selectable(c[i].entry, game)
    {
      assert c[i] == r[i];
      assert r[i] in r;
    }
    forall i, j | 0 <= i < j < |c|
      ensures c[i].at != c[j].at && RanksNoLater(SlotKey(c[i]), SlotKey(c[j]))
    {
      assert c[i] == r[i] && c[j] == r[j];
      assert r[i] in r && r[j] in r;
    }
  }

  /** No selectable record left out of the selection ranks before a chosen one. */
  lemma ChosenAreBest(q: seq<QueuedUser>, game: string, limit: Option<Int32>, n: nat, i: nat)
    requires n < |q| && Selectable(q[n], game)
    requires !IsChosen(Chosen(q, game, limit), n)
    requires i < |Chosen(q, game, limit)|
    ensures RanksNoLater(SlotKey(Chosen(q, game, limit)[i]), KeyOf(q[n]))
  {
    var r := Ranking(q, game);
    var c := Chosen(q, game, limit);
    var m := RankOf(q, game, n);
    assert m >= |c|;
    assert c[i] == r[i];
    RankedBefore(q, game, i, m);
  }

  /** Every selectable record has a place in the ranking. */
  lemma RankOf(q: seq<QueuedUser>, game: string, n: nat) returns (m: nat)
    requires n < |q| && Selectable(q[n], game)
    ensures m < |Ranking(q, game)| && Ranking(q, game)[m] == Slot(n, q[n])
  {
    StableSort.SortPermutes(Candidates(q, game), SlotKey, RanksNoLater);
    assert Slot(n, q[n]) in multiset(Ranking(q, game));
    m :| 0 <= m < |Ranking(q, game)| && Ranking(q, game)[m] == Slot(n, q[n]);
  }

  /** An earlier place in the ranking ranks no later. */
  lemma RankedBefore(q: seq<QueuedUser>, game: string, i: nat, j: nat)
    requires i < j < |Ranking(q, game)|
    ensures RanksNoLater(SlotKey(Ranking(q, game)[i]), SlotKey(Ranking(q, game)[j]))
  {
    RanksNoLaterIsTotalPreorder();
    StableSort.SortSorted(Candidates(q, game), SlotKey, RanksNoLater);
  }

  /** Each record `GetQueue` returns is a selectable record of the collection with `Removed` set to the flag. */
  lemma PickedFromQueue(q: seq<QueuedUser>, game: string, limit: Option<Int32>, remove: bool, i: nat)
    requires i < |GetQueue(q, game, limit, remove).picked|
    ensures var p := GetQueue(q, game, limit, remove).picked[i];
            var n := Chosen(q, game, limit)[i].at;
            && n < |q| && Selectable(q[n], game) && p == q[n].(removed := remove)
  {
    ChosenFromQueue(q, game, limit);
  }

  /** The records `GetQueue` returns are in queue order. */
  lemma PickedInOrder(q: seq<QueuedUser>, game: string, limit: Option<Int32>, remove: bool, i: nat, j: nat)
    requires i < j < |GetQueue(q, game, limit, remove).picked|
    ensures var picked := GetQueue(q, game, limit, remove).picked;
            RanksNoLater(KeyOf(picked[i]), KeyOf(picked[j]))
  {
    var c := Chosen(q, game, limit);
    assert c[i] == Ranking(q, game)[i] && c[j] == Ranking(q, game)[j];
    RankedBefore(q, game, i, j);
  }

  /**
   * What `GetQueue` returns: at most `Limit ?? 5` distinct selectable records
   * of the collection (with `Removed` set to the `Remove` flag), in queue order,
   * and no selectable record it leaves behind ranks before one it returns.
   */
  lemma GetQueueSelects(q: seq<QueuedUser>, game: string, limit: Option<Int32>, remove: bool)
    ensures var picked := GetQueue(q, game, limit, remove).picked;
            && |picked| == |Take(Candidates(q, game), limit.GetOr(5))|
            && (forall i :: 0 <= i < |picked| ==> picked[i].game == game && picked[i].removed == remove)
            && (forall i :: 0 <= i < |picked| ==>
                  exists n :: 0 <= n < |q| && Selectable(q[n], game) && picked[i] == q[n].(removed := remove))
            && (forall i, j :: 0 <= i < j < |picked| ==> RanksNoLater(KeyOf(picked[i]), KeyOf(picked[j])))
            && (forall n, i :: 0 <= n < |q| && Selectable(q[n], game) && !IsChosen(Chosen(q, game, limit), n) && 0 <= i < |picked|
                  ==> RanksNoLater(KeyOf(picked[i]), KeyOf(q[n])))
  {
    var picked := GetQueue(q, game, limit, remove).picked;
    var c := Chosen(q, game, limit);
    RankingLength(q, game);
    forall i | 0 <= i < |picked|
      ensures picked[i].game == game && picked[i].removed == remove
      ensures exists n :: 0 <= n < |q| && Selectable(q[n], game) && picked[i] == q[n].(removed := remove)
    {
      PickedFromQueue(q, game, limit, remove, i);
    }
    forall i, j | 0 <= i < j < |picked|
      ensures RanksNoLater(KeyOf(picked[i]), KeyOf(picked[j]))
    {
      PickedInOrder(q, game, limit, remove, i, j);
    }
    forall n, i | 0 <= n < |q| && Selectable(q[n], game) && !IsChosen(c, n) && 0 <= i < |picked|
      ensures RanksNoLater(KeyOf(picked[i]), KeyOf(q[n]))
    {
      ChosenAreBest(q, game, limit, n, i);
    }
  }

  /**
   * `GetUserPositionInQueue`: the zero-based index of the user among the
   * records `GetQueue` returns with its default limit of five, or -1.
   */
  function GetUserPositionInQueue(q: seq<QueuedUser>, user: string, game: string): (r: int)
    ensures -1 <= r < 5
    ensures var picked := GetQueue(q, game, None, false).picked;
            && (r >= 0 ==> r < |picked| && picked[r].username == user)
            && (forall j :: 0 <= j < |picked| && (r == -1 || j < r) ==> picked[j].username != user)
  {
    var picked := GetQueue(q, game, None, false).picked;
    match FirstIndex(picked, (u: QueuedUser) => u.username == user)
    case Some(i) => i
    case None => -1
  }
}
