/**
 * BonkController.cs over one channel's "bonkedusers_{Channel}" collection, a
 * sequence of records in store order. Whether the request carried the
 * channel header, the clock and the jailbreak's coin flip are parameters.
 */
module BonkController {
  import opened Optional
  import opened Int32
  import opened SeqSearch
  import opened Utils
  import opened BonkedUsers
  import StableSort

  // ---------------------------------------------------------------------------
  // Request parameters

  /** `t` occurs in `s` starting at index `i`. */
  predicate OccursAt(s: string, t: string, i: int) {
    0 <= i && i + |t| <= |s| && s[i..i + |t|] == t
  }

  /** `t` occurs in `s` as a contiguous piece. */
  predicate ContainsText(s: string, t: string) {
    exists i :: 0 <= i <= |s| && OccursAt(s, t, i)
  }

  /** The bot sent its template, not a name: "null", or text still holding "[username]". */
  predicate IsPlaceholder(bonkee: string) {
    bonkee == "null" || ContainsText(bonkee, "[username]")
  }

  /** `Replace(" ", "")`. */
  function RemoveSpaces(s: string): (r: string)
    ensures ' ' !in r
    ensures |r| <= |s|
    ensures ' ' !in s ==> r == s
    ensures forall c :: c != ' ' ==> multiset(r)[c] == multiset(s)[c]
  {
    if |s| == 0 then []
    else
      assert s == [s[0]] + s[1..];
      (if s[0] == ' ' then [] else [s[0]]) + RemoveSpaces(s[1..])
  }

  /** Taking spaces out works piece by piece: the kept characters stay in their order. */
  lemma {:induction false} RemoveSpacesAppend(a: string, b: string)
    ensures RemoveSpaces(a + b) == RemoveSpaces(a) + RemoveSpaces(b)
  {
    if |a| > 0 {
      var first := if a[0] == ' ' then [] else [a[0]];
      assert (a + b)[0] == a[0] && (a + b)[1..] == a[1..] + b;
      assert RemoveSpaces(a + b) == first + RemoveSpaces(a[1..] + b);
      assert RemoveSpaces(a) == first + RemoveSpaces(a[1..]);
      RemoveSpacesAppend(a[1..], b);
    } else {
      assert a + b == b;
    }
  }

  /** The user name a bonk or jailbreak works on: "@" prefixed, then every space taken out. */
  function Normalize(bonkee: string): (r: string)
    ensures StartsWithAt(r)
    ensures ' ' !in r
    // the "@" test looks at the raw name, before its spaces are gone
    ensures StartsWithAt(bonkee) ==> r == RemoveSpaces(bonkee)
    ensures !StartsWithAt(bonkee) ==> r == "@" + RemoveSpaces(bonkee)
  {
    assert !StartsWithAt(bonkee) ==> ("@" + bonkee)[1..] == bonkee;
    RemoveSpaces(AtPrefixed(bonkee))
  }

  /** Normalizing is idempotent: a normalized name names the same record. */
  lemma NormalizeIdempotent(bonkee: string)
    ensures Normalize(Normalize(bonkee)) == Normalize(bonkee)
  {
  }

  /** A leading space defeats the "@" test: the space goes, but a second "@" has already been added. */
  lemma LeadingSpaceDoublesAt(name: string)
    requires StartsWithAt(name) && ' ' !in name
    ensures Normalize(" " + name) == "@" + name
  {
    var raw := " " + name;
    assert raw[0] == ' ';
    assert RemoveSpaces(" ") == [] by {
      assert " "[0] == ' ' && " "[1..] == [];
    }
    RemoveSpacesAppend(" ", name);
    assert RemoveSpaces(raw) == name;
  }

  /** The sentence of a bonk: five minutes for 0, otherwise the request's minutes capped at `MaxMinutes` (negatives pass). */
  function JailTime(jailMinutes: Int32): (r: int)
    ensures r <= MaxMinutes * TicksPerMinute
    ensures jailMinutes == 0 ==> r == DefaultJailTime
    ensures jailMinutes >= MaxMinutes ==> r == MaxMinutes * TicksPerMinute
    ensures (r < 0) == (jailMinutes < 0)
    // there is no lower bound: any non-zero number of minutes up to the cap is taken as it is, negatives included
    ensures jailMinutes != 0 && jailMinutes <= MaxMinutes ==> r == jailMinutes * TicksPerMinute
  {
    if jailMinutes == 0 then DefaultJailTime
    else (if jailMinutes < MaxMinutes then jailMinutes else MaxMinutes) * TicksPerMinute
  }

  function UserIs(name: string): BonkedUser -> bool {
    (u: BonkedUser) => u.username == name
  }

  /** At most one record per user name. */
  ghost predicate UsernamesUnique(coll: seq<BonkedUser>) {
    forall i, j :: 0 <= i < j < |coll| ==> coll[i].username != coll[j].username
  }

  // ---------------------------------------------------------------------------
  // Bonk

  datatype BonkReply =
    | NoUsername
    | NoChannel
    | Bonked(username: string, releaseDate: int)

  datatype BonkResult = BonkResult(coll: seq<BonkedUser>, reply: BonkReply)

  /**
   * `Bonk`. A known user's release date moves `jailTime` past the later of its
   * current value and now; the date bonked and the jailbreak date are kept.
   * An unknown user gets a new record.
   */
  function Bonk(coll: seq<BonkedUser>, bonkee: string, jailMinutes: Int32, hasChannel: bool, now: int): (r: BonkResult)
    ensures IsPlaceholder(bonkee) ==> r == BonkResult(coll, BonkReply.NoUsername)
    ensures !IsPlaceholder(bonkee) && !hasChannel ==> r == BonkResult(coll, BonkReply.NoChannel)
    ensures !IsPlaceholder(bonkee) && hasChannel ==>
              && r.reply.Bonked? && r.reply.username == Normalize(bonkee)
              && |r.coll| >= |coll|
              && (forall j :: 0 <= j < |coll| && coll[j].username != Normalize(bonkee) ==> r.coll[j] == coll[j])
    ensures !IsPlaceholder(bonkee) && hasChannel ==>
              forall i :: 0 <= i < |coll| && coll[i].username == Normalize(bonkee)
                          && (forall j :: 0 <= j < i ==> coll[j].username != Normalize(bonkee)) ==>
                && |r.coll| == |coll|
                && (forall j :: 0 <= j < |coll| && j != i ==> r.coll[j] == coll[j])
                && r.coll[i] == coll[i].(releaseDate := r.reply.releaseDate)
                && r.reply.releaseDate ==
                     (if coll[i].releaseDate > now then coll[i].releaseDate else now) + JailTime(jailMinutes)
    ensures !IsPlaceholder(bonkee) && hasChannel && (forall j :: 0 <= j < |coll| ==> coll[j].username != Normalize(bonkee)) ==>
              r.coll == coll + [NewBonkedUser(Normalize(bonkee), JailTime(jailMinutes), now)]
              && r.reply.releaseDate == now + JailTime(jailMinutes)
  {
    if IsPlaceholder(bonkee) then BonkResult(coll, BonkReply.NoUsername)
    else if !hasChannel then BonkResult(coll, BonkReply.NoChannel)
    else
      var jailTime := JailTime(jailMinutes);
      var name := Normalize(bonkee);
      match FirstIndex(coll, UserIs(name))
      case Some(i) =>
        var u := coll[i];
        assert forall k :: 0 <= k < |coll| && coll[k].username == name && (forall j :: 0 <= j < k ==> coll[j].username != name) ==> k == i by {
          assert forall j :: 0 <= j < i ==> coll[j].username != name;
        }
        var release := (if u.releaseDate > now then u.releaseDate else now) + jailTime;
        BonkResult(coll[i := u.(releaseDate := release)], Bonked(u.username, release))
      case None =>
        var u := NewBonkedUser(name, jailTime, now);
        BonkResult(coll + [u], Bonked(u.username, u.releaseDate))
  }

  /** `Bonk` keeps one record per user: a known user is updated in place, an unknown one appended. */
  lemma BonkKeepsUnique(coll: seq<BonkedUser>, bonkee: string, jailMinutes: Int32, hasChannel: bool, now: int)
    requires UsernamesUnique(coll)
    ensures UsernamesUnique(Bonk(coll, bonkee, jailMinutes, hasChannel, now).coll)
  {
    var r := Bonk(coll, bonkee, jailMinutes, hasChannel, now).coll;
    if !IsPlaceholder(bonkee) && hasChannel {
      var name := Normalize(bonkee);
      match FirstIndex(coll, UserIs(name))
      case Some(i) =>
        assert r == coll[i := coll[i].(releaseDate := r[i].releaseDate)];
      case None =>
        assert r == coll + [NewBonkedUser(name, JailTime(jailMinutes), now)];
    }
  }

  // ---------------------------------------------------------------------------
  // InJail

  /** The `Where` of `Jailed`: records whose release date is still ahead. */
  function StillJailed(coll: seq<BonkedUser>, now: int): (r: seq<BonkedUser>)
    ensures forall u :: u in r <==> u in coll && u.releaseDate > now
    ensures forall u :: multiset(r)[u] == if u.releaseDate > now then multiset(coll)[u] else 0
  {
    if |coll| == 0 then []
    else
      var rest := StillJailed(coll[1..], now);
      var head := if coll[0].releaseDate > now then [coll[0]] else [];
      assert coll == [coll[0]] + coll[1..];
      assert multiset(coll) == multiset{coll[0]} + multiset(coll[1..]);
      assert multiset(head + rest) == multiset(head) + multiset(rest);
      head + rest
  }

  /** Indices listed in strictly increasing order. */
  ghost predicate Ascending(s: seq<nat>) {
    forall k, l :: 0 <= k < l < |s| ==> s[k] < s[l]
  }

  /** Every index one further along. */
  function ShiftUp(s: seq<nat>): (r: seq<nat>)
    ensures |r| == |s| && forall k :: 0 <= k < |s| ==> r[k] == s[k] + 1
  {
    seq(|s|, k requires 0 <= k < |s| => s[k] + 1)
  }

  /** Shifting keeps indices ascending, and leaves room for index 0 in front. */
  lemma ShiftUpAscending(s: seq<nat>)
    requires Ascending(s)
    ensures Ascending(ShiftUp(s)) && Ascending([0] + ShiftUp(s))
  {
    var t := [0] + ShiftUp(s);
    forall k, l | 0 <= k < l < |t|
      ensures t[k] < t[l]
    {
      assert t[l] == s[l - 1] + 1;
    }
  }

  /** `idx` maps each position of `kept` to the record of `coll` it came from. */
  ghost predicate MapsInto(idx: seq<nat>, coll: seq<BonkedUser>, kept: seq<BonkedUser>) {
    && |idx| == |kept|
    && forall k :: 0 <= k < |idx| ==> idx[k] < |coll| && coll[idx[k]] == kept[k]
  }

  /** `idx` lists every record of `coll` still in jail at `now`. */
  ghost predicate CoversJailed(idx: seq<nat>, coll: seq<BonkedUser>, now: int) {
    forall n :: 0 <= n < |coll| && coll[n].releaseDate > now ==> n in idx
  }

  /** The indices for `coll` from those for its tail: 0 in front when the first record is jailed. */
  function ConsIndices(jailed: bool, rest: seq<nat>): seq<nat> {
    (if jailed then [0] else []) + ShiftUp(rest)
  }

  lemma ConsIndicesMap(coll: seq<BonkedUser>, jailed: bool, kept: seq<BonkedUser>, r: seq<BonkedUser>, rest: seq<nat>)
    requires |coll| > 0 && MapsInto(rest, coll[1..], kept)
    requires r == (if jailed then [coll[0]] else []) + kept
    ensures MapsInto(ConsIndices(jailed, rest), coll, r)
  {
    var h := if jailed then 1 else 0;
    var idx := ConsIndices(jailed, rest);
    var shifted := ShiftUp(rest);
    forall k | 0 <= k < |idx|
      ensures idx[k] < |coll| && coll[idx[k]] == r[k]
    {
      if k < h {
        assert idx[k] == 0 && r[k] == coll[0];
      } else {
        var m := k - h;
        assert idx[k] == shifted[m] == rest[m] + 1;
        assert coll[1..][rest[m]] == kept[m] == r[k];
      }
    }
  }

  lemma ConsIndicesCover(coll: seq<BonkedUser>, now: int, rest: seq<nat>)
    requires |coll| > 0 && CoversJailed(rest, coll[1..], now)
    ensures CoversJailed(ConsIndices(coll[0].releaseDate > now, rest), coll, now)
  {
    var jailed := coll[0].releaseDate > now;
    var h := if jailed then 1 else 0;
    var idx := ConsIndices(jailed, rest);
    var shifted := ShiftUp(rest);
    forall n | 0 <= n < |coll| && coll[n].releaseDate > now
      ensures n in idx
    {
      if n > 0 {
        assert coll[1..][n - 1].releaseDate > now;
        var m :| 0 <= m < |rest| && rest[m] == n - 1;
        assert idx[h + m] == shifted[m] == n;
      } else {
        assert idx[0] == 0;
      }
    }
  }

  /** `StillJailed` keeps the jailed records in store order: an increasing map from its positions into `coll` that covers every jailed record. */
  lemma {:induction false} StillJailedIndices(coll: seq<BonkedUser>, now: int) returns (idx: seq<nat>)
    ensures MapsInto(idx, coll, StillJailed(coll, now))
    ensures Ascending(idx)
    ensures CoversJailed(idx, coll, now)
  {
    if |coll| == 0 {
      idx := [];
    } else {
      var rest := StillJailedIndices(coll[1..], now);
      idx := ConsIndices(coll[0].releaseDate > now, rest);
      var jailed := coll[0].releaseDate > now;
      assert StillJailed(coll, now) == (if jailed then [coll[0]] else []) + StillJailed(coll[1..], now);
      ConsIndicesMap(coll, jailed, StillJailed(coll[1..], now), StillJailed(coll, now), rest);
      ConsIndicesCover(coll, now, rest);
      ShiftUpAscending(rest);
    }
  }

  function DateBonked(u: BonkedUser): int {
    u.dateBonked
  }

  function Earlier(a: int, b: int): bool {
    a <= b
  }

  /** The jailed records, earliest bonk first; records bonked at the same instant stay in store order. */
  function InJail(coll: seq<BonkedUser>, now: int): seq<BonkedUser> {
    StableSort.Sort(StillJailed(coll, now), DateBonked, Earlier)
  }

  /** `Jailed` (route InJail): the user names of the jailed records, earliest bonk first. */
  function Jailed(coll: seq<BonkedUser>, now: int): (r: seq<string>)
    ensures |r| == |InJail(coll, now)|
    ensures forall i :: 0 <= i < |r| ==> r[i] == InJail(coll, now)[i].username
  {
    var jailed := InJail(coll, now);
    seq(|jailed|, i requires 0 <= i < |jailed| => jailed[i].username)
  }

  /**
   * `Jailed` lists each record still in jail once (as often as it is stored)
   * and nothing else, ordered by the date bonked, and records with the same
   * date in store order.
   */
  lemma InJailSpec(coll: seq<BonkedUser>, now: int)
    ensures var r := InJail(coll, now);
            && (forall u :: multiset(r)[u] == if u.releaseDate > now then multiset(coll)[u] else 0)
            && (forall i, j :: 0 <= i < j < |r| ==> r[i].dateBonked <= r[j].dateBonked)
            && (forall d :: StableSort.WithKey(r, DateBonked, d) == StableSort.WithKey(StillJailed(coll, now), DateBonked, d))
  {
    var s := StillJailed(coll, now);
    assert StableSort.TotalPreorder(Earlier);
    StableSort.SortPermutes(s, DateBonked, Earlier);
    StableSort.SortSorted(s, DateBonked, Earlier);
    forall d
      ensures StableSort.WithKey(InJail(coll, now), DateBonked, d) == StableSort.WithKey(s, DateBonked, d)
    {
      StableSort.SortStable(s, DateBonked, Earlier, d);
    }
  }

  // ---------------------------------------------------------------------------
  // Jailbreak

  datatype JailbreakReply =
    | NoUsername
    | NoChannel
    | NotEligible(username: string, nextChance: int)
    | Escaped(bonkee: string)
    | Caught(bonkee: string, releaseDate: int)
    | NotInJail(bonkee: string)

  datatype JailbreakResult = JailbreakResult(coll: seq<BonkedUser>, reply: JailbreakReply)

  /**
   * An allowed attempt on the record at `i`: freed at `now` on success, held
   * `MaxMinutes` longer otherwise, and next eligible one hour on; no other
   * record changes.
   */
  function Attempt(coll: seq<BonkedUser>, i: nat, name: string, success: bool, now: int): (r: JailbreakResult)
    requires i < |coll|
    ensures |r.coll| == |coll|
    ensures forall j :: 0 <= j < |coll| && j != i ==> r.coll[j] == coll[j]
    ensures r.coll[i].username == coll[i].username && r.coll[i].dateBonked == coll[i].dateBonked
    ensures r.coll[i].nextJailBreakChance == now + TicksPerHour
    ensures success ==> r.coll[i].releaseDate == now && r.reply == Escaped(name)
    ensures !success ==> r.coll[i].releaseDate == coll[i].releaseDate + MaxMinutes * TicksPerMinute
                         && r.reply == Caught(name, r.coll[i].releaseDate)
  {
    var u := coll[i];
    var freed := u.(releaseDate := if success then now else u.releaseDate + MaxMinutes * TicksPerMinute,
                    nextJailBreakChance := now + TicksPerHour);
    JailbreakResult(coll[i := freed], if success then Escaped(name) else Caught(name, freed.releaseDate))
  }

  /**
   * `Jailbreak`. The eligibility test is the reverse of what its reply says: an
   * attempt is turned away once `NextJailBreakChance` has PASSED, and allowed
   * while it is still ahead (or exactly now). An allowed attempt frees the user
   * on `success`, adds `MaxMinutes` otherwise, and sets the next chance one hour
   * ahead.
   */
  function Jailbreak(coll: seq<BonkedUser>, bonkee: string, hasChannel: bool, success: bool, now: int): (r: JailbreakResult)
    ensures IsPlaceholder(bonkee) ==> r == JailbreakResult(coll, JailbreakReply.NoUsername)
    ensures !IsPlaceholder(bonkee) && !hasChannel ==> r == JailbreakResult(coll, JailbreakReply.NoChannel)
    ensures |r.coll| == |coll|
    ensures forall j :: 0 <= j < |coll| && coll[j].username != Normalize(bonkee) ==> r.coll[j] == coll[j]
    ensures !IsPlaceholder(bonkee) && hasChannel ==>
              (r.reply.NotInJail? <==> forall j :: 0 <= j < |coll| ==> coll[j].username != Normalize(bonkee))
    ensures r.reply.NotInJail? ==> r.coll == coll && r.reply.bonkee == Normalize(bonkee)
    ensures !IsPlaceholder(bonkee) && hasChannel ==>
              forall i :: 0 <= i < |coll| && coll[i].username == Normalize(bonkee)
                          && (forall j :: 0 <= j < i ==> coll[j].username != Normalize(bonkee)) ==>
                if coll[i].nextJailBreakChance < now then
                  r == JailbreakResult(coll, NotEligible(coll[i].username, coll[i].nextJailBreakChance))
                else
                  && (forall j :: 0 <= j < |coll| && j != i ==> r.coll[j] == coll[j])
                  && r.coll[i].username == coll[i].username
                  && r.coll[i].dateBonked == coll[i].dateBonked
                  && r.coll[i].nextJailBreakChance == now + TicksPerHour
                  && (success ==> r.coll[i].releaseDate == now && r.reply == Escaped(Normalize(bonkee)))
                  && (!success ==> r.coll[i].releaseDate == coll[i].releaseDate + MaxMinutes * TicksPerMinute
                                   && r.reply == Caught(Normalize(bonkee), r.coll[i].releaseDate))
    // no record changes hands, so one record per user stays one record per user
    ensures forall j :: 0 <= j < |coll| ==> r.coll[j].username == coll[j].username
  {
    if IsPlaceholder(bonkee) then JailbreakResult(coll, JailbreakReply.NoUsername)
    else if !hasChannel then JailbreakResult(coll, JailbreakReply.NoChannel)
    else
      var name := Normalize(bonkee);
      match FirstIndex(coll, UserIs(name))
      case Some(i) =>
        var u := coll[i];
        assert forall k :: 0 <= k < |coll| && coll[k].username == name && (forall j :: 0 <= j < k ==> coll[j].username != name) ==> k == i by {
          assert forall j :: 0 <= j < i ==> coll[j].username != name;
        }
        if u.nextJailBreakChance < now then JailbreakResult(coll, NotEligible(u.username, u.nextJailBreakChance))
        else Attempt(coll, i, name, success, now)
      case None =>
        JailbreakResult(coll, NotInJail(name))
  }

  // ---------------------------------------------------------------------------
  // Properties across requests

  /**
   * Because the eligibility test is inverted, a user bonked for the first time
   * can try a jailbreak only at the very instant of the bonk; any later
   * attempt is turned away.
   */
  lemma FirstBonkBlocksLaterJailbreaks(coll: seq<BonkedUser>, bonkee: string, jailMinutes: Int32,
                                       t1: int, t2: int, success: bool)
    requires !IsPlaceholder(bonkee)
    requires forall j :: 0 <= j < |coll| ==> coll[j].username != Normalize(bonkee)
    requires t1 <= t2
    ensures var jailed := Bonk(coll, bonkee, jailMinutes, true, t1).coll;
            Jailbreak(jailed, bonkee, true, success, t2).reply.NotEligible? <==> t1 < t2
  {
    var jailed := Bonk(coll, bonkee, jailMinutes, true, t1).coll;
    assert jailed[|coll|].username == Normalize(bonkee);
  }

  /** After an attempt, another is allowed for the next hour and refused after it. */
  lemma JailbreakCooldownInverted(coll: seq<BonkedUser>, bonkee: string, i: nat, t1: int, t2: int, s1: bool, s2: bool)
    requires !IsPlaceholder(bonkee)
    requires i < |coll| && coll[i].username == Normalize(bonkee) && coll[i].nextJailBreakChance >= t1
    requires forall j :: 0 <= j < i ==> coll[j].username != Normalize(bonkee)
    ensures var after := Jailbreak(coll, bonkee, true, s1, t1).coll;
            Jailbreak(after, bonkee, true, s2, t2).reply.NotEligible? <==> t2 > t1 + TicksPerHour
  {
    var name := Normalize(bonkee);
    var after := Jailbreak(coll, bonkee, true, s1, t1).coll;
    assert after[i].username == name && after[i].nextJailBreakChance == t1 + TicksPerHour;
    assert forall j :: 0 <= j < i ==> after[j].username == coll[j].username != name;
  }

  /** Bonking a user who is still in jail extends the sentence from its current release date. */
  lemma BonkAgain(coll: seq<BonkedUser>, bonkee: string, jailMinutes: Int32, now: int, i: nat)
    requires !IsPlaceholder(bonkee)
    requires UsernamesUnique(coll)
    requires i < |coll| && coll[i].username == Normalize(bonkee) && coll[i].releaseDate > now
    ensures var r := Bonk(coll, bonkee, jailMinutes, true, now).coll;
            && |r| == |coll|
            && (forall j :: 0 <= j < |coll| && j != i ==> r[j] == coll[j])
            && r[i] == coll[i].(releaseDate := coll[i].releaseDate + JailTime(jailMinutes))
  {
  }

  /**
   * `MaxSentence` is never applied: a bonk of a user still in jail always adds
   * its full sentence, so a user already a day in jail is jailed for longer.
   */
  lemma MaxSentenceNotEnforced(coll: seq<BonkedUser>, bonkee: string, jailMinutes: Int32, now: int, i: nat)
    requires !IsPlaceholder(bonkee) && jailMinutes > 0
    requires UsernamesUnique(coll)
    requires i < |coll| && coll[i].username == Normalize(bonkee) && coll[i].releaseDate - now >= MaxSentence
    ensures Bonk(coll, bonkee, jailMinutes, true, now).reply.releaseDate - now > MaxSentence
  {
    BonkAgain(coll, bonkee, jailMinutes, now, i);
  }
}
