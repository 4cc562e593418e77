/**
 * Properties of the queue feature that relate several calls, or the endpoints
 * to the invariants of the stored state.
 */
module QueueProperties {
  import opened Optional
  import opened Int32
  import opened QueueRecords
  import opened QueueOrder
  import opened SeqSearch
  import Utils
  import opened QueueMembership
  import opened QueueSelection
  import ChannelConfig
  import opened QueueController

  // ---------------------------------------------------------------------------
  // The stored state stays valid

  lemma SetupKeepsValid(db: QueueDb, channel: string)
    requires ValidDb(db)
    ensures ValidDb(db.(settings := Setup(db.settings, channel).settings))
  {
    var s := Setup(db.settings, channel).settings;
    forall i | 0 <= i < |s|
      ensures ValidSettings(s[i])
    {
      if i >= |db.settings| {
        assert s[i] == NewChannelQueueSettings(channel);
      }
    }
  }

  lemma StoreQueueKeepsValid(db: QueueDb, channel: string, q: seq<QueuedUser>)
    requires ValidDb(db)
    requires UniqueEntries(q) && NoneSkipped(q)
    ensures ValidDb(StoreQueue(db, channel, q))
  {
    var r := StoreQueue(db, channel, q);
    forall ch | ch in r.queues
      ensures UniqueEntries(r.queues[ch]) && NoneSkipped(r.queues[ch])
    {
      assert r.queues[ch] == QueueOf(r, ch);
      if ch != channel {
        assert QueueOf(r, ch) == QueueOf(db, ch);
      }
    }
  }

  lemma StoreSettingsKeepsValid(db: QueueDb, channel: string, s: ChannelQueueSettings)
    requires ValidDb(db)
    requires ValidSettings(s) && s.channel == channel
    ensures ValidDb(StoreSettings(db, channel, s))
  {
    SetupKeepsValid(db, channel);
    var session := Setup(db.settings, channel);
    var r := StoreSettings(db, channel, s);
    assert r.settings == session.settings[session.at := s];
    assert session.settings[session.at].channel == channel;
  }

  lemma QueueOfValid(db: QueueDb, channel: string)
    requires ValidDb(db)
    ensures UniqueEntries(QueueOf(db, channel)) && NoneSkipped(QueueOf(db, channel))
  {
  }

  /**
   * Every endpoint keeps the stored state valid: one settings record per
   * channel, unique game, position and alias names, at most one queue record
   * per (Game, Username) in a channel, and no record marked skipped.
   */
  lemma ApplyKeepsValid(db: QueueDb, channel: string, req: Request, now: int)
    requires ValidDb(db)
    ensures ValidDb(Apply(db, channel, req, now))
  {
    SetupKeepsValid(db, channel);
    var db' := db.(settings := Setup(db.settings, channel).settings);
    var q := QueueOf(db, channel);
    QueueOfValid(db, channel);
    var loaded := Loaded(db, channel);
    assert ValidSettings(loaded) && loaded.channel == channel;
    match req
    case JoinQueue(rawUser, ign, game, position, priority) =>
      var j := Join(loaded, q, Utils.AtPrefixed(rawUser), ign, game, position, priority, now);
      JoinKeepsValid(loaded, q, Utils.AtPrefixed(rawUser), ign, game, position, priority, now);
      StoreQueueKeepsValid(db', channel, j.queue);
    case LeaveQueue(rawUser, user, game, skip) =>
      var d := Dequeue(q, user.GetOr(Utils.AtPrefixed(rawUser)), game, skip, now);
      StoreQueueKeepsValid(db', channel, d.queue);
    case ClearGame(game) =>
      StoreQueueKeepsValid(db', channel, Clear(q, game, now));
    case PullNext(position, game, limit, remove) =>
      var pull := GetQueue(q, game, Some(limit), remove);
      PullKeepsValid(q, game, Some(limit), remove);
      StoreQueueKeepsValid(db', channel, pull.queue);
    case LookUpPosition(rawUser, user, game) =>
    case SetupGame(name, size, ign, alias) =>
      ChannelConfig.AddGameKeepsValid(loaded, name, size, ign, alias);
      StoreSettingsKeepsValid(db, channel, ChannelConfig.AddGame(loaded, name, size, ign, alias).settings);
    case NewPosition(game, position) =>
      ChannelConfig.AddPositionKeepsValid(loaded, game, position);
      StoreSettingsKeepsValid(db, channel, ChannelConfig.AddPosition(loaded, game, position).settings);
    case NewAlias(game, position, alias) =>
      ChannelConfig.AddAliasKeepsValid(loaded, game, position, alias);
      StoreSettingsKeepsValid(db, channel, ChannelConfig.AddAlias(loaded, game, position, alias).settings);
  }

  /** Marking pulled records removed keeps keys unique and nobody skipped. */
  lemma PullKeepsValid(q: seq<QueuedUser>, game: string, limit: Option<Int32>, remove: bool)
    requires UniqueEntries(q) && NoneSkipped(q)
    ensures UniqueEntries(GetQueue(q, game, limit, remove).queue)
    ensures NoneSkipped(GetQueue(q, game, limit, remove).queue)
  {
    var r := GetQueue(q, game, limit, remove).queue;
    assert forall n :: 0 <= n < |q| ==> SameEntry(r[n], q[n]) && r[n].skipped == q[n].skipped;
  }

  /**
   * Nothing is ever deleted: each endpoint leaves every stored queue record at
   * its place with its (Game, Username), a record that has a last-played date
   * keeps one, and other channels' queues are untouched.
   */
  lemma ApplyKeepsHistory(db: QueueDb, channel: string, req: Request, now: int)
    ensures var db' := Apply(db, channel, req, now);
            && (forall ch :: ch != channel ==> QueueOf(db', ch) == QueueOf(db, ch))
            && |QueueOf(db', channel)| >= |QueueOf(db, channel)|
            && (forall i :: 0 <= i < |QueueOf(db, channel)| ==>
                  && SameEntry(QueueOf(db', channel)[i], QueueOf(db, channel)[i])
                  && (QueueOf(db, channel)[i].lastPlayed.Some? ==> QueueOf(db', channel)[i].lastPlayed.Some?))
  {
    var q := QueueOf(db, channel);
    match req
    case PullNext(position, game, limit, remove) =>
      var r := GetQueue(q, game, Some(limit), remove).queue;
      assert forall n :: 0 <= n < |q| ==> SameEntry(r[n], q[n]) && r[n].lastPlayed == q[n].lastPlayed;
    case _ =>
  }

  // ---------------------------------------------------------------------------
  // Setup

  /** `Setup` inserts the default settings at most once: running it again changes nothing. */
  lemma SetupOnce(coll: seq<ChannelQueueSettings>, channel: string)
    ensures var s := Setup(coll, channel);
            Setup(s.settings, channel) == s
            && |s.settings| <= |coll| + 1
  {
    var s := Setup(coll, channel);
    assert s.settings[s.at].channel == channel;
  }

  // ---------------------------------------------------------------------------
  // Joining

  /** "Any" in `QueueUser` means the channel's default game (itself "Any" when unset). */
  lemma JoinAnyMeansDefault(settings: ChannelQueueSettings, q: seq<QueuedUser>, user: string, ign: Option<string>,
                            position: string, priority: Int32, now: int)
    ensures Join(settings, q, user, ign, Any, position, priority, now)
         == Join(settings, q, user, ign, settings.defaultGame.GetOr(Any), position, priority, now)
  {
  }

  /** A first join stores a record with priority 0, whatever priority was asked for. */
  lemma FreshJoinHasPriorityZero(settings: ChannelQueueSettings, q: seq<QueuedUser>, user: string, ign: Option<string>,
                                 game: string, position: string, priority: Int32, now: int)
    requires forall j :: 0 <= j < |q| ==> !(q[j].game == ResolveGame(settings, game) && q[j].username == user)
    requires !RequireIgn(settings, ResolveGame(settings, game), ign)
    ensures var r := Join(settings, q, user, ign, game, position, priority, now);
            && r.reply == NowQueued(user, ResolveGame(settings, game))
            && |r.queue| == |q| + 1
            && r.queue[|q|] == QueuedUser(user, now, ResolveGame(settings, game), ign, position, 0, None, false, false)
  {
  }

  /**
   * Joining again with a record that has left the line (skipped, removed or
   * ever played) reactivates it: flags cleared, queued now, in-game name
   * filled only when null; priority, position and last-played date kept.
   */
  lemma RejoinReactivates(settings: ChannelQueueSettings, q: seq<QueuedUser>, user: string, ign: Option<string>,
                          game: string, position: string, priority: Int32, now: int, i: nat)
    requires UniqueEntries(q)
    requires i < |q| && q[i].game == ResolveGame(settings, game) && q[i].username == user
    requires Inactive(q[i])
    requires !(RequireIgn(settings, ResolveGame(settings, game), ign) && IsNullOrEmpty(q[i].inGameName))
    ensures var r := Join(settings, q, user, ign, game, position, priority, now);
            && r.reply.NowQueued?
            && |r.queue| == |q|
            && r.queue[i] == q[i].(skipped := false, removed := false, timeQueued := now,
                                   inGameName := if q[i].inGameName.None? then ign else q[i].inGameName)
  {
    assert FirstIndex(q, EntryFor(ResolveGame(settings, game), user)) == Some(i);
  }

  /**
   * Joining with an active record only updates it: priority and position
   * overwritten, in-game name replaced when one is supplied; queue time and
   * flags kept; the reply is "already in queue".
   */
  lemma JoinWhileQueuedUpdates(settings: ChannelQueueSettings, q: seq<QueuedUser>, user: string, ign: Option<string>,
                               game: string, position: string, priority: Int32, now: int, i: nat)
    requires UniqueEntries(q)
    requires i < |q| && q[i].game == ResolveGame(settings, game) && q[i].username == user
    requires !Inactive(q[i])
    requires !(RequireIgn(settings, ResolveGame(settings, game), ign) && IsNullOrEmpty(q[i].inGameName))
    ensures var r := Join(settings, q, user, ign, game, position, priority, now);
            && r.reply == AlreadyQueued(user)
            && |r.queue| == |q|
            && r.queue[i] == q[i].(priority := priority, position := position,
                                   inGameName := if ign.Some? then ign else q[i].inGameName)
  {
    assert FirstIndex(q, EntryFor(ResolveGame(settings, game), user)) == Some(i);
  }

  /**
   * Once a record has a last-played date, every admitted join takes the
   * reactivation branch and resets its queue time to now, even while the
   * record is still active in the line.
   */
  lemma PlayedRecordRequeuesOnJoin(settings: ChannelQueueSettings, q: seq<QueuedUser>, user: string, ign: Option<string>,
                                   game: string, position: string, priority: Int32, now: int, i: nat)
    requires UniqueEntries(q)
    requires i < |q| && q[i].game == ResolveGame(settings, game) && q[i].username == user
    requires q[i].lastPlayed.Some?
    requires !(RequireIgn(settings, ResolveGame(settings, game), ign) && IsNullOrEmpty(q[i].inGameName))
    ensures var r := Join(settings, q, user, ign, game, position, priority, now);
            r.reply.NowQueued? && r.queue[i].timeQueued == now && r.queue[i].priority == q[i].priority
  {
    RejoinReactivates(settings, q, user, ign, game, position, priority, now, i);
  }

  /** `DefaultLimit` and `DefaultPosition` are stored but never read: joining does not depend on them. */
  lemma ChannelDefaultsUnused(settings: ChannelQueueSettings, limit: Int32, position: Option<string>,
                              q: seq<QueuedUser>, user: string, ign: Option<string>, game: string,
                              pos: string, priority: Int32, now: int)
    ensures Join(settings.(defaultLimit := limit, defaultPosition := position), q, user, ign, game, pos, priority, now)
         == Join(settings, q, user, ign, game, pos, priority, now)
  {
    var other := settings.(defaultLimit := limit, defaultPosition := position);
    var g := ResolveGame(settings, game);
    assert ResolveGame(other, game) == g;
    assert RequireIgn(other, g, ign) == RequireIgn(settings, g, ign);
  }

  /** The in-game-name requirement is read from the first game of that name; `RequireApprovedAlias` is never read. */
  lemma RequireIgnReadsOnlyTheNameFlag(settings: ChannelQueueSettings, game: string, ign: Option<string>, i: nat, flag: bool)
    requires i < |settings.games|
    ensures var other := settings.(games := settings.games[i := settings.games[i].(requireApprovedAlias := flag)]);
            RequireIgn(other, game, ign) == RequireIgn(settings, game, ign)
  {
    var other := settings.(games := settings.games[i := settings.games[i].(requireApprovedAlias := flag)]);
    FirstIndexAgrees(settings.games, other.games, GameNamed(game));
  }

  /** The first match depends only on which elements match. */
  lemma FirstIndexAgrees<T>(a: seq<T>, b: seq<T>, p: T -> bool)
    requires |a| == |b|
    requires forall j :: 0 <= j < |a| ==> p(a[j]) == p(b[j])
    ensures FirstIndex(a, p) == FirstIndex(b, p)
  {
    var fa := FirstIndex(a, p);
    var fb := FirstIndex(b, p);
    if fa.Some? && fb.Some? {
    }
  }

  /**
   * Join, leave and join again: the same record is reactivated and no second
   * record appears for the user.
   */
  lemma JoinLeaveJoin(settings: ChannelQueueSettings, q: seq<QueuedUser>, user: string, ign: Option<string>,
                      game: string, position: string, priority: Int32, t1: int, t2: int, t3: int)
    requires UniqueEntries(q)
    requires Join(settings, q, user, ign, game, position, priority, t1).reply.NowQueued?
    ensures var g := ResolveGame(settings, game);
            var q1 := Join(settings, q, user, ign, game, position, priority, t1).queue;
            var d := Dequeue(q1, user, g, false, t2);
            var j := Join(settings, d.queue, user, ign, game, position, priority, t3);
            && d.reply.RemovedFromQueue?
            && j.reply.NowQueued?
            && |j.queue| == |q1|
            && (exists i :: 0 <= i < |j.queue| && j.queue[i].game == g && j.queue[i].username == user
                            && Selectable(j.queue[i], g) && j.queue[i].timeQueued == t3)
  {
    var g := ResolveGame(settings, game);
    var q1 := Join(settings, q, user, ign, game, position, priority, t1).queue;
    var i := JoinedRecord(settings, q, user, ign, game, position, priority, t1);
    var d := Dequeue(q1, user, g, false, t2);
    assert d.queue[i] == q1[i].(removed := true, lastPlayed := Some(t2));
    RejoinReactivates(settings, d.queue, user, ign, game, position, priority, t3, i);
  }

  /**
   * After a join that replies "now queued" the user has an active record in
   * the resolved game, and the in-game-name gate would let it through again.
   */
  lemma JoinedRecord(settings: ChannelQueueSettings, q: seq<QueuedUser>, user: string, ign: Option<string>,
                     game: string, position: string, priority: Int32, now: int) returns (i: nat)
    requires UniqueEntries(q)
    requires Join(settings, q, user, ign, game, position, priority, now).reply.NowQueued?
    ensures var g := ResolveGame(settings, game);
            var r := Join(settings, q, user, ign, game, position, priority, now);
            && i < |r.queue| && r.queue[i].game == g && r.queue[i].username == user && !r.queue[i].removed
            && !(RequireIgn(settings, g, ign) && IsNullOrEmpty(r.queue[i].inGameName))
  {
    var g := ResolveGame(settings, game);
    var r := Join(settings, q, user, ign, game, position, priority, now);
    match FirstIndex(q, EntryFor(g, user))
    case Some(k) =>
      i := k;
    case None =>
      i := |q|;
  }

  /**
   * Updating an active record with an empty in-game name overwrites a stored
   * one, so that the next join of a game that requires the name is refused.
   */
  lemma EmptyNameOverwritesStoredName(settings: ChannelQueueSettings, q: seq<QueuedUser>, user: string,
                                      game: string, position: string, priority: Int32, t1: int, t2: int, i: nat)
    requires UniqueEntries(q)
    requires i < |q| && q[i].game == ResolveGame(settings, game) && q[i].username == user
    requires !Inactive(q[i]) && q[i].inGameName.Some? && q[i].inGameName.value != ""
    requires RequireIgn(settings, ResolveGame(settings, game), Some(""))
    ensures var j1 := Join(settings, q, user, Some(""), game, position, priority, t1);
            && j1.reply.AlreadyQueued?
            && j1.queue[i].inGameName == Some("")
            && Join(settings, j1.queue, user, None, game, position, priority, t2).reply == NeedsInGameName(user)
  {
    var g := ResolveGame(settings, game);
    JoinWhileQueuedUpdates(settings, q, user, Some(""), game, position, priority, t1, i);
    var q1 := Join(settings, q, user, Some(""), game, position, priority, t1).queue;
    assert RequireIgn(settings, g, None);
    assert FirstIndex(q1, EntryFor(g, user)) == Some(i);
  }

  // ---------------------------------------------------------------------------
  // Leaving, clearing and pulling

  /** `DeQueueUser` behaves the same with and without `Skip`. */
  lemma DequeueIgnoresSkip(q: seq<QueuedUser>, user: string, game: string, now: int)
    ensures Dequeue(q, user, game, true, now) == Dequeue(q, user, game, false, now)
  {
  }

  /** After a successful `DeQueueUser` the user is no longer anywhere in that game's ranking. */
  lemma DequeueLeavesRanking(q: seq<QueuedUser>, user: string, game: string, skip: bool, now: int)
    requires UniqueEntries(q)
    ensures forall s :: s in Ranking(Dequeue(q, user, game, skip, now).queue, game) ==> s.entry.username != user
  {
    var q' := Dequeue(q, user, game, skip, now).queue;
    RankingSpec(q', game);
    forall s | s in Ranking(q', game)
      ensures s.entry.username != user
    {
    }
  }

  /** After clearing a game (or "Any"), nothing of that game can be selected or pulled. */
  lemma ClearEmptiesSelection(q: seq<QueuedUser>, game: string, now: int, g: string, limit: Option<Int32>)
    requires game == Any || g == game
    ensures Candidates(Clear(q, game, now), g) == []
    ensures GetQueue(Clear(q, game, now), g, limit, false).picked == []
  {
    var q' := Clear(q, game, now);
    var c := Candidates(q', g);
    assert c == [];
    StableSort.SortPermutes(c, SlotKey, RanksNoLater);
    assert |Ranking(q', g)| == |multiset(Ranking(q', g))| == 0;
  }

  /** Two pulls with `Remove` never hand out the same record. */
  lemma PullsAreDisjoint(q: seq<QueuedUser>, game: string, first: Option<Int32>, second: Option<Int32>, n: nat)
    requires n < |q|
    requires IsChosen(Chosen(q, game, first), n)
    ensures !IsChosen(Chosen(GetQueue(q, game, first, true).queue, game, second), n)
  {
    var q' := GetQueue(q, game, first, true).queue;
    ChosenFromQueue(q', game, second);
    assert q'[n].removed;
  }

  /** Pulling without `Remove` is repeatable: the same call on the unchanged state returns the same list. */
  lemma PeekIsRepeatable(q: seq<QueuedUser>, game: string, limit: Option<Int32>)
    ensures var first := GetQueue(q, game, limit, false);
            GetQueue(first.queue, game, limit, false) == first
  {
  }

  /** The `Position` argument of `NextInQueue` makes no difference. */
  lemma NextIgnoresPosition(db: QueueDb, channel: string, p1: string, p2: string, game: string, limit: Int32, remove: bool)
    ensures NextInQueue(db, channel, p1, game, limit, remove) == NextInQueue(db, channel, p2, game, limit, remove)
  {
  }

  // ---------------------------------------------------------------------------
  // Position lookup

  /** Within one game of a valid queue, different ranking slots belong to different users. */
  lemma RankingUsersDistinct(q: seq<QueuedUser>, game: string)
    requires UniqueEntries(q)
    ensures var r := Ranking(q, game);
            forall i, j :: 0 <= i < j < |r| ==> r[i].entry.username != r[j].entry.username
  {
    var r := Ranking(q, game);
    RankingSpec(q, game);
    forall i, j | 0 <= i < j < |r|
      ensures r[i].entry.username != r[j].entry.username
    {
      assert r[i] in r && r[j] in r;
      if r[i].entry.username == r[j].entry.username {
        assert SameEntry(q[r[i].at], q[r[j].at]);
      }
    }
  }

  /**
   * The position `UserPosition` reports is the user's rank in the full
   * queue order when that rank is below five, and -1 otherwise.
   */
  lemma PositionIsRank(q: seq<QueuedUser>, user: string, game: string, m: nat)
    requires UniqueEntries(q)
    requires m < |Ranking(q, game)| && Ranking(q, game)[m].entry.username == user
    ensures GetUserPositionInQueue(q, user, game) == if m < 5 then m else -1
  {
    var r := Ranking(q, game);
    var picked := GetQueue(q, game, None, false).picked;
    RankingUsersDistinct(q, game);
    RankingLength(q, game);
    var pos := GetUserPositionInQueue(q, user, game);
    assert forall i :: 0 <= i < |picked| ==> picked[i].username == r[i].entry.username;
    if m < 5 {
      assert picked[m].username == user;
    }
  }

  /** A user without a selectable record in the game is reported at -1. */
  lemma PositionOfAbsentUser(q: seq<QueuedUser>, user: string, game: string)
    requires forall n :: 0 <= n < |q| && Selectable(q[n], game) ==> q[n].username != user
    ensures GetUserPositionInQueue(q, user, game) == -1
  {
    ChosenFromQueue(q, game, None);
  }

  /** The reply says "next" both for the first in line and for a user not found among the next five. */
  lemma PositionRendersNext(place: int)
    requires -1 <= place < 5
    ensures Utils.Stringify(place, "next") == "next" <==> place <= 0
  {
    if place > 0 {
      var r := Utils.Stringify(place, "next");
      assert Utils.IsDigit(r[0]);
    }
  }
}
