/**
 * The record updates of QueueController.cs on one channel's queue collection:
 * joining (`QueueUser`), leaving (`DeQueueUser`) and clearing (`ClearQueue`).
 * Each is a pure transition from the collection to the new collection and a reply.
 */
module QueueMembership {
  import opened Optional
  import opened Int32
  import opened QueueRecords
  import opened SeqSearch

  predicate IsNullOrEmpty(s: Option<string>) {
    s.None? || s.value == ""
  }

  /** The game `QueueUser` works on: "Any" stands for the channel's default game, or for "Any" when that is null. */
  function ResolveGame(settings: ChannelQueueSettings, game: string): string {
    if game == Any then settings.defaultGame.GetOr(Any) else game
  }

  function GameNamed(name: string): GameSettings -> bool {
    (g: GameSettings) => g.name == name
  }

  function EntryFor(game: string, user: string): QueuedUser -> bool {
    (u: QueuedUser) => u.game == game && u.username == user
  }

  /** `RequireIGN`: the first game of that name asks for an in-game name and none was given. */
  predicate RequireIgn(settings: ChannelQueueSettings, game: string, inGameName: Option<string>) {
    match FirstIndex(settings.games, GameNamed(game))
    case Some(i) => settings.games[i].requireInGameName && IsNullOrEmpty(inGameName)
    case None => false
  }

  /** A record that has left the active line: skipped, removed or ever played. */
  predicate Inactive(u: QueuedUser) {
    u.skipped || u.lastPlayed.Some? || u.removed
  }

  /** The rejoin update: flags cleared, queued again now, in-game name filled in only where it is null. */
  function Reactivated(u: QueuedUser, inGameName: Option<string>, now: int): QueuedUser {
    u.(skipped := false, removed := false, timeQueued := now,
       inGameName := if u.inGameName.None? then inGameName else u.inGameName)
  }

  /** The update of an active record: priority and position overwritten, in-game name replaced by a non-null one. */
  function Refreshed(u: QueuedUser, inGameName: Option<string>, position: string, priority: Int32): QueuedUser {
    u.(priority := priority, position := position,
       inGameName := if inGameName.Some? then inGameName else u.inGameName)
  }

  datatype JoinReply =
    | NeedsInGameName(user: string)
    | NewQueueNeedsInGameName(user: string)
    | NowQueued(username: string, game: string)
    | AlreadyQueued(username: string)
  {
    predicate Refused() {
      NeedsInGameName? || NewQueueNeedsInGameName?
    }
  }

  datatype JoinResult = JoinResult(queue: seq<QueuedUser>, reply: JoinReply)

  /** The state change of `QueueUser` for the calling `user` in a channel whose settings are `settings`. */
  function Join(settings: ChannelQueueSettings, q: seq<QueuedUser>, user: string, inGameName: Option<string>,
                game: string, position: string, priority: Int32, now: int): (r: JoinResult)
    // the gate refuses a new user exactly when it is closed, and an existing one when its stored name is also null or empty
    ensures r.reply.NewQueueNeedsInGameName? <==>
              RequireIgn(settings, ResolveGame(settings, game), inGameName)
              && forall j :: 0 <= j < |q| ==> !(q[j].game == ResolveGame(settings, game) && q[j].username == user)
    ensures r.reply.NeedsInGameName? <==>
              RequireIgn(settings, ResolveGame(settings, game), inGameName)
              && exists j :: 0 <= j < |q| && q[j].game == ResolveGame(settings, game) && q[j].username == user
                             && IsNullOrEmpty(q[j].inGameName)
                             && forall i :: 0 <= i < j ==> !(q[i].game == ResolveGame(settings, game) && q[i].username == user)
    ensures r.reply.Refused() ==> r.queue == q
    // every reply names the calling user, and a successful one the game it resolved to
    ensures r.reply.NeedsInGameName? ==> r.reply == NeedsInGameName(user)
    ensures r.reply.NewQueueNeedsInGameName? ==> r.reply == NewQueueNeedsInGameName(user)
    ensures r.reply.NowQueued? ==> r.reply == NowQueued(user, ResolveGame(settings, game))
    ensures r.reply.AlreadyQueued? ==> r.reply == AlreadyQueued(user)
    // the only insert is a fresh record, appended
    ensures |r.queue| == |q| || r.queue == q + [NewQueuedUser(user, ResolveGame(settings, game), position, inGameName, now)]
    // records of other users or games are untouched, and no record changes its key or loses its last-played date
    ensures forall i :: 0 <= i < |q| && !(q[i].game == ResolveGame(settings, game) && q[i].username == user) ==> r.queue[i] == q[i]
    ensures forall i :: 0 <= i < |q| ==> SameEntry(r.queue[i], q[i]) && r.queue[i].lastPlayed == q[i].lastPlayed
  {
    var g := ResolveGame(settings, game);
    var requireIgn := RequireIgn(settings, g, inGameName);
    match FirstIndex(q, EntryFor(g, user))
    case Some(i) =>
      var qu := q[i];
      if requireIgn && IsNullOrEmpty(qu.inGameName) then
        JoinResult(q, NeedsInGameName(user))
      else if Inactive(qu) then
        JoinResult(q[i := Reactivated(qu, inGameName, now)], NowQueued(qu.username, qu.game))
      else
        JoinResult(q[i := Refreshed(qu, inGameName, position, priority)], AlreadyQueued(qu.username))
    case None =>
      if requireIgn then
        JoinResult(q, NewQueueNeedsInGameName(user))
      else
        JoinResult(q + [NewQueuedUser(user, g, position, inGameName, now)], NowQueued(user, g))
  }

  /** `Join` keeps one record per (Game, Username) and never stores a skipped record. */
  lemma JoinKeepsValid(settings: ChannelQueueSettings, q: seq<QueuedUser>, user: string, inGameName: Option<string>,
                       game: string, position: string, priority: Int32, now: int)
    requires UniqueEntries(q) && NoneSkipped(q)
    ensures var r := Join(settings, q, user, inGameName, game, position, priority, now).queue;
            UniqueEntries(r) && NoneSkipped(r)
  {
    var g := ResolveGame(settings, game);
    var r := Join(settings, q, user, inGameName, game, position, priority, now).queue;
    if |r| != |q| {
      assert r == q + [NewQueuedUser(user, g, position, inGameName, now)];
      assert FirstIndex(q, EntryFor(g, user)).None?;
    }
  }

  datatype DequeueReply = RemovedFromQueue(user: string, game: string) | NotFound(user: string, game: string)

  datatype DequeueResult = DequeueResult(queue: seq<QueuedUser>, reply: DequeueReply)

  /** The state change of `DeQueueUser`; `skip` is accepted and has no effect. */
  function Dequeue(q: seq<QueuedUser>, user: string, game: string, skip: bool, now: int): (r: DequeueResult)
    ensures |r.queue| == |q|
    ensures r.reply.NotFound? <==> forall j :: 0 <= j < |q| ==> !(q[j].username == user && q[j].game == game)
    ensures r.reply.NotFound? ==> r.queue == q
    ensures r.reply == NotFound(user, game) || r.reply == RemovedFromQueue(user, game)
    ensures forall j :: 0 <= j < |q| && !(q[j].username == user && q[j].game == game) ==> r.queue[j] == q[j]
    // the (only) matching record is marked removed and played now, whatever its flags were
    ensures UniqueEntries(q) ==>
              forall j :: 0 <= j < |q| && q[j].username == user && q[j].game == game ==>
                r.queue[j] == q[j].(removed := true, lastPlayed := Some(now))
    ensures forall i :: 0 <= i < |q| ==> SameEntry(r.queue[i], q[i]) && (q[i].lastPlayed.Some? ==> r.queue[i].lastPlayed.Some?)
    ensures UniqueEntries(q) ==> UniqueEntries(r.queue)
    ensures NoneSkipped(q) ==> NoneSkipped(r.queue)
  {
    match FirstIndex(q, EntryFor(game, user))
    case Some(i) =>
      DequeueResult(q[i := q[i].(removed := true, lastPlayed := Some(now))], RemovedFromQueue(user, game))
    case None =>
      DequeueResult(q, NotFound(user, game))
  }

  /** `ClearQueue`'s filter: not removed, and in the named game, or in any game for "Any". */
  predicate Clears(u: QueuedUser, game: string) {
    !u.removed && (game == Any || u.game == game)
  }

  /** The state change of `ClearQueue`. */
  function Clear(q: seq<QueuedUser>, game: string, now: int): (r: seq<QueuedUser>)
    ensures |r| == |q|
    // every record in scope ends up removed
    ensures forall i :: 0 <= i < |q| && (game == Any || q[i].game == game) ==> r[i].removed
    // records out of scope, or already removed, are untouched
    ensures forall i :: 0 <= i < |q| && !Clears(q[i], game) ==> r[i] == q[i]
    // an active record in scope is unskipped, removed, stamped as played now and put back to priority 10
    ensures forall i :: 0 <= i < |q| && Clears(q[i], game) ==>
              r[i] == q[i].(skipped := false, removed := true, lastPlayed := Some(now), priority := ClearedPriority)
    ensures forall i :: 0 <= i < |q| ==> SameEntry(r[i], q[i]) && (q[i].lastPlayed.Some? ==> r[i].lastPlayed.Some?)
    ensures UniqueEntries(q) ==> UniqueEntries(r)
    ensures NoneSkipped(q) ==> NoneSkipped(r)
  {
    seq(|q|, i requires 0 <= i < |q| =>
      if Clears(q[i], game)
      then q[i].(skipped := false, removed := true, lastPlayed := Some(now), priority := ClearedPriority)
      else q[i])
  }
}
