/**
 * The stored records of the queue feature (QueuedUser.cs, GamePosition.cs,
 * GameSettings.cs, ChannelQueueSettings.cs) with the values their
 * constructors and property initialisers give them. Dates are instants on an
 * integer clock; a nullable date or string is an `Option`.
 */
module QueueRecords {
  import opened Optional
  import opened Int32

  /** The sentinel game and position name; it is also a game name like any other. */
  const Any: string := "Any"

  /** The priority `ClearQueue` writes back; the property comment calls it the default. */
  const ClearedPriority: Int32 := 10

  /** One user's standing in one game's queue of a channel. */
  datatype QueuedUser = QueuedUser(
    username: string,
    timeQueued: int,
    game: string,
    inGameName: Option<string>,
    position: string,
    priority: Int32,
    lastPlayed: Option<int>,
    skipped: bool,
    removed: bool)

  /** `new QueuedUser(userName, game, position, inGameName)`: the other fields keep the CLR defaults. */
  function NewQueuedUser(userName: string, game: string, position: string, inGameName: Option<string>, now: int): (u: QueuedUser)
    ensures u.username == userName && u.game == game && u.position == position && u.inGameName == inGameName
    // queued now, at the lowest default priority, never played and in the active line
    ensures u.timeQueued == now && u.priority == 0 && u.lastPlayed.None? && !u.skipped && !u.removed
  {
    QueuedUser(userName, now, game, inGameName, position, 0, None, false, false)
  }

  datatype GamePosition = GamePosition(positionName: string, aliases: seq<string>)

  function NewGamePosition(name: string): (p: GamePosition)
    ensures p.positionName == name && p.aliases == []
    ensures AliasesDistinct(p)
  {
    GamePosition(name, [])
  }

  datatype GameSettings = GameSettings(
    name: string,
    defaultSquadSize: Int32,
    positions: seq<GamePosition>,
    requireInGameName: bool,
    requireApprovedAlias: bool)

  /** `new GameSettings()` followed by setting `Name`. */
  function NewGameSettings(name: string): (g: GameSettings)
    ensures g.name == name && g.positions == [] && PositionNamesUnique(g)
    // squads of five, an in-game name required, no alias approval
    ensures g.defaultSquadSize == 5 && g.requireInGameName && !g.requireApprovedAlias
  {
    GameSettings(name, 5, [], true, false)
  }

  datatype ChannelQueueSettings = ChannelQueueSettings(
    channel: string,
    defaultLimit: Int32,
    defaultGame: Option<string>,
    games: seq<GameSettings>,
    defaultPosition: Option<string>)

  function NewChannelQueueSettings(channelName: string): (s: ChannelQueueSettings)
    ensures s.channel == channelName && s.games == [] && ValidSettings(s)
    // limit five, and "Any" as both default game and default position
    ensures s.defaultLimit == 5 && s.defaultGame == Some(Any) && s.defaultPosition == Some(Any)
  {
    ChannelQueueSettings(channelName, 5, Some(Any), [], Some(Any))
  }

  /** Queue records are looked up by game and user name together. */
  predicate SameEntry(a: QueuedUser, b: QueuedUser) {
    a.game == b.game && a.username == b.username
  }

  /** At most one record per (Game, Username) in a channel's queue collection. */
  ghost predicate UniqueEntries(q: seq<QueuedUser>) {
    forall i, j :: 0 <= i < j < |q| ==> !SameEntry(q[i], q[j])
  }

  /** No stored record is marked skipped. */
  ghost predicate NoneSkipped(q: seq<QueuedUser>) {
    forall i :: 0 <= i < |q| ==> !q[i].skipped
  }

  ghost predicate AliasesDistinct(p: GamePosition) {
    forall i, j :: 0 <= i < j < |p.aliases| ==> p.aliases[i] != p.aliases[j]
  }

  ghost predicate PositionNamesUnique(g: GameSettings) {
    forall i, j :: 0 <= i < j < |g.positions| ==> g.positions[i].positionName != g.positions[j].positionName
  }

  ghost predicate GameNamesUnique(games: seq<GameSettings>) {
    forall i, j :: 0 <= i < j < |games| ==> games[i].name != games[j].name
  }

  /** Names are unique at every level of a channel's settings, and alias lists hold no repeats. */
  ghost predicate ValidSettings(s: ChannelQueueSettings) {
    && GameNamesUnique(s.games)
    && (forall i :: 0 <= i < |s.games| ==> PositionNamesUnique(s.games[i]))
    && (forall i, p :: 0 <= i < |s.games| && 0 <= p < |s.games[i].positions| ==> AliasesDistinct(s.games[i].positions[p]))
  }
}
