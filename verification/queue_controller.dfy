/**
 * The endpoints of QueueController.cs over the whole queue database: the
 * shared "queuesettings" collection and one "gamequeue_{Channel}" collection
 * per channel. Every endpoint runs `Setup` first; the channel name and the
 * raw caller name from the request headers, and the clock, are parameters.
 */
module QueueController {
  import opened Optional
  import opened Int32
  import opened QueueRecords
  import opened SeqSearch
  import Utils
  import QueueMembership
  import QueueSelection
  import ChannelConfig

  datatype QueueDb = QueueDb(settings: seq<ChannelQueueSettings>, queues: map<string, seq<QueuedUser>>)

  /** A channel's queue collection; one never written to is empty. */
  function QueueOf(db: QueueDb, channel: string): seq<QueuedUser> {
    if channel in db.queues then db.queues[channel] else []
  }

  /** Writes a channel's queue collection back. */
  function StoreQueue(db: QueueDb, channel: string, q: seq<QueuedUser>): (r: QueueDb)
    ensures r.settings == db.settings
    ensures QueueOf(r, channel) == q
    ensures forall other :: other != channel ==> QueueOf(r, other) == QueueOf(db, other)
    ensures forall ch :: ch in r.queues ==> ch in db.queues || ch == channel
    ensures q == QueueOf(db, channel) ==> r == db
  {
    if channel in db.queues || q != [] then db.(queues := db.queues[channel := q]) else db
  }

  function ChannelIs(channel: string): ChannelQueueSettings -> bool {
    (s: ChannelQueueSettings) => s.channel == channel
  }

  /** At most one settings record per channel. */
  ghost predicate ChannelsUnique(coll: seq<ChannelQueueSettings>) {
    forall i, j :: 0 <= i < j < |coll| ==> coll[i].channel != coll[j].channel
  }

  /** The settings collection after `Setup`, and where the channel's record sits in it. */
  datatype Session = Session(settings: seq<ChannelQueueSettings>, at: nat)

  /** `Setup`: use the channel's first settings record, or insert one with the defaults. */
  function Setup(coll: seq<ChannelQueueSettings>, channel: string): (r: Session)
    ensures r.at < |r.settings| && r.settings[r.at].channel == channel
    ensures forall i :: 0 <= i < r.at ==> r.settings[i].channel != channel
    // an existing record is used as it is; otherwise exactly one default record is appended
    ensures (exists i :: 0 <= i < |coll| && coll[i].channel == channel) ==> r.settings == coll
    ensures (forall i :: 0 <= i < |coll| ==> coll[i].channel != channel) ==>
              r.settings == coll + [NewChannelQueueSettings(channel)] && r.at == |coll|
    ensures ChannelsUnique(coll) ==> ChannelsUnique(r.settings)
  {
    match FirstIndex(coll, ChannelIs(channel))
    case Some(i) => Session(coll, i)
    case None => Session(coll + [NewChannelQueueSettings(channel)], |coll|)
  }

  /** The settings record `Setup` leaves in the controller's `settings` field. */
  function Loaded(db: QueueDb, channel: string): ChannelQueueSettings {
    var session := Setup(db.settings, channel);
    session.settings[session.at]
  }

  datatype Response<R> = Response(db: QueueDb, reply: R)

  /** `NextInQueue`: the next `Limit` users of the game, optionally pulled out; `Position` is not used. */
  function NextInQueue(db: QueueDb, channel: string, position: string, game: string, limit: Int32, remove: bool)
    : (r: Response<seq<QueuedUser>>)
    ensures r.db.settings == Setup(db.settings, channel).settings
    ensures forall other :: other != channel ==> QueueOf(r.db, other) == QueueOf(db, other)
    ensures r.reply == QueueSelection.GetQueue(QueueOf(db, channel), game, Some(limit), remove).picked
    ensures !remove ==> QueueOf(r.db, channel) == QueueOf(db, channel)
    // with `remove`, the picked records' Removed flags are written back
    ensures QueueOf(r.db, channel) == QueueSelection.GetQueue(QueueOf(db, channel), game, Some(limit), remove).queue
  {
    var pull := QueueSelection.GetQueue(QueueOf(db, channel), game, Some(limit), remove);
    Response(StoreQueue(db.(settings := Setup(db.settings, channel).settings), channel, pull.queue), pull.picked)
  }

  /** `UserPosition`: the (explicit or calling) user's place among the next five, as a sentence. */
  function UserPosition(db: QueueDb, channel: string, rawUser: string, user: Option<string>, game: string): (r: Response<string>)
    ensures r.db.settings == Setup(db.settings, channel).settings
    ensures r.db.queues == db.queues
  {
    var who := user.GetOr(Utils.AtPrefixed(rawUser));
    var place := QueueSelection.GetUserPositionInQueue(QueueOf(db, channel), who, game);
    Response(db.(settings := Setup(db.settings, channel).settings),
             who + " is currently " + Utils.Stringify(place, "next") + " in queue")
  }

  /** `QueueUser` (route Add) for the calling user. */
  function QueueUser(db: QueueDb, channel: string, rawUser: string, inGameName: Option<string>, game: string,
                     position: string, priority: Int32, now: int): (r: Response<QueueMembership.JoinReply>)
    ensures r.db.settings == Setup(db.settings, channel).settings
    ensures forall other :: other != channel ==> QueueOf(r.db, other) == QueueOf(db, other)
    ensures var j := QueueMembership.Join(Loaded(db, channel), QueueOf(db, channel), Utils.AtPrefixed(rawUser),
                                          inGameName, game, position, priority, now);
            QueueOf(r.db, channel) == j.queue && r.reply == j.reply
  {
    var j := QueueMembership.Join(Loaded(db, channel), QueueOf(db, channel), Utils.AtPrefixed(rawUser),
                                  inGameName, game, position, priority, now);
    Response(StoreQueue(db.(settings := Setup(db.settings, channel).settings), channel, j.queue), j.reply)
  }

  /** `DeQueueUser` (route Remove) for the explicit or calling user; the game is taken literally. */
  function DeQueueUser(db: QueueDb, channel: string, rawUser: string, user: Option<string>, game: string, skip: bool, now: int)
    : (r: Response<QueueMembership.DequeueReply>)
    ensures r.db.settings == Setup(db.settings, channel).settings
    ensures forall other :: other != channel ==> QueueOf(r.db, other) == QueueOf(db, other)
    ensures var d := QueueMembership.Dequeue(QueueOf(db, channel), user.GetOr(Utils.AtPrefixed(rawUser)), game, skip, now);
            QueueOf(r.db, channel) == d.queue && r.reply == d.reply
  {
    var d := QueueMembership.Dequeue(QueueOf(db, channel), user.GetOr(Utils.AtPrefixed(rawUser)), game, skip, now);
    Response(StoreQueue(db.(settings := Setup(db.settings, channel).settings), channel, d.queue), d.reply)
  }

  /** `ClearQueue` (route Clear): "Any" clears every game. */
  function ClearQueue(db: QueueDb, channel: string, game: string, now: int): (r: Response<string>)
    ensures r.db.settings == Setup(db.settings, channel).settings
    ensures forall other :: other != channel ==> QueueOf(r.db, other) == QueueOf(db, other)
    ensures QueueOf(r.db, channel) == QueueMembership.Clear(QueueOf(db, channel), game, now)
  {
    var cleared := QueueMembership.Clear(QueueOf(db, channel), game, now);
    Response(StoreQueue(db.(settings := Setup(db.settings, channel).settings), channel, cleared),
             "The " + (if game == Any then "" else game + " ") + "queue has been cleared!")
  }

  /** Writes the controller's settings record back over the record `Setup` found or inserted. */
  function StoreSettings(db: QueueDb, channel: string, s: ChannelQueueSettings): (r: QueueDb)
    ensures r.queues == db.queues
    ensures |r.settings| == |Setup(db.settings, channel).settings|
    ensures r.settings[Setup(db.settings, channel).at] == s
    ensures forall i :: 0 <= i < |r.settings| && i != Setup(db.settings, channel).at ==>
              r.settings[i] == Setup(db.settings, channel).settings[i]
  {
    var session := Setup(db.settings, channel);
    db.(settings := session.settings[session.at := s])
  }

  /**
   * `db'` is `db` after `Setup` with the channel's record replaced by `s`:
   * queues untouched, the same records in the same places, every other record unchanged.
   */
  ghost predicate SettingsWritten(db: QueueDb, channel: string, db': QueueDb, s: ChannelQueueSettings) {
    var session := Setup(db.settings, channel);
    && db'.queues == db.queues
    && |db'.settings| == |session.settings|
    && db'.settings[session.at] == s
    && forall i :: 0 <= i < |db'.settings| && i != session.at ==> db'.settings[i] == session.settings[i]
  }

  /** `AddGame` (route SetupGame). */
  function AddGame(db: QueueDb, channel: string, name: string, queueSize: Int32, requireInGameName: bool, requireAlias: bool)
    : (r: Response<ChannelConfig.GameReply>)
    ensures var c := ChannelConfig.AddGame(Loaded(db, channel), name, queueSize, requireInGameName, requireAlias);
            SettingsWritten(db, channel, r.db, c.settings) && r.reply == c.reply
  {
    var c := ChannelConfig.AddGame(Loaded(db, channel), name, queueSize, requireInGameName, requireAlias);
    Response(StoreSettings(db, channel, c.settings), c.reply)
  }

  /** `AddPosition`. */
  function AddPosition(db: QueueDb, channel: string, game: string, position: string)
    : (r: Response<ChannelConfig.PositionReply>)
    ensures var c := ChannelConfig.AddPosition(Loaded(db, channel), game, position);
            SettingsWritten(db, channel, r.db, c.settings) && r.reply == c.reply
  {
    var c := ChannelConfig.AddPosition(Loaded(db, channel), game, position);
    Response(StoreSettings(db, channel, c.settings), c.reply)
  }

  /** `AddAlias`. */
  function AddAlias(db: QueueDb, channel: string, game: string, position: string, alias: string)
    : (r: Response<ChannelConfig.AliasReply>)
    ensures var c := ChannelConfig.AddAlias(Loaded(db, channel), game, position, alias);
            SettingsWritten(db, channel, r.db, c.settings) && r.reply == c.reply
  {
    var c := ChannelConfig.AddAlias(Loaded(db, channel), game, position, alias);
    Response(StoreSettings(db, channel, c.settings), c.reply)
  }

  /** One request to one of the endpoints, with its query parameters. */
  datatype Request =
    | JoinQueue(rawUser: string, inGameName: Option<string>, game: string, position: string, priority: Int32)
    | LeaveQueue(rawUser: string, user: Option<string>, game: string, skip: bool)
    | ClearGame(game: string)
    | PullNext(position: string, game: string, limit: Int32, remove: bool)
    | LookUpPosition(rawUser: string, user: Option<string>, game: string)
    | SetupGame(name: string, queueSize: Int32, requireInGameName: bool, requireAlias: bool)
    | NewPosition(game: string, position: string)
    | NewAlias(game: string, position: string, alias: string)

  /** The database after serving `req` for `channel` at instant `now`. */
  function Apply(db: QueueDb, channel: string, req: Request, now: int): QueueDb {
    match req
    case JoinQueue(rawUser, ign, game, position, priority) => QueueUser(db, channel, rawUser, ign, game, position, priority, now).db
    case LeaveQueue(rawUser, user, game, skip) => DeQueueUser(db, channel, rawUser, user, game, skip, now).db
    case ClearGame(game) => ClearQueue(db, channel, game, now).db
    case PullNext(position, game, limit, remove) => NextInQueue(db, channel, position, game, limit, remove).db
    case LookUpPosition(rawUser, user, game) => UserPosition(db, channel, rawUser, user, game).db
    case SetupGame(name, size, ign, alias) => AddGame(db, channel, name, size, ign, alias).db
    case NewPosition(game, position) => AddPosition(db, channel, game, position).db
    case NewAlias(game, position, alias) => AddAlias(db, channel, game, position, alias).db
  }

  /** The invariants every stored state keeps. */
  ghost predicate ValidDb(db: QueueDb) {
    && ChannelsUnique(db.settings)
    && (forall i :: 0 <= i < |db.settings| ==> ValidSettings(db.settings[i]))
    && (forall ch :: ch in db.queues ==> UniqueEntries(db.queues[ch]) && NoneSkipped(db.queues[ch]))
  }
}
