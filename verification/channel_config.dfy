/**
 * The admin operations of QueueController.cs on a channel's settings record:
 * `AddGame`, `AddPosition` and `AddAlias`. Each returns the settings as they are
 * afterwards STORED, which is not always what the request changed in memory.
 */
module ChannelConfig {
  import opened Optional
  import opened Int32
  import opened QueueRecords
  import opened SeqSearch
  import QueueMembership

  function PositionNamed(name: string): GamePosition -> bool {
    (p: GamePosition) => p.positionName == name
  }

  function AliasIs(alias: string): string -> bool {
    (a: string) => a == alias
  }

  datatype ConfigResult<R> = ConfigResult(settings: ChannelQueueSettings, reply: R)

  datatype GameReply = GameAdded(name: string) | GameUpdated(name: string)

  /** `AddGame` (route SetupGame): create the game or overwrite its three settings, then maybe adopt it as default game. */
  function AddGame(s: ChannelQueueSettings, name: string, queueSize: Int32, requireInGameName: bool, requireAlias: bool)
    : (r: ConfigResult<GameReply>)
    ensures r.settings == s.(games := r.settings.games, defaultGame := r.settings.defaultGame)
    ensures r.reply.GameUpdated? <==> exists i :: 0 <= i < |s.games| && s.games[i].name == name
    ensures r.reply == GameUpdated(name) || r.reply == GameAdded(name)
    // an existing name is edited in place: same number of games, its positions kept
    ensures r.reply.GameUpdated? ==> |r.settings.games| == |s.games|
    ensures |r.settings.games| >= |s.games|
    ensures GameNamesUnique(s.games) ==>
              forall i :: 0 <= i < |s.games| ==>
                r.settings.games[i] == if s.games[i].name == name
                                       then s.games[i].(defaultSquadSize := queueSize, requireInGameName := requireInGameName,
                                                        requireApprovedAlias := requireAlias)
                                       else s.games[i]
    // a new name is appended once, without positions
    ensures r.reply.GameAdded? ==>
              r.settings.games == s.games + [GameSettings(name, queueSize, [], requireInGameName, requireAlias)]
    // the default game is taken over only while it is "Any" and there is exactly one game
    ensures r.settings.defaultGame ==
              if |r.settings.games| == 1 && s.defaultGame == Some(Any) then Some(name) else s.defaultGame
  {
    var edited :=
      match FirstIndex(s.games, QueueMembership.GameNamed(name))
      case Some(i) =>
        ConfigResult(s.(games := s.games[i := s.games[i].(defaultSquadSize := queueSize,
                                                         requireInGameName := requireInGameName,
                                                         requireApprovedAlias := requireAlias)]),
                     GameUpdated(name))
      case None =>
        ConfigResult(s.(games := s.games + [NewGameSettings(name).(defaultSquadSize := queueSize,
                                                                   requireInGameName := requireInGameName,
                                                                   requireApprovedAlias := requireAlias)]),
                     GameAdded(name));
    if |edited.settings.games| == 1 && edited.settings.defaultGame == Some(Any)
    then edited.(settings := edited.settings.(defaultGame := Some(name)))
    else edited
  }

  /** After `AddGame` the channel has exactly one game of that name. */
  lemma AddGameLeavesOneGame(s: ChannelQueueSettings, name: string, queueSize: Int32, requireInGameName: bool, requireAlias: bool)
    requires GameNamesUnique(s.games)
    ensures var games := AddGame(s, name, queueSize, requireInGameName, requireAlias).settings.games;
            exists i :: 0 <= i < |games| && games[i].name == name
                        && forall j :: 0 <= j < |games| && games[j].name == name ==> j == i
  {
    var games := AddGame(s, name, queueSize, requireInGameName, requireAlias).settings.games;
    if i :| 0 <= i < |s.games| && s.games[i].name == name {
      assert games[i].name == name;
    } else {
      assert games[|s.games|].name == name;
    }
  }

  datatype PositionReply = PositionExists(position: string, game: string) | PositionAdded(position: string, game: string) | UnknownGame(game: string)

  /** `AddPosition`: append a position to a known game unless one of that name is there already. */
  function AddPosition(s: ChannelQueueSettings, game: string, position: string): (r: ConfigResult<PositionReply>)
    ensures r.reply.UnknownGame? <==> forall i :: 0 <= i < |s.games| ==> s.games[i].name != game
    ensures r.reply.UnknownGame? ==> r.reply == PositionReply.UnknownGame(game)
    ensures r.reply.PositionExists? ==> r.reply == PositionExists(position, game)
    ensures r.reply.PositionAdded? ==> r.reply == PositionAdded(position, game)
    ensures !r.reply.PositionAdded? ==> r.settings == s
    ensures r.reply.PositionExists? <==>
              exists i, p :: 0 <= i < |s.games| && s.games[i].name == game
                             && (forall j :: 0 <= j < i ==> s.games[j].name != game)
                             && 0 <= p < |s.games[i].positions| && s.games[i].positions[p].positionName == position
    ensures r.reply.PositionAdded? ==>
              exists i :: 0 <= i < |s.games| && s.games[i].name == game
                          && r.settings == s.(games := s.games[i := s.games[i].(positions := s.games[i].positions + [NewGamePosition(position)])])
  {
    match FirstIndex(s.games, QueueMembership.GameNamed(game))
    case Some(i) =>
      var g := s.games[i];
      if FirstIndex(g.positions, PositionNamed(position)).Some? then
        ConfigResult(s, PositionExists(position, g.name))
      else
        ConfigResult(s.(games := s.games[i := g.(positions := g.positions + [NewGamePosition(position)])]),
                     PositionAdded(position, g.name))
    case None =>
      ConfigResult(s, PositionReply.UnknownGame(game))
  }

  datatype AliasReply = AliasExists(alias: string, position: string) | AliasAdded(alias: string, position: string) | UnknownGame(game: string)

  /**
   * `AddAlias`. On a position that exists the alias is appended to the object
   * in memory only: that branch never calls `coll.Update`, so the stored
   * settings stay as they were while the reply still reports success. On a
   * missing position a new one holding just the alias is appended and stored.
   */
  function AddAlias(s: ChannelQueueSettings, game: string, position: string, alias: string): (r: ConfigResult<AliasReply>)
    ensures r.reply.UnknownGame? <==> forall i :: 0 <= i < |s.games| ==> s.games[i].name != game
    ensures r.reply.AliasExists? ==> r.settings == s
    ensures r.settings == s ||
              exists i :: 0 <= i < |s.games| && s.games[i].name == game
                          && (forall p :: 0 <= p < |s.games[i].positions| ==> s.games[i].positions[p].positionName != position)
                          && r.settings == s.(games := s.games[i := s.games[i].(positions := s.games[i].positions + [GamePosition(position, [alias])])])
    // in the first game of that name, a missing position is stored holding just the alias; an existing one is not
    // written, and the alias is reported as known exactly when the first position of that name already lists it
    ensures FirstIndex(s.games, QueueMembership.GameNamed(game)).Some? ==>
              var i := FirstIndex(s.games, QueueMembership.GameNamed(game)).value;
              && ((forall p :: 0 <= p < |s.games[i].positions| ==> s.games[i].positions[p].positionName != position) ==>
                    && r.settings == s.(games := s.games[i := s.games[i].(positions := s.games[i].positions + [GamePosition(position, [alias])])])
                    && r.reply == AliasAdded(alias, position))
              && ((exists p :: 0 <= p < |s.games[i].positions| && s.games[i].positions[p].positionName == position) ==>
                    r.settings == s)
              && (r.reply.AliasExists? <==>
                    exists p :: 0 <= p < |s.games[i].positions| && s.games[i].positions[p].positionName == position
                                && (forall k :: 0 <= k < p ==> s.games[i].positions[k].positionName != position)
                                && alias in s.games[i].positions[p].aliases)
    ensures r.reply.AliasExists? ==> r.reply == AliasExists(alias, position)
    ensures !r.reply.UnknownGame? && !r.reply.AliasExists? ==> r.reply == AliasAdded(alias, position)
  {
    match FirstIndex(s.games, QueueMembership.GameNamed(game))
    case Some(i) =>
      var g := s.games[i];
      (match FirstIndex(g.positions, PositionNamed(position))
       case Some(p) =>
         assert g.positions[p].positionName == position;
         assert forall k :: 0 <= k < p ==> g.positions[k].positionName != position;
         assert (alias in g.positions[p].aliases) == FirstIndex(g.positions[p].aliases, AliasIs(alias)).Some?;
         if FirstIndex(g.positions[p].aliases, AliasIs(alias)).Some? then
           ConfigResult(s, AliasExists(alias, position))
         else
           ConfigResult(s, AliasAdded(alias, position))
       case None =>
         ConfigResult(s.(games := s.games[i := g.(positions := g.positions + [NewGamePosition(position).(aliases := [alias])])]),
                      AliasAdded(alias, position)))
    case None =>
      ConfigResult(s, AliasReply.UnknownGame(game))
  }

  /**
   * What `AddAlias` would have stored had the existing-position branch been
   * written back: the alias appended to the end of that position's list.
   */
  function AliasAppended(s: ChannelQueueSettings, game: string, position: string, alias: string): (r: ChannelQueueSettings)
    // only alias lists change: the channel's fields, the games and their positions keep their names and places
    ensures r == s.(games := r.games) && |r.games| == |s.games|
    ensures forall i :: 0 <= i < |s.games| ==>
              r.games[i].name == s.games[i].name && |r.games[i].positions| == |s.games[i].positions|
    // the first position of that name in the first game of that name gains the alias unless it lists it already
    ensures FirstIndex(s.games, QueueMembership.GameNamed(game)).Some? ==>
              var i := FirstIndex(s.games, QueueMembership.GameNamed(game)).value;
              FirstIndex(s.games[i].positions, PositionNamed(position)).Some? ==>
                var p := FirstIndex(s.games[i].positions, PositionNamed(position)).value;
                var a := s.games[i].positions[p].aliases;
                && r.games[i].positions[p] == s.games[i].positions[p].(aliases := if alias in a then a else a + [alias])
                && (forall j :: 0 <= j < |s.games| && j != i ==> r.games[j] == s.games[j])
                && (forall k :: 0 <= k < |s.games[i].positions| && k != p ==> r.games[i].positions[k] == s.games[i].positions[k])
    // with no such game or position, nothing changes
    ensures FirstIndex(s.games, QueueMembership.GameNamed(game)).None? ==> r == s
    ensures FirstIndex(s.games, QueueMembership.GameNamed(game)).Some? ==>
              var i := FirstIndex(s.games, QueueMembership.GameNamed(game)).value;
              FirstIndex(s.games[i].positions, PositionNamed(position)).None? ==> r == s
  {
    match FirstIndex(s.games, QueueMembership.GameNamed(game))
    case Some(i) =>
      var g := s.games[i];
      (match FirstIndex(g.positions, PositionNamed(position))
       case Some(p) =>
         assert g.positions[p].positionName == position;
         assert forall k :: 0 <= k < p ==> g.positions[k].positionName != position;
         assert (alias in g.positions[p].aliases) == FirstIndex(g.positions[p].aliases, AliasIs(alias)).Some?;
         if FirstIndex(g.positions[p].aliases, AliasIs(alias)).Some? then s
         else
           s.(games := s.games[i := g.(positions := g.positions[p := g.positions[p].(aliases := g.positions[p].aliases + [alias])])])
       case None => s)
    case None => s
  }

  /** Adding the same position twice: the second call finds it and changes nothing. */
  lemma AddPositionTwice(s: ChannelQueueSettings, game: string, position: string)
    requires exists i :: 0 <= i < |s.games| && s.games[i].name == game
    ensures var first := AddPosition(s, game, position);
            var second := AddPosition(first.settings, game, position);
            && (first.reply.PositionAdded? || first.reply.PositionExists?)
            && second.reply.PositionExists?
            && second.settings == first.settings
  {
    var i :| 0 <= i < |s.games| && s.games[i].name == game;
    match FirstIndex(s.games, QueueMembership.GameNamed(game))
    case Some(k) =>
      var g := s.games[k];
      if FirstIndex(g.positions, PositionNamed(position)).None? {
        var g' := g.(positions := g.positions + [NewGamePosition(position)]);
        var games := s.games[k := g'];
        assert AddPosition(s, game, position).settings.games == games;
        FirstIndexAt(games, QueueMembership.GameNamed(game), k);
        FirstIndexAt(g'.positions, PositionNamed(position), |g.positions|);
      }
  }

  /**
   * An alias for a position that exists is reported as added but never
   * stored, so asking again gets the same "added" reply, while the in-memory
   * change would have recorded it.
   */
  lemma AliasOnExistingPositionIsLost(s: ChannelQueueSettings, game: string, position: string, alias: string, i: nat, p: nat)
    requires i < |s.games| && s.games[i].name == game
    requires forall j :: 0 <= j < i ==> s.games[j].name != game
    requires p < |s.games[i].positions| && s.games[i].positions[p].positionName == position
    requires forall j :: 0 <= j < p ==> s.games[i].positions[j].positionName != position
    requires alias !in s.games[i].positions[p].aliases
    ensures var r := AddAlias(s, game, position, alias);
            && r.reply == AliasAdded(alias, position)
            && r.settings == s
            && AddAlias(r.settings, game, position, alias).reply == AliasAdded(alias, position)
    ensures alias in AliasAppended(s, game, position, alias).games[i].positions[p].aliases
  {
    assert FirstIndex(s.games, QueueMembership.GameNamed(game)) == Some(i);
    assert FirstIndex(s.games[i].positions, PositionNamed(position)) == Some(p);
    assert FirstIndex(s.games[i].positions[p].aliases, AliasIs(alias)).None?;
  }

  // ---------------------------------------------------------------------------
  // The settings stay valid

  /** Replacing one game by a game of the same name whose positions are valid keeps the settings valid. */
  lemma ReplaceGameKeepsValid(s: ChannelQueueSettings, i: nat, g: GameSettings)
    requires ValidSettings(s) && i < |s.games| && g.name == s.games[i].name
    requires PositionNamesUnique(g) && forall p :: 0 <= p < |g.positions| ==> AliasesDistinct(g.positions[p])
    ensures ValidSettings(s.(games := s.games[i := g]))
  {
    var games := s.games[i := g];
    forall j, p | 0 <= j < |games| && 0 <= p < |games[j].positions|
      ensures AliasesDistinct(games[j].positions[p])
    {
      if j != i {
        assert games[j] == s.games[j];
      }
    }
  }

  /** `AddGame` keeps game, position and alias names unique. */
  lemma AddGameKeepsValid(s: ChannelQueueSettings, name: string, queueSize: Int32, requireInGameName: bool, requireAlias: bool)
    requires ValidSettings(s)
    ensures ValidSettings(AddGame(s, name, queueSize, requireInGameName, requireAlias).settings)
  {
    var games := AddGame(s, name, queueSize, requireInGameName, requireAlias).settings.games;
    forall i | 0 <= i < |s.games|
      ensures games[i].name == s.games[i].name && games[i].positions == s.games[i].positions
    {
    }
    AddGameLeavesOneGame(s, name, queueSize, requireInGameName, requireAlias);
  }

  /** `AddPosition` appends a position only when none of that name is there. */
  lemma AddPositionKeepsValid(s: ChannelQueueSettings, game: string, position: string)
    requires ValidSettings(s)
    ensures ValidSettings(AddPosition(s, game, position).settings)
  {
    match FirstIndex(s.games, QueueMembership.GameNamed(game))
    case Some(i) =>
      var g := s.games[i];
      if FirstIndex(g.positions, PositionNamed(position)).None? {
        var g' := g.(positions := g.positions + [NewGamePosition(position)]);
        assert PositionNamesUnique(g');
        ReplaceGameKeepsValid(s, i, g');
      }
    case None =>
  }

  /** `AddAlias` stores a new position only when none of that name is there. */
  lemma AddAliasKeepsValid(s: ChannelQueueSettings, game: string, position: string, alias: string)
    requires ValidSettings(s)
    ensures ValidSettings(AddAlias(s, game, position, alias).settings)
  {
    match FirstIndex(s.games, QueueMembership.GameNamed(game))
    case Some(i) =>
      var g := s.games[i];
      if FirstIndex(g.positions, PositionNamed(position)).None? {
        var g' := g.(positions := g.positions + [NewGamePosition(position).(aliases := [alias])]);
        assert PositionNamesUnique(g');
        ReplaceGameKeepsValid(s, i, g');
      }
    case None =>
  }

  /** The in-memory alias change would keep aliases distinct: it appends only an alias not yet listed. */
  lemma AliasAppendedKeepsValid(s: ChannelQueueSettings, game: string, position: string, alias: string)
    requires ValidSettings(s)
    ensures ValidSettings(AliasAppended(s, game, position, alias))
  {
    match FirstIndex(s.games, QueueMembership.GameNamed(game))
    case Some(i) =>
      var g := s.games[i];
      match FirstIndex(g.positions, PositionNamed(position)) {
        case Some(p) =>
          if FirstIndex(g.positions[p].aliases, AliasIs(alias)).None? {
            var pos := g.positions[p].(aliases := g.positions[p].aliases + [alias]);
            assert AliasesDistinct(pos);
            var g' := g.(positions := g.positions[p := pos]);
            assert PositionNamesUnique(g');
            ReplaceGameKeepsValid(s, i, g');
          }
        case None =>
      }
    case None =>
  }
}
