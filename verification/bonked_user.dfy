/**
 * BonkedUser.cs and the time constants of BonkController.cs. Instants and
 * durations are whole .NET ticks (100 ns), so `DateTime` and `TimeSpan`
 * arithmetic is integer arithmetic.
 */
module BonkedUsers {

  const TicksPerMinute: int := 600_000_000
  const TicksPerHour: int := 60 * TicksPerMinute

  /** `DefaultJailTime`: five minutes. */
  const DefaultJailTime: int := 5 * TicksPerMinute
  /** `MaxMinutes`: the longest sentence one request may ask for, and the penalty of a failed jailbreak. */
  const MaxMinutes: int := 300
  /** `MaxSentence`: declared as the cap on any sentence, but no code path applies it. */
  const MaxSentence: int := 24 * TicksPerHour

  /** A jailed (or once jailed) user; the LiteDB id is not modelled. */
  datatype BonkedUser = BonkedUser(username: string, dateBonked: int, releaseDate: int, nextJailBreakChance: int)

  /** The record of a first bonk at `now`: jailed from now for `jailTime`, and eligible for a jailbreak from now. */
  function NewBonkedUser(bonkee: string, jailTime: int, now: int): (u: BonkedUser)
    ensures u.username == bonkee
    ensures u.dateBonked == now && u.nextJailBreakChance == now
    ensures u.releaseDate - u.dateBonked == jailTime
  {
    BonkedUser(bonkee, now, now + jailTime, now)
  }
}
