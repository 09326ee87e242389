/** Shared value types: optional values, results with an error case, and the
    identifiers the bot keys its state by. */
module Common {

  datatype Option<+T> = None | Some(value: T)

  datatype Result<+T, +E> = Success(value: T) | Failure(error: E)

  /** A Discord member id and a Discord guild (server) id. */
  type MemberId = int
  type GuildId = int

  /** A Codeforces handle. */
  type Handle = string

  /** A row of the user table for one guild: the member and the handle stored
      for them. */
  type Link = (MemberId, Handle)

  function Max(a: int, b: int): int { if a < b then b else a }

  function Min(a: int, b: int): int { if a < b then a else b }
}
