/**
 * The persisted cookie file `{cookies, saved_at}` and the freshness rule
 * applied when it is read back. Time is counted in whole minutes.
 */
module Persistence {
  import opened Wrappers
  import opened CookieJar

  /** A record younger than this many minutes is trusted on load. */
  const FreshMinutes: int := 55
  /** A trusted or refreshed jar is taken to expire this many minutes after it was saved. */
  const ValidityMinutes: int := 60

  /** The `saved_at` field: absent or empty, present but not a timestamp, or a time. */
  datatype SavedAt = NoTimestamp | BadTimestamp | At(minute: int)

  /**
   * The cookie file as the monitor finds it: no file, a file that does not
   * hold a JSON object, or a record whose `cookies` field may be absent.
   */
  datatype CookieFile =
    | Missing
    | Unreadable
    | Record(cookies: Option<Cookies>, savedAt: SavedAt)

  /** The record a save writes at minute `now`. */
  function SaveRecord(jar: Cookies, now: int): (f: CookieFile)
    ensures forall before :: LoadedJar(f, before) == jar
    ensures LoadedExpiry(f, now) == Some(now + ValidityMinutes)
  {
    Record(Some(jar), At(now))
  }

  /**
   * The jar after reading `file`: the record's map (empty when the field is
   * absent), taken before any timestamp is looked at; otherwise `jar` as it was.
   */
  function LoadedJar(file: CookieFile, jar: Cookies): (r: Cookies)
    ensures !file.Record? ==> r == jar
    ensures file.Record? && file.cookies.None? ==> r == map[]
    ensures file.Record? && file.cookies.Some? ==> r == file.cookies.value
  {
    if file.Record? then file.cookies.GetOr(map[]) else jar
  }

  /** A record saved at `saved` is too old to trust at minute `now`. */
  predicate IsStale(saved: int, now: int) {
    now - saved >= FreshMinutes
  }

  /**
   * The jar a record loads does not depend on its timestamp: the map is
   * taken before the age is checked, so a stale or malformed timestamp
   * still replaces the jar.
   */
  lemma LoadedJarIgnoresTimestamp(stored: Option<Cookies>, a: SavedAt, b: SavedAt, jar: Cookies)
    ensures LoadedJar(Record(stored, a), jar) == LoadedJar(Record(stored, b), jar)
    ensures LoadedJar(Record(stored, a), jar) == stored.GetOr(map[])
  {
  }

  /** A record that is stale at some minute stays stale at every later minute. */
  lemma StaleStaysStale(saved: int, now: int, later: int)
    requires now <= later
    ensures IsStale(saved, now) ==> IsStale(saved, later)
    ensures !IsStale(saved, now) <==> now < saved + FreshMinutes
  {
  }

  /**
   * The expiry that reading `file` at minute `now` establishes, or None
   * when the file gives no trusted session and the widget must show its
   * error state.
   */
  function LoadedExpiry(file: CookieFile, now: int): (e: Option<int>)
    ensures e.Some? <==> file.Record? && file.savedAt.At? && !IsStale(file.savedAt.minute, now)
    ensures e.Some? ==> e.value == file.savedAt.minute + ValidityMinutes
    ensures e.Some? ==> now + (ValidityMinutes - FreshMinutes) < e.value
  {
    match file
    case Record(_, At(saved)) =>
      if !IsStale(saved, now) then Some(saved + ValidityMinutes) else None
    case _ => None
  }

  /**
   * Saving and then loading restores exactly the saved map, whenever the
   * load happens; the session is trusted again exactly while the record is
   * younger than the freshness window.
   */
  lemma SaveThenLoad(jar: Cookies, before: Cookies, saved: int, now: int)
    ensures LoadedJar(SaveRecord(jar, saved), before) == jar
    ensures LoadedExpiry(SaveRecord(jar, saved), now)
      == if now - saved < FreshMinutes then Some(saved + ValidityMinutes) else None
  {
  }
}
