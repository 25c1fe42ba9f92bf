/**
 * The monitor window's state: the cookie jar, its expiry, the
 * display and bar, and the contents of the cookie file on disk. Each method
 * is one handler of the window and says exactly what it changes.
 */
module Monitor {
  import opened Wrappers
  import opened SessionToken
  import opened CookieJar
  import opened Persistence
  import opened Credits
  import opened Polling

  class CreditsMonitor {
    var cookies: Cookies
    var expiry: Option<int>      // minute at which the jar is taken to expire
    var display: Display
    var bar: int                 // progress-bar value, tenths of a percent
    var file: CookieFile         // the cookie file's contents on disk

    /** The bar always holds a value inside its range. */
    ghost predicate Valid()
      reads this
    {
      BarMin <= bar <= BarMax
    }

    /** A new window over the cookie file `disk`, started at minute `now`: it loads the file at once. */
    constructor (disk: CookieFile, now: int)
      ensures Valid()
      ensures file == disk
      ensures cookies == LoadedJar(disk, map[])
      ensures expiry == LoadedExpiry(disk, now)
      ensures display == (if expiry.Some? then Placeholder else Error)
      ensures bar == 0
    {
      cookies := map[];
      expiry := None;
      display := Placeholder;
      bar := 0;
      file := disk;
      new;
      LoadCookiesFromFile(now);
    }

    /**
     * Read the cookie file at minute `now`. A record's map replaces the jar
     * before its timestamp is checked; only a record younger than the
     * freshness window sets the expiry, and every other case shows the
     * error state.
     */
    method LoadCookiesFromFile(now: int)
      requires Valid()
      modifies this`cookies, this`expiry, this`display, this`bar
      ensures Valid()
      ensures cookies == LoadedJar(file, old(cookies))
      ensures LoadedExpiry(file, now).Some? ==>
        expiry == LoadedExpiry(file, now) && display == old(display) && bar == old(bar)
      ensures LoadedExpiry(file, now).None? ==>
        expiry == old(expiry) && display == Error && bar == 0
    {
      match file {
        case Record(stored, savedAt) =>
          cookies := stored.GetOr(map[]);
          match savedAt {
            case At(saved) =>
              if !IsStale(saved, now) {
                expiry := Some(saved + ValidityMinutes);
                return;
              }
            case _ =>
          }
        case _ =>
      }
      ShowErrorState();
    }

    /** Write the jar and the minute `now` to the cookie file; a failed write leaves the file as it was. */
    method SaveCookiesToFile(now: int, writeOk: bool)
      modifies this`file
      ensures file == if writeOk then SaveRecord(cookies, now) else old(file)
    {
      if writeOk {
        file := SaveRecord(cookies, now);
      }
    }

    /**
     * The browser reported cookie `name` with `value` at minute `now`. The
     * jar takes the update unless the overwrite protection drops it; after
     * an accepted update that leaves the jar authenticated, the expiry is
     * set an hour ahead and the jar is saved.
     */
    method OnCookieAdded(name: string, value: string, now: int, codec: TokenCodec, writeOk: bool)
      modifies this`cookies, this`expiry, this`file
      ensures cookies == Upsert(old(cookies), name, value, codec)
      ensures !Rejects(old(cookies), name, codec) && IsAuthenticated(cookies) ==>
        expiry == Some(now + ValidityMinutes)
        && file == (if writeOk then SaveRecord(cookies, now) else old(file))
      ensures Rejects(old(cookies), name, codec) || !IsAuthenticated(cookies) ==>
        expiry == old(expiry) && file == old(file)
    {
      if name == SessionCookie && SessionCookie in cookies {
        if HasUserId(codec, cookies[SessionCookie]) {
          return;
        }
      }
      cookies := cookies[name := value];
      if SessionCookie in cookies || ProxySessionCookie in cookies {
        expiry := Some(now + ValidityMinutes);
        SaveCookiesToFile(now, writeOk);
      }
    }

    /**
     * One poll of the credits endpoint; `server` stands for the request,
     * which carries the jar. Usage data updates the display; an empty jar,
     * 401/403, any other status, an exception or an unreadable body show
     * the error state. The jar is never changed.
     */
    method FetchCredits(server: Cookies -> Response)
      requires Valid()
      modifies this`display, this`bar
      ensures Valid()
      ensures var o := Classify(cookies, server(cookies));
        if o.Usage? then
          display == Normal(Remaining(o.payload), Total(o.payload))
          && bar == SetValue(old(bar), BarValue(Remaining(o.payload), Consumed(o.payload)))
        else
          display == Error && bar == 0
    {
      if |cookies| == 0 {
        ShowErrorState();
        return;
      }
      var response := server(cookies);
      match response {
        case Reply(200, Some(payload)) =>
          UpdateCreditsDisplay(payload);
        case _ =>
          ShowErrorState();
      }
    }

    /** Show a usage payload: remaining over total, and the bar in tenths of a percent. */
    method UpdateCreditsDisplay(payload: Payload)
      requires Valid()
      modifies this`display, this`bar
      ensures Valid()
      ensures display == Normal(Remaining(payload), Total(payload))
      ensures bar == SetValue(old(bar), BarValue(Remaining(payload), Consumed(payload)))
      ensures 0 <= Remaining(payload) && 0 <= Consumed(payload) ==>
        bar == BarValue(Remaining(payload), Consumed(payload))
    {
      var remaining := payload.remaining.GetOr(0);
      var total := remaining + Consumed(payload);
      if total > 0 {
        bar := SetValue(bar, TruncDiv(BarMax * remaining, total));
      } else {
        bar := SetValue(bar, 0);
      }
      display := Normal(remaining, total);
    }

    /** Show the error indicator and empty the bar. */
    method ShowErrorState()
      modifies this`display, this`bar
      ensures Valid()
      ensures display == Error && bar == 0
    {
      display := Error;
      bar := SetValue(bar, 0);
    }
  }
}
