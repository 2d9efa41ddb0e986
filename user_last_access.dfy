/**
 * `UpdateUserLastAccessAction`: a signed-in user's last access is recorded at
 * most once every thirty minutes. Times are timestamps in seconds.
 */
module UserAccess {
  import opened Wrappers

  /** Thirty minutes, in seconds. */
  const Throttle := 30 * 60

  /**
   * The condition of `handle`: never seen, or last seen more than thirty
   * minutes before now (`diffInMinutes` is signed, so a time in the future
   * does not count as old).
   */
  predicate IsStale(lastSeenAt: Option<int>, now: int)
  {
    lastSeenAt.None? || now - lastSeenAt.value > Throttle
  }

  /** A time just recorded stays fresh for thirty minutes. */
  lemma FreshForThirtyMinutes(recorded: int, now: int)
    requires recorded <= now <= recorded + Throttle
    ensures !IsStale(Some(recorded), now)
  {
  }

  /** The access columns of a user. */
  class UserRecord {
    var lastSeenAt: Option<int>
    var lastIp: Option<string>
    var userAgent: Option<string>

    constructor (lastSeenAt: Option<int>, lastIp: Option<string>, userAgent: Option<string>)
      ensures this.lastSeenAt == lastSeenAt && this.lastIp == lastIp && this.userAgent == userAgent
    {
      this.lastSeenAt := lastSeenAt;
      this.lastIp := lastIp;
      this.userAgent := userAgent;
    }

    /** `handle`: when the last access is stale, the time, IP and user agent are written together; otherwise nothing changes. */
    method Handle(now: int, agent: Option<string>, ip: Option<string>)
      modifies this
      ensures old(IsStale(lastSeenAt, now)) ==> lastSeenAt == Some(now) && lastIp == ip && userAgent == agent
      ensures !old(IsStale(lastSeenAt, now)) ==>
        lastSeenAt == old(lastSeenAt) && lastIp == old(lastIp) && userAgent == old(userAgent)
    {
      if IsStale(lastSeenAt, now) {
        lastSeenAt := Some(now);
        lastIp := ip;
        userAgent := agent;
      }
    }
  }
}
