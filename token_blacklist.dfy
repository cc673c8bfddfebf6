/** The in-memory revocation registry (`backend/tokenBlacklist.js`): a table
    from raw token string to the time it was listed and the time the token
    itself expires, both in milliseconds. Listing is an exact key lookup; a
    sweep deletes the entries whose expiry lies strictly before `now`. The
    hourly timer that drives the sweep is replaced by explicit calls of
    `CleanupExpiredTokens(now)`, and every `Date.now()` by a `now` parameter. */
module Blacklist {
  import opened Wrappers

  /** What the table records for one listed token. */
  datatype Entry = Entry(blacklistedAt: int, expiresAt: int)

  /** The answer of `getStats`: the table size, and the earliest listing time
      (JavaScript `null` when the table is empty). */
  datatype Stats = Stats(totalBlacklistedTokens: nat, oldestToken: Option<int>)

  /** The table a sweep at `now` leaves behind. */
  ghost function Swept(m: map<string, Entry>, now: int): map<string, Entry> {
    map t | t in m && m[t].expiresAt >= now :: m[t]
  }

  /** The tokens a sweep at `now` deletes. */
  ghost function ExpiredKeys(m: map<string, Entry>, now: int): set<string> {
    set t | t in m && m[t].expiresAt < now
  }

  /** Whether `oldest` is the earliest listing time in `m`. */
  ghost predicate IsOldest(m: map<string, Entry>, oldest: int) {
    && (exists t :: t in m && m[t].blacklistedAt == oldest)
    && (forall t :: t in m ==> oldest <= m[t].blacklistedAt)
  }

  class TokenBlacklist {
    var entries: map<string, Entry>

    constructor ()
      ensures entries == map[]
    {
      entries := map[];
    }

    /** `addToken`: lists `token` (or re-lists it, replacing its entry) with
        the expiry taken from the token itself. */
    method AddToken(token: string, expirationTime: int, now: int)
      modifies this
      ensures entries == old(entries)[token := Entry(now, expirationTime)]
      ensures token in entries
      ensures forall t :: t != token ==> (t in entries <==> t in old(entries))
      ensures |entries| == if token in old(entries) then |old(entries)| else |old(entries)| + 1
    {
      entries := entries[token := Entry(now, expirationTime)];
    }

    /** `isBlacklisted`: key membership only; the stored expiry is not looked
        at, so an expired entry counts until a sweep removes it. */
    method IsBlacklisted(token: string) returns (listed: bool)
      ensures listed <==> token in entries
    {
      listed := token in entries;
    }

    /** `cleanupExpiredTokens`: deletes every entry with `expiresAt < now`
        and no other, and counts the deletions. */
    method CleanupExpiredTokens(now: int) returns (removedCount: nat)
      modifies this
      ensures entries == Swept(old(entries), now)
      ensures removedCount == |old(entries)| - |entries| == |ExpiredKeys(old(entries), now)|
    {
      ghost var before := entries;
      var pending := entries.Keys;
      removedCount := 0;
      while pending != {}
        invariant pending <= before.Keys
        invariant entries.Keys <= before.Keys
        invariant forall t :: t in entries ==> entries[t] == before[t]
        invariant forall t :: t in before && t in pending ==> t in entries
        invariant forall t :: t in before && t !in pending ==> (t in entries <==> before[t].expiresAt >= now)
        invariant removedCount == |before| - |entries|
        decreases pending
      {
        var token :| token in pending;
        if entries[token].expiresAt < now {
          MapRemoveSize(entries, token);
          entries := entries - {token};
          removedCount := removedCount + 1;
        }
        pending := pending - {token};
      }
      assert entries == Swept(before, now);
      SweptSize(before, now);
    }

    /** `getStats`: the table size and the earliest listing time, found by a
        scan over the entries (`Math.min` over the spread values). */
    method GetStats() returns (stats: Stats)
      ensures stats.totalBlacklistedTokens == |entries|
      ensures stats.oldestToken.None? <==> entries == map[]
      ensures stats.oldestToken.Some? ==> IsOldest(entries, stats.oldestToken.value)
    {
      var pending := entries.Keys;
      var oldest: Option<int> := None;
      while pending != {}
        invariant pending <= entries.Keys
        invariant oldest.None? <==> pending == entries.Keys
        invariant oldest.Some? ==> exists t :: t in entries && t !in pending && entries[t].blacklistedAt == oldest.value
        invariant oldest.Some? ==> forall t :: t in entries && t !in pending ==> oldest.value <= entries[t].blacklistedAt
        decreases pending
      {
        var token :| token in pending;
        var at := entries[token].blacklistedAt;
        if oldest.None? || at < oldest.value {
          oldest := Some(at);
        }
        pending := pending - {token};
      }
      if oldest.None? {
        assert entries.Keys == {};
      }
      stats := Stats(|entries|, oldest);
    }

    /** `clearAll`: empties the table and reports how many entries it held. */
    method ClearAll() returns (count: nat)
      modifies this
      ensures count == |old(entries)|
      ensures entries == map[]
    {
      count := |entries|;
      entries := map[];
    }
  }

  lemma MapRemoveSize(m: map<string, Entry>, t: string)
    requires t in m
    ensures |m - {t}| == |m| - 1
  {
    assert (m - {t}).Keys == m.Keys - {t};
  }

  /** A sweep shrinks the table by exactly the number of expired entries. */
  lemma SweptSize(m: map<string, Entry>, now: int)
    ensures |Swept(m, now)| == |m| - |ExpiredKeys(m, now)|
  {
    var kept := Swept(m, now).Keys;
    var gone := ExpiredKeys(m, now);
    assert kept == m.Keys - gone;
    assert gone <= m.Keys;
    assert |m.Keys - gone| == |m.Keys| - |gone| by {
      assert m.Keys == (m.Keys - gone) + gone;
    }
  }

  /** A sweep keeps every entry whose expiry is at or after `now`, untouched,
      and deletes every other one. */
  lemma SweepRemovesExactlyExpired(m: map<string, Entry>, now: int, t: string)
    requires t in m
    ensures t in Swept(m, now) <==> m[t].expiresAt >= now
    ensures t in Swept(m, now) ==> Swept(m, now)[t] == m[t]
  {
  }

  /** A second sweep at the same time deletes nothing more. */
  lemma SweepIdempotent(m: map<string, Entry>, now: int)
    ensures Swept(Swept(m, now), now) == Swept(m, now)
    ensures ExpiredKeys(Swept(m, now), now) == {}
  {
  }

  /** Two sweeps in time order have the effect of the later one alone. */
  lemma SweepsCompose(m: map<string, Entry>, earlier: int, later: int)
    requires earlier <= later
    ensures Swept(Swept(m, earlier), later) == Swept(m, later)
  {
  }

  /** Re-listing a token replaces its entry without growing the table. */
  lemma RelistKeepsSize(m: map<string, Entry>, token: string, e: Entry)
    requires token in m
    ensures |m[token := e]| == |m|
  {
    assert m[token := e].Keys == m.Keys;
  }
}
