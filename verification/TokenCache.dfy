// The broker's access-token cache and its refresh critical section (src/broker/handlers/tokens.rs).
module TokenCaches {
  import opened Wrappers

  const SECOND: nat := 1_000_000_000
  const DEFAULT_ACCESS_TOKEN_SECONDS: nat := 3_600
  const ACCESS_TOKEN_SKEW_SECONDS: nat := 60

  datatype CachedToken = CachedToken(value: string, expiresAt: nat)
  type Cache = map<string, CachedToken>

  // A refresh answer: the new token and the provider's lifetime in seconds, when it gives one.
  datatype Refreshed = Refreshed(value: string, expiresIn: Option<nat>)

  function ProviderLifetime(r: Refreshed): nat {
    if r.expiresIn.Some? then r.expiresIn.value else DEFAULT_ACCESS_TOKEN_SECONDS
  }

  // Subtraction saturates at zero before the floor of thirty seconds applies.
  function CachedLifetime(r: Refreshed): nat {
    var offered := ProviderLifetime(r);
    var skewed := if offered < ACCESS_TOKEN_SKEW_SECONDS then 0 else offered - ACCESS_TOKEN_SKEW_SECONDS;
    if skewed < 30 then 30 else skewed
  }

  // The lifetime in seconds: a minute less than the provider offers, an hour where it offers none, and half a minute
  // where that minute would leave less. So a cached token keeps the margin exactly when the provider offers 90 s or
  // more, and outlives the provider's own expiry exactly when the provider offers less than 30 s.
  lemma LifetimeBounds(r: Refreshed)
    ensures var offered := if r.expiresIn.Some? then r.expiresIn.value else 3_600;
            var cached := CachedLifetime(r);
            && cached == (if offered >= 90 then offered - 60 else 30)
            && (cached + 60 <= offered <==> offered >= 90)
            && (cached > offered <==> offered < 30)
  {
  }

  predicate IsLive(c: Cache, subject: string, now: nat) {
    subject in c && c[subject].expiresAt > now
  }

  // Only the rejected value itself is dropped.
  function Invalidated(c: Cache, subject: string, rejected: Option<string>): Cache {
    if rejected.Some? && subject in c && c[subject].value == rejected.value then c - {subject} else c
  }

  function Stored(c: Cache, subject: string, r: Refreshed, now: nat): Cache {
    c[subject := CachedToken(r.value, now + CachedLifetime(r) * SECOND)]
  }

  // A token stored at one instant is handed out for exactly the cached lifetime from then on, counted in seconds of a
  // thousand million nanoseconds; nobody else's token is affected.
  lemma StoredIsLiveUntil(c: Cache, subject: string, value: string, expiresIn: Option<nat>, stored: nat, now: nat)
    ensures var offered := if expiresIn.Some? then expiresIn.value else 3_600;
            var u := Stored(c, subject, Refreshed(value, expiresIn), stored);
            && (offered >= 90 ==> (IsLive(u, subject, now) <==> now < stored + (offered - 60) * 1_000_000_000))
            && (offered < 90 ==> (IsLive(u, subject, now) <==> now < stored + 30 * 1_000_000_000))
            && subject in u && u[subject].value == value
            && forall other | other != subject ::
                 (IsLive(u, other, now) <==> other in c && now < c[other].expiresAt) &&
                 (other in c ==> other in u && u[other] == c[other])
  {
    LifetimeBounds(Refreshed(value, expiresIn));
  }

  // A rejected token is dropped exactly while the cache holds that very value; nothing else is.
  lemma InvalidatedExactly(c: Cache, subject: string, rejected: Option<string>)
    ensures var u := Invalidated(c, subject, rejected);
            && (subject in u <==> subject in c && rejected != Some(c[subject].value))
            && forall other | other in c && (other != subject || subject in u) :: other in u && u[other] == c[other]
    ensures Invalidated(c, subject, rejected).Keys <= c.Keys
  {
  }

  class TokenCache {
    var accessTokens: Cache

    constructor ()
      ensures accessTokens == map[]
    {
      accessTokens := map[];
    }

    // The read outside the refresh lock.
    method LiveToken(now: nat, subject: string) returns (r: Option<string>)
      ensures r.Some? <==> IsLive(accessTokens, subject, now)
      ensures r.Some? ==> r.value == accessTokens[subject].value
    {
      if subject in accessTokens && accessTokens[subject].expiresAt > now {
        r := Some(accessTokens[subject].value);
      } else {
        r := None;
      }
    }

    // refresh_token_using, run without interference while the subject's lock is held. The answer the
    // refresh would give and the instants of the two clock readings are inputs; refreshCalled reports
    // whether the refresh was called.
    method RefreshTokenUsing(
      subject: string, rejected: Option<string>, checkedAt: nat, answer: Option<Refreshed>, storedAt: nat)
      returns (r: Option<string>, refreshCalled: bool)
      modifies this
      ensures var kept := Invalidated(old(accessTokens), subject, rejected);
              && (refreshCalled <==> !IsLive(kept, subject, checkedAt))
              && (!refreshCalled ==> accessTokens == old(accessTokens) && r == Some(accessTokens[subject].value))
              && (refreshCalled && answer.Some? ==>
                    accessTokens == Stored(kept, subject, answer.value, storedAt) && r == Some(answer.value.value))
              && (refreshCalled && answer.None? ==> accessTokens == kept && r == None)
      // The new token expires a minute before the provider's own hour or offer, or half a minute from now.
      ensures refreshCalled && answer.Some? ==>
                var offered := if answer.value.expiresIn.Some? then answer.value.expiresIn.value else 3_600;
                var seconds := if offered >= 90 then offered - 60 else 30;
                && subject in accessTokens
                && accessTokens[subject] == CachedToken(answer.value.value, storedAt + seconds * 1_000_000_000)
      // A live token other than the rejected one is reused and never invalidated.
      ensures old(IsLive(accessTokens, subject, checkedAt)) && rejected != Some(old(accessTokens)[subject].value)
              ==> !refreshCalled && accessTokens == old(accessTokens)
      // The token returned is never the rejected one, provided the refresh did not mint it again.
      ensures r.Some? && (answer.Some? ==> rejected != Some(answer.value.value)) ==> rejected != r
    {
      if rejected.Some? {
        if subject in accessTokens && accessTokens[subject].value == rejected.value {
          accessTokens := accessTokens - {subject};
        }
      }
      var live := LiveToken(checkedAt, subject);
      if live.Some? {
        return live, false;
      }
      refreshCalled := true;
      if answer.None? {
        return None, true;
      }
      var refreshed := answer.value;
      var offered := if refreshed.expiresIn.Some? then refreshed.expiresIn.value else DEFAULT_ACCESS_TOKEN_SECONDS;
      var skewed := if offered < ACCESS_TOKEN_SKEW_SECONDS then 0 else offered - ACCESS_TOKEN_SKEW_SECONDS;
      var lifetime := if skewed < 30 then 30 else skewed;
      accessTokens := accessTokens[subject := CachedToken(refreshed.value, storedAt + lifetime * SECOND)];
      r := Some(answer.value.value);
    }
  }
}
