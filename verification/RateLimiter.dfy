/** The limiter object: its methods do to the cache object what the limiter's steps do to the cache state. */
module RateLimiter {
  import opened CacheModel
  import Cache
  import RateLimit

  class RateLimiter {
    const cache: Cache.Cache<seq<int>>
    const config: RateLimit.Config

    constructor (cache: Cache.Cache<seq<int>>, threshold: int, windowMs: int, getSize: seq<int> -> nat)
      modifies cache
      ensures this.cache == cache && config == RateLimit.Config(|old(cache.data)|, threshold, windowMs)
      ensures cache.Model() == Register(old(cache.Model()), windowMs, getSize)
    {
      this.cache := cache;
      config := RateLimit.Config(|cache.data|, threshold, windowMs);
      new;
      cache.Register(windowMs, getSize);
    }

    method IsOverLimit(k: string, now: nat) returns (over: bool)
      requires config.bucket < |cache.data|
      modifies cache
      ensures over == RateLimit.IsOverLimit(config, old(cache.Model()), k, now)
      ensures cache.Model() == GetInstant(old(cache.Model()), config.bucket, k, now)
    {
      var entry := cache.GetInstant(config.bucket, k, now);
      if !entry.Hit? {
        return false;
      }
      return |RateLimit.Younger(RateLimit.Stored(entry), now - config.windowMs)| >= config.threshold;
    }

    method Record(k: string, now: nat) returns (allowed: bool)
      requires config.bucket < |cache.data|
      modifies cache
      ensures allowed == RateLimit.RecordAllowed(config, old(cache.Model()), k, now)
      ensures cache.Model() == RateLimit.Record(config, old(cache.Model()), k, now)
    {
      var entry := cache.GetInstant(config.bucket, k, now);
      var timestamps := RateLimit.Younger(RateLimit.Stored(entry), now - config.windowMs);
      timestamps := timestamps + [now];
      if |timestamps| > config.threshold {
        timestamps := if config.threshold < 0 then [] else timestamps[|timestamps| - config.threshold..];
      }
      var _ := cache.Set(config.bucket, k, timestamps, AsValue, now);
      return |timestamps| < config.threshold;
    }

    method Reset(k: string, now: nat)
      modifies cache
      ensures cache.Model() == RateLimit.Reset(config, old(cache.Model()), k, now)
    {
      var _ := cache.Set(config.bucket, k, [], AsValue, now);
    }
  }
}
