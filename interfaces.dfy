/**
 * A watcher that owns a heap configuration and hands out handles to it
 * (smart-ptr/src/interfaces.hpp).
 *
 * The `shared_ptr<Config>` the watcher keeps and the `shared_ptr<const Config>`
 * it gives to readers are references to one `Config` object, so a reader sees
 * every later update through the handle it already holds.
 */
module Interfaces {

  /** Bounds of the C++ `int` that holds the port. */
  const IntMin := -0x8000_0000
  const IntMax := 0x7fff_ffff

  /** The contents of a `Config` at one moment. */
  datatype ConfigValue = ConfigValue(hostname: string, port: int, url: string)

  /** What a freshly constructed watcher holds. */
  const InitialConfig := ConfigValue("localhost", 80, "/index.html")

  /** One `update_config` on the value; the caller keeps the port below the
      `int` maximum, since signed overflow is undefined in C++. */
  function Bump(c: ConfigValue): ConfigValue
    requires c.port < IntMax
  {
    c.(port := c.port + 1)
  }

  /** `n` successive updates: the port has moved up by `n` and nothing else
      has changed, provided the port stays within an `int`. */
  function UpdatedTimes(c: ConfigValue, n: nat): (r: ConfigValue)
    requires c.port + n <= IntMax
    ensures r.port == c.port + n
    ensures r.hostname == c.hostname && r.url == c.url
  {
    if n == 0 then c else Bump(UpdatedTimes(c, n - 1))
  }

  /** After `n` updates a fresh watcher serves port 80 + n. */
  lemma {:induction false} FreshWatcherAfterUpdates(n: nat)
    requires n <= IntMax - 80
    ensures UpdatedTimes(InitialConfig, n) == ConfigValue("localhost", 80 + n, "/index.html")
  {
  }

  /** The `Config` record; its fields change in place. */
  class Config {
    var hostname: string
    var port: int
    var url: string

    constructor (hostname: string, port: int, url: string)
      ensures this.hostname == hostname && this.port == port && this.url == url
    {
      this.hostname, this.port, this.url := hostname, port, url;
    }

    /** The port fits the C++ `int`. */
    ghost predicate Valid()
      reads this
    {
      IntMin <= port <= IntMax
    }

    /** The current contents. */
    function Value(): ConfigValue
      reads this
    {
      ConfigValue(hostname, port, url)
    }
  }

  /** `ConfigWatcher`: the only holder that updates the configuration. */
  class ConfigWatcher {
    const config: Config

    constructor ()
      ensures fresh(config)
      ensures config.Valid()
      ensures config.Value() == InitialConfig
    {
      config := new Config("localhost", 80, "/index.html");
    }

    /** `get_config`: the watcher's own configuration object, not a copy;
        nothing changes. */
    method GetConfig() returns (c: Config)
      ensures c == config
    {
      c := config;
    }

    /** `update_config`: the port goes up by one, in place, in the object that
        every handle refers to; the hostname and the url stay as they were. */
    method UpdateConfig()
      requires config.Valid() && config.port < IntMax
      modifies config
      ensures config.port == old(config.port) + 1
      ensures config.hostname == old(config.hostname)
      ensures config.url == old(config.url)
      ensures config.Value() == Bump(old(config.Value()))
      ensures config.Valid()
    {
      config.port := config.port + 1;
    }
  }

  /** The watcher demo: a reader takes its handle before the update and reads
      port 80, then reads 81 through the same handle after the update. */
  method ReaderSeesUpdates() returns (before: int, after: int, hostname: string)
    ensures before == 80 && after == 81
    ensures hostname == "localhost"
  {
    var watcher := new ConfigWatcher();
    var config := watcher.GetConfig();
    before := config.port;
    watcher.UpdateConfig();
    after := config.port;
    hostname := config.hostname;
  }

  /** `n` calls of `update_config` on one watcher: the config object is the
      one the watcher already had and holds the initial value updated `n`
      times, so a fresh watcher serves port 80 + n. */
  method UpdateRepeatedly(watcher: ConfigWatcher, n: nat)
    requires watcher.config.Valid() && watcher.config.port + n <= IntMax
    modifies watcher.config
    ensures watcher.config.Valid()
    ensures watcher.config.Value() == UpdatedTimes(old(watcher.config.Value()), n)
  {
    var i := 0;
    while i < n
      invariant 0 <= i <= n
      invariant watcher.config.Valid()
      invariant watcher.config.Value() == UpdatedTimes(old(watcher.config.Value()), i)
    {
      watcher.UpdateConfig();
      i := i + 1;
    }
  }
}
