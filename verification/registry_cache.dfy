/** `RecipleRegistryCache`: decides at load time whether application-command
    registration can be skipped, by comparing a fingerprint of the current
    commands and configuration with the one stored by the previous run, and
    then always stores the current fingerprint. The cache folder is a map from
    file paths to file contents, MD5 / `util.inspect` / `JSON.stringify` are
    opaque functions, and time is an integer number of milliseconds. */
module RegistryCache {
  import opened Wrappers
  import opened Client
  import Hex

  /** 24 hours, the default and (as constructed) the only maximum cache age. */
  const DefaultMaxCacheAgeMs: int := 86400000

  const CacheSubfolder: string := "node_modules/.cache/reciple-registry-cache/"

  /** `RegistryCacheContent`. `createdAt` is the instant its ISO-8601 text
      denotes, or `None` when that text does not parse as a date (`NaN`). */
  datatype CacheRecord = CacheRecord(clientId: string, data: string, hash: string, createdAt: Option<int>)

  /** A file in the cache folder: the JSON text of a record, or text that
      `JSON.parse` rejects or that does not denote an object. */
  datatype CacheFile = Parsed(record: CacheRecord) | Unparsable(text: string)

  type Store = map<FilePath, CacheFile>

  /** `RecipleRegistryCacheOptions`. */
  datatype Options = Options(cacheFolder: Option<string>, maxCacheAgeMs: Option<int>)

  /** The module's own fields. */
  datatype Registry = Registry(
    cacheFolder: string,
    maxCacheAgeMs: Option<int>,
    isCached: bool,
    loggedWarning: bool,
    lastRegistryCheck: Option<int>)

  /** What the module sees of its surroundings: the client's configuration and
      user id, the files on disk, and the number of warnings logged so far. */
  datatype Host = Host(config: Config, userId: string, store: Store, warnings: nat)

  /** The object `encodeCommandsData` serialises. */
  datatype Snapshot = Snapshot(
    contextMenuCommands: Option<string>,
    slashCommands: Option<string>,
    applicationCommandRegister: Option<RegisterConfig>,
    userId: string,
    commands: seq<string>,
    devGuilds: seq<string>)

  /** The foreign functions of the fingerprint: `util.inspect` of one command and
      `JSON.stringify` of the snapshot (both followed by UTF-8 encoding), and the
      hex MD5 digest (RFC 1321) of a string. */
  datatype Codec = Codec(
    inspect: Command -> seq<Hex.byte>,
    stringify: Snapshot -> seq<Hex.byte>,
    md5: string -> string)

  /** The state after one step, and whether a read found the cache usable. */
  datatype Step = Step(registry: Registry, host: Host)
  datatype Checked = Checked(registry: Registry, available: bool)

  function DefaultCacheFolder(cwd: string): string
  {
    cwd + "/" + CacheSubfolder
  }

  /** The constructor: only `cacheFolder` is taken from the options, so the
      maximum age is the default whatever the options say. */
  function New(options: Option<Options>, cwd: string): (m: Registry)
    ensures m.maxCacheAgeMs == Some(DefaultMaxCacheAgeMs)
    ensures options.Some? && options.value.cacheFolder.Some? ==> m.cacheFolder == options.value.cacheFolder.value
    ensures (options.None? || options.value.cacheFolder.None?) ==> m.cacheFolder == DefaultCacheFolder(cwd)
    ensures !m.isCached && !m.loggedWarning && m.lastRegistryCheck.None?
  {
    var folder := match options
      case Some(o) => o.cacheFolder.OrElse(DefaultCacheFolder(cwd))
      case None => DefaultCacheFolder(cwd);
    Registry(folder, Some(DefaultMaxCacheAgeMs), false, false, None)
  }

  /** `registryCacheFile`: one file per bot account. */
  function CacheFilePath(m: Registry, h: Host): FilePath
  {
    FilePath(m.cacheFolder, h.userId)
  }

  /** The snapshot of commands and registration settings; each command is kept
      as the hex of its inspected form, and absent dev guilds become `[]`. */
  function TakeSnapshot(config: Config, userId: string, commands: seq<Command>,
                        devGuilds: Option<seq<string>>, codec: Codec): (s: Snapshot)
    ensures |s.commands| == |commands|
    ensures forall i :: 0 <= i < |commands| ==> Hex.Decode(s.commands[i]) == Some(codec.inspect(commands[i]))
    ensures devGuilds.None? ==> s.devGuilds == []
    ensures devGuilds.Some? ==> s.devGuilds == devGuilds.value
    ensures s.applicationCommandRegister == config.applicationCommandRegister && s.userId == userId
  {
    var hexed := seq(|commands|, i requires 0 <= i < |commands| => Hex.Encode(codec.inspect(commands[i])));
    assert forall i :: 0 <= i < |commands| ==> Hex.Decode(hexed[i]) == Some(codec.inspect(commands[i])) by {
      forall i | 0 <= i < |commands| ensures Hex.Decode(hexed[i]) == Some(codec.inspect(commands[i])) {
        Hex.DecodeEncode(codec.inspect(commands[i]));
      }
    }
    Snapshot(config.contextMenuCommand, config.slashCommand, config.applicationCommandRegister,
             userId, hexed, devGuilds.OrElse([]))
  }

  /** `encodeCommandsData`: the record for this run. Its `data` is the hex of
      the serialised snapshot and its hash is a function of `data` alone. */
  function EncodeCommandsData(config: Config, userId: string, commands: seq<Command>,
                              devGuilds: Option<seq<string>>, codec: Codec, now: int): (r: CacheRecord)
    ensures r.clientId == userId
    ensures r.hash == codec.md5(r.data)
    ensures r.createdAt == Some(now)
    ensures Hex.Decode(r.data) == Some(codec.stringify(TakeSnapshot(config, userId, commands, devGuilds, codec)))
  {
    var text := codec.stringify(TakeSnapshot(config, userId, commands, devGuilds, codec));
    Hex.DecodeEncode(text);
    var hex := Hex.Encode(text);
    CacheRecord(userId, hex, codec.md5(hex), Some(now))
  }

  /** `age >= (maxCacheAgeMs ?? Infinity)` with `age = now - createdAt`: an
      unparsable date gives `NaN`, which is never `>=` anything, and an unset
      maximum is infinite. */
  predicate Expired(createdAt: Option<int>, maxCacheAgeMs: Option<int>, now: int)
    ensures createdAt.None? || maxCacheAgeMs.None? ==> !Expired(createdAt, maxCacheAgeMs, now)
    ensures Expired(createdAt, maxCacheAgeMs, now) <==>
      createdAt.Some? && maxCacheAgeMs.Some? && createdAt.value + maxCacheAgeMs.value <= now
  {
    createdAt.Some? && maxCacheAgeMs.Some? && now - createdAt.value >= maxCacheAgeMs.value
  }

  /** An expired record stays expired as time goes on. */
  lemma ExpiryPersists(createdAt: Option<int>, maxCacheAgeMs: Option<int>, now: int, later: int)
    requires now <= later
    ensures Expired(createdAt, maxCacheAgeMs, now) ==> Expired(createdAt, maxCacheAgeMs, later)
  {
  }

  /** `resolveLastCache`: the stored record, or `None` when the file is
      missing or does not parse. */
  function ResolveLastCache(store: Store, path: FilePath): (r: Option<CacheRecord>)
    ensures r.Some? <==> path in store && store[path].Parsed?
    ensures r.Some? ==> store[path] == Parsed(r.value)
  {
    if path in store && store[path].Parsed? then Some(store[path].record) else None
  }

  /** `updateLastCache`: overwrite this account's file with the record; no
      other file changes. */
  function UpdateLastCache(store: Store, path: FilePath, record: CacheRecord): (r: Store)
    ensures ResolveLastCache(r, path) == Some(record)
    ensures forall q :: q != path ==> (q in r <==> q in store)
    ensures forall q :: q != path && q in store ==> r[q] == store[q]
  {
    store[path := Parsed(record)]
  }

  /** `isCacheAvailable`: records the time of the check, then accepts the stored
      record only if there is one, it has not expired and its hash matches. */
  function IsCacheAvailable(m: Registry, cached: Option<CacheRecord>, data: CacheRecord, now: int): (r: Checked)
    ensures r.registry == m.(lastRegistryCheck := Some(now))
    ensures cached.None? ==> !r.available
    ensures cached.Some? && Expired(cached.value.createdAt, m.maxCacheAgeMs, now) ==> !r.available
    ensures r.available ==> cached.Some? && cached.value.hash == data.hash
    ensures (cached.Some? && !Expired(cached.value.createdAt, m.maxCacheAgeMs, now)
             && cached.value.hash == data.hash) ==> r.available
  {
    var m' := m.(lastRegistryCheck := Some(now));
    match cached
    case None => Checked(m', false)
    case Some(c) =>
      if Expired(c.createdAt, m.maxCacheAgeMs, now) then Checked(m', false)
      else Checked(m', c.hash == data.hash)
  }

  /** Whether a check finds the cache usable (and so switches registration off). */
  predicate Hit(m: Registry, h: Host, commands: seq<Command>, devGuilds: Option<seq<string>>, codec: Codec, now: int)
  {
    && !RegisterDisabled(h.config)
    && IsCacheAvailable(m, ResolveLastCache(h.store, CacheFilePath(m, h)),
                        EncodeCommandsData(h.config, h.userId, commands, devGuilds, codec, now), now).available
  }

  /** `checkRegistryCache`. With registration already switched off it does
      nothing. Otherwise it fingerprints the commands, and on a cache hit
      switches registration off, marks the commands cached and warns once;
      hit or miss, it then stores the current record. */
  function CheckRegistryCache(m: Registry, h: Host, commands: seq<Command>, devGuilds: Option<seq<string>>,
                              codec: Codec, now: int): (r: Step)
    ensures RegisterDisabled(h.config) ==> r == Step(m, h)
    ensures !RegisterDisabled(h.config) ==>
      ResolveLastCache(r.host.store, CacheFilePath(m, h))
        == Some(EncodeCommandsData(h.config, h.userId, commands, devGuilds, codec, now))
    ensures !RegisterDisabled(h.config) ==> r.registry.lastRegistryCheck == Some(now)
    ensures forall q :: q != CacheFilePath(m, h) ==> (q in r.host.store <==> q in h.store)
    ensures forall q :: q != CacheFilePath(m, h) && q in h.store ==> r.host.store[q] == h.store[q]
    ensures m.isCached ==> r.registry.isCached
    ensures m.loggedWarning ==> r.registry.loggedWarning
    ensures r.host.warnings == h.warnings + (if !m.loggedWarning && r.registry.loggedWarning then 1 else 0)
    ensures r.registry.cacheFolder == m.cacheFolder && r.registry.maxCacheAgeMs == m.maxCacheAgeMs
    ensures r.host.userId == h.userId
    ensures Hit(m, h, commands, devGuilds, codec, now) ==>
      && r.host.config == h.config.(applicationCommandRegister := Some(DisableRegister(h.config.applicationCommandRegister)))
      && r.registry.isCached && r.registry.loggedWarning
    ensures !Hit(m, h, commands, devGuilds, codec, now) ==>
      && r.host.config == h.config
      && r.registry.isCached == m.isCached && r.registry.loggedWarning == m.loggedWarning
  {
    if RegisterDisabled(h.config) then Step(m, h)
    else
      var data := EncodeCommandsData(h.config, h.userId, commands, devGuilds, codec, now);
      var path := CacheFilePath(m, h);
      var checked := IsCacheAvailable(m, ResolveLastCache(h.store, path), data, now);
      var m1 := if checked.available then checked.registry.(isCached := true, loggedWarning := true)
                else checked.registry;
      var h1 := if checked.available then
                  h.(config := h.config.(applicationCommandRegister := Some(DisableRegister(h.config.applicationCommandRegister))),
                     warnings := if m.loggedWarning then h.warnings else h.warnings + 1)
                else h;
      Step(m1, h1.(store := UpdateLastCache(h1.store, path, data)))
  }

  /** One load of the module: the commands, the dev guilds and the time. */
  datatype Run = Run(commands: seq<Command>, devGuilds: Option<seq<string>>, now: int)

  /** Repeated checks, each on the state the previous one left. */
  function Runs(m: Registry, h: Host, runs: seq<Run>, codec: Codec): Step
    decreases |runs|
  {
    if runs == [] then Step(m, h)
    else
      var s := CheckRegistryCache(m, h, runs[0].commands, runs[0].devGuilds, codec, runs[0].now);
      Runs(s.registry, s.host, runs[1..], codec)
  }

  /** However many checks run, the "did not change" warning is logged at most
      once, and `isCached` is never reset once set. */
  lemma {:induction false} WarnsAtMostOnce(m: Registry, h: Host, runs: seq<Run>, codec: Codec)
    ensures Runs(m, h, runs, codec).host.warnings
            == h.warnings + (if !m.loggedWarning && Runs(m, h, runs, codec).registry.loggedWarning then 1 else 0)
    ensures Runs(m, h, runs, codec).host.warnings <= h.warnings + 1
    ensures m.isCached ==> Runs(m, h, runs, codec).registry.isCached
    ensures m.loggedWarning ==> Runs(m, h, runs, codec).registry.loggedWarning
    decreases |runs|
  {
    if runs != [] {
      var s := CheckRegistryCache(m, h, runs[0].commands, runs[0].devGuilds, codec, runs[0].now);
      WarnsAtMostOnce(s.registry, s.host, runs[1..], codec);
    }
  }

  /** A reference staleness rule: re-register when there is no stored
      fingerprint, when it is at least the maximum age old, or when the digests
      differ. */
  predicate IsStale(current: CacheRecord, stored: Option<CacheRecord>, maxAgeMs: int, now: int)
    requires stored.Some? ==> stored.value.createdAt.Some?
  {
    || stored.None?
    || now - stored.value.createdAt.value >= maxAgeMs
    || stored.value.hash != current.hash
  }

  /** For records with a readable date and a set maximum age, the cache is
      available exactly when it is not stale. */
  lemma AvailableIffNotStale(m: Registry, stored: Option<CacheRecord>, current: CacheRecord, now: int)
    requires m.maxCacheAgeMs.Some?
    requires stored.Some? ==> stored.value.createdAt.Some?
    ensures IsCacheAvailable(m, stored, current, now).available
            <==> !IsStale(current, stored, m.maxCacheAgeMs.value, now)
  {
  }

  /** The next process start reuses the fingerprint: after a check at `now`, a
      fresh module with the same folder, configuration, account and commands,
      checking less than the maximum age later, finds the cache available and
      switches registration off. */
  lemma {:induction false} RestartWithinMaxAgeHits(m: Registry, h: Host, commands: seq<Command>,
                                                   devGuilds: Option<seq<string>>, codec: Codec,
                                                   now: int, m2: Registry, later: int)
    requires !RegisterDisabled(h.config)
    requires m2.cacheFolder == m.cacheFolder
    requires m2.maxCacheAgeMs.None? || later - now < m2.maxCacheAgeMs.value
    ensures var h2 := h.(store := CheckRegistryCache(m, h, commands, devGuilds, codec, now).host.store);
            var r := CheckRegistryCache(m2, h2, commands, devGuilds, codec, later);
            && r.registry.isCached
            && r.host.config.applicationCommandRegister.Some?
            && r.host.config.applicationCommandRegister.value.enabled == Some(false)
  {
    var first := CheckRegistryCache(m, h, commands, devGuilds, codec, now);
    var h2 := h.(store := first.host.store);
    assert CacheFilePath(m2, h2) == CacheFilePath(m, h);
    var stored := EncodeCommandsData(h.config, h.userId, commands, devGuilds, codec, now);
    var current := EncodeCommandsData(h2.config, h2.userId, commands, devGuilds, codec, later);
    assert ResolveLastCache(h2.store, CacheFilePath(m2, h2)) == Some(stored);
    assert stored.data == current.data;
    assert Hit(m2, h2, commands, devGuilds, codec, later);
  }
}
