/** `RegistryCacheManager` (the older registry-cache module): the cache file
    holds the hex text of the serialised commands and settings, and the cache
    is usable exactly when that text is unchanged; there is no age limit. */
module RegistryCacheManager {
  import opened Wrappers
  import opened Client
  import opened Collection
  import Hex
  import DCM = DevCommandManager

  /** The cache folder: file path to file text. */
  type Store = map<FilePath, string>

  /** The manager's fields; `devCommandsManager` is the dev-commands module it found. */
  datatype Manager = Manager(
    cacheFolder: string,
    isCommandsCached: bool,
    loggedWarning: bool,
    lastRegistryCheck: Option<int>,
    devCommandsManager: Option<DCM.Manager>)

  /** The client's configuration and user id, the files, and the warnings logged. */
  datatype Host = Host(config: Config, userId: string, store: Store, warnings: nat)

  /** The object `encodeCommandsData` serialises. */
  datatype Snapshot = Snapshot(
    contextMenuCommands: Option<string>,
    slashCommands: Option<string>,
    applicationCommandRegister: Option<RegisterConfig>,
    userId: string,
    devCommandsGuilds: seq<string>,
    commands: string)

  /** `util.inspect` of the whole command list, and `JSON.stringify` of the
      snapshot followed by UTF-8 encoding. */
  datatype Codec = Codec(inspect: seq<Command> -> string, stringify: Snapshot -> seq<Hex.byte>)

  datatype Step = Step(manager: Manager, host: Host)
  datatype Checked = Checked(manager: Manager, equal: bool)

  /** The constructor: `cacheFolder` from the options, else `.cache/` beside the package. */
  function New(cacheFolder: Option<string>, packageFolder: string): (m: Manager)
    ensures cacheFolder.Some? ==> m.cacheFolder == cacheFolder.value
    ensures cacheFolder.None? ==> m.cacheFolder == packageFolder + "/.cache/"
    ensures !m.isCommandsCached && !m.loggedWarning && m.lastRegistryCheck.None? && m.devCommandsManager.None?
  {
    Manager(cacheFolder.OrElse(packageFolder + "/.cache/"), false, false, None, None)
  }

  function CacheFilePath(m: Manager, h: Host): FilePath
  {
    FilePath(m.cacheFolder, h.userId)
  }

  /** The dev commands sent for registration: the dev manager's context-menu
      commands, then its slash commands, each in iteration order. */
  function DevApplicationCommands(d: DCM.Manager): (r: seq<Command>)
    ensures |r| == |d.contextMenuCommands| + |d.slashCommands|
    ensures forall i :: 0 <= i < |r| ==>
      r[i] == if i < |d.contextMenuCommands| then d.contextMenuCommands[i].value.command
              else d.slashCommands[i - |d.contextMenuCommands|].value.command
  {
    var bs := Values(d.contextMenuCommands) + Values(d.slashCommands);
    assert forall i :: 0 <= i < |bs| ==>
      bs[i] == if i < |d.contextMenuCommands| then d.contextMenuCommands[i].value
               else d.slashCommands[i - |d.contextMenuCommands|].value;
    seq(|bs|, i requires 0 <= i < |bs| => bs[i].command)
  }

  /** A reference definition: the commands of the builders that are not
      message commands, in order. */
  function NonMessageCommands(bs: seq<DCM.Builder>): seq<Command>
  {
    if bs == [] then []
    else if bs[0].command.commandType == MessageCommand then NonMessageCommands(bs[1..])
    else [bs[0].command] + NonMessageCommands(bs[1..])
  }

  /** The filter distributes over concatenation. */
  lemma {:induction false} NonMessageAppend(a: seq<DCM.Builder>, b: seq<DCM.Builder>)
    ensures NonMessageCommands(a + b) == NonMessageCommands(a) + NonMessageCommands(b)
  {
    if a == [] {
      assert a + b == b;
    } else {
      assert (a + b)[0] == a[0];
      assert (a + b)[1..] == a[1..] + b;
      NonMessageAppend(a[1..], b);
    }
  }

  /** The filter keeps a well-typed collection of non-message commands whole. */
  lemma {:induction false} NonMessageKeepsAll(c: Coll<DCM.Builder>, t: CommandType)
    requires t != MessageCommand && DCM.WellTyped(c, t)
    ensures NonMessageCommands(Values(c)) == seq(|c|, i requires 0 <= i < |c| => c[i].value.command)
  {
    if c != [] {
      assert DCM.WellTyped(c[1..], t) by {
        forall a, b | 0 <= a < b < |c[1..]| ensures c[1..][a].key != c[1..][b].key {
          assert c[1..][a] == c[a + 1] && c[1..][b] == c[b + 1];
        }
        forall i | 0 <= i < |c[1..]|
          ensures c[1..][i].value.command.commandType == t && c[1..][i].key == c[1..][i].value.command.name
        {
          assert c[1..][i] == c[i + 1];
        }
      }
      NonMessageKeepsAll(c[1..], t);
      assert Values(c)[1..] == Values(c[1..]);
    }
  }

  /** The filter drops every message command. */
  lemma {:induction false} NonMessageDropsAll(bs: seq<DCM.Builder>)
    requires forall i :: 0 <= i < |bs| ==> bs[i].command.commandType == MessageCommand
    ensures NonMessageCommands(bs) == []
  {
    if bs != [] {
      NonMessageDropsAll(bs[1..]);
    }
  }

  /** The dev commands registered are the dev manager's `devCommands` without
      its message commands. */
  lemma DevApplicationCommandsFilter(d: DCM.Manager)
    requires DCM.Bucketed(d)
    ensures DevApplicationCommands(d) == NonMessageCommands(DCM.DevCommands(d))
  {
    var cm, mc, sc := Values(d.contextMenuCommands), Values(d.messageCommands), Values(d.slashCommands);
    assert DCM.DevCommands(d) == cm + mc + sc;
    NonMessageAppend(cm + mc, sc);
    NonMessageAppend(cm, mc);
    NonMessageKeepsAll(d.contextMenuCommands, ContextMenuCommand);
    NonMessageKeepsAll(d.slashCommands, SlashCommand);
    NonMessageDropsAll(mc);
  }

  /** The list fingerprinted: the client's context-menu commands, then its
      slash commands, then the dev application commands of the dev manager found. */
  function RegisteredCommands(clientContextMenu: seq<Command>, clientSlash: seq<Command>,
                              dev: Option<DCM.Manager>): (r: seq<Command>)
    ensures |r| == |clientContextMenu| + |clientSlash|
                   + (if dev.Some? then |dev.value.contextMenuCommands| + |dev.value.slashCommands| else 0)
    ensures r[..|clientContextMenu|] == clientContextMenu
    ensures r[|clientContextMenu|..|clientContextMenu| + |clientSlash|] == clientSlash
    ensures r[|clientContextMenu| + |clientSlash|..] == if dev.Some? then DevApplicationCommands(dev.value) else []
  {
    var devCommands := match dev
      case Some(d) => DevApplicationCommands(d)
      case None => [];
    var r := clientContextMenu + clientSlash + devCommands;
    assert r[..|clientContextMenu|] == clientContextMenu;
    assert r[|clientContextMenu|..|clientContextMenu| + |clientSlash|] == clientSlash;
    assert r[|clientContextMenu| + |clientSlash|..] == devCommands;
    r
  }

  /** `encodeCommandsData`: the hex text of the serialised snapshot, whose dev
      guilds are those of the dev manager found, or none. */
  function EncodeCommandsData(m: Manager, h: Host, commands: seq<Command>, codec: Codec): (r: string)
    ensures Hex.Decode(r) == Some(codec.stringify(Snapshot(
      h.config.contextMenuCommand, h.config.slashCommand, h.config.applicationCommandRegister, h.userId,
      if m.devCommandsManager.Some? then m.devCommandsManager.value.devGuilds else [],
      codec.inspect(commands))))
  {
    var devGuilds := match m.devCommandsManager
      case Some(d) => d.devGuilds
      case None => [];
    var text := codec.stringify(Snapshot(h.config.contextMenuCommand, h.config.slashCommand,
                                         h.config.applicationCommandRegister, h.userId, devGuilds,
                                         codec.inspect(commands)));
    Hex.DecodeEncode(text);
    Hex.Encode(text)
  }

  /** `resolveLastCache`: the file text, or `None` when there is no file. */
  function ResolveLastCache(store: Store, path: FilePath): (r: Option<string>)
    ensures r.None? <==> path !in store
    ensures r.Some? ==> r.value == store[path]
  {
    if path in store then Some(store[path]) else None
  }

  /** `isEqualToCache`: records the time of the check; equal only when a file
      exists and holds exactly the current text. */
  function IsEqualToCache(m: Manager, cached: Option<string>, data: string, now: int): (r: Checked)
    ensures r.manager == m.(lastRegistryCheck := Some(now))
    ensures cached.None? ==> !r.equal
    ensures r.equal <==> cached == Some(data)
  {
    Checked(m.(lastRegistryCheck := Some(now)), cached.Some? && cached.value == data)
  }

  /** Since hex encoding is injective, comparing stored and current hex text is
      comparing the serialised JSON texts. */
  lemma EqualIffSameJson(m: Manager, stored: seq<Hex.byte>, current: seq<Hex.byte>, now: int)
    ensures IsEqualToCache(m, Some(Hex.Encode(stored)), Hex.Encode(current), now).equal <==> stored == current
  {
    Hex.EncodeInjective(stored, current);
  }

  /** The dev manager the check uses: the one found, when the dev-commands
      package can be imported; otherwise whatever was set before. */
  function FoundDevManager(m: Manager, devPackageImportable: bool, devModule: Option<DCM.Manager>): (r: Option<DCM.Manager>)
    ensures devPackageImportable ==> r == devModule
    ensures !devPackageImportable ==> r == m.devCommandsManager
  {
    if devPackageImportable then devModule else m.devCommandsManager
  }

  /** Each check with the package importable replaces the reference, clearing
      it when no module is found; a check without the package keeps whatever
      the previous check found. */
  lemma FoundDevManagerAcrossChecks(m: Manager, h: Host, devModule: Option<DCM.Manager>, later: Option<DCM.Manager>,
                                    cm: seq<Command>, cs: seq<Command>, codec: Codec, now: int, h2: Host, now2: int)
    ensures var first := CheckRegistryCache(m, h, true, devModule, cm, cs, codec, now);
      && CheckRegistryCache(first.manager, h2, false, later, cm, cs, codec, now2).manager.devCommandsManager == devModule
      && CheckRegistryCache(first.manager, h2, true, later, cm, cs, codec, now2).manager.devCommandsManager == later
  {
  }

  /** `checkRegistryCache`. The dev manager is looked up first, even when
      registration is already off; then nothing more happens in that case.
      Otherwise the command list is fingerprinted and compared with the file;
      on equality registration is switched off, the commands are marked cached
      and a warning is logged once; the current text is always written. */
  function CheckRegistryCache(m: Manager, h: Host, devPackageImportable: bool, devModule: Option<DCM.Manager>,
                              clientContextMenu: seq<Command>, clientSlash: seq<Command>,
                              codec: Codec, now: int): (r: Step)
    ensures r.manager.devCommandsManager == FoundDevManager(m, devPackageImportable, devModule)
    ensures RegisterDisabled(h.config) ==>
      r == Step(m.(devCommandsManager := FoundDevManager(m, devPackageImportable, devModule)), h)
    ensures !RegisterDisabled(h.config) ==>
      var m1 := m.(devCommandsManager := FoundDevManager(m, devPackageImportable, devModule));
      var dev := if devPackageImportable then devModule else None;
      var data := EncodeCommandsData(m1, h, RegisteredCommands(clientContextMenu, clientSlash, dev), codec);
      && ResolveLastCache(r.host.store, CacheFilePath(m, h)) == Some(data)
      && r.manager.lastRegistryCheck == Some(now)
      && (ResolveLastCache(h.store, CacheFilePath(m, h)) == Some(data) ==>
            && r.host.config == h.config.(applicationCommandRegister := Some(DisableRegister(h.config.applicationCommandRegister)))
            && r.manager.isCommandsCached)
      && (ResolveLastCache(h.store, CacheFilePath(m, h)) != Some(data) ==>
            r.host.config == h.config && r.manager.isCommandsCached == m.isCommandsCached)
      && r.manager.loggedWarning == (m.loggedWarning || ResolveLastCache(h.store, CacheFilePath(m, h)) == Some(data))
    ensures forall q :: q != CacheFilePath(m, h) ==> (q in r.host.store <==> q in h.store)
    ensures forall q :: q != CacheFilePath(m, h) && q in h.store ==> r.host.store[q] == h.store[q]
    ensures m.isCommandsCached ==> r.manager.isCommandsCached
    ensures r.manager.cacheFolder == m.cacheFolder && r.host.userId == h.userId
    ensures r.host.warnings == h.warnings + (if !m.loggedWarning && r.manager.loggedWarning then 1 else 0)
  {
    var m1 := m.(devCommandsManager := FoundDevManager(m, devPackageImportable, devModule));
    if RegisterDisabled(h.config) then Step(m1, h)
    else
      var dev := if devPackageImportable then devModule else None;
      var commands := RegisteredCommands(clientContextMenu, clientSlash, dev);
      var data := EncodeCommandsData(m1, h, commands, codec);
      var path := CacheFilePath(m, h);
      var checked := IsEqualToCache(m1, ResolveLastCache(h.store, path), data, now);
      var m2 := if checked.equal then checked.manager.(isCommandsCached := true, loggedWarning := true)
                else checked.manager;
      var h1 := if checked.equal then
                  h.(config := h.config.(applicationCommandRegister := Some(DisableRegister(h.config.applicationCommandRegister))),
                     warnings := if m.loggedWarning then h.warnings else h.warnings + 1)
                else h;
      Step(m2, h1.(store := h1.store[path := data]))
  }

  /** A second check on unchanged commands and settings, with the file the first
      one wrote, finds it equal and switches registration off. */
  lemma {:induction false} UnchangedCommandsHitNextTime(m: Manager, h: Host, devPackageImportable: bool,
                                                        devModule: Option<DCM.Manager>,
                                                        clientContextMenu: seq<Command>, clientSlash: seq<Command>,
                                                        codec: Codec, now: int, later: int)
    requires !RegisterDisabled(h.config)
    ensures var first := CheckRegistryCache(m, h, devPackageImportable, devModule, clientContextMenu, clientSlash, codec, now);
            var r := CheckRegistryCache(m, h.(store := first.host.store), devPackageImportable, devModule,
                                        clientContextMenu, clientSlash, codec, later);
            && r.manager.isCommandsCached
            && r.host.config.applicationCommandRegister == Some(DisableRegister(h.config.applicationCommandRegister))
  {
    var first := CheckRegistryCache(m, h, devPackageImportable, devModule, clientContextMenu, clientSlash, codec, now);
    var h2 := h.(store := first.host.store);
    assert CacheFilePath(m, h2) == CacheFilePath(m, h);
  }

  /** The dev manager reads the registry manager's flag live: after a check
      that did not return early, it reports the commands cached exactly when it
      holds the registry-cache module and either they already were cached or
      the stored text equals the current one. */
  lemma DevManagerSeesCheck(d: DCM.Manager, m: Manager, h: Host, devPackageImportable: bool,
                            devModule: Option<DCM.Manager>, clientContextMenu: seq<Command>,
                            clientSlash: seq<Command>, codec: Codec, now: int)
    requires !RegisterDisabled(h.config)
    ensures var r := CheckRegistryCache(m, h, devPackageImportable, devModule, clientContextMenu, clientSlash, codec, now);
            var m1 := m.(devCommandsManager := FoundDevManager(m, devPackageImportable, devModule));
            var dev := if devPackageImportable then devModule else None;
            var data := EncodeCommandsData(m1, h, RegisteredCommands(clientContextMenu, clientSlash, dev), codec);
            (DCM.IsCommandsCached(d, r.manager.isCommandsCached)
             <==> d.hasRegistryCache && (m.isCommandsCached || ResolveLastCache(h.store, CacheFilePath(m, h)) == Some(data)))
  {
  }
}
