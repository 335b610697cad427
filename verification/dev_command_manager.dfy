/** `DevCommandManager` (the older dev-commands module): keeps dev-only
    commands in one collection per command type, resolves its message prefix
    and argument separator with fallbacks, and decides whether an incoming
    message or interaction runs a dev command. */
module DevCommandManager {
  import opened Wrappers
  import opened Client
  import opened Collection
  import Strings

  /** A builder's `execute`: the module's own function, or for dev message
      commands the dev-only wrapper around it. `hasOriginal` says whether the
      module supplied a function to call. */
  datatype Execute = Original(hasOriginal: bool) | DevOnly(hasOriginal: bool)

  datatype Builder = Builder(command: Command, execute: Execute)

  /** One entry of a module's `devCommands`. */
  datatype ScriptCommand = ScriptCommand(command: Command, hasExecute: bool)

  /** A loaded module script; only its `devCommands` matter here. */
  datatype Script = Script(devCommands: Option<seq<ScriptCommand>>)

  /** `DevCommandManagerOptions`. */
  datatype Options = Options(
    prefix: Option<string>,
    argSeparator: Option<string>,
    devGuilds: Option<seq<string>>,
    devUsers: Option<seq<string>>,
    allowExecuteInNonDevGuild: Option<bool>,
    ignoreCommandsCacheRegister: Option<bool>)

  /** The manager's fields. `hasRegistryCache` says whether `onLoad` kept a
      reference to the registry-cache module; its `isCommandsCached` flag is
      read through that reference when asked, so it is not a field here. */
  datatype Manager = Manager(
    prefixValue: Option<string>,
    argSeparatorValue: Option<string>,
    devGuilds: seq<string>,
    devUsers: seq<string>,
    allowExecuteInNonDevGuild: bool,
    ignoreCommandsCacheRegister: bool,
    contextMenuCommands: Coll<Builder>,
    messageCommands: Coll<Builder>,
    slashCommands: Coll<Builder>,
    hasRegistryCache: bool)

  /** `value || undefined`: the empty string counts as unset. */
  function Unset(value: Option<string>): (r: Option<string>)
    ensures r.Some? ==> r.value != "" && value == r
    ensures value.Some? && value.value != "" ==> r == value
  {
    if value.Some? && value.value != "" then value else None
  }

  /** The `prefix` setter. */
  function SetPrefix(m: Manager, value: Option<string>): Manager
  {
    m.(prefixValue := Unset(value))
  }

  /** The `argSeparator` setter. */
  function SetArgSeparator(m: Manager, value: Option<string>): Manager
  {
    m.(argSeparatorValue := Unset(value))
  }

  /** The `prefix` getter: the manager's own prefix, else the configured
      message-command prefix, else `!`. */
  function Prefix(m: Manager, config: Config): (r: string)
    ensures m.prefixValue.Some? ==> r == m.prefixValue.value
    ensures m.prefixValue.None? && config.messageCommandPrefix.Some? ==> r == config.messageCommandPrefix.value
    ensures m.prefixValue.None? && config.messageCommandPrefix.None? ==> r == "!"
  {
    m.prefixValue.OrElse(config.messageCommandPrefix.OrElse("!"))
  }

  /** The `argSeparator` getter: own value, else configured, else a space. */
  function ArgSeparator(m: Manager, config: Config): (r: string)
    ensures m.argSeparatorValue.Some? ==> r == m.argSeparatorValue.value
    ensures m.argSeparatorValue.None? && config.messageCommandArgumentSeparator.Some?
            ==> r == config.messageCommandArgumentSeparator.value
    ensures m.argSeparatorValue.None? && config.messageCommandArgumentSeparator.None? ==> r == " "
  {
    m.argSeparatorValue.OrElse(config.messageCommandArgumentSeparator.OrElse(" "))
  }

  /** Setting a non-empty prefix is read back; setting `''`, `null` or
      `undefined` falls back to the configuration or `!`. */
  lemma PrefixSetGet(m: Manager, config: Config, value: Option<string>)
    ensures value.Some? && value.value != "" ==> Prefix(SetPrefix(m, value), config) == value.value
    ensures (value.None? || value.value == "") ==>
      Prefix(SetPrefix(m, value), config) == config.messageCommandPrefix.OrElse("!")
  {
  }

  /** Setting a non-empty separator is read back; an empty one falls back. */
  lemma ArgSeparatorSetGet(m: Manager, config: Config, value: Option<string>)
    ensures value.Some? && value.value != "" ==> ArgSeparator(SetArgSeparator(m, value), config) == value.value
    ensures (value.None? || value.value == "") ==>
      ArgSeparator(SetArgSeparator(m, value), config) == config.messageCommandArgumentSeparator.OrElse(" ")
  {
  }

  /** The constructor. */
  function New(options: Option<Options>): (m: Manager)
    ensures options.None? ==> m.devGuilds == [] && m.devUsers == [] && m.prefixValue.None? && m.argSeparatorValue.None?
    ensures options.Some? ==> m.devGuilds == options.value.devGuilds.OrElse([])
    ensures options.Some? ==> m.devUsers == options.value.devUsers.OrElse([])
    ensures m.allowExecuteInNonDevGuild == (options.None? || options.value.allowExecuteInNonDevGuild != Some(false))
    ensures m.ignoreCommandsCacheRegister == (options.Some? && options.value.ignoreCommandsCacheRegister == Some(true))
    ensures options.Some? ==> m.prefixValue == Unset(options.value.prefix)
    ensures options.Some? ==> m.argSeparatorValue == Unset(options.value.argSeparator)
    ensures m.contextMenuCommands == [] && m.messageCommands == [] && m.slashCommands == []
    ensures !m.hasRegistryCache
  {
    var o := options.OrElse(Options(None, None, None, None, None, None));
    var blank := Manager(None, None, [], [], true, false, [], [], [], false);
    var m := SetArgSeparator(SetPrefix(blank, o.prefix), o.argSeparator);
    m.(devGuilds := o.devGuilds.OrElse([]),
       devUsers := o.devUsers.OrElse([]),
       allowExecuteInNonDevGuild := o.allowExecuteInNonDevGuild.OrElse(true),
       ignoreCommandsCacheRegister := o.ignoreCommandsCacheRegister.OrElse(false))
  }

  /** `onStart`: with no dev guilds configured and a non-empty `DEV_GUILD`
      variable, the dev guilds become that variable split on spaces. */
  function OnStart(m: Manager, devGuildVariable: Option<string>): (r: Manager)
    ensures |m.devGuilds| > 0 || devGuildVariable.None? || devGuildVariable.value == "" ==> r == m
    ensures |m.devGuilds| == 0 && devGuildVariable.Some? && devGuildVariable.value != "" ==>
      && Strings.Join(r.devGuilds, ' ') == devGuildVariable.value
      && (forall i :: 0 <= i < |r.devGuilds| ==> ' ' !in r.devGuilds[i])
      && r == m.(devGuilds := r.devGuilds)
  {
    if |m.devGuilds| == 0 && devGuildVariable.Some? && devGuildVariable.value != "" then
      m.(devGuilds := Strings.Split(devGuildVariable.value, ' '))
    else m
  }

  /** `getModuleDevCommands`: one builder per dev command, in order; message
      commands get the dev-only wrapper, the others keep their own execute. */
  function GetModuleDevCommands(script: Option<Script>): (r: seq<Builder>)
    ensures script.None? || script.value.devCommands.None? ==> r == []
    ensures script.Some? && script.value.devCommands.Some? ==>
      var cs := script.value.devCommands.value;
      && |r| == |cs|
      && forall i :: 0 <= i < |cs| ==>
           && r[i].command == cs[i].command
           && (r[i].execute.DevOnly? <==> cs[i].command.commandType == MessageCommand)
           && r[i].execute.hasOriginal == cs[i].hasExecute
  {
    if script.None? || script.value.devCommands.None? then []
    else
      var cs := script.value.devCommands.value;
      seq(|cs|, i requires 0 <= i < |cs| =>
        if cs[i].command.commandType == MessageCommand then Builder(cs[i].command, DevOnly(cs[i].hasExecute))
        else Builder(cs[i].command, Original(cs[i].hasExecute)))
  }

  /** The collection that holds commands of type `t`. */
  function CollectionFor(m: Manager, t: CommandType): Coll<Builder>
  {
    match t
    case ContextMenuCommand => m.contextMenuCommands
    case MessageCommand => m.messageCommands
    case SlashCommand => m.slashCommands
  }

  /** A collection keyed by command name holding only commands of type `t`. */
  ghost predicate WellTyped(c: Coll<Builder>, t: CommandType)
  {
    && UniqueKeys(c)
    && forall i :: 0 <= i < |c| ==> c[i].value.command.commandType == t && c[i].key == c[i].value.command.name
  }

  /** Each of the three collections is a map from name to a command of its own type. */
  ghost predicate Bucketed(m: Manager)
  {
    && WellTyped(m.contextMenuCommands, ContextMenuCommand)
    && WellTyped(m.messageCommands, MessageCommand)
    && WellTyped(m.slashCommands, SlashCommand)
  }

  /** What a well-typed collection holds under a name has that name and type. */
  lemma GetWellTyped(c: Coll<Builder>, t: CommandType, name: string)
    requires WellTyped(c, t)
    ensures Get(c, name).Some? ==>
      Get(c, name).value.command.commandType == t && Get(c, name).value.command.name == name
  {
    GetFound(c, name);
  }

  /** Setting a builder of type `t` under its own name keeps a collection well typed. */
  lemma SetWellTyped(c: Coll<Builder>, t: CommandType, b: Builder)
    requires WellTyped(c, t) && b.command.commandType == t
    ensures WellTyped(Set(c, b.command.name, b), t)
  {
    SetEntries(c, b.command.name, b);
  }

  /** The manager with the collection for `t` replaced by `c`. */
  function WithCollection(m: Manager, t: CommandType, c: Coll<Builder>): (r: Manager)
    ensures CollectionFor(r, t) == c
    ensures forall u :: u != t ==> CollectionFor(r, u) == CollectionFor(m, u)
    ensures r == m.(contextMenuCommands := r.contextMenuCommands, messageCommands := r.messageCommands,
                    slashCommands := r.slashCommands)
  {
    match t
    case ContextMenuCommand => m.(contextMenuCommands := c)
    case MessageCommand => m.(messageCommands := c)
    case SlashCommand => m.(slashCommands := c)
  }

  /** Replacing one collection by a well-typed one keeps the manager bucketed. */
  lemma WithCollectionBucketed(m: Manager, t: CommandType, c: Coll<Builder>)
    requires Bucketed(m) && WellTyped(c, t)
    ensures Bucketed(WithCollection(m, t, c))
  {
  }

  /** The `switch` of `onLoad` for one builder: file it under its type and name. */
  function Bucket(m: Manager, b: Builder): (r: Manager)
    requires Bucketed(m)
    ensures Bucketed(r)
    ensures Get(CollectionFor(r, b.command.commandType), b.command.name) == Some(b)
    ensures forall t, name :: t != b.command.commandType || name != b.command.name ==>
              Get(CollectionFor(r, t), name) == Get(CollectionFor(m, t), name)
    ensures r == m.(contextMenuCommands := r.contextMenuCommands, messageCommands := r.messageCommands,
                    slashCommands := r.slashCommands)
  {
    var t := b.command.commandType;
    var current := CollectionFor(m, t);
    assert WellTyped(current, t);
    SetWellTyped(current, t, b);
    var c := Set(current, b.command.name, b);
    WithCollectionBucketed(m, t, c);
    WithCollection(m, t, c)
  }

  /** Every entry after `Set` is an old entry or the new one. */
  lemma SetEntries<V>(c: Coll<V>, key: string, value: V)
    requires UniqueKeys(c)
    ensures forall i :: 0 <= i < |Set(c, key, value)| ==>
      Set(c, key, value)[i] == Entry(key, value) || Set(c, key, value)[i] in c
  {
    if c != [] && c[0].key != key {
      SetEntries(c[1..], key, value);
      var r := Set(c, key, value);
      assert r == [c[0]] + Set(c[1..], key, value);
      forall i | 0 <= i < |r| ensures r[i] == Entry(key, value) || r[i] in c {
        if i > 0 {
          assert r[i] == Set(c[1..], key, value)[i - 1];
        }
      }
    }
  }

  /** Filing builders in order, each on the result of the previous ones. */
  function BucketAll(m: Manager, bs: seq<Builder>): (r: Manager)
    requires Bucketed(m)
    ensures Bucketed(r)
    ensures r == m.(contextMenuCommands := r.contextMenuCommands, messageCommands := r.messageCommands,
                    slashCommands := r.slashCommands)
    decreases |bs|
  {
    if bs == [] then m
    else Bucket(BucketAll(m, bs[..|bs| - 1]), bs[|bs| - 1])
  }

  /** The last of `bs` with type `t` and this name: the one a later `set` leaves. */
  function LastNamed(bs: seq<Builder>, t: CommandType, name: string): (r: Option<Builder>)
    ensures r.Some? ==> r.value in bs && r.value.command.commandType == t && r.value.command.name == name
    ensures r.None? ==> forall b :: b in bs ==> b.command.commandType != t || b.command.name != name
    ensures r.Some? ==> exists k :: 0 <= k < |bs| && bs[k] == r.value && NoneNamedAfter(bs, k, t, name)
  {
    if bs == [] then None
    else
      var n := |bs| - 1;
      var b := bs[n];
      assert bs == bs[..n] + [b];
      if b.command.commandType == t && b.command.name == name then
        assert NoneNamedAfter(bs, n, t, name);
        Some(b)
      else
        var r := LastNamed(bs[..n], t, name);
        assert r.Some? ==> exists k :: 0 <= k < |bs| && bs[k] == r.value && NoneNamedAfter(bs, k, t, name) by {
          if r.Some? {
            var k :| 0 <= k < n && bs[..n][k] == r.value && NoneNamedAfter(bs[..n], k, t, name);
            assert NoneNamedAfter(bs, k, t, name) by {
              forall j | k < j < |bs| ensures !Named(bs[j], t, name) {
                if j < n {
                  assert bs[j] == bs[..n][j];
                }
              }
            }
          }
        }
        r
  }

  /** The builder has type `t` and this name. */
  predicate Named(b: Builder, t: CommandType, name: string)
  {
    b.command.commandType == t && b.command.name == name
  }

  /** No builder after position `k` has type `t` and this name. */
  predicate NoneNamedAfter(bs: seq<Builder>, k: nat, t: CommandType, name: string)
  {
    forall j :: k < j < |bs| ==> !Named(bs[j], t, name)
  }

  /** After filing, looking a name up gives the last builder of that type and
      name, or what was there before when none was filed. */
  lemma {:induction false} BucketAllLookup(m: Manager, bs: seq<Builder>, t: CommandType, name: string)
    requires Bucketed(m)
    ensures Get(CollectionFor(BucketAll(m, bs), t), name)
            == if LastNamed(bs, t, name).Some? then LastNamed(bs, t, name) else Get(CollectionFor(m, t), name)
    decreases |bs|
  {
    if bs != [] {
      BucketAllLookup(m, bs[..|bs| - 1], t, name);
    }
  }

  /** The dev commands of all module scripts, module by module. */
  function LoadedBuilders(scripts: seq<Option<Script>>): seq<Builder>
  {
    if scripts == [] then []
    else LoadedBuilders(scripts[..|scripts| - 1]) + GetModuleDevCommands(scripts[|scripts| - 1])
  }

  /** What a name resolves to after filing `bs` on top of `m`. */
  function LookupAfter(m: Manager, bs: seq<Builder>, t: CommandType, name: string): Option<Builder>
  {
    if LastNamed(bs, t, name).Some? then LastNamed(bs, t, name) else Get(CollectionFor(m, t), name)
  }

  /** `onLoad`: look up the registry-cache module (when that package can be
      imported), then file every module's dev commands by type, later
      commands of the same type and name replacing earlier ones. */
  function OnLoad(m: Manager, scripts: seq<Option<Script>>, registryImportable: bool,
                  registryCacheFound: bool): (r: Manager)
    requires Bucketed(m)
    ensures Bucketed(r)
    ensures forall t, name :: Get(CollectionFor(r, t), name) == LookupAfter(m, LoadedBuilders(scripts), t, name)
    ensures r.hasRegistryCache == if registryImportable then registryCacheFound else m.hasRegistryCache
    ensures r.devGuilds == m.devGuilds && r.devUsers == m.devUsers
  {
    var m1 := if registryImportable then m.(hasRegistryCache := registryCacheFound) else m;
    LookupAfterAll(m1, m, LoadedBuilders(scripts));
    BucketAll(m1, LoadedBuilders(scripts))
  }

  /** Filing on top of a manager with the same collections as `m` resolves
      every name as `LookupAfter` on `m` says. */
  lemma LookupAfterAll(m1: Manager, m: Manager, bs: seq<Builder>)
    requires Bucketed(m1)
    requires m1.contextMenuCommands == m.contextMenuCommands && m1.messageCommands == m.messageCommands
    requires m1.slashCommands == m.slashCommands
    ensures forall t, name :: Get(CollectionFor(BucketAll(m1, bs), t), name) == LookupAfter(m, bs, t, name)
  {
    forall t, name ensures Get(CollectionFor(BucketAll(m1, bs), t), name) == LookupAfter(m, bs, t, name) {
      assert CollectionFor(m1, t) == CollectionFor(m, t);
      BucketAllLookup(m1, bs, t, name);
    }
  }

  /** The `devCommands` getter: context-menu, then message, then slash commands,
      each collection in its iteration order. */
  function DevCommands(m: Manager): (r: seq<Builder>)
    ensures |r| == |m.contextMenuCommands| + |m.messageCommands| + |m.slashCommands|
    ensures forall i :: 0 <= i < |r| ==>
      r[i] == if i < |m.contextMenuCommands| then m.contextMenuCommands[i].value
              else if i < |m.contextMenuCommands| + |m.messageCommands|
              then m.messageCommands[i - |m.contextMenuCommands|].value
              else m.slashCommands[i - |m.contextMenuCommands| - |m.messageCommands|].value
  {
    Values(m.contextMenuCommands) + Values(m.messageCommands) + Values(m.slashCommands)
  }

  /** In a map, each entry is what its key looks up. */
  lemma {:induction false} GetEntry<V>(c: Coll<V>, j: nat)
    requires UniqueKeys(c) && j < |c|
    ensures Get(c, c[j].key) == Some(c[j].value)
  {
    if j > 0 {
      assert c[0].key != c[j].key;
      assert c[1..][j - 1] == c[j];
      assert UniqueKeys(c[1..]) by {
        forall a, b | 0 <= a < b < |c[1..]| ensures c[1..][a].key != c[1..][b].key {
          assert c[1..][a] == c[a + 1] && c[1..][b] == c[b + 1];
        }
      }
      GetEntry(c[1..], j - 1);
    }
  }

  /** A builder is in a well-typed collection exactly when its own name looks it up. */
  lemma InCollectionIffLookup(c: Coll<Builder>, t: CommandType, b: Builder)
    requires WellTyped(c, t) && b.command.commandType == t
    ensures b in Values(c) <==> Get(c, b.command.name) == Some(b)
  {
    if b in Values(c) {
      var j :| 0 <= j < |c| && Values(c)[j] == b;
      GetEntry(c, j);
    }
    if Get(c, b.command.name) == Some(b) {
      GetFound(c, b.command.name);
      var j :| 0 <= j < |c| && c[j].key == b.command.name && c[j].value == b;
      assert Values(c)[j] == b;
    }
  }

  /** The `devCommands` getter lists exactly the builders that a lookup by
      their own type and name finds. */
  lemma DevCommandsAreLookups(m: Manager, b: Builder)
    requires Bucketed(m)
    ensures b in DevCommands(m) <==> Get(CollectionFor(m, b.command.commandType), b.command.name) == Some(b)
  {
    var cm, mc, sc := m.contextMenuCommands, m.messageCommands, m.slashCommands;
    assert DevCommands(m) == Values(cm) + Values(mc) + Values(sc);
    var t := b.command.commandType;
    forall u | u != t
      ensures b !in Values(CollectionFor(m, u))
    {
      var c := CollectionFor(m, u);
      assert WellTyped(c, u);
      forall j | 0 <= j < |c| ensures Values(c)[j] != b {
        assert c[j].value.command.commandType == u;
      }
    }
    InCollectionIffLookup(CollectionFor(m, t), t, b);
  }

  /** The `isCommandsCached` getter: false without a registry-cache module,
      otherwise that module's own `isCommandsCached` at the time of the call. */
  function IsCommandsCached(m: Manager, registryIsCommandsCached: bool): (r: bool)
    ensures !m.hasRegistryCache ==> !r
    ensures m.hasRegistryCache ==> r == registryIsCommandsCached
  {
    m.hasRegistryCache && registryIsCommandsCached
  }

  /** `message.guildId` / `interaction.guildId` is present, non-empty and a dev guild. */
  predicate InDevGuild(m: Manager, guildId: Option<string>)
    ensures guildId.None? || m.devGuilds == [] ==> !InDevGuild(m, guildId)
    ensures InDevGuild(m, guildId) <==>
      exists k :: 0 <= k < |m.devGuilds| && m.devGuilds[k] != "" && guildId == Some(m.devGuilds[k])
  {
    guildId.Some? && guildId.value != "" && guildId.value in m.devGuilds
  }

  /** What an incoming message or interaction does. */
  datatype Dispatch = Ignored | Conflict | Run(builder: Builder)

  /** The gate shared by the three listeners: ignore unless there is a dev
      command of that name and either non-dev guilds are allowed or the event
      comes from a dev guild; refuse (with a warning) when the client has a
      command of the same name and type; run otherwise. */
  function Gate(m: Manager, devCommand: Option<Builder>, clientHasCommand: bool, guildId: Option<string>): (r: Dispatch)
    ensures r.Run? <==> devCommand.Some? && (m.allowExecuteInNonDevGuild || InDevGuild(m, guildId)) && !clientHasCommand
    ensures r.Run? ==> r.builder == devCommand.value
    ensures r.Conflict? <==> devCommand.Some? && (m.allowExecuteInNonDevGuild || InDevGuild(m, guildId)) && clientHasCommand
  {
    if devCommand.None? || (!m.allowExecuteInNonDevGuild && !InDevGuild(m, guildId)) then Ignored
    else if clientHasCommand then Conflict
    else Run(devCommand.value)
  }

  /** The `messageCreate` listener. `parsedName` is the name `getCommand`
      extracted with the manager's prefix and separator, if any; a missing or
      empty name is ignored, any other goes through the gate with the message
      collection and the client's message command of that name. */
  function OnMessage(m: Manager, parsedName: Option<string>, clientHas: (string, CommandType) -> bool,
                     guildId: Option<string>): (r: Dispatch)
    requires Bucketed(m)
    ensures parsedName.None? || parsedName.value == "" ==> r.Ignored?
    ensures parsedName.Some? && parsedName.value != "" ==>
      r == Gate(m, Get(m.messageCommands, parsedName.value), clientHas(parsedName.value, MessageCommand), guildId)
    ensures r.Run? ==> parsedName.Some? && r.builder.command.name == parsedName.value
                       && r.builder.command.commandType == MessageCommand
    ensures r.Run? <==> && parsedName.Some? && parsedName.value != ""
                        && parsedName.value in Keys(m.messageCommands)
                        && (m.allowExecuteInNonDevGuild || InDevGuild(m, guildId))
                        && !clientHas(parsedName.value, MessageCommand)
  {
    if parsedName.None? || parsedName.value == "" then Ignored
    else
      var name := parsedName.value;
      GetWellTyped(m.messageCommands, MessageCommand, name);
      Gate(m, Get(m.messageCommands, name), clientHas(name, MessageCommand), guildId)
  }

  /** The kinds of interaction the `interactionCreate` listener tells apart. */
  datatype InteractionKind = ChatInputInteraction | ContextMenuInteraction | OtherInteraction

  /** The collection an interaction kind looks in, and the command type the
      client is asked about. */
  function KindType(kind: InteractionKind): CommandType
    requires !kind.OtherInteraction?
  {
    if kind.ChatInputInteraction? then SlashCommand else ContextMenuCommand
  }

  /** The `interactionCreate` listener: chat-input commands look in the slash
      collection, context-menu commands in the context-menu collection, each
      through the same gate as messages; other interactions are ignored. */
  function OnInteraction(m: Manager, kind: InteractionKind, commandName: string,
                         clientHas: (string, CommandType) -> bool, guildId: Option<string>): (r: Dispatch)
    requires Bucketed(m)
    ensures kind.OtherInteraction? ==> r.Ignored?
    ensures !kind.OtherInteraction? ==>
      var t := KindType(kind);
      && r == Gate(m, Get(CollectionFor(m, t), commandName), clientHas(commandName, t), guildId)
      && (r.Run? <==> && commandName in Keys(CollectionFor(m, t))
                      && (m.allowExecuteInNonDevGuild || InDevGuild(m, guildId))
                      && !clientHas(commandName, t))
      && (r.Conflict? <==> && commandName in Keys(CollectionFor(m, t))
                           && (m.allowExecuteInNonDevGuild || InDevGuild(m, guildId))
                           && clientHas(commandName, t))
      && (r.Run? ==> r.builder.command.name == commandName && r.builder.command.commandType == t)
  {
    match kind
    case ChatInputInteraction =>
      GetWellTyped(m.slashCommands, SlashCommand, commandName);
      Gate(m, Get(m.slashCommands, commandName), clientHas(commandName, SlashCommand), guildId)
    case ContextMenuInteraction =>
      GetWellTyped(m.contextMenuCommands, ContextMenuCommand, commandName);
      Gate(m, Get(m.contextMenuCommands, commandName), clientHas(commandName, ContextMenuCommand), guildId)
    case OtherInteraction => Ignored
  }

  /** A value found under a key is an entry with that key. */
  lemma GetFound<V>(c: Coll<V>, key: string)
    ensures Get(c, key).Some? ==> exists i :: 0 <= i < |c| && c[i].key == key && c[i].value == Get(c, key).value
  {
    if c != [] && c[0].key != key {
      GetFound(c[1..], key);
      if Get(c, key).Some? {
        var i :| 0 <= i < |c[1..]| && c[1..][i].key == key && c[1..][i].value == Get(c, key).value;
        assert c[i + 1] == c[1..][i];
      }
    }
  }

  /** The message a dev message command runs on. */
  datatype MessageContext = MessageContext(guildId: Option<string>, authorId: string)

  /** Running a message builder's `execute`: the dev-only wrapper returns
      without calling the original in a guild that is not a dev guild, and
      whenever the author is not a dev user. Result: whether the module's
      own function is called. */
  function RunMessageExecute(m: Manager, b: Builder, msg: MessageContext): (called: bool)
    ensures b.execute.Original? ==> called == b.execute.hasOriginal
    ensures b.execute.DevOnly? ==>
      (called <==> b.execute.hasOriginal
                   && (msg.guildId.None? || msg.guildId.value in m.devGuilds)
                   && msg.authorId in m.devUsers)
  {
    match b.execute
    case Original(has) => has
    case DevOnly(has) =>
      if msg.guildId.Some? && msg.guildId.value !in m.devGuilds then false
      else if msg.authorId !in m.devUsers then false
      else has
  }

  /** An empty dev-user list blocks every wrapped dev message command. */
  lemma NoDevUsersBlocksMessageCommands(m: Manager, b: Builder, msg: MessageContext)
    requires m.devUsers == [] && b.execute.DevOnly?
    ensures !RunMessageExecute(m, b, msg)
  {
  }
}
