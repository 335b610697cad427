/** `RecipleDevCommands` (the newer dev-commands module) and its
    `DevCommandPrecondition`: collect the dev commands that modules declare,
    and decide who may run them where. */
module DevCommands {
  import opened Wrappers
  import opened Client
  import opened Ids

  /** The builder classes a dev command definition is resolved into. */
  datatype Builder =
    | ContextMenuBuilder(data: Command)
    | MessageBuilder(data: Command)
    | SlashBuilder(data: Command)

  /** A builder's `command_type`, fixed by its class. */
  function BuilderType(b: Builder): CommandType
  {
    match b
    case ContextMenuBuilder(_) => ContextMenuCommand
    case MessageBuilder(_) => MessageCommand
    case SlashBuilder(_) => SlashCommand
  }

  /** The builder class chosen by a definition's `command_type`. */
  function ResolveBuilder(c: Command): (b: Builder)
    ensures BuilderType(b) == c.commandType
    ensures b.data == c
  {
    match c.commandType
    case ContextMenuCommand => ContextMenuBuilder(c)
    case MessageCommand => MessageBuilder(c)
    case SlashCommand => SlashBuilder(c)
  }

  /** A loaded module's data; only its `devCommands` matter here. */
  datatype ModuleData = ModuleData(devCommands: Option<seq<Command>>)

  /** `getModuleDevCommands`: nothing for a module without `devCommands`,
      otherwise one builder per definition, in order, of the class its type names. */
  function GetModuleDevCommands(script: Option<ModuleData>): (r: seq<Builder>)
    ensures script.None? || script.value.devCommands.None? ==> r == []
    ensures script.Some? && script.value.devCommands.Some? ==>
      var cs := script.value.devCommands.value;
      && |r| == |cs|
      && forall i :: 0 <= i < |cs| ==> r[i].data == cs[i] && BuilderType(r[i]) == cs[i].commandType
  {
    if script.None? || script.value.devCommands.None? then []
    else
      var cs := script.value.devCommands.value;
      seq(|cs|, i requires 0 <= i < |cs| => ResolveBuilder(cs[i]))
  }

  /** `RecipleDevCommandsOptions`. */
  datatype Options = Options(
    allowExecuteInDms: Option<bool>,
    allowExecuteInNonDevGuild: Option<bool>,
    allowNonDevUserExecuteInDevGuild: Option<bool>,
    devGuilds: Option<seq<IdEntry>>,
    devUsers: Option<seq<IdEntry>>)

  /** The module's fields. */
  datatype DevCommands = DevCommands(
    allowExecuteInDms: bool,
    allowExecuteInNonDevGuild: bool,
    allowNonDevUserExecuteInDevGuild: bool,
    devGuilds: seq<string>,
    devUsers: seq<string>,
    commands: seq<Builder>)

  /** The constructor: every permission flag defaults to true, and the guild and
      user lists are the non-empty ids of the given entries, in order. */
  function New(options: Option<Options>): (d: DevCommands)
    ensures d.allowExecuteInDms == (options.None? || options.value.allowExecuteInDms != Some(false))
    ensures d.allowExecuteInNonDevGuild == (options.None? || options.value.allowExecuteInNonDevGuild != Some(false))
    ensures d.allowNonDevUserExecuteInDevGuild
            == (options.None? || options.value.allowNonDevUserExecuteInDevGuild != Some(false))
    ensures options.None? ==> d.devGuilds == [] && d.devUsers == []
    ensures options.Some? ==> forall g :: g in d.devGuilds <==> g != "" && exists e :: e in options.value.devGuilds.OrElse([]) && IdOf(e) == g
    ensures options.Some? ==> forall u :: u in d.devUsers <==> u != "" && exists e :: e in options.value.devUsers.OrElse([]) && IdOf(e) == u
    ensures options.Some? ==> d.devGuilds == NormalizeIds(options.value.devGuilds)
    ensures options.Some? ==> d.devUsers == NormalizeIds(options.value.devUsers)
    ensures d.commands == []
  {
    var o := options.OrElse(Options(None, None, None, None, None));
    var d := DevCommands(o.allowExecuteInDms.OrElse(true), o.allowExecuteInNonDevGuild.OrElse(true),
                         o.allowNonDevUserExecuteInDevGuild.OrElse(true),
                         NormalizeIds(o.devGuilds), NormalizeIds(o.devUsers), []);
    IdsMembership(o.devGuilds.OrElse([]));
    IdsMembership(o.devUsers.OrElse([]));
    d
  }

  /** An id is among the ids of a list exactly when some entry has it. */
  lemma IdsMembership(entries: seq<IdEntry>)
    ensures forall x :: x in IdsOf(entries) <==> exists e :: e in entries && IdOf(e) == x
  {
    forall x | x in IdsOf(entries) ensures exists e :: e in entries && IdOf(e) == x {
      var i :| 0 <= i < |entries| && IdsOf(entries)[i] == x;
      assert entries[i] in entries;
    }
    forall x | exists e :: e in entries && IdOf(e) == x ensures x in IdsOf(entries) {
      var e :| e in entries && IdOf(e) == x;
      var i :| 0 <= i < |entries| && entries[i] == e;
      assert IdsOf(entries)[i] == x;
    }
  }

  /** The `applicationCommands` getter: the commands that are not message
      commands, in their order. */
  function ApplicationCommands(commands: seq<Builder>): (r: seq<Builder>)
    ensures |r| <= |commands|
    ensures forall b :: b in r <==> b in commands && !b.MessageBuilder?
  {
    if commands == [] then []
    else
      var rest := ApplicationCommands(commands[1..]);
      assert commands == [commands[0]] + commands[1..];
      if commands[0].MessageBuilder? then rest else [commands[0]] + rest
  }

  /** Order is kept: filtering a concatenation concatenates the filtered parts. */
  lemma {:induction false} ApplicationCommandsAppend(a: seq<Builder>, b: seq<Builder>)
    ensures ApplicationCommands(a + b) == ApplicationCommands(a) + ApplicationCommands(b)
  {
    if a == [] {
      assert a + b == b;
    } else {
      assert (a + b)[0] == a[0];
      assert (a + b)[1..] == a[1..] + b;
      ApplicationCommandsAppend(a[1..], b);
    }
  }

  /** `onLoad`: every module's dev commands are appended, module by module. */
  function OnLoad(d: DevCommands, modules: seq<Option<ModuleData>>): (r: DevCommands)
    ensures r == d.(commands := r.commands)
    ensures modules == [] ==> r == d
    ensures |r.commands| >= |d.commands| && r.commands[..|d.commands|] == d.commands
    decreases |modules|
  {
    if modules == [] then d
    else
      var prev := OnLoad(d, modules[..|modules| - 1]);
      var r := prev.(commands := prev.commands + GetModuleDevCommands(modules[|modules| - 1]));
      assert r.commands[..|d.commands|] == prev.commands[..|d.commands|];
      r
  }

  /** Loading one more module appends exactly that module's dev commands. */
  lemma OnLoadSnoc(d: DevCommands, modules: seq<Option<ModuleData>>, x: Option<ModuleData>)
    ensures OnLoad(d, modules + [x]).commands == OnLoad(d, modules).commands + GetModuleDevCommands(x)
  {
    assert (modules + [x])[..|modules|] == modules;
  }

  /** Some command in the list has this name and type. */
  function Declares(commands: seq<Builder>, name: string, t: CommandType): (r: bool)
    ensures r <==> exists i :: 0 <= i < |commands| && commands[i].data.name == name && BuilderType(commands[i]) == t
  {
    if commands == [] then false
    else
      var b := commands[|commands| - 1];
      var prefix := commands[..|commands| - 1];
      assert forall i :: 0 <= i < |prefix| ==> prefix[i] == commands[i];
      (b.data.name == name && BuilderType(b) == t) || Declares(prefix, name, t)
  }

  /** `isDevCommand(name, type)`. */
  function IsDevCommand(d: DevCommands, name: string, t: CommandType): (r: bool)
    ensures r <==> exists b :: b in d.commands && b.data.name == name && BuilderType(b) == t
  {
    Declares(d.commands, name, t)
  }

  /** Some module among `modules` declares a dev command with this name and type. */
  predicate ModuleDeclares(modules: seq<Option<ModuleData>>, name: string, t: CommandType)
  {
    exists j :: 0 <= j < |modules| && Declares(GetModuleDevCommands(modules[j]), name, t)
  }

  /** After loading, a name and type is a dev command exactly when it already was
      or some loaded module declares it. */
  lemma {:induction false} LoadedDevCommands(d: DevCommands, modules: seq<Option<ModuleData>>, name: string, t: CommandType)
    ensures IsDevCommand(OnLoad(d, modules), name, t) <==> IsDevCommand(d, name, t) || ModuleDeclares(modules, name, t)
    decreases |modules|
  {
    if modules != [] {
      var init := modules[..|modules| - 1];
      var prev := OnLoad(d, init);
      LoadedDevCommands(d, init, name, t);
      DeclaresAppend(prev.commands, GetModuleDevCommands(modules[|modules| - 1]), name, t);
      ModuleDeclaresSnoc(modules, name, t);
    }
  }

  /** The modules declaring something are those of the prefix plus the last one. */
  lemma ModuleDeclaresSnoc(modules: seq<Option<ModuleData>>, name: string, t: CommandType)
    requires modules != []
    ensures ModuleDeclares(modules, name, t)
            <==> ModuleDeclares(modules[..|modules| - 1], name, t)
                 || Declares(GetModuleDevCommands(modules[|modules| - 1]), name, t)
  {
    var init := modules[..|modules| - 1];
    assert forall j :: 0 <= j < |init| ==> init[j] == modules[j];
    assert modules == init + [modules[|modules| - 1]];
  }

  /** `Declares` distributes over concatenation. */
  lemma DeclaresAppend(a: seq<Builder>, b: seq<Builder>, name: string, t: CommandType)
    ensures Declares(a + b, name, t) <==> Declares(a, name, t) || Declares(b, name, t)
  {
    var ab := a + b;
    if Declares(ab, name, t) {
      var i :| 0 <= i < |ab| && ab[i].data.name == name && BuilderType(ab[i]) == t;
      if i >= |a| {
        assert b[i - |a|] == ab[i];
      }
    }
    if Declares(a, name, t) {
      var i :| 0 <= i < |a| && a[i].data.name == name && BuilderType(a[i]) == t;
      assert ab[i] == a[i];
    }
    if Declares(b, name, t) {
      var i :| 0 <= i < |b| && b[i].data.name == name && BuilderType(b[i]) == t;
      assert ab[|a| + i] == b[i];
    }
  }

  /** A resolved channel: a DM channel, or a channel of some guild. */
  datatype Channel = DmChannel | GuildChannel(guildId: string)

  /** Who ran a command, and where: the message's author and channel, or the
      interaction's user and channel. */
  datatype Invocation =
    | MessageInvocation(authorId: string, messageChannelId: string)
    | InteractionInvocation(userId: string, interactionChannelId: string)

  function UserOf(inv: Invocation): string
  {
    match inv
    case MessageInvocation(u, _) => u
    case InteractionInvocation(u, _) => u
  }

  function ChannelOf(inv: Invocation): string
  {
    match inv
    case MessageInvocation(_, c) => c
    case InteractionInvocation(_, c) => c
  }

  /** `isExecutable`. `fetchChannel` is `client.channels.fetch`, `None` when it
      fails. In a DM only a dev user may run the command, and only if DMs are
      allowed. In a guild a dev user outside the dev guilds needs
      `allowExecuteInNonDevGuild`, a non-dev user inside a dev guild needs
      `allowNonDevUserExecuteInDevGuild`, and the other two cases are refused. */
  function IsExecutable(d: DevCommands, inv: Invocation, fetchChannel: string -> Option<Channel>): (r: bool)
    ensures fetchChannel(ChannelOf(inv)).None? ==> !r
    ensures fetchChannel(ChannelOf(inv)) == Some(DmChannel) ==>
      (r <==> UserOf(inv) in d.devUsers && d.allowExecuteInDms)
    ensures fetchChannel(ChannelOf(inv)).Some? && fetchChannel(ChannelOf(inv)).value.GuildChannel? ==>
      var g := fetchChannel(ChannelOf(inv)).value.guildId;
      (r <==> || (UserOf(inv) in d.devUsers && g !in d.devGuilds && d.allowExecuteInNonDevGuild)
              || (UserOf(inv) !in d.devUsers && g in d.devGuilds && d.allowNonDevUserExecuteInDevGuild))
  {
    match fetchChannel(ChannelOf(inv))
    case None => false
    case Some(DmChannel) => if UserOf(inv) in d.devUsers then d.allowExecuteInDms else false
    case Some(GuildChannel(g)) =>
      var isDevUser := UserOf(inv) in d.devUsers;
      var isDevGuild := g in d.devGuilds;
      if isDevUser && !isDevGuild then d.allowExecuteInNonDevGuild
      else if !isDevUser && isDevGuild then d.allowNonDevUserExecuteInDevGuild
      else false
  }

  /** A dev user in a dev guild is refused, whatever the flags say. */
  lemma DevUserInDevGuildRefused(d: DevCommands, inv: Invocation, fetchChannel: string -> Option<Channel>, g: string)
    requires fetchChannel(ChannelOf(inv)) == Some(GuildChannel(g))
    requires UserOf(inv) in d.devUsers && g in d.devGuilds
    ensures !IsExecutable(d, inv, fetchChannel)
  {
  }

  /** Turning a permission flag on never takes a permission away. */
  lemma FlagsMonotone(d: DevCommands, e: DevCommands, inv: Invocation, fetchChannel: string -> Option<Channel>)
    requires e.devUsers == d.devUsers && e.devGuilds == d.devGuilds
    requires d.allowExecuteInDms ==> e.allowExecuteInDms
    requires d.allowExecuteInNonDevGuild ==> e.allowExecuteInNonDevGuild
    requires d.allowNonDevUserExecuteInDevGuild ==> e.allowNonDevUserExecuteInDevGuild
    ensures IsExecutable(d, inv, fetchChannel) ==> IsExecutable(e, inv, fetchChannel)
  {
  }

  /** The command a precondition hook is asked about. */
  datatype ExecuteData = ExecuteData(builder: Builder)

  /** The precondition's `isDevCommand`: the same test as the module's,
      on the command list it is given. */
  function PreconditionIsDevCommand(commands: seq<Builder>, execute: ExecuteData): (r: bool)
    ensures r <==> exists b :: b in commands && b.data.name == execute.builder.data.name
                               && BuilderType(b) == BuilderType(execute.builder)
  {
    Declares(commands, execute.builder.data.name, BuilderType(execute.builder))
  }

  /** Both `isDevCommand`s agree on the module's own command list. */
  lemma PreconditionAgrees(d: DevCommands, execute: ExecuteData)
    ensures PreconditionIsDevCommand(d.commands, execute)
            == IsDevCommand(d, execute.builder.data.name, BuilderType(execute.builder))
  {
  }

  /** The three hooks of the precondition, one per command type. */
  datatype Hook = ContextMenuCommandExecute | MessageCommandExecute | SlashCommandExecute

  /** The command type whose executions a hook receives. */
  function HookType(hook: Hook): CommandType
  {
    match hook
    case ContextMenuCommandExecute => ContextMenuCommand
    case MessageCommandExecute => MessageCommand
    case SlashCommandExecute => SlashCommand
  }

  /** `contextMenuCommandExecute`, `messageCommandExecute` and
      `slashCommandExecute`, given the dev command list: each asks whether the
      command is a dev command and allows it either way. */
  function PreconditionHook(hook: Hook, commands: seq<Builder>, execute: ExecuteData): (allowed: bool)
    requires BuilderType(execute.builder) == HookType(hook)
    ensures allowed
  {
    if !PreconditionIsDevCommand(commands, execute) then true else true
  }

  /** `DevCommandPreconditionOptions` as the precondition receives it:
      `devCommandManager` is absent when the caller used another key. */
  datatype PreconditionOptions = PreconditionOptions(devCommandManager: Option<DevCommands>)

  /** The options object the module builds for its precondition,
      `{ manager: this }`: it has no `devCommandManager` key. */
  function WiredPreconditionOptions(d: DevCommands): (o: PreconditionOptions)
    ensures o.devCommandManager.None?
  {
    PreconditionOptions(None)
  }

  /** The options the module evidently means to pass, `{ devCommandManager: this }`. */
  function IntendedPreconditionOptions(d: DevCommands): (o: PreconditionOptions)
    ensures o.devCommandManager == Some(d)
  {
    PreconditionOptions(Some(d))
  }

  /** Reading `commands` of an undefined manager throws a `TypeError`. */
  datatype HookError = TypeError

  /** Any of the three hooks as written: each first calls `isDevCommand`, which
      reads the stored manager's `commands`. */
  function HookAsWritten(options: PreconditionOptions, execute: ExecuteData): (r: Result<bool, HookError>)
    ensures options.devCommandManager.None? ==> r == Err(TypeError)
    ensures options.devCommandManager.Some? ==> r == Ok(true)
  {
    match options.devCommandManager
    case None => Err(TypeError)
    case Some(d) => if !PreconditionIsDevCommand(d.commands, execute) then Ok(true) else Ok(true)
  }

  /** As wired by the module, every hook throws instead of allowing the command. */
  lemma WiredHooksThrow(d: DevCommands, execute: ExecuteData)
    ensures HookAsWritten(WiredPreconditionOptions(d), execute) == Err(TypeError)
  {
  }

  /** Wired with the intended options, every hook returns normally and allows
      the command, as `PreconditionHook` states. */
  lemma IntendedHooksAllow(d: DevCommands, execute: ExecuteData)
    ensures HookAsWritten(IntendedPreconditionOptions(d), execute) == Ok(true)
    ensures forall hook :: HookType(hook) == BuilderType(execute.builder) ==>
              PreconditionHook(hook, d.commands, execute)
  {
  }
}
