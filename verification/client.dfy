/** The parts of the host bot framework (reciple on discord.js) that the
    modules read or write: command definitions, the client configuration and
    cache-file locations. */
module Client {
  import opened Wrappers

  /** reciple's three kinds of command. */
  datatype CommandType = ContextMenuCommand | MessageCommand | SlashCommand

  /** A command definition: its name, its kind and the rest of its JSON body,
      which no module looks into. */
  datatype Command = Command(name: string, commandType: CommandType, body: string)

  /** `config.applicationCommandRegister`; the modules only ever write `enabled`. */
  datatype RegisterConfig = RegisterConfig(
    enabled: Option<bool>,
    allowRegisterGlobally: Option<bool>,
    registerToGuilds: Option<seq<string>>)

  /** The parts of `client.config` the modules read. The context-menu and slash
      command sections are only ever serialised, so they are kept as JSON text. */
  datatype Config = Config(
    contextMenuCommand: Option<string>,
    slashCommand: Option<string>,
    messageCommandPrefix: Option<string>,
    messageCommandArgumentSeparator: Option<string>,
    applicationCommandRegister: Option<RegisterConfig>)

  /** `config.applicationCommandRegister?.enabled === false`: only an explicit
      `false` counts, an absent section or flag does not. */
  predicate RegisterDisabled(c: Config)
  {
    c.applicationCommandRegister.Some? && c.applicationCommandRegister.value.enabled == Some(false)
  }

  /** `{ ...register, enabled: false }`: registration switched off, every other
      field kept (and left absent when there was no section). */
  function DisableRegister(register: Option<RegisterConfig>): (r: RegisterConfig)
    ensures r.enabled == Some(false)
    ensures register.Some? ==> r.allowRegisterGlobally == register.value.allowRegisterGlobally
    ensures register.Some? ==> r.registerToGuilds == register.value.registerToGuilds
    ensures register.None? ==> r.allowRegisterGlobally.None? && r.registerToGuilds.None?
  {
    match register
    case Some(c) => c.(enabled := Some(false))
    case None => RegisterConfig(Some(false), None, None)
  }

  /** A file inside a folder (`path.join(folder, name)`), used as a key of a file store. */
  datatype FilePath = FilePath(folder: string, name: string)
}
