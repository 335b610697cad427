# reciple-modules decision logic in Dafny

This project models the decision logic of four reciple plugin packages for discord.js bots. It proves properties of that logic.

- **Registry cache.** `RecipleRegistryCache` and the older `RegistryCacheManager` decide at load time whether application-command registration can be skipped. They fingerprint the commands and the registration settings and compare the result with the fingerprint the previous run stored. The newer class compares a hash under a 24-hour age limit. The older one compares the hex text directly. Both always overwrite the stored fingerprint afterwards.
- **Dev commands.** `RecipleDevCommands` with its `DevCommandPrecondition`, and the older `DevCommandManager`, collect "dev" commands from the loaded modules. They normalise the dev guild and dev user lists and decide where and by whom a dev command may run. The older class also handles the prefix and separator fallbacks, files commands by type, and dispatches incoming messages and interactions.
- **Interaction events.** `RecipleInteractionEvents` and the older `InteractionEventManager` route each interaction to the listeners of its listener type. The newer class is the one with `defaultHalt`. A listener runs only when its `commandName`/`customId` matches and it passes the permission and cooldown gates. Halt hooks decide whether errors count as handled.
- **Anticrash.** `RecipleAnticrash` and the older `RecipleCrashHandler` turn an error into one message. The message carries an embed, plus an attachment when the stack is long. Each class sends it to every report channel that resolves.

## How the system is modelled

Everything outside the decision logic becomes an input:

- **Network, filesystem and clock.** The cache folder is a `map` from file paths to contents. Channel, user and cooldown lookups are function-typed parameters that return `Option`. Time is an integer number of milliseconds.
- **Foreign helpers.** MD5 (RFC 1321), `util.inspect`, `JSON.stringify`, `stripVTControlCharacters`, `limitString` and `escapeCodeBlock` are opaque function parameters.
- **Hex encoding.** The Base16 encoding (section 8 of RFC 4648) used by `Buffer.toString('hex')` is written out. Its round trip and injectivity are proved.
- **discord.js `Collection`.** It is an insertion-ordered sequence of entries. A `set` on an existing key replaces the value in place.
- **JavaScript truthiness.** This is spelled out wherever the source relies on it:
  - an empty string prefix, matcher or guild id counts as absent;
  - a zero cooldown or a zero permission bit field is ignored;
  - a date that parses to `NaN` never expires.
- **String length.** JavaScript string length is counted in UTF-16 code units (`Anticrash.Utf16Length`).
- **Object references.** Values are immutable, so a reference one module keeps to another becomes a flag saying that it holds one. What it reads through the reference is an argument at the time of the read: `DevCommandManager.IsCommandsCached` takes the registry-cache module's current `isCommandsCached`, and `RegistryCacheManager.DevManagerSeesCheck` connects that to the registry check.
- **Older and newer classes.** Where both exist, one definition serves both, with a parameter saying which class runs:
  - `InteractionEvents.HaltPolicy`;
  - `Anticrash.Variant`.

Points of the registry-cache code that the model keeps as written:

- `maxCacheAgeMs` is never read from the options. The constructor reads only `cacheFolder`, so the limit stays 86400000 ms (`RegistryCache.New`).
- A stored `createdAt` that does not parse gives a `NaN` age, which never reaches the limit, so such a record is compared by hash alone. `RegistryCache.IsStale` is a reference staleness rule over readable dates, against which `IsCacheAvailable` is checked.
- The fingerprint covers the command list in order, so reordering the commands counts as a change.
- The newer class awaits the cache write without catching a failure. Writes are outside this model.

## Model

| member | source | states |
|---|---|---|
| `Hex.DecodeEncode` | packages/reciple-registry-cache/src/classes/RecipleRegistryCache.ts:124 | the hex text of any byte string decodes back to exactly those bytes |
| `Hex.EncodeInjective` | packages/reciple-registry-cache/src/classes/RegistryCacheManager.ts:105 | two byte strings have the same hex text exactly when they are equal |
| `Client.DisableRegister` | packages/reciple-registry-cache/src/classes/RecipleRegistryCache.ts:102-105 | the new `applicationCommandRegister` has `enabled` false and every other field as before (absent when there was no section) |
| `RegistryCache.New` | packages/reciple-registry-cache/src/classes/RecipleRegistryCache.ts:52-69 | the maximum age is 86400000 ms whatever the options say; the folder is the option's when given, else the default under the working directory; flags start cleared |
| `RegistryCache.TakeSnapshot` | packages/reciple-registry-cache/src/classes/RecipleRegistryCache.ts:114-122 | one entry per command, in order, whose hex decodes to that command's inspected form; absent dev guilds become an empty list |
| `RegistryCache.EncodeCommandsData` | packages/reciple-registry-cache/src/classes/RecipleRegistryCache.ts:114-131 | the record carries the bot's id, data that decodes to the serialised snapshot, the MD5 of that data, and the current time |
| `RegistryCache.ResolveLastCache` | packages/reciple-registry-cache/src/classes/RecipleRegistryCache.ts:152-160 | a record is read exactly when the file exists and parses; a missing or unparsable file reads as nothing |
| `RegistryCache.UpdateLastCache` | packages/reciple-registry-cache/src/classes/RecipleRegistryCache.ts:147-150 | after writing, reading the same path gives the record written; every other file is unchanged |
| `RegistryCache.IsCacheAvailable` | packages/reciple-registry-cache/src/classes/RecipleRegistryCache.ts:134-145 | always records the check time; no record, or an age at or over the limit, is unavailable; otherwise available exactly when the hashes are equal |
| `RegistryCache.Expired` | packages/reciple-registry-cache/src/classes/RecipleRegistryCache.ts:140-143 | a date that does not parse (`NaN` age) or an unset maximum (`Infinity`) never expires; otherwise expired exactly when the record's date plus the maximum age is at or before now |
| `RegistryCache.ExpiryPersists` | packages/reciple-registry-cache/src/classes/RecipleRegistryCache.ts:140-143 | an expired record stays expired at every later time |
| `RegistryCache.CheckRegistryCache` | packages/reciple-registry-cache/src/classes/RecipleRegistryCache.ts:92-112 | with registration already off nothing changes; otherwise the current record is stored and no other file changes; a hit switches registration off keeping the other settings and marks the commands cached; a miss changes no setting; flags never reset; at most one new warning |
| `RegistryCache.WarnsAtMostOnce` | packages/reciple-registry-cache/src/classes/RecipleRegistryCache.ts:99-109 | over any number of successive checks the warning is logged at most once, and `isCached` and the warning flag are never reset |
| `RegistryCache.AvailableIffNotStale` | packages/reciple-registry-cache/src/classes/RecipleRegistryCache.ts:137-144 | for readable dates the cache is available exactly when the reference rule `IsStale` (no record, an age at or over the limit, or differing hashes) says it is not stale |
| `RegistryCache.RestartWithinMaxAgeHits` | packages/reciple-registry-cache/src/classes/RecipleRegistryCache.ts:126-160 | a later start with the same folder, settings, account and commands, within the age limit, finds the stored record and switches registration off |
| `RegistryCacheManager.New` | packages/reciple-registry-cache/src/classes/RegistryCacheManager.ts:28-43 | the folder is the option's when given, else `.cache/` beside the package; flags start cleared and no dev manager is known |
| `RegistryCacheManager.FoundDevManager` | packages/reciple-registry-cache/src/classes/RegistryCacheManager.ts:61-65 | when the package imports, the module found replaces the reference, even when none is found; otherwise the earlier reference stays |
| `RegistryCacheManager.FoundDevManagerAcrossChecks` | packages/reciple-registry-cache/src/classes/RegistryCacheManager.ts:58-65 | a later check without the package keeps the manager an earlier check found; a later check with it replaces that manager |
| `RegistryCacheManager.DevApplicationCommands` | packages/reciple-registry-cache/src/classes/RegistryCacheManager.ts:67 | position by position, the dev manager's context-menu commands, then its slash commands, each collection in iteration order |
| `RegistryCacheManager.DevApplicationCommandsFilter` | packages/reciple-registry-cache/src/classes/RegistryCacheManager.ts:67 | for well-typed collections, the commands registered are exactly the dev manager's `devCommands` with the message commands filtered out, in order |
| `RegistryCacheManager.RegisteredCommands` | packages/reciple-registry-cache/src/classes/RegistryCacheManager.ts:72-76 | client context-menu commands first, then client slash commands, then exactly the dev application commands of the dev manager found, or nothing without one |
| `RegistryCacheManager.EncodeCommandsData` | packages/reciple-registry-cache/src/classes/RegistryCacheManager.ts:95-106 | the text decodes to the serialised snapshot whose dev guilds are the found dev manager's, or empty |
| `RegistryCacheManager.ResolveLastCache` | packages/reciple-registry-cache/src/classes/RegistryCacheManager.ts:122-125 | nothing exactly when the file is missing, otherwise its text |
| `RegistryCacheManager.IsEqualToCache` | packages/reciple-registry-cache/src/classes/RegistryCacheManager.ts:108-115 | records the check time; equal exactly when a file exists holding the current text; there is no age limit |
| `RegistryCacheManager.EqualIffSameJson` | packages/reciple-registry-cache/src/classes/RegistryCacheManager.ts:95-115 | comparing the stored and current hex texts is comparing the serialised JSON texts |
| `RegistryCacheManager.CheckRegistryCache` | packages/reciple-registry-cache/src/classes/RegistryCacheManager.ts:58-93 | the dev manager is looked up even when registration is off, which otherwise ends the check; else the current text is written; equality switches registration off, marks the commands cached and sets the warned flag, a mismatch changes none of these; the folder, the user id and other files are untouched; at most one new warning |
| `RegistryCacheManager.UnchangedCommandsHitNextTime` | packages/reciple-registry-cache/src/classes/RegistryCacheManager.ts:78-120 | a second check on unchanged commands and settings finds the text the first one wrote and switches registration off |
| `RegistryCacheManager.DevManagerSeesCheck` | packages/reciple-registry-cache/src/classes/RegistryCacheManager.ts:80-89 | after a check, a dev manager holding the registry module reports the commands cached exactly when they already were or the stored text equals the current one; one without it never does |
| `Strings.Split` | packages/reciple-dev-commands/src/classes/DevCommandManager.ts:86 | the pieces contain no separator and joining them with it gives back the input |
| `Strings.SplitJoin` | packages/reciple-dev-commands/src/classes/DevCommandManager.ts:86 | splitting a joined list of separator-free pieces gives back the pieces |
| `Ids.KeepIds` | packages/reciple-dev-commands/src/classes/RecipleDevCommands.ts:52-53 | an id is kept exactly when it is non-empty and belongs to some entry, string or `{ id }`; never more ids than entries |
| `Ids.KeepIdsAppend` | packages/reciple-dev-commands/src/classes/RecipleDevCommands.ts:52 | normalisation keeps order: normalising a concatenation concatenates the normalised parts |
| `Ids.KeepIdsNoneEmpty` | packages/reciple-dev-commands/src/classes/RecipleDevCommands.ts:53 | when no id is empty, normalisation is exactly the list of ids |
| `Ids.NormalizeIds` | packages/reciple-anticrash/src/classes/RecipleAnticrash.ts:22 | absent input gives no ids; otherwise exactly `KeepIds` of the entries: the non-empty ids, in order, repeats kept |
| `Collection.Get` | packages/reciple-dev-commands/src/classes/DevCommandManager.ts:165 | nothing exactly when no entry has the key |
| `Collection.Set` | packages/reciple-dev-commands/src/classes/DevCommandManager.ts:105 | the key then maps to the value, every other key keeps its value, the key order is unchanged for an existing key and extended by the key for a new one |
| `DevCommandManager.Unset` | packages/reciple-dev-commands/src/classes/DevCommandManager.ts:68-69 | a stored value is never empty; a non-empty value is kept |
| `DevCommandManager.Prefix` | packages/reciple-dev-commands/src/classes/DevCommandManager.ts:60-62 | own prefix, else the configured message-command prefix, else `!` |
| `DevCommandManager.ArgSeparator` | packages/reciple-dev-commands/src/classes/DevCommandManager.ts:64-66 | own separator, else the configured one, else a space |
| `DevCommandManager.PrefixSetGet` | packages/reciple-dev-commands/src/classes/DevCommandManager.ts:60-69 | a non-empty prefix set is read back; `''`, null or undefined falls back |
| `DevCommandManager.ArgSeparatorSetGet` | packages/reciple-dev-commands/src/classes/DevCommandManager.ts:64-69 | a non-empty separator set is read back; an empty one falls back |
| `DevCommandManager.New` | packages/reciple-dev-commands/src/classes/DevCommandManager.ts:71-80 | dev guilds and users default to empty, non-dev guilds allowed unless set false, cache register not ignored unless set true, empty prefix or separator unset, no commands |
| `DevCommandManager.OnStart` | packages/reciple-dev-commands/src/classes/DevCommandManager.ts:82-89 | only with no dev guilds and a non-empty `DEV_GUILD`, the dev guilds become space-free pieces that join back to the variable; nothing else changes |
| `DevCommandManager.GetModuleDevCommands` | packages/reciple-dev-commands/src/classes/DevCommandManager.ts:203-229 | nothing for a script without dev commands; one builder per command, in order; exactly the message commands get the dev-only wrapper |
| `DevCommandManager.Bucket` | packages/reciple-dev-commands/src/classes/DevCommandManager.ts:102-113 | the builder is filed under its type and name, every other lookup is unchanged, the collections stay well typed, no other field changes |
| `DevCommandManager.LastNamed` | packages/reciple-dev-commands/src/classes/DevCommandManager.ts:102-113 | a builder of the list with the type and name such that no later builder has both; nothing exactly when no builder has them |
| `DevCommandManager.BucketAllLookup` | packages/reciple-dev-commands/src/classes/DevCommandManager.ts:99-115 | after filing a sequence, a lookup gives the last builder of that type and name, or the earlier content when none was filed |
| `DevCommandManager.OnLoad` | packages/reciple-dev-commands/src/classes/DevCommandManager.ts:91-115 | every lookup after loading is the last loaded command of that type and name, else the earlier one; the registry-cache module is held only as found when that package imports; dev guilds and users unchanged |
| `DevCommandManager.DevCommands` | packages/reciple-dev-commands/src/classes/DevCommandManager.ts:41-43 | position by position, the context-menu entries, then the message entries, then the slash entries, each in iteration order |
| `DevCommandManager.DevCommandsAreLookups` | packages/reciple-dev-commands/src/classes/DevCommandManager.ts:41-43 | for well-typed collections, a builder is listed exactly when a lookup by its own type and name finds it |
| `DevCommandManager.IsCommandsCached` | packages/reciple-dev-commands/src/classes/DevCommandManager.ts:54-58 | false without the registry-cache module; otherwise that module's own `isCommandsCached` at the time of the call |
| `DevCommandManager.Gate` | packages/reciple-dev-commands/src/classes/DevCommandManager.ts:167-171 | runs exactly when the dev command exists, non-dev guilds are allowed or the guild is a dev guild, and the client has no same-named command of that type; conflicts exactly in the last case reversed |
| `DevCommandManager.InDevGuild` | packages/reciple-dev-commands/src/classes/DevCommandManager.ts:167 | a guild counts as a dev guild exactly when its id is present, non-empty and equal to some entry of `devGuilds`; no id or no dev guilds means never |
| `DevCommandManager.OnMessage` | packages/reciple-dev-commands/src/classes/DevCommandManager.ts:160-174 | a missing or empty name is ignored; otherwise the gate decides on the message command of that name, which runs exactly when it is filed, the guild passes the dev-guild rule and the client has no message command of that name |
| `DevCommandManager.OnInteraction` | packages/reciple-dev-commands/src/classes/DevCommandManager.ts:176-200 | chat-input interactions go through the gate with the slash collection, context menus with the context-menu collection: a run exactly when the name is filed there, non-dev guilds are allowed or the guild is a dev guild, and the client lacks it; a conflict in the same case when the client has it; other kinds are ignored |
| `DevCommandManager.RunMessageExecute` | packages/reciple-dev-commands/src/classes/DevCommandManager.ts:217-223 | the wrapped execute calls the original exactly when there is one, the message is not from a non-dev guild and the author is a dev user |
| `DevCommandManager.NoDevUsersBlocksMessageCommands` | packages/reciple-dev-commands/src/classes/DevCommandManager.ts:220 | an empty dev-user list blocks every wrapped message command |
| `DevCommands.ResolveBuilder` | packages/reciple-dev-commands/src/classes/RecipleDevCommands.ts:90-97 | the builder class has the definition's command type and wraps that definition |
| `DevCommands.GetModuleDevCommands` | packages/reciple-dev-commands/src/classes/RecipleDevCommands.ts:85-101 | nothing without `devCommands`; otherwise one builder per definition, in order, of the class its type names |
| `DevCommands.New` | packages/reciple-dev-commands/src/classes/RecipleDevCommands.ts:48-55 | the three flags default to true; the guild and user lists are the normalised entries (non-empty ids, in order), so they hold exactly the non-empty ids given; no commands yet |
| `DevCommands.ApplicationCommands` | packages/reciple-dev-commands/src/classes/RecipleDevCommands.ts:44-46 | exactly the commands that are not message commands |
| `DevCommands.ApplicationCommandsAppend` | packages/reciple-dev-commands/src/classes/RecipleDevCommands.ts:45 | filtering keeps order: filtering a concatenation concatenates the filtered parts |
| `DevCommands.OnLoad` | packages/reciple-dev-commands/src/classes/RecipleDevCommands.ts:66-78 | loading no modules changes nothing; the earlier commands stay as a prefix and nothing but the command list changes |
| `DevCommands.OnLoadSnoc` | packages/reciple-dev-commands/src/classes/RecipleDevCommands.ts:66-78 | loading one more module appends exactly that module's dev commands, in order, after those of the earlier modules |
| `DevCommands.Declares` | packages/reciple-dev-commands/src/classes/RecipleDevCommands.ts:104 | true exactly when some command in the list has the name and type |
| `DevCommands.IsDevCommand` | packages/reciple-dev-commands/src/classes/RecipleDevCommands.ts:103-105 | true exactly when some loaded command has the name and type |
| `DevCommands.LoadedDevCommands` | packages/reciple-dev-commands/src/classes/RecipleDevCommands.ts:66-105 | after loading, a name and type is a dev command exactly when it was one before or some loaded module declares it |
| `DevCommands.IsExecutable` | packages/reciple-dev-commands/src/classes/RecipleDevCommands.ts:107-126 | an unresolvable channel refuses; in a DM only a dev user, with DMs allowed; in a guild a dev user outside dev guilds needs the non-dev-guild flag, a non-dev user in a dev guild needs the other flag, and everyone else is refused |
| `DevCommands.DevUserInDevGuildRefused` | packages/reciple-dev-commands/src/classes/RecipleDevCommands.ts:118-125 | a dev user in a dev guild is refused whatever the flags |
| `DevCommands.FlagsMonotone` | packages/reciple-dev-commands/src/classes/RecipleDevCommands.ts:111-125 | turning a permission flag on never takes a permission away |
| `DevCommands.PreconditionIsDevCommand` | packages/reciple-dev-commands/src/classes/DevCommandPrecondition.ts:35-39 | true exactly when the command list has an entry with the builder's name and command type |
| `DevCommands.PreconditionAgrees` | packages/reciple-dev-commands/src/classes/DevCommandPrecondition.ts:38 | the precondition's test and the module's `isDevCommand` agree on the module's commands |
| `DevCommands.PreconditionHook` | packages/reciple-dev-commands/src/classes/DevCommandPrecondition.ts:17-33 | each of the three hooks, given an execution of its own command type, allows the command whether or not it is a dev command |
| `DevCommands.WiredPreconditionOptions` | packages/reciple-dev-commands/src/classes/RecipleDevCommands.ts:33 | the options built for the precondition carry no `devCommandManager` |
| `DevCommands.HookAsWritten` | packages/reciple-dev-commands/src/classes/DevCommandPrecondition.ts:11-39 | without a stored manager every hook throws a `TypeError`; with one it allows the command |
| `DevCommands.WiredHooksThrow` | packages/reciple-dev-commands/src/classes/DevCommandPrecondition.ts:4-15 | as the module wires its precondition, every hook throws |
| `DevCommands.IntendedPreconditionOptions` | packages/reciple-dev-commands/src/classes/DevCommandPrecondition.ts:4-6 | the options carry the module itself as `devCommandManager` |
| `DevCommands.IntendedHooksAllow` | packages/reciple-dev-commands/src/classes/DevCommandPrecondition.ts:13-33 | with the manager stored, every hook returns normally and allows the command |
| `Listeners.Ordinal` | packages/reciple-interaction-events/src/types/listeners.ts:3-10 | every listener type has a numeric value below six |
| `Listeners.FromOrdinal` | packages/reciple-interaction-events/src/types/listeners.ts:4-9 | the values 0 to 5, and only those, name a type, and that type has the value |
| `Listeners.OrdinalRoundTrip` | packages/reciple-interaction-events/src/types/listeners.ts:3 | there are exactly six types, numbered without gaps |
| `Listeners.TypeName` | packages/reciple-interaction-events/src/classes/RecipleInteractionEvents.ts:137 | the enum's reverse mapping gives a non-empty name |
| `Listeners.TypeNameInjective` | packages/reciple-interaction-events/src/classes/InteractionEventManager.ts:123 | distinct types have distinct names |
| `Listeners.TypesPartition` | packages/reciple-interaction-events/src/classes/RecipleInteractionEvents.ts:187-193 | every type is exactly one of command or component |
| `Listeners.CommandNameOf` | packages/reciple-interaction-events/src/types/listeners.ts:55 | command and autocomplete interactions, and only those, have a command name |
| `Listeners.CustomIdOf` | packages/reciple-interaction-events/src/types/listeners.ts:56 | component and modal interactions, and only those, have a custom id |
| `Listeners.Classify` | packages/reciple-interaction-events/src/classes/RecipleInteractionEvents.ts:151-167 | a type found is one whose guard accepts the interaction; an error, with the message `Unknown interaction type`, only when no guard accepts |
| `Listeners.GuardsExclusive` | packages/reciple-interaction-events/src/classes/InteractionEventManager.ts:130-146 | at most one guard accepts an interaction, so the order of the tests never decides |
| `Listeners.ClassifyIff` | packages/reciple-interaction-events/src/classes/RecipleInteractionEvents.ts:152-163 | classification gives a type exactly when that type's guard accepts |
| `Listeners.UnclassifiedKinds` | packages/reciple-interaction-events/src/classes/RecipleInteractionEvents.ts:164-166 | ping interactions and primary-entry-point commands are rejected |
| `Listeners.MatchIdentifier` | packages/reciple-interaction-events/src/classes/RecipleInteractionEvents.ts:169-185 | absent or empty matches everything, a string must equal the identifier, a test decides by its result |
| `Listeners.TextIsEqualityTest` | packages/reciple-interaction-events/src/classes/InteractionEventManager.ts:148-164 | a non-empty string matcher behaves as the test that the identifier equals it |
| `Listeners.IdentifierMatches` | packages/reciple-interaction-events/src/classes/RecipleInteractionEvents.ts:71-75 | command listeners are matched on `commandName`, component listeners on `customId` |
| `Listeners.IdentifierIgnoresOtherField` | packages/reciple-interaction-events/src/types/listeners.ts:19-25 | a listener's match never depends on the identifier its type excludes |
| `InteractionEvents.ResolveHalt` | packages/reciple-interaction-events/src/classes/RecipleInteractionEvents.ts:144-149 | the newer class takes a boolean halt result as the answer and otherwise asks `defaultHalt` (nothing handled without one); the older awaits the listener's hook and takes its truthiness |
| `InteractionEvents.AsyncHaltDefersToDefault` | packages/reciple-interaction-events/src/classes/RecipleInteractionEvents.ts:145-148 | a halt hook returning a promise of true is unhandled in the newer class without `defaultHalt`, but handled in the older |
| `InteractionEvents.PoliciesAgreeOnBooleanHalts` | packages/reciple-interaction-events/src/classes/InteractionEventManager.ts:112-119 | without `defaultHalt`, the two classes resolve halts alike when the hook is absent or returns a boolean |
| `InteractionEvents.HaltActions` | packages/reciple-interaction-events/src/classes/RecipleInteractionEvents.ts:144-149 | only halt-hook calls are recorded; the listener's hook is called exactly when it has one, `defaultHalt` exactly when the newer class defers to it |
| `InteractionEvents.CooldownName` | packages/reciple-interaction-events/src/classes/RecipleInteractionEvents.ts:103 | the key starts with `interaction-event ` |
| `InteractionEvents.CooldownNameSeparatesCustomIds` | packages/reciple-interaction-events/src/classes/RecipleInteractionEvents.ts:102-106 | component interactions share a key exactly when their custom ids are equal |
| `InteractionEvents.CooldownKeySharedAcrossKinds` | packages/reciple-interaction-events/src/classes/InteractionEventManager.ts:87 | a command named like a component's custom id has the same key |
| `InteractionEvents.FindCooldown` | packages/reciple-interaction-events/src/classes/RecipleInteractionEvents.ts:107 | a cooldown found is stored and active for this key, guild and user; none exactly when no stored one is |
| `InteractionEvents.Step` | packages/reciple-interaction-events/src/classes/RecipleInteractionEvents.ts:66-139 | a listener of another type or not matching does nothing; it executes exactly when no gate blocks it; without executing the cooldowns are unchanged; executing with a cooldown appends one ending `cooldown` ms later; a blocked listener calls the halt hooks with the gate's reason when `listener.halt` is set and does nothing else; an executed listener records the cooldown it creates, then the execution, then on a throw the halt hooks with the error reason and an error raised, with the type name, exactly when the halt did not handle it |
| `InteractionEvents.Blocked` | packages/reciple-interaction-events/src/classes/RecipleInteractionEvents.ts:77-116 | the member-permission gate is tested first, the bot-permission gate next and the cooldown gate last, so a reason is reported only when every earlier gate passes; the permission gates apply only in a cached guild channel, the cooldown gate only for a listener with a cooldown and a cooldown store; nothing blocks exactly when every applicable gate passes, and a listener without requirements or cooldown is never blocked |
| `InteractionEvents.CooldownGateSkips` | packages/reciple-interaction-events/src/classes/RecipleInteractionEvents.ts:107-116 | an active cooldown stops execution and creates no cooldown |
| `InteractionEvents.CooldownCreatedBlocksRerun` | packages/reciple-interaction-events/src/classes/RecipleInteractionEvents.ts:118-121 | a positive cooldown created by a run blocks the same interaction at the same instant |
| `InteractionEvents.Slots` | packages/reciple-interaction-events/src/classes/RecipleInteractionEvents.ts:61-66 | the listeners of all modules, each position naming its own module and index, in strictly increasing position order |
| `InteractionEvents.SlotsCover` | packages/reciple-interaction-events/src/classes/RecipleInteractionEvents.ts:61-66 | every listener of every module has a position in the loop |
| `InteractionEvents.Run` | packages/reciple-interaction-events/src/classes/RecipleInteractionEvents.ts:61-141 | every event comes from a listener of the classified type; a cooldown store stays present or absent |
| `InteractionEvents.RunExecutedAround` | packages/reciple-interaction-events/src/classes/RecipleInteractionEvents.ts:61-139 | a listener executes exactly when its own visit, on the cooldowns the listeners before it left, executes it, whatever listeners come after it |
| `InteractionEvents.RunExecutes` | packages/reciple-interaction-events/src/classes/RecipleInteractionEvents.ts:66-125 | the listener at each position executes exactly when it has the classified type, its identifier matches and no permission or cooldown gate stops it on the cooldowns the earlier listeners left |
| `InteractionEvents.RunOrdered` | packages/reciple-interaction-events/src/classes/RecipleInteractionEvents.ts:61-68 | events come out by module, then by listener index |
| `InteractionEvents.RunIgnoresOtherTypes` | packages/reciple-interaction-events/src/classes/InteractionEventManager.ts:48-50 | with no listener of the classified type nothing happens and the cooldowns stay |
| `InteractionEvents.Emit` | packages/reciple-interaction-events/src/classes/RecipleInteractionEvents.ts:56-142 | an unknown interaction fails with `Unknown interaction type` before any listener runs; otherwise every event names a listener that exists and has the classified type |
| `InteractionEvents.EmitExecutes` | packages/reciple-interaction-events/src/classes/InteractionEventManager.ts:39-124 | in an emit, each listener executes exactly when it has the interaction's type, its identifier matches and no gate stops it on the cooldowns the listeners before it left |
| `InteractionEvents.EmitOrdered` | packages/reciple-interaction-events/src/classes/InteractionEventManager.ts:39-50 | an emit's events follow module order, then listener order |
| `InteractionEvents.EmitWithoutMatchingType` | packages/reciple-interaction-events/src/classes/RecipleInteractionEvents.ts:68 | when no module has a listener of the interaction's type, emitting does nothing |
| `Anticrash.AnticrashChannels` | packages/reciple-anticrash/src/classes/RecipleAnticrash.ts:21-22 | absent input gives no channels; otherwise exactly `KeepIds` of the entries: the non-empty ids, in order, repeats kept |
| `Anticrash.CrashHandlerChannels` | packages/reciple-anticrash/src/classes/RecipleCrashHandler.ts:13-14 | the given list unchanged, or no channels |
| `Anticrash.ChannelListsAgree` | packages/reciple-anticrash/src/classes/RecipleCrashHandler.ts:14 | on non-empty plain ids both constructors give the same list |
| `Anticrash.Utf16Length` | packages/reciple-anticrash/src/classes/RecipleAnticrash.ts:89 | between one and two units per character, one each when none is above U+FFFF |
| `Anticrash.CodeBlock` | packages/reciple-anticrash/src/classes/RecipleAnticrash.ts:90 | the fence adds eight characters |
| `Anticrash.CodeBlockRoundTrip` | packages/reciple-anticrash/src/classes/RecipleCrashHandler.ts:82 | the text inside a code block is recovered unchanged |
| `Anticrash.CreateReportMessageOptions` | packages/reciple-anticrash/src/classes/RecipleAnticrash.ts:78-96 | one embed with the fixed author, colour and timestamp and the title cut to 100; a stack under 1950 units becomes the escaped code-block description with no files, a longer one a single `report.log` attachment with no description |
| `Anticrash.StackText` | packages/reciple-anticrash/src/classes/RecipleAnticrash.ts:85 | the newer class strips control sequences from the inspected text; the older class (RecipleCrashHandler.ts:77) keeps it raw |
| `Anticrash.VariantsAgreeWithoutControls` | packages/reciple-anticrash/src/classes/RecipleAnticrash.ts:85 | the two classes' stack texts agree exactly when stripping changes nothing, and then both build the same report |
| `Anticrash.StackCarriedOnce` | packages/reciple-anticrash/src/classes/RecipleCrashHandler.ts:70-88 | the stack travels either as description or as attachment, never both, and can be read back from either |
| `Anticrash.TextChannelFromId` | packages/reciple-anticrash/src/classes/RecipleAnticrash.ts:98-109 | a found channel is used only when text based; with no channel the newer class takes the user's DM channel and the older gives none |
| `Anticrash.AnticrashResolvesMore` | packages/reciple-anticrash/src/classes/RecipleCrashHandler.ts:90-93 | whatever the older class resolves, the newer resolves the same; they differ only when no channel has the id |
| `Anticrash.Attempts` | packages/reciple-anticrash/src/classes/RecipleAnticrash.ts:65-70 | one outcome per channel id: a message only when the channel resolves and the send succeeds |
| `Anticrash.Somes` | packages/reciple-anticrash/src/classes/RecipleAnticrash.ts:67-72 | only present values are kept, never more than there were outcomes, all of them when all are present |
| `Anticrash.SentMessages` | packages/reciple-anticrash/src/classes/RecipleCrashHandler.ts:57-65 | never more messages than channels, each the successful send of the same options to a resolved channel |
| `Anticrash.AllDelivered` | packages/reciple-anticrash/src/classes/RecipleCrashHandler.ts:51-68 | when every channel resolves and accepts, one message per channel comes back in channel order |
| `Anticrash.SentSnoc` | packages/reciple-anticrash/src/classes/RecipleAnticrash.ts:65-73 | one more channel appends its message, if any, at the end |
| `Anticrash.SkipsFailedChannel` | packages/reciple-anticrash/src/classes/RecipleAnticrash.ts:66-70 | a channel that does not resolve or refuses the send is skipped without affecting the others |
| `Anticrash.Report` | packages/reciple-anticrash/src/classes/RecipleAnticrash.ts:59-76 | builds the options once and returns exactly the messages of the reference definition for the channel list, at most one per channel |
| `Anticrash.SendToEach` | packages/reciple-anticrash/src/classes/RecipleAnticrash.ts:65-73 | the loop returns exactly the messages of the reference definition: one per channel that resolves and accepts, in channel order |

## Left out

- File and network I/O. Cache reads and writes are a map update, and `mkdir` is not modelled. In `RegistryCacheManager.ts:117-120` the writes are not awaited; the model writes immediately.
- `onStart` of `RecipleRegistryCache` moves the cache folder to the CLI's working directory when the `reciple` package imports. That is a dynamic import of another package.
- The random file name used when the client has no user. The client is typed as logged in, so the case does not arise.
- How the registry cache finds the dev-commands module. The dev guilds, and the module found, are parameters.
- The guild registration loop with `setInterval` in `DevCommandManager.ts:119-158`. It is timer plumbing.
- `getCommand` message parsing. The parsed name is a parameter.
- The `execute` calls of dev command builders and the `commandExecute` event.
- Event subscription in `onLoad`/`onUnload`, the decorators in `eventModule.ts`, logging, and the anticrash process listeners.
- `InteractionEventListenerError` is an action naming the listener type. Whether `_throwError` rethrows, which would end the loop, is not modelled: the loop goes on.
- Only a listener's `execute` can throw in the model. Throwing matcher tests, channel fetches, permission checks and halt hooks are left out.
- Halt data other than the reason is left out: the missing permissions, the cooldown and the error.
- `isJSONEncodable`/`toJSON` conversion of listeners. Listeners are given as plain records.
- Permission checks. A requirement is the resolved bit field, and the member and bot checks are function inputs.
- The client's cooldown manager is not part of this model. A stored cooldown is taken to block when its key, guild and user are equal to the interaction's and it has not ended.
- MD5, `util.inspect`, `JSON.stringify`/`JSON.parse`, `stripVTControlCharacters`, `limitString` and `escapeCodeBlock` are opaque functions.
- The UTF-8 bytes of the `report.log` attachment. The attachment holds the text.
- ISO-8601 date formatting and parsing. A record's date is an instant in ms, or none when it does not parse. One `now` serves a whole check.
- `path.join` normalisation. Paths are (folder, file name) pairs.
- InteractionEvents.Run: one clock reading `env.now` serves every listener visit of an emit, and so also `RunExecutes` and `EmitExecutes`. The source reads the clock again at each listener (`findCooldown` and `Date.now()` at RecipleInteractionEvents.ts:107 and :120), after awaiting the earlier listeners' `execute`. So a cooldown an earlier listener creates can run out before a later listener with the same key is checked. The model keeps that cooldown active, and the later listener is blocked.
- `Listeners.TypeName`: states only that the name is non-empty. `Listeners.TypeNameInjective` states that the names tell the types apart.

## Findings

| source | as written | input that shows it | evidently intended | confidence | as-written member | corrected member |
|---|---|---|---|---|---|---|
| packages/reciple-dev-commands/src/classes/RecipleDevCommands.ts:33 | the precondition is built with `{ manager: this }`, but `DevCommandPrecondition.ts:4-15` reads `options.devCommandManager`, so the stored manager is undefined and every hook's `isDevCommand` reads `commands` of undefined | any slash, context-menu or message command reaching the precondition | pass `{ devCommandManager: this }`, so that every hook sees the dev command list and allows the command | high (not executed) | `DevCommands.WiredHooksThrow` | `DevCommands.IntendedHooksAllow` |
