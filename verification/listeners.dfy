/** The listener types of the interaction-events package, the interaction kinds
    discord.js distinguishes, classification of an interaction into a listener
    type, and matching of a listener's `commandName` or `customId`. */
module Listeners {
  import opened Wrappers

  /** `InteractionListenerType`, in declaration order. */
  datatype ListenerType = Autocomplete | ContextMenu | ChatInput | Button | ModalSubmit | SelectMenu

  /** The enum's numeric value: members are numbered from 0 in declaration order. */
  function Ordinal(t: ListenerType): (n: nat)
    ensures n < 6
  {
    match t
    case Autocomplete => 0
    case ContextMenu => 1
    case ChatInput => 2
    case Button => 3
    case ModalSubmit => 4
    case SelectMenu => 5
  }

  /** The enum member with a given numeric value, if any. */
  function FromOrdinal(n: nat): (t: Option<ListenerType>)
    ensures t.Some? <==> n < 6
    ensures t.Some? ==> Ordinal(t.value) == n
  {
    if n == 0 then Some(Autocomplete)
    else if n == 1 then Some(ContextMenu)
    else if n == 2 then Some(ChatInput)
    else if n == 3 then Some(Button)
    else if n == 4 then Some(ModalSubmit)
    else if n == 5 then Some(SelectMenu)
    else None
  }

  /** There are exactly six listener types, numbered 0 to 5 without gaps. */
  lemma OrdinalRoundTrip(t: ListenerType)
    ensures FromOrdinal(Ordinal(t)) == Some(t)
  {
  }

  /** The enum's reverse mapping, `InteractionListenerType[type]`. */
  function TypeName(t: ListenerType): (s: string)
    ensures |s| > 0
  {
    match t
    case Autocomplete => "Autocomplete"
    case ContextMenu => "ContextMenu"
    case ChatInput => "ChatInput"
    case Button => "Button"
    case ModalSubmit => "ModalSubmit"
    case SelectMenu => "SelectMenu"
  }

  /** Distinct types have distinct names, so the name in a listener error
      identifies the type. */
  lemma TypeNameInjective(a: ListenerType, b: ListenerType)
    ensures TypeName(a) == TypeName(b) <==> a == b
  {
    if TypeName(a) == TypeName(b) {
      assert TypeName(a)[0] == TypeName(b)[0];
      assert |TypeName(a)| == |TypeName(b)|;
    }
  }

  /** `isAnyCommandInteractionListener`, by type. */
  predicate IsCommandType(t: ListenerType)
  {
    t == Autocomplete || t == ChatInput || t == ContextMenu
  }

  /** `isAnyComponentInteractionListener`, by type. */
  predicate IsComponentType(t: ListenerType)
  {
    t == Button || t == ModalSubmit || t == SelectMenu
  }

  /** Every listener type is exactly one of command or component. */
  lemma TypesPartition(t: ListenerType)
    ensures IsCommandType(t) != IsComponentType(t)
  {
  }

  /** The application command types an application-command interaction carries. */
  datatype AppCommandType = ChatInputCommand | UserCommand | MessageCommand | PrimaryEntryPointCommand

  /** The component types a message-component interaction carries. */
  datatype ComponentType =
    | ButtonComponent
    | StringSelect | UserSelect | RoleSelect | MentionableSelect | ChannelSelect
    | OtherComponent

  /** An interaction's kind, with the identifier the kind carries. */
  datatype Kind =
    | PingKind
    | CommandKind(commandType: AppCommandType, commandName: string)
    | AutocompleteKind(commandName: string)
    | ComponentKind(componentType: ComponentType, customId: string)
    | ModalSubmitKind(customId: string)

  /** An interaction, reduced to what the listener routing reads. */
  datatype Interaction = Interaction(kind: Kind, guildId: Option<string>, userId: string)

  /** `interaction.commandName`, absent on kinds that have none. */
  function CommandNameOf(i: Interaction): (r: Option<string>)
    ensures r.Some? <==> i.kind.CommandKind? || i.kind.AutocompleteKind?
  {
    match i.kind
    case CommandKind(_, n) => Some(n)
    case AutocompleteKind(n) => Some(n)
    case _ => None
  }

  /** `interaction.customId`; present exactly when `'customId' in interaction`. */
  function CustomIdOf(i: Interaction): (r: Option<string>)
    ensures r.Some? <==> i.kind.ComponentKind? || i.kind.ModalSubmitKind?
  {
    match i.kind
    case ComponentKind(_, c) => Some(c)
    case ModalSubmitKind(c) => Some(c)
    case _ => None
  }

  /** Whether a select-menu component type. */
  predicate IsSelectMenu(c: ComponentType)
  {
    c == StringSelect || c == UserSelect || c == RoleSelect || c == MentionableSelect || c == ChannelSelect
  }

  /** The discord.js type guard that corresponds to each listener type
      (`isAutocomplete`, `isContextMenuCommand`, `isChatInputCommand`,
      `isButton`, `isModalSubmit`, `isAnySelectMenu`). */
  predicate Holds(t: ListenerType, i: Interaction)
  {
    match t
    case Autocomplete => i.kind.AutocompleteKind?
    case ChatInput => i.kind.CommandKind? && i.kind.commandType == ChatInputCommand
    case ContextMenu => i.kind.CommandKind? && (i.kind.commandType == UserCommand || i.kind.commandType == MessageCommand)
    case Button => i.kind.ComponentKind? && i.kind.componentType == ButtonComponent
    case ModalSubmit => i.kind.ModalSubmitKind?
    case SelectMenu => i.kind.ComponentKind? && IsSelectMenu(i.kind.componentType)
  }

  /** The message of the error thrown for an interaction no listener type covers. */
  const UnknownInteractionType := "Unknown interaction type"

  /** `getInteractionListenerType`: the guards are tried in the order autocomplete,
      chat input, context menu, button, modal submit, select menu; an interaction
      none of them accepts is an error. */
  function Classify(i: Interaction): (r: Result<ListenerType, string>)
    ensures r.Ok? ==> Holds(r.value, i)
    ensures r.Err? ==> r.error == UnknownInteractionType && forall t :: !Holds(t, i)
  {
    if Holds(Autocomplete, i) then Ok(Autocomplete)
    else if Holds(ChatInput, i) then Ok(ChatInput)
    else if Holds(ContextMenu, i) then Ok(ContextMenu)
    else if Holds(Button, i) then Ok(Button)
    else if Holds(ModalSubmit, i) then Ok(ModalSubmit)
    else if Holds(SelectMenu, i) then Ok(SelectMenu)
    else
      NoGuardHolds(i);
      Err(UnknownInteractionType)
  }

  /** When none of the six guards accepts, no listener type fits. */
  lemma NoGuardHolds(i: Interaction)
    requires !Holds(Autocomplete, i) && !Holds(ChatInput, i) && !Holds(ContextMenu, i)
    requires !Holds(Button, i) && !Holds(ModalSubmit, i) && !Holds(SelectMenu, i)
    ensures forall t :: !Holds(t, i)
  {
    forall t ensures !Holds(t, i) {
      match t
      case Autocomplete =>
      case ChatInput =>
      case ContextMenu =>
      case Button =>
      case ModalSubmit =>
      case SelectMenu =>
    }
  }

  /** At most one guard accepts an interaction, so the order of the tests
      never decides between two types. */
  lemma GuardsExclusive(i: Interaction, a: ListenerType, b: ListenerType)
    requires Holds(a, i) && Holds(b, i)
    ensures a == b
  {
  }

  /** Classification gives a type exactly when that type's guard accepts. */
  lemma ClassifyIff(i: Interaction, t: ListenerType)
    ensures Classify(i) == Ok(t) <==> Holds(t, i)
  {
    if Holds(t, i) {
      GuardsExclusive(i, Classify(i).value, t);
    }
  }

  /** Ping interactions and primary-entry-point commands fit no listener type. */
  lemma UnclassifiedKinds(i: Interaction)
    requires i.kind.PingKind? || (i.kind.CommandKind? && i.kind.commandType == PrimaryEntryPointCommand)
    ensures Classify(i) == Err(UnknownInteractionType)
  {
  }

  /** A listener's `commandName` or `customId`: absent, a string, or a test of
      the interaction. */
  datatype Matcher = Unset | Text(text: string) | Test(test: Interaction -> bool)

  /** `isCommandNameMatch`/`isCustomIdMatch` (and the older `satisfies*`), with
      `id` the interaction's identifier: an absent or empty (falsy) matcher
      accepts everything, a string must equal the identifier, and a test decides
      by its own result. */
  function MatchIdentifier(m: Matcher, id: Option<string>, i: Interaction): (r: bool)
    ensures m.Unset? ==> r
    ensures m.Text? && m.text == "" ==> r
    ensures m.Text? && m.text != "" ==> (r <==> id == Some(m.text))
    ensures m.Test? ==> r == m.test(i)
  {
    match m
    case Unset => true
    case Text(s) => if s == "" then true else id == Some(s)
    case Test(f) => f(i)
  }

  /** Matching a command listener's `commandName`. */
  function CommandNameMatches(m: Matcher, i: Interaction): bool
  {
    MatchIdentifier(m, CommandNameOf(i), i)
  }

  /** Matching a component listener's `customId`. */
  function CustomIdMatches(m: Matcher, i: Interaction): bool
  {
    MatchIdentifier(m, CustomIdOf(i), i)
  }

  /** A non-empty string matcher behaves as the test "the identifier equals it". */
  lemma TextIsEqualityTest(s: string, i: Interaction)
    requires s != ""
    ensures CommandNameMatches(Text(s), i) == CommandNameMatches(Test(j => CommandNameOf(j) == Some(s)), i)
    ensures CustomIdMatches(Text(s), i) == CustomIdMatches(Test(j => CustomIdOf(j) == Some(s)), i)
  {
  }

  /** What a halt hook is told. */
  datatype HaltReason = ErrorReason | CooldownReason | MissingBotPermissions | MissingMemberPermissions

  /** What a halt hook returns: a boolean, some other plain value, or a promise;
      the flag is the truthiness of the value (of the settled value for a promise). */
  datatype HaltValue = Boolean(b: bool) | Plain(truthy: bool) | Promised(settledTruthy: bool)

  /** An interaction listener. The permission requirements are the resolved
      permission bit fields, and `fails` says whether `execute` throws for an
      interaction. */
  datatype Listener = Listener(
    listenerType: ListenerType,
    commandName: Matcher,
    customId: Matcher,
    requiredMemberPermissions: Option<nat>,
    requiredBotPermissions: Option<nat>,
    cooldown: Option<int>,
    halt: Option<HaltReason -> HaltValue>,
    fails: Interaction -> bool)

  /** The identifier test the emit loop applies to a listener: `commandName`
      for command listeners, `customId` for component listeners. */
  function IdentifierMatches(l: Listener, i: Interaction): (r: bool)
    ensures IsCommandType(l.listenerType) ==> r == CommandNameMatches(l.commandName, i)
    ensures IsComponentType(l.listenerType) ==> r == CustomIdMatches(l.customId, i)
  {
    TypesPartition(l.listenerType);
    if IsCommandType(l.listenerType) then CommandNameMatches(l.commandName, i)
    else CustomIdMatches(l.customId, i)
  }

  /** The identifier test reads only the identifier that the listener's type
      allows: the other field is never consulted. */
  lemma IdentifierIgnoresOtherField(l: Listener, i: Interaction, m: Matcher)
    ensures IsCommandType(l.listenerType) ==> IdentifierMatches(l.(customId := m), i) == IdentifierMatches(l, i)
    ensures IsComponentType(l.listenerType) ==> IdentifierMatches(l.(commandName := m), i) == IdentifierMatches(l, i)
  {
  }
}
