/** The crash reporters: `RecipleAnticrash` (the newer class) and
    `RecipleCrashHandler` (the older one). Both turn an error into one message
    and send it to every report channel that resolves. */
module Anticrash {
  import opened Wrappers
  import opened Ids

  /** Which class reports. */
  datatype Variant = AnticrashClass | CrashHandlerClass

  /** The newer constructor: the ids of the given entries, empty ids dropped,
      order kept; nothing given means no channels. */
  function AnticrashChannels(entries: Option<seq<IdEntry>>): (r: seq<string>)
    ensures entries.None? ==> r == []
    ensures forall k :: 0 <= k < |r| ==> r[k] != ""
    ensures entries.Some? ==> forall x :: x in r <==> x != "" && x in IdsOf(entries.value)
    ensures entries.Some? ==> r == KeepIds(entries.value)
  {
    NormalizeIds(entries)
  }

  /** The older constructor: the given list as it is, or no channels. */
  function CrashHandlerChannels(channels: Option<seq<string>>): (r: seq<string>)
    ensures channels.Some? ==> r == channels.value
    ensures channels.None? ==> r == []
  {
    channels.OrElse([])
  }

  /** On a list of non-empty plain ids the two constructors agree; they differ
      only in dropping empty ids and accepting `{ id }` entries. */
  lemma ChannelListsAgree(ids: seq<string>)
    requires forall k :: 0 <= k < |ids| ==> ids[k] != ""
    ensures AnticrashChannels(Some(seq(|ids|, k requires 0 <= k < |ids| => Bare(ids[k]))))
            == CrashHandlerChannels(Some(ids))
  {
    var entries := seq(|ids|, k requires 0 <= k < |ids| => Bare(ids[k]));
    KeepIdsNoneEmpty(entries);
    assert IdsOf(entries) == ids;
  }

  /** The length of a JS string, in UTF-16 code units: a character above
      U+FFFF takes two. */
  function Utf16Length(s: string): (n: nat)
    ensures |s| <= n <= 2 * |s|
    ensures (forall k :: 0 <= k < |s| ==> s[k] as int <= 0xFFFF) ==> n == |s|
  {
    if s == [] then 0
    else (if s[0] as int > 0xFFFF then 2 else 1) + Utf16Length(s[1..])
  }

  /** Stacks shorter than this many code units go into the embed. */
  const DescriptionLimit := 1950
  /** The file name of the attachment that carries a long stack. */
  const ReportFileName := "report.log"
  /** The embed title is `String(reason)` cut to this many characters. */
  const TitleLimit := 100

  /** discord.js `codeBlock` with one argument: the text between fence lines. */
  function CodeBlock(s: string): (r: string)
    ensures |r| == |s| + 8
  {
    "```\n" + s + "\n```"
  }

  /** Recovers the text of a code block. */
  function UnwrapCodeBlock(r: string): Option<string>
  {
    if |r| >= 8 && r[..4] == "```\n" && r[|r| - 4..] == "\n```" then Some(r[4..|r| - 4]) else None
  }

  /** The fence adds nothing that cannot be taken off again. */
  lemma CodeBlockRoundTrip(s: string)
    ensures UnwrapCodeBlock(CodeBlock(s)) == Some(s)
  {
    var r := CodeBlock(s);
    assert r[..4] == "```\n";
    assert r[|r| - 4..] == "\n```";
    assert r[4..|r| - 4] == s;
  }

  /** The report embed. */
  datatype Embed = Embed(author: string, title: string, color: string, timestamped: bool, description: Option<string>)

  /** An attachment: the text it carries and its file name. */
  datatype Attachment = Attachment(text: string, name: string)

  /** The message options a report sends. */
  datatype MessageOptions = MessageOptions(embeds: seq<Embed>, files: seq<Attachment>)

  /** The foreign formatting helpers: `String(reason)`, `util.inspect(reason)`,
      `stripVTControlCharacters`, `limitString` and `escapeCodeBlock`. */
  datatype Formatting = Formatting(
    stringOf: string,
    inspected: string,
    stripControls: string -> string,
    limit: (string, nat) -> string,
    escape: string -> string)

  /** The stack text the report carries: control sequences stripped in the newer
      class, the raw `inspect` output in the older one. */
  function StackText(variant: Variant, fmt: Formatting): (r: string)
    ensures variant == CrashHandlerClass ==> r == fmt.inspected
    ensures variant == AnticrashClass ==> r == fmt.stripControls(fmt.inspected)
  {
    if variant == AnticrashClass then fmt.stripControls(fmt.inspected) else fmt.inspected
  }

  /** When the inspected text has no control sequences to strip, the two
      classes build the same report; the classes differ only in the stack text. */
  lemma VariantsAgreeWithoutControls(fmt: Formatting)
    ensures fmt.stripControls(fmt.inspected) == fmt.inspected ==>
      CreateReportMessageOptions(AnticrashClass, fmt) == CreateReportMessageOptions(CrashHandlerClass, fmt)
    ensures StackText(AnticrashClass, fmt) == StackText(CrashHandlerClass, fmt) <==>
      fmt.stripControls(fmt.inspected) == fmt.inspected
  {
  }

  /** `createReportMessageOptions`: one embed; a stack under 1950 code units
      becomes the embed description as an escaped code block, a longer one
      becomes a single `report.log` attachment and the embed has no description. */
  function CreateReportMessageOptions(variant: Variant, fmt: Formatting): (o: MessageOptions)
    ensures |o.embeds| == 1
    ensures o.embeds[0].author == "Anticrash report" && o.embeds[0].color == "Red" && o.embeds[0].timestamped
    ensures o.embeds[0].title == fmt.limit(fmt.stringOf, TitleLimit)
    ensures Utf16Length(StackText(variant, fmt)) < DescriptionLimit ==>
      o.files == [] && o.embeds[0].description == Some(CodeBlock(fmt.escape(StackText(variant, fmt))))
    ensures Utf16Length(StackText(variant, fmt)) >= DescriptionLimit ==>
      o.files == [Attachment(StackText(variant, fmt), ReportFileName)] && o.embeds[0].description.None?
  {
    var stack := StackText(variant, fmt);
    var base := Embed("Anticrash report", fmt.limit(fmt.stringOf, TitleLimit), "Red", true, None);
    if Utf16Length(stack) < DescriptionLimit then
      MessageOptions([base.(description := Some(CodeBlock(fmt.escape(stack))))], [])
    else
      MessageOptions([base], [Attachment(stack, ReportFileName)])
  }

  /** The stack travels exactly one way, and can be read back from it: from the
      attachment as is, or from the description once the fence is removed (up to
      escaping). */
  lemma StackCarriedOnce(variant: Variant, fmt: Formatting)
    ensures var o := CreateReportMessageOptions(variant, fmt);
      && (o.embeds[0].description.Some? <==> o.files == [])
      && (o.files != [] ==> o.files[0].text == StackText(variant, fmt))
      && (o.embeds[0].description.Some? ==>
            UnwrapCodeBlock(o.embeds[0].description.value) == Some(fmt.escape(StackText(variant, fmt))))
  {
    CodeBlockRoundTrip(fmt.escape(StackText(variant, fmt)));
  }

  /** A channel as the client returns it. */
  datatype Channel = Channel(id: string, textBased: bool)

  /** A user, with the DM channel the client has cached for them, if any. */
  datatype User = User(id: string, dmChannel: Option<Channel>)

  /** The client's lookups; `None` when not cached or when a fetch fails. */
  datatype Lookups = Lookups(
    cachedChannel: string -> Option<Channel>,
    fetchChannel: string -> Option<Channel>,
    cachedUser: string -> Option<User>,
    fetchUser: string -> Option<User>)

  /** The channel cache, then a fetch. */
  function FindChannel(lk: Lookups, id: string): Option<Channel>
  {
    if lk.cachedChannel(id).Some? then lk.cachedChannel(id) else lk.fetchChannel(id)
  }

  /** The user cache, then a fetch. */
  function FindUser(lk: Lookups, id: string): Option<User>
  {
    if lk.cachedUser(id).Some? then lk.cachedUser(id) else lk.fetchUser(id)
  }

  /** `getTextChannelFromId`. A found channel is used only when text based.
      Only the newer class, when no channel has the id, tries a user with that
      id and takes that user's DM channel. */
  function TextChannelFromId(variant: Variant, lk: Lookups, id: string): (r: Option<Channel>)
    ensures FindChannel(lk, id).Some? ==>
      (if FindChannel(lk, id).value.textBased then r == FindChannel(lk, id) else r.None?)
    ensures FindChannel(lk, id).None? && variant == CrashHandlerClass ==> r.None?
    ensures FindChannel(lk, id).None? && variant == AnticrashClass ==>
      r == (if FindUser(lk, id).Some? then FindUser(lk, id).value.dmChannel else None)
  {
    var channel := FindChannel(lk, id);
    if channel.Some? then (if channel.value.textBased then channel else None)
    else if variant == CrashHandlerClass then None
    else
      var user := FindUser(lk, id);
      if user.Some? then user.value.dmChannel else None
  }

  /** Every channel the older class resolves, the newer resolves the same way;
      the newer class differs only by its DM fallback. */
  lemma AnticrashResolvesMore(lk: Lookups, id: string)
    ensures TextChannelFromId(CrashHandlerClass, lk, id).Some? ==>
      TextChannelFromId(AnticrashClass, lk, id) == TextChannelFromId(CrashHandlerClass, lk, id)
    ensures FindChannel(lk, id).Some? ==>
      TextChannelFromId(AnticrashClass, lk, id) == TextChannelFromId(CrashHandlerClass, lk, id)
  {
  }

  /** A message the client returns for a successful send. */
  datatype Message = Message(id: string, channelId: string)

  /** What trying each channel id gives, in order: the message when the
      channel resolves and the send succeeds, otherwise nothing. */
  function Attempts(ids: seq<string>, options: MessageOptions,
                    resolve: string -> Option<Channel>,
                    send: (Channel, MessageOptions) -> Option<Message>): (a: seq<Option<Message>>)
    ensures |a| == |ids|
    ensures forall k :: 0 <= k < |ids| ==>
      a[k] == (if resolve(ids[k]).Some? then send(resolve(ids[k]).value, options) else None)
  {
    seq(|ids|, k requires 0 <= k < |ids| =>
      if resolve(ids[k]).Some? then send(resolve(ids[k]).value, options) else None)
  }

  /** The present values of a sequence of options, in order. */
  function Somes<T>(xs: seq<Option<T>>): (r: seq<T>)
    ensures |r| <= |xs|
    ensures forall k :: 0 <= k < |r| ==> Some(r[k]) in xs
    ensures (forall k :: 0 <= k < |xs| ==> xs[k].Some?) ==> |r| == |xs|
    decreases |xs|
  {
    if xs == [] then []
    else
      var n := |xs| - 1;
      var prev := Somes(xs[..n]);
      assert forall k :: 0 <= k < n ==> xs[..n][k] == xs[k];
      assert forall x :: x in xs[..n] ==> x in xs;
      if xs[n].Some? then prev + [xs[n].value] else prev
  }

  /** `Somes` keeps every present value and only those, position by position. */
  lemma {:induction false} SomesAllPresent<T>(xs: seq<Option<T>>)
    requires forall k :: 0 <= k < |xs| ==> xs[k].Some?
    ensures forall k :: 0 <= k < |xs| ==> Somes(xs)[k] == xs[k].value
    decreases |xs|
  {
    if xs != [] {
      var n := |xs| - 1;
      assert forall k :: 0 <= k < n ==> xs[..n][k] == xs[k];
      SomesAllPresent(xs[..n]);
    }
  }

  /** `Somes` distributes over concatenation. */
  lemma {:induction false} SomesAppend<T>(a: seq<Option<T>>, b: seq<Option<T>>)
    ensures Somes(a + b) == Somes(a) + Somes(b)
    decreases |b|
  {
    if b == [] {
      assert a + b == a;
    } else {
      var n := |b| - 1;
      assert (a + b)[..|a| + n] == a + b[..n];
      SomesAppend(a, b[..n]);
    }
  }

  /** The messages a report ends with: for each channel id in order, the message
      sent there when the channel resolves and the send succeeds. */
  function SentMessages(ids: seq<string>, options: MessageOptions,
                        resolve: string -> Option<Channel>,
                        send: (Channel, MessageOptions) -> Option<Message>): (r: seq<Message>)
    ensures |r| <= |ids|
    ensures forall k :: 0 <= k < |r| ==>
      exists j :: 0 <= j < |ids| && resolve(ids[j]).Some? && send(resolve(ids[j]).value, options) == Some(r[k])
  {
    var a := Attempts(ids, options, resolve, send);
    var r := Somes(a);
    assert forall j :: 0 <= j < |a| && a[j].Some? ==>
      resolve(ids[j]).Some? && send(resolve(ids[j]).value, options) == a[j];
    assert forall k :: 0 <= k < |r| ==> exists j :: 0 <= j < |a| && a[j] == Some(r[k]);
    r
  }

  /** When every channel resolves and accepts, one message per channel comes
      back, in channel order. */
  lemma AllDelivered(ids: seq<string>, options: MessageOptions,
                     resolve: string -> Option<Channel>,
                     send: (Channel, MessageOptions) -> Option<Message>)
    requires forall k :: 0 <= k < |ids| ==> resolve(ids[k]).Some? && send(resolve(ids[k]).value, options).Some?
    ensures var r := SentMessages(ids, options, resolve, send);
      |r| == |ids| && forall k :: 0 <= k < |ids| ==> r[k] == send(resolve(ids[k]).value, options).value
  {
    SomesAllPresent(Attempts(ids, options, resolve, send));
  }

  /** Trying one more channel appends its message, if any. */
  lemma SentSnoc(ids: seq<string>, id: string, options: MessageOptions,
                 resolve: string -> Option<Channel>,
                 send: (Channel, MessageOptions) -> Option<Message>)
    ensures SentMessages(ids + [id], options, resolve, send)
            == SentMessages(ids, options, resolve, send)
               + (if resolve(id).Some? && send(resolve(id).value, options).Some?
                  then [send(resolve(id).value, options).value] else [])
  {
    var a := Attempts(ids, options, resolve, send);
    var m := Attempts([id], options, resolve, send);
    assert Attempts(ids + [id], options, resolve, send) == a + m;
    SomesAppend(a, m);
    assert m[..0] == [];
  }

  /** A channel that does not resolve, or refuses the send, is skipped without
      affecting the others. */
  lemma SkipsFailedChannel(before: seq<string>, id: string, after: seq<string>, options: MessageOptions,
                           resolve: string -> Option<Channel>,
                           send: (Channel, MessageOptions) -> Option<Message>)
    requires resolve(id).None? || send(resolve(id).value, options).None?
    ensures SentMessages(before + [id] + after, options, resolve, send)
            == SentMessages(before, options, resolve, send) + SentMessages(after, options, resolve, send)
  {
    var a := Attempts(before, options, resolve, send);
    var m := Attempts([id], options, resolve, send);
    var z := Attempts(after, options, resolve, send);
    assert Attempts(before + [id] + after, options, resolve, send) == a + m + z;
    SomesAppend(a + m, z);
    SomesAppend(a, m);
    assert m[..0] == [];
    assert Somes(m) == [];
  }

  /** `report`: build the options once, then try each report channel in order,
      keeping the messages that were sent. */
  method Report(variant: Variant, channels: seq<string>, fmt: Formatting, lk: Lookups,
                send: (Channel, MessageOptions) -> Option<Message>) returns (sent: seq<Message>)
    ensures sent == SentMessages(channels, CreateReportMessageOptions(variant, fmt),
                                 id => TextChannelFromId(variant, lk, id), send)
    ensures |sent| <= |channels|
  {
    var options := CreateReportMessageOptions(variant, fmt);
    sent := SendToEach(channels, options, id => TextChannelFromId(variant, lk, id), send);
  }

  /** The loop of `report`: each channel in order, skipping the ones that do
      not resolve and the sends that fail. */
  method SendToEach(channels: seq<string>, options: MessageOptions,
                    resolve: string -> Option<Channel>,
                    send: (Channel, MessageOptions) -> Option<Message>) returns (sent: seq<Message>)
    ensures sent == SentMessages(channels, options, resolve, send)
  {
    sent := [];
    var k := 0;
    while k < |channels|
      invariant 0 <= k <= |channels|
      invariant sent == SentMessages(channels[..k], options, resolve, send)
    {
      assert channels[..k + 1] == channels[..k] + [channels[k]];
      SentSnoc(channels[..k], channels[k], options, resolve, send);
      var channel := resolve(channels[k]);
      if channel.Some? {
        var message := send(channel.value, options);
        if message.Some? {
          sent := sent + [message.value];
        }
      }
      k := k + 1;
    }
    assert channels[..k] == channels;
  }
}
