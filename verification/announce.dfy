/**
 * The modal-submit branch of the `interactionCreate` handler
 * (src/index.ts:61-135): locate the lab category in the guild's channel list,
 * send one announcement per lab group to the lab's text channel, and compose
 * the private status reply.
 *
 * The channel cache is a sequence of channel records searched front to back
 * like `Collection.find`; each `channel.send` is an entry appended to the
 * outcome's send log, and the interaction reply is the outcome's string.
 */
module Announce {
  import opened Wrappers
  import opened Text
  import opened LabParse
  import opened PropertyOrder

  /** Name of the category that holds the lab channels (src/index.ts:16). */
  const LabsCategory := "Labs [25T2]"

  const GuildMissingReply := "Error: could not find guild."

  const CategoryMissingReply := "Error: could not find category \"" + LabsCategory + "\"."

  /** Prefixes of the two report lines: "✅ Announced to #" and "❌ Channel #". */
  const AnnouncedPrefix := "\U{2705} Announced to #"
  const NotFoundPrefix := "\U{274C} Channel #"
  const NotFoundSuffix := " not found."

  /** Prefix of the last line of the reply; it is preceded by an empty line. */
  const TotalPrefix := " Total Labs: "

  datatype ChannelKind = GuildText | GuildCategory | OtherKind

  /** A guild channel as far as the handler looks at it; `parentId` is None for a
      channel outside every category. */
  datatype Channel = Channel(id: string, kind: ChannelKind, name: string, parentId: Option<string>)

  /** A guild with its channel cache, in cache order. */
  datatype Guild = Guild(channels: seq<Channel>)

  /** One `channel.send(body)`. */
  datatype Send = Send(channelId: string, body: string)

  /** What one submission does: the content of the private reply and the sends
      performed before it, in order. */
  datatype Outcome = Outcome(reply: string, sends: seq<Send>)

  // ---------------------------------------------------------------------------
  // Channel lookup

  /** Index of the first channel satisfying `p`: `Collection.find`. */
  function FirstMatch(channels: seq<Channel>, p: Channel -> bool): (r: Option<nat>)
    ensures r.Some? ==> r.value < |channels| && p(channels[r.value])
    ensures r.Some? ==> forall j :: 0 <= j < r.value ==> !p(channels[j])
    ensures r.None? ==> forall j :: 0 <= j < |channels| ==> !p(channels[j])
  {
    if |channels| == 0 then None
    else if p(channels[0]) then Some(0)
    else
      match FirstMatch(channels[1..], p)
      case None => None
      case Some(i) => Some(i + 1)
  }

  predicate IsLabsCategory(c: Channel) {
    c.kind == GuildCategory && c.name == LabsCategory
  }

  /** A text channel inside the category whose name is the lower-cased lab key. */
  predicate IsLabChannel(c: Channel, categoryId: string, lab: string) {
    c.parentId == Some(categoryId) && c.kind == GuildText && c.name == Lower(lab)
  }

  /** The lab category: the first category channel named exactly `LabsCategory`. */
  function CategoryOf(channels: seq<Channel>): (r: Option<Channel>)
    ensures r.Some? ==> IsLabsCategory(r.value) && r.value in channels
    ensures r.None? <==> forall c :: c in channels ==> !IsLabsCategory(c)
  {
    match FirstMatch(channels, IsLabsCategory)
    case None => None
    case Some(i) => Some(channels[i])
  }

  /** The category found is the first `Labs [25T2]` category in the cache: it
      sits at position `i`, and no channel before it is one. Its id decides
      which channels qualify for every lab. */
  lemma CategoryIsFirst(channels: seq<Channel>) returns (i: nat)
    requires CategoryOf(channels).Some?
    ensures i < |channels| && channels[i] == CategoryOf(channels).value
    ensures forall j :: 0 <= j < i ==> !IsLabsCategory(channels[j])
  {
    i := FirstMatch(channels, IsLabsCategory).value;
  }

  /** The channel a lab's announcement goes to: the first matching one. */
  function LabChannel(channels: seq<Channel>, categoryId: string, lab: string): (r: Option<Channel>)
    ensures r.Some? ==> IsLabChannel(r.value, categoryId, lab)
    ensures r.None? <==> forall c :: c in channels ==> !IsLabChannel(c, categoryId, lab)
  {
    match FirstMatch(channels, c => IsLabChannel(c, categoryId, lab))
    case None => None
    case Some(i) => Some(channels[i])
  }

  /** The channel found is the first qualifying one in the cache: it sits at
      position `i`, and no channel before it qualifies. */
  lemma LabChannelIsFirst(channels: seq<Channel>, categoryId: string, lab: string) returns (i: nat)
    requires LabChannel(channels, categoryId, lab).Some?
    ensures i < |channels| && channels[i] == LabChannel(channels, categoryId, lab).value
    ensures forall j :: 0 <= j < i ==> !IsLabChannel(channels[j], categoryId, lab)
  {
    i := FirstMatch(channels, c => IsLabChannel(c, categoryId, lab)).value;
  }

  predicate Found(channels: seq<Channel>, categoryId: string, lab: string) {
    LabChannel(channels, categoryId, lab).Some?
  }

  // ---------------------------------------------------------------------------
  // Messages

  /** The announcement for one lab: the message, a line break, then the lab's
      entries one per line. */
  function Body(message: string, entries: seq<string>): string {
    message + "\n" + Join(entries, "\n")
  }

  /** The receiver can read the entries back: the body's lines are the message's
      lines followed by the entries, so even an empty message leaves a first,
      empty line. */
  lemma BodyLines(message: string, entries: seq<string>)
    requires |entries| >= 1
    requires forall i :: 0 <= i < |entries| ==> '\n' !in entries[i]
    ensures Split(Body(message, entries), '\n') == Split(message, '\n') + entries
    ensures message == "" ==> Body(message, entries)[0] == '\n'
  {
    SplitAround(message, Join(entries, "\n"), '\n');
    SplitJoin(entries, '\n');
  }

  /** The status line for one lab. */
  function ReportLine(lab: string, found: bool): string {
    if found then AnnouncedPrefix + Lower(lab) else NotFoundPrefix + Lower(lab) + NotFoundSuffix
  }

  /** The status lines for the groups in visiting order. */
  function ReportLines(order: seq<LabGroup>, channels: seq<Channel>, categoryId: string): (lines: seq<string>)
    ensures |lines| == |order|
  {
    seq(|order|, i requires 0 <= i < |order| => ReportLine(order[i].key, Found(channels, categoryId, order[i].key)))
  }

  /** The reply content: the status lines, an empty line, and the number of labs. */
  function Summary(report: seq<string>): string {
    Join(report, "\n") + "\n\n" + TotalPrefix + NatToString(|report|)
  }

  /** The reply's lines are the status lines (a single empty line when there are
      none), an empty line, and " Total Labs: N" where N counts the status lines,
      successes and failures alike. */
  lemma SummaryLines(report: seq<string>)
    requires forall i :: 0 <= i < |report| ==> '\n' !in report[i]
    ensures Split(Summary(report), '\n') ==
              (if |report| == 0 then [""] else report) + ["", TotalPrefix + NatToString(|report|)]
  {
    var total := TotalPrefix + NatToString(|report|);
    var joined := Join(report, "\n");
    TotalLineHasNoBreak(|report|);
    SplitAfterSeparator(total, '\n');
    SummaryShape(report);
    SplitAround(joined, ['\n'] + total, '\n');
    var head := if |report| == 0 then [""] else report;
    assert Split(joined, '\n') == head by {
      if |report| > 0 {
        SplitJoin(report, '\n');
      }
    }
    calc {
      Split(Summary(report), '\n');
      Split(joined + ['\n'] + (['\n'] + total), '\n');
      Split(joined, '\n') + Split(['\n'] + total, '\n');
      head + ["", total];
    }
  }

  lemma SummaryShape(report: seq<string>)
    ensures Summary(report) == Join(report, "\n") + ['\n'] + (['\n'] + (TotalPrefix + NatToString(|report|)))
  {
    Regroup(Join(report, "\n"), '\n', '\n', TotalPrefix, NatToString(|report|));
  }

  lemma Regroup<T>(a: seq<T>, x: T, y: T, p: seq<T>, n: seq<T>)
    ensures a + [x, y] + p + n == a + [x] + ([y] + (p + n))
  {
    assert [x, y] == [x] + [y];
  }

  lemma TotalLineHasNoBreak(n: nat)
    ensures '\n' !in TotalPrefix + NatToString(n)
  {
    var count := NatToString(n);
    assert forall k :: 0 <= k < |count| ==> IsAsciiDigit(count[k]);
  }

  /** With no groups the whole reply is the count line. */
  lemma SummaryOfNoGroups()
    ensures Summary([]) == "\n\n Total Labs: 0"
  {
    assert NatToString(0) == "0";
  }

  // ---------------------------------------------------------------------------
  // Dispatch

  /** Indices below `n` of the groups whose channel is found, ascending. */
  function FoundIndices(order: seq<LabGroup>, channels: seq<Channel>, categoryId: string, n: nat): (ix: seq<nat>)
    requires n <= |order|
    ensures forall j :: 0 <= j < |ix| ==> ix[j] < n && Found(channels, categoryId, order[ix[j]].key)
    ensures forall j, k :: 0 <= j < k < |ix| ==> ix[j] < ix[k]
    ensures forall i :: 0 <= i < n && Found(channels, categoryId, order[i].key) ==> i in ix
  {
    if n == 0 then []
    else
      var prev := FoundIndices(order, channels, categoryId, n - 1);
      var ix := prev + (if Found(channels, categoryId, order[n - 1].key) then [n - 1] else []);
      assert forall j :: 0 <= j < |prev| ==> ix[j] == prev[j];
      ix
  }

  /** The send for a group whose channel is found. */
  function SendFor(message: string, g: LabGroup, channels: seq<Channel>, categoryId: string): Send
    requires Found(channels, categoryId, g.key)
  {
    Send(LabChannel(channels, categoryId, g.key).value.id, Body(message, g.entries))
  }

  /** The sends the loop makes for the first `n` groups, in visiting order. */
  function SendsUpTo(message: string, order: seq<LabGroup>, channels: seq<Channel>, categoryId: string, n: nat): seq<Send>
    requires n <= |order|
  {
    if n == 0 then []
    else
      SendsUpTo(message, order, channels, categoryId, n - 1)
        + (if Found(channels, categoryId, order[n - 1].key) then [SendFor(message, order[n - 1], channels, categoryId)] else [])
  }

  /** The sends are indexed by the found groups: the j-th send goes to the j-th
      group whose channel exists. */
  lemma {:induction false} SendsUpToFound(message: string, order: seq<LabGroup>, channels: seq<Channel>, categoryId: string, n: nat)
    requires n <= |order|
    ensures var sends := SendsUpTo(message, order, channels, categoryId, n);
      var found := FoundIndices(order, channels, categoryId, n);
      && |sends| == |found|
      && forall j :: 0 <= j < |sends| ==> sends[j] == SendFor(message, order[found[j]], channels, categoryId)
  {
    if n > 0 {
      SendsUpToFound(message, order, channels, categoryId, n - 1);
      var sends := SendsUpTo(message, order, channels, categoryId, n);
      var found := FoundIndices(order, channels, categoryId, n);
      var sends' := SendsUpTo(message, order, channels, categoryId, n - 1);
      var found' := FoundIndices(order, channels, categoryId, n - 1);
      forall j | 0 <= j < |sends|
        ensures sends[j] == SendFor(message, order[found[j]], channels, categoryId)
      {
        if j < |sends'| {
          assert sends[j] == sends'[j];
          assert found[j] == found'[j];
        }
      }
    }
  }

  /** The dispatch loop (src/index.ts:109-128): one status line per group and one
      send per group whose channel exists, both in visiting order. */
  method AnnounceAll(message: string, order: seq<LabGroup>, channels: seq<Channel>, categoryId: string)
    returns (report: seq<string>, sends: seq<Send>)
    ensures report == ReportLines(order, channels, categoryId)
    ensures forall i :: 0 <= i < |order| ==>
              (report[i] == AnnouncedPrefix + Lower(order[i].key) <==>
               exists c :: c in channels && IsLabChannel(c, categoryId, order[i].key))
    ensures |sends| == |FoundIndices(order, channels, categoryId, |order|)|
    ensures forall j :: 0 <= j < |sends| ==>
              sends[j] == SendFor(message, order[FoundIndices(order, channels, categoryId, |order|)[j]], channels, categoryId)
  {
    report := [];
    sends := [];
    var i := 0;
    while i < |order|
      invariant 0 <= i <= |order|
      invariant |report| == i
      invariant forall k :: 0 <= k < i ==> report[k] == ReportLine(order[k].key, Found(channels, categoryId, order[k].key))
      invariant sends == SendsUpTo(message, order, channels, categoryId, i)
    {
      var lab := order[i].key;
      var channel := LabChannel(channels, categoryId, lab);
      ghost var before := report;
      match channel {
        case None =>
          report := report + [NotFoundPrefix + Lower(lab) + NotFoundSuffix];
        case Some(c) =>
          sends := sends + [Send(c.id, Body(message, order[i].entries))];
          report := report + [AnnouncedPrefix + Lower(lab)];
      }
      assert report == before + [ReportLine(lab, Found(channels, categoryId, lab))];
      forall k | 0 <= k <= i
        ensures report[k] == ReportLine(order[k].key, Found(channels, categoryId, order[k].key))
      {
        if k < i {
          assert report[k] == before[k];
        }
      }
      i := i + 1;
    }
    SendsUpToFound(message, order, channels, categoryId, |order|);
    forall i | 0 <= i < |order|
      ensures report[i] == AnnouncedPrefix + Lower(order[i].key) <==>
              exists c :: c in channels && IsLabChannel(c, categoryId, order[i].key)
    {
      SuccessLineIffFound(order[i].key, Found(channels, categoryId, order[i].key));
    }
  }

  /** A status line reads as a success exactly when the channel was found. */
  lemma SuccessLineIffFound(lab: string, found: bool)
    ensures ReportLine(lab, found) == AnnouncedPrefix + Lower(lab) <==> found
  {
    if !found {
      assert ReportLine(lab, found)[0] != (AnnouncedPrefix + Lower(lab))[0];
    }
  }

  // ---------------------------------------------------------------------------
  // The whole submission

  /** Keys as the parse produces them: lower-case and free of line breaks. */
  predicate PlainKeys(order: seq<LabGroup>) {
    forall i :: 0 <= i < |order| ==> Lower(order[i].key) == order[i].key && '\n' !in order[i].key
  }

  /** Reordering groups with lower-case alphanumeric keys leaves keys that
      `toLowerCase` does not change and that hold no line break. */
  lemma OrderedKeysArePlain(groups: seq<LabGroup>)
    requires forall j :: 0 <= j < |groups| ==> IsLowerAlnumKey(groups[j].key)
    ensures |EntriesOrder(groups)| == |groups|
    ensures PlainKeys(EntriesOrder(groups))
  {
    var order := EntriesOrder(groups);
    assert |order| == |multiset(order)| == |groups|;
    forall i | 0 <= i < |order|
      ensures Lower(order[i].key) == order[i].key && '\n' !in order[i].key
    {
      assert order[i] in multiset(groups);
      LowerFixesLowerCase(order[i].key);
    }
  }

  /** A status line for a lower-case key without line breaks names the key and is one line. */
  lemma ReportLineShape(lab: string, found: bool)
    requires Lower(lab) == lab && '\n' !in lab
    ensures ReportLine(lab, found) == if found then AnnouncedPrefix + lab else NotFoundPrefix + lab + NotFoundSuffix
    ensures '\n' !in ReportLine(lab, found)
  {
    assert '\n' !in AnnouncedPrefix && '\n' !in NotFoundPrefix && '\n' !in NotFoundSuffix;
  }

  /** The status line of a group: a success line exactly when some channel
      qualifies, and never a line break inside. */
  lemma ReportLineMeaning(order: seq<LabGroup>, channels: seq<Channel>, categoryId: string, i: int)
    requires PlainKeys(order) && 0 <= i < |order|
    ensures ReportLines(order, channels, categoryId)[i] ==
              if exists c :: c in channels && IsLabChannel(c, categoryId, order[i].key)
              then AnnouncedPrefix + order[i].key
              else NotFoundPrefix + order[i].key + NotFoundSuffix
    ensures '\n' !in ReportLines(order, channels, categoryId)[i]
  {
    var lab := order[i].key;
    var found := Found(channels, categoryId, lab);
    assert found <==> exists c :: c in channels && IsLabChannel(c, categoryId, lab);
    ReportLineShape(lab, found);
  }

  /** `reply` has one status line per group in visiting order, `✅ Announced to #k`
      exactly when some channel qualifies for `k` and `❌ Channel #k not found.`
      otherwise (or a single empty line when there are no groups), then an empty
      line, then ` Total Labs: N` with N the number of groups. */
  ghost predicate ReplyReports(reply: string, order: seq<LabGroup>, channels: seq<Channel>, categoryId: string) {
    var lines := Split(reply, '\n');
    && |lines| == (if |order| == 0 then 1 else |order|) + 2
    && (forall i :: 0 <= i < |order| ==>
          lines[i] == if exists c :: c in channels && IsLabChannel(c, categoryId, order[i].key)
                      then AnnouncedPrefix + order[i].key
                      else NotFoundPrefix + order[i].key + NotFoundSuffix)
    && lines[|lines| - 2] == ""
    && lines[|lines| - 1] == TotalPrefix + NatToString(|order|)
  }

  /** The lines of the reply: one status line per group in visiting order (or one
      empty line when there are no groups), an empty line, and the group count. */
  lemma ReplyLines(order: seq<LabGroup>, channels: seq<Channel>, categoryId: string)
    requires PlainKeys(order)
    ensures ReplyReports(Summary(ReportLines(order, channels, categoryId)), order, channels, categoryId)
  {
    var report := ReportLines(order, channels, categoryId);
    forall i | 0 <= i < |report|
      ensures '\n' !in report[i]
    {
      ReportLineMeaning(order, channels, categoryId, i);
    }
    SummaryLines(report);
    forall i | 0 <= i < |order|
      ensures report[i] == if exists c :: c in channels && IsLabChannel(c, categoryId, order[i].key)
                           then AnnouncedPrefix + order[i].key
                           else NotFoundPrefix + order[i].key + NotFoundSuffix
    {
      ReportLineMeaning(order, channels, categoryId, i);
    }
  }

  /** Handling one modal submission (src/index.ts:61-135). The data field is
      parsed first; without a guild, or without the lab category, the reply is a
      single error and nothing is sent. Otherwise every group gets one status
      line, in `Object.entries` order, every group whose channel exists gets one
      send, and the reply ends with an empty line and the number of groups. */
  method HandleSubmit(message: string, data: string, guild: Option<Guild>) returns (out: Outcome)
    ensures guild.None? ==> out == Outcome(GuildMissingReply, [])
    ensures guild.Some? && CategoryOf(guild.value.channels).None? ==> out == Outcome(CategoryMissingReply, [])
    ensures guild.Some? && CategoryOf(guild.value.channels).Some? ==>
              var channels := guild.value.channels;
              var categoryId := CategoryOf(channels).value.id;
              var order := EntriesOrder(Parse(data));
              && |order| == |Parse(data)|
              && ReplyReports(out.reply, order, channels, categoryId)
              && |out.sends| == |FoundIndices(order, channels, categoryId, |order|)|
              && (forall j :: 0 <= j < |out.sends| ==>
                    out.sends[j] == SendFor(message, order[FoundIndices(order, channels, categoryId, |order|)[j]], channels, categoryId))
    ensures guild.Some? && CategoryOf(guild.value.channels).Some? && Parse(data) == [] ==>
              out == Outcome("\n\n Total Labs: 0", [])
  {
    var groups := Parse(data);
    if guild.None? {
      return Outcome(GuildMissingReply, []);
    }
    var channels := guild.value.channels;
    var category := CategoryOf(channels);
    if category.None? {
      return Outcome(CategoryMissingReply, []);
    }
    var order := EntriesOrder(groups);
    var report, sends := AnnounceAll(message, order, channels, category.value.id);
    out := Outcome(Summary(report), sends);
    forall j | 0 <= j < |groups|
      ensures IsLowerAlnumKey(groups[j].key)
    {
      ParsedKeyShape(data, j);
    }
    OrderedKeysArePlain(groups);
    ReplyLines(order, channels, category.value.id);
    if groups == [] {
      SummaryOfNoGroups();
    }
  }
}
