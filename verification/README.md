# Lab announcement bot: the modal-submit handler

This project models the one piece of logic in the `algos-bot` Discord bot. It is the branch of the
`interactionCreate` handler that runs when the "Announce No. RFF Tasks" modal is submitted
(`src/index.ts`, lines 61-135). The handler works in four steps:

1. It splits the "data" field on `'\n'`, trims every line and drops the empty ones.
   It keeps the lines that start with `[A-Za-z0-9]+-` and groups them in a record keyed by the
   lower-cased token.
2. It looks up the guild and the category channel named `Labs [25T2]`. If either is missing, it
   replies with a single error.
3. It visits the groups in `Object.entries` order. For each group, it finds the first text channel
   in that category whose name is the key. If there is one, it sends the announcement message, a line
   break and the group's lines, and records `✅ Announced to #k`. Otherwise it records
   `❌ Channel #k not found.`.
4. It replies with the recorded lines, an empty line and ` Total Labs: N`.

Modules:

- `Text` (text.dfy): the string primitives the handler uses. These are ASCII character classes,
  the exact set of code points `String.prototype.trim` removes, `split`/`join` on one separator with
  their round trips, ASCII `toLowerCase`, and the decimal rendering of a count.
- `LabParse` (parse.dfy): the regular expression `/^([A-Za-z0-9]+)-/`, the trimmed data lines and
  the grouping loop. The `labs` record is modelled as an association list in property-creation order.
- `PropertyOrder` (order.dfy): the order in which `Object.entries` yields the groups, following
  section 10.1.11.1 of ECMA-262 (OrdinaryOwnPropertyKeys). Keys that are array indices come first,
  in ascending numeric order. All other keys follow in creation order.
- `Announce` (announce.dfy): the channel records, the `Collection.find` lookups, the message body,
  the status lines, the reply, the dispatch loop (`AnnounceAll`) and the whole submission
  (`HandleSubmit`).

Two environment choices:

- The guild's channel cache is a sequence of `Channel(id, kind, name, parentId)` records, searched
  front to back.
- Every `channel.send` becomes a `Send(channelId, body)` entry in the outcome's send log. The
  ephemeral reply becomes the outcome's `reply` string.

The destination channel's name is compared exactly with the lower-cased key, as the code does. So a
channel named `LAB1` is never found, even though the key is matched case-insensitively.

## Model

| member | source | states |
|---|---|---|
| Text.Trim | src/index.ts:70 | The trimmed line is empty or starts and ends with a code point that is neither ECMAScript WhiteSpace nor LineTerminator. |
| Text.TrimCutsMargins | src/index.ts:70 | The trimmed line is a middle slice of the input, and only trimmable code points are cut from either end. |
| Text.TrimStartAt | src/index.ts:70 | Trimming the front stops exactly at the first non-trimmable code point. |
| Text.TrimEndAt | src/index.ts:70 | Trimming the back stops exactly after the last non-trimmable code point. |
| Text.TrimUnique | src/index.ts:70 | Any split of a line into trimmable margins around a trimmed middle gives the same middle as `trim`. The cut is therefore the largest possible and is unique. |
| Text.JoinSplit | src/index.ts:69 | Joining the pieces of `split('\n')` with `'\n'` gives back the original text. |
| Text.SplitJoin | src/index.ts:69 | Splitting a `'\n'`-join of one or more newline-free pieces gives back exactly those pieces. |
| Text.SplitAround | src/index.ts:126 | Splitting `a + "\n" + b` gives the pieces of `a` followed by the pieces of `b`. |
| Text.NatToString | src/index.ts:132 | The decimal rendering of a count is non-empty, all digits and has no leading zero. It reads back as the same number. |
| Text.Split | src/index.ts:69 | `split` yields at least one piece, and no piece contains the separator. |
| Text.Lower | src/index.ts:81 | Computes ASCII `toLowerCase`: same length, and each upper-case letter maps to its lower-case partner while every other character stays. `LowerFixesLowerCase` gives the fixed points. |
| Text.Join | src/index.ts:126 | Computes `Array.prototype.join`: the parts with the separator between neighbours, `""` for no parts. `JoinSplit` and `SplitJoin` make it the inverse of `split`. |
| LabParse.LabTokenIsPatternMatch | src/index.ts:78-79 | The token scanner succeeds iff the pattern `^[A-Za-z0-9]+-` matches the line. On success, the capture is the unique matching prefix. |
| LabParse.LabToken | src/index.ts:78 | A captured token is a non-empty alphanumeric prefix of the line, and the character right after it is `-`. |
| LabParse.LabKey | src/index.ts:81 | A line has a key iff the pattern matches. The key is a non-empty run of letters and digits with no upper-case letter. |
| LabParse.DataLines | src/index.ts:67-71 | A string is a data line iff it is non-empty and is the trim of some piece of `split('\n')`. Every data line is trimmed and newline-free. |
| LabParse.TrimNonEmpty | src/index.ts:70-71 | Computes the trim of each piece, dropping the empty ones. Every line kept is non-empty and trimmed. `TrimNonEmptyMembers`, `TrimNonEmptyAppend` and `TrimNonEmptyOne` describe it. |
| LabParse.TrimNonEmptyAppend | src/index.ts:70-71 | Trimming works piece by piece: the lines of `a + b` are those of `a` followed by those of `b`, so order and repeats are kept. |
| LabParse.TrimNonEmptyOne | src/index.ts:70-71 | A single piece yields its trim, or nothing when the trim is empty. |
| LabParse.DataLinesAround | src/index.ts:67-71 | The data lines of `a + "\n" + b` are the data lines of `a` followed by those of `b`. Input order and duplicates are kept. |
| LabParse.DataLinesOfOneLine | src/index.ts:67-71 | A text with no line break has exactly one data line, its trim, unless that trim is empty. |
| LabParse.TrimNonEmptyMembers | src/index.ts:70-71 | After trimming each piece and dropping empty strings, a line survives iff it is the non-empty trim of some piece. |
| LabParse.AddEntry | src/index.ts:82-83 | Adding a line under a key keeps the existing key order. A new key is appended at the end. The total number of entries grows by one. |
| LabParse.AddEntryLookup | src/index.ts:82-83 | After adding a line under `key`, the entries under `key` are the old ones followed by the line. Every other key is unchanged. |
| LabParse.AddEntryWellFormed | src/index.ts:82-83 | Adding a line keeps the keys distinct and every group non-empty. |
| LabParse.AddEntryKeepsEntries | src/index.ts:82-83 | Adding a line never leaves an empty group behind. |
| LabParse.GroupLines | src/index.ts:77-84 | The groups together hold exactly as many entries as there are matching lines. |
| LabParse.GroupLinesContents | src/index.ts:74-84 | Keys are distinct and groups are non-empty. Under every key sit exactly the lines with that key, in input order and without de-duplication. |
| LabParse.GroupLinesKeyOrder | src/index.ts:74-84 | Groups appear in the order their keys are first seen in the input. |
| LabParse.FirstSeen | src/index.ts:82 | First-seen order holds each value once. It holds exactly the values of the input, ordered by their first occurrence. |
| LabParse.ParseKeepsMatchingLines | src/index.ts:67-79 | A trimmed non-empty line is in some group iff it starts with the lab pattern. Other lines are dropped without error. |
| LabParse.ParseEntriesCarryTheirKey | src/index.ts:78-83 | Every entry under key `k` is a data line. Its maximal alphanumeric prefix, followed by `-`, lower-cases to `k`. |
| LabParse.ParseIgnoresCase | src/index.ts:81-83 | Two lines whose tokens agree up to ASCII case land in the same group (`LAB1-x` and `lab1-y`). |
| LabParse.ParseGroupsPartitionMatches | src/index.ts:74-84 | Each group is exactly the in-order list of matching lines with its key. The group sizes sum to the number of matching lines. Keys appear in first-seen order. |
| LabParse.ParsedKeyShape | src/index.ts:81 | Every parsed key is a non-empty run of lower-case letters and digits. |
| LabParse.ParseIsIdempotent | src/index.ts:67-84 | Re-parsing the `'\n'`-joined entries of any group yields that one group again. |
| LabParse.GroupLinesSingleKey | src/index.ts:77-84 | Lines that all carry key `k` group into the single group `k` holding all of them, in order. |
| LabParse.Parse | src/index.ts:67-84 | Computes the grouped record: the data lines grouped by key on a clean record. The `Parse*` lemmas above describe its result. |
| LabParse.AsWrittenThrowsOnInheritedKey | src/index.ts:74-84 | The loop as written (plain-object record) throws iff some kept line has the key `constructor`. Otherwise it agrees with the clean grouping. |
| LabParse.ConstructorLineThrows | src/index.ts:82-83 | On the input line `constructor-1`, the loop as written throws, while the clean grouping files the line under `constructor`. |
| PropertyOrder.IndexNamedPartition | src/index.ts:110 | Every group is either an array-index group or a named group, and nothing is lost or duplicated. |
| PropertyOrder.SortBy | src/index.ts:110 | Sorting by a rank (here the numeric value of an array-index key) yields an ascending permutation of the input. |
| PropertyOrder.InsertBy | src/index.ts:110 | Inserting into an ascending list keeps it ascending, adds exactly that group, and puts either that group or the old first group in front. |
| PropertyOrder.SortKeepsIndexed | src/index.ts:110 | Sorting the array-index groups leaves only array-index groups. |
| PropertyOrder.EntriesOrder | src/index.ts:110 | `Object.entries` visits every group exactly once: the result is a permutation of the groups. |
| PropertyOrder.EntriesOrderIndexKeysFirst | src/index.ts:110 | Array-index keys come before all other keys, in ascending numeric order. |
| PropertyOrder.EntriesOrderKeepsNamedOrder | src/index.ts:110 | Keys that are not array indices keep their creation (first-seen) order. |
| PropertyOrder.EntriesOrderWithoutIndexKeys | src/index.ts:110 | Without array-index keys, the groups are visited in creation order. |
| Announce.FirstMatch | src/index.ts:97-99 | `find` returns the first element that satisfies the predicate, or nothing when no element does. |
| Announce.CategoryOf | src/index.ts:97-99 | The category is a category-type channel named exactly `Labs [25T2]`. It is missing iff no channel is one. |
| Announce.CategoryIsFirst | src/index.ts:97-99 | A found category is the first `Labs [25T2]` category in the cache: no earlier channel is one. Its id decides which channels qualify for each lab. |
| Announce.LabChannel | src/index.ts:112-117 | The lab channel is text-type, has the category as parent and is named with the lower-cased key. It is missing iff no channel qualifies. |
| Announce.LabChannelIsFirst | src/index.ts:112-117 | A found lab channel is the first qualifying channel in the cache: no earlier channel qualifies. |
| Announce.FoundIndices | src/index.ts:119-127 | The found positions are strictly ascending. They are exactly the groups whose channel exists. |
| Announce.BodyLines | src/index.ts:126 | The lines of a sent body are the message's lines followed by the group's entries. An empty message still yields a leading line break. |
| Announce.Body | src/index.ts:126 | Computes the sent text: the message, a line break, then the group's entries joined by line breaks. `BodyLines` states how it reads back. |
| Announce.SummaryLines | src/index.ts:132 | The reply's lines are the status lines (or one empty line when there are none), an empty line, and ` Total Labs: N` where N counts all status lines. |
| Announce.Summary | src/index.ts:132 | Computes the reply: the status lines joined by line breaks, then `"\n\n Total Labs: "` and the number of status lines. `SummaryLines` states its lines. |
| Announce.ReportLineMeaning | src/index.ts:120-127 | A group's status line is `✅ Announced to #k` iff some channel qualifies for `k`, and `❌ Channel #k not found.` otherwise. Neither contains a line break. |
| Announce.ReportLine | src/index.ts:119-127 | Computes one status line: the success text or the not-found text for the lower-cased key. `ReportLineMeaning` and `SuccessLineIffFound` describe it. |
| Announce.ReportLines | src/index.ts:119-127 | Computes one status line per group, in visiting order, with as many lines as groups. `ReplyLines` and `AnnounceAll` state which text each group gets. |
| Announce.ReplyLines | src/index.ts:109-132 | The reply has one line per group, in visiting order, with the success or not-found text. After them come an empty line and the group count, not the success count. |
| Announce.OrderedKeysArePlain | src/index.ts:110-121 | After reordering, keys are unchanged by `toLowerCase` and hold no line break. |
| Announce.SuccessLineIffFound | src/index.ts:120-127 | A status line reads `✅ Announced to #k` iff the channel was found. |
| Announce.SendsUpToFound | src/index.ts:119-127 | The sends of the loop match the found groups one to one: the j-th send goes to the j-th group whose channel exists, with that group's body. |
| Announce.AnnounceAll | src/index.ts:109-128 | There is one status line per group, a success line exactly when some channel qualifies. There is one send per found group, in visiting order, to the first matching channel, with body `message + "\n" + entries.join("\n")`. |
| Announce.HandleSubmit | src/index.ts:61-135 | With no guild, or no lab category, the reply is that single error and nothing is sent. Otherwise the reply reports every group, and the sends are exactly one per found group. With no groups, the reply is `"\n\n Total Labs: 0"` and nothing is sent. |

## Left out

- Client construction, `login`, dotenv, the `ready` handler with slash-command registration, and the
  modal built and shown for `/announce` (src/index.ts:1-60, 138). These are platform I/O.
- `async`/`await` and the ephemeral flag. The reply is a returned string, and the sends are an ordered log.
- A `channel.send` or `interaction.reply` that throws. The code does not catch these, so a throw
  would abort the handler after the sends already made, with no reply. The model treats both calls
  as infallible.
- `getTextInputValue` is taken as given. An optional field left blank is passed in as the empty string.
- Channel kinds other than text and category are collapsed into one `OtherKind`, which never matches.
- Strings are sequences of Unicode scalar values. JavaScript's UTF-16 strings can also hold lone
  surrogates, which the model cannot represent. The trimmable set is the ECMAScript WhiteSpace and
  LineTerminator list for the current Unicode Zs category.
- `toLowerCase` is modelled for ASCII only. The handler applies it only to `[A-Za-z0-9]+` tokens and
  to keys made from them, so this is exact there.
- Number-to-string conversion is exact decimal rendering. Counts never reach the range where
  JavaScript switches to exponent notation.
- Announce.HandleSubmit: uses the corrected clean grouping. It does not model the crash on a
  `constructor` key, which the Findings row below covers.

## Findings

| source | as written | input that shows it | evidently intended | confidence | as-written member | corrected member |
|---|---|---|---|---|---|---|
| src/index.ts:74-83 | `labs` is a plain object. For the key `constructor`, `labs[labClass]` reads the inherited `Object` function, so `!labs[labClass]` is false, the group is never created and `labs[labClass].push` throws a TypeError. The handler then ends with no reply. | a data line `constructor-1` | the line is grouped under `constructor` like any other lab, and the lookup reports the channel as found or not found | high; not executed | LabParse.GroupLinesAsWritten | LabParse.GroupLines |
