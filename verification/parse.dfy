/**
 * Parsing the submitted "data" field into lab groups (src/index.ts, the
 * modal-submit branch): split into lines, trim, drop empty lines, keep the
 * lines that start with an alphanumeric token followed by '-', and group them
 * under the lower-cased token.
 */
module LabParse {
  import opened Wrappers
  import opened Text

  // ---------------------------------------------------------------------------
  // The pattern /^([A-Za-z0-9]+)-/

  /** Length of the longest `[A-Za-z0-9]*` prefix of `s`. */
  function AlnumPrefixLength(s: string): (n: nat)
    ensures n <= |s|
    ensures forall k :: 0 <= k < n ==> IsAsciiAlnum(s[k])
    ensures n < |s| ==> !IsAsciiAlnum(s[n])
  {
    if |s| > 0 && IsAsciiAlnum(s[0]) then 1 + AlnumPrefixLength(s[1..]) else 0
  }

  /** Capture group 1 of `/^([A-Za-z0-9]+)-/` on `line`, or None when the match fails.
      The greedy `+` stops at the first non-alphanumeric code point, and that one
      must be the hyphen. */
  function LabToken(line: string): (t: Option<string>)
    ensures t.Some? ==> 0 < |t.value| < |line| && t.value == line[..|t.value|] && line[|t.value|] == '-'
    ensures t.Some? ==> forall i :: 0 <= i < |t.value| ==> IsAsciiAlnum(t.value[i])
  {
    var n := AlnumPrefixLength(line);
    if 0 < n < |line| && line[n] == '-' then Some(line[..n]) else None
  }

  /** The regular language of the pattern: `line[..k]` is a non-empty run of
      `[A-Za-z0-9]` and `line[k]` is a hyphen. */
  ghost predicate MatchesAt(line: string, k: int) {
    && 1 <= k < |line|
    && (forall i :: 0 <= i < k ==> IsAsciiAlnum(line[i]))
    && line[k] == '-'
  }

  /** `LabToken` succeeds exactly when the pattern matches, and then the capture is
      the unique matching prefix (no backtracking can find another one). */
  lemma LabTokenIsPatternMatch(line: string)
    ensures LabToken(line).Some? <==> exists k :: MatchesAt(line, k)
    ensures forall k :: MatchesAt(line, k) ==> LabToken(line) == Some(line[..k])
  {
    var n := AlnumPrefixLength(line);
    if LabToken(line).Some? {
      assert MatchesAt(line, n);
    }
    forall k | MatchesAt(line, k)
      ensures LabToken(line) == Some(line[..k])
    {
      assert !IsAsciiAlnum(line[k]);
      assert n <= k;
    }
  }

  /** The group key of a data line: its captured token, lower-cased. */
  function LabKey(line: string): (k: Option<string>)
    ensures k.Some? <==> LabToken(line).Some?
    ensures k.Some? ==> |k.value| > 0
    ensures k.Some? ==> forall i :: 0 <= i < |k.value| ==> IsAsciiAlnum(k.value[i]) && !IsAsciiUpper(k.value[i])
  {
    match LabToken(line)
    case None => None
    case Some(t) =>
      LowerKeepsAlnum(t);
      Some(Lower(t))
  }

  // ---------------------------------------------------------------------------
  // Lines of the data field

  /** Trims every piece of the data field and drops the pieces that trim to nothing. */
  function TrimNonEmpty(pieces: seq<string>): (lines: seq<string>)
    ensures forall i :: 0 <= i < |lines| ==> lines[i] != "" && IsTrimmed(lines[i])
  {
    if |pieces| == 0 then []
    else
      var l := Trim(pieces[0]);
      var rest := TrimNonEmpty(pieces[1..]);
      if l == "" then rest else
        assert IsTrimmed(l);
        [l] + rest
  }

  /** A line survives exactly when it is the non-empty trim of some piece. */
  lemma {:induction false} TrimNonEmptyMembers(pieces: seq<string>, l: string)
    ensures l in TrimNonEmpty(pieces) <==> l != "" && exists p :: p in pieces && Trim(p) == l
  {
    if |pieces| > 0 {
      TrimNonEmptyMembers(pieces[1..], l);
      if l != "" && Trim(pieces[0]) != l {
        assert (exists p :: p in pieces && Trim(p) == l) <==> (exists p :: p in pieces[1..] && Trim(p) == l) by {
          forall p | p in pieces && Trim(p) == l
            ensures p in pieces[1..]
          {
            assert p != pieces[0];
          }
        }
      }
    }
  }

  /** The trimmed, non-empty lines of the data field. */
  function DataLines(data: string): (lines: seq<string>)
    ensures forall i :: 0 <= i < |lines| ==> lines[i] != "" && IsTrimmed(lines[i]) && '\n' !in lines[i]
    ensures forall l :: l in lines <==> l != "" && exists p :: p in Split(data, '\n') && Trim(p) == l
  {
    var pieces := Split(data, '\n');
    var lines := TrimNonEmpty(pieces);
    forall l
      ensures l in lines <==> l != "" && exists p :: p in pieces && Trim(p) == l
    {
      TrimNonEmptyMembers(pieces, l);
    }
    forall i | 0 <= i < |lines|
      ensures '\n' !in lines[i]
    {
      assert lines[i] in lines;
      var p :| p in pieces && Trim(p) == lines[i];
      if '\n' in lines[i] {
        TrimKeepsOnly(p, '\n');
      }
    }
    lines
  }

  /** Trimming works piece by piece: the lines of two runs of pieces are the
      lines of the first run followed by those of the second, so order and
      repeats are kept. */
  lemma {:induction false} TrimNonEmptyAppend(a: seq<string>, b: seq<string>)
    ensures TrimNonEmpty(a + b) == TrimNonEmpty(a) + TrimNonEmpty(b)
  {
    if |a| > 0 {
      assert (a + b)[0] == a[0];
      assert (a + b)[1..] == a[1..] + b;
      TrimNonEmptyAppend(a[1..], b);
    } else {
      assert a + b == b;
    }
  }

  /** One piece yields its trim, unless that is empty. */
  lemma TrimNonEmptyOne(p: string)
    ensures TrimNonEmpty([p]) == if Trim(p) == "" then [] else [Trim(p)]
  {
    assert [p][1..] == [];
  }

  /** The data lines of two texts joined by a line break are the data lines of
      the first followed by those of the second: input order and duplicates
      are kept. */
  lemma DataLinesAround(a: string, b: string)
    ensures DataLines(a + "\n" + b) == DataLines(a) + DataLines(b)
  {
    assert a + "\n" + b == a + ['\n'] + b;
    SplitAround(a, b, '\n');
    TrimNonEmptyAppend(Split(a, '\n'), Split(b, '\n'));
  }

  /** A text without a line break has at most one data line: its trim. */
  lemma DataLinesOfOneLine(s: string)
    requires '\n' !in s
    ensures DataLines(s) == if Trim(s) == "" then [] else [Trim(s)]
  {
    SplitJoin([s], '\n');
    assert Join([s], "\n") == s;
    TrimNonEmptyOne(s);
  }

  // ---------------------------------------------------------------------------
  // Reference definitions over a list of lines

  /** The lines the pattern keeps, in order. */
  function Matched(lines: seq<string>): (m: seq<string>)
    ensures |m| <= |lines|
    ensures forall l :: l in m <==> l in lines && LabKey(l).Some?
  {
    if |lines| == 0 then []
    else
      var last := lines[|lines| - 1];
      assert forall l :: l in lines <==> l in lines[..|lines| - 1] || l == last;
      Matched(lines[..|lines| - 1]) + (if LabKey(last).Some? then [last] else [])
  }

  /** The key of every kept line, in line order (with repetitions). */
  function KeySeq(lines: seq<string>): (ks: seq<string>)
    ensures |ks| == |Matched(lines)|
    ensures forall k :: k in ks <==> exists l :: l in lines && LabKey(l) == Some(k)
  {
    if |lines| == 0 then []
    else
      var last := lines[|lines| - 1];
      assert forall l :: l in lines <==> l in lines[..|lines| - 1] || l == last;
      KeySeq(lines[..|lines| - 1]) + (if LabKey(last).Some? then [LabKey(last).value] else [])
  }

  /** The lines whose key is `k`, in line order. */
  function EntriesFor(lines: seq<string>, k: string): (es: seq<string>)
    ensures forall e :: e in es <==> e in lines && LabKey(e) == Some(k)
  {
    if |lines| == 0 then []
    else
      var last := lines[|lines| - 1];
      assert forall l :: l in lines <==> l in lines[..|lines| - 1] || l == last;
      EntriesFor(lines[..|lines| - 1], k) + (if LabKey(last) == Some(k) then [last] else [])
  }

  /** Position of the first occurrence of `x` in `xs`. */
  function FirstIndex(xs: seq<string>, x: string): (i: nat)
    requires x in xs
    ensures i < |xs| && xs[i] == x
    ensures forall j :: 0 <= j < i ==> xs[j] != x
  {
    if xs[0] == x then 0 else 1 + FirstIndex(xs[1..], x)
  }

  predicate Distinct(xs: seq<string>) {
    forall i, j :: 0 <= i < j < |xs| ==> xs[i] != xs[j]
  }

  /** Each value of `xs` once, in order of first occurrence. */
  function FirstSeen(xs: seq<string>): (r: seq<string>)
    ensures Distinct(r)
    ensures forall x :: x in r <==> x in xs
    ensures forall i, j :: 0 <= i < j < |r| ==> FirstIndex(xs, r[i]) < FirstIndex(xs, r[j])
  {
    if |xs| == 0 then []
    else
      var prefix := xs[..|xs| - 1];
      var last := xs[|xs| - 1];
      var p := FirstSeen(prefix);
      assert forall x :: x in xs <==> x in prefix || x == last;
      forall x | x in prefix
        ensures FirstIndex(xs, x) == FirstIndex(prefix, x)
      {
        var a, b := FirstIndex(xs, x), FirstIndex(prefix, x);
        assert xs[b] == x;
        assert a <= b;
      }
      if last in p then p
      else
        assert FirstIndex(xs, last) == |xs| - 1;
        p + [last]
  }

  // ---------------------------------------------------------------------------
  // Groups: the `labs` record as an association list in property-creation order

  datatype LabGroup = LabGroup(key: string, entries: seq<string>)

  function Keys(groups: seq<LabGroup>): (ks: seq<string>)
    ensures |ks| == |groups|
    ensures forall i :: 0 <= i < |groups| ==> ks[i] == groups[i].key
  {
    if |groups| == 0 then [] else [groups[0].key] + Keys(groups[1..])
  }

  /** `labs[k] ?? []`: the entries stored under `k`. */
  function Lookup(groups: seq<LabGroup>, k: string): seq<string>
  {
    if |groups| == 0 then []
    else if groups[0].key == k then groups[0].entries
    else Lookup(groups[1..], k)
  }

  /** Sum of the group sizes. */
  function TotalEntries(groups: seq<LabGroup>): nat
  {
    if |groups| == 0 then 0 else |groups[0].entries| + TotalEntries(groups[1..])
  }

  predicate WellFormed(groups: seq<LabGroup>) {
    && Distinct(Keys(groups))
    && forall i :: 0 <= i < |groups| ==> groups[i].entries != []
  }

  /** With distinct keys, looking up a group's key yields that group's entries. */
  lemma {:induction false} LookupAt(groups: seq<LabGroup>, i: int)
    requires Distinct(Keys(groups)) && 0 <= i < |groups|
    ensures Lookup(groups, groups[i].key) == groups[i].entries
  {
    if i > 0 {
      assert Keys(groups)[0] != Keys(groups)[i];
      assert Keys(groups[1..]) == Keys(groups)[1..];
      LookupAt(groups[1..], i - 1);
    }
  }

  /** A key that no group carries looks up to nothing. */
  lemma {:induction false} LookupAbsent(groups: seq<LabGroup>, k: string)
    requires k !in Keys(groups)
    ensures Lookup(groups, k) == []
  {
    if |groups| > 0 {
      assert Keys(groups[1..]) == Keys(groups)[1..];
      LookupAbsent(groups[1..], k);
    }
  }

  /** On a clean record: appends `line` under `key`, creating the group at the
      end when the key is new. */
  function AddEntry(groups: seq<LabGroup>, key: string, line: string): (r: seq<LabGroup>)
    ensures Keys(r) == if key in Keys(groups) then Keys(groups) else Keys(groups) + [key]
    ensures TotalEntries(r) == TotalEntries(groups) + 1
  {
    if |groups| == 0 then [LabGroup(key, [line])]
    else
      assert Keys(groups) == [groups[0].key] + Keys(groups[1..]);
      if groups[0].key == key then
        var r := [LabGroup(key, groups[0].entries + [line])] + groups[1..];
        assert r[1..] == groups[1..];
        r
      else
        var tail := AddEntry(groups[1..], key, line);
        var r := [groups[0]] + tail;
        assert r[1..] == tail;
        r
  }

  /** Adding under `key` appends to exactly that key's entries; every other key is unchanged. */
  lemma {:induction false} AddEntryLookup(groups: seq<LabGroup>, key: string, line: string, k: string)
    ensures Lookup(AddEntry(groups, key, line), k) == if k == key then Lookup(groups, k) + [line] else Lookup(groups, k)
  {
    if |groups| > 0 && groups[0].key != key {
      AddEntryLookup(groups[1..], key, line, k);
      var r := AddEntry(groups, key, line);
      assert r[1..] == AddEntry(groups[1..], key, line);
    }
  }

  /** Adding keeps keys distinct and every group non-empty. */
  lemma AddEntryWellFormed(groups: seq<LabGroup>, key: string, line: string)
    requires WellFormed(groups)
    ensures WellFormed(AddEntry(groups, key, line))
  {
    var ks := Keys(groups);
    if key !in ks {
      assert Distinct(ks + [key]) by {
        forall i, j | 0 <= i < j < |ks| + 1
          ensures (ks + [key])[i] != (ks + [key])[j]
        {
          if j == |ks| {
            assert (ks + [key])[i] == ks[i];
          }
        }
      }
    }
    AddEntryKeepsEntries(groups, key, line);
  }

  /** Adding never empties a group and never creates an empty one. */
  lemma {:induction false} AddEntryKeepsEntries(groups: seq<LabGroup>, key: string, line: string)
    requires forall i :: 0 <= i < |groups| ==> groups[i].entries != []
    ensures var r := AddEntry(groups, key, line);
      forall i :: 0 <= i < |r| ==> r[i].entries != []
  {
    if |groups| > 0 && groups[0].key != key {
      AddEntryKeepsEntries(groups[1..], key, line);
      assert AddEntry(groups, key, line)[1..] == AddEntry(groups[1..], key, line);
    }
  }

  /** The grouping loop (src/index.ts:77-84) over a clean record, line by line. */
  function GroupLines(lines: seq<string>): (groups: seq<LabGroup>)
    ensures TotalEntries(groups) == |Matched(lines)|
  {
    if |lines| == 0 then []
    else
      var prefix := lines[..|lines| - 1];
      var last := lines[|lines| - 1];
      var g := GroupLines(prefix);
      match LabKey(last)
      case None => g
      case Some(k) => AddEntry(g, k, last)
  }

  /** Groups appear in the order their keys are first seen in the input. */
  lemma {:induction false} GroupLinesKeyOrder(lines: seq<string>)
    ensures Keys(GroupLines(lines)) == FirstSeen(KeySeq(lines))
  {
    if |lines| > 0 {
      var prefix := lines[..|lines| - 1];
      var last := lines[|lines| - 1];
      GroupLinesKeyOrder(prefix);
      var ks := KeySeq(lines);
      if LabKey(last).Some? {
        assert ks[..|ks| - 1] == KeySeq(prefix);
        assert ks[|ks| - 1] == LabKey(last).value;
      } else {
        assert ks == KeySeq(prefix);
      }
    }
  }

  /** Grouping keeps keys distinct and stores under each key exactly the lines
      with that key, in input order and without de-duplication. */
  lemma {:induction false} GroupLinesContents(lines: seq<string>)
    ensures WellFormed(GroupLines(lines))
    ensures forall k :: Lookup(GroupLines(lines), k) == EntriesFor(lines, k)
  {
    if |lines| > 0 {
      var prefix := lines[..|lines| - 1];
      var last := lines[|lines| - 1];
      GroupLinesContents(prefix);
      var g := GroupLines(prefix);
      if LabKey(last).Some? {
        AddEntryWellFormed(g, LabKey(last).value, last);
        forall k
          ensures Lookup(GroupLines(lines), k) == EntriesFor(lines, k)
        {
          AddEntryLookup(g, LabKey(last).value, last, k);
        }
      }
    }
  }

  /** The groups parsed from the data field. */
  function Parse(data: string): seq<LabGroup>
  {
    GroupLines(DataLines(data))
  }

  /** The group a parsed key lives in, and what it holds. */
  lemma GroupOfKey(lines: seq<string>, k: string) returns (i: nat)
    requires k in KeySeq(lines)
    ensures i < |GroupLines(lines)| && GroupLines(lines)[i].key == k
    ensures GroupLines(lines)[i].entries == EntriesFor(lines, k)
  {
    var groups := GroupLines(lines);
    GroupLinesKeyOrder(lines);
    GroupLinesContents(lines);
    i := FirstIndex(Keys(groups), k);
    LookupAt(groups, i);
  }

  /** What the `i`-th group holds. */
  lemma GroupAt(lines: seq<string>, i: int)
    requires 0 <= i < |GroupLines(lines)|
    ensures GroupLines(lines)[i].entries == EntriesFor(lines, GroupLines(lines)[i].key)
    ensures GroupLines(lines)[i].entries != []
  {
    GroupLinesContents(lines);
    LookupAt(GroupLines(lines), i);
  }

  // ---------------------------------------------------------------------------
  // Properties of the parse as a whole

  /** A trimmed non-empty line ends up in some group iff it starts with the lab
      pattern; lines that do not match are dropped. Every stored entry is one of
      the trimmed non-empty lines. */
  lemma ParseKeepsMatchingLines(data: string, l: string)
    requires l in DataLines(data)
    ensures (exists i :: 0 <= i < |Parse(data)| && l in Parse(data)[i].entries) <==> LabToken(l).Some?
  {
    var lines := DataLines(data);
    if LabToken(l).Some? {
      var k := LabKey(l).value;
      assert l in EntriesFor(lines, k);
      var i := GroupOfKey(lines, k);
      assert l in Parse(data)[i].entries;
    } else {
      forall i | 0 <= i < |Parse(data)|
        ensures l !in Parse(data)[i].entries
      {
        GroupAt(lines, i);
      }
    }
  }

  /** Every entry stored under key `k` is a trimmed non-empty input line whose
      maximal alphanumeric prefix, followed by '-', lower-cases to `k`. */
  lemma ParseEntriesCarryTheirKey(data: string, i: int, e: string)
    requires 0 <= i < |Parse(data)| && e in Parse(data)[i].entries
    ensures e in DataLines(data)
    ensures LabToken(e).Some? && Lower(LabToken(e).value) == Parse(data)[i].key
    ensures AlnumPrefixLength(e) == |LabToken(e).value|
  {
    GroupAt(DataLines(data), i);
  }

  /** Keys are case-insensitive: two lines whose tokens agree up to ASCII case
      land in the same group (`LAB1-x` and `lab1-y` both go to `lab1`). */
  lemma ParseIgnoresCase(data: string, l1: string, l2: string)
    requires l1 in DataLines(data) && l2 in DataLines(data)
    requires LabToken(l1).Some? && LabToken(l2).Some?
    requires Lower(LabToken(l1).value) == Lower(LabToken(l2).value)
    ensures exists i :: 0 <= i < |Parse(data)| && l1 in Parse(data)[i].entries && l2 in Parse(data)[i].entries
  {
    var lines := DataLines(data);
    var k := LabKey(l1).value;
    assert l1 in EntriesFor(lines, k) && l2 in EntriesFor(lines, k);
    var i := GroupOfKey(lines, k);
    assert l1 in Parse(data)[i].entries && l2 in Parse(data)[i].entries;
  }

  /** Each group holds exactly the matching lines with its key, in input order
      (no de-duplication), and the group sizes add up to the number of matching lines. */
  lemma ParseGroupsPartitionMatches(data: string)
    ensures forall i :: 0 <= i < |Parse(data)| ==> Parse(data)[i].entries == EntriesFor(DataLines(data), Parse(data)[i].key)
    ensures TotalEntries(Parse(data)) == |Matched(DataLines(data))|
    ensures Keys(Parse(data)) == FirstSeen(KeySeq(DataLines(data)))
  {
    var groups := Parse(data);
    GroupLinesContents(DataLines(data));
    GroupLinesKeyOrder(DataLines(data));
    forall i | 0 <= i < |groups|
      ensures groups[i].entries == EntriesFor(DataLines(data), groups[i].key)
    {
      GroupAt(DataLines(data), i);
    }
  }

  /** A key as the parse produces it: a non-empty run of lower-case letters and digits. */
  predicate IsLowerAlnumKey(k: string) {
    |k| > 0 && forall i :: 0 <= i < |k| ==> IsAsciiAlnum(k[i]) && !IsAsciiUpper(k[i])
  }

  /** Every key of the parse is a non-empty run of lower-case letters and digits. */
  lemma ParsedKeyShape(data: string, j: int)
    requires 0 <= j < |Parse(data)|
    ensures IsLowerAlnumKey(Parse(data)[j].key)
  {
    var lines := DataLines(data);
    var g := Parse(data)[j];
    GroupLinesKeyOrder(lines);
    assert g.key == Keys(Parse(data))[j];
    assert g.key in KeySeq(lines);
    var l :| l in lines && LabKey(l) == Some(g.key);
  }

  /** Grouping lines that all carry the key `k` yields the single group `k`. */
  lemma {:induction false} GroupLinesSingleKey(lines: seq<string>, k: string)
    requires |lines| >= 1
    requires forall i :: 0 <= i < |lines| ==> LabKey(lines[i]) == Some(k)
    ensures GroupLines(lines) == [LabGroup(k, lines)]
  {
    var prefix := lines[..|lines| - 1];
    assert LabKey(lines[|lines| - 1]) == Some(k);
    InitThenLast(lines);
    if |lines| > 1 {
      GroupLinesSingleKey(prefix, k);
    }
  }

  /** Re-parsing the joined entries of any parsed group yields that group alone. */
  lemma ParseIsIdempotent(data: string, i: int)
    requires 0 <= i < |Parse(data)|
    ensures Parse(Join(Parse(data)[i].entries, "\n")) == [Parse(data)[i]]
  {
    var g := Parse(data)[i];
    var es := g.entries;
    GroupLinesContents(DataLines(data));
    forall j | 0 <= j < |es|
      ensures '\n' !in es[j] && es[j] != "" && Trim(es[j]) == es[j] && LabKey(es[j]) == Some(g.key)
    {
      ParseEntriesCarryTheirKey(data, i, es[j]);
      TrimFixesTrimmed(es[j]);
    }
    SplitJoin(es, '\n');
    TrimNonEmptyIdentity(es);
    GroupLinesSingleKey(es, g.key);
  }

  /** Trimming and dropping empties leaves already-trimmed non-empty lines alone. */
  lemma {:induction false} TrimNonEmptyIdentity(lines: seq<string>)
    requires forall i :: 0 <= i < |lines| ==> lines[i] != "" && Trim(lines[i]) == lines[i]
    ensures TrimNonEmpty(lines) == lines
  {
    if |lines| > 0 {
      TrimNonEmptyIdentity(lines[1..]);
      assert lines == [lines[0]] + lines[1..];
    }
  }

  // ---------------------------------------------------------------------------
  // The record as the source writes it

  /** The only lower-case alphanumeric property name that every plain object
      inherits from `Object.prototype`. */
  const InheritedKey := "constructor"

  /** The grouping loop exactly as written: `labs` is a plain object, so for the key
      `constructor` the test `!labs[labClass]` sees the inherited `Object` function,
      skips the initialisation, and `labs[labClass].push` throws a TypeError.
      None stands for that throw. */
  function GroupLinesAsWritten(lines: seq<string>): Option<seq<LabGroup>>
  {
    if |lines| == 0 then Some([])
    else
      match GroupLinesAsWritten(lines[..|lines| - 1])
      case None => None
      case Some(g) =>
        var last := lines[|lines| - 1];
        match LabKey(last)
        case None => Some(g)
        case Some(k) => if k == InheritedKey then None else Some(AddEntry(g, k, last))
  }

  /** The loop as written throws exactly when some kept line has the key
      `constructor`; otherwise it agrees with the clean grouping. */
  lemma {:induction false} AsWrittenThrowsOnInheritedKey(lines: seq<string>)
    ensures GroupLinesAsWritten(lines).None? <==> InheritedKey in KeySeq(lines)
    ensures GroupLinesAsWritten(lines).Some? ==> GroupLinesAsWritten(lines).value == GroupLines(lines)
  {
    if |lines| > 0 {
      var prefix := lines[..|lines| - 1];
      AsWrittenThrowsOnInheritedKey(prefix);
      var ks := KeySeq(lines);
      if LabKey(lines[|lines| - 1]).Some? {
        assert ks == KeySeq(prefix) + [LabKey(lines[|lines| - 1]).value];
      }
    }
  }

  /** The input that shows it: the one line `constructor-1` makes the loop as
      written throw, while the clean record groups it like any other lab. */
  lemma ConstructorLineThrows()
    ensures GroupLinesAsWritten([InheritedKey + "-1"]).None?
    ensures GroupLines([InheritedKey + "-1"]) == [LabGroup(InheritedKey, [InheritedKey + "-1"])]
  {
    var line := InheritedKey + "-1";
    LabTokenOf(InheritedKey, "-1");
    LowerFixesLowerCase(InheritedKey);
    assert LabKey(line) == Some(InheritedKey);
    assert [line][..0] == [];
    assert GroupLines([line]) == AddEntry([], InheritedKey, line);
  }

  /** A line made of an alphanumeric token and then '-' matches with that token. */
  lemma LabTokenOf(t: string, rest: string)
    requires |t| > 0 && forall i :: 0 <= i < |t| ==> IsAsciiAlnum(t[i])
    requires |rest| > 0 && rest[0] == '-'
    ensures LabToken(t + rest) == Some(t)
  {
    LabTokenIsPatternMatch(t + rest);
    assert MatchesAt(t + rest, |t|);
    assert (t + rest)[..|t|] == t;
  }
}
