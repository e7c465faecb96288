/**
 * The string primitives the announce handler relies on, restricted to what
 * the handler needs: ASCII character classes, the code point set stripped by
 * `String.prototype.trim`, `split` on a one-character separator, `join`,
 * ASCII `toLowerCase` and decimal rendering of a count.
 */
module Text {

  predicate IsAsciiDigit(c: char) { '0' <= c <= '9' }

  predicate IsAsciiUpper(c: char) { 'A' <= c <= 'Z' }

  predicate IsAsciiLower(c: char) { 'a' <= c <= 'z' }

  /** The character class `[A-Za-z0-9]`. */
  predicate IsAsciiAlnum(c: char) { IsAsciiDigit(c) || IsAsciiUpper(c) || IsAsciiLower(c) }

  /**
   * The code points `String.prototype.trim` removes: ECMAScript WhiteSpace
   * (TAB, VT, FF, ZWNBSP and the Unicode category Zs) and LineTerminator
   * (LF, CR, LS, PS).
   */
  predicate IsTrimmable(c: char) {
    || c == '\t' || c == '\n' || c == '\U{000B}' || c == '\U{000C}' || c == '\r'
    || c == ' ' || c == '\U{00A0}' || c == '\U{1680}' || '\U{2000}' <= c <= '\U{200A}'
    || c == '\U{2028}' || c == '\U{2029}' || c == '\U{202F}' || c == '\U{205F}'
    || c == '\U{3000}' || c == '\U{FEFF}'
  }

  // ---------------------------------------------------------------------------
  // toLowerCase on ASCII

  /** `toLowerCase` of one character, for the ASCII letters the handler feeds it. */
  function LowerChar(c: char): (r: char)
    ensures IsAsciiUpper(c) ==> IsAsciiLower(r) && r as int - c as int == 32
    ensures !IsAsciiUpper(c) ==> r == c
  {
    if IsAsciiUpper(c) then (c as int + 32) as char else c
  }

  function Lower(s: string): (r: string)
    ensures |r| == |s|
    ensures forall i :: 0 <= i < |s| ==> r[i] == LowerChar(s[i])
  {
    seq(|s|, i requires 0 <= i < |s| => LowerChar(s[i]))
  }

  /** A string without upper-case ASCII letters is its own lower case. */
  lemma LowerFixesLowerCase(s: string)
    requires forall i :: 0 <= i < |s| ==> !IsAsciiUpper(s[i])
    ensures Lower(s) == s
  {
  }

  /** Lower-casing keeps `[A-Za-z0-9]` strings inside the class and leaves no upper-case letter. */
  lemma LowerKeepsAlnum(s: string)
    requires forall i :: 0 <= i < |s| ==> IsAsciiAlnum(s[i])
    ensures forall i :: 0 <= i < |Lower(s)| ==> IsAsciiAlnum(Lower(s)[i]) && !IsAsciiUpper(Lower(s)[i])
  {
  }

  // ---------------------------------------------------------------------------
  // trim

  function TrimStart(s: string): (r: string)
    ensures |r| <= |s| && r == s[|s| - |r|..]
    ensures forall k :: 0 <= k < |s| - |r| ==> IsTrimmable(s[k])
    ensures |r| > 0 ==> !IsTrimmable(r[0])
  {
    if |s| > 0 && IsTrimmable(s[0]) then TrimStart(s[1..]) else s
  }

  function TrimEnd(s: string): (r: string)
    ensures |r| <= |s| && r == s[..|r|]
    ensures forall k :: |r| <= k < |s| ==> IsTrimmable(s[k])
    ensures |r| > 0 ==> !IsTrimmable(r[|r| - 1])
  {
    if |s| > 0 && IsTrimmable(s[|s| - 1]) then TrimEnd(s[..|s| - 1]) else s
  }

  /** `s` is `pre + s[i..j] + post` where the margins consist of trimmable code points only. */
  ghost predicate TrimmableMargins(s: string, i: int, j: int) {
    && 0 <= i <= j <= |s|
    && (forall k :: 0 <= k < i ==> IsTrimmable(s[k]))
    && (forall k :: j <= k < |s| ==> IsTrimmable(s[k]))
  }

  /** A string that starts and ends with a non-trimmable code point, or is empty. */
  predicate IsTrimmed(s: string) {
    |s| == 0 || (!IsTrimmable(s[0]) && !IsTrimmable(s[|s| - 1]))
  }

  /** How many code points `trim` cuts from the front of `s`. */
  function TrimLead(s: string): (n: nat)
    ensures n <= |s|
  {
    |s| - |TrimStart(s)|
  }

  /** `String.prototype.trim`: the middle of `s` once trimmable margins are cut off. */
  function Trim(s: string): (r: string)
    ensures IsTrimmed(r)
  {
    TrimEnd(TrimStart(s))
  }

  /** `trim` keeps a middle slice of `s` and cuts only trimmable code points. */
  lemma TrimCutsMargins(s: string)
    ensures var r := Trim(s);
      && TrimmableMargins(s, TrimLead(s), TrimLead(s) + |r|)
      && r == s[TrimLead(s)..TrimLead(s) + |r|]
  {
  }

  /** The margins `Trim` cuts are the largest possible: any split into trimmable
      margins around a trimmed middle yields the same middle. */
  lemma TrimUnique(s: string, i: int, j: int)
    requires TrimmableMargins(s, i, j) && IsTrimmed(s[i..j])
    ensures Trim(s) == s[i..j]
  {
    if i == j {
      TrimStartAll(s);
    } else {
      var m := s[i..j];
      assert m[0] == s[i] && m[|m| - 1] == s[j - 1];
      TrimStartAt(s, i);
      TrimEndAt(s, i, j);
    }
  }

  /** A string of trimmable code points trims to nothing. */
  lemma TrimStartAll(s: string)
    requires forall k :: 0 <= k < |s| ==> IsTrimmable(s[k])
    ensures TrimStart(s) == [] && Trim(s) == []
  {
  }

  /** `trimStart` stops at the first non-trimmable code point. */
  lemma {:induction false} TrimStartAt(s: string, i: int)
    requires 0 <= i < |s| && !IsTrimmable(s[i])
    requires forall k :: 0 <= k < i ==> IsTrimmable(s[k])
    ensures TrimStart(s) == s[i..]
  {
    if i > 0 {
      var t := s[1..];
      forall k | 0 <= k < i - 1
        ensures IsTrimmable(t[k])
      {
        assert t[k] == s[k + 1];
      }
      assert t[i - 1] == s[i];
      TrimStartAt(t, i - 1);
      assert t[i - 1..] == s[i..];
    }
  }

  /** `trimEnd` of the rest from `i` stops after the last non-trimmable code point. */
  lemma TrimEndAt(s: string, i: int, j: int)
    requires 0 <= i < j <= |s| && !IsTrimmable(s[j - 1])
    requires forall k :: j <= k < |s| ==> IsTrimmable(s[k])
    ensures TrimEnd(s[i..]) == s[i..j]
  {
    var t := s[i..];
    var b := |TrimEnd(t)|;
    assert j - i <= b by {
      assert t[j - i - 1] == s[j - 1];
    }
    forall k | j - i <= k < |t|
      ensures IsTrimmable(t[k])
    {
      assert t[k] == s[k + i];
    }
  }

  /** A trimmed string is its own trim; in particular `trim` is idempotent. */
  lemma TrimFixesTrimmed(s: string)
    requires IsTrimmed(s)
    ensures Trim(s) == s
  {
    TrimUnique(s, 0, |s|);
  }

  /** Every code point of a trimmed line already occurs in the untrimmed one. */
  lemma TrimKeepsOnly(s: string, c: char)
    requires c in Trim(s)
    ensures c in s
  {
    var r := Trim(s);
    TrimCutsMargins(s);
    var k :| 0 <= k < |r| && r[k] == c;
    assert s[TrimLead(s) + k] == c;
  }

  // ---------------------------------------------------------------------------
  // split and join

  /** A non-empty sequence is its front followed by its last element. */
  lemma InitThenLast<T>(s: seq<T>)
    requires |s| > 0
    ensures s[..|s| - 1] + [s[|s| - 1]] == s
  {
  }

  /** `s.split(sep)` for a one-character separator: the pieces between separators,
      one more piece than there are separators (so `""` splits into `[""]`). */
  function Split(s: string, sep: char): (r: seq<string>)
    ensures |r| >= 1
    ensures forall i :: 0 <= i < |r| ==> sep !in r[i]
    decreases |s|
  {
    if |s| == 0 then [""]
    else
      var rest := Split(s[1..], sep);
      if s[0] == sep then [""] + rest
      else [[s[0]] + rest[0]] + rest[1..]
  }

  /** The parts with `sep` between each neighbouring pair, as `Array.prototype.join` glues them. */
  function Join(parts: seq<string>, sep: string): string
  {
    if |parts| == 0 then ""
    else if |parts| == 1 then parts[0]
    else parts[0] + sep + Join(parts[1..], sep)
  }

  /** Joining the pieces of a split with the separator gives back the string. */
  lemma {:induction false} JoinSplit(s: string, sep: char)
    ensures Join(Split(s, sep), [sep]) == s
    decreases |s|
  {
    if |s| > 0 {
      var rest := Split(s[1..], sep);
      JoinSplit(s[1..], sep);
      if s[0] == sep {
        assert Split(s, sep) == [""] + rest;
        assert ([""] + rest)[1..] == rest;
        assert s == [sep] + s[1..];
      } else if |rest| == 1 {
        assert s == [s[0]] + s[1..];
      } else {
        var parts := Split(s, sep);
        assert parts[1..] == rest[1..];
        assert Join(rest, [sep]) == rest[0] + [sep] + Join(rest[1..], [sep]);
        assert s == [s[0]] + s[1..];
      }
    }
  }

  /** Splitting a separator-free prefix followed by more text glues the prefix
      onto the first piece of the rest. */
  lemma {:induction false} SplitPrefix(p: string, t: string, sep: char)
    requires sep !in p
    ensures Split(p + t, sep) == [p + Split(t, sep)[0]] + Split(t, sep)[1..]
    decreases |p|
  {
    if |p| == 0 {
      assert p + t == t;
      assert Split(t, sep) == [Split(t, sep)[0]] + Split(t, sep)[1..];
      assert p + Split(t, sep)[0] == Split(t, sep)[0];
    } else {
      SplitPrefix(p[1..], t, sep);
      assert (p + t)[1..] == p[1..] + t;
      assert [p[0]] + (p[1..] + Split(t, sep)[0]) == p + Split(t, sep)[0];
    }
  }

  /** A separator splits a concatenation into the pieces of each side. */
  lemma {:induction false} SplitAround(a: string, b: string, sep: char)
    ensures Split(a + [sep] + b, sep) == Split(a, sep) + Split(b, sep)
    decreases |a|
  {
    var s := a + [sep] + b;
    if |a| == 0 {
      assert s[1..] == b;
    } else {
      assert s[1..] == a[1..] + [sep] + b;
      SplitAround(a[1..], b, sep);
      GlueFirst(if a[0] == sep then [] else [a[0]], Split(a[1..], sep), Split(b, sep));
    }
  }

  /** Regrouping used when one more character is split off the front. */
  lemma GlueFirst<T>(x: seq<T>, front: seq<seq<T>>, back: seq<seq<T>>)
    requires |front| > 0
    ensures [x + (front + back)[0]] + (front + back)[1..] == ([x + front[0]] + front[1..]) + back
    ensures [[]] + (front + back) == ([[]] + front) + back
  {
    assert (front + back)[0] == front[0];
    assert (front + back)[1..] == front[1..] + back;
  }

  /** A string that starts with the separator splits into an empty piece and the rest. */
  lemma SplitAfterSeparator(t: string, sep: char)
    requires sep !in t
    ensures Split([sep] + t, sep) == ["", t]
  {
    SplitPrefix(t, "", sep);
    assert t + "" == t;
    SplitAround("", t, sep);
    assert "" + [sep] + t == [sep] + t;
  }

  /** Splitting a join of separator-free pieces gives back the pieces. */
  lemma {:induction false} SplitJoin(pieces: seq<string>, sep: char)
    requires |pieces| >= 1
    requires forall i :: 0 <= i < |pieces| ==> sep !in pieces[i]
    ensures Split(Join(pieces, [sep]), sep) == pieces
  {
    if |pieces| == 1 {
      SplitPrefix(pieces[0], "", sep);
      assert pieces[0] + "" == pieces[0];
    } else {
      SplitAround(pieces[0], Join(pieces[1..], [sep]), sep);
      SplitPrefix(pieces[0], "", sep);
      assert pieces[0] + "" == pieces[0];
      SplitJoin(pieces[1..], sep);
      assert [pieces[0]] + pieces[1..] == pieces;
    }
  }

  // ---------------------------------------------------------------------------
  // decimal numbers

  function DigitValue(c: char): nat
    requires IsAsciiDigit(c)
  {
    c as int - '0' as int
  }

  predicate AllDigits(s: string) {
    forall i :: 0 <= i < |s| ==> IsAsciiDigit(s[i])
  }

  /** `Number(s)` for a string of decimal digits, exact. */
  function DecimalValue(s: string): nat
    requires AllDigits(s)
  {
    if |s| == 0 then 0 else DecimalValue(s[..|s| - 1]) * 10 + DigitValue(s[|s| - 1])
  }

  /** The decimal rendering `${n}` of a natural number. */
  function NatToString(n: nat): (r: string)
    ensures |r| >= 1 && AllDigits(r)
    ensures r[0] == '0' ==> n == 0 && |r| == 1
    ensures DecimalValue(r) == n
  {
    var d := ('0' as int + n % 10) as char;
    if n < 10 then [d]
    else
      var r := NatToString(n / 10) + [d];
      assert r[..|r| - 1] == NatToString(n / 10);
      r
  }
}
