/** The string operations of Python's `str` type that the modelled code relies on:
    `lower` (ASCII letters only), the whitespace class used by `split()` and
    `strip()`, `in` on strings, `split(sep)`, `sep.join(parts)` and `strip()`. */
module Text {

  // ---------------------------------------------------------------------------
  // Characters
  // ---------------------------------------------------------------------------

  predicate IsUpper(c: char) { 'A' <= c <= 'Z' }

  predicate IsLowerLetter(c: char) { 'a' <= c <= 'z' }

  predicate IsAsciiLetter(c: char) { IsUpper(c) || IsLowerLetter(c) }

  predicate IsAsciiChar(c: char) { c as int < 128 }

  predicate IsAscii(s: string) {
    forall i :: 0 <= i < |s| ==> IsAsciiChar(s[i])
  }

  /** The characters for which Python's `str.isspace()` holds: the ASCII
      whitespace and separator controls (tab to carriage return, the four
      information separators, space) plus the Unicode space separators. */
  predicate IsSpace(c: char) {
    c == ' ' || ('\t' <= c <= '\r') || ('\U{001C}' <= c <= '\U{001F}')
    || c == '\U{0085}' || c == '\U{00A0}' || c == '\U{1680}'
    || ('\U{2000}' <= c <= '\U{200A}') || c == '\U{2028}' || c == '\U{2029}'
    || c == '\U{202F}' || c == '\U{205F}' || c == '\U{3000}'
  }

  /** `str.lower()` on one character, for the ASCII letters. */
  function LowerChar(c: char): (d: char)
    ensures !IsUpper(d)
    ensures IsUpper(c) ==> IsLowerLetter(d) && d as int == c as int + 32
    ensures !IsUpper(c) ==> d == c
  {
    if IsUpper(c) then (c as int + 32) as char else c
  }

  /** `str.lower()` restricted to ASCII upper-case letters, each lowered on
      its own. Python's full Unicode lowering is not per character: `'İ'`
      lowers to two characters and a final capital sigma to `ς`. */
  function Lower(s: string): (r: string)
    ensures |r| == |s|
    ensures forall i :: 0 <= i < |s| ==> r[i] == LowerChar(s[i])
  {
    seq(|s|, i requires 0 <= i < |s| => LowerChar(s[i]))
  }

  /** `str.replace` for a one-character pattern: every `a` becomes `b`. */
  function ReplaceChar(s: string, a: char, b: char): (r: string)
    ensures |r| == |s|
    ensures forall i :: 0 <= i < |s| ==> r[i] == (if s[i] == a then b else s[i])
  {
    if |s| == 0 then []
    else [if s[0] == a then b else s[0]] + ReplaceChar(s[1..], a, b)
  }

  predicate HasNoUpper(s: string) {
    forall i :: 0 <= i < |s| ==> !IsUpper(s[i])
  }

  lemma LowerHasNoUpper(s: string)
    ensures HasNoUpper(Lower(s))
  {
  }

  lemma LowerIdempotent(s: string)
    ensures Lower(Lower(s)) == Lower(s)
  {
  }

  lemma LowerConcat(a: string, b: string)
    ensures Lower(a + b) == Lower(a) + Lower(b)
  {
  }

  lemma LowerSlice(s: string, i: int, j: int)
    requires 0 <= i <= j <= |s|
    ensures Lower(s)[i..j] == Lower(s[i..j])
  {
  }

  // ---------------------------------------------------------------------------
  // Substrings: the `in` operator on two strings
  // ---------------------------------------------------------------------------

  predicate OccursAt(needle: string, hay: string, i: int) {
    0 <= i && i + |needle| <= |hay| && hay[i..i + |needle|] == needle
  }

  /** The reference meaning of `needle in hay`. */
  ghost predicate IsSubstring(needle: string, hay: string) {
    exists i :: OccursAt(needle, hay, i)
  }

  /** `needle in hay`, computed by trying every start position from the left. */
  function Contains(hay: string, needle: string): (r: bool)
    ensures r <==> IsSubstring(needle, hay)
    decreases |hay|
  {
    if |needle| > |hay| then
      assert forall i :: !OccursAt(needle, hay, i);
      false
    else if hay[..|needle|] == needle then
      assert OccursAt(needle, hay, 0);
      true
    else
      var r := Contains(hay[1..], needle);
      ShiftOccurrence(needle, hay);
      r
  }

  /** An occurrence not at position 0 is an occurrence in the tail. */
  lemma ShiftOccurrence(needle: string, hay: string)
    requires |hay| > 0 && |needle| <= |hay| && hay[..|needle|] != needle
    ensures IsSubstring(needle, hay) <==> IsSubstring(needle, hay[1..])
  {
    if IsSubstring(needle, hay) {
      var i :| OccursAt(needle, hay, i);
      assert i != 0;
      assert hay[1..][i - 1..i - 1 + |needle|] == hay[i..i + |needle|];
      assert OccursAt(needle, hay[1..], i - 1);
    }
    if IsSubstring(needle, hay[1..]) {
      var i :| OccursAt(needle, hay[1..], i);
      assert hay[1..][i..i + |needle|] == hay[i + 1..i + 1 + |needle|];
      assert OccursAt(needle, hay, i + 1);
    }
  }

  /** Lowering both sides keeps an occurrence. */
  lemma {:induction false} LowerKeepsSubstring(needle: string, hay: string)
    requires IsSubstring(needle, hay)
    ensures IsSubstring(Lower(needle), Lower(hay))
  {
    var i :| OccursAt(needle, hay, i);
    LowerSlice(hay, i, i + |needle|);
    assert OccursAt(Lower(needle), Lower(hay), i);
  }

  lemma EmptyIsSubstring(hay: string)
    ensures IsSubstring("", hay)
  {
    assert OccursAt("", hay, 0);
  }

  // ---------------------------------------------------------------------------
  // split, join, strip
  // ---------------------------------------------------------------------------

  /** Where a string is cut: at one given character (`s.split(c)`) or at any
      whitespace (`s.split()`). */
  datatype Separator = Exactly(c: char) | AnySpace

  predicate Separates(sep: Separator, c: char) {
    match sep
    case Exactly(d) => c == d
    case AnySpace => IsSpace(c)
  }

  /** Number of separator characters in `s`. */
  function CountSeparators(s: string, sep: Separator): nat {
    if |s| == 0 then 0
    else (if Separates(sep, s[0]) then 1 else 0) + CountSeparators(s[1..], sep)
  }

  predicate NoSeparator(s: string, sep: Separator) {
    forall j :: 0 <= j < |s| ==> !Separates(sep, s[j])
  }

  /** One step of the split: a separator starts a new piece before the
      pieces of the rest; any other character joins the first of them. */
  function SplitStep(sep: Separator, x: char, rest: seq<string>): (r: seq<string>)
    requires |rest| > 0
    ensures |r| == |rest| + (if Separates(sep, x) then 1 else 0)
  {
    if Separates(sep, x) then [""] + rest else [[x] + rest[0]] + rest[1..]
  }

  /** A step only touches the first piece, so it commutes with appending
      pieces at the end. */
  lemma SplitStepAppend(sep: Separator, x: char, u: seq<string>, v: seq<string>)
    requires |u| > 0
    ensures SplitStep(sep, x, u + v) == SplitStep(sep, x, u) + v
  {
    assert (u + v)[0] == u[0] && (u + v)[1..] == u[1..] + v;
  }

  /** Cut `s` at every separator character, keeping empty pieces: k separators
      give k + 1 pieces. */
  function SplitAt(s: string, sep: Separator): (r: seq<string>)
    ensures |r| == CountSeparators(s, sep) + 1
    decreases |s|
  {
    if |s| == 0 then [""] else SplitStep(sep, s[0], SplitAt(s[1..], sep))
  }

  /** No piece of a split holds a separator. */
  lemma {:induction false} SplitPiecesHaveNoSeparator(s: string, sep: Separator)
    ensures forall k :: 0 <= k < |SplitAt(s, sep)| ==> NoSeparator(SplitAt(s, sep)[k], sep)
    decreases |s|
  {
    if |s| > 0 {
      SplitPiecesHaveNoSeparator(s[1..], sep);
    }
  }

  /** `s.split(sep)` for a one-character separator. */
  function Split(s: string, sep: char): seq<string> {
    SplitAt(s, Exactly(sep))
  }

  /** Python's `sep.join(parts)`: the parts in order with `sep` between
      neighbours. */
  function Join(sep: string, parts: seq<string>): string {
    if |parts| == 0 then ""
    else if |parts| == 1 then parts[0]
    else parts[0] + sep + Join(sep, parts[1..])
  }

  /** The pieces that are not empty, in order. */
  function NonEmpty(parts: seq<string>): (r: seq<string>)
    ensures |r| <= |parts|
    ensures forall k :: 0 <= k < |r| ==> r[k] != "" && r[k] in parts
    ensures forall k :: 0 <= k < |parts| && parts[k] != "" ==> parts[k] in r
  {
    if |parts| == 0 then []
    else if parts[0] == "" then NonEmpty(parts[1..])
    else [parts[0]] + NonEmpty(parts[1..])
  }

  lemma NonEmptyConcat(a: seq<string>, b: seq<string>)
    ensures NonEmpty(a + b) == NonEmpty(a) + NonEmpty(b)
  {
    if |a| > 0 {
      assert (a + b)[1..] == a[1..] + b;
      NonEmptyConcat(a[1..], b);
    } else {
      assert a + b == b;
    }
  }

  /** `s.split()` without arguments: the maximal runs of non-whitespace. */
  function Words(s: string): seq<string> {
    NonEmpty(SplitAt(s, AnySpace))
  }

  /** Splitting at a separator character splits the two sides independently. */
  lemma {:induction false} SplitConcat(a: string, c: char, b: string, sep: Separator)
    requires Separates(sep, c)
    ensures SplitAt(a + [c] + b, sep) == SplitAt(a, sep) + SplitAt(b, sep)
    decreases |a|
  {
    var s := a + [c] + b;
    if |a| == 0 {
      assert s[0] == c && s[1..] == b;
    } else {
      assert s[0] == a[0] && s[1..] == a[1..] + [c] + b;
      SplitConcat(a[1..], c, b, sep);
      SplitStepAppend(sep, a[0], SplitAt(a[1..], sep), SplitAt(b, sep));
    }
  }

  lemma JoinCons(sep: string, p: string, ps: seq<string>)
    requires |ps| > 0
    ensures Join(sep, [p] + ps) == p + sep + Join(sep, ps)
  {
    assert ([p] + ps)[1..] == ps;
  }

  /** A prefix of the first part is a prefix of the joined string. */
  lemma JoinPrependFirst(sep: string, pre: string, ps: seq<string>)
    requires |ps| > 0
    ensures Join(sep, [pre + ps[0]] + ps[1..]) == pre + Join(sep, ps)
  {
    if |ps| > 1 {
      JoinCons(sep, pre + ps[0], ps[1..]);
      JoinCons(sep, ps[0], ps[1..]);
      assert ps == [ps[0]] + ps[1..];
    }
  }

  /** Joining the pieces of `split(sep)` with `sep` gives back the string. */
  lemma {:induction false} JoinSplit(s: string, sep: char)
    ensures Join([sep], Split(s, sep)) == s
    decreases |s|
  {
    if |s| > 0 {
      var rest := SplitAt(s[1..], Exactly(sep));
      JoinSplit(s[1..], sep);
      assert Join([sep], rest) == s[1..];
      if s[0] == sep {
        JoinCons([sep], "", rest);
        assert s == [sep] + s[1..];
      } else {
        var head := [s[0]] + rest[0];
        if |rest| == 1 {
          assert Split(s, sep) == [head];
        } else {
          JoinCons([sep], rest[0], rest[1..]);
          assert rest == [rest[0]] + rest[1..];
          JoinCons([sep], head, rest[1..]);
          assert Split(s, sep) == [head] + rest[1..];
        }
        assert s == [s[0]] + s[1..];
      }
    }
  }

  /** Splitting a join of separator-free pieces gives the pieces back. */
  lemma {:induction false} SplitJoin(parts: seq<string>, c: char)
    requires |parts| > 0
    requires forall k :: 0 <= k < |parts| ==> NoSeparator(parts[k], Exactly(c))
    ensures Split(Join([c], parts), c) == parts
    decreases |parts|
  {
    SplitWithoutSeparator(parts[0], Exactly(c));
    if |parts| > 1 {
      var rest := Join([c], parts[1..]);
      SplitJoin(parts[1..], c);
      assert Join([c], parts) == parts[0] + [c] + rest;
      SplitConcat(parts[0], c, rest, Exactly(c));
      assert parts == [parts[0]] + parts[1..];
    }
  }

  /** Drops leading whitespace. */
  function TrimLeft(s: string): (r: string)
    ensures |r| <= |s| && r == s[|s| - |r|..]
    ensures |r| > 0 ==> !IsSpace(r[0])
    ensures forall i :: 0 <= i < |s| - |r| ==> IsSpace(s[i])
  {
    if |s| > 0 && IsSpace(s[0]) then TrimLeft(s[1..]) else s
  }

  /** Drops trailing whitespace. */
  function TrimRight(s: string): (r: string)
    ensures |r| <= |s| && r == s[..|r|]
    ensures |r| > 0 ==> !IsSpace(r[|r| - 1])
    ensures forall i :: |r| <= i < |s| ==> IsSpace(s[i])
  {
    if |s| > 0 && IsSpace(s[|s| - 1]) then TrimRight(s[..|s| - 1]) else s
  }

  /** `r` sits in `s` at `i`, everything of `s` around it is whitespace, and
      `r` neither starts nor ends with whitespace. */
  predicate StrippedAt(r: string, s: string, i: int) {
    OccursAt(r, s, i)
    && (forall j :: 0 <= j < i ==> IsSpace(s[j]))
    && (forall j :: i + |r| <= j < |s| ==> IsSpace(s[j]))
    && (|r| > 0 ==> !IsSpace(r[0]) && !IsSpace(r[|r| - 1]))
  }

  /** The reference meaning of `r == s.strip()`: `r` is `s` with the whitespace
      around it removed, and nothing else. */
  ghost predicate IsStripOf(r: string, s: string) {
    exists i :: StrippedAt(r, s, i)
  }

  /** `s.strip()`: `s` with its leading and trailing whitespace removed. */
  function Strip(s: string): (r: string)
    ensures IsStripOf(r, s)
    ensures IsSubstring(r, s)
    ensures (|s| == 0 || (!IsSpace(s[0]) && !IsSpace(s[|s| - 1]))) ==> r == s
  {
    TrimsStrip(s);
    TrimRight(TrimLeft(s))
  }

  /** Trimming the left and then the right end leaves the strip. */
  lemma TrimsStrip(s: string)
    ensures StrippedAt(TrimRight(TrimLeft(s)), s, |s| - |TrimLeft(s)|)
  {
    var l := TrimLeft(s);
    var r := TrimRight(l);
    var i := |s| - |l|;
    SliceOfSlice(s, i, |r|);
    forall j | i + |r| <= j < |s|
      ensures IsSpace(s[j])
    {
      assert s[j] == l[j - i];
    }
  }

  /** A string has one strip only. */
  lemma StripUnique(a: string, b: string, s: string, i: int, k: int)
    requires StrippedAt(a, s, i) && StrippedAt(b, s, k)
    ensures a == b
  {
    if |a| > 0 {
      assert s[i] == a[0] && s[i + |a| - 1] == a[|a| - 1];
    }
    if |b| > 0 {
      assert s[k] == b[0] && s[k + |b| - 1] == b[|b| - 1];
    }
    if |a| > 0 && |b| > 0 {
      assert i == k;
      assert |a| == |b|;
    }
  }

  /** `Strip` is the one strip of its input. */
  lemma StripIsTheStrip(s: string, r: string)
    requires IsStripOf(r, s)
    ensures Strip(s) == r
  {
    var i :| StrippedAt(r, s, i);
    var k :| StrippedAt(Strip(s), s, k);
    StripUnique(r, Strip(s), s, i, k);
  }

  /** A prefix of a suffix occurs where the suffix starts. */
  lemma SliceOfSlice(s: string, start: nat, n: nat)
    requires start <= |s| && n <= |s| - start
    ensures OccursAt(s[start..][..n], s, start)
  {
    assert s[start..][..n] == s[start..start + n];
  }

  /** A slice of a string without separators has none either. */
  lemma SliceKeepsNoSeparator(r: string, s: string, sep: Separator)
    requires IsSubstring(r, s) && NoSeparator(s, sep)
    ensures NoSeparator(r, sep)
  {
    var i :| OccursAt(r, s, i);
    assert forall j :: 0 <= j < |r| ==> r[j] == s[i + j];
  }

  // ---------------------------------------------------------------------------
  // Character classes carried through split and join
  // ---------------------------------------------------------------------------

  predicate AllWhere(s: string, p: char -> bool) {
    forall i :: 0 <= i < |s| ==> p(s[i])
  }

  /** The pieces of a split only hold characters of the split string. */
  lemma {:induction false} SplitKeeps(s: string, sep: Separator, p: char -> bool)
    requires AllWhere(s, p)
    ensures forall k :: 0 <= k < |SplitAt(s, sep)| ==> AllWhere(SplitAt(s, sep)[k], p)
    decreases |s|
  {
    if |s| > 0 {
      SplitKeeps(s[1..], sep, p);
    }
  }

  /** A join only holds characters of its separator and its pieces. */
  lemma {:induction false} JoinKeeps(sep: string, parts: seq<string>, p: char -> bool)
    requires AllWhere(sep, p)
    requires forall k :: 0 <= k < |parts| ==> AllWhere(parts[k], p)
    ensures AllWhere(Join(sep, parts), p)
    decreases |parts|
  {
    if |parts| > 1 {
      JoinKeeps(sep, parts[1..], p);
    }
  }

  /** A string without the separator splits into one piece, itself. */
  lemma {:induction false} SplitWithoutSeparator(s: string, sep: Separator)
    requires NoSeparator(s, sep)
    ensures SplitAt(s, sep) == [s]
    decreases |s|
  {
    if |s| > 0 {
      SplitWithoutSeparator(s[1..], sep);
      assert s == [s[0]] + s[1..];
    }
  }
}
