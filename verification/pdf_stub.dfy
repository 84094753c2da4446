/** The placeholder document written for a blog: a fixed one-page PDF file
    whose only content stream is the stream name. Its layout follows
    ISO 32000-1: the `%PDF-1.0` header line (section 7.5.2), a cross-reference
    section of 20-byte entries (section 7.5.4) and a trailer whose `startxref`
    value is the byte offset of the `xref` keyword (section 7.5.5). */
module PdfStub {
  import Text
  import Decimal
  import opened Wrappers

  type byte = x: int | 0 <= x < 256

  // ---------------------------------------------------------------------------
  // Bytes
  // ---------------------------------------------------------------------------

  /** `str.encode()` of one character: its UTF-8 form (RFC 3629, section 3),
      one byte for ASCII, otherwise a lead byte from 0xC0 on followed by
      continuation bytes in 0x80..0xBF. */
  function EncodeChar(c: char): (b: seq<byte>)
    ensures 1 <= |b| <= 4
    ensures Text.IsAsciiChar(c) <==> |b| == 1
    ensures Text.IsAsciiChar(c) ==> b == [c as int]
    ensures !Text.IsAsciiChar(c) ==> b[0] >= 0xC0
    ensures forall i :: 1 <= i < |b| ==> 0x80 <= b[i] < 0xC0
  {
    var n := c as int;
    if n < 0x80 then [n]
    else if n < 0x800 then [0xC0 + n / 0x40, 0x80 + n % 0x40]
    else if n < 0x1_0000 then [0xE0 + n / 0x1000, 0x80 + (n / 0x40) % 0x40, 0x80 + n % 0x40]
    else [0xF0 + n / 0x4_0000, 0x80 + (n / 0x1000) % 0x40, 0x80 + (n / 0x40) % 0x40, 0x80 + n % 0x40]
  }

  /** `str.encode()`: never shorter than the text, and as long exactly when
      the text is ASCII. */
  function Encode(s: string): (b: seq<byte>)
    ensures |b| >= |s|
    ensures |b| == |s| <==> Text.IsAscii(s)
  {
    if |s| == 0 then []
    else
      var b := EncodeChar(s[0]) + Encode(s[1..]);
      assert Text.IsAscii(s) <==> Text.IsAsciiChar(s[0]) && Text.IsAscii(s[1..]) by {
        assert forall i :: 1 <= i < |s| ==> s[i] == s[1..][i - 1];
      }
      b
  }

  lemma {:induction false} EncodeConcat(a: string, b: string)
    ensures Encode(a + b) == Encode(a) + Encode(b)
    decreases |a|
  {
    if |a| == 0 {
      assert a + b == b;
    } else {
      assert (a + b)[1..] == a[1..] + b;
      EncodeConcat(a[1..], b);
    }
  }

  /** A byte string literal `b"..."`: one byte per character. The literals
      of the document are ASCII, so the fallback to 0 is never taken. */
  function Ascii(s: string): (b: seq<byte>)
    ensures |b| == |s|
    ensures forall i :: 0 <= i < |s| && Text.IsAsciiChar(s[i]) ==> b[i] == s[i] as int
  {
    seq(|s|, i requires 0 <= i < |s| => if s[i] as int < 256 then s[i] as int else 0)
  }

  /** Bytes read back one character per byte. */
  function AsText(b: seq<byte>): (s: string)
    ensures |s| == |b| && forall i {:trigger s[i]} :: 0 <= i < |b| ==> s[i] as int == b[i]
  {
    seq(|b|, i requires 0 <= i < |b| => b[i] as char)
  }

  /** On ASCII text the encoding is the byte literal, and reading it back
      gives the text. */
  lemma {:induction false} EncodeAscii(s: string)
    requires Text.IsAscii(s)
    ensures Encode(s) == Ascii(s) && AsText(Ascii(s)) == s
    decreases |s|
  {
    if |s| > 0 {
      EncodeAscii(s[1..]);
    }
  }

  lemma AsTextConcat(a: seq<byte>, b: seq<byte>)
    ensures AsText(a + b) == AsText(a) + AsText(b)
  {
  }

  lemma DigitsAreAscii(d: string)
    requires Decimal.AllDigits(d)
    ensures Text.IsAscii(d)
  {
  }

  predicate StartsWith(b: seq<byte>, p: seq<byte>) {
    |p| <= |b| && b[..|p|] == p
  }

  predicate EndsWith(b: seq<byte>, p: seq<byte>) {
    |p| <= |b| && b[|b| - |p|..] == p
  }

  /** A concatenation starts with its left part and ends with its right part. */
  lemma AppendParts(a: seq<byte>, b: seq<byte>)
    ensures StartsWith(a + b, a) && (a + b)[|a|..] == b
    ensures EndsWith(a + b, b) && (a + b)[..|a|] == a
  {
  }

  lemma Assoc(a: seq<byte>, b: seq<byte>, c: seq<byte>)
    ensures a + (b + c) == (a + b) + c
  {
  }

  /** The file regrouped around the `/Length` value. */
  lemma Regroup(h: seq<byte>, lo: seq<byte>, d: seq<byte>, s: seq<byte>, e: seq<byte>,
                sc: seq<byte>, pt: seq<byte>, cat: seq<byte>, x: seq<byte>, t: seq<byte>)
    ensures h + (lo + d + s + e + sc) + pt + cat + x + t
         == h + lo + d + s + (e + sc + pt + cat + x + t)
  {
  }

  lemma StartsWithExtend(a: seq<byte>, b: seq<byte>, p: seq<byte>)
    requires StartsWith(a, p)
    ensures StartsWith(a + b, p)
  {
    assert (a + b)[..|p|] == a[..|p|];
  }

  lemma EndsWithExtend(a: seq<byte>, b: seq<byte>, p: seq<byte>)
    requires EndsWith(b, p)
    ensures EndsWith(a + b, p)
  {
    assert (a + b)[|a + b| - |p|..] == b[|b| - |p|..];
  }

  function Repeat(p: seq<byte>, n: nat): (r: seq<byte>)
    ensures |r| == n * |p|
  {
    if n == 0 then [] else p + Repeat(p, n - 1)
  }

  /** The k-th block of `Repeat(p, n)` is `p`. */
  lemma {:induction false} RepeatBlocks(p: seq<byte>, n: nat, k: nat)
    requires k < n
    ensures (k + 1) * |p| <= |Repeat(p, n)|
    ensures Repeat(p, n)[k * |p|..(k + 1) * |p|] == p
    decreases n
  {
    MulStep(k, |p|);
    MulMonotone(k + 1, n, |p|);
    if k > 0 {
      var rest := Repeat(p, n - 1);
      RepeatBlocks(p, n - 1, k - 1);
      MulStep(k - 1, |p|);
      var lo, hi := (k - 1) * |p|, k * |p|;
      assert k * |p| == |p| + lo && (k + 1) * |p| == |p| + hi;
      assert (p + rest)[|p| + lo..|p| + hi] == rest[lo..hi];
    }
  }

  lemma MulStep(k: nat, m: nat)
    ensures (k + 1) * m == k * m + m
  {
  }

  lemma MulMonotone(a: nat, b: nat, m: nat)
    requires a <= b
    ensures a * m <= b * m
  {
  }

  // ---------------------------------------------------------------------------
  // The document
  // ---------------------------------------------------------------------------

  const Header := "%PDF-1.0\n"
  const Page := "1 0 obj\n<</Type /Page\n/Parent 2 0 R\n/Resources << /Font << /F1 3 0 R >> >>\n/Contents 4 0 R\n>>\nendobj\n"
  const Font := "3 0 obj\n<</Type /Font\n/BaseFont /Helvetica\n>>\nendobj\n"
  const LengthOpen := "4 0 obj\n<</Length "
  const StreamOpen := ">>\nstream\n"
  const StreamClose := "\nendstream\nendobj\n"
  const PageTree := "2 0 obj\n<</Type /Pages\n/Kids [1 0 R]\n/Count 1\n>>\nendobj\n"
  const Catalog := "1 0 obj\n<</Type /Catalog\n/Pages 2 0 R\n>>\nendobj\n"
  const XrefOpen := "xref\n0 "
  const Newline := "\n"
  const FreeEntry := "0000000000 65535 f \n"
  const TrailerDict := "trailer\n<</Size 6 /Root 1 0 R /Info 5 0 R>>\n"
  const StartxrefKey := "startxref\n"
  const Eof := "\n%%EOF\n"

  /** The number of cross-reference entries the document declares. */
  const EntryCount: nat := 6

  /** Object 4: the content stream, announcing `length` and holding the
      encoded stream name. */
  function Content(streamId: string, length: nat): seq<byte> {
    Ascii(LengthOpen) + Encode(Decimal.NatToString(length)) + Ascii(StreamOpen)
      + Encode(streamId) + Ascii(StreamClose)
  }

  /** Everything before the cross-reference section. */
  function Body(streamId: string, length: nat): seq<byte> {
    Ascii(Header) + Ascii(Page) + Ascii(Font) + Content(streamId, length)
      + Ascii(PageTree) + Ascii(Catalog)
  }

  function XrefSection(): seq<byte> {
    Ascii(XrefOpen) + Encode(Decimal.NatToString(EntryCount)) + Ascii(Newline)
      + Repeat(Ascii(FreeEntry), EntryCount)
  }

  function Trailer(offset: nat): seq<byte> {
    Ascii(TrailerDict) + Ascii(StartxrefKey) + Encode(Decimal.NatToString(offset)) + Ascii(Eof)
  }

  /** The file: body, cross-reference section, and a trailer pointing at the
      cross-reference section. */
  function Assemble(streamId: string, length: nat): seq<byte> {
    var body := Body(streamId, length);
    body + XrefSection() + Trailer(|body|)
  }

  /** `_create_blog_source_stub` as written: `/Length` is the number of
      characters of the stream name. */
  function StubAsWritten(streamId: string): (f: seq<byte>)
    ensures DeclaredLength(f) == Some(|streamId|)
  {
    DeclaredLengthOfAssemble(streamId, |streamId|);
    Assemble(streamId, |streamId|)
  }

  /** The placeholder with `/Length` the number of bytes of the stream, as
      section 7.3.8.2 of ISO 32000-1 asks. */
  function Stub(streamId: string): (f: seq<byte>)
    ensures DeclaredLength(f) == Some(|Encode(streamId)|)
  {
    DeclaredLengthOfAssemble(streamId, |Encode(streamId)|);
    Assemble(streamId, |Encode(streamId)|)
  }

  // ---------------------------------------------------------------------------
  // Readers
  // ---------------------------------------------------------------------------

  datatype StreamObject = StreamObject(length: nat, data: seq<byte>)

  /** Reads a number framed by `open` and `mid`, followed by data up to `close`. */
  function ParseFramed(c: seq<byte>, open: seq<byte>, mid: seq<byte>, close: seq<byte>): Option<StreamObject> {
    if !StartsWith(c, open) then None
    else
      var rest := c[|open|..];
      var n := Decimal.LeadingDigits(AsText(rest));
      if n == 0 then None
      else
        var after := rest[n..];
        if |after| < |mid| + |close| || !StartsWith(after, mid) || !EndsWith(after, close) then None
        else Some(StreamObject(Decimal.ParseDigits(AsText(rest)[..n]), after[|mid|..|after| - |close|]))
  }

  /** Reads the declared `/Length` and the stream data of a content object. */
  function ParseContent(c: seq<byte>): Option<StreamObject> {
    ParseFramed(c, Ascii(LengthOpen), Ascii(StreamOpen), Ascii(StreamClose))
  }

  /** The declared length of the stream is its actual length. */
  predicate LengthIsConsistent(c: seq<byte>) {
    ParseContent(c).Some? && ParseContent(c).value.length == |ParseContent(c).value.data|
  }

  /** Reads the number that ends a file between `key` and the closing `eof`. */
  function ReadTail(file: seq<byte>, key: seq<byte>, eof: seq<byte>): Option<nat> {
    if !EndsWith(file, eof) then None
    else NumberAtEnd(file[..|file| - |eof|], key)
  }

  /** Reads the digits that end `body`, when `key` comes right before them. */
  function NumberAtEnd(body: seq<byte>, key: seq<byte>): Option<nat> {
    var t := AsText(body);
    var n := Decimal.TrailingDigits(t);
    if n == 0 || !EndsWith(body[..|body| - n], key) then None
    else Some(Decimal.ParseDigits(t[|t| - n..]))
  }

  /** Reads the number after `startxref` at the end of a file. */
  function ReadStartxref(file: seq<byte>): Option<nat> {
    ReadTail(file, Ascii(StartxrefKey), Ascii(Eof))
  }

  /** Reads a count framed by `open` and `nl`, and what follows it. */
  function ParseCounted(x: seq<byte>, open: seq<byte>, nl: seq<byte>): Option<(nat, seq<byte>)> {
    if !StartsWith(x, open) then None
    else
      var rest := x[|open|..];
      var n := Decimal.LeadingDigits(AsText(rest));
      if n == 0 || !StartsWith(rest[n..], nl) then None
      else Some((Decimal.ParseDigits(AsText(rest)[..n]), rest[n + |nl|..]))
  }

  /** Reads the entry count of a cross-reference section and what follows
      the count line. */
  function ParseXref(x: seq<byte>): Option<(nat, seq<byte>)> {
    ParseCounted(x, Ascii(XrefOpen), Ascii(Newline))
  }

  /** Everything in the file before the `/Length` value. */
  function LengthPrefix(): seq<byte> {
    Ascii(Header) + Ascii(Page) + Ascii(Font) + Ascii(LengthOpen)
  }

  /** Reads the `/Length` the file declares for its content stream. */
  function DeclaredLength(file: seq<byte>): Option<nat> {
    match ParseCounted(file, LengthPrefix(), Ascii(StreamOpen))
    case Some((n, _)) => Some(n)
    case None => None
  }

  // ---------------------------------------------------------------------------
  // Properties of the layout
  // ---------------------------------------------------------------------------

  /** The encoded decimal form of a number reads back as its digits. */
  lemma DigitBytes(n: nat)
    ensures Encode(Decimal.NatToString(n)) == Ascii(Decimal.NatToString(n))
    ensures AsText(Encode(Decimal.NatToString(n))) == Decimal.NatToString(n)
  {
    DigitsAreAscii(Decimal.NatToString(n));
    EncodeAscii(Decimal.NatToString(n));
  }

  /** A number written before a non-digit text is read back by the leading-digits
      reader. */
  lemma ReadNumberBefore(n: nat, tail: seq<byte>)
    requires |tail| > 0 && !Decimal.IsDigit(tail[0] as char)
    ensures var rest := Encode(Decimal.NatToString(n)) + tail;
      var k := Decimal.LeadingDigits(AsText(rest));
      k == |Decimal.NatToString(n)| && k > 0
      && rest[k..] == tail
      && Decimal.ParseDigits(AsText(rest)[..k]) == n
  {
    var d := Decimal.NatToString(n);
    var rest := Encode(d) + tail;
    DigitBytes(n);
    AsTextConcat(Encode(d), tail);
    var t := AsText(tail);
    assert AsText(rest) == d + [t[0]] + t[1..];
    Decimal.LeadingDigitsBeforeMarker(d, t[0], t[1..]);
    assert AsText(rest)[..|d|] == d;
    Decimal.ParseNatToString(n);
  }

  /** A framed number and data are read back as written. */
  lemma ParseFramedOf(open: seq<byte>, n: nat, mid: seq<byte>, data: seq<byte>, close: seq<byte>)
    requires |mid| > 0 && !Decimal.IsDigit(mid[0] as char)
    ensures ParseFramed(open + Encode(Decimal.NatToString(n)) + mid + data + close, open, mid, close)
         == Some(StreamObject(n, data))
  {
    var D := Encode(Decimal.NatToString(n));
    var tail := mid + data + close;
    Assoc(open + D, mid + data, close);
    Assoc(open + D, mid, data);
    Assoc(open, D, tail);
    AppendParts(open, D + tail);
    ReadNumberBefore(n, tail);
    AppendParts(mid, data);
    StartsWithExtend(mid + data, close, mid);
    AppendParts(mid + data, close);
    assert tail[|mid|..|tail| - |close|] == data;
  }

  /** A number written after a text that ends in `key` and in a non-digit is
      read back by the trailing-digits reader. */
  lemma ReadNumberAfter(pre: seq<byte>, key: seq<byte>, n: nat)
    requires |pre| > 0 && !Decimal.IsDigit(pre[|pre| - 1] as char) && EndsWith(pre, key)
    ensures NumberAtEnd(pre + Encode(Decimal.NatToString(n)), key) == Some(n)
  {
    var d := Decimal.NatToString(n);
    var s := pre + Encode(d);
    DigitBytes(n);
    AsTextConcat(pre, Encode(d));
    var p := AsText(pre);
    var t := AsText(s);
    assert p == p[..|p| - 1] + [p[|p| - 1]];
    assert t == p[..|p| - 1] + [p[|p| - 1]] + d;
    Decimal.TrailingDigitsAfterMarker(p[..|p| - 1], p[|p| - 1], d);
    assert t[|t| - |d|..] == d;
    assert s[..|s| - |d|] == pre;
    Decimal.ParseNatToString(n);
  }

  /** A number framed by `key` and `eof` at the end of a file is read back. */
  lemma ReadTailOf(pre: seq<byte>, key: seq<byte>, n: nat, eof: seq<byte>)
    requires |key| > 0 && !Decimal.IsDigit(key[|key| - 1] as char)
    ensures ReadTail(pre + key + Encode(Decimal.NatToString(n)) + eof, key, eof) == Some(n)
  {
    var body := pre + key + Encode(Decimal.NatToString(n));
    AppendParts(body, eof);
    assert (body + eof)[..|body + eof| - |eof|] == body;
    var s := pre + key;
    AppendParts(pre, key);
    assert s[|s| - 1] == key[|key| - 1];
    ReadNumberAfter(s, key, n);
  }

  /** A count framed by `open` and `nl` is read back with what follows. */
  lemma ParseCountedOf(open: seq<byte>, n: nat, nl: seq<byte>, rest: seq<byte>)
    requires |nl| > 0 && !Decimal.IsDigit(nl[0] as char)
    ensures ParseCounted(open + Encode(Decimal.NatToString(n)) + nl + rest, open, nl) == Some((n, rest))
  {
    var D := Encode(Decimal.NatToString(n));
    var tail := nl + rest;
    Assoc(open + D, nl, rest);
    Assoc(open, D, tail);
    AppendParts(open, D + tail);
    ReadNumberBefore(n, tail);
    AppendParts(nl, rest);
  }

  lemma StreamOpenMarker()
    ensures |Ascii(StreamOpen)| > 0 && Ascii(StreamOpen)[0] == '>' as int
  {
  }

  lemma LineEndMarkers()
    ensures Ascii(Newline) == [0x0A]
    ensures |Ascii(StartxrefKey)| > 0 && Ascii(StartxrefKey)[|Ascii(StartxrefKey)| - 1] == 0x0A
  {
  }

  /** Reading the content object gives back the declared length and the
      encoded stream name. */
  lemma ParseContentOfContent(streamId: string, length: nat)
    ensures ParseContent(Content(streamId, length)) == Some(StreamObject(length, Encode(streamId)))
  {
    StreamOpenMarker();
    ParseFramedOf(Ascii(LengthOpen), length, Ascii(StreamOpen), Encode(streamId), Ascii(StreamClose));
  }

  /** With the byte count as `/Length`, the content object is consistent for
      every stream name. */
  lemma StubLengthConsistent(streamId: string)
    ensures LengthIsConsistent(Content(streamId, |Encode(streamId)|))
  {
    ParseContentOfContent(streamId, |Encode(streamId)|);
  }

  /** With the character count as `/Length`, the content object is consistent
      exactly when the stream name is ASCII. */
  lemma AsWrittenLengthConsistentIff(streamId: string)
    ensures LengthIsConsistent(Content(streamId, |streamId|)) <==> Text.IsAscii(streamId)
  {
    ParseContentOfContent(streamId, |streamId|);
  }

  /** The stream name `1-\u00e9.pdf` has seven characters and eight bytes, so
      the character count announces one byte too few. */
  lemma AsWrittenLengthCounterexample()
    ensures !LengthIsConsistent(Content("1-\U{00E9}.pdf", 7))
  {
    var id := "1-\U{00E9}.pdf";
    assert |id| == 7 && !Text.IsAsciiChar(id[2]);
    AsWrittenLengthConsistentIff(id);
  }

  /** The file declares the `/Length` it was assembled with. */
  lemma DeclaredLengthOfAssemble(streamId: string, length: nat)
    ensures DeclaredLength(Assemble(streamId, length)) == Some(length)
  {
    var P, S := LengthPrefix(), Ascii(StreamOpen);
    var D := Encode(Decimal.NatToString(length));
    var h := Ascii(Header) + Ascii(Page) + Ascii(Font);
    var e, sc := Encode(streamId), Ascii(StreamClose);
    var x, t := XrefSection(), Trailer(|Body(streamId, length)|);
    var rest := e + sc + Ascii(PageTree) + Ascii(Catalog) + x + t;
    Regroup(h, Ascii(LengthOpen), D, S, e, sc, Ascii(PageTree), Ascii(Catalog), x, t);
    assert Assemble(streamId, length) == P + D + S + rest;
    StreamOpenMarker();
    ParseCountedOf(P, length, S, rest);
  }

  /** Files assembled with different lengths differ: the length is read
      back from the file. */
  lemma AssembleDeterminesLength(streamId: string, m: nat, n: nat)
    requires Assemble(streamId, m) == Assemble(streamId, n)
    ensures m == n
  {
    DeclaredLengthOfAssemble(streamId, m);
    DeclaredLengthOfAssemble(streamId, n);
  }

  /** The placeholder as written is the corrected one exactly when the
      stream name is ASCII. */
  lemma StubAsWrittenIsStubIff(streamId: string)
    ensures StubAsWritten(streamId) == Stub(streamId) <==> Text.IsAscii(streamId)
  {
    if StubAsWritten(streamId) == Stub(streamId) {
      AssembleDeterminesLength(streamId, |streamId|, |Encode(streamId)|);
    }
  }

  /** For `1-\u00e9.pdf` the placeholder as written declares seven bytes for
      an eight-byte stream, so it is not the corrected placeholder. */
  lemma StubAsWrittenCounterexample()
    ensures DeclaredLength(StubAsWritten("1-\U{00E9}.pdf")) == Some(7)
    ensures |Encode("1-\U{00E9}.pdf")| == 8
    ensures DeclaredLength(Stub("1-\U{00E9}.pdf")) == Some(8)
    ensures StubAsWritten("1-\U{00E9}.pdf") != Stub("1-\U{00E9}.pdf")
  {
    var id := "1-\U{00E9}.pdf";
    EncodedExampleLength();
    DeclaredLengthOfAssemble(id, 7);
    DeclaredLengthOfAssemble(id, 8);
  }

  lemma EncodedExampleLength()
    ensures |Encode("1-\U{00E9}.pdf")| == 8
  {
    assert "1-\U{00E9}.pdf" == "1-" + ("\U{00E9}" + ".pdf");
    EncodeConcat("1-", "\U{00E9}" + ".pdf");
    EncodeConcat("\U{00E9}", ".pdf");
    EncodeAscii("1-");
    EncodeAscii(".pdf");
  }

  /** The header line is the bytes of `%PDF-1.0` and a line feed. */
  lemma HeaderBytes()
    ensures Ascii(Header) == [0x25, 0x50, 0x44, 0x46, 0x2D, 0x31, 0x2E, 0x30, 0x0A]
  {
  }

  /** The file starts with the `%PDF-1.0` header line and ends with the
      `%%EOF` marker line. */
  lemma StubFrame(streamId: string, length: nat)
    ensures StartsWith(Assemble(streamId, length), Ascii(Header))
    ensures EndsWith(Assemble(streamId, length), Ascii(Eof))
  {
    var H := Ascii(Header);
    var body := Body(streamId, length);
    AppendParts(H, Ascii(Page));
    StartsWithExtend(H + Ascii(Page), Ascii(Font), H);
    StartsWithExtend(H + Ascii(Page) + Ascii(Font), Content(streamId, length), H);
    StartsWithExtend(H + Ascii(Page) + Ascii(Font) + Content(streamId, length), Ascii(PageTree), H);
    StartsWithExtend(H + Ascii(Page) + Ascii(Font) + Content(streamId, length) + Ascii(PageTree),
                     Ascii(Catalog), H);
    StartsWithExtend(body, XrefSection(), H);
    StartsWithExtend(body + XrefSection(), Trailer(|body|), H);
    var front := Ascii(TrailerDict) + Ascii(StartxrefKey) + Encode(Decimal.NatToString(|body|));
    AppendParts(front, Ascii(Eof));
    EndsWithExtend(body + XrefSection(), Trailer(|body|), Ascii(Eof));
  }

  /** The cross-reference section declares six entries and is followed by
      six 20-byte free entries. */
  lemma XrefOfSection(t: seq<byte>)
    ensures ParseXref(XrefSection() + t) == Some((EntryCount, Repeat(Ascii(FreeEntry), EntryCount) + t))
    ensures |Ascii(FreeEntry)| == 20
  {
    LineEndMarkers();
    var entries := Repeat(Ascii(FreeEntry), EntryCount);
    assert XrefSection() + t
        == Ascii(XrefOpen) + Encode(Decimal.NatToString(EntryCount)) + Ascii(Newline) + (entries + t);
    ParseCountedOf(Ascii(XrefOpen), EntryCount, Ascii(Newline), entries + t);
  }

  /** The `startxref` value is the byte offset of the cross-reference section:
      reading the file from there gives the section declaring six entries. */
  lemma ReadStartxrefOfAssemble(streamId: string, length: nat)
    ensures ReadStartxref(Assemble(streamId, length)) == Some(|Body(streamId, length)|)
    ensures |Body(streamId, length)| <= |Assemble(streamId, length)|
    ensures ParseXref(Assemble(streamId, length)[|Body(streamId, length)|..])
         == Some((EntryCount, Repeat(Ascii(FreeEntry), EntryCount) + Trailer(|Body(streamId, length)|)))
  {
    var body := Body(streamId, length);
    var f := Assemble(streamId, length);
    var A, TD, K := body + XrefSection(), Ascii(TrailerDict), Ascii(StartxrefKey);
    var D, E := Encode(Decimal.NatToString(|body|)), Ascii(Eof);
    Assoc(A, (TD + K) + D, E);
    Assoc(A, TD + K, D);
    Assoc(A, TD, K);
    assert f == (((A + TD) + K) + D) + E;
    LineEndMarkers();
    ReadTailOf(A + TD, K, |body|, E);
    Assoc(body, XrefSection(), Trailer(|body|));
    AppendParts(body, XrefSection() + Trailer(|body|));
    XrefOfSection(Trailer(|body|));
  }
}
