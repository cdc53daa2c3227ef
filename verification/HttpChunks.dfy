/** Chunked bodies (section 4.1 of RFC 7230) and the stream operations both readers share:
    searching for CRLF, reading a hexadecimal size, skipping to the end of a line. */
module HttpChunks {
  import opened Machine

  const CR: byte := 13
  const LF: byte := 10
  const CRLF: seq<byte> := [13, 10]

  predicate IsSpace(c: byte) {
    c == 32 || 9 <= c <= 13
  }

  predicate IsHex(c: byte) {
    48 <= c <= 57 || 65 <= c <= 70 || 97 <= c <= 102
  }

  function HexDigit(c: byte): nat
    requires IsHex(c)
  {
    if c <= 57 then c - 48 else if c <= 70 then c - 55 else c - 87
  }

  predicate AllHex(d: seq<byte>) {
    forall i :: 0 <= i < |d| ==> IsHex(d[i])
  }

  function HexValue(d: seq<byte>): nat
    requires AllHex(d)
  {
    if d == [] then 0 else 16 * HexValue(d[..|d| - 1]) + HexDigit(d[|d| - 1])
  }

  // ---------------------------------------------------------------- stream operations

  predicate CrlfAt(b: seq<byte>, i: nat) {
    i + 1 < |b| && b[i] == CR && b[i + 1] == LF
  }

  /** The condition on which async_read_until completes. */
  predicate HasLine(b: seq<byte>) {
    exists i :: 0 <= i < |b| && CrlfAt(b, i)
  }

  function SkipSpaces(b: seq<byte>): seq<byte> {
    if b != [] && IsSpace(b[0]) then SkipSpaces(b[1..]) else b
  }

  function HexPrefix(b: seq<byte>): (n: nat)
    ensures n <= |b| && AllHex(b[..n])
    ensures n < |b| ==> !IsHex(b[n])
  {
    if b != [] && IsHex(b[0]) then 1 + HexPrefix(b[1..]) else 0
  }

  /** What extracting an unsigned hexadecimal number below `limit` into a variable that holds `held`
      leaves: the variable, the rest of the stream and whether the stream is still good.  When nothing
      but white space is buffered no number is looked for and the variable keeps its value; other
      characters that are no number give 0, an overflow the largest value.  All of these, and reaching
      the end of the buffer, stop further extraction. */
  datatype Extracted = Extracted(value: nat, rest: seq<byte>, good: bool)

  function ExtractHex(b: seq<byte>, held: nat, limit: nat): (x: Extracted)
    requires held < limit
    ensures x.value < limit
  {
    var text := SkipSpaces(b);
    var n := HexPrefix(text);
    var v := HexValue(text[..n]);
    if text == [] then Extracted(held, [], false)
    else if n == 0 then Extracted(0, text, false)
    else if v >= limit then Extracted(limit - 1, text[n..], false)
    else Extracted(v, text[n..], n < |text|)
  }

  function AfterLineFeed(b: seq<byte>): seq<byte> {
    if b == [] then [] else if b[0] == LF then b[1..] else AfterLineFeed(b[1..])
  }

  /** The size line as both readers take it off the stream. */
  function AfterSizeLine(x: Extracted): seq<byte> {
    if x.good then AfterLineFeed(x.rest) else x.rest
  }

  lemma {:induction false} SkipSpacesSuffix(b: seq<byte>)
    ensures |SkipSpaces(b)| <= |b| && SkipSpaces(b) == b[|b| - |SkipSpaces(b)|..]
  {
    if b != [] && IsSpace(b[0]) {
      SkipSpacesSuffix(b[1..]);
    }
  }

  lemma {:induction false} AfterLineFeedSuffix(b: seq<byte>)
    ensures |AfterLineFeed(b)| <= |b| && AfterLineFeed(b) == b[|b| - |AfterLineFeed(b)|..]
  {
    if b != [] {
      AfterLineFeedSuffix(b[1..]);
    }
  }

  lemma {:induction false} SkipSpacesConcat(a: seq<byte>, b: seq<byte>)
    ensures SkipSpaces(a + b) == if SkipSpaces(a) == [] then SkipSpaces(b) else SkipSpaces(a) + b
  {
    if a == [] {
      assert a + b == b;
    } else {
      assert (a + b)[1..] == a[1..] + b;
      SkipSpacesConcat(a[1..], b);
    }
  }

  /** What taking a size line off leaves is the end of what was buffered. */
  lemma SizeLineSuffix(b: seq<byte>, held: nat, limit: nat)
    requires held < limit
    ensures var r := AfterSizeLine(ExtractHex(b, held, limit)); |r| <= |b| && r == b[|b| - |r|..]
  {
    SkipSpacesSuffix(b);
    AfterLineFeedSuffix(ExtractHex(b, held, limit).rest);
  }

  lemma {:induction false} SkippingShrinks(b: seq<byte>)
    ensures |SkipSpaces(b)| <= |b| && |AfterLineFeed(b)| <= |b|
  {
    if b != [] {
      SkippingShrinks(b[1..]);
    }
  }

  /** Handling a size line that leaves a positive size takes something off the buffer. */
  lemma SizeLineShrinks(b: seq<byte>, held: nat, limit: nat)
    requires held < limit && b != []
    ensures var x := ExtractHex(b, held, limit); x.value > 0 ==> |AfterSizeLine(x)| < |b|
  {
    SkippingShrinks(b);
    SkippingShrinks(ExtractHex(b, held, limit).rest);
  }

  method SkipLine(b: seq<byte>) returns (rest: seq<byte>)
    ensures rest == AfterLineFeed(b)
  {
    rest := b;
    while rest != []
      invariant AfterLineFeed(rest) == AfterLineFeed(b)
      decreases |rest|
    {
      var ch := rest[0];
      rest := rest[1..];
      if ch == LF {
        return;
      }
    }
  }

  // ---------------------------------------------------------------- the encoding

  /** One chunk as a peer may send it: any spelling of the size, any extension. */
  datatype Chunk = Chunk(digits: seq<byte>, ext: seq<byte>, data: seq<byte>)

  predicate ValidExtension(ext: seq<byte>) {
    && (ext == [] || ext[0] == 59 || ext[0] == 32 || ext[0] == 9)
    && LF !in ext
  }

  predicate ValidSizeText(digits: seq<byte>, ext: seq<byte>, size: nat) {
    digits != [] && AllHex(digits) && HexValue(digits) == size && ValidExtension(ext)
  }

  predicate ValidChunk(c: Chunk, limit: nat) {
    0 < |c.data| && |c.data| + 2 < limit && ValidSizeText(c.digits, c.ext, |c.data|)
  }

  predicate ValidChunks(chunks: seq<Chunk>, limit: nat) {
    forall i :: 0 <= i < |chunks| ==> ValidChunk(chunks[i], limit)
  }

  function SizeLine(digits: seq<byte>, ext: seq<byte>): seq<byte> {
    digits + ext + CRLF
  }

  function EncodeChunk(c: Chunk): seq<byte> {
    SizeLine(c.digits, c.ext) + c.data + CRLF
  }

  function EncodeAll(chunks: seq<Chunk>): seq<byte> {
    if chunks == [] then [] else EncodeChunk(chunks[0]) + EncodeAll(chunks[1..])
  }

  /** What a peer sends: chunks, the zero-size line, and whatever follows it. */
  datatype Peer = Peer(chunks: seq<Chunk>, zero: seq<byte>, zeroExt: seq<byte>, rest: seq<byte>)

  predicate ValidPeer(p: Peer, limit: nat) {
    ValidChunks(p.chunks, limit) && ValidSizeText(p.zero, p.zeroExt, 0)
  }

  /** What is left of it after k chunks. */
  function Remaining(p: Peer, k: nat): seq<byte>
    requires k <= |p.chunks|
  {
    EncodeAll(p.chunks[k..]) + (SizeLine(p.zero, p.zeroExt) + p.rest)
  }

  function Sent(p: Peer): seq<byte> {
    Remaining(p, 0)
  }

  lemma RemainingUnfold(p: Peer, k: nat)
    requires k < |p.chunks|
    ensures var c := p.chunks[k];
            Remaining(p, k) == SizeLine(c.digits, c.ext) + (c.data + CRLF + Remaining(p, k + 1))
  {
    assert p.chunks[k..][1..] == p.chunks[k + 1..];
  }

  function Payload(chunks: seq<Chunk>): seq<byte> {
    if chunks == [] then [] else Payload(chunks[..|chunks| - 1]) + chunks[|chunks| - 1].data
  }

  lemma PayloadStep(chunks: seq<Chunk>, k: nat)
    requires k < |chunks|
    ensures Payload(chunks[..k + 1]) == Payload(chunks[..k]) + chunks[k].data
  {
    assert chunks[..k + 1][..k] == chunks[..k];
  }

  lemma {:induction false} PayloadPrefix(chunks: seq<Chunk>, k: nat)
    requires k <= |chunks|
    ensures Payload(chunks[..k]) <= Payload(chunks)
    decreases |chunks| - k
  {
    if k < |chunks| {
      PayloadStep(chunks, k);
      PayloadPrefix(chunks, k + 1);
    } else {
      assert chunks[..k] == chunks;
    }
  }

  // ---------------------------------------------------------------- reading what was printed

  lemma {:induction false} HexPrefixExact(digits: seq<byte>, more: seq<byte>)
    requires AllHex(digits) && more != [] && !IsHex(more[0])
    ensures HexPrefix(digits + more) == |digits|
  {
    if digits != [] {
      assert (digits + more)[1..] == digits[1..] + more;
      HexPrefixExact(digits[1..], more);
    }
  }

  lemma {:induction false} AfterLineFeedExact(ext: seq<byte>, more: seq<byte>)
    requires LF !in ext
    ensures AfterLineFeed(ext + CRLF + more) == more
  {
    if ext == [] {
      assert ext + CRLF + more == CRLF + more;
      assert (CRLF + more)[1..] == [LF] + more;
    } else {
      assert (ext + CRLF + more)[1..] == ext[1..] + CRLF + more;
      AfterLineFeedExact(ext[1..], more);
    }
  }

  /** Extracting the size of a printed size line gives the size, and skipping the line consumes
      exactly its bytes. */
  lemma SizeLineRoundTrip(digits: seq<byte>, ext: seq<byte>, size: nat, more: seq<byte>, held: nat, limit: nat)
    requires ValidSizeText(digits, ext, size) && size < limit && held < limit
    ensures var x := ExtractHex(SizeLine(digits, ext) + more, held, limit);
            x == Extracted(size, ext + CRLF + more, true) && AfterSizeLine(x) == more
  {
    var tail := ext + CRLF + more;
    assert SizeLine(digits, ext) + more == digits + tail;
    assert !IsSpace((digits + tail)[0]);
    HexPrefixExact(digits, tail);
    assert (digits + tail)[..|digits|] == digits && (digits + tail)[|digits|..] == tail;
    AfterLineFeedExact(ext, more);
  }

  lemma NoLineFeedInside(digits: seq<byte>, ext: seq<byte>)
    requires AllHex(digits) && ValidExtension(ext)
    ensures forall j :: 0 <= j < |digits| + |ext| + 1 ==> SizeLine(digits, ext)[j] != LF
  {
    forall j | 0 <= j < |digits| + |ext| + 1 ensures SizeLine(digits, ext)[j] != LF {
      if |digits| <= j < |digits| + |ext| {
        assert SizeLine(digits, ext)[j] == ext[j - |digits|];
      }
    }
  }

  /** The receive buffer is a prefix of what is still to come; it holds a CRLF exactly when it
      holds the whole next size line. */
  lemma LineArrived(rcv: seq<byte>, future: seq<byte>, digits: seq<byte>, ext: seq<byte>, size: nat, more: seq<byte>)
    requires ValidSizeText(digits, ext, size)
    requires rcv + future == SizeLine(digits, ext) + more
    ensures HasLine(rcv) <==> |SizeLine(digits, ext)| <= |rcv|
    ensures HasLine(rcv) ==>
              var n := |SizeLine(digits, ext)|;
              rcv == SizeLine(digits, ext) + rcv[n..] && rcv[n..] + future == more
  {
    var whole, n := rcv + future, |SizeLine(digits, ext)|;
    assert CrlfAt(whole, n - 2);
    if n <= |rcv| {
      assert CrlfAt(rcv, n - 2);
      assert rcv[..n] == whole[..n] == SizeLine(digits, ext);
      assert rcv[n..] + future == whole[n..] == more;
    }
    NoLineFeedInside(digits, ext);
    assert forall j :: 0 <= j < n - 1 ==> whole[j] == SizeLine(digits, ext)[j];
    if HasLine(rcv) {
      var i :| 0 <= i < |rcv| && CrlfAt(rcv, i);
      assert i + 1 < |rcv| && rcv[i + 1] == LF;
      assert whole[i + 1] == rcv[i + 1];
    }
  }

  // ---------------------------------------------------------------- bodies as senders print them

  const LOWER: seq<byte> := [48, 49, 50, 51, 52, 53, 54, 55, 56, 57, 97, 98, 99, 100, 101, 102]
  const UPPER: seq<byte> := [48, 49, 50, 51, 52, 53, 54, 55, 56, 57, 65, 66, 67, 68, 69, 70]

  /** A number in base 16, with the digits of a table. */
  function HexText(n: nat, table: seq<byte>): seq<byte>
    requires |table| == 16
  {
    if n < 16 then [table[n]] else HexText(n / 16, table) + [table[n % 16]]
  }

  /** How a sender writes a size: zeros in front, upper or lower case, and an extension behind. */
  datatype Style = Style(zeros: nat, upper: bool, ext: seq<byte>)

  function SizeDigits(n: nat, style: Style): seq<byte> {
    seq(style.zeros, _ => 48) + HexText(n, if style.upper then UPPER else LOWER)
  }

  /** The parts of a body, each behind its size, and the zero-size line. */
  function PrintedBody(parts: seq<seq<byte>>, styles: seq<Style>, last: Style): seq<byte>
    requires |styles| == |parts|
  {
    if parts == [] then SizeDigits(0, last) + last.ext + [13, 10]
    else
      SizeDigits(|parts[0]|, styles[0]) + styles[0].ext + [13, 10] + parts[0] + [13, 10]
      + PrintedBody(parts[1..], styles[1..], last)
  }

  /** No part is empty or, with its CRLF, beyond the size type; extensions are those of RFC 7230. */
  predicate Printable(parts: seq<seq<byte>>, styles: seq<Style>, last: Style, limit: nat) {
    && |styles| == |parts| && ValidExtension(last.ext)
    && forall i :: 0 <= i < |parts| ==> 0 < |parts[i]| < limit - 2 && ValidExtension(styles[i].ext)
  }

  lemma TableDigit(k: nat, upper: bool)
    requires k < 16
    ensures var d := (if upper then UPPER else LOWER)[k]; IsHex(d) && HexDigit(d) == k
  {
    var table := if upper then UPPER else LOWER;
    assert table[0] == 48 && table[1] == 49 && table[2] == 50 && table[3] == 51;
    assert table[4] == 52 && table[5] == 53 && table[6] == 54 && table[7] == 55;
    assert table[8] == 56 && table[9] == 57;
    if upper {
      assert table[10] == 65 && table[11] == 66 && table[12] == 67 && table[13] == 68 && table[14] == 69 && table[15] == 70;
    } else {
      assert table[10] == 97 && table[11] == 98 && table[12] == 99 && table[13] == 100 && table[14] == 101 && table[15] == 102;
    }
  }

  lemma {:induction false} HexTextValue(n: nat, upper: bool, table: seq<byte>)
    requires table == if upper then UPPER else LOWER
    ensures AllHex(HexText(n, table)) && HexValue(HexText(n, table)) == n
  {
    TableDigit(n % 16, upper);
    ShownDigits(n, table, table[n % 16]);
    if n >= 16 {
      HexTextValue(n / 16, upper, table);
    }
  }

  lemma ShownDigits(n: nat, table: seq<byte>, d: byte)
    requires |table| == 16 && d == table[n % 16] && IsHex(d) && HexDigit(d) == n % 16
    ensures n < 16 ==> AllHex(HexText(n, table)) && HexValue(HexText(n, table)) == n
    ensures n >= 16 && AllHex(HexText(n / 16, table)) && HexValue(HexText(n / 16, table)) == n / 16 ==>
              AllHex(HexText(n, table)) && HexValue(HexText(n, table)) == n
  {
    if n < 16 {
      DigitBehind([], d);
      assert [] + [d] == HexText(n, table);
    } else if AllHex(HexText(n / 16, table)) {
      DigitBehind(HexText(n / 16, table), d);
    }
  }

  lemma DigitBehind(digits: seq<byte>, d: byte)
    requires AllHex(digits) && IsHex(d)
    ensures AllHex(digits + [d]) && HexValue(digits + [d]) == 16 * HexValue(digits) + HexDigit(d)
  {
    assert (digits + [d])[..|digits|] == digits;
  }

  lemma {:induction false} LeadingZero(digits: seq<byte>)
    requires AllHex(digits)
    ensures AllHex([48] + digits) && HexValue([48] + digits) == HexValue(digits)
  {
    var text := [48] + digits;
    if digits == [] {
      assert text[..0] == [] && HexValue(text) == 16 * HexValue(text[..0]) + 0;
    } else {
      LeadingZero(digits[..|digits| - 1]);
      assert text[..|text| - 1] == [48] + digits[..|digits| - 1];
    }
  }

  lemma {:induction false} LeadingZeros(k: nat, digits: seq<byte>)
    requires AllHex(digits)
    ensures AllHex(seq(k, _ => 48) + digits) && HexValue(seq(k, _ => 48) + digits) == HexValue(digits)
  {
    if k == 0 {
      assert seq(k, _ => 48) + digits == digits;
    } else {
      LeadingZeros(k - 1, digits);
      LeadingZero(seq(k - 1, _ => 48) + digits);
      assert seq(k, _ => 48) + digits == [48] + (seq(k - 1, _ => 48) + digits);
    }
  }

  lemma SizeDigitsValue(n: nat, style: Style)
    ensures ValidExtension(style.ext) ==> ValidSizeText(SizeDigits(n, style), style.ext, n)
    ensures AllHex(SizeDigits(n, style)) && HexValue(SizeDigits(n, style)) == n && SizeDigits(n, style) != []
  {
    var table := if style.upper then UPPER else LOWER;
    HexTextValue(n, style.upper, table);
    LeadingZeros(style.zeros, HexText(n, table));
  }

  // Blank, tab, line feed, vertical tab, form feed and carriage return.
  const BLANKS: seq<byte> := [32, 9, 10, 11, 12, 13]

  lemma {:induction false} BlanksSkipped(blanks: seq<byte>, text: seq<byte>)
    requires (forall i :: 0 <= i < |blanks| ==> blanks[i] in BLANKS) && (text != [] ==> text[0] !in BLANKS)
    ensures SkipSpaces(blanks + text) == text
  {
    if blanks == [] {
      assert blanks + text == text;
    } else {
      assert (blanks + text)[1..] == blanks[1..] + text;
      BlanksSkipped(blanks[1..], text);
    }
  }

  /** A size is read as the number that was printed, whatever blanks stand before it, and one that does not
      fit as the largest that does, which also ends the reading of the line. */
  lemma PrintedSizeIsRead(blanks: seq<byte>, n: nat, style: Style, more: seq<byte>, held: nat, limit: nat)
    requires forall i :: 0 <= i < |blanks| ==> blanks[i] in BLANKS
    requires held < limit && (more != [] ==> !IsHex(more[0]))
    ensures ExtractHex(blanks + (SizeDigits(n, style) + more), held, limit) ==
            if n < limit then Extracted(n, more, more != []) else Extracted(limit - 1, more, false)
  {
    var digits := SizeDigits(n, style);
    SizeDigitsValue(n, style);
    assert (digits + more)[0] == digits[0] && IsHex(digits[0]);
    BlanksSkipped(blanks, digits + more);
    if more == [] {
      assert digits + more == digits;
      AllDigitsPrefix(digits);
      assert digits[..|digits|] == digits && digits[|digits|..] == [];
    } else {
      HexPrefixExact(digits, more);
      assert (digits + more)[..|digits|] == digits && (digits + more)[|digits|..] == more;
    }
  }

  lemma {:induction false} AllDigitsPrefix(digits: seq<byte>)
    requires AllHex(digits)
    ensures HexPrefix(digits) == |digits|
  {
    if digits != [] {
      AllDigitsPrefix(digits[1..]);
    }
  }

  /** The sender of a printed body. */
  function PrintedChunks(parts: seq<seq<byte>>, styles: seq<Style>): (chunks: seq<Chunk>)
    requires |styles| == |parts|
    ensures |chunks| == |parts|
  {
    if parts == [] then []
    else [Chunk(SizeDigits(|parts[0]|, styles[0]), styles[0].ext, parts[0])] + PrintedChunks(parts[1..], styles[1..])
  }

  function Printer(parts: seq<seq<byte>>, styles: seq<Style>, last: Style, rest: seq<byte>): Peer
    requires |styles| == |parts|
  {
    Peer(PrintedChunks(parts, styles), SizeDigits(0, last), last.ext, rest)
  }

  lemma {:induction false} PrintedEncoded(parts: seq<seq<byte>>, styles: seq<Style>, last: Style)
    requires |styles| == |parts|
    ensures PrintedBody(parts, styles, last) ==
            EncodeAll(PrintedChunks(parts, styles)) + SizeLine(SizeDigits(0, last), last.ext)
  {
    if parts == [] {
      assert PrintedBody(parts, styles, last) == [] + SizeLine(SizeDigits(0, last), last.ext);
    } else {
      var chunks := PrintedChunks(parts, styles);
      PrintedEncoded(parts[1..], styles[1..], last);
      assert chunks[1..] == PrintedChunks(parts[1..], styles[1..]);
      assert SizeDigits(|parts[0]|, styles[0]) + styles[0].ext + [13, 10] + parts[0] + [13, 10] == EncodeChunk(chunks[0]);
      Regroup(EncodeChunk(chunks[0]), EncodeAll(chunks[1..]), SizeLine(SizeDigits(0, last), last.ext));
    }
  }

  lemma {:induction false} PrintedChunk(parts: seq<seq<byte>>, styles: seq<Style>, i: nat)
    requires |styles| == |parts| && i < |parts|
    ensures PrintedChunks(parts, styles)[i] == Chunk(SizeDigits(|parts[i]|, styles[i]), styles[i].ext, parts[i])
    decreases i
  {
    if i > 0 {
      PrintedChunk(parts[1..], styles[1..], i - 1);
    }
  }

  lemma PrintedValid(parts: seq<seq<byte>>, styles: seq<Style>, last: Style, limit: nat)
    requires Printable(parts, styles, last, limit)
    ensures ValidChunks(PrintedChunks(parts, styles), limit)
  {
    forall i | 0 <= i < |parts| ensures ValidChunk(PrintedChunks(parts, styles)[i], limit) {
      PrintedChunk(parts, styles, i);
      SizeDigitsValue(|parts[i]|, styles[i]);
    }
  }

  lemma {:induction false} PayloadFront(chunks: seq<Chunk>)
    requires chunks != []
    ensures Payload(chunks) == chunks[0].data + Payload(chunks[1..])
  {
    var n := |chunks| - 1;
    if n > 0 {
      PayloadFront(chunks[..n]);
      assert chunks[..n][1..] == chunks[1..][..n - 1];
      Regroup(chunks[0].data, Payload(chunks[1..][..n - 1]), chunks[n].data);
    } else {
      assert chunks[..0] == [] && chunks[1..] == [];
    }
  }

  lemma {:induction false} PrintedPayload(parts: seq<seq<byte>>, styles: seq<Style>)
    requires |styles| == |parts|
    ensures Payload(PrintedChunks(parts, styles)) == Concat(parts)
  {
    if parts != [] {
      var chunks := PrintedChunks(parts, styles);
      PrintedPayload(parts[1..], styles[1..]);
      PayloadFront(chunks);
      assert chunks[1..] == PrintedChunks(parts[1..], styles[1..]);
    }
  }

  /** A printed body is what a peer sends, and its payload are the parts. */
  lemma PrinterSends(parts: seq<seq<byte>>, styles: seq<Style>, last: Style, rest: seq<byte>, limit: nat)
    requires Printable(parts, styles, last, limit)
    ensures var p := Printer(parts, styles, last, rest);
            ValidPeer(p, limit) && Sent(p) == PrintedBody(parts, styles, last) + rest && Payload(p.chunks) == Concat(parts)
  {
    var p := Printer(parts, styles, last, rest);
    PrintedEncoded(parts, styles, last);
    PrintedValid(parts, styles, last, limit);
    PrintedPayload(parts, styles);
    SizeDigitsValue(0, last);
    assert p.chunks[0..] == p.chunks;
    Regroup(EncodeAll(p.chunks), SizeLine(p.zero, p.zeroExt), rest);
  }
}
