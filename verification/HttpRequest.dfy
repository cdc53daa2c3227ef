/** The request printer and parser of src/http/http_request.cpp, with its ordered header list and
    the header map beside it. */
module HttpRequest {
  import opened Machine
  import opened Text

  const EOL: string := "\r\n"

  datatype Header = Header(name: string, val: string)

  // ---------------------------------------------------------------- header list and header map

  function Names(headers: seq<Header>): set<string> {
    set i | 0 <= i < |headers| :: headers[i].name
  }

  predicate Distinct(headers: seq<Header>) {
    forall i, j :: 0 <= i < j < |headers| ==> headers[i].name != headers[j].name
  }

  /** The list and the map describe the same headers, each name once. */
  predicate Agree(headers: seq<Header>, fields: map<string, string>) {
    && Distinct(headers)
    && fields.Keys == Names(headers)
    && forall i :: 0 <= i < |headers| ==> headers[i].name in fields && fields[headers[i].name] == headers[i].val
  }

  /** What a sequence of assignments `fields[name] = val` leaves. */
  function MapOf(headers: seq<Header>): map<string, string> {
    if headers == [] then map[] else MapOf(headers[..|headers| - 1])[headers[|headers| - 1].name := headers[|headers| - 1].val]
  }

  lemma AgreeWithoutLast(headers: seq<Header>, fields: map<string, string>)
    requires headers != [] && Agree(headers, fields)
    ensures var n := |headers| - 1; Agree(headers[..n], fields - {headers[n].name})
  {
    var n := |headers| - 1;
    var rest := fields - {headers[n].name};
    forall name ensures name in rest.Keys <==> name in Names(headers[..n]) {
      if name in Names(headers[..n]) {
        var i :| 0 <= i < n && headers[..n][i].name == name;
        assert headers[i].name == name;
      }
      if name in Names(headers) && name != headers[n].name {
        var i :| 0 <= i < |headers| && headers[i].name == name;
        assert headers[..n][i].name == name;
      }
    }
  }

  lemma {:induction false} AgreeIsMapOf(headers: seq<Header>, fields: map<string, string>)
    requires Agree(headers, fields)
    ensures fields == MapOf(headers)
  {
    if headers != [] {
      var n := |headers| - 1;
      var rest := fields - {headers[n].name};
      AgreeWithoutLast(headers, fields);
      AgreeIsMapOf(headers[..n], rest);
      assert fields == rest[headers[n].name := headers[n].val];
    } else {
      assert Names(headers) == {};
    }
  }

  // ---------------------------------------------------------------- printing

  datatype Message = Message(method': string, path: string, version: string, headers: seq<Header>)

  function RequestLine(m: Message): string {
    m.method' + " " + m.path + " " + m.version
  }

  function HeaderLine(h: Header): string {
    h.name + ": " + h.val
  }

  function HeaderLines(headers: seq<Header>): seq<string> {
    if headers == [] then [] else [HeaderLine(headers[0])] + HeaderLines(headers[1..])
  }

  function Serialize(m: Message): string {
    RequestLine(m) + EOL + Joined(HeaderLines(m.headers), EOL) + EOL
  }

  // ---------------------------------------------------------------- parsing

  function ParseLine(line: string): Option<Header> {
    var l := Trim(line);
    if l == [] then None
    else
      var colon := Find(l, ":", 0);
      if colon == None then None
      else Some(Header(Trim(l[..colon.value]), Trim(l[colon.value + 1..])))
  }

  function ParseLines(lines: seq<string>): seq<Header> {
    if lines == [] then []
    else
      var h := ParseLine(lines[|lines| - 1]);
      ParseLines(lines[..|lines| - 1]) + if h == None then [] else [h.value]
  }

  function Parse(body: string): Option<Message> {
    if Find(body, "\r\n\r\n", 0) == None then None
    else
      var lines := Pieces(body, EOL);
      if lines == [] then None
      else
        var sm := Pieces(lines[0], " ");
        if |sm| != 3 then None else Some(Message(sm[0], sm[1], sm[2], ParseLines(lines[1..])))
  }

  /** The parts of the request line hold no blank and no line end, and the version is not empty;
      names hold no colon; names and values hold no line end and are trimmed. */
  predicate Clean(m: Message) {
    CleanWord(m.method') && CleanWord(m.path) && CleanWord(m.version) && m.version != "" && CleanHeaders(m.headers)
  }

  predicate CleanWord(s: string) {
    Free(s, " ") && Free(s, EOL)
  }

  predicate CleanHeader(h: Header) {
    Trimmed(h.name) && Free(h.name, ":") && Free(h.name, EOL) && Trimmed(h.val) && Free(h.val, EOL)
  }

  predicate CleanHeaders(headers: seq<Header>) {
    forall i :: 0 <= i < |headers| ==> CleanHeader(headers[i])
  }

  // ---------------------------------------------------------------- the round trip

  predicate EolAt(s: string, i: nat) {
    i + 1 < |s| && s[i] == '\r' && s[i + 1] == '\n'
  }

  predicate NoEol(s: string) {
    forall i :: 0 <= i < |s| ==> !EolAt(s, i)
  }

  lemma FreeIsNoEol(s: string)
    ensures Free(s, EOL) <==> NoEol(s)
  {
    forall i | 0 <= i < |s| ensures OccursAt(s, EOL, i) == EolAt(s, i) {
      OccursTwo(s, EOL, i);
    }
  }

  lemma FreeAround(a: string, sep: string, b: string)
    requires Free(a, EOL) && Free(b, EOL) && sep != [] && '\r' !in sep && '\n' !in sep
    ensures Free(a + sep + b, EOL)
  {
    var whole := a + sep + b;
    FreeIsNoEol(a);
    FreeIsNoEol(b);
    FreeIsNoEol(whole);
    forall i | 0 <= i < |whole| ensures !EolAt(whole, i) {
      if i < |a| {
        assert !EolAt(a, i) && (i + 1 == |a| ==> whole[i + 1] == sep[0]);
      } else if i < |a| + |sep| {
        assert whole[i] == sep[i - |a|];
      } else {
        assert !EolAt(b, i - |a| - |sep|);
      }
    }
  }

  lemma FreeSeparable(s: string, delim: string)
    requires (delim == EOL || |delim| == 1) && Free(s, delim)
    ensures Separable(s, delim)
  {
    forall i | 0 <= i < |s| ensures !OccursAt(s + delim, delim, i) {
      if delim == EOL {
        OccursTwo(s, delim, i);
        OccursTwo(s + delim, delim, i);
      } else {
        OccursOne(s, delim, i);
        OccursOne(s + delim, delim, i);
      }
    }
  }

  lemma RequestLineRoundTrip(m: Message)
    requires CleanWord(m.method') && CleanWord(m.path) && CleanWord(m.version)
    ensures Free(RequestLine(m), EOL)
    ensures Pieces(RequestLine(m), " ") == [m.method', m.path] + if m.version == "" then [] else [m.version]
  {
    FreeAround(m.method', " ", m.path);
    FreeAround(m.method' + " " + m.path, " ", m.version);
    FreeSeparable(m.method', " ");
    FreeSeparable(m.path, " ");
    var words := [m.method', m.path];
    assert words[1..] == [m.path];
    assert Joined([m.path], " ") == m.path + " ";
    assert Joined(words, " ") + m.version == RequestLine(m);
    PiecesOfJoined(words, m.version, " ");
  }

  lemma NoColon(name: string)
    requires Free(name, ":")
    ensures ':' !in name
  {
    forall i | 0 <= i < |name| ensures name[i] != ':' {
      OccursOne(name, ":", i);
    }
  }

  /** Blanks before and behind the name and the value. */
  datatype Spacing = Spacing(front: string, middle: string, after: string, end: string)

  predicate BlankSpacing(sp: Spacing) {
    Blank(sp.front) && Blank(sp.middle) && Blank(sp.after) && Blank(sp.end)
  }

  predicate SpaceSpacing(sp: Spacing) {
    Spaces(sp.front) && Spaces(sp.middle) && Spaces(sp.after) && Spaces(sp.end)
  }

  function LooseLine(h: Header, sp: Spacing): string {
    sp.front + h.name + sp.middle + ":" + sp.after + h.val + sp.end
  }

  function LeftSide(name: string, middle: string): string {
    if name == "" then "" else name + middle
  }

  function RightSide(after: string, val: string): string {
    if val == "" then "" else after + val
  }

  lemma LooseLineTrimmed(h: Header, sp: Spacing)
    requires Trimmed(h.name) && Trimmed(h.val) && SpaceSpacing(sp)
    ensures Trim(LooseLine(h, sp)) == LeftSide(h.name, sp.middle) + ":" + RightSide(sp.after, h.val)
  {
    var left, right := LeftSide(h.name, sp.middle), RightSide(sp.after, h.val);
    var core := left + ":" + right;
    var a, b := if h.name == "" then sp.front + sp.middle else sp.front, if h.val == "" then sp.after + sp.end else sp.end;
    assert LooseLine(h, sp) == a + core + b;
    assert core[0] == (if h.name == "" then ':' else h.name[0]);
    assert core[|core| - 1] == (if h.val == "" then ':' else h.val[|h.val| - 1]);
    TrimSpaces(a, core, b);
  }

  /** A header line is read with any blanks around name and value. */
  lemma LooseLineParses(h: Header, sp: Spacing)
    requires Trimmed(h.name) && ':' !in h.name && Trimmed(h.val) && BlankSpacing(sp)
    ensures ParseLine(LooseLine(h, sp)) == Some(h)
  {
    BlankIsSpace(sp.front);
    BlankIsSpace(sp.middle);
    BlankIsSpace(sp.after);
    BlankIsSpace(sp.end);
    SpacedLineParses(h, sp);
  }

  lemma SidesTrimmed(name: string, middle: string, after: string, val: string)
    requires Trimmed(name) && ':' !in name && Spaces(middle) && Spaces(after) && Trimmed(val)
    ensures ':' !in LeftSide(name, middle) && Trim(LeftSide(name, middle)) == name && Trim(RightSide(after, val)) == val
  {
    TrimSpaces("", name, middle);
    TrimSpaces(after, val, "");
    assert "" + name + middle == name + middle && after + val + "" == after + val;
  }

  lemma SpacedLineParses(h: Header, sp: Spacing)
    requires Trimmed(h.name) && ':' !in h.name && Trimmed(h.val) && SpaceSpacing(sp)
    ensures ParseLine(LooseLine(h, sp)) == Some(h)
  {
    LooseLineTrimmed(h, sp);
    SidesTrimmed(h.name, sp.middle, sp.after, h.val);
    SidesParse(LooseLine(h, sp), LeftSide(h.name, sp.middle), RightSide(sp.after, h.val));
  }

  lemma SidesParse(line: string, left: string, right: string)
    requires Trim(line) == left + ":" + right && ':' !in left
    ensures ParseLine(line) == Some(Header(Trim(left), Trim(right)))
  {
    var l := left + ":" + right;
    FirstColon(left, right);
    assert l[..|left|] == left && l[|left| + 1..] == right;
  }

  lemma FirstColon(left: string, right: string)
    requires ':' !in left
    ensures Find(left + ":" + right, ":", 0) == Some(|left|)
  {
    forall i | 0 <= i <= |left| ensures !OccursAt(left, ":", i) {
      OccursHead(left, ":", i);
    }
    FreeSeparable(left, ":");
    FindTerminator(left, ":", right);
  }

  lemma NoColonNoHeader(line: string)
    requires ':' !in line
    ensures ParseLine(line) == None
  {
    TrimSubstring(line);
    var l := Trim(line);
    var a: nat, b: nat :| a <= b <= |line| && l == line[a..b];
    forall i: nat ensures !OccursAt(l, ":", i) {
      OccursHead(l, ":", i);
    }
    FindNothing(l, ":", 0);
  }

  lemma HeaderLineRoundTrip(h: Header)
    requires CleanHeader(h)
    ensures Free(HeaderLine(h), EOL) && ParseLine(HeaderLine(h)) == Some(h)
  {
    FreeAround(h.name, ": ", h.val);
    NoColon(h.name);
    var sp := Spacing("", "", " ", "");
    assert HeaderLine(h) == LooseLine(h, sp);
    LooseLineParses(h, sp);
  }

  lemma {:induction false} HeaderLinesAt(headers: seq<Header>)
    ensures |HeaderLines(headers)| == |headers|
    ensures forall i :: 0 <= i < |headers| ==> HeaderLines(headers)[i] == HeaderLine(headers[i])
  {
    if headers != [] {
      HeaderLinesAt(headers[1..]);
    }
  }

  lemma {:induction false} HeaderLinesSnoc(headers: seq<Header>)
    requires headers != []
    ensures HeaderLines(headers) == HeaderLines(headers[..|headers| - 1]) + [HeaderLine(headers[|headers| - 1])]
  {
    HeaderLinesAt(headers);
    HeaderLinesAt(headers[..|headers| - 1]);
  }

  /** ParseLines, whatever a line is parsed with. */
  function Mapped(lines: seq<string>, parse: string -> Option<Header>): seq<Header> {
    if lines == [] then []
    else
      var h := parse(lines[|lines| - 1]);
      Mapped(lines[..|lines| - 1], parse) + if h == None then [] else [h.value]
  }

  lemma {:induction false} ParseLinesMapped(lines: seq<string>)
    ensures ParseLines(lines) == Mapped(lines, ParseLine)
  {
    if lines != [] {
      ParseLinesMapped(lines[..|lines| - 1]);
    }
  }

  ghost predicate ParseTo(lines: seq<string>, headers: seq<Header>, parse: string -> Option<Header>) {
    |lines| == |headers| && forall i :: 0 <= i < |lines| ==> parse(lines[i]) == Some(headers[i])
  }

  lemma {:induction false} MappedTo(lines: seq<string>, headers: seq<Header>, parse: string -> Option<Header>)
    requires ParseTo(lines, headers, parse)
    ensures Mapped(lines, parse) == headers
  {
    if lines != [] {
      var n := |lines| - 1;
      MappedTo(lines[..n], headers[..n], parse);
      assert headers == headers[..n] + [headers[n]];
    }
  }

  /** Header lines that parse, and an empty one behind them. */
  lemma LinesParse(lines: seq<string>, headers: seq<Header>)
    requires ParseTo(lines, headers, ParseLine)
    ensures ParseLines(lines + [""]) == headers
  {
    MappedTo(lines, headers, ParseLine);
    ParseLinesMapped(lines);
    assert (lines + [""])[..|lines|] == lines;
    assert ParseLine("") == None;
  }

  lemma BlankLineFound(first: string, lines: seq<string>)
    ensures Find(first + EOL + Joined(lines, EOL) + EOL, "\r\n\r\n", 0) != None
  {
    var s, j := first + EOL + Joined(lines, EOL) + EOL, Joined(lines, EOL);
    if lines == [] {
      assert s == first + "\r\n\r\n";
    } else {
      JoinedEnds(lines, EOL);
      assert s == first + EOL + (j[..|j| - 2] + EOL) + EOL;
    }
    assert OccursAt(s, "\r\n\r\n", |s| - 4);
    FindFirst(s, "\r\n\r\n", 0);
  }

  lemma {:induction false} JoinedEnds(pieces: seq<string>, delim: string)
    requires pieces != []
    ensures var j := Joined(pieces, delim); |delim| <= |j| && j == j[..|j| - |delim|] + delim
  {
    if |pieces| > 1 {
      JoinedEnds(pieces[1..], delim);
    }
  }

  lemma LinesOfText(first: string, lines: seq<string>)
    requires Separable(first, EOL) && forall i :: 0 <= i < |lines| ==> Separable(lines[i], EOL)
    ensures Pieces(first + EOL + Joined(lines, EOL) + EOL, EOL) == [first] + lines + [""]
  {
    var tail := Joined(lines, EOL) + EOL;
    Regroup(first + EOL, Joined(lines, EOL), EOL);
    FirstPiece(first, EOL, tail);
    PiecesOfLines(lines, EOL);
    Regroup([first], lines, [""]);
  }

  /** The lines of a clean message, and the empty one that ends it. */
  lemma SerializedLines(m: Message)
    requires Clean(m)
    ensures Pieces(Serialize(m), EOL) == [RequestLine(m)] + HeaderLines(m.headers) + [""]
  {
    RequestLineRoundTrip(m);
    FreeSeparable(RequestLine(m), EOL);
    HeaderLinesAt(m.headers);
    forall i | 0 <= i < |m.headers| ensures Separable(HeaderLines(m.headers)[i], EOL) {
      HeaderLineRoundTrip(m.headers[i]);
      FreeSeparable(HeaderLine(m.headers[i]), EOL);
    }
    LinesOfText(RequestLine(m), HeaderLines(m.headers));
  }

  lemma {:induction false} JoinedSnoc(pieces: seq<string>, last: string, delim: string)
    ensures Joined(pieces + [last], delim) == Joined(pieces, delim) + last + delim
  {
    if pieces != [] {
      assert (pieces + [last])[1..] == pieces[1..] + [last];
      JoinedSnoc(pieces[1..], last, delim);
    }
  }

  /** The request line, any header lines that parse, and an empty line. */
  lemma TextParses(m: Message, lines: seq<string>)
    requires CleanWord(m.method') && CleanWord(m.path) && CleanWord(m.version) && m.version != "" && |lines| == |m.headers|
    requires (forall i :: 0 <= i < |lines| ==> Separable(lines[i], EOL)) && ParseTo(lines, m.headers, ParseLine)
    ensures Parse(RequestLine(m) + EOL + Joined(lines, EOL) + EOL) == Some(m)
  {
    var text := RequestLine(m) + EOL + Joined(lines, EOL) + EOL;
    BlankLineFound(RequestLine(m), lines);
    RequestLineRoundTrip(m);
    FreeSeparable(RequestLine(m), EOL);
    LinesOfText(RequestLine(m), lines);
    LinesParse(lines, m.headers);
    CutTextParses(text, m, lines);
  }

  lemma CutTextParses(text: string, m: Message, lines: seq<string>)
    requires Find(text, "\r\n\r\n", 0) != None && Pieces(text, EOL) == [RequestLine(m)] + lines + [""]
    requires Pieces(RequestLine(m), " ") == [m.method', m.path, m.version] && ParseLines(lines + [""]) == m.headers
    ensures Parse(text) == Some(m)
  {
    var all := Pieces(text, EOL);
    assert all[0] == RequestLine(m) && all[1..] == lines + [""];
  }

  lemma CleanRoundTrip(m: Message)
    requires Clean(m)
    ensures Parse(Serialize(m)) == Some(m)
  {
    HeaderLinesAt(m.headers);
    forall i | 0 <= i < |m.headers|
      ensures Separable(HeaderLines(m.headers)[i], EOL) && ParseLine(HeaderLines(m.headers)[i]) == Some(m.headers[i])
    {
      HeaderLineRoundTrip(m.headers[i]);
      FreeSeparable(HeaderLine(m.headers[i]), EOL);
    }
    TextParses(m, HeaderLines(m.headers));
  }

  // ---------------------------------------------------------------- the text itself

  /** The line of a header: name, colon, one blank, value. */
  predicate IsHeaderLine(line: string, h: Header) {
    var n := |h.name|;
    && |line| == n + 2 + |h.val| && line[n] == ':' && line[n + 1] == ' '
    && (forall i :: 0 <= i < n ==> line[i] == h.name[i])
    && (forall i :: 0 <= i < |h.val| ==> line[n + 2 + i] == h.val[i])
  }

  /** The three words of the request line with one blank between them. */
  predicate IsRequestLine(line: string, m: Message) {
    var a, b := |m.method'|, |m.path|;
    && |line| == a + 1 + b + 1 + |m.version| && line[a] == ' ' && line[a + 1 + b] == ' '
    && (forall i :: 0 <= i < a ==> line[i] == m.method'[i])
    && (forall i :: 0 <= i < b ==> line[a + 1 + i] == m.path[i])
    && (forall i :: 0 <= i < |m.version| ==> line[a + 1 + b + 1 + i] == m.version[i])
  }

  /** The request line, a line for each header in order, and an empty line. */
  predicate AreLines(lines: seq<string>, m: Message) {
    && |lines| == |m.headers| + 2 && IsRequestLine(lines[0], m) && lines[|lines| - 1] == ""
    && forall i :: 0 <= i < |m.headers| ==> IsHeaderLine(lines[i + 1], m.headers[i])
  }

  lemma LinesAre(m: Message)
    ensures AreLines([RequestLine(m)] + HeaderLines(m.headers) + [""], m)
  {
    HeaderLinesAt(m.headers);
    var lines := [RequestLine(m)] + HeaderLines(m.headers) + [""];
    forall i | 0 <= i < |m.headers| ensures IsHeaderLine(lines[i + 1], m.headers[i]) {
      assert lines[i + 1] == HeaderLine(m.headers[i]);
    }
  }

  /** The printed text of any message is its lines, each with CR and LF behind it; of a clean message
      these are the lines found by cutting at CRLF. */
  lemma PrintedText(m: Message) returns (lines: seq<string>)
    ensures AreLines(lines, m) && Serialize(m) == Joined(lines, "\r\n")
    ensures Clean(m) ==> lines == Pieces(Serialize(m), "\r\n")
  {
    var hs := HeaderLines(m.headers);
    lines := [RequestLine(m)] + hs + [""];
    LinesAre(m);
    JoinedSnoc(hs, "", EOL);
    assert lines[0] == RequestLine(m) && lines[1..] == hs + [""];
    if Clean(m) {
      SerializedLines(m);
    }
  }

  /** A request with any blanks around names and values is read as if it had been printed here. */
  lemma LooseTextParses(m: Message, spacings: seq<Spacing>)
    requires Clean(m) && |spacings| == |m.headers|
    requires forall i :: 0 <= i < |spacings| ==> BlankSpacing(spacings[i]) && '\r' !in LooseLine(m.headers[i], spacings[i])
    ensures var lines := seq(|spacings|, i requires 0 <= i < |spacings| => LooseLine(m.headers[i], spacings[i]));
            Parse(m.method' + " " + m.path + " " + m.version + "\r\n" + Joined(lines, "\r\n") + "\r\n") == Some(m)
  {
    var lines := seq(|spacings|, i requires 0 <= i < |spacings| => LooseLine(m.headers[i], spacings[i]));
    forall i | 0 <= i < |lines| ensures Separable(lines[i], EOL) && ParseLine(lines[i]) == Some(m.headers[i]) {
      var h := m.headers[i];
      NoColon(h.name);
      LooseLineParses(h, spacings[i]);
      forall k | 0 <= k < |lines[i]| ensures !OccursAt(lines[i] + EOL, EOL, k) {
        OccursHead(lines[i] + EOL, EOL, k);
      }
    }
    TextParses(m, lines);
  }

  // ---------------------------------------------------------------- text that was not printed here

  lemma TextOfLines(first: string, lines: seq<string>)
    requires Separable(first, EOL) && forall i :: 0 <= i < |lines| ==> Separable(lines[i], EOL)
    ensures var sm := Pieces(first, " ");
            Parse(first + EOL + Joined(lines, EOL) + EOL) ==
            if |sm| != 3 then None else Some(Message(sm[0], sm[1], sm[2], ParseLines(lines + [""])))
  {
    var text := first + EOL + Joined(lines, EOL) + EOL;
    BlankLineFound(first, lines);
    LinesOfText(first, lines);
    var all := Pieces(text, EOL);
    assert all[0] == first && all[1..] == lines + [""];
  }

  lemma {:induction false} JoinedWords(words: seq<string>, last: string)
    requires (forall i :: 0 <= i < |words| ==> Free(words[i], EOL)) && Free(last, EOL)
    ensures Free(Joined(words, " ") + last, EOL)
  {
    if words == [] {
      assert Joined(words, " ") + last == last;
    } else {
      JoinedWords(words[1..], last);
      FreeAround(words[0], " ", Joined(words[1..], " ") + last);
      Regroup(words[0] + " ", Joined(words[1..], " "), last);
    }
  }

  /** A text of whole lines with an empty one at the end is a request if and only if its first line has
      three words, whatever the other lines hold. */
  lemma ThreeWordsExactly(words: seq<string>, last: string, lines: seq<string>)
    requires (forall i :: 0 <= i < |words| ==> CleanWord(words[i])) && CleanWord(last) && last != ""
    requires forall i :: 0 <= i < |lines| ==> Separable(lines[i], EOL)
    ensures Parse(Joined(words, " ") + last + "\r\n" + Joined(lines, "\r\n") + "\r\n").Some? <==> |words + [last]| == 3
  {
    var first := Joined(words, " ") + last;
    JoinedWords(words, last);
    FreeSeparable(first, EOL);
    forall i | 0 <= i < |words| ensures Separable(words[i], " ") {
      FreeSeparable(words[i], " ");
    }
    PiecesOfJoined(words, last, " ");
    TextOfLines(first, lines);
  }

  /** Without an empty line nothing is a request. */
  lemma NoBlankLineNoRequest(body: string)
    requires Free(body, "\r\n\r\n")
    ensures Parse(body) == None
  {
    FindNothing(body, "\r\n\r\n", 0);
  }

  lemma {:induction false} MappedAround(a: seq<string>, bad: string, b: seq<string>, parse: string -> Option<Header>)
    requires parse(bad) == None
    ensures Mapped(a + [bad] + b, parse) == Mapped(a + b, parse)
  {
    if b == [] {
      assert a + [bad] + b == a + [bad] && (a + [bad])[..|a|] == a && a + b == a;
    } else {
      var n := |b| - 1;
      MappedAround(a, bad, b[..n], parse);
      assert (a + [bad] + b)[..|a| + 1 + n] == a + [bad] + b[..n];
      assert (a + b)[..|a| + n] == a + b[..n];
    }
  }

  lemma LinesAround(a: seq<string>, bad: string, b: seq<string>)
    requires ParseLine(bad) == None
    ensures ParseLines(a + [bad] + b + [""]) == ParseLines(a + b + [""])
  {
    ParseLinesMapped(a + [bad] + b + [""]);
    ParseLinesMapped(a + b + [""]);
    MappedAround(a, bad, b + [""], ParseLine);
    Regroup(a + [bad], b, [""]);
    Regroup(a, b, [""]);
  }

  /** A line without a colon is passed over, wherever it stands among the header lines. */
  lemma ColonlessLineSkipped(first: string, a: seq<string>, bad: string, b: seq<string>)
    requires Separable(first, EOL) && Separable(bad, EOL) && ':' !in bad
    requires forall i :: 0 <= i < |a + b| ==> Separable((a + b)[i], EOL)
    ensures Parse(first + "\r\n" + Joined(a + [bad] + b, "\r\n") + "\r\n") == Parse(first + "\r\n" + Joined(a + b, "\r\n") + "\r\n")
  {
    var all := a + [bad] + b;
    forall i | 0 <= i < |all| ensures Separable(all[i], EOL) {
      if i != |a| {
        assert all[i] == (a + b)[if i < |a| then i else i - 1];
      }
    }
    TextOfLines(first, all);
    TextOfLines(first, a + b);
    NoColonNoHeader(bad);
    LinesAround(a, bad, b);
  }

  // ---------------------------------------------------------------- and what it needs

  lemma ParsedLineClean(line: string)
    requires Free(line, EOL)
    ensures ParseLine(line).Some? ==> CleanHeader(ParseLine(line).value)
  {
    var l := Trim(line);
    FreeTrim(line, EOL);
    var colon := Find(l, ":", 0);
    if l != [] && colon.Some? {
      var c := colon.value;
      FreeBeforeFirst(l, ":", c);
      FreeTrim(l[..c], ":");
      FreePart(l, EOL, 0, c);
      assert l[..c] == l[0..c];
      FreeTrim(l[..c], EOL);
      FreePart(l, EOL, c + 1, |l|);
      assert l[c + 1..] == l[c + 1..|l|];
      FreeTrim(l[c + 1..], EOL);
      TrimSubstring(l[..c]);
      TrimSubstring(l[c + 1..]);
    }
  }

  lemma {:induction false} ParsedLinesClean(lines: seq<string>)
    requires forall i :: 0 <= i < |lines| ==> Free(lines[i], EOL)
    ensures CleanHeaders(ParseLines(lines))
  {
    if lines != [] {
      ParsedLinesClean(lines[..|lines| - 1]);
      ParsedLineClean(lines[|lines| - 1]);
    }
  }

  lemma {:induction false} PiecesKeepFree(s: string, delim: string, pattern: string)
    requires delim != [] && Free(s, pattern)
    ensures forall i :: 0 <= i < |Pieces(s, delim)| ==> Free(Pieces(s, delim)[i], pattern)
    decreases |s|
  {
    if s != [] {
      var r := Find(s, delim, 0);
      if r.Some? {
        PiecesUnfold(s, delim, r.value);
        FreePart(s, pattern, 0, r.value);
        var rest := s[r.value + |delim|..];
        FreePart(s, pattern, r.value + |delim|, |s|);
        assert rest == s[r.value + |delim|..|s|] && s[..r.value] == s[0..r.value];
        PiecesKeepFree(rest, delim, pattern);
      }
    }
  }

  /** Whatever the parser returns has clean words and clean headers. */
  lemma ParsedClean(body: string)
    ensures Parse(body).Some? ==>
              var m := Parse(body).value;
              CleanWord(m.method') && CleanWord(m.path) && CleanWord(m.version) && CleanHeaders(m.headers)
  {
    if Parse(body).Some? {
      var lines := Pieces(body, EOL);
      PiecesFree(body, EOL);
      PiecesFree(lines[0], " ");
      PiecesKeepFree(lines[0], " ", EOL);
      ParsedLinesClean(lines[1..]);
    }
  }

  /** Parsing gives back the serialized message exactly when the message is clean. */
  lemma RoundTripExact(m: Message)
    ensures Parse(Serialize(m)) == Some(m) <==> Clean(m)
  {
    if Clean(m) {
      CleanRoundTrip(m);
    }
    if Parse(Serialize(m)) == Some(m) {
      ParsedClean(Serialize(m));
      RequestLineRoundTrip(m);
      FreeSeparable(RequestLine(m), EOL);
      var tail := Joined(HeaderLines(m.headers), EOL) + EOL;
      assert Serialize(m) == RequestLine(m) + EOL + tail;
      FirstPiece(RequestLine(m), EOL, tail);
      assert m.version != "";
    }
  }

  // ---------------------------------------------------------------- editing headers

  /** The list with `name` set to `val`: in place if it is there, at the end otherwise. */
  function WithHeader(headers: seq<Header>, name: string, val: string): seq<Header> {
    if headers == [] then [Header(name, val)]
    else if headers[0].name == name then [Header(name, val)] + headers[1..]
    else [headers[0]] + WithHeader(headers[1..], name, val)
  }

  function WithoutHeader(headers: seq<Header>, name: string): seq<Header> {
    if headers == [] then []
    else if headers[0].name == name then headers[1..]
    else [headers[0]] + WithoutHeader(headers[1..], name)
  }

  lemma {:induction false} WithHeaderAt(headers: seq<Header>, name: string, val: string, i: nat)
    requires i <= |headers| && forall j :: 0 <= j < i ==> headers[j].name != name
    ensures i < |headers| && headers[i].name == name ==> WithHeader(headers, name, val) == headers[i := Header(name, val)]
    ensures i == |headers| ==> WithHeader(headers, name, val) == headers + [Header(name, val)]
  {
    if i > 0 {
      WithHeaderAt(headers[1..], name, val, i - 1);
    }
  }

  lemma {:induction false} WithoutHeaderAt(headers: seq<Header>, name: string, i: nat)
    requires i <= |headers| && forall j :: 0 <= j < i ==> headers[j].name != name
    ensures i < |headers| && headers[i].name == name ==> WithoutHeader(headers, name) == headers[..i] + headers[i + 1..]
    ensures i == |headers| ==> WithoutHeader(headers, name) == headers
  {
    if i > 0 {
      WithoutHeaderAt(headers[1..], name, i - 1);
      if i < |headers| {
        assert headers[1..][..i - 1] == headers[1..i] && headers[1..][i..] == headers[i + 1..];
      }
    }
  }

  lemma NamesAt(headers: seq<Header>, name: string)
    ensures name in Names(headers) <==> exists i :: 0 <= i < |headers| && headers[i].name == name
  {
  }

  lemma SetAgrees(headers: seq<Header>, fields: map<string, string>, i: nat, val: string)
    requires Agree(headers, fields) && i < |headers|
    ensures Agree(headers[i := Header(headers[i].name, val)], fields[headers[i].name := val])
  {
    var headers' := headers[i := Header(headers[i].name, val)];
    forall name ensures name in Names(headers') <==> name in Names(headers) {
      NamesAt(headers, name);
      NamesAt(headers', name);
      assert forall j :: 0 <= j < |headers| ==> headers'[j].name == headers[j].name;
    }
  }

  lemma AddAgrees(headers: seq<Header>, fields: map<string, string>, name: string, val: string)
    requires Agree(headers, fields) && name !in fields
    ensures Agree(headers + [Header(name, val)], fields[name := val])
  {
    var headers' := headers + [Header(name, val)];
    assert headers'[|headers|].name == name;
    NamesAt(headers, name);
    forall n ensures n in Names(headers') <==> n in Names(headers) || n == name {
      NamesAt(headers, n);
      NamesAt(headers', n);
      if j :| 0 <= j < |headers| && headers[j].name == n {
        assert headers'[j].name == n;
      }
    }
  }

  lemma RemoveAgrees(headers: seq<Header>, fields: map<string, string>, i: nat)
    requires Agree(headers, fields) && i < |headers|
    ensures Agree(headers[..i] + headers[i + 1..], fields - {headers[i].name})
  {
    var headers' := headers[..i] + headers[i + 1..];
    forall j | 0 <= j < |headers'| ensures headers'[j] == headers[if j < i then j else j + 1] {
    }
    forall name ensures name in Names(headers') <==> name in Names(headers) && name != headers[i].name {
      NamesAt(headers, name);
      NamesAt(headers', name);
      if j :| 0 <= j < |headers| && headers[j].name == name && j != i {
        assert headers'[if j < i then j else j - 1].name == name;
      }
    }
  }

  lemma RemovedAt(headers: seq<Header>, fields: map<string, string>, name: string, i: nat)
    requires Agree(headers, fields) && i < |headers| && headers[i].name == name
    requires forall j :: 0 <= j < i ==> headers[j].name != name
    ensures headers[..i] + headers[i + 1..] == WithoutHeader(headers, name)
    ensures Agree(WithoutHeader(headers, name), fields - {name})
  {
    WithoutHeaderAt(headers, name, i);
    RemoveAgrees(headers, fields, i);
  }

  lemma NothingRemoved(headers: seq<Header>, fields: map<string, string>, name: string)
    requires Agree(headers, fields) && name !in fields
    ensures WithoutHeader(headers, name) == headers && fields - {name} == fields
  {
    NamesAt(headers, name);
    WithoutHeaderAt(headers, name, |headers|);
  }

  lemma MapOfSnoc(headers: seq<Header>, h: Header)
    ensures MapOf(headers + [h]) == MapOf(headers)[h.name := h.val]
  {
    assert (headers + [h])[..|headers|] == headers;
  }

  lemma ParseLinesStep(lines: seq<string>, i: nat)
    requires 1 <= i < |lines|
    ensures ParseLines(lines[1..i + 1]) ==
            ParseLines(lines[1..i]) + if ParseLine(lines[i]) == None then [] else [ParseLine(lines[i]).value]
  {
    var done := lines[1..i + 1];
    assert done[..|done| - 1] == lines[1..i] && done[|done| - 1] == lines[i];
  }

  class Request {
    var method': string
    var path: string
    var version: string
    var fields: map<string, string>
    var headers: seq<Header>
    var body: string
    var valid: bool

    predicate Valid()
      reads this
    {
      Agree(headers, fields)
    }

    function Now(): Message
      reads this
    {
      Message(method', path, version, headers)
    }

    constructor ()
      ensures Valid() && headers == [] && !valid
    {
      method', path, version, body, valid := "", "", "", "", false;
      fields, headers := map[], [];
    }

    /** A request read from text. */
    constructor FromText(lines: string)
      ensures valid <==> Parse(lines).Some?
      ensures valid ==> Some(Now()) == Parse(lines) && fields == MapOf(headers)
    {
      method', path, version, body, valid := "", "", "", lines, false;
      fields, headers := map[], [];
      new;
      valid := ParseBody();
      assert valid ==> [] + Parse(lines).value.headers == Parse(lines).value.headers;
    }

    /** Looks into the map; where list and map agree that is the value in the list. */
    method GetHeader(name: string) returns (val: string)
      ensures val == if name in fields then fields[name] else ""
      ensures Valid() && name !in Names(headers) ==> val == ""
      ensures Valid() ==> forall i :: 0 <= i < |headers| && headers[i].name == name ==> val == headers[i].val
    {
      val := if name in fields then fields[name] else "";
    }

    /** std::find_if with HeaderEqualTo. */
    method FindHeader(name: string) returns (i: nat)
      ensures i <= |headers| && forall j :: 0 <= j < i ==> headers[j].name != name
      ensures i < |headers| ==> headers[i].name == name
      ensures i < |headers| <==> name in Names(headers)
    {
      NamesAt(headers, name);
      i := 0;
      while i < |headers| && headers[i].name != name
        invariant i <= |headers| && forall j :: 0 <= j < i ==> headers[j].name != name
      {
        i := i + 1;
      }
    }

    /** The list entry the source asserts to exist is always there. */
    method SetHeader(name: string, val: string)
      requires Valid()
      modifies this`fields, this`headers
      ensures Valid()
      ensures headers == WithHeader(old(headers), name, val) && fields == old(fields)[name := val]
    {
      if name in fields {
        var i := FindHeader(name);
        WithHeaderAt(headers, name, val, i);
        SetAgrees(headers, fields, i, val);
        fields := fields[name := val];
        headers := headers[i := headers[i].(val := val)];
        return;
      }
      NamesAt(headers, name);
      WithHeaderAt(headers, name, val, |headers|);
      AddAgrees(headers, fields, name, val);
      fields := fields[name := val];
      headers := headers + [Header(name, val)];
    }

    method RemoveHeader(name: string)
      requires Valid()
      modifies this`fields, this`headers
      ensures Valid()
      ensures headers == WithoutHeader(old(headers), name) && fields == old(fields) - {name}
    {
      if name in fields {
        var i := FindHeader(name);
        RemovedAt(headers, fields, name, i);
        fields := fields - {name};
        headers := headers[..i] + headers[i + 1..];
      } else {
        NothingRemoved(headers, fields, name);
      }
    }

    method SerializeToString() returns (text: string)
      ensures text == Serialize(Now())
    {
      text := method' + " " + path + " " + version + EOL;
      ghost var start := text;
      var i := 0;
      assert headers[..0] == [];
      while i < |headers|
        invariant 0 <= i <= |headers|
        invariant text == start + Joined(HeaderLines(headers[..i]), EOL)
      {
        ghost var done := headers[..i + 1];
        assert done[..i] == headers[..i];
        HeaderLinesSnoc(done);
        JoinedSnoc(HeaderLines(headers[..i]), HeaderLine(headers[i]), EOL);
        text := text + (headers[i].name + ": " + headers[i].val + EOL);
        i := i + 1;
      }
      assert headers[..i] == headers;
      text := text + EOL;
    }

    /** parse_body, which appends to whatever headers there are already. */
    method ParseBody() returns (ok: bool)
      modifies this`method', this`path, this`version, this`fields, this`headers
      ensures ok <==> Parse(body).Some?
      ensures !ok ==> Now() == old(Now()) && fields == old(fields)
      ensures ok ==> Now() == Parse(body).value.(headers := old(headers) + Parse(body).value.headers)
      ensures ok && old(fields) == MapOf(old(headers)) ==> fields == MapOf(headers)
    {
      if Find(body, "\r\n\r\n", 0) == None {
        return false;
      }
      var lines := Split(body, EOL);
      if lines == [] {
        return false;
      }
      var sm := Split(lines[0], " ");
      if |sm| != 3 {
        return false;
      }
      method', path, version := sm[0], sm[1], sm[2];
      ParseHeaderLines(lines);
      return true;
    }

    method ParseHeaderLines(lines: seq<string>)
      requires lines != []
      modifies this`fields, this`headers
      ensures headers == old(headers) + ParseLines(lines[1..])
      ensures old(fields) == MapOf(old(headers)) ==> fields == MapOf(headers)
    {
      ghost var before := headers;
      var i := 1;
      assert lines[1..1] == [];
      while i != |lines|
        invariant 1 <= i <= |lines|
        invariant headers == before + ParseLines(lines[1..i])
        invariant old(fields) == MapOf(before) ==> fields == MapOf(headers)
        decreases |lines| - i
      {
        ParseLinesStep(lines, i);
        var line := Trim(lines[i]);
        i := i + 1;
        if line == [] {
          continue;
        }
        var colon := Find(line, ":", 0);
        if colon == None {
          continue;
        }
        var h := Header(Trim(line[..colon.value]), Trim(line[colon.value + 1..]));
        MapOfSnoc(headers, h);
        headers := headers + [h];
        fields := fields[h.name := h.val];
      }
      assert lines[1..i] == lines[1..];
    }
  }

  datatype Edit = Set(name: string, val: string) | Remove(name: string)

  function Edited(edits: seq<Edit>): seq<Header> {
    if edits == [] then []
    else
      var before := Edited(edits[..|edits| - 1]);
      match edits[|edits| - 1]
      case Set(name, val) => WithHeader(before, name, val)
      case Remove(name) => WithoutHeader(before, name)
  }

  /** A fresh request edited in any way keeps list and map in agreement, and if it is clean its
      text is read back as the same request with the same ordered list and the same map. */
  method EditPrintParse(method': string, path: string, version: string, edits: seq<Edit>)
    returns (text: string, headers: seq<Header>, fields: map<string, string>, readBack: Message, ok: bool, fields': map<string, string>)
    ensures headers == Edited(edits) && Agree(headers, fields)
    ensures text == Serialize(Message(method', path, version, headers))
    ensures Clean(Message(method', path, version, headers)) <==>
              ok && readBack == Message(method', path, version, headers)
    ensures Clean(Message(method', path, version, headers)) ==> fields' == fields
  {
    var r := new Request();
    r.method', r.path, r.version := method', path, version;
    assert edits[..0] == [];
    for i := 0 to |edits|
      invariant fresh(r) && r.Valid() && r.headers == Edited(edits[..i])
      invariant r.method' == method' && r.path == path && r.version == version
    {
      assert edits[..i + 1][..i] == edits[..i];
      match edits[i] {
        case Set(name, val) => r.SetHeader(name, val);
        case Remove(name) => r.RemoveHeader(name);
      }
    }
    assert edits[..|edits|] == edits;
    text := r.SerializeToString();
    headers, fields := r.headers, r.fields;
    RoundTripExact(r.Now());
    AgreeIsMapOf(headers, fields);
    var r' := new Request.FromText(text);
    ok, readBack, fields' := r'.valid, r'.Now(), r'.fields;
  }
}
