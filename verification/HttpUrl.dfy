/** From a URL to a request and back to host and port: ParseUrl, create_from_url and get_host_port
    of src/http/http_request.cpp. */
module HttpUrl {
  import opened Machine
  import opened Text
  import opened HttpRequest

  datatype Url = Url(protocol: string, host: string, port: string, path: string)

  /** Host, port and path of what follows the scheme. */
  function SplitAuthority(url: string, hostBeg: nat, defaultPort: string): (string, string, string)
    requires hostBeg <= |url|
  {
    var colon := Find(url, ":", hostBeg);
    var slash := Find(url, "/", hostBeg);
    if colon.Some? && slash.Some? && colon.value < slash.value then
      var end := Find(url, "/", colon.value + 1);
      if end.Some? then (url[hostBeg..colon.value], url[colon.value + 1..end.value], url[end.value..])
      else (url[hostBeg..colon.value], defaultPort, "")
    else if slash.Some? then (url[hostBeg..slash.value], defaultPort, url[slash.value..])
    else if colon.Some? then (url[hostBeg..colon.value], url[colon.value + 1..], "")
    else (url[hostBeg..], defaultPort, "")
  }

  function ParseUrl(url: string): Url {
    var posProtocol := Find(url, "://", 0);
    var protocol := if posProtocol == None then "http" else url[..posProtocol.value];
    var hostBeg := if posProtocol == None then 0 else posProtocol.value + 3;
    var (host, port, path) := SplitAuthority(url, hostBeg, DefaultPort(protocol));
    Url(protocol, host, port, if path == "" then "/" else path)
  }

  function DefaultPort(protocol: string): string {
    if protocol == "https" then "443" else "80"
  }

  /** boost::lexical_cast to a 32-bit unsigned number, on unsigned text. */
  function LexicalUnsigned(s: string): Option<uint32> {
    if s != "" && AllDigits(s) && Decimal(s) < WORD_MODULUS then Some(Decimal(s)) else None
  }

  /** get_host_port; None when there is no Host header and the outputs are left alone. */
  function HostPort(fields: map<string, string>): Option<(string, uint32)> {
    if "Host" !in fields || fields["Host"] == "" then None
    else
      var h := fields["Host"];
      var pos := Find(h, ":", 0);
      var port := LexicalUnsigned(if pos == None then "80" else h[pos.value + 1..]);
      Some((if pos == None then h else h[..pos.value], if port == None then 80 else port.value))
  }

  // ---------------------------------------------------------------- splitting what was joined

  /** The text of a URL, with or without an explicit port and path. */
  function UrlText(scheme: string, host: string, port: Option<string>, path: string): string {
    scheme + "://" + host + (if port == None then "" else ":" + port.value) + path
  }

  predicate ValidParts(scheme: string, host: string, port: Option<string>, path: string) {
    && scheme != "" && ':' !in scheme
    && host != "" && ':' !in host && '/' !in host
    && (port.Some? ==> port.value != "" && AllDigits(port.value))
    && (path != "" ==> path[0] == '/')
  }

  lemma FindChar(s: string, pattern: string, from: nat, at: nat)
    requires |pattern| == 1 && from <= at <= |s| && pattern[0] !in s[from..at]
    ensures at < |s| && s[at] == pattern[0] ==> Find(s, pattern, from) == Some(at)
    ensures at == |s| ==> Find(s, pattern, from) == None
  {
    forall i: nat | from <= i < at ensures !OccursAt(s, pattern, i) {
      OccursOne(s, pattern, i);
      assert s[i] == s[from..at][i - from];
    }
    OccursOne(s, pattern, at);
    if at < |s| && s[at] == pattern[0] {
      FindUnique(s, pattern, from, at);
    } else if at == |s| {
      FindNothing(s, pattern, from);
    }
  }

  lemma FindScheme(scheme: string, rest: string)
    requires ':' !in scheme
    ensures Find(scheme + "://" + rest, "://", 0) == Some(|scheme|)
  {
    forall i | 0 <= i < |scheme| ensures !OccursAt(scheme + "://", "://", i) {
      OccursHead(scheme + "://", "://", i);
    }
    FindTerminator(scheme, "://", rest);
  }

  /** A digit string holds no separator. */
  lemma DigitsPlain(s: string)
    requires AllDigits(s)
    ensures ':' !in s && '/' !in s
  {
  }

  /** Where the parts of host:port/path lie from `a` on. */
  lemma PartsOfAuthority(url: string, a: nat, host: string, port: string, path: string, b: nat, c: nat)
    requires a <= |url| && url[a..] == host + ":" + port + path
    requires b == a + |host| && c == b + 1 + |port|
    ensures c <= |url| && url[a..b] == host && url[b] == ':' && url[b + 1..c] == port && url[c..] == path
    ensures url[b + 1..] == port + path && url[a..c] == host + ":" + port
  {
    Slices(url, a, |host|, |host| + 1);
    Slices(url, a, |host| + 1 + |port|, |host| + 1 + |port|);
    assert url[a..][|host|] == ':';
    assert url[b + 1..] == port + path;
    Slices(url, b + 1, |port|, |port|);
  }

  lemma AuthorityWithPort(url: string, a: nat, host: string, port: string, path: string, defaultPort: string)
    requires a <= |url| && url[a..] == host + ":" + port + path
    requires ':' !in host && '/' !in host && AllDigits(port) && (path != "" ==> path[0] == '/')
    ensures SplitAuthority(url, a, defaultPort) == (host, port, path)
  {
    var b := a + |host|;
    var c := b + 1 + |port|;
    PartsOfAuthority(url, a, host, port, path, b, c);
    DigitsPlain(port);
    FindChar(url, ":", a, b);
    FindChar(url, "/", a, c);
    FindChar(url, "/", b + 1, c);
    if path == "" {
      assert port + path == port;
    } else {
      assert url[c] == url[c..][0];
    }
  }

  lemma AuthorityPlain(url: string, a: nat, host: string, path: string, defaultPort: string)
    requires a <= |url| && url[a..] == host + path
    requires ':' !in host && '/' !in host && (path != "" ==> path[0] == '/')
    ensures SplitAuthority(url, a, defaultPort) == (host, defaultPort, path)
  {
    var b := a + |host|;
    Slices(url, a, |host|, |host|);
    assert url[a..b] == host && url[b..] == path;
    FindChar(url, "/", a, b);
    if path == "" {
      FindChar(url, ":", a, b);
      assert host + path == host;
    } else {
      assert url[b] == url[b..][0] == '/';
      forall i | a <= i < b ensures url[i] != ':' {
        assert url[i] == url[a..b][i - a];
      }
      ColonNotBefore(url, a, b);
    }
  }

  lemma ColonNotBefore(url: string, a: nat, b: nat)
    requires a <= b < |url| && url[b] == '/' && forall i :: a <= i < b ==> url[i] != ':'
    ensures Find(url, ":", a).Some? ==> Find(url, ":", a).value > b
  {
    FindFirst(url, ":", a);
    var r := Find(url, ":", a);
    if r.Some? {
      OccursOne(url, ":", r.value);
    }
  }

  /** ParseUrl takes a URL text apart into its parts, whichever of port and path are given. */
  lemma ParseUrlExact(scheme: string, host: string, port: Option<string>, path: string)
    requires ValidParts(scheme, host, port, path)
    ensures ParseUrl(UrlText(scheme, host, port, path)) ==
            Url(scheme, host, if port.Some? then port.value else DefaultPort(scheme), if path == "" then "/" else path)
  {
    var url := UrlText(scheme, host, port, path);
    var rest := host + (if port == None then "" else ":" + port.value) + path;
    assert url == scheme + "://" + rest;
    FindScheme(scheme, rest);
    assert url[..|scheme|] == scheme && url[|scheme| + 3..] == rest;
    if port == None {
      assert rest == host + path;
      AuthorityPlain(url, |scheme| + 3, host, path, DefaultPort(scheme));
    } else {
      assert rest == host + ":" + port.value + path;
      AuthorityWithPort(url, |scheme| + 3, host, port.value, path, DefaultPort(scheme));
    }
  }

  /** Without a scheme it is taken for http, up to the first "://" there may be in the path. */
  lemma ParseBareUrl(host: string, port: Option<string>, path: string)
    requires ValidParts("http", host, port, path) && Free(host + (if port == None then "" else ":" + port.value) + path, "://")
    ensures ParseUrl(host + (if port == None then "" else ":" + port.value) + path) ==
            Url("http", host, if port.Some? then port.value else "80", if path == "" then "/" else path)
  {
    var url := host + (if port == None then "" else ":" + port.value) + path;
    FindNothing(url, "://", 0);
    assert url[0..] == url;
    if port == None {
      assert url == host + path;
      AuthorityPlain(url, 0, host, path, "80");
    } else {
      assert url == host + ":" + port.value + path;
      AuthorityWithPort(url, 0, host, port.value, path, "80");
    }
  }

  // ---------------------------------------------------------------- a request for a URL

  const AGENT_BROWSER := "Mozilla/4.0 (compatible; MSIE 6.0; "
  const AGENT_SYSTEM := "Windows NT 5.1; SV1; "
  const AGENT_RUNTIME := ".NET CLR 2.0.50727; "
  const AGENT_UPDATES := ".NET CLR 3.0.04506.648; .NET CLR 3.5.21022; "
  const AGENT_LATEST := ".NET CLR 3.0.4506.2152; .NET CLR 3.5.30729)"
  const USER_AGENT := AGENT_BROWSER + AGENT_SYSTEM + AGENT_RUNTIME + AGENT_UPDATES + AGENT_LATEST

  const RANGE := "bytes="

  function HostText(u: Url): string {
    if u.port == "" then u.host else u.host + ":" + u.port
  }

  function FixedHeaders(u: Url, refer: string): seq<Header> {
    [Header("Accept", "*/*"), Header("Accept-Language", "zh-CN")]
    + (if refer == "" then [] else [Header("Referer", refer)])
    + [Header("User-Agent", USER_AGENT)] + [Header("Host", HostText(u))] + [Header("Connection", "Keep-Alive")]
  }

  /** A number of a byte range, nothing for a negative one. */
  function BoundText(n: int): (s: string)
    ensures AllDigits(s)
  {
    if n > -1 then Itoa(n) else ""
  }

  /** From `first` to `last`, from `first` on, or the last `last` bytes. */
  predicate IsRange(first: int, last: int) {
    if first > -1 then last <= -1 || first <= last else last > 0
  }

  /** What set_range puts into the header, nothing when the numbers make no range. */
  function RangeText(first: int, last: int): Option<string> {
    if IsRange(first, last) then Some(RANGE + BoundText(first) + "-" + BoundText(last)) else None
  }

  function RangeHeaders(first: int, last: int): seq<Header> {
    if RangeText(first, last) == None then [] else [Header("Range", RangeText(first, last).value)]
  }

  function UrlHeaders(u: Url, refer: string, first: int, last: int): seq<Header> {
    FixedHeaders(u, refer) + RangeHeaders(first, last)
  }

  function UrlMessage(u: Url, refer: string, first: int, last: int): Message {
    Message("GET", u.path, "HTTP/1.1", UrlHeaders(u, refer, first, last))
  }

  /** A byte range (section 2.1 of RFC 7233) as a server reads it. */
  function ReadRange(text: string): Option<(Option<nat>, Option<nat>)> {
    if !("bytes=" <= text) then None
    else
      match Find(text, "-", 6)
      case None => None
      case Some(i) =>
        var first, last := text[6..i], text[i + 1..];
        if AllDigits(first) && AllDigits(last) then Some((ReadBound(first), ReadBound(last))) else None
  }

  function ReadBound(s: string): Option<nat>
    requires AllDigits(s)
  {
    if s == "" then None else Some(Decimal(s))
  }

  /** Byte `i` of a resource of `size` bytes is asked for: from `first` on, up to `last` if that is given, or
      with no `first` among the last `last`. */
  predicate Selects(first: int, last: int, size: nat, i: nat) {
    i < size && if first > -1 then first <= i && (last > -1 ==> i <= last) else size - i <= last
  }

  /** A range header is sent exactly when the numbers select some byte of some resource. */
  lemma RangeExactly(first: int, last: int)
    ensures RangeText(first, last).Some? <==> exists size: nat, i: nat :: Selects(first, last, size, i)
  {
    if RangeText(first, last).Some? {
      assert if first > -1 then Selects(first, last, first + 1, first) else Selects(first, last, 1, 0);
    }
  }

  /** The range header a request carries says what was asked for. */
  lemma RangeRoundTrip(first: int, last: int)
    requires RangeText(first, last).Some?
    ensures ReadRange(RangeText(first, last).value) ==
            Some((if first > -1 then Some(first) else None, if last > -1 then Some(last) else None))
  {
    var a, b := BoundText(first), BoundText(last);
    var text := RANGE + a + "-" + b;
    var i := |RANGE| + |a|;
    assert text[|RANGE|..i] == a && text[i] == '-' && text[i + 1..] == b;
    FindChar(text, "-", |RANGE|, i);
    if first > -1 { DecimalItoa(first); }
    if last > -1 { DecimalItoa(last); }
  }

  predicate CleanText(s: string) {
    Trimmed(s) && '\r' !in s
  }

  lemma CleanTextIs(s: string)
    requires CleanText(s)
    ensures Free(s, EOL)
  {
    forall i | 0 <= i <= |s| ensures !OccursAt(s, EOL, i) {
      OccursHead(s, EOL, i);
    }
  }

  lemma CleanPair(name: string, val: string)
    requires CleanText(name) && ':' !in name && Trimmed(val) && Free(val, EOL)
    ensures CleanHeader(Header(name, val))
  {
    CleanTextIs(name);
    forall i | 0 <= i <= |name| ensures !OccursAt(name, ":", i) {
      OccursHead(name, ":", i);
    }
  }

  lemma AgentFront()
    ensures '\r' !in AGENT_BROWSER && '\r' !in AGENT_SYSTEM && '\r' !in AGENT_RUNTIME && AGENT_BROWSER[0] == 'M'
  {
  }

  lemma AgentBack()
    ensures '\r' !in AGENT_UPDATES && '\r' !in AGENT_LATEST && AGENT_LATEST[|AGENT_LATEST| - 1] == ')'
  {
    assert '\r' !in AGENT_UPDATES;
  }

  lemma AgentClean()
    ensures CleanText(USER_AGENT)
  {
    AgentFront();
    AgentBack();
    assert USER_AGENT[0] == AGENT_BROWSER[0];
    assert USER_AGENT[|USER_AGENT| - 1] == AGENT_LATEST[|AGENT_LATEST| - 1];
  }

  lemma LanguageClean()
    ensures CleanHeader(Header("Accept", "*/*")) && CleanHeader(Header("Accept-Language", "zh-CN"))
  {
    CleanTextIs("*/*");
    CleanPair("Accept", "*/*");
    CleanTextIs("zh-CN");
    CleanPair("Accept-Language", "zh-CN");
  }

  lemma ConnectionClean()
    ensures CleanHeader(Header("User-Agent", USER_AGENT)) && CleanHeader(Header("Connection", "Keep-Alive"))
  {
    AgentClean();
    CleanTextIs(USER_AGENT);
    CleanPair("User-Agent", USER_AGENT);
    CleanTextIs("Keep-Alive");
    CleanPair("Connection", "Keep-Alive");
  }

  lemma HostTextClean(u: Url)
    requires u.host != "" && Trimmed(u.host) && Free(u.host, EOL) && ':' !in u.host && AllDigits(u.port)
    ensures CleanHeader(Header("Host", HostText(u)))
  {
    var text := HostText(u);
    if u.port != "" {
      forall i | 0 <= i <= |u.port| ensures !OccursAt(u.port, EOL, i) {
        OccursHead(u.port, EOL, i);
      }
      FreeAround(u.host, ":", u.port);
      assert text[0] == u.host[0] && text[|text| - 1] == u.port[|u.port| - 1];
    }
    CleanPair("Host", text);
  }

  lemma RangeClean(first: int, last: int)
    ensures CleanHeaders(RangeHeaders(first, last))
  {
    if RangeText(first, last).Some? {
      var text := RangeText(first, last).value;
      assert text[0] == 'b';
      CleanTextIs(text);
      CleanPair("Range", text);
    }
  }

  lemma UrlHeadersClean(u: Url, refer: string, first: int, last: int)
    requires u.host != "" && Trimmed(u.host) && Free(u.host, EOL) && ':' !in u.host && AllDigits(u.port)
    requires Trimmed(refer) && Free(refer, EOL)
    ensures CleanHeaders(UrlHeaders(u, refer, first, last))
  {
    LanguageClean();
    ConnectionClean();
    HostTextClean(u);
    CleanPair("Referer", refer);
    assert CleanHeaders(FixedHeaders(u, refer));
    RangeClean(first, last);
  }

  /** The map of a new request holds the host text under "Host". */
  lemma HostField(u: Url, refer: string, first: int, last: int)
    ensures var fields := MapOf(UrlHeaders(u, refer, first, last)); "Host" in fields && fields["Host"] == HostText(u)
  {
    var fixed, range := FixedHeaders(u, refer), RangeHeaders(first, last);
    var n := |fixed|;
    assert fixed == fixed[..n - 2] + [Header("Host", HostText(u))] + [Header("Connection", "Keep-Alive")];
    MapOfSnoc(fixed[..n - 2], Header("Host", HostText(u)));
    MapOfSnoc(fixed[..n - 2] + [Header("Host", HostText(u))], Header("Connection", "Keep-Alive"));
    if range == [] {
      assert fixed + range == fixed;
    } else {
      MapOfSnoc(fixed, range[0]);
      assert |"Host"| != |"Range"|;
    }
  }

  lemma HostPortOf(fields: map<string, string>, u: Url)
    requires "Host" in fields && fields["Host"] == HostText(u)
    requires u.host != "" && ':' !in u.host && u.port != "" && AllDigits(u.port)
    ensures HostPort(fields) == Some((u.host, if Decimal(u.port) < WORD_MODULUS then Decimal(u.port) else 80))
  {
    var h := HostText(u);
    assert h[..|u.host|] == u.host && h[|u.host|] == ':' && h[|u.host| + 1..] == u.port;
    assert h[0..|u.host|] == u.host;
    FindChar(h, ":", 0, |u.host|);
  }

  lemma DefaultPortDigits(scheme: string)
    ensures AllDigits(DefaultPort(scheme)) && DefaultPort(scheme) != ""
    ensures Decimal(DefaultPort(scheme)) == if scheme == "https" then 443 else 80
  {
    assert Decimal("4") == 4 && Decimal("8") == 8;
    assert "44"[..1] == "4" && "443"[..2] == "44" && "80"[..1] == "8";
    assert Decimal("44") == 44 && Decimal("443") == 443 && Decimal("80") == 80;
  }

  /** From a URL's parts to its text, a request, the request's text and back: the path survives,
      and both the new and the parsed request name the host and the port of the URL, with 443 or
      80 when it gives none, with or without a byte range. */
  lemma UrlRoundTrip(scheme: string, host: string, port: Option<string>, path: string, refer: string, first: int, last: int)
    requires ValidParts(scheme, host, port, path)
    requires Trimmed(host) && Free(host, EOL) && CleanWord(path) && Trimmed(refer) && Free(refer, EOL)
    ensures var m := UrlMessage(ParseUrl(UrlText(scheme, host, port, path)), refer, first, last);
            && Parse(Serialize(m)) == Some(m)
            && m.method' == "GET" && m.path == (if path == "" then "/" else path) && m.version == "HTTP/1.1"
            && HostPort(MapOf(m.headers)) == Some((host,
                 if port == None then (if scheme == "https" then 443 else 80)
                 else if Decimal(port.value) < WORD_MODULUS then Decimal(port.value) else 80))
  {
    ParseUrlExact(scheme, host, port, path);
    DefaultPortDigits(scheme);
    var u := ParseUrl(UrlText(scheme, host, port, path));
    UrlHeadersClean(u, refer, first, last);
    HostField(u, refer, first, last);
    HostPortOf(MapOf(UrlHeaders(u, refer, first, last)), u);
    var m := UrlMessage(u, refer, first, last);
    ConstantWordsClean();
    RoundTripExact(m);
  }

  lemma ConstantWordsClean()
    ensures CleanWord("GET") && CleanWord("HTTP/1.1") && CleanWord("/")
  {
    WordClean("GET");
    WordClean("HTTP/1.1");
    WordClean("/");
  }

  lemma WordClean(s: string)
    requires ' ' !in s && '\r' !in s
    ensures CleanWord(s)
  {
    forall i | 0 <= i <= |s| ensures !OccursAt(s, " ", i) && !OccursAt(s, EOL, i) {
      OccursHead(s, " ", i);
      OccursHead(s, EOL, i);
    }
  }

  /** The headers as create_from_url sets them one by one. */
  function BuiltFixed(u: Url, refer: string): seq<Header> {
    var accept := WithHeader(WithHeader([], "Accept", "*/*"), "Accept-Language", "zh-CN");
    var client := WithHeader(if refer == "" then accept else WithHeader(accept, "Referer", refer), "User-Agent", USER_AGENT);
    WithHeader(WithHeader(client, "Host", HostText(u)), "Connection", "Keep-Alive")
  }

  function BuiltHeaders(u: Url, refer: string, first: int, last: int): seq<Header> {
    var range := RangeText(first, last);
    if range == None then BuiltFixed(u, refer) else WithHeader(BuiltFixed(u, refer), "Range", range.value)
  }

  lemma Appended(headers: seq<Header>, name: string, val: string)
    requires forall i :: 0 <= i < |headers| ==> headers[i].name != name
    ensures WithHeader(headers, name, val) == headers + [Header(name, val)]
  {
    WithHeaderAt(headers, name, val, |headers|);
  }

  lemma AcceptHeaders()
    ensures WithHeader(WithHeader([], "Accept", "*/*"), "Accept-Language", "zh-CN") ==
            [Header("Accept", "*/*"), Header("Accept-Language", "zh-CN")]
  {
    Appended([], "Accept", "*/*");
    assert |"Accept"| != |"Accept-Language"|;
    Appended([Header("Accept", "*/*")], "Accept-Language", "zh-CN");
  }

  lemma FixedIsListed(u: Url, refer: string)
    ensures BuiltFixed(u, refer) == FixedHeaders(u, refer)
  {
    AcceptHeaders();
    var accept := [Header("Accept", "*/*"), Header("Accept-Language", "zh-CN")];
    assert |"Accept"| == 6 && |"Accept-Language"| == 15 && |"Referer"| == 7 && |"User-Agent"| == 10 && |"Host"| == 4 && |"Connection"| == 10;
    Appended(accept, "Referer", refer);
    var known := accept + if refer == "" then [] else [Header("Referer", refer)];
    assert known == if refer == "" then accept else accept + [Header("Referer", refer)];
    Appended(known, "User-Agent", USER_AGENT);
    var client := known + [Header("User-Agent", USER_AGENT)];
    Appended(client, "Host", HostText(u));
    assert "User-Agent"[0] != "Connection"[0];
    Appended(client + [Header("Host", HostText(u))], "Connection", "Keep-Alive");
  }

  lemma BuiltIsListed(u: Url, refer: string, first: int, last: int)
    ensures BuiltHeaders(u, refer, first, last) == UrlHeaders(u, refer, first, last)
  {
    FixedIsListed(u, refer);
    if RangeText(first, last).Some? {
      NoRangeYet(u, refer);
      Appended(FixedHeaders(u, refer), "Range", RangeText(first, last).value);
    } else {
      assert FixedHeaders(u, refer) + [] == FixedHeaders(u, refer);
    }
  }

  lemma NoRangeYet(u: Url, refer: string)
    ensures forall i :: 0 <= i < |FixedHeaders(u, refer)| ==> FixedHeaders(u, refer)[i].name != "Range"
  {
    assert |"Accept"| == 6 && |"Accept-Language"| == 15 && |"Referer"| == 7 && |"User-Agent"| == 10 && |"Host"| == 4 && |"Connection"| == 10;
    assert |"Range"| == 5;
  }

  method CreateFromUrl(url: string, refer: string, first: int, last: int) returns (r: Request?, https: bool)
    ensures r == null <==> ParseUrl(url).protocol == "" || ParseUrl(url).host == ""
    ensures r != null ==> fresh(r) && r.Valid() && r.valid && r.Now() == UrlMessage(ParseUrl(url), refer, first, last)
    ensures https <==> r != null && ParseUrl(url).protocol == "https"
  {
    var u := ParseUrl(url);
    r, https := null, false;
    if u.protocol == "" || u.host == "" || u.path == "" {
      return;
    }
    r := NewGet(u, refer, first, last);
    r.valid := true;
    https := u.protocol == "https";
  }

  method NewGet(u: Url, refer: string, first: int, last: int) returns (r: Request)
    ensures fresh(r) && r.Valid() && r.Now() == UrlMessage(u, refer, first, last)
  {
    r := new Request();
    r.method', r.version, r.path := "GET", "HTTP/1.1", u.path;
    SetUrlHeaders(r, u, refer);
    SetRange(r, first, last);
    BuiltIsListed(u, refer, first, last);
  }

  method SetUrlHeaders(r: Request, u: Url, refer: string)
    requires r.Valid() && r.headers == []
    modifies r`fields, r`headers
    ensures r.Valid() && r.headers == BuiltFixed(u, refer)
  {
    r.SetHeader("Accept", "*/*");
    r.SetHeader("Accept-Language", "zh-CN");
    if refer != "" {
      r.SetHeader("Referer", refer);
    }
    r.SetHeader("User-Agent", USER_AGENT);
    r.SetHeader("Host", HostText(u));
    r.SetHeader("Connection", "Keep-Alive");
  }

  method SetRange(r: Request, first: int, last: int)
    requires r.Valid()
    modifies r`fields, r`headers
    ensures r.Valid()
    ensures var range := RangeText(first, last);
            r.headers == if range == None then old(r.headers) else WithHeader(old(r.headers), "Range", range.value)
  {
    var text := RANGE;
    assert forall s: string :: s + "" == s;
    if first > -1 {
      if last > -1 {
        if first > last {
          return;
        }
        text := text + Itoa(first) + "-" + Itoa(last);
      } else {
        text := text + Itoa(first) + "-";
      }
    } else {
      if last <= 0 {
        return;
      }
      text := text + "-" + Itoa(last);
    }
    r.SetHeader("Range", text);
  }

  /** get_host_port; the outputs keep their values when there is no Host header. */
  method GetHostPort(r: Request, host0: string, port0: uint32) returns (host: string, port: uint32)
    ensures (host, port) == if HostPort(r.fields) == None then (host0, port0) else HostPort(r.fields).value
  {
    host, port := host0, port0;
    var text := if "Host" in r.fields then r.fields["Host"] else "";
    if text == "" {
      return;
    }
    var portText := "80";
    var pos := Find(text, ":", 0);
    if pos.Some? {
      portText := text[pos.value + 1..];
    }
    host := if pos == None then text else text[..pos.value];
    var cast := LexicalUnsigned(portText);
    port := if cast == None then 80 else cast.value;
  }
}
