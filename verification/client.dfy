/**
  The client side of the opening handshake (section 4.1 of RFC 6455): the
  port a URI implies, the upgrade request the client writes, the extra
  header fields a builder carries, and what `connect` decides before it
  touches the network.
 */
module Client {
  import opened Bytes
  import opened Wrappers
  import Decimal

  /** The parts of a parsed URI the client reads, as bytes. */
  datatype Uri = Uri(
    scheme: Option<seq<byte>>,
    host: Option<seq<byte>>,
    port: Option<u16>,
    path: seq<byte>,
    query: Option<seq<byte>>)

  /** One header field. */
  datatype Header = Header(name: seq<byte>, value: seq<byte>)

  /** How the TCP stream is wrapped: not at all, or with a TLS connector
      whose configuration is left abstract. */
  datatype Connector = Plain | Tls(config: nat)

  /** A client connection under construction: the URI, the connector set by
      the caller if any, and the extra header fields in insertion order. */
  datatype Builder = Builder(uri: Uri, connector: Option<Connector>, headers: seq<Header>)

  datatype Error = CannotResolveHost

  /** The connector `connect` settles on: the caller's, a TLS connector
      created with default settings, or no TLS. */
  datatype ConnectorChoice = Given(connector: Connector) | NewTls | PlainStream

  /** The host and port `connect` resolves, and how it wraps the stream. */
  datatype Target = Target(host: seq<byte>, port: u16, connector: ConnectorChoice)

  const Https: seq<byte> := Ascii("https")
  const Wss: seq<byte> := Ascii("wss")
  const Http: seq<byte> := Ascii("http")
  const Ws: seq<byte> := Ascii("ws")

  /** The line terminator `\r\n`. */
  const Crlf: seq<byte> := [CR, LF]

  /** Schemes whose default port is 443. */
  predicate SecureScheme(scheme: Option<seq<byte>>) {
    scheme == Some(Https) || scheme == Some(Wss)
  }

  /** Schemes whose default port is 80. */
  predicate PlainScheme(scheme: Option<seq<byte>>) {
    scheme == Some(Http) || scheme == Some(Ws)
  }

  /** `default_port`: the explicit port if the URI has one, otherwise the
      default port of its scheme, if the scheme is one of the four known. */
  function DefaultPort(uri: Uri): (r: Option<u16>)
    ensures uri.port.Some? ==> r == uri.port
    ensures uri.port.None? && SecureScheme(uri.scheme) ==> r == Some(443)
    ensures uri.port.None? && PlainScheme(uri.scheme) ==> r == Some(80)
    ensures r.None? <==> uri.port.None? && !SecureScheme(uri.scheme) && !PlainScheme(uri.scheme)
  {
    if uri.port.Some? then uri.port
    else
      match uri.scheme
      case Some(s) =>
        if s == Https || s == Wss then Some(443)
        else if s == Http || s == Ws then Some(80)
        else None
      case None => None
  }

  /** The names of the header fields, in order. */
  function Names(headers: seq<Header>): seq<seq<byte>> {
    seq(|headers|, i requires 0 <= i < |headers| => headers[i].name)
  }

  /** No two header fields share a name, as in a map. */
  predicate UniqueNames(headers: seq<Header>) {
    forall i, j | 0 <= i < j < |headers| :: headers[i].name != headers[j].name
  }

  /** The value of the first header field called `name`. */
  function Lookup(headers: seq<Header>, name: seq<byte>): Option<seq<byte>> {
    if |headers| == 0 then None
    else if headers[0].name == name then Some(headers[0].value)
    else Lookup(headers[1..], name)
  }

  /** Inserting into a header map kept in insertion order: a field with the
      same name gets the new value where it stands, otherwise the field is
      added at the end. */
  function Insert(headers: seq<Header>, name: seq<byte>, value: seq<byte>): (r: seq<Header>)
    ensures Lookup(r, name) == Some(value)
    ensures forall n | n != name :: Lookup(r, n) == Lookup(headers, n)
    ensures Names(r) == if name in Names(headers) then Names(headers) else Names(headers) + [name]
    ensures UniqueNames(headers) ==> UniqueNames(r)
  {
    if |headers| == 0 then [Header(name, value)]
    else if headers[0].name == name then
      var r := [Header(name, value)] + headers[1..];
      NamesCons(Header(name, value), headers[1..]);
      NamesCons(headers[0], headers[1..]);
      assert [headers[0]] + headers[1..] == headers;
      assert Names(headers)[0] == name;
      r
    else
      var rest := Insert(headers[1..], name, value);
      StepLookup(headers, name, value, rest);
      StepNames(headers, name, rest);
      StepUnique(headers, name, rest);
      [headers[0]] + rest
  }

  /** Lookup in a list with a given first field. */
  lemma LookupCons(h: Header, rest: seq<Header>)
    ensures forall n :: Lookup([h] + rest, n) == if h.name == n then Some(h.value) else Lookup(rest, n)
  {
    assert ([h] + rest)[1..] == rest;
  }

  /** The recursive step of `Insert`, for lookups. */
  lemma StepLookup(headers: seq<Header>, name: seq<byte>, value: seq<byte>, rest: seq<Header>)
    requires |headers| > 0 && headers[0].name != name
    requires Lookup(rest, name) == Some(value)
    requires forall n | n != name :: Lookup(rest, n) == Lookup(headers[1..], n)
    ensures Lookup([headers[0]] + rest, name) == Some(value)
    ensures forall n | n != name :: Lookup([headers[0]] + rest, n) == Lookup(headers, n)
  {
    LookupCons(headers[0], rest);
  }

  /** The recursive step of `Insert`, for the order of names. */
  lemma StepNames(headers: seq<Header>, name: seq<byte>, rest: seq<Header>)
    requires |headers| > 0 && headers[0].name != name
    requires Names(rest) == if name in Names(headers[1..]) then Names(headers[1..]) else Names(headers[1..]) + [name]
    ensures Names([headers[0]] + rest) == if name in Names(headers) then Names(headers) else Names(headers) + [name]
  {
    NamesCons(headers[0], headers[1..]);
    NamesCons(headers[0], rest);
    assert [headers[0]] + headers[1..] == headers;
    assert name in Names(headers) <==> name in Names(headers[1..]);
    AppendAssoc([headers[0].name], Names(headers[1..]), [name]);
  }

  /** The recursive step of `Insert`, for unique names. */
  lemma StepUnique(headers: seq<Header>, name: seq<byte>, rest: seq<Header>)
    requires |headers| > 0 && headers[0].name != name
    requires Names(rest) == if name in Names(headers[1..]) then Names(headers[1..]) else Names(headers[1..]) + [name]
    requires UniqueNames(headers[1..]) ==> UniqueNames(rest)
    ensures UniqueNames(headers) ==> UniqueNames([headers[0]] + rest)
  {
    if UniqueNames(headers) {
      UniqueTail(headers);
      UniqueCons(headers[0], rest);
    }
  }

  lemma NamesCons(h: Header, rest: seq<Header>)
    ensures Names([h] + rest) == [h.name] + Names(rest)
  {
  }

  lemma UniqueTail(headers: seq<Header>)
    requires |headers| > 0 && UniqueNames(headers)
    ensures UniqueNames(headers[1..]) && headers[0].name !in Names(headers[1..])
  {
    var rest := headers[1..];
    forall i, j | 0 <= i < j < |rest| ensures rest[i].name != rest[j].name {
      assert rest[i] == headers[i + 1] && rest[j] == headers[j + 1];
    }
  }

  lemma UniqueCons(h: Header, rest: seq<Header>)
    requires UniqueNames(rest) && h.name !in Names(rest)
    ensures UniqueNames([h] + rest)
  {
    var hs := [h] + rest;
    forall i, j | 0 <= i < j < |hs| ensures hs[i].name != hs[j].name {
      if i == 0 {
        assert Names(rest)[j - 1] == hs[j].name;
      } else {
        assert hs[i] == rest[i - 1] && hs[j] == rest[j - 1];
      }
    }
  }

  /** `Builder::from_uri`: a builder for `uri` with no connector and an
      empty header map. */
  function FromUri(uri: Uri): (r: Builder)
    ensures r.uri == uri && r.connector.None?
    ensures forall n :: Lookup(r.headers, n).None?
    ensures UniqueNames(r.headers) && Names(r.headers) == []
  {
    Builder(uri, None, [])
  }

  /** `Builder::set_connector`: the connector is replaced, the URI and header
      fields are untouched, and `connect` then uses that connector wherever
      it goes. */
  function SetConnector(b: Builder, connector: Connector): (r: Builder)
    ensures r.uri == b.uri && r.headers == b.headers
    ensures r.connector == Some(connector)
    ensures PlanConnect(r).Err? <==> PlanConnect(b).Err?
    ensures PlanConnect(r).Ok? ==>
      PlanConnect(r).value == PlanConnect(b).value.(connector := Given(connector))
  {
    b.(connector := Some(connector))
  }

  /** `Builder::add_header`: the field is set to `value`, every other field
      keeps its value, a new name goes last, and the URI and connector are
      untouched. */
  function AddHeader(b: Builder, name: seq<byte>, value: seq<byte>): (r: Builder)
    ensures r.uri == b.uri && r.connector == b.connector
    ensures Lookup(r.headers, name) == Some(value)
    ensures forall n | n != name :: Lookup(r.headers, n) == Lookup(b.headers, n)
    ensures Names(r.headers) ==
      if name in Names(b.headers) then Names(b.headers) else Names(b.headers) + [name]
    ensures UniqueNames(b.headers) ==> UniqueNames(r.headers)
  {
    b.(headers := Insert(b.headers, name, value))
  }

  /** The header field lines, each `name: value` and CR LF. */
  function HeaderLines(headers: seq<Header>): seq<byte> {
    if |headers| == 0 then []
    else headers[0].name + Ascii(": ") + headers[0].value + Ascii("\r\n") + HeaderLines(headers[1..])
  }

  /** `build_request`: the bytes of the upgrade request, which are exactly
      the request lines, each followed by CR LF. */
  function BuildRequest(uri: Uri, key: seq<byte>, headers: seq<Header>): (r: seq<byte>)
    ensures r == JoinLines(RequestLines(uri, key, headers))
  {
    JoinRequestLines(uri, key, headers);
    JoinHeadLines(uri, key);
    CrlfBytes();
    Ascii("GET ") + uri.path
    + (if uri.query.Some? then Ascii("?") + uri.query.value else [])
    + Ascii(" HTTP/1.1\r\n")
    + (if uri.host.Some? then
         Ascii("Host: ") + uri.host.value
         + (if DefaultPort(uri).Some? then Ascii(":") + Decimal.Digits(DefaultPort(uri).value as nat) else [])
         + Ascii("\r\n")
       else [])
    + Ascii("Upgrade: websocket\r\nConnection: Upgrade\r\nSec-WebSocket-Key: ") + key
    + Ascii("\r\nSec-WebSocket-Version: 13\r\n")
    + HeaderLines(headers)
    + Ascii("\r\n")
  }

  /** What `connect` settles before resolving the host: it fails without a
      host; the port is the URI's port, else the scheme's default, else 80;
      the connector is the caller's, else a new TLS connector for `wss`,
      else none. */
  function PlanConnect(b: Builder): (r: Result<Target, Error>)
    ensures r.Err? <==> b.uri.host.None?
    ensures r.Err? ==> r.error == CannotResolveHost
    ensures r.Ok? ==> r.value.host == b.uri.host.value
    ensures r.Ok? && b.uri.port.Some? ==> r.value.port == b.uri.port.value
    ensures r.Ok? && b.uri.port.None? ==> r.value.port == if SecureScheme(b.uri.scheme) then 443 else 80
    ensures r.Ok? && b.connector.Some? ==> r.value.connector == Given(b.connector.value)
    ensures r.Ok? ==> (r.value.connector == NewTls <==> b.connector.None? && b.uri.scheme == Some(Wss))
    ensures r.Ok? ==> (r.value.connector == PlainStream <==> b.connector.None? && b.uri.scheme != Some(Wss))
  {
    if b.uri.host.None? then Err(CannotResolveHost)
    else
      var port := DefaultPort(b.uri).GetOr(80);
      var connector :=
        if b.connector.Some? then Given(b.connector.value)
        else if b.uri.scheme == Some(Wss) then NewTls
        else PlainStream;
      Ok(Target(b.uri.host.value, port, connector))
  }

  // ---------------------------------------------------------------------
  // The request as lines

  /** No CR byte. */
  predicate NoCr(s: seq<byte>) {
    forall i | 0 <= i < |s| :: s[i] != CR
  }

  /** The position of the first CR, or the length when there is none. */
  function FirstCr(s: seq<byte>): (i: nat)
    ensures i <= |s|
    ensures i < |s| ==> s[i] == CR
    ensures forall k | 0 <= k < i :: s[k] != CR
  {
    if |s| == 0 || s[0] == CR then 0 else 1 + FirstCr(s[1..])
  }

  /** Splits bytes into the lines they hold, each ended by CR LF; fails on a
      CR without LF after it and on bytes after the last CR LF. */
  function SplitLines(s: seq<byte>): Option<seq<seq<byte>>>
    decreases |s|
  {
    if |s| == 0 then Some([])
    else
      var i := FirstCr(s);
      if i + 1 < |s| && s[i + 1] == LF then
        match SplitLines(s[i + 2..])
        case None => None
        case Some(rest) => Some([s[..i]] + rest)
      else None
  }

  /** Each line followed by CR LF. */
  function JoinLines(lines: seq<seq<byte>>): seq<byte> {
    if |lines| == 0 then [] else lines[0] + Crlf + JoinLines(lines[1..])
  }

  /** Lines without CR survive joining and splitting again. */
  lemma {:induction false} SplitJoin(lines: seq<seq<byte>>)
    requires forall k | 0 <= k < |lines| :: NoCr(lines[k])
    ensures SplitLines(JoinLines(lines)) == Some(lines)
  {
    if |lines| > 0 {
      var l := lines[0];
      var s := JoinLines(lines);
      assert s == l + Crlf + JoinLines(lines[1..]);
      assert s[|l|] == CR && s[|l| + 1] == LF;
      assert FirstCr(s) == |l|;
      assert s[..|l|] == l;
      assert s[|l| + 2..] == JoinLines(lines[1..]);
      SplitJoin(lines[1..]);
      assert [l] + lines[1..] == lines;
    }
  }

  /** Joining distributes over concatenation of line lists. */
  lemma {:induction false} JoinAppend(a: seq<seq<byte>>, b: seq<seq<byte>>)
    ensures JoinLines(a + b) == JoinLines(a) + JoinLines(b)
  {
    if |a| > 0 {
      assert (a + b)[1..] == a[1..] + b;
      JoinAppend(a[1..], b);
    } else {
      assert a + b == b;
    }
  }

  /** The header field lines, without terminators. */
  function FieldLines(headers: seq<Header>): seq<seq<byte>> {
    seq(|headers|, i requires 0 <= i < |headers| => headers[i].name + Ascii(": ") + headers[i].value)
  }

  /** The host and, when a port is known, `:` and its decimal digits. */
  function HostValue(uri: Uri): seq<byte>
    requires uri.host.Some?
  {
    uri.host.value
    + (if DefaultPort(uri).Some? then Ascii(":") + Decimal.Digits(DefaultPort(uri).value as nat) else [])
  }

  /** The request target: the path, then `?` and the query if there is one. */
  function RequestTarget(uri: Uri): seq<byte> {
    uri.path + (if uri.query.Some? then Ascii("?") + uri.query.value else [])
  }

  /** The lines of the upgrade request of section 4.1 of RFC 6455: the
      request line, `Host` when the URI has a host, the four handshake
      fields, the caller's fields, and the empty line ending the head. */
  function RequestLines(uri: Uri, key: seq<byte>, headers: seq<Header>): seq<seq<byte>> {
    HeadLines(uri, key) + FieldLines(headers) + [[]]
  }

  lemma CrlfBytes()
    ensures Ascii("\r\n") == Crlf
  {
  }

  lemma RequestLineBytes()
    ensures Ascii(" HTTP/1.1\r\n") == Ascii(" HTTP/1.1") + Crlf
  {
    assert " HTTP/1.1\r\n" == " HTTP/1.1" + "\r\n";
    AsciiAppend(" HTTP/1.1", "\r\n");
    CrlfBytes();
  }

  lemma UpgradeText()
    ensures "Upgrade: websocket\r\nConnection: Upgrade\r\nSec-WebSocket-Key: "
      == "Upgrade: websocket" + "\r\n" + "Connection: Upgrade" + "\r\n" + "Sec-WebSocket-Key: "
  {
  }

  lemma UpgradeBytes()
    ensures Ascii("Upgrade: websocket\r\nConnection: Upgrade\r\nSec-WebSocket-Key: ")
      == Ascii("Upgrade: websocket") + Crlf + Ascii("Connection: Upgrade") + Crlf + Ascii("Sec-WebSocket-Key: ")
  {
    var u, c, k := "Upgrade: websocket", "Connection: Upgrade", "Sec-WebSocket-Key: ";
    UpgradeText();
    AsciiAppend(u + "\r\n" + c + "\r\n", k);
    AsciiAppend(u + "\r\n" + c, "\r\n");
    AsciiAppend(u + "\r\n", c);
    AsciiAppend(u, "\r\n");
    CrlfBytes();
  }

  lemma VersionBytes()
    ensures Ascii("\r\nSec-WebSocket-Version: 13\r\n") == Crlf + Ascii("Sec-WebSocket-Version: 13") + Crlf
  {
    var v := "Sec-WebSocket-Version: 13";
    assert "\r\nSec-WebSocket-Version: 13\r\n" == "\r\n" + v + "\r\n";
    AsciiAppend("\r\n" + v, "\r\n");
    AsciiAppend("\r\n", v);
    CrlfBytes();
  }

  /** The field lines of `build_request` are the joined `FieldLines`. */
  lemma {:induction false} HeaderLinesJoin(headers: seq<Header>)
    ensures HeaderLines(headers) == JoinLines(FieldLines(headers))
  {
    if |headers| > 0 {
      HeaderLinesJoin(headers[1..]);
      assert FieldLines(headers)[1..] == FieldLines(headers[1..]);
      CrlfBytes();
    }
  }

  /** The request line as `build_request` writes it. */
  lemma FirstLineJoin(uri: Uri)
    ensures JoinLines([Ascii("GET ") + RequestTarget(uri) + Ascii(" HTTP/1.1")])
      == Ascii("GET ") + uri.path
         + (if uri.query.Some? then Ascii("?") + uri.query.value else [])
         + Ascii(" HTTP/1.1\r\n")
  {
    RequestLineBytes();
  }

  /** The `Host` line as `build_request` writes it. */
  lemma HostLineJoin(uri: Uri)
    ensures JoinLines(if uri.host.Some? then [Ascii("Host: ") + HostValue(uri)] else [])
      == if uri.host.Some? then
           Ascii("Host: ") + uri.host.value
           + (if DefaultPort(uri).Some? then Ascii(":") + Decimal.Digits(DefaultPort(uri).value as nat) else [])
           + Ascii("\r\n")
         else []
  {
    CrlfBytes();
  }

  /** Joining four lines. */
  lemma JoinFour(a: seq<byte>, b: seq<byte>, c: seq<byte>, d: seq<byte>)
    ensures JoinLines([a, b, c, d]) == a + Crlf + b + Crlf + c + Crlf + d + Crlf
  {
    var ls := [a, b, c, d];
    assert ls[1..][1..][1..][1..] == [];
    assert JoinLines(ls[1..][1..][1..]) == d + Crlf;
    assert JoinLines(ls[1..][1..]) == c + Crlf + d + Crlf;
  }

  /** The four handshake fields as `build_request` writes them. */
  lemma FixedLinesJoin(key: seq<byte>)
    ensures JoinLines([Ascii("Upgrade: websocket"), Ascii("Connection: Upgrade"),
                       Ascii("Sec-WebSocket-Key: ") + key, Ascii("Sec-WebSocket-Version: 13")])
      == Ascii("Upgrade: websocket\r\nConnection: Upgrade\r\nSec-WebSocket-Key: ") + key
         + Ascii("\r\nSec-WebSocket-Version: 13\r\n")
  {
    var u, c, k, v := Ascii("Upgrade: websocket"), Ascii("Connection: Upgrade"),
      Ascii("Sec-WebSocket-Key: "), Ascii("Sec-WebSocket-Version: 13");
    JoinFour(u, c, k + key, v);
    UpgradeBytes();
    VersionBytes();
    assert u + Crlf + c + Crlf + (k + key) + Crlf + v + Crlf == (u + Crlf + c + Crlf + k) + key + (Crlf + v + Crlf);
  }

  /** The request line, `Host` line and handshake fields before the
      caller's fields. */
  function HeadLines(uri: Uri, key: seq<byte>): seq<seq<byte>> {
    [Ascii("GET ") + RequestTarget(uri) + Ascii(" HTTP/1.1")]
    + (if uri.host.Some? then [Ascii("Host: ") + HostValue(uri)] else [])
    + [Ascii("Upgrade: websocket"), Ascii("Connection: Upgrade"),
       Ascii("Sec-WebSocket-Key: ") + key, Ascii("Sec-WebSocket-Version: 13")]
  }

  /** Joining the request lines piece by piece. */
  lemma JoinRequestLines(uri: Uri, key: seq<byte>, headers: seq<Header>)
    ensures JoinLines(RequestLines(uri, key, headers))
      == JoinLines(HeadLines(uri, key)) + HeaderLines(headers) + Crlf
  {
    var fields := FieldLines(headers);
    JoinAppend(HeadLines(uri, key) + fields, [[]]);
    JoinAppend(HeadLines(uri, key), fields);
    assert JoinLines([[]]) == Crlf;
    HeaderLinesJoin(headers);
  }

  /** The bytes `build_request` writes before the caller's fields are the
      joined head lines. */
  lemma JoinHeadLines(uri: Uri, key: seq<byte>)
    ensures JoinLines(HeadLines(uri, key))
      == Ascii("GET ") + uri.path
         + (if uri.query.Some? then Ascii("?") + uri.query.value else [])
         + Ascii(" HTTP/1.1\r\n")
         + (if uri.host.Some? then
              Ascii("Host: ") + uri.host.value
              + (if DefaultPort(uri).Some? then Ascii(":") + Decimal.Digits(DefaultPort(uri).value as nat) else [])
              + Ascii("\r\n")
            else [])
         + Ascii("Upgrade: websocket\r\nConnection: Upgrade\r\nSec-WebSocket-Key: ") + key
         + Ascii("\r\nSec-WebSocket-Version: 13\r\n")
  {
    var first := [Ascii("GET ") + RequestTarget(uri) + Ascii(" HTTP/1.1")];
    var host := if uri.host.Some? then [Ascii("Host: ") + HostValue(uri)] else [];
    var fixed := [Ascii("Upgrade: websocket"), Ascii("Connection: Upgrade"),
                  Ascii("Sec-WebSocket-Key: ") + key, Ascii("Sec-WebSocket-Version: 13")];
    JoinAppend(first + host, fixed);
    JoinAppend(first, host);
    FirstLineJoin(uri);
    HostLineJoin(uri);
    FixedLinesJoin(key);
    var a, h := JoinLines(first), JoinLines(host);
    var u, v := Ascii("Upgrade: websocket\r\nConnection: Upgrade\r\nSec-WebSocket-Key: "),
      Ascii("\r\nSec-WebSocket-Version: 13\r\n");
    AppendAssoc(a + h, u + key, v);
    AppendAssoc(a + h, u, key);
  }

  /** `build_request` writes exactly the joined request lines, for every
      input, CR bytes included. */
  lemma RequestIsJoin(uri: Uri, key: seq<byte>, headers: seq<Header>)
    ensures BuildRequest(uri, key, headers) == JoinLines(RequestLines(uri, key, headers))
  {
  }

  // ---------------------------------------------------------------------
  // Properties of the request

  /** No CR in a concatenation of CR-free parts. */
  lemma NoCrAppend(a: seq<byte>, b: seq<byte>)
    requires NoCr(a) && NoCr(b)
    ensures NoCr(a + b)
  {
    assert forall i | 0 <= i < |a + b| :: (a + b)[i] == if i < |a| then a[i] else b[i - |a|];
  }

  /** The URI parts and header fields carry no CR, as a parsed URI and
      validated header names and values cannot. */
  predicate CrFree(uri: Uri, key: seq<byte>, headers: seq<Header>) {
    && NoCr(uri.path)
    && (uri.query.Some? ==> NoCr(uri.query.value))
    && (uri.host.Some? ==> NoCr(uri.host.value))
    && NoCr(key)
    && forall k | 0 <= k < |headers| :: NoCr(headers[k].name) && NoCr(headers[k].value)
  }

  /** The request target has no CR when path and query have none. */
  lemma TargetCrFree(uri: Uri)
    requires NoCr(uri.path) && (uri.query.Some? ==> NoCr(uri.query.value))
    ensures NoCr(Ascii("GET ") + RequestTarget(uri) + Ascii(" HTTP/1.1"))
  {
    assert NoCr(Ascii("?")) && NoCr(Ascii("GET ")) && NoCr(Ascii(" HTTP/1.1"));
    if uri.query.Some? {
      NoCrAppend(Ascii("?"), uri.query.value);
      NoCrAppend(uri.path, Ascii("?") + uri.query.value);
    } else {
      assert RequestTarget(uri) == uri.path;
    }
    NoCrAppend(Ascii("GET "), RequestTarget(uri));
    NoCrAppend(Ascii("GET ") + RequestTarget(uri), Ascii(" HTTP/1.1"));
  }

  /** The `Host` line has no CR when the host has none. */
  lemma HostCrFree(uri: Uri)
    requires uri.host.Some? && NoCr(uri.host.value)
    ensures NoCr(Ascii("Host: ") + HostValue(uri))
  {
    assert NoCr(Ascii("Host: ")) && NoCr(Ascii(":"));
    if DefaultPort(uri).Some? {
      var digits := Decimal.Digits(DefaultPort(uri).value as nat);
      assert NoCr(digits);
      NoCrAppend(Ascii(":"), digits);
      NoCrAppend(uri.host.value, Ascii(":") + digits);
    } else {
      assert HostValue(uri) == uri.host.value;
    }
    NoCrAppend(Ascii("Host: "), HostValue(uri));
  }

  /** The four handshake fields have no CR when the key has none. */
  lemma FixedCrFree(key: seq<byte>)
    requires NoCr(key)
    ensures NoCr(Ascii("Upgrade: websocket")) && NoCr(Ascii("Connection: Upgrade"))
    ensures NoCr(Ascii("Sec-WebSocket-Key: ") + key) && NoCr(Ascii("Sec-WebSocket-Version: 13"))
  {
    UpgradeCrFree();
    KeyCrFree();
    VersionCrFree();
    NoCrAppend(Ascii("Sec-WebSocket-Key: "), key);
  }

  lemma UpgradeCrFree()
    ensures NoCr(Ascii("Upgrade: websocket")) && NoCr(Ascii("Connection: Upgrade"))
  {
    PrintableNoCr("Upgrade: websocket");
    PrintableNoCr("Connection: Upgrade");
  }

  lemma KeyCrFree()
    ensures NoCr(Ascii("Sec-WebSocket-Key: "))
  {
    PrintableNoCr("Sec-WebSocket-Key: ");
  }

  lemma VersionCrFree()
    ensures NoCr(Ascii("Sec-WebSocket-Version: 13"))
  {
    PrintableNoCr("Sec-WebSocket-Version: 13");
  }

  /** Printable ASCII text, from space to `~`. */
  predicate Printable(s: string) {
    forall i | 0 <= i < |s| :: ' ' <= s[i] <= '~'
  }

  /** The bytes of printable text hold no CR. */
  lemma PrintableNoCr(s: string)
    requires Printable(s)
    ensures NoCr(Ascii(s))
  {
  }

  /** Under `CrFree` no head line holds a CR. */
  lemma HeadCrFree(uri: Uri, key: seq<byte>, headers: seq<Header>)
    requires CrFree(uri, key, headers)
    ensures forall k | 0 <= k < |HeadLines(uri, key)| :: NoCr(HeadLines(uri, key)[k])
  {
    var first := [Ascii("GET ") + RequestTarget(uri) + Ascii(" HTTP/1.1")];
    var host := if uri.host.Some? then [Ascii("Host: ") + HostValue(uri)] else [];
    var fixed := [Ascii("Upgrade: websocket"), Ascii("Connection: Upgrade"),
                  Ascii("Sec-WebSocket-Key: ") + key, Ascii("Sec-WebSocket-Version: 13")];
    TargetCrFree(uri);
    if uri.host.Some? {
      HostCrFree(uri);
    }
    FixedCrFree(key);
    var head := HeadLines(uri, key);
    assert head == first + host + fixed;
    forall k | 0 <= k < |head| ensures NoCr(head[k]) {
      if k == 0 {
        assert head[k] == first[0];
      } else if k < 1 + |host| {
        assert head[k] == host[0];
      } else {
        assert head[k] == fixed[k - 1 - |host|];
      }
    }
  }

  /** Under `CrFree` no field line holds a CR. */
  lemma FieldsCrFree(uri: Uri, key: seq<byte>, headers: seq<Header>)
    requires CrFree(uri, key, headers)
    ensures forall k | 0 <= k < |headers| :: NoCr(FieldLines(headers)[k])
  {
    assert NoCr(Ascii(": "));
    forall k | 0 <= k < |headers| ensures NoCr(FieldLines(headers)[k]) {
      NoCrAppend(headers[k].name, Ascii(": "));
      NoCrAppend(headers[k].name + Ascii(": "), headers[k].value);
    }
  }

  /** Under `CrFree` no request line holds a CR. */
  lemma RequestLinesCrFree(uri: Uri, key: seq<byte>, headers: seq<Header>)
    requires CrFree(uri, key, headers)
    ensures forall k | 0 <= k < |RequestLines(uri, key, headers)| :: NoCr(RequestLines(uri, key, headers)[k])
  {
    HeadCrFree(uri, key, headers);
    FieldsCrFree(uri, key, headers);
    var lines := RequestLines(uri, key, headers);
    var head := HeadLines(uri, key);
    forall k | 0 <= k < |lines| ensures NoCr(lines[k]) {
      if k < |head| {
        assert lines[k] == head[k];
      } else if k < |head| + |headers| {
        assert lines[k] == FieldLines(headers)[k - |head|];
      } else {
        assert lines[k] == [];
      }
    }
  }

  /** Reading the request back as lines gives the request line, the `Host`
      line, the four handshake fields, the caller's fields in order and the
      empty line that ends the head. */
  lemma BuildRequestLines(uri: Uri, key: seq<byte>, headers: seq<Header>)
    requires CrFree(uri, key, headers)
    ensures SplitLines(BuildRequest(uri, key, headers)) == Some(RequestLines(uri, key, headers))
  {
    RequestIsJoin(uri, key, headers);
    RequestLinesCrFree(uri, key, headers);
    SplitJoin(RequestLines(uri, key, headers));
  }

  /** Joined lines begin with the first line. */
  lemma JoinStarts(lines: seq<seq<byte>>, t: seq<byte>)
    requires |lines| >= 1 && |t| <= |lines[0]| && lines[0][..|t|] == t
    ensures |t| <= |JoinLines(lines)| && JoinLines(lines)[..|t|] == t
  {
    assert JoinLines(lines) == lines[0] + (Crlf + JoinLines(lines[1..]));
  }

  /** Joined lines whose last two are some line and the empty line end with
      two CR LF. */
  lemma JoinEnds(lines: seq<seq<byte>>)
    requires |lines| >= 2 && lines[|lines| - 1] == []
    ensures 4 <= |JoinLines(lines)| && JoinLines(lines)[|JoinLines(lines)| - 4..] == Crlf + Crlf
  {
    var body := lines[..|lines| - 2];
    var last := lines[|lines| - 2];
    assert lines == body + [last, []];
    JoinAppend(body, [last, []]);
    assert [last, []][1..] == [[]];
    assert JoinLines([[]]) == Crlf;
    assert JoinLines([last, []]) == last + Crlf + Crlf;
  }

  /** The request opens with `GET ` and the target and ends with an empty
      line, whatever the parts hold. */
  lemma RequestFraming(uri: Uri, key: seq<byte>, headers: seq<Header>)
    ensures var r := BuildRequest(uri, key, headers); var t := Ascii("GET ") + RequestTarget(uri);
      && |t| <= |r| && r[..|t|] == t
      && 4 <= |r| && r[|r| - 4..] == Crlf + Crlf
  {
    var lines := RequestLines(uri, key, headers);
    var t := Ascii("GET ") + RequestTarget(uri);
    RequestIsJoin(uri, key, headers);
    assert lines[0] == t + Ascii(" HTTP/1.1");
    assert lines[0][..|t|] == t;
    JoinStarts(lines, t);
    JoinEnds(lines);
  }

  // ---------------------------------------------------------------------
  // The request and the connection agree

  /** The `Host` line names the host `connect` resolves and, when the URI
      implies a port, the port `connect` uses, written in decimal; when it
      implies none the line carries no port and `connect` falls back to 80. */
  lemma HostHeaderAgreesWithConnect(b: Builder, key: seq<byte>)
    requires b.uri.host.Some?
    ensures PlanConnect(b).Ok?
    ensures var line := RequestLines(b.uri, key, b.headers)[1]; var t := PlanConnect(b).value;
      && (DefaultPort(b.uri).Some? ==>
            line == Ascii("Host: ") + t.host + Ascii(":") + Decimal.Digits(t.port as nat)
            && Decimal.Value(Decimal.Digits(t.port as nat)) == t.port as int)
      && (DefaultPort(b.uri).None? ==> line == Ascii("Host: ") + t.host && t.port == 80)
  {
    var t := PlanConnect(b).value;
    assert RequestLines(b.uri, key, b.headers)[1] == Ascii("Host: ") + HostValue(b.uri);
    if DefaultPort(b.uri).Some? {
      Decimal.ValueOfDigits(t.port as nat);
    } else {
      assert HostValue(b.uri) == b.uri.host.value;
    }
  }

  /** A builder made from a URI alone wraps the stream in TLS exactly when
      the scheme is `wss`; an `https` URI connects to port 443 without TLS. */
  lemma FreshBuilderConnects(uri: Uri)
    requires uri.host.Some?
    ensures PlanConnect(FromUri(uri)).Ok?
    ensures PlanConnect(FromUri(uri)).value.connector ==
      if uri.scheme == Some(Wss) then NewTls else PlainStream
    ensures uri.scheme == Some(Https) && uri.port.None? ==>
      PlanConnect(FromUri(uri)).value == Target(uri.host.value, 443, PlainStream)
  {
  }

  /** A connector set on the builder is used whatever the scheme, and the
      extra header fields do not change where or how `connect` connects. */
  lemma ConnectorOverridesScheme(b: Builder, c: Connector, name: seq<byte>, value: seq<byte>)
    requires b.uri.host.Some?
    ensures PlanConnect(SetConnector(b, c)).Ok?
    ensures PlanConnect(SetConnector(b, c)).value.connector == Given(c)
    ensures PlanConnect(AddHeader(b, name, value)) == PlanConnect(b)
  {
  }
}
