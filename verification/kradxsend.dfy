/**
 * The `kradxsend` sink element: it connects to an Icecast server on the
 * first buffer it renders, sends the SOURCE request, then writes every
 * buffer whole, reporting a write that falls short.
 *
 * The socket is not modelled. A `Network` stands for it: what dialling the
 * server does (`socket`, name resolution, `connect`) and the result of each
 * `send`. The ghost field `wire` is what the server has accepted, in order;
 * `closed` lists the descriptors the element has closed.
 */
module KradxSend {
  import opened Options
  import opened CStrings
  import opened Base64
  import opened Icecast
  import opened SendLoop
  import Base64Element

  /** What dialling the server gives. */
  datatype Dial =
    | NoSocket              // `socket` fails
    | UnknownHost(sd: nat)  // the address is no dotted quad and `gethostbyname` finds nothing
    | Refused(sd: nat)      // `connect` fails
    | Connected(sd: nat)    // `connect` succeeds on descriptor `sd`

  datatype Network = Network(dial: Dial, reply: Reply)

  /** The outcome of rendering a buffer; `ProcessExit` is the `exit(1)` of a failed connect. */
  datatype Flow = FlowOk | FlowError | ProcessExit

  /** What the element posts: the write error message and the `connection-problem` signal. */
  datatype Event = WriteError(tried: nat, got: nat) | ConnectionProblem(code: int)

  /** The value the element emits with `connection-problem`. */
  const ConnectionProblemCode: int := 666

  const DefaultIp: string := "127.0.0.1"
  const DefaultPort: nat := 8000
  const DefaultPassword: string := "hackme"
  const DefaultMount: string := ""

  /** The media types the element accepts, numbered as it stores them in `format`. */
  function MimeOf(format: nat): string
    requires format < 3
  {
    if format == 0 then "audio/mpeg" else if format == 1 then "application/ogg" else "video/webm"
  }

  /** The format number for a media type, if the element accepts it. */
  function FormatOf(mime: string): (f: Option<nat>)
    ensures f.Some? <==> mime in {"audio/mpeg", "application/ogg", "video/webm"}
    ensures f.Some? ==> f.value < 3 && MimeOf(f.value) == mime
  {
    if mime == "audio/mpeg" then Some(0)
    else if mime == "application/ogg" then Some(1)
    else if mime == "video/webm" then Some(2)
    else None
  }

  /** Each accepted media type has its own format number. */
  lemma FormatsDistinct(format: nat)
    requires format < 3
    ensures FormatOf(MimeOf(format)) == Some(format)
  {}

  /** The bytes of a header that a server accepts from the one `send` of the handshake. */
  ghost function Greeting(reply: Reply, h: string): seq<Byte> {
    var bytes := Octets(h);
    Piece(Send(bytes, reply(0, bytes)))
  }

  class Sink {
    var ip: string
    var port: nat
    var password: string
    var mount: string
    var format: nat
    var connected: bool
    var sd: int
    var contentType: string
    var auth: string
    var authBase64: string
    var headers: string
    var headerPos: nat
    var events: seq<Event>
    ghost var wire: seq<Byte>
    ghost var closed: seq<int>

    /**
     * Mount point and password are C strings; once connected, the header
     * buffer holds the request for them, terminated, and `headerPos` is its
     * length.
     */
    ghost predicate Valid()
      reads this
    {
      IsCString(password) && IsCString(mount) &&
      (connected ==>
        sd >= 0 && headers == ElementHandshake(mount, password) + [NUL] &&
        headerPos == |ElementHandshake(mount, password)|)
    }

    /** A new element: the default address, port, password and mount point, not connected. */
    constructor ()
      ensures Valid() && !connected && sd == 0 && format == 0
      ensures ip == DefaultIp && port == DefaultPort && password == DefaultPassword && mount == DefaultMount
      ensures events == [] && wire == [] && closed == []
    {
      ip, port, password, mount := DefaultIp, DefaultPort, DefaultPassword, DefaultMount;
      format, connected, sd := 0, false, 0;
      contentType, auth, authBase64, headers, headerPos := [], [], [], [], 0;
      events, wire, closed := [], [], [];
    }

    /**
     * The lines the four `sprintf` calls write, read from the content-type
     * and token buffers, make up the element's header, which holds no NUL.
     */
    static lemma HeaderPieces(mount: string, password: string, contentType: string, authBase64: string)
      requires IsCString(mount) && IsCString(password)
      requires contentType == ContentType + [NUL]
      requires authBase64 == Encode(Credentials(password)) + [NUL]
      ensures NUL in contentType && NUL in authBase64
      ensures var h := ElementHandshake(mount, password);
        h == RequestLine(mount) + ContentTypeLine(Text(contentType)) + AuthorizationLine(Text(authBase64)) + CRLF &&
        NUL !in h
    {
      var token := Encode(Credentials(password));
      assert Text(contentType) == ContentType by { StrLenOfTerminated(ContentType); }
      assert Text(authBase64) == token by { TokenIsPlain(password); StrLenOfTerminated(token); }
      CStringHasNoNul(mount);
      ElementHandshakeNulFree(mount, password);
      HandshakeText(mount, ContentType, token);
    }

    /** Once connected, `headerPos` is the `strlen` of the header buffer: the request holds no NUL. */
    lemma HeaderPosIsStrLen()
      requires Valid() && connected
      ensures NUL in headers && StrLen(headers) == headerPos
    {
      CStringHasNoNul(mount);
      ElementHandshakeNulFree(mount, password);
      StrLenOfTerminated(ElementHandshake(mount, password));
    }

    /** Writing `text` over the terminator of `done` leaves `done + text`, terminated. */
    static lemma Rewritten(done: string, text: string)
      ensures (done + [NUL])[..|done|] + text + [NUL] == done + text + [NUL]
    {
      assert (done + [NUL])[..|done|] == done;
    }

    /** `sprintf` into the header buffer at `pos`: `text` and its terminator; the count excludes the NUL. */
    method WriteHeaders(pos: nat, text: string) returns (n: nat)
      requires pos <= |headers|
      modifies this`headers
      ensures headers == old(headers)[..pos] + text + [NUL] && n == |text|
    {
      headers := headers[..pos] + text + [NUL];
      n := |text|;
    }

    /**
     * `gst_kradxsend_connect`: dial the server, then build the SOURCE
     * request in the header buffer and send it once, ignoring the result.
     * Each dial failure ends the process; the name-resolution failure closes
     * the socket first.
     */
    method Connect(net: Network) returns (exited: bool)
      requires Valid() && !connected
      modifies this
      ensures exited <==> !net.dial.Connected?
      ensures sd == (if net.dial.NoSocket? then -1 else net.dial.sd)
      ensures closed == old(closed) + (if net.dial.UnknownHost? then [net.dial.sd] else [])
      ensures connected == !exited
      ensures ip == old(ip) && port == old(port) && password == old(password) && mount == old(mount)
      ensures format == old(format) && events == old(events)
      ensures exited ==> (wire == old(wire) &&
        contentType == old(contentType) && auth == old(auth) && authBase64 == old(authBase64) &&
        headers == old(headers) && headerPos == old(headerPos))
      ensures !exited ==> (Valid() &&
        contentType == ContentType + [NUL] &&
        auth == Credentials(password) + [NUL] &&
        authBase64 == Encode(Credentials(password)) + [NUL] &&
        headers == ElementHandshake(mount, password) + [NUL] &&
        headerPos == |ElementHandshake(mount, password)| &&
        wire == old(wire) + Greeting(net.reply, ElementHandshake(mount, password)))
    {
      exited := Dial(net.dial);
      if exited {
        return;
      }
      Greet(net.reply);
    }

    /**
     * The connected half of `gst_kradxsend_connect`: the request is built in
     * the header buffer and sent once, and the element is marked connected.
     */
    method Greet(reply: Reply)
      requires IsCString(password) && IsCString(mount) && sd >= 0
      modifies this`contentType, this`auth, this`authBase64, this`headers, this`headerPos, this`wire, this`connected
      ensures Valid() && connected
      ensures contentType == ContentType + [NUL]
      ensures auth == Credentials(password) + [NUL]
      ensures authBase64 == Encode(Credentials(password)) + [NUL]
      ensures headers == ElementHandshake(mount, password) + [NUL]
      ensures headerPos == |ElementHandshake(mount, password)|
      ensures wire == old(wire) + Greeting(reply, ElementHandshake(mount, password))
    {
      Prepare();
      ghost var h := ElementHandshake(mount, password);
      SendHeaders(reply, h);
      connected := true;
      assert h == ElementHandshake(mount, password);
    }

    /** The content type, the credentials, their encoding and the header block, in the buffers. */
    method Prepare()
      requires IsCString(password) && IsCString(mount)
      modifies this`contentType, this`auth, this`authBase64, this`headers, this`headerPos
      ensures contentType == ContentType + [NUL]
      ensures auth == Credentials(password) + [NUL]
      ensures authBase64 == Encode(Credentials(password)) + [NUL]
      ensures headers == ElementHandshake(mount, password) + [NUL]
      ensures headerPos == |ElementHandshake(mount, password)|
      ensures NUL !in ElementHandshake(mount, password)
    {
      ghost var h := ElementHandshake(mount, password);
      Authenticate();
      BuildHeaders(h);
    }

    /**
     * `socket`, name resolution and `connect`: each failure ends the process,
     * the name-resolution failure after closing the socket.
     */
    method Dial(dial: Dial) returns (exited: bool)
      modifies this`sd, this`closed, this`connected
      ensures exited <==> !dial.Connected?
      ensures sd == (if dial.NoSocket? then -1 else dial.sd)
      ensures closed == old(closed) + (if dial.UnknownHost? then [dial.sd] else [])
      ensures connected == (dial.Connected? || old(connected))
    {
      match dial {
        case NoSocket =>
          sd := -1;
          return true;
        case UnknownHost(s) =>
          sd := s;
          closed := closed + [s];
          return true;
        case Refused(s) =>
          sd := s;
          return true;
        case Connected(s) =>
          sd := s;
          connected := true;
          return false;
      }
    }

    /** The content type, `source:<password>` and its base64 encoding, each as a C string. */
    method Authenticate()
      requires IsCString(password)
      modifies this`contentType, this`auth, this`authBase64
      ensures contentType == ContentType + [NUL]
      ensures auth == Credentials(password) + [NUL]
      ensures authBase64 == Encode(Credentials(password)) + [NUL]
    {
      contentType := ContentType + [NUL];
      var credentials := Credentials(password);
      CStringHasNoNul(password);
      assert NUL !in credentials && IsOctets(credentials);
      auth := credentials + [NUL];
      StrLenOfTerminated(credentials);
      authBase64 := Base64Element.EncodeCString(auth);
    }

    /** The four `sprintf` calls that write the request into the header buffer, counting its length. */
    method BuildHeaders(ghost h: string)
      requires IsCString(password) && IsCString(mount) && h == ElementHandshake(mount, password)
      requires contentType == ContentType + [NUL]
      requires authBase64 == Encode(Credentials(password)) + [NUL]
      modifies this`headers, this`headerPos
      ensures headers == h + [NUL] && headerPos == |h| && NUL !in h
      ensures NUL in headers && StrLen(headers) == headerPos
    {
      HeaderPieces(mount, password, contentType, authBase64);
      var l1, l2, l3 := RequestLine(mount), ContentTypeLine(Text(contentType)), AuthorizationLine(Text(authBase64));
      assert h == l1 + l2 + l3 + CRLF;
      var n := WriteHeaders(0, l1);
      headerPos := n;
      assert headers == l1 + [NUL];
      n := WriteHeaders(headerPos, l2);
      Rewritten(l1, l2);
      headerPos := headerPos + n;
      n := WriteHeaders(headerPos, l3);
      Rewritten(l1 + l2, l3);
      headerPos := headerPos + n;
      n := WriteHeaders(headerPos, CRLF);
      Rewritten(l1 + l2 + l3, CRLF);
      headerPos := headerPos + n;
      assert headers == h + [NUL];
      StrLenOfTerminated(h);
    }

    /** The one `send` of the header buffer's text; its result is not looked at. */
    method SendHeaders(reply: Reply, ghost h: string)
      requires NUL !in h && headers == h + [NUL]
      modifies this`wire
      ensures wire == old(wire) + Greeting(reply, h)
    {
      StrLenOfTerminated(h);
      var bytes := Octets(Text(headers));
      var sret := reply(0, bytes);
      wire := wire + Piece(Send(bytes, sret));
    }

    /**
     * `gst_kradxsend_render`: connect if not connected, then offer the
     * unsent rest of the buffer to `send` until all of it is accepted or a
     * call returns zero or less. A shortfall posts a write error and the
     * `connection-problem` signal with 666 and gives `FlowError`.
     */
    method Render(buf: seq<Byte>, net: Network) returns (flow: Flow)
      requires Valid() && Honest(net.reply)
      modifies this
      ensures ip == old(ip) && port == old(port) && password == old(password) && mount == old(mount)
      ensures format == old(format)
      ensures connected == (old(connected) || net.dial.Connected?)
      ensures old(connected) ==> (sd == old(sd) && closed == old(closed) &&
        contentType == old(contentType) && auth == old(auth) && authBase64 == old(authBase64) &&
        headers == old(headers) && headerPos == old(headerPos))
      ensures !old(connected) ==> (
        sd == (if net.dial.NoSocket? then -1 else net.dial.sd) &&
        closed == old(closed) + (if net.dial.UnknownHost? then [net.dial.sd] else []))
      ensures !old(connected) && net.dial.Connected? ==> (
        contentType == ContentType + [NUL] &&
        auth == Credentials(password) + [NUL] &&
        authBase64 == Encode(Credentials(password)) + [NUL] &&
        headers == ElementHandshake(mount, password) + [NUL] &&
        headerPos == |ElementHandshake(mount, password)|)
      ensures !old(connected) && !net.dial.Connected? ==>
        flow == ProcessExit && events == old(events) && wire == old(wire) &&
        contentType == old(contentType) && auth == old(auth) && authBase64 == old(authBase64) &&
        headers == old(headers) && headerPos == old(headerPos)
      ensures old(connected) || net.dial.Connected? ==>
        var first := if old(connected) then 0 else 1;
        var greeting := if old(connected) then [] else Greeting(net.reply, ElementHandshake(mount, password));
        var p := Drain(net.reply, buf, 0, first);
        Valid() && connected &&
        wire == old(wire) + greeting + buf[..p.sent] &&
        (flow == FlowOk <==> p.sent == |buf|) &&
        (flow == FlowError <==> p.sent < |buf|) &&
        events == old(events) + (if p.sent == |buf| then [] else [WriteError(|buf|, p.sent), ConnectionProblem(ConnectionProblemCode)])
    {
      var first := 0;
      if !connected {
        var exited := Connect(net);
        if exited {
          return ProcessExit;
        }
        first := 1;
      }
      flow := Push(buf, net.reply, first);
    }

    /**
     * The write loop and its outcome: on a shortfall the write error and
     * the connection problem are reported and the render call fails, with
     * no retry; otherwise it succeeds.
     */
    method Push(buf: seq<Byte>, reply: Reply, first: nat) returns (flow: Flow)
      requires Honest(reply)
      modifies this`wire, this`events
      ensures var p := Drain(reply, buf, 0, first);
        wire == old(wire) + Delivered(Calls(reply, buf, 0, first)) &&
        wire == old(wire) + buf[..p.sent] &&
        (flow == FlowOk <==> p.sent == |buf|) &&
        (flow == FlowError <==> p.sent < |buf|) &&
        events == old(events) + (if p.sent == |buf| then [] else [WriteError(|buf|, p.sent), ConnectionProblem(ConnectionProblemCode)])
    {
      var sent, next, log := Transmit(buf, reply, first);
      CallsDeliver(reply, buf, 0, first);
      wire := wire + Delivered(log);
      if sent != |buf| {
        events := events + [WriteError(|buf|, sent), ConnectionProblem(ConnectionProblemCode)];
        return FlowError;
      }
      return FlowOk;
    }

    /** `gst_kradxsend_stop`: close the socket if connected; always end disconnected and succeed. */
    method Stop() returns (ok: bool)
      requires Valid()
      modifies this`connected, this`sd, this`closed
      ensures ok && !connected && Valid()
      ensures old(connected) ==> sd == 0 && closed == old(closed) + [old(sd)]
      ensures !old(connected) ==> sd == old(sd) && closed == old(closed)
    {
      if connected {
        closed := closed + [sd];
        sd := 0;
      }
      connected := false;
      return true;
    }

    /** `gst_kradxsend_setcaps`: store the format of an accepted media type; refuse any other. */
    method SetCaps(mime: string) returns (ok: bool)
      modifies this`format
      ensures ok <==> FormatOf(mime).Some?
      ensures format == if ok then FormatOf(mime).value else old(format)
    {
      var f := FormatOf(mime);
      if f.Some? {
        format := f.value;
      }
      ok := f.Some?;
    }
  }
}
