/**
 * The Icecast SOURCE request that `gst_kradxsend_connect` sends once the
 * socket is connected: a request line naming the mount point, the content
 * type, HTTP Basic credentials for the user `source`, and an empty line.
 *
 * `ReadRequest` is the server's side of the exchange, reading the four lines
 * back; it is the reference the header text is proved against.
 */
module Icecast {
  import opened Options
  import opened CStrings
  import opened Base64

  /** The content type the element announces, whatever format was negotiated. */
  const ContentType: string := "video/webm"

  const CRLF: string := "\r\n"

  /** `source:<password>`, the user-id and password pair of HTTP Basic authentication. */
  function Credentials(password: string): string {
    "source:" + password
  }

  /** The text of the request line, naming the mount point. */
  function RequestText(mount: string): string {
    "SOURCE /" + mount + " ICE/1.0"
  }

  /** The text of the content-type header line. */
  function ContentTypeText(contentType: string): string {
    "content-type: " + contentType
  }

  /** The text of the authorization header line, carrying the Base64 token. */
  function AuthorizationText(token: string): string {
    "Authorization: Basic " + token
  }

  function RequestLine(mount: string): string {
    RequestText(mount) + CRLF
  }

  function ContentTypeLine(contentType: string): string {
    ContentTypeText(contentType) + CRLF
  }

  function AuthorizationLine(token: string): string {
    AuthorizationText(token) + CRLF
  }

  /** Each line followed by CR LF. */
  function Lines(ls: seq<string>): string {
    if ls == [] then [] else ls[0] + CRLF + Lines(ls[1..])
  }

  /** The header block, in the order the element writes it: three lines, then an empty one. */
  function Handshake(mount: string, contentType: string, token: string): string {
    Lines([RequestText(mount), ContentTypeText(contentType), AuthorizationText(token), ""])
  }

  /** The header block is the text of the four `sprintf` calls, one after the other. */
  lemma HandshakeText(mount: string, contentType: string, token: string)
    ensures Handshake(mount, contentType, token) ==
      RequestLine(mount) + ContentTypeLine(contentType) + AuthorizationLine(token) + CRLF
  {
    var l1, l2, l3 := RequestText(mount), ContentTypeText(contentType), AuthorizationText(token);
    var ls := [l1, l2, l3, ""];
    assert Lines(ls[3..]) == CRLF by { assert ls[3..][1..] == []; }
    assert Lines(ls[2..]) == l3 + CRLF + CRLF by { assert ls[2..][1..] == ls[3..]; }
    assert Lines(ls[1..]) == l2 + CRLF + (l3 + CRLF + CRLF) by { assert ls[1..][1..] == ls[2..]; }
  }

  /** The element's header for a mount point and password. */
  function ElementHandshake(mount: string, password: string): string
    requires IsOctets(password)
  {
    Handshake(mount, ContentType, Encode(Credentials(password)))
  }

  /** What a server reads from a SOURCE request. */
  datatype Request = Request(mount: string, contentType: string, token: string)

  /** Text that cannot end a header line early. */
  predicate OneLine(s: string) {
    '\r' !in s && '\n' !in s
  }

  /** The text before the first CR LF, and the text after it. */
  function SplitLine(s: string): (r: Option<(string, string)>)
    ensures r.Some? ==> r.value.0 + CRLF + r.value.1 == s
    decreases |s|
  {
    if |s| < 2 then None
    else if s[0] == '\r' && s[1] == '\n' then Some(([], s[2..]))
    else
      match SplitLine(s[1..])
      case None => None
      case Some((line, rest)) => Some(([s[0]] + line, rest))
  }

  /** The part of `line` between `prefix` and `suffix`, when it has both. */
  function Between(line: string, prefix: string, suffix: string): (r: Option<string>)
    ensures r.Some? ==> prefix + r.value + suffix == line
  {
    if |prefix| + |suffix| <= |line| && line[..|prefix|] == prefix && line[|line| - |suffix|..] == suffix
    then
      assert line == line[..|prefix|] + line[|prefix|..|line| - |suffix|] + line[|line| - |suffix|..];
      Some(line[|prefix|..|line| - |suffix|])
    else None
  }

  /** A server's reading of a header block: three lines of the expected form, then the empty line. */
  function ReadRequest(h: string): Option<Request> {
    match SplitLine(h)
    case None => None
    case Some((l1, r1)) =>
      match SplitLine(r1)
      case None => None
      case Some((l2, r2)) =>
        match SplitLine(r2)
        case None => None
        case Some((l3, r3)) =>
          var mount, ct, token :=
            Between(l1, "SOURCE /", " ICE/1.0"), Between(l2, "content-type: ", ""), Between(l3, "Authorization: Basic ", "");
          if mount.Some? && ct.Some? && token.Some? && r3 == CRLF
          then Some(Request(mount.value, ct.value, token.value))
          else None
  }

  /** A line free of CR and LF is split off exactly at its own CR LF. */
  lemma {:induction false} SplitAt(line: string, rest: string)
    requires OneLine(line)
    ensures SplitLine(line + CRLF + rest) == Some((line, rest))
    decreases |line|
  {
    var s := line + CRLF + rest;
    if line == [] {
      assert s[2..] == rest;
    } else {
      assert s[1..] == line[1..] + CRLF + rest;
      SplitAt(line[1..], rest);
      assert [s[0]] + line[1..] == line;
    }
  }

  lemma BetweenOf(prefix: string, middle: string, suffix: string)
    ensures Between(prefix + middle + suffix, prefix, suffix) == Some(middle)
  {
    var line := prefix + middle + suffix;
    assert line[..|prefix|] == prefix;
    assert line[|line| - |suffix|..] == suffix;
    assert line[|prefix|..|line| - |suffix|] == middle;
  }

  /**
   * The header block carries its three fields intact: a server reads back
   * the mount point, the content type and the token, provided none of them
   * holds a line break.
   */
  lemma HandshakeReadsBack(mount: string, contentType: string, token: string)
    requires OneLine(mount) && OneLine(contentType) && OneLine(token)
    ensures ReadRequest(Handshake(mount, contentType, token)) == Some(Request(mount, contentType, token))
  {
    var l1, l2, l3 := RequestText(mount), ContentTypeText(contentType), AuthorizationText(token);
    var r3 := CRLF;
    var r2 := l3 + CRLF + r3;
    var r1 := l2 + CRLF + r2;
    HandshakeText(mount, contentType, token);
    assert Handshake(mount, contentType, token) == l1 + CRLF + r1;
    SplitAt(l1, r1);
    SplitAt(l2, r2);
    SplitAt(l3, r3);
    assert Between(l1, "SOURCE /", " ICE/1.0") == Some(mount) by {
      BetweenOf("SOURCE /", mount, " ICE/1.0");
    }
    assert Between(l2, "content-type: ", "") == Some(contentType) by {
      assert l2 == "content-type: " + contentType + "";
      BetweenOf("content-type: ", contentType, "");
    }
    assert Between(l3, "Authorization: Basic ", "") == Some(token) by {
      assert l3 == "Authorization: Basic " + token + "";
      BetweenOf("Authorization: Basic ", token, "");
    }
  }

  /**
   * The token holds only symbols of the base64 alphabet and `=`: no line
   * break and no NUL, whatever bytes the password contains.
   */
  lemma TokenIsPlain(password: string)
    requires IsOctets(password)
    ensures var token := Encode(Credentials(password));
      OneLine(token) && NUL !in token && IsOctets(token)
  {
    var token := Encode(Credentials(password));
    EncodeShape(Credentials(password));
    forall i | 0 <= i < |token|
      ensures token[i] != '\r' && token[i] != '\n' && token[i] != NUL && token[i] as int < 256
    {
      if token[i] != PadChar {
        SymbolOfValue(token[i]);
        SymbolValueOf(SymbolValue(token[i]));
      }
    }
  }

  /** The token decodes to `source:<password>`: the server recovers the password. */
  lemma TokenDecodes(password: string)
    requires IsOctets(password)
    ensures Decode(Encode(Credentials(password))) == Some(Credentials(password))
  {
    DecodeEncode(Credentials(password));
  }

  /**
   * With a mount point free of line breaks, a server reads the element's
   * header as mount, `video/webm` and a token that decodes to the
   * credentials; the password itself may hold any byte.
   */
  lemma ElementHandshakeReadsBack(mount: string, password: string)
    requires OneLine(mount) && IsOctets(password)
    ensures var r := ReadRequest(ElementHandshake(mount, password));
      r.Some? && r.value.mount == mount && r.value.contentType == ContentType &&
      Decode(r.value.token) == Some(Credentials(password))
  {
    TokenIsPlain(password);
    TokenDecodes(password);
    HandshakeReadsBack(mount, ContentType, Encode(Credentials(password)));
  }

  lemma RequestLineNulFree(mount: string)
    requires NUL !in mount
    ensures NUL !in RequestLine(mount)
  {
    assert NUL !in "SOURCE /" && NUL !in " ICE/1.0" && NUL !in CRLF;
  }

  lemma ContentTypeLineNulFree()
    ensures NUL !in ContentTypeLine(ContentType)
  {}

  lemma AuthorizationLineNulFree(token: string)
    requires NUL !in token
    ensures NUL !in AuthorizationLine(token)
  {
    assert NUL !in "Authorization: Basic " && NUL !in CRLF;
  }

  /**
   * The header holds no NUL when the mount point holds none, so `strlen` of
   * the buffer it is written to is its length.
   */
  lemma ElementHandshakeNulFree(mount: string, password: string)
    requires NUL !in mount && IsOctets(password)
    ensures NUL !in ElementHandshake(mount, password)
  {
    var token := Encode(Credentials(password));
    TokenIsPlain(password);
    RequestLineNulFree(mount);
    ContentTypeLineNulFree();
    AuthorizationLineNulFree(token);
    HandshakeText(mount, ContentType, token);
    assert NUL !in CRLF;
  }

  /** How many CR LF-terminated lines a reader splits off the front of `s`, one after the other. */
  function LineCount(s: string): nat
    decreases |s|
  {
    match SplitLine(s)
    case None => 0
    case Some((_, rest)) => 1 + LineCount(rest)
  }

  /**
   * Splitting `x + CR LF + y` stops at the first CR LF: either the one
   * after `x`, or one inside `x`, leaving the rest of `x` in front of `y`.
   */
  lemma {:induction false} SplitFirst(x: string, y: string)
    ensures var r := SplitLine(x + CRLF + y);
      r.Some? && |r.value.0| <= |x| &&
      (|r.value.0| == |x| ==> r.value.1 == y) &&
      (|r.value.0| < |x| ==> |r.value.0| + 2 <= |x| && r.value.1 == x[|r.value.0| + 2..] + CRLF + y)
    decreases |x|
  {
    var s := x + CRLF + y;
    if x == [] {
      assert s[2..] == y;
    } else if |x| >= 2 && x[0] == '\r' && x[1] == '\n' {
      assert s[2..] == x[2..] + CRLF + y;
    } else {
      assert s[1..] == x[1..] + CRLF + y;
      SplitFirst(x[1..], y);
      var r := SplitLine(s[1..]);
      if |r.value.0| < |x| - 1 {
        assert x[1..][|r.value.0| + 2..] == x[|r.value.0| + 3..];
      }
    }
  }

  /** A CR LF anywhere in front of `y` ends at least one line more than `y` alone has. */
  lemma {:induction false} LineCountAfter(x: string, y: string)
    ensures LineCount(x + CRLF + y) >= 1 + LineCount(y)
    decreases |x|
  {
    SplitFirst(x, y);
    var r := SplitLine(x + CRLF + y);
    if |r.value.0| < |x| {
      LineCountAfter(x[|r.value.0| + 2..], y);
    }
  }

  /** A text a server reads as a request consists of exactly four lines. */
  lemma ReadRequestLines(h: string)
    requires ReadRequest(h).Some?
    ensures LineCount(h) == 4
  {
    var (l1, r1) := SplitLine(h).value;
    var (l2, r2) := SplitLine(r1).value;
    var (l3, r3) := SplitLine(r2).value;
    assert r3 == CRLF;
    assert SplitLine(r3) == Some(([], [])) by { SplitAt([], []); }
    assert LineCount(r3) == 1 by { assert SplitLine([]) == None; }
    assert LineCount(r1) == 2 + LineCount(r3);
  }

  /**
   * A mount point `a + CR LF + b` ends the request line after `a`: the rest
   * of the mount and ` ICE/1.0` become a header line of their own.
   */
  lemma InjectedRequestLine(a: string, b: string, contentType: string, token: string)
    requires OneLine(a)
    ensures SplitLine(Handshake(a + CRLF + b, contentType, token)) ==
      Some(("SOURCE /" + a, b + " ICE/1.0" + CRLF + ContentTypeLine(contentType) + AuthorizationLine(token) + CRLF))
  {
    var mount := a + CRLF + b;
    var rest := b + " ICE/1.0" + CRLF + ContentTypeLine(contentType) + AuthorizationLine(token) + CRLF;
    HandshakeText(mount, contentType, token);
    assert Handshake(mount, contentType, token) == ("SOURCE /" + a) + CRLF + rest;
    SplitAt("SOURCE /" + a, rest);
  }

  /** The last three lines of a header block whose fields are one line each. */
  lemma TailLines(l2: string, l3: string)
    requires OneLine(l2) && OneLine(l3)
    ensures LineCount(Lines([l2, l3, ""])) == 3
  {
    var ls := [l2, l3, ""];
    assert Lines(ls[2..]) == CRLF by { assert ls[2..][1..] == []; }
    assert Lines(ls[1..]) == l3 + CRLF + CRLF by { assert ls[1..][1..] == ls[2..]; }
    assert Lines(ls) == l2 + CRLF + (l3 + CRLF + CRLF);
    assert LineCount(CRLF) == 1 by {
      SplitAt([], []);
      assert [] + CRLF + [] == CRLF;
      assert SplitLine([]) == None;
    }
    assert LineCount(l3 + CRLF + CRLF) == 2 by { SplitAt(l3, CRLF); }
    SplitAt(l2, l3 + CRLF + CRLF);
  }

  /** A CR LF at index `i` of the mount point gives the header block a fifth line. */
  lemma InjectedLines(mount: string, contentType: string, token: string, i: nat)
    requires OneLine(contentType) && OneLine(token)
    requires i < |mount| - 1 && mount[i] == '\r' && mount[i + 1] == '\n'
    ensures LineCount(Handshake(mount, contentType, token)) >= 5
  {
    var l2, l3 := ContentTypeText(contentType), AuthorizationText(token);
    var ls := [RequestText(mount), l2, l3, ""];
    var tail := Lines(ls[1..]);
    assert ls[1..] == [l2, l3, ""];
    TailLines(l2, l3);
    var a, b := mount[..i], mount[i + 2..];
    assert mount == a + CRLF + b;
    var after := b + " ICE/1.0" + CRLF + tail;
    assert Lines(ls) == ("SOURCE /" + a) + CRLF + after;
    LineCountAfter("SOURCE /" + a, after);
    LineCountAfter(b + " ICE/1.0", tail);
  }

  /**
   * A mount point carrying CR LF is not read back: it ends the request line
   * early and adds a fifth line, which no request has.
   */
  lemma MountInjection(mount: string, password: string)
    requires IsOctets(password)
    requires exists i :: 0 <= i < |mount| - 1 && mount[i] == '\r' && mount[i + 1] == '\n'
    ensures ReadRequest(ElementHandshake(mount, password)) == None
  {
    var i :| 0 <= i < |mount| - 1 && mount[i] == '\r' && mount[i + 1] == '\n';
    var token := Encode(Credentials(password));
    TokenIsPlain(password);
    InjectedLines(mount, ContentType, token, i);
    if ReadRequest(Handshake(mount, ContentType, token)).Some? {
      ReadRequestLines(Handshake(mount, ContentType, token));
    }
  }

  lemma GroupSou() ensures EncodeGroup("sou") == "c291" {}
  lemma GroupRce() ensures EncodeGroup("rce") == "cmNl" {}
  lemma GroupColonHa() ensures EncodeGroup(":ha") == "Omhh" {}
  lemma GroupCkm() ensures EncodeGroup("ckm") == "Y2tt" {}
  lemma GroupE() ensures EncodeGroup("e") == "ZQ==" {}

  lemma HackmeChain(a: string, b: string, c: string, d: string, e: string)
    requires a == "sou" && b == "rce" && c == ":ha" && d == "ckm" && e == "e"
    ensures Encode(a + (b + (c + (d + e)))) == "c291" + ("cmNl" + ("Omhh" + ("Y2tt" + "ZQ==")))
  {
    assert Encode(e) == "ZQ==" by { EncodeOneGroup(e); GroupE(); }
    assert Encode(d + e) == "Y2tt" + "ZQ==" by { EncodeFirst(d, e); GroupCkm(); }
    assert Encode(c + (d + e)) == "Omhh" + ("Y2tt" + "ZQ==") by { EncodeFirst(c, d + e); GroupColonHa(); }
    assert Encode(b + (c + (d + e))) == "cmNl" + ("Omhh" + ("Y2tt" + "ZQ==")) by {
      EncodeFirst(b, c + (d + e)); GroupRce();
    }
    EncodeFirst(a, b + (c + (d + e)));
    GroupSou();
  }

  /** The default password `hackme` gives the token `c291cmNlOmhhY2ttZQ==`. */
  lemma DefaultToken(password: string)
    requires password == "hackme"
    ensures Encode(Credentials(password)) == "c291cmNlOmhhY2ttZQ=="
  {
    assert Credentials(password) == "sou" + ("rce" + (":ha" + ("ckm" + "e")));
    HackmeChain("sou", "rce", ":ha", "ckm", "e");
  }

  /** For mount `live` the header begins with the line `SOURCE /live ICE/1.0`. */
  lemma LiveRequestLine(mount: string, password: string)
    requires mount == "live" && IsOctets(password)
    ensures var h, first := ElementHandshake(mount, password), "SOURCE /live ICE/1.0\r\n";
      |first| <= |h| && h[..|first|] == first
  {
    var first := "SOURCE /live ICE/1.0\r\n";
    var ls := [RequestText(mount), ContentTypeText(ContentType), AuthorizationText(Encode(Credentials(password))), ""];
    var h := Lines(ls);
    assert h == ls[0] + CRLF + Lines(ls[1..]);
    assert ls[0] + CRLF == first;
    assert h[..|first|] == first;
  }

  /**
   * For mount `live` and password `hackme` a server reads from the header
   * the content type `video/webm` and the token `c291cmNlOmhhY2ttZQ==`.
   */
  lemma LiveRequestRead(mount: string, password: string)
    requires mount == "live" && password == "hackme"
    ensures ReadRequest(ElementHandshake(mount, password)) == Some(Request("live", "video/webm", "c291cmNlOmhhY2ttZQ=="))
  {
    var token := Encode(Credentials(password));
    TokenIsPlain(password);
    HandshakeReadsBack(mount, ContentType, token);
    DefaultToken(password);
  }
}
