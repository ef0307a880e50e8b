# kradxsend: an Icecast source client, modelled in Dafny

`kradxsend` is a GStreamer sink element (`ext/kradx/gstkradx.c`) that streams
media buffers to an Icecast server. It connects on the first buffer it
renders. It then sends a SOURCE request, with the mount point, a content type
and HTTP Basic credentials for the user `source`, the password Base64-encoded
by its own encoder. Each buffer is then written whole, with repeated `send`
calls. A write that falls short posts an error, emits the
`connection-problem` signal with the value 666 and fails the render call.

The model has seven modules:

- `Options`: the `Option` type of readings that may fail.
- `CStrings`: C strings as Dafny strings of byte values, `strlen`, and the
  bytes a text puts on the wire.
- `Base64`: the RFC 4648 (section 4) encoding stated per 24-bit group
  (`Encode`), and an independent canonical decoder (`Decode`).
- `Base64Element`: the element's `base64_encode`, imperative over a
  heap-allocated `array<char>`, proved to produce `Encode` of the C string.
- `SendLoop`: the write loop of `gst_kradxsend_render`, proved against a
  reference function `Drain`, with the log of `send` calls it makes (`Calls`).
- `Icecast` and `KradxSend`: the request text with a server-side reader
  `ReadRequest` that the header is proved against, and the element itself as
  a class `Sink` with a subset of the C struct's fields, plus the field
  `events`, the messages and signals the element posts, and the ghost
  fields `wire` and `closed`.

The network is a parameter. A `Network` says what dialling the server gives
(`socket` failure, failed name resolution, refused `connect`, or a connected
descriptor) and what each `send` returns. `send` is a function `Reply` of the
call number and the bytes offered. Two ghost fields observe the outside
world: `wire` holds the bytes the server has accepted, in order, and `closed`
lists the descriptors that were closed. A third added field, `events`,
records what the element posts: the write-error message and the
`connection-problem` signal (`ext/kradx/gstkradx.c:455-458`).

In these respects the code behaves as follows, and the model does the same:

- The request always declares `content-type: video/webm`, whatever format caps
  negotiation stored (`ext/kradx/gstkradx.c:345`).
- The result of sending the request is ignored (`:356`). Only the bytes that
  `send` accepted reach the server, and nothing is retried.
- A failed `socket`, name resolution or `connect` ends the process
  (`exit(1)`). It is not reported to the caller. `gst_kradxsend_connect`
  otherwise always returns TRUE, so the `GST_FLOW_ERROR` return after it in
  render (`:424-425`) cannot happen. `Render` gives `ProcessExit` on those
  paths.
- Render never looks at `format`.
- A render that falls short (`:454-459`) returns without clearing
  `connected` or closing `sd`, so the next render writes to the same socket
  and does not reconnect.
- The mount point is inserted verbatim. A mount holding CR LF ends the
  request line early and puts the rest of the mount on a line of its own,
  which is header injection (`Icecast.InjectedRequestLine`). `ReadRequest`
  accepts exactly four lines, so it rejects such a block
  (`Icecast.MountInjection`). The password cannot do this, because it only
  appears Base64-encoded (`Icecast.TokenIsPlain`).

## Model

| member | source | states |
|---|---|---|
| CStrings.StrLen | ext/kradx/gstkradx.c:95 | `strlen` is the index of the first NUL: the character there is NUL and none before it is |
| CStrings.StrLenOfTerminated | ext/kradx/gstkradx.c:351-356 | a NUL-free text followed by its terminator has `strlen` equal to its length, so `strlen(headers)` is what `sprintf` wrote |
| CStrings.OctetsAt | ext/kradx/gstkradx.c:356 | each character of the header that is a byte value goes on the wire as that byte |
| Base64.EncodeGroup | ext/kradx/gstkradx.c:101-119 | every input group of one to three octets becomes exactly four symbols |
| Base64.Encode | ext/kradx/gstkradx.c:99-122 | an encoding of n octets has 4·⌈n/3⌉ symbols |
| Base64.SymbolValueOf | ext/kradx/gstkradx.c:90-93 | symbol and symbol value are inverse, and no symbol is `=`, a control character or a line break |
| Base64.TableAt | ext/kradx/gstkradx.c:90-93 | the element's 64-entry table holds, at each index, the RFC 4648 symbol for that value |
| Base64.AlphabetIsTable | ext/kradx/gstkradx.c:90-93 | a character is an alphabet symbol exactly when it is an entry of the table (both directions) |
| Base64.EncodeShape | ext/kradx/gstkradx.c:99-122 | every output symbol is from the table except the trailing `=`, and there are exactly (3 − n mod 3) mod 3 of them |
| Base64.DecodeEncode | ext/kradx/gstkradx.c:86-130 | round trip: a standard decoder recovers exactly the encoded octets |
| Base64.EncodeDecode | ext/kradx/gstkradx.c:86-130 | converse round trip: any text the canonical decoder accepts is the encoding of what it decodes to |
| Base64.EncodeAppend | ext/kradx/gstkradx.c:99-122 | the encoding of a concatenation, split at a group boundary, is the concatenation of the encodings |
| Base64.EncodeFirst | ext/kradx/gstkradx.c:99-122 | the encoding starts with the four symbols of the first group, then the encoding of the rest |
| Base64Element.BufferFits | ext/kradx/gstkradx.c:96 | `len * 4 / 3 + 4` characters always hold all the symbols and the terminating NUL |
| Base64Element.EncodeCString | ext/kradx/gstkradx.c:86-130 | `base64_encode` leaves in `dest` the RFC 4648 encoding of the C string at `src`, NUL-terminated |
| Base64Element.EncodeInto | ext/kradx/gstkradx.c:99-122 | after the `while (len > 0)` loop, the output so far is the encoding of the whole C string, within the buffer |
| Base64Element.EncodeChunk | ext/kradx/gstkradx.c:100-120 | the four table lookups of one iteration are the encoding of that chunk, including a last chunk of one or two bytes whose missing bits are read as zero |
| Base64Element.PutQuantum | ext/kradx/gstkradx.c:101-117 | the four `*out++` stores append the four symbols and leave the earlier output as it was |
| SendLoop.Drain | ext/kradx/gstkradx.c:443-452 | the loop's reference behaviour never moves backwards, never passes the buffer end and counts every call |
| SendLoop.Transmit | ext/kradx/gstkradx.c:443-452 | the loop stops after exactly the bytes and calls that `Drain` gives, from any starting call number, and the calls it makes, recorded as it goes, are exactly those of `Calls` |
| SendLoop.CallsDeliver | ext/kradx/gstkradx.c:443-452 | the bytes the calls hand to the server are the buffer from 0 to where the loop stops, in order, none twice and none skipped |
| SendLoop.CallsChained | ext/kradx/gstkradx.c:443-452 | each `send` is offered exactly the unsent suffix: the first gets the whole buffer, each later one what the one before left over |
| SendLoop.CallsReplies | ext/kradx/gstkradx.c:443-452 | the j-th logged call got the socket's answer for its number and the bytes it offered |
| SendLoop.CallsCounted | ext/kradx/gstkradx.c:443-452 | the log has one entry per `send` the loop makes |
| SendLoop.DrainCompletes | ext/kradx/gstkradx.c:443-452 | when every `send` that is offered bytes accepts at least one, the loop sends the whole buffer |
| SendLoop.DrainStopsOnFailure | ext/kradx/gstkradx.c:446-450 | a loop that ends short ends on a call that was offered the unsent rest and returned zero or less, with no retry after it |
| SendLoop.DrainCallBound | ext/kradx/gstkradx.c:443-452 | the loop makes at most one call per byte sent, plus one |
| Icecast.HandshakeText | ext/kradx/gstkradx.c:351-354 | the header block is the text of the four `sprintf` calls concatenated in order |
| Icecast.HandshakeReadsBack | ext/kradx/gstkradx.c:351-354 | a server reading the block gets back exactly the mount point, content type and token when none holds a line break, and the block ends with the empty line |
| Icecast.TokenIsPlain | ext/kradx/gstkradx.c:349-350 | the credential token has no CR, LF or NUL and only byte values, whatever bytes the password holds |
| Icecast.TokenDecodes | ext/kradx/gstkradx.c:349-350 | the token decodes to `source:<password>` |
| Icecast.ElementHandshakeReadsBack | ext/kradx/gstkradx.c:345-354 | a server reads the element's header as its mount point, `video/webm`, and a token that decodes to the credentials |
| Icecast.ElementHandshakeNulFree | ext/kradx/gstkradx.c:351-356 | the header holds no NUL for a C-string mount, so `strlen(headers)` covers all of it |
| Icecast.InjectedRequestLine | ext/kradx/gstkradx.c:351 | a mount point `a` CR LF `b` ends the request line after `SOURCE /a`, and `b ICE/1.0` becomes a header line of its own, followed by the element's other lines |
| Icecast.MountInjection | ext/kradx/gstkradx.c:351 | for every password, a mount point that contains CR LF anywhere is rejected by `ReadRequest`, which accepts exactly four lines: the mount is not escaped, and the extra line break gives the block a fifth line |
| Icecast.DefaultToken | ext/kradx/gstkradx.c:349-350 | the default password `hackme` gives the token `c291cmNlOmhhY2ttZQ==` |
| Icecast.LiveRequestLine | ext/kradx/gstkradx.c:351 | for mount `live` the header starts with exactly `SOURCE /live ICE/1.0\r\n` |
| Icecast.LiveRequestRead | ext/kradx/gstkradx.c:345-354 | for mount `live` and password `hackme` a server reads `video/webm` and the token `c291cmNlOmhhY2ttZQ==` |
| KradxSend.FormatOf | ext/kradx/gstkradx.c:551-558 | a format number exists exactly for `audio/mpeg`, `application/ogg` and `video/webm`, and it maps back to that media type |
| KradxSend.FormatsDistinct | ext/kradx/gstkradx.c:551-558 | the three format numbers are distinct: each maps back to itself through its media type |
| KradxSend.Sink.constructor | ext/kradx/gstkradx.c:240-245 | a new element has address `127.0.0.1`, port 8000, password `hackme` and an empty mount, is not connected, and has posted and sent nothing |
| KradxSend.Sink.Connect | ext/kradx/gstkradx.c:304-364 | a dial failure ends the process, closing the socket only on failed name resolution and leaving the buffers and the wire as they were. Otherwise the element is connected, its buffers hold the content type, credentials, token and the element's header with `headerPos` its length, and the server has received what the one `send` of the header accepted. Address, port, password, mount and format are unchanged |
| KradxSend.Sink.Dial | ext/kradx/gstkradx.c:311-342 | the process ends exactly when the dial does not connect; the descriptor is recorded, closed only for failed name resolution, and `connected` is set only by a successful `connect` |
| KradxSend.Sink.Greet | ext/kradx/gstkradx.c:345-361 | after the request is built and sent once, the element is connected, its invariant holds, and the server has received the accepted prefix of the header |
| KradxSend.Sink.Prepare | ext/kradx/gstkradx.c:345-354 | the content type, `source:<password>`, its Base64 token and the whole header block are in the buffers, terminated, and the header holds no NUL |
| KradxSend.Sink.Authenticate | ext/kradx/gstkradx.c:345-350 | the content-type buffer holds `video/webm`, the auth buffer `source:<password>`, and the token buffer its Base64 encoding |
| KradxSend.Sink.BuildHeaders | ext/kradx/gstkradx.c:351-354 | the header buffer holds the element's header, terminated, and `headerPos` is both its length and its `strlen` |
| KradxSend.Sink.WriteHeaders | ext/kradx/gstkradx.c:351-354 | `sprintf` at an offset keeps the text before it, writes the line and a terminator, and counts the line without the NUL |
| KradxSend.Sink.HeaderPieces | ext/kradx/gstkradx.c:351-354 | the lines written from the content-type and token buffers, as `%s` reads them, make up the element's header |
| KradxSend.Sink.SendHeaders | ext/kradx/gstkradx.c:356 | the server receives the part of the `strlen(headers)` bytes that the one `send` accepted; the result is otherwise ignored |
| KradxSend.Sink.HeaderPosIsStrLen | ext/kradx/gstkradx.c:351-356 | once connected, `headerPos` equals `strlen` of the header buffer |
| KradxSend.Sink.Render | ext/kradx/gstkradx.c:412-465 | connects only when not connected and ends connected exactly when it was already connected or the dial succeeded. On a dial failure it gives `ProcessExit` with buffers, wire and events unchanged. A connected element keeps its descriptor, closed list and all four buffers. A lazy connect leaves the descriptor and closed list as `gst_kradxsend_connect` does, and on success fills the content-type, credentials, token and header buffers. The server receives the part of the header that its one `send` accepted, if the header was just sent, then exactly the buffer prefix the loop got through. The result is `FlowOk` exactly when the whole buffer went out and `FlowError` exactly when it fell short, in which case a write error and `connection-problem` 666 are posted, in that order |
| KradxSend.Sink.Push | ext/kradx/gstkradx.c:443-463 | the bytes appended to the wire are those delivered by the calls that `Transmit` logged. These equal `Delivered(Calls(...))` and the buffer prefix where the loop stopped, and the outcome and posted events are as for render |
| KradxSend.Sink.Stop | ext/kradx/gstkradx.c:367-384 | always succeeds and leaves the element disconnected; closes the descriptor and clears it only if connected. A stop while disconnected changes nothing, so stopping twice is the same as stopping once |
| KradxSend.Sink.SetCaps | ext/kradx/gstkradx.c:538-562 | accepts exactly the three media types and stores the format number for it; refuses any other and leaves the format unchanged |

## Left out

- Sockets, name resolution and `connect` are not performed: their outcome is the `Dial` value, and descriptor numbers are given. `send` is the `Reply` function, with calls numbered within one render call.
- `exit(1)` after a failed dial is the `ProcessExit` outcome of render, not a process ending.
- The debug file mirror (`test_fd`, render lines 434-441) and its `close` in stop (lines 377-379): a side channel whose failures are only logged.
- `unlock`, `unlock_stop` and the `GstPoll` timer, the event handler, `finalize`, class and plugin registration, and property get and set (lines 467-536): GObject and GStreamer plumbing.
- The fixed sizes of the C struct's `char` arrays, and overflow when the mount or password is too long: strings here are unbounded. Bytes of those arrays beyond the terminator are not modelled.
- The store of `connect`'s result into `sink->sent` (line 335): it is never read.
- The struct fields `timer`, `serveraddr`, `hostp`, `sent`, `total_bytes_sent`, `file` and `test_fd` are not fields of `Sink`: `serveraddr` and `hostp` hold the address lookup, which the `Dial` value replaces; `sent` holds only the dead store of line 335, render counting in a local of its own; `total_bytes_sent` is not used in `gstkradx.c`; `timer`, `file` and `test_fd` belong to the parts left out above.
- Debug logging (`GST_DEBUG_OBJECT`, `GST_LOG_OBJECT`) and the text of the write-error message: only its two numbers are kept.
- The `int`/`guint` comparison of `sent` with the buffer size: buffers longer than `INT_MAX` are not modelled.
- `errno` after a failed `send`: any result of zero or less ends the loop the same way.
- `Octets` takes each character's low eight bits. The header holds only byte values when mount and password do.
- Zero-initialisation of the instance by GObject supplies the constructor's `connected`, `sd` and `format` values. `gst_kradxsend_init` does not set them.
- `ext/kradx/gstkradx.h` (struct layout and class macros) and `gst/rtp/gstrtpilbcpay.h` are not part of this model.
