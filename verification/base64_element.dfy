/**
 * `base64_encode` of the element: the loop that encodes the C string holding
 * the `source:` credentials, proved to produce the RFC 4648 encoding
 * `Base64.Encode` of the string's contents.
 */
module Base64Element {
  import opened CStrings
  import opened Base64

  /** `len * 4 / 3 + 4` bytes always hold the symbols and the terminating NUL. */
  lemma BufferFits(n: nat)
    ensures EncodedLength(n) + 1 <= n * 4 / 3 + 4
  {
    var q, r := n / 3, n % 3;
    assert n * 4 == q * 12 + r * 4;
    assert n * 4 / 3 == q * 4 + r * 4 / 3;
    assert (n + 2) / 3 == q + (r + 2) / 3;
  }

  /**
   * `base64_encode(dest, src)`: measures the C string at `src`, allocates
   * `len * 4 / 3 + 4` characters, fills them with the symbols, NUL-terminates
   * them and copies the result into `dest`.
   */
  method EncodeCString(src: string) returns (dest: string)
    requires NUL in src && IsOctets(src)
    ensures dest == Encode(src[..StrLen(src)]) + [NUL]
  {
    var len := StrLen(src);
    var out := new char[len * 4 / 3 + 4];
    BufferFits(len);
    var o := EncodeInto(src, len, out);
    out[o] := NUL;
    dest := out[..o + 1];
  }

  /**
   * The element's `while (len > 0)` loop: walks `src` three bytes at a time
   * and writes four symbols per chunk.  For a last chunk of one byte the
   * second symbol reads the terminator as its low bits, which is the zero
   * padding of the RFC.
   */
  method EncodeInto(src: string, n: nat, out: array<char>) returns (o: nat)
    requires NUL in src && IsOctets(src) && n == StrLen(src)
    requires EncodedLength(n) < out.Length
    modifies out
    ensures o < out.Length && out[..o] == Encode(src[..n])
  {
    var len, i := n, 0;
    o := 0;
    while len > 0
      invariant 0 <= i <= n && len == n - i
      invariant i % 3 == 0 || len == 0
      invariant o + EncodedLength(len) == EncodedLength(n)
      invariant IsOctets(src[..i])
      invariant out[..o] == Encode(src[..i])
    {
      var chunk := if len > 3 then 3 else len;
      ChunkFits(i, len, chunk);
      var c0, c1, c2, c3 := EncodeChunk(src, i, chunk);
      ghost var done := out[..o];
      PutQuantum(out, o, c0, c1, c2, c3);
      EncodeExtend(src, i, chunk, done, out[..o + 4], [c0, c1, c2, c3]);
      o, i, len := o + 4, i + chunk, len - chunk;
    }
  }

  /** The four `*out++ = ...` stores of one iteration. */
  method PutQuantum(out: array<char>, o: nat, c0: char, c1: char, c2: char, c3: char)
    requires o + 4 <= out.Length
    modifies out
    ensures out[..o + 4] == old(out[..o]) + [c0, c1, c2, c3]
  {
    out[o], out[o + 1], out[o + 2], out[o + 3] := c0, c1, c2, c3;
  }

  /**
   * The four table lookups of one loop iteration: the chunk of `chunk` bytes
   * at `src[i..]`, where a chunk shorter than three ends at the terminator.
   */
  method EncodeChunk(src: string, i: nat, chunk: nat) returns (c0: char, c1: char, c2: char, c3: char)
    requires NUL in src && IsOctets(src)
    requires 1 <= chunk <= 3 && i + chunk <= StrLen(src)
    requires chunk < 3 ==> i + chunk == StrLen(src)
    ensures IsOctets(src[i..i + chunk]) && [c0, c1, c2, c3] == EncodeGroup(src[i..i + chunk])
  {
    var b0, b1 := src[i] as int, src[i + 1] as int;
    TableAt(b0 / 4);
    TableAt((b0 % 4) * 16 + b1 / 16);
    c0, c1 := Base64Table[b0 / 4], Base64Table[(b0 % 4) * 16 + b1 / 16];
    if chunk == 3 {
      var b2 := src[i + 2] as int;
      TableAt((b1 % 16) * 4 + b2 / 64);
      TableAt(b2 % 64);
      c2, c3 := Base64Table[(b1 % 16) * 4 + b2 / 64], Base64Table[b2 % 64];
    } else if chunk == 2 {
      TableAt((b1 % 16) * 4);
      c2, c3 := Base64Table[(b1 % 16) * 4], PadChar;
    } else {
      c2, c3 := PadChar, PadChar;
    }
    ChunkSymbols(src, i, chunk, [c0, c1, c2, c3]);
  }

  /**
   * Encoding one more group at a group boundary appends its four symbols:
   * if `done` encodes the first `i` bytes, `done + w` encodes `i + chunk`.
   */
  lemma EncodeExtend(s: string, i: nat, chunk: nat, done: string, now: string, w: string)
    requires IsOctets(s) && i % 3 == 0 && 1 <= chunk <= 3 && i + chunk <= |s|
    requires IsOctets(s[..i]) && IsOctets(s[i..i + chunk])
    requires done == Encode(s[..i]) && w == EncodeGroup(s[i..i + chunk]) && now == done + w
    ensures IsOctets(s[..i + chunk]) && now == Encode(s[..i + chunk])
  {
    assert s[..i + chunk] == s[..i] + s[i..i + chunk];
    EncodeAppend(s[..i], s[i..i + chunk]);
    EncodeOneGroup(s[i..i + chunk]);
  }

  lemma ChunkFits(i: nat, len: nat, chunk: nat)
    requires i % 3 == 0 && len > 0 && chunk == (if len > 3 then 3 else len)
    ensures EncodedLength(i) + 4 == EncodedLength(i + chunk)
    ensures EncodedLength(len) == 4 + EncodedLength(len - chunk)
    ensures (i + chunk) % 3 == 0 || len - chunk == 0
  {
    DivMod(i, 3, i / 3, 0);
    DivMod(i + chunk + 2, 3, i / 3 + 1, chunk - 1);
    if len > 3 {
      DivMod(len + 2, 3, (len - 1) / 3 + 1, (len - 1) % 3);
    }
  }

  /**
   * The four characters the element writes for a chunk of the C string at
   * `src[i..]` are the encoding of that chunk; for a one-byte chunk the byte
   * read past it is the terminator.
   */
  lemma ChunkSymbols(src: string, i: nat, chunk: nat, w: string)
    requires NUL in src && IsOctets(src)
    requires 1 <= chunk <= 3 && i + chunk <= StrLen(src)
    requires chunk < 3 ==> i + chunk == StrLen(src)
    requires |w| == 4
    requires var b0, b1 := src[i] as int, src[i + 1] as int;
      w[0] == Symbol(b0 / 4) && w[1] == Symbol((b0 % 4) * 16 + b1 / 16) &&
      w[2] == (if chunk == 3 then Symbol((b1 % 16) * 4 + src[i + 2] as int / 64)
               else if chunk == 2 then Symbol((b1 % 16) * 4) else PadChar) &&
      w[3] == (if chunk == 3 then Symbol(src[i + 2] as int % 64) else PadChar)
    ensures IsOctets(src[i..i + chunk]) && w == EncodeGroup(src[i..i + chunk])
  {
    var g := src[i..i + chunk];
    var b0, b1 := src[i] as int, src[i + 1] as int;
    var c2 := if chunk > 2 then src[i + 2] as int else 0;
    assert chunk == 1 ==> b1 == 0;
    assert g[0] as int == b0 && (chunk > 1 ==> g[1] as int == b1) && (chunk > 2 ==> g[2] as int == c2);
    EncodeGroupSymbols(g);
    var q := EncodeGroup(g);
    assert w[0] == q[0];
    assert w[1] == q[1];
    assert w[2] == q[2];
    assert w[3] == q[3];
    FourEqual(w, q);
  }
}
