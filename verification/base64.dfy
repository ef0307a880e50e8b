/**
 * The credential encoder: Base64 as in section 4 of RFC 4648, standard
 * alphabet, `=` padding.
 *
 * `Encode` states the encoding the way the RFC does (24-bit input groups read
 * as four 6-bit groups), and `Decode` is an independent canonical decoder.
 */
module Base64 {
  import opened Options
  import opened CStrings

  const Upper: string := "ABCDEFGHIJKLMNOPQRSTUVWXYZ"
  const Lower: string := "abcdefghijklmnopqrstuvwxyz"
  const Digits: string := "0123456789"

  /** The element's 64-entry symbol table, indexed by 6-bit value. */
  const Base64Table: string := Upper + Lower + Digits + "+/"

  const PadChar: char := '='

  /** The symbol for a 6-bit value, as the alphabet of section 4 of RFC 4648 assigns it. */
  function Symbol(x: int): (c: char)
    requires 0 <= x < 64
  {
    if x < 26 then ('A' as int + x) as char
    else if x < 52 then ('a' as int + x - 26) as char
    else if x < 62 then ('0' as int + x - 52) as char
    else if x == 62 then '+'
    else '/'
  }

  /** The value of an alphabet symbol, or -1 for any other character. */
  function SymbolValue(c: char): (v: int)
    ensures -1 <= v < 64
  {
    if 'A' <= c <= 'Z' then c as int - 'A' as int
    else if 'a' <= c <= 'z' then c as int - 'a' as int + 26
    else if '0' <= c <= '9' then c as int - '0' as int + 52
    else if c == '+' then 62
    else if c == '/' then 63
    else -1
  }

  /** `Symbol` and `SymbolValue` are inverse; no symbol is the pad, a space or a control character. */
  lemma SymbolValueOf(x: int)
    requires 0 <= x < 64
    ensures SymbolValue(Symbol(x)) == x
    ensures Symbol(x) != PadChar && 32 < Symbol(x) as int < 127
  {}

  lemma SymbolOfValue(c: char)
    requires SymbolValue(c) >= 0
    ensures Symbol(SymbolValue(c)) == c
  {}

  lemma UpperAt(k: int)
    requires 0 <= k < 26
    ensures Upper[k] as int == 'A' as int + k
  {}

  lemma LowerAt(k: int)
    requires 0 <= k < 26
    ensures Lower[k] as int == 'a' as int + k
  {}

  lemma DigitAt(k: int)
    requires 0 <= k < 10
    ensures Digits[k] as int == '0' as int + k
  {}

  /** The element's table is the RFC 4648 alphabet, entry by entry. */
  lemma TableAt(k: int)
    requires 0 <= k < 64
    ensures |Base64Table| == 64 && Base64Table[k] == Symbol(k)
  {
    if k < 26 {
      UpperAt(k); assert Base64Table[k] == Upper[k];
    } else if k < 52 {
      LowerAt(k - 26); assert Base64Table[k] == Lower[k - 26];
    } else if k < 62 {
      DigitAt(k - 52); assert Base64Table[k] == Digits[k - 52];
    }
  }

  /** Number of `=` symbols closing the encoding of `n` octets. */
  function PadCount(n: nat): nat {
    (3 - n % 3) % 3
  }

  /** Number of symbols in the encoding of `n` octets: four per started group. */
  function EncodedLength(n: nat): nat {
    4 * ((n + 2) / 3)
  }

  /** Encodes one input group of one to three octets as four symbols. */
  function EncodeGroup(g: string): (q: string)
    requires 1 <= |g| <= 3 && IsOctets(g)
    ensures |q| == 4
  {
    var b0 := g[0] as int;
    var b1 := if |g| > 1 then g[1] as int else 0;
    var b2 := if |g| > 2 then g[2] as int else 0;
    var v := b0 * 65536 + b1 * 256 + b2;
    [Symbol(v / 262144), Symbol(v / 4096 % 64)]
    + (if |g| > 1 then [Symbol(v / 64 % 64)] else [PadChar])
    + (if |g| > 2 then [Symbol(v % 64)] else [PadChar])
  }

  /** The Base64 encoding of an octet string. */
  function Encode(s: string): (r: string)
    requires IsOctets(s)
    ensures |r| == EncodedLength(|s|)
    decreases |s|
  {
    if s == [] then []
    else
      var k := if |s| < 3 then |s| else 3;
      EncodeGroup(s[..k]) + Encode(s[k..])
  }

  /**
   * Decodes one quantum of four symbols; padding is accepted only in the
   * last quantum, and bits discarded by the padding must be zero (the
   * canonical encoding of section 3.5 of RFC 4648).
   */
  function DecodeGroup(q: string, last: bool): (r: Option<string>)
    requires |q| == 4
  {
    var v0, v1, v2, v3 := SymbolValue(q[0]), SymbolValue(q[1]), SymbolValue(q[2]), SymbolValue(q[3]);
    if v0 < 0 || v1 < 0 then None
    else if last && q[2] == PadChar && q[3] == PadChar then
      if v1 % 16 != 0 then None
      else Some([(v0 * 4 + v1 / 16) as char])
    else if v2 < 0 then None
    else if last && q[3] == PadChar then
      if v2 % 4 != 0 then None
      else Some([(v0 * 4 + v1 / 16) as char, ((v1 % 16) * 16 + v2 / 4) as char])
    else if v3 < 0 then None
    else Some([(v0 * 4 + v1 / 16) as char, ((v1 % 16) * 16 + v2 / 4) as char, ((v2 % 4) * 64 + v3) as char])
  }

  /** A Base64 decoder for section 4 of RFC 4648; `None` for a malformed text. */
  function Decode(t: string): (r: Option<string>)
    decreases |t|
  {
    if t == [] then Some([])
    else if |t| < 4 then None
    else
      match DecodeGroup(t[..4], |t| == 4)
      case None => None
      case Some(g) =>
        match Decode(t[4..])
        case None => None
        case Some(rest) => Some(g + rest)
  }

  // ----- Arithmetic of one group -----

  /** Euclidean division by a positive divisor, stated once. */
  lemma DivMod(v: int, d: int, q: int, r: int)
    requires d > 0 && 0 <= r < d && v == q * d + r
    ensures v / d == q && v % d == r
  {
    var q', r' := v / d, v % d;
    assert (q - q') * d == r' - r;
    if q > q' { MulAtLeast(q - q', d); }
    if q' > q { MulAtLeast(q' - q, d); }
  }

  lemma MulAtLeast(x: int, d: int)
    requires x >= 1 && d > 0
    ensures x * d >= d
  {
    if x > 1 {
      MulAtLeast(x - 1, d);
      assert x * d == (x - 1) * d + d;
    }
  }

  /** The 6-bit groups of a 24-bit group are the masks and shifts the element computes. */
  lemma GroupSplit(b0: int, b1: int, b2: int)
    requires 0 <= b0 < 256 && 0 <= b1 < 256 && 0 <= b2 < 256
    ensures var v := b0 * 65536 + b1 * 256 + b2;
      v / 262144 == b0 / 4 &&
      v / 4096 % 64 == (b0 % 4) * 16 + b1 / 16 &&
      v / 64 % 64 == (b1 % 16) * 4 + b2 / 64 &&
      v % 64 == b2 % 64
  {
    var v := b0 * 65536 + b1 * 256 + b2;
    var q0, r0 := b0 / 4, b0 % 4;
    var q1, r1 := b1 / 16, b1 % 16;
    var q2, r2 := b2 / 64, b2 % 64;
    DivMod(v, 262144, q0, r0 * 65536 + b1 * 256 + b2);
    DivMod(v, 4096, b0 * 16 + q1, r1 * 256 + b2);
    DivMod(b0 * 16 + q1, 64, q0, r0 * 16 + q1);
    DivMod(v, 64, b0 * 1024 + b1 * 4 + q2, r2);
    DivMod(b0 * 1024 + b1 * 4 + q2, 64, b0 * 16 + q1, r1 * 4 + q2);
  }

  /** The four symbols of a group, one by one. */
  lemma EncodeGroupSymbols(g: string)
    requires 1 <= |g| <= 3 && IsOctets(g)
    ensures var b0 := g[0] as int;
      var b1 := if |g| > 1 then g[1] as int else 0;
      var b2 := if |g| > 2 then g[2] as int else 0;
      var q := EncodeGroup(g);
      q[0] == Symbol(b0 / 4) &&
      q[1] == Symbol((b0 % 4) * 16 + b1 / 16) &&
      q[2] == (if |g| > 1 then Symbol((b1 % 16) * 4 + b2 / 64) else PadChar) &&
      q[3] == (if |g| > 2 then Symbol(b2 % 64) else PadChar)
  {
    var b0 := g[0] as int;
    var b1 := if |g| > 1 then g[1] as int else 0;
    var b2 := if |g| > 2 then g[2] as int else 0;
    GroupSplit(b0, b1, b2);
  }

  /** Decoding the encoding of a group gives the group back. */
  lemma DecodeEncodeGroup(g: string, last: bool)
    requires 1 <= |g| <= 3 && IsOctets(g)
    requires |g| < 3 ==> last
    ensures DecodeGroup(EncodeGroup(g), last) == Some(g)
  {
    var b0 := g[0] as int;
    var b1 := if |g| > 1 then g[1] as int else 0;
    var b2 := if |g| > 2 then g[2] as int else 0;
    EncodeGroupSymbols(g);
    var q := EncodeGroup(g);
    DecodeSymbols(b0, b1, b2, q, |g|, last);
    if |g| == 1 {
      assert [b0 as char] == g;
    } else if |g| == 2 {
      assert [b0 as char, b1 as char] == g;
    } else {
      assert [b0 as char, b1 as char, b2 as char] == g;
    }
  }

  /** `DecodeGroup` inverts the element's per-symbol formulas. */
  lemma DecodeSymbols(b0: int, b1: int, b2: int, q: string, len: int, last: bool)
    requires 0 <= b0 < 256 && 0 <= b1 < 256 && 0 <= b2 < 256 && 1 <= len <= 3
    requires len < 3 ==> last
    requires len < 3 ==> b2 == 0
    requires len < 2 ==> b1 == 0
    requires |q| == 4
    requires q[0] == Symbol(b0 / 4) && q[1] == Symbol((b0 % 4) * 16 + b1 / 16)
    requires q[2] == (if len > 1 then Symbol((b1 % 16) * 4 + b2 / 64) else PadChar)
    requires q[3] == (if len > 2 then Symbol(b2 % 64) else PadChar)
    ensures DecodeGroup(q, last) ==
      Some(if len == 1 then [b0 as char] else if len == 2 then [b0 as char, b1 as char]
           else [b0 as char, b1 as char, b2 as char])
  {
    var s0, s1, s2, s3 := b0 / 4, (b0 % 4) * 16 + b1 / 16, (b1 % 16) * 4 + b2 / 64, b2 % 64;
    SymbolValueOf(s0);
    SymbolValueOf(s1);
    DivMod(s1, 16, b0 % 4, b1 / 16);
    assert s0 * 4 + s1 / 16 == b0;
    if len > 1 {
      SymbolValueOf(s2);
      DivMod(s2, 4, b1 % 16, b2 / 64);
      assert (s1 % 16) * 16 + s2 / 4 == b1;
    }
    if len > 2 {
      SymbolValueOf(s3);
      assert (s2 % 4) * 64 + s3 == b2;
    }
  }

  /** Two four-character strings that agree at every position are equal. */
  lemma FourEqual(w: string, q: string)
    requires |w| == 4 && |q| == 4
    requires w[0] == q[0] && w[1] == q[1] && w[2] == q[2] && w[3] == q[3]
    ensures w == q
  {}

  /** A quantum that decodes is the encoding of what it decodes to. */
  lemma EncodeDecodeGroup(q: string, last: bool)
    requires |q| == 4 && DecodeGroup(q, last).Some?
    ensures var g := DecodeGroup(q, last).value;
      1 <= |g| <= 3 && (|g| < 3 ==> last) && IsOctets(g) && EncodeGroup(g) == q
  {
    if last && q[2] == PadChar && q[3] == PadChar {
      EncodeBackOne(q);
    } else if last && q[3] == PadChar {
      EncodeBackTwo(q);
    } else {
      EncodeBackThree(q);
    }
  }

  lemma EncodeBackOne(q: string)
    requires |q| == 4 && SymbolValue(q[0]) >= 0 && SymbolValue(q[1]) >= 0 && SymbolValue(q[1]) % 16 == 0
    requires q[2] == PadChar && q[3] == PadChar
    ensures var g := [(SymbolValue(q[0]) * 4 + SymbolValue(q[1]) / 16) as char];
      IsOctets(g) && EncodeGroup(g) == q
  {
    var v0, v1 := SymbolValue(q[0]), SymbolValue(q[1]);
    SymbolOfValue(q[0]);
    SymbolOfValue(q[1]);
    var b0 := v0 * 4 + v1 / 16;
    DivMod(b0, 4, v0, v1 / 16);
    var g := [b0 as char];
    EncodeGroupSymbols(g);
    FourEqual(EncodeGroup(g), q);
  }

  lemma EncodeBackTwo(q: string)
    requires |q| == 4 && SymbolValue(q[0]) >= 0 && SymbolValue(q[1]) >= 0 && SymbolValue(q[2]) >= 0
    requires SymbolValue(q[2]) % 4 == 0 && q[3] == PadChar
    ensures var v0, v1, v2 := SymbolValue(q[0]), SymbolValue(q[1]), SymbolValue(q[2]);
      var g := [(v0 * 4 + v1 / 16) as char, ((v1 % 16) * 16 + v2 / 4) as char];
      IsOctets(g) && EncodeGroup(g) == q
  {
    var v0, v1, v2 := SymbolValue(q[0]), SymbolValue(q[1]), SymbolValue(q[2]);
    SymbolOfValue(q[0]);
    SymbolOfValue(q[1]);
    SymbolOfValue(q[2]);
    var b0, b1 := v0 * 4 + v1 / 16, (v1 % 16) * 16 + v2 / 4;
    DivMod(b0, 4, v0, v1 / 16);
    DivMod(b1, 16, v1 % 16, v2 / 4);
    var g := [b0 as char, b1 as char];
    EncodeGroupSymbols(g);
    FourEqual(EncodeGroup(g), q);
  }

  lemma EncodeBackThree(q: string)
    requires |q| == 4 && SymbolValue(q[0]) >= 0 && SymbolValue(q[1]) >= 0
    requires SymbolValue(q[2]) >= 0 && SymbolValue(q[3]) >= 0
    ensures var v0, v1, v2, v3 := SymbolValue(q[0]), SymbolValue(q[1]), SymbolValue(q[2]), SymbolValue(q[3]);
      var g := [(v0 * 4 + v1 / 16) as char, ((v1 % 16) * 16 + v2 / 4) as char, ((v2 % 4) * 64 + v3) as char];
      IsOctets(g) && EncodeGroup(g) == q
  {
    var v0, v1, v2, v3 := SymbolValue(q[0]), SymbolValue(q[1]), SymbolValue(q[2]), SymbolValue(q[3]);
    SymbolOfValue(q[0]);
    SymbolOfValue(q[1]);
    SymbolOfValue(q[2]);
    SymbolOfValue(q[3]);
    var b0, b1, b2 := v0 * 4 + v1 / 16, (v1 % 16) * 16 + v2 / 4, (v2 % 4) * 64 + v3;
    DivMod(b0, 4, v0, v1 / 16);
    DivMod(b1, 16, v1 % 16, v2 / 4);
    DivMod(b2, 64, v2 % 4, v3);
    var g := [b0 as char, b1 as char, b2 as char];
    EncodeGroupSymbols(g);
    FourEqual(EncodeGroup(g), q);
  }

  // ----- Properties of the encoding -----

  /** Round trip: a standard decoder recovers the encoded octets. */
  lemma {:induction false} DecodeEncode(s: string)
    requires IsOctets(s)
    ensures Decode(Encode(s)) == Some(s)
    decreases |s|
  {
    if s != [] {
      var k := if |s| < 3 then |s| else 3;
      var q, rest := EncodeGroup(s[..k]), Encode(s[k..]);
      assert Encode(s) == q + rest;
      assert (q + rest)[..4] == q && (q + rest)[4..] == rest;
      DecodeEncodeGroup(s[..k], |q + rest| == 4);
      DecodeEncode(s[k..]);
      assert s[..k] + s[k..] == s;
    }
  }

  /** Converse round trip: a text the decoder accepts is the encoding of its result. */
  lemma {:induction false} EncodeDecode(t: string)
    requires Decode(t).Some?
    ensures IsOctets(Decode(t).value) && Encode(Decode(t).value) == t
    decreases |t|
  {
    if t != [] {
      var g := DecodeGroup(t[..4], |t| == 4).value;
      var rest := Decode(t[4..]).value;
      assert Decode(t).value == g + rest;
      EncodeDecodeGroup(t[..4], |t| == 4);
      EncodeDecode(t[4..]);
      EncodeFirst(g, rest);
      assert t == t[..4] + t[4..];
    }
  }

  /** The first group of a text, followed by the rest at a group boundary or by nothing. */
  lemma EncodeFirst(g: string, rest: string)
    requires 1 <= |g| <= 3 && IsOctets(g) && IsOctets(rest) && (|g| < 3 ==> rest == [])
    ensures IsOctets(g + rest) && Encode(g + rest) == EncodeGroup(g) + Encode(rest)
  {
    EncodeOneGroup(g);
    if |g| == 3 {
      EncodeAppend(g, rest);
    } else {
      assert g + rest == g;
    }
  }

  /** Alphabet symbols, then exactly `pad` trailing `=`. */
  predicate WellPadded(r: string, pad: nat) {
    forall i :: 0 <= i < |r| ==>
      (r[i] == PadChar <==> i >= |r| - pad) &&
      (r[i] != PadChar ==> SymbolValue(r[i]) >= 0)
  }

  lemma PaddedConcat(q: string, rest: string, pad: nat)
    requires WellPadded(q, 0) && WellPadded(rest, pad) && pad <= |rest|
    ensures WellPadded(q + rest, pad)
  {
    var r := q + rest;
    forall i | 0 <= i < |r|
      ensures (r[i] == PadChar <==> i >= |r| - pad) && (r[i] != PadChar ==> SymbolValue(r[i]) >= 0)
    {
      if i >= |q| {
        assert r[i] == rest[i - |q|];
      } else {
        assert r[i] == q[i];
      }
    }
  }

  /** Every symbol is from the table or `=`, and the `=` are exactly the last `PadCount(|s|)`. */
  lemma {:induction false} EncodeShape(s: string)
    requires IsOctets(s)
    ensures WellPadded(Encode(s), PadCount(|s|))
    decreases |s|
  {
    if |s| >= 3 {
      EncodeShape(s[3..]);
      ShapeStep(s);
    } else if s != [] {
      ShapeLast(s);
    }
  }

  lemma ShapeStep(s: string)
    requires IsOctets(s) && |s| >= 3
    requires WellPadded(Encode(s[3..]), PadCount(|s| - 3))
    ensures WellPadded(Encode(s), PadCount(|s|))
  {
    var q, rest := EncodeGroup(s[..3]), Encode(s[3..]);
    EncodeUnfold(s);
    GroupShape(s[..3]);
    PadCountStep(|s|);
    PaddedConcat(q, rest, PadCount(|s|));
  }

  lemma PadCountStep(n: nat)
    requires n >= 3
    ensures PadCount(n) == PadCount(n - 3) <= EncodedLength(n - 3)
  {
    DivMod(n, 3, n / 3, n % 3);
    DivMod(n - 3, 3, n / 3 - 1, n % 3);
  }

  lemma EncodeUnfold(s: string)
    requires IsOctets(s) && |s| >= 3
    ensures Encode(s) == EncodeGroup(s[..3]) + Encode(s[3..])
  {}

  lemma ShapeLast(s: string)
    requires IsOctets(s) && 1 <= |s| < 3
    ensures WellPadded(Encode(s), PadCount(|s|))
  {
    assert PadCount(|s|) == 3 - |s|;
    EncodeOneGroup(s);
    GroupShape(s);
  }

  /** The shape of one group: `3 - |g|` pads at the end, table symbols before them. */
  lemma GroupShape(g: string)
    requires 1 <= |g| <= 3 && IsOctets(g)
    ensures WellPadded(EncodeGroup(g), 3 - |g|)
  {
    var b0 := g[0] as int;
    var b1 := if |g| > 1 then g[1] as int else 0;
    var b2 := if |g| > 2 then g[2] as int else 0;
    EncodeGroupSymbols(g);
    SymbolValueOf(b0 / 4);
    SymbolValueOf((b0 % 4) * 16 + b1 / 16);
    SymbolValueOf((b1 % 16) * 4 + b2 / 64);
    SymbolValueOf(b2 % 64);
  }

  /** The alphabet symbols are exactly the entries of the element's table. */
  lemma AlphabetIsTable(c: char)
    ensures SymbolValue(c) >= 0 <==> c in Base64Table
  {
    if SymbolValue(c) >= 0 {
      SymbolOfValue(c);
      TableAt(SymbolValue(c));
    }
    if c in Base64Table {
      var k :| 0 <= k < |Base64Table| && Base64Table[k] == c;
      TableAt(k);
      SymbolValueOf(k);
    }
  }

  /** Encoding distributes over concatenation at a group boundary. */
  lemma {:induction false} EncodeAppend(a: string, b: string)
    requires IsOctets(a) && IsOctets(b) && |a| % 3 == 0
    ensures IsOctets(a + b) && Encode(a + b) == Encode(a) + Encode(b)
    decreases |a|
  {
    if a != [] {
      assert (a + b)[..3] == a[..3];
      assert (a + b)[3..] == a[3..] + b;
      EncodeAppend(a[3..], b);
    } else {
      assert a + b == b;
    }
  }

  lemma EncodeOneGroup(g: string)
    requires 1 <= |g| <= 3 && IsOctets(g)
    ensures Encode(g) == EncodeGroup(g)
  {
    var k := if |g| < 3 then |g| else 3;
    assert k == |g|;
    assert g[..k] == g;
    assert g[k..] == [];
    assert Encode(g[k..]) == [];
    assert Encode(g) == EncodeGroup(g[..k]) + Encode(g[k..]);
  }
}
