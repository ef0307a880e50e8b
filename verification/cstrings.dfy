/**
 * Bytes and C strings as the element sees them.
 *
 * A C `char` buffer is modelled as a Dafny `string` whose characters are
 * byte values (below 256).  A buffer written by `sprintf` or `strcpy` holds
 * the bytes written, terminating NUL included; `StrLen` is `strlen`.
 */
module CStrings {

  /** An octet, as carried by a media buffer or a socket. */
  type Byte = b: int | 0 <= b < 256

  const NUL: char := '\0'

  /** Every character is a byte value. */
  predicate IsOctets(s: string) {
    forall i :: 0 <= i < |s| ==> s[i] as int < 256
  }

  /** The contents of a C string: byte values, none of them NUL. */
  predicate IsCString(s: string) {
    forall i :: 0 <= i < |s| ==> 0 < s[i] as int < 256
  }

  /** A C string holds no NUL. */
  lemma CStringHasNoNul(s: string)
    requires IsCString(s)
    ensures NUL !in s && IsOctets(s)
  {
    assert forall i :: 0 <= i < |s| ==> s[i] != NUL;
  }

  /** `strlen`: the index of the first NUL of the memory that a `char *` points at. */
  function StrLen(mem: string): (n: nat)
    requires NUL in mem
    ensures n < |mem| && mem[n] == NUL
    ensures NUL !in mem[..n]
  {
    if mem[0] == NUL then 0
    else
      assert NUL in mem[1..] by { var j :| 0 <= j < |mem| && mem[j] == NUL; assert mem[1..][j - 1] == NUL; }
      1 + StrLen(mem[1..])
  }

  /** The text a `char *` designates, as `%s` and `strlen` read it: the characters before the first NUL. */
  function Text(mem: string): string
    requires NUL in mem
  {
    mem[..StrLen(mem)]
  }

  /** The bytes of a text as they travel on the wire: each character's low eight bits. */
  function Octets(s: string): (r: seq<Byte>)
    ensures |r| == |s|
  {
    if s == [] then [] else [s[0] as int % 256] + Octets(s[1..])
  }

  /** Each character below 256 becomes the byte of the same value. */
  lemma {:induction false} OctetsAt(s: string, i: nat)
    requires i < |s| && s[i] as int < 256
    ensures Octets(s)[i] == s[i] as int
    decreases i
  {
    if i > 0 {
      OctetsAt(s[1..], i - 1);
    }
  }

  /** A NUL-free text followed by its terminator is read back by `strlen` as that text. */
  lemma {:induction false} StrLenOfTerminated(s: string)
    requires NUL !in s
    ensures NUL in s + [NUL] && StrLen(s + [NUL]) == |s|
  {
    if s != [] {
      assert (s + [NUL])[1..] == s[1..] + [NUL];
      StrLenOfTerminated(s[1..]);
    }
  }
}
