/** Strings and their UTF-8 encoding (section 3 of RFC 3629), as far as byte lengths and byte slices need it. */
module Utf8 {
  type Byte = b: nat | b < 256

  /** `char::len_utf8` */
  function LenUtf8(c: char): nat {
    var n := c as int;
    if n < 0x80 then 1 else if n < 0x800 then 2 else if n < 0x1_0000 then 3 else 4
  }

  predicate IsContinuation(b: Byte) {
    0x80 <= b < 0xC0
  }

  /** The encoding of one character: a leading byte and continuation bytes of six bits each. */
  function Encode(c: char): (bytes: seq<Byte>)
    ensures |bytes| == LenUtf8(c)
    ensures !IsContinuation(bytes[0])
    ensures forall i :: 0 < i < |bytes| ==> IsContinuation(bytes[i])
  {
    var n := c as int;
    if n < 0x80 then [n]
    else if n < 0x800 then [0xC0 + n / 64, 0x80 + n % 64]
    else if n < 0x1_0000 then [0xE0 + n / 4096, 0x80 + n / 64 % 64, 0x80 + n % 64]
    else [0xF0 + n / 262144, 0x80 + n / 4096 % 64, 0x80 + n / 64 % 64, 0x80 + n % 64]
  }

  function LowBits(b: Byte, n: nat): nat
    requires n > 0
  {
    b as int % n
  }

  /** The character number of an encoding, by the low bits of the leading byte and six bits of each continuation
      byte. */
  function Decode(bytes: seq<Byte>): nat
    requires 0 < |bytes| <= 4
  {
    var lead := bytes[0];
    if |bytes| == 1 then LowBits(lead, 128)
    else
      var second := LowBits(bytes[1], 64);
      if |bytes| == 2 then LowBits(lead, 32) * 64 + second
      else
        var third := LowBits(bytes[2], 64);
        if |bytes| == 3 then (LowBits(lead, 16) * 64 + second) * 64 + third
        else ((LowBits(lead, 8) * 64 + second) * 64 + third) * 64 + LowBits(bytes[3], 64)
  }

  /** Decoding an encoding gives the character back, and the leading byte tells how long it is. */
  lemma {:induction false} DecodeEncode(c: char)
    ensures Decode(Encode(c)) == c as int
    ensures var lead := Encode(c)[0];
            |Encode(c)| == if lead < 0x80 then 1 else if lead < 0xE0 then 2 else if lead < 0xF0 then 3 else 4
  {
    var n, bytes := c as int, Encode(c);
    SixBits(n);
    if |bytes| > 1 {
      assert LowBits(bytes[|bytes| - 1], 64) == n % 64;
    }
    if |bytes| == 2 {
      assert LowBits(bytes[0], 32) == n / 64;
    } else if |bytes| == 3 {
      assert LowBits(bytes[0], 16) == n / 4096 && LowBits(bytes[1], 64) == n / 64 % 64;
    } else if |bytes| == 4 {
      assert LowBits(bytes[0], 8) == n / 262144;
      assert LowBits(bytes[1], 64) == n / 4096 % 64 && LowBits(bytes[2], 64) == n / 64 % 64;
    }
  }

  lemma {:induction false} SixBits(n: nat)
    ensures n / 64 * 64 + n % 64 == n
    ensures n / 4096 * 64 + n / 64 % 64 == n / 64
    ensures n / 262144 * 64 + n / 4096 % 64 == n / 4096
  {
  }

  function Bytes(s: string): seq<Byte> {
    if s == "" then [] else Encode(s[0]) + Bytes(s[1..])
  }

  /** `str::len`, in bytes. */
  function ByteLen(s: string): (n: nat)
    ensures n == |Bytes(s)|
  {
    if s == "" then 0 else LenUtf8(s[0]) + ByteLen(s[1..])
  }

  /** `str::is_char_boundary` */
  predicate IsCharBoundary(s: string, i: nat) {
    i == 0 || i == |Bytes(s)| || (i < |Bytes(s)| && !IsContinuation(Bytes(s)[i]))
  }

  /** The byte length of the first `k` characters. */
  function Offset(s: string, k: nat): nat
    requires k <= |s|
  {
    if k == 0 then 0 else LenUtf8(s[0]) + Offset(s[1..], k - 1)
  }

  lemma {:induction false} OffsetIsByteLen(s: string, k: nat)
    requires k <= |s|
    ensures Offset(s, k) == ByteLen(s[..k])
  {
    if k > 0 {
      OffsetIsByteLen(s[1..], k - 1);
      assert s[1..][..k - 1] == s[..k][1..];
    }
  }

  lemma {:induction false} OffsetMonotone(s: string, j: nat, k: nat)
    requires j < k <= |s|
    ensures Offset(s, j) < Offset(s, k)
  {
    if j > 0 {
      OffsetMonotone(s[1..], j - 1, k - 1);
    }
  }

  lemma OffsetInjective(s: string, j: nat, k: nat)
    requires j <= |s| && k <= |s| && Offset(s, j) == Offset(s, k)
    ensures j == k
  {
    if j < k {
      OffsetMonotone(s, j, k);
    } else if k < j {
      OffsetMonotone(s, k, j);
    }
  }

  /** The first `k` characters end at byte `i`. */
  predicate EndsAt(s: string, k: nat, i: nat) {
    k <= |s| && Offset(s, k) == i
  }

  /** A byte position is a character boundary iff some number of whole characters ends there. */
  lemma {:induction false} BoundaryIffWholeCharacters(s: string, i: nat)
    ensures IsCharBoundary(s, i) <==> exists k: nat :: EndsAt(s, k, i)
  {
    if i == 0 {
      assert EndsAt(s, 0, i);
    } else if s == "" || i < LenUtf8(s[0]) {
      forall k: nat ensures !EndsAt(s, k, i) {
      }
    } else {
      var rest := i - LenUtf8(s[0]);
      BoundaryIffWholeCharacters(s[1..], rest);
      assert IsCharBoundary(s, i) <==> IsCharBoundary(s[1..], rest);
      if IsCharBoundary(s, i) {
        var k: nat :| EndsAt(s[1..], k, rest);
        assert EndsAt(s, k + 1, i);
      } else {
        forall k: nat ensures !EndsAt(s, k, i) {
          assert k > 0 ==> !EndsAt(s[1..], k - 1, rest);
        }
      }
    }
  }

  /** `&s[0..i]`, which panics unless `i` is a character boundary. */
  function SliceTo(s: string, i: nat): (r: string)
    requires IsCharBoundary(s, i)
    ensures Bytes(r) == Bytes(s)[..i] && r <= s && EndsAt(s, |r|, i)
  {
    BoundaryIffWholeCharacters(s, i);
    if i == 0 then ""
    else
      var k: nat :| EndsAt(s, k, i);
      assert EndsAt(s[1..], k - 1, i - LenUtf8(s[0]));
      BoundaryIffWholeCharacters(s[1..], i - LenUtf8(s[0]));
      var rest := SliceTo(s[1..], i - LenUtf8(s[0]));
      [s[0]] + rest
  }
}
