/** Password hashing for the administrator login: the password and its salt are
    concatenated, encoded, digested, and the digest is written out as lower-case
    hexadecimal (base16 of section 8 of RFC 4648, with the lower-case alphabet).
    A password is accepted when the hexadecimal text equals the stored hash. The
    text encoder and the SHA-256 digest are parameters of the model. */
module Password {
  import opened Wrappers

  newtype byte = x: int | 0 <= x < 256

  /** A lower-case hexadecimal digit, `0-9a-f`. */
  predicate IsHexDigit(c: char) {
    '0' <= c <= '9' || 'a' <= c <= 'f'
  }

  /** The lower-case digit of value `k`. */
  function HexDigit(k: nat): (c: char)
    requires k < 16
    ensures IsHexDigit(c)
  {
    if k < 10 then ('0' as int + k) as char else ('a' as int + k - 10) as char
  }

  /** `b.toString(16)`: the shortest lower-case hexadecimal rendering of a byte. */
  function ToHexString(b: byte): (r: string)
    ensures 1 <= |r| <= 2
  {
    if b < 16 then [HexDigit(b as int)]
    else [HexDigit(b as int / 16), HexDigit(b as int % 16)]
  }

  /** `s.padStart(n, c)`: `s` preceded by as many `c` as it takes to reach length `n`. */
  function PadStart(s: string, n: nat, c: char): (r: string)
    ensures |r| == if |s| >= n then |s| else n
    ensures r[|r| - |s|..] == s
  {
    if |s| >= n then s else seq(n - |s|, _ => c) + s
  }

  /** One byte as the `map` callback writes it: the high digit, then the low digit. */
  function HexPair(b: byte): (r: string)
    ensures r == [HexDigit(b as int / 16), HexDigit(b as int % 16)]
  {
    PadStart(ToHexString(b), 2, '0')
  }

  /** `bufferToHex(buffer)`: each byte as its two digits, joined without separator. */
  function BufferToHex(buffer: seq<byte>): (r: string)
    ensures |r| == 2 * |buffer|
    ensures forall i :: 0 <= i < |r| ==> IsHexDigit(r[i])
    decreases |buffer|
  {
    if buffer == [] then ""
    else
      var rest := BufferToHex(buffer[1..]);
      var r := HexPair(buffer[0]) + rest;
      assert forall i :: 2 <= i < |r| ==> r[i] == rest[i - 2];
      r
  }

  /** Byte `i` is written at positions `2 * i` and `2 * i + 1`, high digit first. */
  lemma {:induction false} BufferToHexPositions(buffer: seq<byte>, i: nat)
    requires i < |buffer|
    ensures BufferToHex(buffer)[2 * i] == HexDigit(buffer[i] as int / 16)
    ensures BufferToHex(buffer)[2 * i + 1] == HexDigit(buffer[i] as int % 16)
    decreases i
  {
    var tail := buffer[1..];
    var pair, rest := HexPair(buffer[0]), BufferToHex(tail);
    assert BufferToHex(buffer) == pair + rest;
    if i > 0 {
      var k := i - 1;
      BufferToHexPositions(tail, k);
      assert tail[k] == buffer[i];
      assert 2 * i == 2 * k + 2;
      assert (pair + rest)[2 * k + 2] == rest[2 * k];
      assert (pair + rest)[2 * k + 3] == rest[2 * k + 1];
    }
  }

  /** The value of a lower-case hexadecimal digit. */
  function HexValue(c: char): (r: Option<nat>)
    ensures r.Some? <==> IsHexDigit(c)
    ensures r.Some? ==> r.value < 16 && HexDigit(r.value) == c
  {
    if '0' <= c <= '9' then Some(c as int - '0' as int)
    else if 'a' <= c <= 'f' then Some(c as int - 'a' as int + 10)
    else None
  }

  /** Reading lower-case hexadecimal back into bytes: `None` for odd length or a
      character outside `0-9a-f`. */
  function HexToBytes(s: string): (r: Option<seq<byte>>)
    ensures r.Some? ==> 2 * |r.value| == |s|
    decreases |s|
  {
    if s == [] then Some([])
    else if |s| < 2 then None
    else
      match (HexValue(s[0]), HexValue(s[1]), HexToBytes(s[2..]))
      case (Some(high), Some(low), Some(rest)) => Some([(high * 16 + low) as byte] + rest)
      case _ => None
  }

  /** A digit reads back as its own value. */
  lemma HexValueOfDigit(k: nat)
    requires k < 16
    ensures HexValue(HexDigit(k)) == Some(k)
  {
  }

  /** Decoding a byte's two digits in front of decodable text. */
  lemma DecodePair(b: byte, rest: string)
    requires HexToBytes(rest).Some?
    ensures HexToBytes(HexPair(b) + rest) == Some([b] + HexToBytes(rest).value)
  {
    var s := HexPair(b) + rest;
    HexValueOfDigit(b as int / 16);
    HexValueOfDigit(b as int % 16);
    assert s[2..] == rest;
  }

  /** Decoding the hexadecimal text gives the bytes back. */
  lemma {:induction false} HexRoundTrip(buffer: seq<byte>)
    ensures HexToBytes(BufferToHex(buffer)) == Some(buffer)
    decreases |buffer|
  {
    if buffer != [] {
      var head, tail := buffer[0], buffer[1..];
      assert [head] + tail == buffer;
      HexRoundTrip(tail);
      DecodePair(head, BufferToHex(tail));
      assert BufferToHex(buffer) == HexPair(head) + BufferToHex(tail);
    }
  }

  /** Different buffers give different texts. */
  lemma BufferToHexInjective(a: seq<byte>, b: seq<byte>)
    requires BufferToHex(a) == BufferToHex(b)
    ensures a == b
  {
    HexRoundTrip(a);
    HexRoundTrip(b);
  }

  /** `hashPassword(password, salt)`, with `encode` standing for `TextEncoder.encode`
      and `digest` for `crypto.subtle.digest('SHA-256', ...)`. */
  function HashPassword(encode: string -> seq<byte>, digest: seq<byte> -> seq<byte>, password: string, salt: string): (r: string)
    ensures HexToBytes(r) == Some(digest(encode(password + salt)))
  {
    HexRoundTrip(digest(encode(password + salt)));
    BufferToHex(digest(encode(password + salt)))
  }

  /** `verifyPassword(password, salt, hash)`. */
  predicate VerifyPassword(encode: string -> seq<byte>, digest: seq<byte> -> seq<byte>, password: string, salt: string, hash: string) {
    HashPassword(encode, digest, password, salt) == hash
  }

  /** A password is accepted exactly when the stored hash is the hexadecimal text of
      the digest of the encoded password followed by the salt; a SHA-256 digest
      of 32 bytes makes that text 64 lower-case digits. */
  lemma VerifyPasswordSpec(encode: string -> seq<byte>, digest: seq<byte> -> seq<byte>, password: string, salt: string, hash: string)
    ensures VerifyPassword(encode, digest, password, salt, hash) <==>
      HexToBytes(hash) == Some(digest(encode(password + salt))) && |hash| == 2 * |digest(encode(password + salt))| &&
      forall i :: 0 <= i < |hash| ==> IsHexDigit(hash[i])
    ensures VerifyPassword(encode, digest, password, salt, hash) && |digest(encode(password + salt))| == 32 ==> |hash| == 64
  {
    var d := digest(encode(password + salt));
    if HexToBytes(hash) == Some(d) && |hash| == 2 * |d| && forall i :: 0 <= i < |hash| ==> IsHexDigit(hash[i]) {
      HexCanonical(hash);
      BufferToHexInjective(d, HexToBytes(hash).value);
    }
  }

  /** Text made of lower-case digits is the rendering of the bytes it decodes to. */
  lemma {:induction false} HexCanonical(s: string)
    requires HexToBytes(s).Some?
    ensures BufferToHex(HexToBytes(s).value) == s
    decreases |s|
  {
    if s != [] {
      var high, low := HexValue(s[0]).value, HexValue(s[1]).value;
      var rest := HexToBytes(s[2..]).value;
      var b := (high * 16 + low) as byte;
      assert HexToBytes(s).value == [b] + rest;
      assert ([b] + rest)[1..] == rest;
      HexCanonical(s[2..]);
      assert b as int / 16 == high && b as int % 16 == low;
      assert s == [s[0], s[1]] + s[2..];
    }
  }

  /** Two passwords accepted against the same hash and salt have the same digest. */
  lemma SameHashSameDigest(encode: string -> seq<byte>, digest: seq<byte> -> seq<byte>, p: string, q: string, salt: string, hash: string)
    requires VerifyPassword(encode, digest, p, salt, hash) && VerifyPassword(encode, digest, q, salt, hash)
    ensures digest(encode(p + salt)) == digest(encode(q + salt))
  {
    BufferToHexInjective(digest(encode(p + salt)), digest(encode(q + salt)));
  }
}
