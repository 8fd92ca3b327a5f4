/** The cryptographic collaborators of the account handlers, kept abstract: the
    salted password hash and its comparison, the SHA-256 digest of reset secrets and
    the session-token signer are fields of a `Primitives` value the caller supplies.
    Only the shape of the plaintext reset secret is concrete: 32 random bytes in
    lower-case hexadecimal followed by the user id. */
module Crypto {

  type byte = b: int | 0 <= b < 256

  /** `bcrypt.hash`, `sha256(..).digest("hex")` and `jwt.sign({ id }, secret)`. */
  datatype Primitives = Primitives(
    hash: string -> string,
    sha: string -> string,
    sign: string -> string)

  /** `bcrypt.compare(plain, digest)`: the digest is the hash of the plaintext. */
  predicate Verify(c: Primitives, plain: string, digest: string) {
    digest == c.hash(plain)
  }

  /** Number of random bytes drawn for a reset secret. */
  const RandomBytes := 32

  /** Lower-case hexadecimal digit of a nibble. */
  function HexDigit(n: int): (c: char)
    requires 0 <= n < 16
    ensures '0' <= c <= '9' || 'a' <= c <= 'f'
  {
    if n < 10 then ('0' as int + n) as char else ('a' as int + n - 10) as char
  }

  /** `Buffer.toString("hex")`: two lower-case digits per byte, high nibble first. */
  function Hex(bytes: seq<byte>): (h: string)
    ensures |h| == 2 * |bytes|
    ensures forall i :: 0 <= i < |bytes| ==> h[2 * i] == HexDigit(bytes[i] / 16) && h[2 * i + 1] == HexDigit(bytes[i] % 16)
  {
    if |bytes| == 0 then []
    else [HexDigit(bytes[0] / 16), HexDigit(bytes[0] % 16)] + Hex(bytes[1..])
  }

  /** Value of a lower-case hexadecimal digit. */
  function DigitValue(c: char): int {
    if '0' <= c <= '9' then c as int - '0' as int
    else if 'a' <= c <= 'f' then c as int - 'a' as int + 10
    else 0
  }

  /** Decodes lower-case hexadecimal, two digits per byte. */
  function Unhex(h: string): (bytes: seq<byte>)
    requires |h| % 2 == 0
    ensures |bytes| == |h| / 2
  {
    if |h| == 0 then []
    else
      var hi := DigitValue(h[0]);
      var lo := DigitValue(h[1]);
      var b := if 0 <= hi < 16 && 0 <= lo < 16 then hi * 16 + lo else 0;
      [b] + Unhex(h[2..])
  }

  lemma DigitRoundTrip(n: int)
    requires 0 <= n < 16
    ensures DigitValue(HexDigit(n)) == n
  {
  }

  /** Decoding undoes the encoding. */
  lemma {:induction false} HexRoundTrip(bytes: seq<byte>)
    ensures Unhex(Hex(bytes)) == bytes
  {
    if |bytes| > 0 {
      var b := bytes[0];
      DigitRoundTrip(b / 16);
      DigitRoundTrip(b % 16);
      var h := Hex(bytes);
      assert h[2..] == Hex(bytes[1..]);
      HexRoundTrip(bytes[1..]);
    }
  }

  /** Hence different byte strings have different encodings. */
  lemma HexInjective(a: seq<byte>, b: seq<byte>)
    requires Hex(a) == Hex(b)
    ensures a == b
  {
    HexRoundTrip(a);
    HexRoundTrip(b);
  }

  /** The plaintext reset secret: `randomBytes(32).toString("hex") + user._id`. */
  function ResetSecret(random: seq<byte>, userId: string): (secret: string)
    requires |random| == RandomBytes
    ensures |secret| == 2 * RandomBytes + |userId|
    ensures secret[..2 * RandomBytes] == Hex(random) && Unhex(secret[..2 * RandomBytes]) == random
    ensures secret[2 * RandomBytes..] == userId
  {
    HexRoundTrip(random);
    Hex(random) + userId
  }

  /** The user-id suffix makes secrets of different users differ whatever the
      random bytes, and the hex prefix makes one user's secrets differ whenever the
      bytes do. */
  lemma ResetSecretInjective(r1: seq<byte>, u1: string, r2: seq<byte>, u2: string)
    requires |r1| == RandomBytes && |r2| == RandomBytes
    requires ResetSecret(r1, u1) == ResetSecret(r2, u2)
    ensures r1 == r2 && u1 == u2
  {
    var s := ResetSecret(r1, u1);
    assert Hex(r1) == s[..2 * RandomBytes] == Hex(r2);
    HexInjective(r1, r2);
  }
}
