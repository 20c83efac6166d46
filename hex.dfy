/** Lower-case hexadecimal text of a byte string, as Python's `bytes.hex()`
    writes it: two digits per byte, high nibble first, digits `0-9a-f`.
    `hash_password` returns its derived key in this form, and
    `secrets.token_hex` draws its salt in it. */
module HexEncoding {

  newtype byte = x: int | 0 <= x < 256

  predicate IsHexDigit(c: char) {
    '0' <= c <= '9' || 'a' <= c <= 'f'
  }

  /** A string that `bytes.hex()` could have produced. */
  predicate IsHex(s: string) {
    |s| % 2 == 0 && forall i :: 0 <= i < |s| ==> IsHexDigit(s[i])
  }

  /** The lower-case digit for a value below 16. */
  function HexDigit(n: int): (c: char)
    requires 0 <= n < 16
    ensures IsHexDigit(c)
    ensures DigitValue(c) == n
  {
    if n < 10 then (48 + n) as char else (87 + n) as char
  }

  /** The value of a lower-case hex digit. */
  function DigitValue(c: char): (n: int)
    requires IsHexDigit(c)
    ensures 0 <= n < 16
  {
    if c <= '9' then c as int - 48 else c as int - 87
  }

  /** The two digits of one byte. */
  function ByteHex(b: byte): (s: string)
    ensures |s| == 2 && IsHexDigit(s[0]) && IsHexDigit(s[1])
    ensures DigitValue(s[0]) * 16 + DigitValue(s[1]) == b as int
  {
    [HexDigit(b as int / 16), HexDigit(b as int % 16)]
  }

  /** `bytes.hex()`: the digits of each byte in order. */
  function Hex(bytes: seq<byte>): (s: string)
    ensures |s| == 2 * |bytes|
    ensures IsHex(s)
  {
    if bytes == [] then [] else ByteHex(bytes[0]) + Hex(bytes[1..])
  }

  /** `bytes.fromhex()` restricted to the lower-case text `Hex` produces:
      the inverse partner of `Hex`. */
  function Unhex(s: string): (bytes: seq<byte>)
    requires IsHex(s)
    ensures |bytes| * 2 == |s|
  {
    if s == [] then []
    else
      assert IsHex(s[2..]) by {
        forall i | 0 <= i < |s[2..]| ensures IsHexDigit(s[2..][i]) {
          assert s[2..][i] == s[i + 2];
        }
      }
      [(DigitValue(s[0]) * 16 + DigitValue(s[1])) as byte] + Unhex(s[2..])
  }

  /** Decoding the text of a byte string gives the byte string back. */
  lemma {:induction false} UnhexHex(bytes: seq<byte>)
    ensures Unhex(Hex(bytes)) == bytes
  {
    if bytes != [] {
      var s := Hex(bytes);
      assert s[..2] == ByteHex(bytes[0]);
      assert s[2..] == Hex(bytes[1..]);
      UnhexHex(bytes[1..]);
    }
  }

  /** Every text `IsHex` admits is the hex text of its decoding, so `Hex`
      and `Unhex` are inverse bijections. */
  lemma {:induction false} HexUnhex(s: string)
    requires IsHex(s)
    ensures Hex(Unhex(s)) == s
  {
    if s != [] {
      assert IsHex(s[2..]) by {
        forall i | 0 <= i < |s[2..]| ensures IsHexDigit(s[2..][i]) {
          assert s[2..][i] == s[i + 2];
        }
      }
      HexUnhex(s[2..]);
      var b := (DigitValue(s[0]) * 16 + DigitValue(s[1])) as byte;
      var d := ByteHex(b);
      DigitUnique(d[0], s[0]);
      DigitUnique(d[1], s[1]);
      assert Unhex(s) == [b] + Unhex(s[2..]);
      assert s == [s[0], s[1]] + s[2..];
    }
  }

  /** Two digits with the same value are the same digit. */
  lemma DigitUnique(c: char, d: char)
    requires IsHexDigit(c) && IsHexDigit(d)
    ensures DigitValue(c) == DigitValue(d) <==> c == d
  {
  }

  /** Different byte strings have different hex text, so comparing the hex
      digests compares the underlying keys. */
  lemma HexInjective(a: seq<byte>, b: seq<byte>)
    ensures Hex(a) == Hex(b) <==> a == b
  {
    if Hex(a) == Hex(b) {
      UnhexHex(a);
      UnhexHex(b);
    }
  }
}
