/**
 * `encodeURIComponent` over strings of Unicode scalar values: characters outside
 * the unreserved set are written as the `%XX` escapes of their UTF-8 bytes.
 */
module UriComponent {

  /** The characters `encodeURIComponent` leaves as they are. */
  predicate IsUnreserved(c: char) {
    || 'A' <= c <= 'Z' || 'a' <= c <= 'z' || '0' <= c <= '9'
    || c == '-' || c == '_' || c == '.' || c == '!' || c == '~' || c == '*'
    || c == '\'' || c == '(' || c == ')'
  }

  /** The characters an encoded string can consist of. */
  predicate IsEncodedChar(c: char) {
    IsUnreserved(c) || c == '%' || '0' <= c <= '9' || 'A' <= c <= 'F'
  }

  function HexDigit(d: nat): (c: char)
    requires d < 16
    ensures IsEncodedChar(c)
  {
    if d < 10 then '0' + d as char else 'A' + (d - 10) as char
  }

  /** The UTF-8 encoding of a Unicode scalar value. */
  function Utf8(c: char): (bytes: seq<nat>)
    ensures 1 <= |bytes| <= 4 && forall i :: 0 <= i < |bytes| ==> bytes[i] < 256
  {
    var cp := c as int;
    if cp < 0x80 then [cp]
    else if cp < 0x800 then [0xC0 + cp / 0x40, 0x80 + cp % 0x40]
    else if cp < 0x1_0000 then [0xE0 + cp / 0x1000, 0x80 + (cp / 0x40) % 0x40, 0x80 + cp % 0x40]
    else [0xF0 + cp / 0x4_0000, 0x80 + (cp / 0x1000) % 0x40, 0x80 + (cp / 0x40) % 0x40, 0x80 + cp % 0x40]
  }

  /** `%XX` for each byte, upper-case hexadecimal. */
  function PercentEscapes(bytes: seq<nat>): (r: string)
    requires forall i :: 0 <= i < |bytes| ==> bytes[i] < 256
    ensures |r| == 3 * |bytes|
    ensures forall i :: 0 <= i < |r| ==> IsEncodedChar(r[i])
  {
    if bytes == [] then []
    else ['%', HexDigit(bytes[0] / 16), HexDigit(bytes[0] % 16)] + PercentEscapes(bytes[1..])
  }

  function EncodeChar(c: char): (r: string)
    ensures |r| >= 1 && forall i :: 0 <= i < |r| ==> IsEncodedChar(r[i])
  {
    if IsUnreserved(c) then [c] else PercentEscapes(Utf8(c))
  }

  /** `encodeURIComponent(s)`: each character encoded in turn. */
  function Encode(s: string): string {
    if s == [] then [] else EncodeChar(s[0]) + Encode(s[1..])
  }

  /**
   * The encoding is never shorter than the input and is made of unreserved
   * characters, `%` and upper-case hexadecimal digits only.
   */
  lemma {:induction false} EncodedChars(s: string)
    ensures |Encode(s)| >= |s|
    ensures forall i :: 0 <= i < |Encode(s)| ==> IsEncodedChar(Encode(s)[i])
  {
    if s != [] {
      EncodedChars(s[1..]);
      var e, rest := EncodeChar(s[0]), Encode(s[1..]);
      assert Encode(s) == e + rest;
      forall i | 0 <= i < |e + rest| ensures IsEncodedChar((e + rest)[i]) {
        if i < |e| {
          assert (e + rest)[i] == e[i];
        } else {
          assert (e + rest)[i] == rest[i - |e|];
        }
      }
    }
  }

  /**
   * An encoded string holds no `{`, `}` or `$`: used as the replacement string of
   * `String.prototype.replace` it is inserted literally (no `$` patterns), and it
   * cannot contain the `{text}` marker.
   */
  lemma EncodedHasNoSpecials(s: string)
    ensures forall i :: 0 <= i < |Encode(s)| ==> Encode(s)[i] !in {'{', '}', '$'}
  {
    var r := Encode(s);
    EncodedChars(s);
    forall i | 0 <= i < |r| ensures r[i] !in {'{', '}', '$'} {
      assert IsEncodedChar(r[i]);
    }
  }

  /** A string of unreserved characters is its own encoding. */
  lemma {:induction false} EncodeUnreserved(s: string)
    requires forall i :: 0 <= i < |s| ==> IsUnreserved(s[i])
    ensures Encode(s) == s
  {
    if s != [] {
      EncodeUnreserved(s[1..]);
      assert s == [s[0]] + s[1..];
    }
  }

  /** The encoding of a concatenation is the concatenation of the encodings. */
  lemma {:induction false} EncodeAppend(a: string, b: string)
    ensures Encode(a + b) == Encode(a) + Encode(b)
  {
    if a == [] {
      assert a + b == b;
    } else {
      var c, tail := a[0], a[1..];
      SplitHead(a, b);
      EncodeCons(c, tail + b);
      EncodeCons(c, tail);
      EncodeAppend(tail, b);
      AppendAssociates(EncodeChar(c), Encode(tail), Encode(b));
    }
  }

  lemma SplitHead(a: string, b: string)
    requires a != []
    ensures a == [a[0]] + a[1..] && a + b == [a[0]] + (a[1..] + b)
  {
  }

  lemma AppendAssociates(x: string, y: string, z: string)
    ensures x + (y + z) == (x + y) + z
  {
  }

  /** Encoding proceeds character by character from the front. */
  lemma EncodeCons(c: char, s: string)
    ensures Encode([c] + s) == EncodeChar(c) + Encode(s)
  {
    assert ([c] + s)[0] == c && ([c] + s)[1..] == s;
  }

  /** `encodeURIComponent("café") == "caf%C3%A9"`. */
  lemma EncodeCafe()
    ensures Encode("café") == "caf%C3%A9"
  {
    var plain, accented := "caf", "é";
    EncodeUnreserved(plain);
    EncodeAppend(plain, accented);
    EncodeEAcute();
    assert plain + accented == "café";
    assert plain + "%C3%A9" == "caf%C3%A9";
  }

  /** `é` (U+00E9) is the two UTF-8 bytes C3 A9. */
  lemma EncodeEAcute()
    ensures Encode("é") == "%C3%A9"
  {
    assert Utf8('é') == [0xC3, 0xA9];
    PercentEscapesPair(0xC3, 0xA9);
    assert Encode("é") == EncodeChar('é') + Encode([]);
  }

  lemma PercentEscapesPair(x: nat, y: nat)
    requires x < 256 && y < 256
    ensures PercentEscapes([x, y]) == ['%', HexDigit(x / 16), HexDigit(x % 16), '%', HexDigit(y / 16), HexDigit(y % 16)]
  {
    assert [x, y][1..] == [y] && [y][1..] == [];
  }
}
