/** Base 64 as section 4 of RFC 4648 defines it (the alphabet `A-Z a-z 0-9 + /`
    with `=` padding), which is what Node.js `Buffer.toString('base64')`
    writes for the secret. The decoder is the partner that shows nothing is
    lost. */
module Base64 {
  import opened JsText

  type byte = b: int | 0 <= b < 256
  type sextet = v: int | 0 <= v < 64

  /** The character of the alphabet for a 6-bit value, table 1 of the RFC. */
  function Letter(v: sextet): (c: char)
    ensures c != '=' && c != '\n' && c != '"'
  {
    if v < 26 then (('A' as int) + v) as char
    else if v < 52 then (('a' as int) + (v - 26)) as char
    else if v < 62 then (('0' as int) + (v - 52)) as char
    else if v == 62 then '+'
    else '/'
  }

  /** The 6-bit value of an alphabet character, `None` for any other. */
  function LetterValue(c: char): Option<sextet> {
    if 'A' <= c <= 'Z' then Some(c as int - 'A' as int)
    else if 'a' <= c <= 'z' then Some(c as int - 'a' as int + 26)
    else if '0' <= c <= '9' then Some(c as int - '0' as int + 52)
    else if c == '+' then Some(62)
    else if c == '/' then Some(63)
    else None
  }

  lemma LetterValueOfLetter(v: sextet)
    ensures LetterValue(Letter(v)) == Some(v)
  {
  }

  /** Three bytes as four characters. */
  function EncodeTriple(b0: byte, b1: byte, b2: byte): string {
    [Letter(b0 / 4), Letter((b0 % 4) * 16 + b1 / 16), Letter((b1 % 16) * 4 + b2 / 64), Letter(b2 % 64)]
  }

  /** The encoding: each group of three bytes becomes four characters, and a
      final group of one or two bytes is padded with `=` to four. */
  function Encode(data: seq<byte>): (r: string)
    ensures |r| == 4 * ((|data| + 2) / 3)
    ensures '\n' !in r && '"' !in r
    decreases |data|
  {
    if |data| == 0 then ""
    else if |data| == 1 then
      [Letter(data[0] / 4), Letter((data[0] % 4) * 16), '=', '=']
    else if |data| == 2 then
      [Letter(data[0] / 4), Letter((data[0] % 4) * 16 + data[1] / 16), Letter((data[1] % 16) * 4), '=']
    else
      EncodeTriple(data[0], data[1], data[2]) + Encode(data[3..])
  }

  /** Four characters of a full group as three bytes. */
  function DecodeQuad(c0: char, c1: char, c2: char, c3: char): Option<seq<byte>> {
    match (LetterValue(c0), LetterValue(c1), LetterValue(c2), LetterValue(c3))
    case (Some(v0), Some(v1), Some(v2), Some(v3)) =>
      Some([v0 * 4 + v1 / 16, (v1 % 16) * 16 + v2 / 4, (v2 % 4) * 64 + v3])
    case _ => None
  }

  /** The last group, which may end in one or two `=`. */
  function DecodeFinal(c0: char, c1: char, c2: char, c3: char): Option<seq<byte>> {
    if c2 == '=' && c3 == '=' then
      match (LetterValue(c0), LetterValue(c1))
      case (Some(v0), Some(v1)) => Some([v0 * 4 + v1 / 16])
      case _ => None
    else if c3 == '=' then
      match (LetterValue(c0), LetterValue(c1), LetterValue(c2))
      case (Some(v0), Some(v1), Some(v2)) => Some([v0 * 4 + v1 / 16, (v1 % 16) * 16 + v2 / 4])
      case _ => None
    else DecodeQuad(c0, c1, c2, c3)
  }

  /** Decoding: `None` when the length is not a multiple of four or a
      character is out of place. */
  function Decode(s: string): Option<seq<byte>>
    decreases |s|
  {
    if |s| == 0 then Some([])
    else if |s| < 4 then None
    else if |s| == 4 then DecodeFinal(s[0], s[1], s[2], s[3])
    else match DecodeQuad(s[0], s[1], s[2], s[3])
      case None => None
      case Some(head) =>
        match Decode(s[4..])
        case None => None
        case Some(tail) => Some(head + tail)
  }

  /** Four characters whose values are the sextets of three bytes decode to
      those bytes. */
  lemma QuadOfSextets(c0: char, c1: char, c2: char, c3: char, b0: byte, b1: byte, b2: byte)
    requires LetterValue(c0) == Some(b0 / 4) && LetterValue(c1) == Some((b0 % 4) * 16 + b1 / 16)
    requires LetterValue(c2) == Some((b1 % 16) * 4 + b2 / 64) && LetterValue(c3) == Some(b2 % 64)
    requires c2 != '=' && c3 != '='
    ensures DecodeQuad(c0, c1, c2, c3) == Some([b0, b1, b2])
    ensures DecodeFinal(c0, c1, c2, c3) == Some([b0, b1, b2])
  {
    var v1, v2 := (b0 % 4) * 16 + b1 / 16, (b1 % 16) * 4 + b2 / 64;
    assert v1 / 16 == b0 % 4 && v1 % 16 == b1 / 16;
    assert v2 / 4 == b1 % 16 && v2 % 4 == b2 / 64;
  }

  /** The bit arithmetic of one full group undoes itself. */
  lemma TripleRoundTrip(b0: byte, b1: byte, b2: byte)
    ensures var e := EncodeTriple(b0, b1, b2);
      |e| == 4 && DecodeQuad(e[0], e[1], e[2], e[3]) == Some([b0, b1, b2])
      && Decode(e) == Some([b0, b1, b2])
  {
    var v0, v1, v2, v3 := b0 / 4, (b0 % 4) * 16 + b1 / 16, (b1 % 16) * 4 + b2 / 64, b2 % 64;
    LetterValueOfLetter(v0);
    LetterValueOfLetter(v1);
    LetterValueOfLetter(v2);
    LetterValueOfLetter(v3);
    QuadOfSextets(Letter(v0), Letter(v1), Letter(v2), Letter(v3), b0, b1, b2);
  }

  /** Two characters whose values are the sextets of one byte, then `==`,
      decode to that byte. */
  lemma SingleOfSextets(c0: char, c1: char, b0: byte)
    requires LetterValue(c0) == Some(b0 / 4) && LetterValue(c1) == Some((b0 % 4) * 16)
    ensures Decode([c0, c1, '=', '=']) == Some([b0])
  {
    var v1 := (b0 % 4) * 16;
    assert v1 / 16 == b0 % 4;
  }

  /** Three characters whose values are the sextets of two bytes, then `=`,
      decode to those bytes. */
  lemma PairOfSextets(c0: char, c1: char, c2: char, b0: byte, b1: byte)
    requires LetterValue(c0) == Some(b0 / 4) && LetterValue(c1) == Some((b0 % 4) * 16 + b1 / 16)
    requires LetterValue(c2) == Some((b1 % 16) * 4) && c2 != '='
    ensures Decode([c0, c1, c2, '=']) == Some([b0, b1])
  {
    var v1, v2 := (b0 % 4) * 16 + b1 / 16, (b1 % 16) * 4;
    assert v1 / 16 == b0 % 4 && v1 % 16 == b1 / 16 && v2 / 4 == b1 % 16;
  }

  /** A final group of one byte, padded with `==`, decodes to that byte. */
  lemma SingleRoundTrip(data: seq<byte>)
    requires |data| == 1
    ensures Decode(Encode(data)) == Some(data)
  {
    var b0 := data[0];
    var v0, v1 := b0 / 4, (b0 % 4) * 16;
    LetterValueOfLetter(v0);
    LetterValueOfLetter(v1);
    assert Encode(data) == [Letter(v0), Letter(v1), '=', '='];
    SingleOfSextets(Letter(v0), Letter(v1), b0);
    assert [b0] == data;
  }

  /** A final group of two bytes, padded with `=`, decodes to those bytes. */
  lemma PairRoundTrip(data: seq<byte>)
    requires |data| == 2
    ensures Decode(Encode(data)) == Some(data)
  {
    var b0, b1 := data[0], data[1];
    var v0, v1, v2 := b0 / 4, (b0 % 4) * 16 + b1 / 16, (b1 % 16) * 4;
    LetterValueOfLetter(v0);
    LetterValueOfLetter(v1);
    LetterValueOfLetter(v2);
    assert Encode(data) == [Letter(v0), Letter(v1), Letter(v2), '='];
    PairOfSextets(Letter(v0), Letter(v1), Letter(v2), b0, b1);
    assert [b0, b1] == data;
  }

  /** A full group followed by more text decodes to the group's bytes and
      then the rest's. */
  lemma DecodeGroupThenRest(e: string, rest: string, head: seq<byte>, tail: seq<byte>)
    requires |e| == 4 && |rest| > 0
    requires DecodeQuad(e[0], e[1], e[2], e[3]) == Some(head) && Decode(rest) == Some(tail)
    ensures Decode(e + rest) == Some(head + tail)
  {
    var s := e + rest;
    assert s[0] == e[0] && s[1] == e[1] && s[2] == e[2] && s[3] == e[3];
    assert s[4..] == rest;
  }

  /** Decoding an encoding gives back the bytes. */
  lemma {:induction false} DecodeEncode(data: seq<byte>)
    ensures Decode(Encode(data)) == Some(data)
    decreases |data|
  {
    if |data| == 1 {
      SingleRoundTrip(data);
    } else if |data| == 2 {
      PairRoundTrip(data);
    } else if |data| == 3 {
      TripleRoundTrip(data[0], data[1], data[2]);
      EncodeOfThree(data);
      assert data == [data[0], data[1], data[2]];
    } else if |data| > 3 {
      DecodeEncode(data[3..]);
      GroupThenRest(data);
    }
  }

  lemma EncodeOfThree(data: seq<byte>)
    requires |data| == 3
    ensures Encode(data) == EncodeTriple(data[0], data[1], data[2])
  {
    assert Encode(data[3..]) == [];
  }

  /** One induction step: the first group, then the encoding of the rest. */
  lemma GroupThenRest(data: seq<byte>)
    requires |data| > 3 && Decode(Encode(data[3..])) == Some(data[3..])
    ensures Decode(Encode(data)) == Some(data)
  {
    var head := [data[0], data[1], data[2]];
    var e := EncodeTriple(data[0], data[1], data[2]);
    var rest := Encode(data[3..]);
    TripleRoundTrip(data[0], data[1], data[2]);
    assert Encode(data) == e + rest;
    DecodeGroupThenRest(e, rest, head, data[3..]);
    FirstThreeThenRest(data);
  }

  lemma FirstThreeThenRest(data: seq<byte>)
    requires |data| >= 3
    ensures data == [data[0], data[1], data[2]] + data[3..]
  {
  }

  /** A final group of one byte ends the text in `==`. */
  lemma {:induction false} PaddingOfSingle(data: seq<byte>)
    requires |data| % 3 == 1
    ensures var r := Encode(data); r[|r| - 2..] == "=="
    decreases |data|
  {
    if |data| >= 3 {
      PaddingOfSingle(data[3..]);
      SuffixOfGroupThenRest(data, 2);
    }
  }

  /** A final group of two bytes ends the text in a single `=`. */
  lemma {:induction false} PaddingOfPair(data: seq<byte>)
    requires |data| % 3 == 2
    ensures var r := Encode(data); r[|r| - 2..] == [r[|r| - 2], '='] && r[|r| - 2] != '='
    decreases |data|
  {
    if |data| >= 3 {
      PaddingOfPair(data[3..]);
      SuffixOfGroupThenRest(data, 2);
    }
  }

  /** A whole number of groups has no `=` at all. */
  lemma {:induction false} NoPaddingOfWholeGroups(data: seq<byte>)
    requires |data| % 3 == 0
    ensures '=' !in Encode(data)
    decreases |data|
  {
    if |data| >= 3 {
      NoPaddingOfWholeGroups(data[3..]);
      var head := EncodeTriple(data[0], data[1], data[2]);
      var rest := Encode(data[3..]);
      TripleHasNoPadding(data[0], data[1], data[2]);
      var r := Encode(data);
      assert r == head + rest;
      forall i | 0 <= i < |r| ensures r[i] != '=' {
        if i < 4 { assert r[i] == head[i]; } else { assert r[i] == rest[i - 4]; }
      }
    }
  }

  lemma TripleHasNoPadding(b0: byte, b1: byte, b2: byte)
    ensures |EncodeTriple(b0, b1, b2)| == 4
    ensures forall i :: 0 <= i < 4 ==> EncodeTriple(b0, b1, b2)[i] != '='
  {
  }

  /** The last `k` characters of a text of several groups are those of the
      groups after the first. */
  lemma SuffixOfGroupThenRest(data: seq<byte>, k: nat)
    requires |data| > 3 && k <= 4
    ensures var r := Encode(data); var rest := Encode(data[3..]);
      |rest| >= k && r[|r| - k..] == rest[|rest| - k..]
  {
    var head := EncodeTriple(data[0], data[1], data[2]);
    var rest := Encode(data[3..]);
    assert Encode(data) == head + rest;
  }

  /** The secret's 64 bytes become 88 characters, the last two `=`. */
  lemma SecretLength(data: seq<byte>)
    requires |data| == 64
    ensures |Encode(data)| == 88
    ensures Encode(data)[86..] == "=="
  {
    PaddingOfSingle(data);
  }

  /** The test vectors of section 10 of RFC 4648 ("", "f", "fo", "foo" as
      bytes). */
  lemma Rfc4648ShortVectors()
    ensures Encode([]) == ""
    ensures Encode([102]) == "Zg=="
    ensures Encode([102, 111]) == "Zm8="
    ensures Encode([102, 111, 111]) == "Zm9v"
  {
  }

  /** The vector of section 10 of RFC 4648 for "foob". */
  lemma Rfc4648FourByteVector()
    ensures Encode([102, 111, 111, 98]) == "Zm9vYg=="
  {
    assert [102, 111, 111, 98][3..] == [98];
  }

  /** The vector of section 10 of RFC 4648 for "fooba". */
  lemma Rfc4648FiveByteVector()
    ensures Encode([102, 111, 111, 98, 97]) == "Zm9vYmE="
  {
    assert [102, 111, 111, 98, 97][3..] == [98, 97];
  }

  /** The vector of section 10 of RFC 4648 for "foobar". */
  lemma Rfc4648SixByteVector()
    ensures Encode([102, 111, 111, 98, 97, 114]) == "Zm9vYmFy"
  {
    assert [102, 111, 111, 98, 97, 114][3..] == [98, 97, 114];
  }



}
