/** Base64 with the URL-safe alphabet, section 5 of RFC 4648: the unpadded form, whose decoder
    accepts nothing but canonical text, and the padded form. */
module Base64Url {
  import opened Prelude

  type Byte = b: int | 0 <= b < 256

  function EncodeChar(v: Sextet): char {
    if v < 26 then 'A' + v as char
    else if v < 52 then 'a' + (v - 26) as char
    else if v < 62 then '0' + (v - 52) as char
    else if v == 62 then '-'
    else '_'
  }

  function DecodeChar(c: char): Option<Sextet> {
    if 'A' <= c <= 'Z' then Some(c as int - 'A' as int)
    else if 'a' <= c <= 'z' then Some(c as int - 'a' as int + 26)
    else if '0' <= c <= '9' then Some(c as int - '0' as int + 52)
    else if c == '-' then Some(62)
    else if c == '_' then Some(63)
    else None
  }

  lemma CharRoundTrip(v: Sextet, c: char)
    ensures DecodeChar(EncodeChar(v)) == Some(v)
    ensures DecodeChar(c).Some? ==> EncodeChar(DecodeChar(c).value) == c
  {
  }

  type Sextet = v: int | 0 <= v < 64

  // The four sextets of three bytes, and the three bytes of four sextets.
  function First(x: Byte): Sextet { x / 4 }
  function Second(x: Byte, y: Byte): Sextet { x % 4 * 16 + y / 16 }
  function Third(y: Byte, z: Byte): Sextet { y % 16 * 4 + z / 64 }
  function Fourth(z: Byte): Sextet { z % 64 }
  function High(a: Sextet, b: Sextet): Byte { a * 4 + b / 16 }
  function Middle(b: Sextet, c: Sextet): Byte { b % 16 * 16 + c / 4 }
  function Low(c: Sextet, d: Sextet): Byte { c % 4 * 64 + d }

  function Encode(data: seq<Byte>): string {
    if |data| == 0 then ""
    else if |data| == 1 then
      [EncodeChar(First(data[0])), EncodeChar(Second(data[0], 0))]
    else if |data| == 2 then
      [EncodeChar(First(data[0])), EncodeChar(Second(data[0], data[1])), EncodeChar(Third(data[1], 0))]
    else
      [EncodeChar(First(data[0])), EncodeChar(Second(data[0], data[1])),
       EncodeChar(Third(data[1], data[2])), EncodeChar(Fourth(data[2]))] + Encode(data[3..])
  }

  /** Decodes unpadded text. A lone character, a character outside the alphabet, or bits left over
      that are not zero make it fail. */
  function Decode(text: string): Option<seq<Byte>> {
    if |text| == 0 then Some([])
    else if |text| == 1 then None
    else
      match (DecodeChar(text[0]), DecodeChar(text[1]))
      case (Some(a), Some(b)) =>
        if |text| == 2 then
          if b % 16 == 0 then Some([High(a, b)]) else None
        else
          (match DecodeChar(text[2])
           case None => None
           case Some(c) =>
             if |text| == 3 then
               if c % 4 == 0 then Some([High(a, b), Middle(b, c)]) else None
             else
               match (DecodeChar(text[3]), Decode(text[4..]))
               case (Some(d), Some(rest)) => Some([High(a, b), Middle(b, c), Low(c, d)] + rest)
               case _ => None)
      case _ => None
  }

  /** Decodes padded text: the padding must fill the last group exactly. */
  function DecodePadded(text: string): Option<seq<Byte>> {
    if |text| % 4 != 0 then None
    else if |text| >= 2 && text[|text| - 2..] == "==" then Decode(text[..|text| - 2])
    else if |text| >= 1 && text[|text| - 1] == '=' then Decode(text[..|text| - 1])
    else Decode(text)
  }

  /** Four sextets hold three bytes, and three bytes fill four sextets. */
  lemma BytesThroughSextets(x: Byte, y: Byte, z: Byte)
    ensures High(First(x), Second(x, y)) == x
    ensures Middle(Second(x, y), Third(y, z)) == y
    ensures Low(Third(y, z), Fourth(z)) == z
    ensures Second(x, 0) % 16 == 0 && Third(y, 0) % 4 == 0
  {
  }

  lemma SextetsThroughBytes(a: Sextet, b: Sextet, c: Sextet, d: Sextet)
    ensures First(High(a, b)) == a
    ensures Second(High(a, b), Middle(b, c)) == b
    ensures Third(Middle(b, c), Low(c, d)) == c
    ensures Fourth(Low(c, d)) == d
    ensures b % 16 == 0 ==> Second(High(a, b), 0) == b
    ensures c % 4 == 0 ==> Third(Middle(b, c), 0) == c
  {
  }

  lemma {:induction false} DecodeEncode(data: seq<Byte>)
    ensures Decode(Encode(data)) == Some(data)
  {
    hide EncodeChar, DecodeChar, First, Second, Third, Fourth, High, Middle, Low;
    if |data| > 0 {
      var x, y: Byte, z: Byte := data[0], if |data| > 1 then data[1] else 0, if |data| > 2 then data[2] else 0;
      BytesThroughSextets(x, y, z);
      CharRoundTrip(First(x), 'A');
      CharRoundTrip(Second(x, y), 'A');
      CharRoundTrip(Third(y, z), 'A');
      CharRoundTrip(Fourth(z), 'A');
      if |data| >= 3 {
        DecodeEncode(data[3..]);
        assert Encode(data)[4..] == Encode(data[3..]);
        assert data == [x, y, z] + data[3..];
      } else {
        assert data == if |data| == 1 then [x] else [x, y];
      }
    }
  }

  /** The decoder accepts exactly what the encoder writes. */
  lemma {:induction false} EncodeDecode(text: string)
    requires Decode(text).Some?
    ensures Encode(Decode(text).value) == text
  {
    hide EncodeChar, DecodeChar, First, Second, Third, Fourth, High, Middle, Low;
    if |text| > 0 {
      CharRoundTrip(0, text[0]);
      CharRoundTrip(0, text[1]);
      var a, b := DecodeChar(text[0]).value, DecodeChar(text[1]).value;
      if |text| == 2 {
        SextetsThroughBytes(a, b, 0, 0);
      } else {
        CharRoundTrip(0, text[2]);
        var c := DecodeChar(text[2]).value;
        if |text| == 3 {
          SextetsThroughBytes(a, b, c, 0);
        } else {
          CharRoundTrip(0, text[3]);
          SextetsThroughBytes(a, b, c, DecodeChar(text[3]).value);
          EncodeDecode(text[4..]);
          assert Decode(text).value[3..] == Decode(text[4..]).value;
          assert text == text[..4] + text[4..];
        }
      }
    }
  }

  lemma {:induction false} DecodedCharacters(text: string, i: nat)
    requires Decode(text).Some? && i < |text|
    ensures DecodeChar(text[i]).Some?
  {
    if i >= 4 {
      DecodedCharacters(text[4..], i - 4);
    }
  }

  lemma EncodedCharacters(data: seq<Byte>, i: nat)
    requires i < |Encode(data)|
    ensures DecodeChar(Encode(data)[i]).Some?
  {
    DecodeEncode(data);
    DecodedCharacters(Encode(data), i);
  }

  predicate Ascii(data: seq<Byte>) {
    forall k :: 0 <= k < |data| ==> data[k] < 128
  }

  lemma HyphenValue(v: Sextet)
    ensures EncodeChar(v) == '-' <==> v == 62
  {
  }

  /** A hyphen is 62; each of the first three sextets of a group has the zero top bit of a byte
      where 62 has a one. */
  lemma NoHyphenSextets(x: Byte, y: Byte, z: Byte)
    requires x < 128 && y < 128 && z < 128
    ensures First(x) != 62 && Second(x, y) != 62 && Third(y, z) != 62
  {
  }

  /** So bytes below 128 put a hyphen only into the last place of a group. */
  lemma {:induction false} HyphensAreApart(data: seq<Byte>, i: nat)
    requires Ascii(data) && i < |Encode(data)| && Encode(data)[i] == '-'
    ensures i % 4 == 3
  {
    hide EncodeChar, First, Second, Third, Fourth;
    if i >= 4 {
      HyphensAreApart(data[3..], i - 4);
    } else {
      var x, y: Byte, z: Byte := data[0], if |data| > 1 then data[1] else 0, if |data| > 2 then data[2] else 0;
      NoHyphenSextets(x, y, z);
      HyphenValue(First(x));
      HyphenValue(Second(x, y));
      HyphenValue(Third(y, z));
    }
  }

  /** The last character is a hyphen only when the last byte ends in the six bits of one. */
  lemma {:induction false} LastCharacter(data: seq<Byte>)
    requires |data| > 0 && Ascii(data) && data[|data| - 1] % 64 != 62
    ensures |Encode(data)| >= 2 && Encode(data)[|Encode(data)| - 1] != '-'
  {
    hide EncodeChar;
    if |data| > 3 {
      LastCharacter(data[3..]);
    } else if |data| == 3 {
      HyphenValue(Fourth(data[2]));
    } else if Encode(data)[|Encode(data)| - 1] == '-' {
      HyphensAreApart(data, |Encode(data)| - 1);
    }
  }

  lemma {:induction false} EncodedLength(data: seq<Byte>)
    ensures |Encode(data)| % 4 == if |data| % 3 == 0 then 0 else |data| % 3 + 1
  {
    hide EncodeChar, First, Second, Third, Fourth;
    if |data| >= 3 {
      EncodedLength(data[3..]);
      assert |Encode(data)| == 4 + |Encode(data[3..])|;
      assert |data| % 3 == |data[3..]| % 3;
    }
  }

  /** Without a rest, the last character is made of the last six bits. */
  lemma {:induction false} LastOfFullGroup(data: seq<Byte>)
    requires |data| > 0 && |data| % 3 == 0
    ensures |Encode(data)| > 0 && Encode(data)[|Encode(data)| - 1] == EncodeChar(Fourth(data[|data| - 1]))
  {
    hide EncodeChar, First, Second, Third, Fourth;
    var x, y, z := data[0], data[1], data[2];
    var group := [EncodeChar(First(x)), EncodeChar(Second(x, y)), EncodeChar(Third(y, z)), EncodeChar(Fourth(z))];
    assert Encode(data) == group + Encode(data[3..]);
    if |data| > 3 {
      LastOfFullGroup(data[3..]);
    }
  }

  /** The padded form: as many equals signs as fill the last group. */
  function EncodePadded(data: seq<Byte>): string {
    Encode(data) + (if |data| % 3 == 1 then "==" else if |data| % 3 == 2 then "=" else "")
  }

  /** The decoder of unpadded text takes no padding, and the other one takes it off. */
  lemma PaddedRoundTrip(data: seq<Byte>)
    ensures DecodePadded(EncodePadded(data)) == Some(data)
    ensures |data| % 3 != 0 ==> Decode(EncodePadded(data)) == None
  {
    hide Encode, Decode;
    var text, padded := Encode(data), EncodePadded(data);
    DecodeEncode(data);
    EncodedLength(data);
    if |data| % 3 != 0 {
      if Decode(padded).Some? {
        DecodedCharacters(padded, |padded| - 1);
      }
      if |data| % 3 == 1 {
        assert padded[|padded| - 2..] == "==" && padded[..|padded| - 2] == text;
      } else {
        NoPaddingInside(data);
        assert padded[|padded| - 1] == '=' && padded[..|padded| - 1] == text;
        assert padded[|padded| - 2..][0] == text[|text| - 1];
      }
    } else {
      assert padded == text;
      if |text| > 0 {
        NoPaddingInside(data);
        assert |text| >= 2 ==> text[|text| - 2..][1] == text[|text| - 1];
      }
    }
  }

  lemma NoPaddingInside(data: seq<Byte>)
    requires |Encode(data)| > 0
    ensures Encode(data)[|Encode(data)| - 1] != '='
  {
    EncodedCharacters(data, |Encode(data)| - 1);
  }

  // ---- The alphabet and the bits, in the terms of RFC 4648 ----

  /** Table 2 of section 5, eight characters to a row. */
  lemma AlphabetIs(v: Sextet)
    ensures EncodeChar(v) ==
      ["ABCDEFGH", "IJKLMNOP", "QRSTUVWX", "YZabcdef", "ghijklmn", "opqrstuv", "wxyz0123", "456789-_"][v / 8][v % 8]
  {
    match v / 8 {
      case 0 => assert "ABCDEFGH"[v % 8] == 'A' + v as char;
      case 1 => assert "IJKLMNOP"[v % 8] == 'A' + v as char;
      case 2 => assert "QRSTUVWX"[v % 8] == 'A' + v as char;
      case 3 => assert "YZabcdef"[v % 8] == if v < 26 then 'A' + v as char else 'a' + (v - 26) as char;
      case 4 => assert "ghijklmn"[v % 8] == 'a' + (v - 26) as char;
      case 5 => assert "opqrstuv"[v % 8] == 'a' + (v - 26) as char;
      case 6 => assert "wxyz0123"[v % 8] == if v < 52 then 'a' + (v - 26) as char else '0' + (v - 52) as char;
      case _ => assert "456789-_"[v % 8] == if v < 62 then '0' + (v - 52) as char else if v == 62 then '-' else '_';
    }
  }

  /** The four sextets of three bytes are the digits of the same 24-bit number, highest first. */
  lemma SameNumber(x: Byte, y: Byte, z: Byte)
    ensures
      x * 0x1_0000 + y * 0x100 + z
      == First(x) * 0x4_0000 + Second(x, y) * 0x1000 + Third(y, z) * 0x40 + Fourth(z)
  {
  }

  /** The test vectors of section 10. */
  lemma TestVectors()
    ensures Encode([]) == ""
    ensures Encode(['f' as int]) == "Zg"
    ensures Encode(['f' as int, 'o' as int]) == "Zm8"
    ensures Encode(['f' as int, 'o' as int, 'o' as int]) == "Zm9v"
    ensures Encode(['f' as int, 'o' as int, 'o' as int, 'b' as int, 'a' as int, 'r' as int]) == "Zm9vYmFy"
  {
    var foobar := ['f' as int, 'o' as int, 'o' as int, 'b' as int, 'a' as int, 'r' as int];
    assert foobar[3..] == ['b' as int, 'a' as int, 'r' as int];
    assert Encode(['b' as int, 'a' as int, 'r' as int]) == "YmFy";
  }
}
