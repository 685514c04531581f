/** Custom-server settings carried in the installer's file name: the generator of the name and
    the parser that reads the settings back. */
module CustomServers {
  import opened Base64Url
  import opened Prelude
  import opened Text

  datatype CustomServer = CustomServer(key: string, host: string, api: string, relay: string) {
    predicate Ascii() {
      AsciiText(key) && AsciiText(host) && AsciiText(api) && AsciiText(relay)
    }
  }

  predicate AsciiText(s: string) {
    forall i :: 0 <= i < |s| ==> s[i] as int < 128
  }

  // ---- The JSON text of a record ----

  function HexDigit(v: int): char
    requires 0 <= v < 16
  {
    if v < 10 then '0' + v as char else 'a' + (v - 10) as char
  }

  function EscapeChar(c: char): string {
    if c == '"' then "\\\""
    else if c == '\\' then "\\\\"
    else if c as int == 8 then "\\b"
    else if c == '\t' then "\\t"
    else if c == '\n' then "\\n"
    else if c as int == 12 then "\\f"
    else if c == '\r' then "\\r"
    else if c as int < 32 then "\\u00" + [HexDigit(c as int / 16), HexDigit(c as int % 16)]
    else [c]
  }

  function Escape(s: string): string {
    if s == "" then "" else EscapeChar(s[0]) + Escape(s[1..])
  }

  function Field(name: string, value: string): string {
    "\"" + name + "\":\"" + Escape(value) + "\""
  }

  function Json(r: CustomServer): string {
    "{" + Field("key", r.key) + "," + Field("host", r.host) + "," + Field("api", r.api) + "," + Field("relay", r.relay) + "}"
  }

  lemma {:induction false} EscapeIsAscii(s: string)
    requires AsciiText(s)
    ensures AsciiText(Escape(s))
  {
    if s != "" {
      EscapeIsAscii(s[1..]);
    }
  }

  lemma FieldIsAscii(name: string, value: string)
    requires AsciiText(name) && AsciiText(value)
    ensures AsciiText(Field(name, value))
  {
    EscapeIsAscii(value);
  }

  lemma JsonIsAscii(r: CustomServer)
    requires r.Ascii()
    ensures AsciiText(Json(r)) && |Json(r)| > 0 && Json(r)[|Json(r)| - 1] == '}'
  {
    hide Field;
    FieldIsAscii("key", r.key);
    FieldIsAscii("host", r.host);
    FieldIsAscii("api", r.api);
    FieldIsAscii("relay", r.relay);
  }

  function Bytes(s: string): (r: seq<Byte>)
    requires AsciiText(s)
    ensures |r| == |s| && Ascii(r)
    ensures forall i :: 0 <= i < |s| ==> r[i] == s[i] as int
  {
    seq(|s|, i requires 0 <= i < |s| => s[i] as int)
  }

  function JsonBytes(r: CustomServer): (data: seq<Byte>)
    requires r.Ascii()
    ensures |data| > 0 && Ascii(data) && data[|data| - 1] == '}' as int
  {
    JsonIsAscii(r);
    Bytes(Json(r))
  }

  /** The name that carries a record: its JSON in unpadded base64, backwards. */
  function GenName(r: CustomServer): string
    requires r.Ascii()
  {
    Reverse(Encode(JsonBytes(r)))
  }

  // ---- The parser ----

  /** The libraries the parser calls: the JSON reader and the check of a signed message, which
      yields the message. */
  datatype Library = Library(fromJson: seq<Byte> -> Option<CustomServer>, verify: seq<Byte> -> Option<seq<Byte>>) {
    /** The reader undoes the printer and takes no document that starts outside ASCII; a message
        too short to hold a signature does not verify. */
    ghost predicate Sound() {
      && (forall r: CustomServer | r.Ascii() :: fromJson(JsonBytes(r)) == Some(r))
      && (forall data: seq<Byte> :: |data| > 0 && data[0] >= 128 ==> fromJson(data) == None)
      && (forall data: seq<Byte> :: |data| < 64 ==> verify(data) == None)
    }
  }

  function FromConfigString(lib: Library, s: string): Option<CustomServer> {
    var text := Reverse(s);
    var decoded := if Decode(text).Some? then Decode(text) else DecodePadded(text);
    match decoded
    case None => None
    case Some(data) =>
      match lib.fromJson(data)
      case Some(r) => Some(r)
      case None =>
        match lib.verify(data)
        case None => None
        case Some(message) => lib.fromJson(message)
  }

  function StripExe(s: string): string {
    if EndsWith(Lower(s), ".exe.exe") then s[..|s| - 8]
    else if EndsWith(Lower(s), ".exe") then s[..|s| - 4]
    else s
  }

  /** The three spellings of the marker before a generated name, all reduced to the separator. */
  function Unlicense(s: string): string {
    Replace(Replace(Replace(s, "-licensed---", "--"), "-licensed--", "--"), "-licensed-", "--")
  }

  /** The text after a key in the last piece that starts with it, in any letter case. */
  function LastValue(pieces: seq<string>, key: string): string {
    if pieces == [] then ""
    else
      var last := pieces[|pieces| - 1];
      if StartsWith(Lower(last), key) then last[|key|..] else LastValue(pieces[..|pieces| - 1], key)
  }

  function Fields(pieces: seq<string>): CustomServer {
    CustomServer(LastValue(pieces, "key="), LastValue(pieces, "host="), LastValue(pieces, "api="), LastValue(pieces, "relay="))
  }

  /** The first piece that parses once trimmed. */
  function FirstParsed(lib: Library, pieces: seq<string>): Option<CustomServer> {
    if pieces == [] then None
    else if FromConfigString(lib, Trim(pieces[0])).Some? then FromConfigString(lib, Trim(pieces[0]))
    else FirstParsed(lib, pieces[1..])
  }

  function FromPiece(lib: Library, piece: string): Option<CustomServer> {
    if FromConfigString(lib, Trim(piece)).Some? then FromConfigString(lib, Trim(piece))
    else if Find(piece, "(").Some? then FirstParsed(lib, Split(piece, "("))
    else None
  }

  function FromPieces(lib: Library, pieces: seq<string>): Option<CustomServer> {
    if pieces == [] then None
    else if FromPiece(lib, pieces[0]).Some? then FromPiece(lib, pieces[0])
    else FromPieces(lib, pieces[1..])
  }

  function ParseName(lib: Library, name: string): Option<CustomServer> {
    var s := StripExe(name);
    match Find(Lower(s), "host=")
    case Some(i) => Some(Fields(Split(s[i..], ",")))
    case None => FromPieces(lib, Split(Unlicense(s), "--"))
  }

  /** The parser's loops: later fields overwrite earlier ones, and the first piece that parses wins. */
  method GetCustomServerFromString(lib: Library, name: string) returns (r: Option<CustomServer>)
    ensures r == ParseName(lib, name)
  {
    hide StripExe, Unlicense, FromConfigString, Trim, Find, Split, Lower;
    var s := StripExe(name);
    var start := Find(Lower(s), "host=");
    if start.Some? {
      var strs := Split(s[start.value..], ",");
      var host, key, api, relay := "", "", "", "";
      for i := 0 to |strs|
        invariant host == LastValue(strs[..i], "host=") && key == LastValue(strs[..i], "key=")
        invariant api == LastValue(strs[..i], "api=") && relay == LastValue(strs[..i], "relay=")
      {
        assert strs[..i + 1][..i] == strs[..i];
        var el, elLower := strs[i], Lower(strs[i]);
        if StartsWith(elLower, "host=") { host := el[5..]; }
        if StartsWith(elLower, "key=") { key := el[4..]; }
        if StartsWith(elLower, "api=") { api := el[4..]; }
        if StartsWith(elLower, "relay=") { relay := el[6..]; }
      }
      assert strs[..|strs|] == strs;
      return Some(CustomServer(key, host, api, relay));
    }
    var strs := Split(Unlicense(s), "--");
    for i := 0 to |strs|
      invariant FromPieces(lib, strs) == FromPieces(lib, strs[i..])
    {
      var el := strs[i];
      var lic := FromConfigString(lib, Trim(el));
      if lic.Some? {
        return lic;
      } else if Find(el, "(").Some? {
        var parts := Split(el, "(");
        for j := 0 to |parts|
          invariant FirstParsed(lib, parts) == FirstParsed(lib, parts[j..])
        {
          var inner := FromConfigString(lib, Trim(parts[j]));
          if inner.Some? {
            return inner;
          }
        }
      }
    }
    return None;
  }

  /** The last piece with a key decides its value. */
  lemma {:induction false} LastPieceDecides(pieces: seq<string>, key: string, i: nat)
    requires i < |pieces| && |pieces[i]| >= |key| && Lower(pieces[i])[..|key|] == key
    requires forall j :: i < j < |pieces| ==> !(|pieces[j]| >= |key| && Lower(pieces[j])[..|key|] == key)
    ensures LastValue(pieces, key) == pieces[i][|key|..]
    decreases |pieces|
  {
    if i < |pieces| - 1 {
      LastPieceDecides(pieces[..|pieces| - 1], key, i);
    }
  }

  lemma {:induction false} NoPieceNoValue(pieces: seq<string>, key: string)
    requires forall j :: 0 <= j < |pieces| ==> !(|pieces[j]| >= |key| && Lower(pieces[j])[..|key|] == key)
    ensures LastValue(pieces, key) == ""
  {
    if pieces != [] {
      NoPieceNoValue(pieces[..|pieces| - 1], key);
    }
  }

  /** The first piece that parses, as it is or in a part before or after a parenthesis, decides. */
  lemma {:induction false} FirstPieceDecides(lib: Library, pieces: seq<string>, i: nat)
    requires i < |pieces| && FromPiece(lib, pieces[i]).Some?
    requires forall j :: 0 <= j < i ==> FromPiece(lib, pieces[j]) == None
    ensures FromPieces(lib, pieces) == FromPiece(lib, pieces[i])
  {
    hide FromPiece;
    if i > 0 {
      FirstPieceDecides(lib, pieces[1..], i - 1);
    }
  }

  lemma {:induction false} NoPieceNoRecord(lib: Library, pieces: seq<string>)
    requires forall j :: 0 <= j < |pieces| ==> FromPiece(lib, pieces[j]) == None
    ensures FromPieces(lib, pieces) == None
  {
    hide FromPiece;
    if pieces != [] {
      NoPieceNoRecord(lib, pieces[1..]);
    }
  }

  // ---- Generated names parse back ----

  /** What a file manager puts before the extension of a second copy: nothing, or blanks and
      something in parentheses. */
  predicate CopyMark(tail: string) {
    || tail == ""
    || (AsciiText(tail) && Lacks(tail, '-') && Lacks(tail, '=') && Lacks(tail, '.')
        && exists n :: 0 <= n < |tail| && tail[n] == '(' && forall i :: 0 <= i < n ==> IsSpace(tail[i]))
  }

  /** The alphabet only, no hyphen in front, and hyphens at distances that are multiples of four. */
  predicate NameLike(name: string) {
    && |name| >= 2 && name[0] != '-'
    && (forall i :: 0 <= i < |name| ==> DecodeChar(name[i]).Some?)
    && (forall i :: 0 <= i < |name| && name[i] == '-' ==> (|name| - 1 - i) % 4 == 3)
    && (|name| % 4 == 0 ==> name[0] == '9')
  }

  lemma GeneratedIsNameLike(r: CustomServer)
    requires r.Ascii()
    ensures NameLike(GenName(r))
  {
    hide Encode, Json, NameLike;
    ReversedIsNameLike(JsonBytes(r));
  }

  lemma ReversedIsNameLike(data: seq<Byte>)
    requires |data| > 0 && Ascii(data) && data[|data| - 1] == '}' as int
    ensures NameLike(Reverse(Encode(data)))
  {
    hide Encode, DecodeChar;
    var name := Reverse(Encode(data));
    LastCharacter(data);
    EncodedLength(data);
    if |data| % 3 == 0 {
      LastOfFullGroup(data);
    }
    forall i | 0 <= i < |name|
      ensures DecodeChar(name[i]).Some?
      ensures name[i] == '-' ==> (|name| - 1 - i) % 4 == 3
    {
      EncodedCharacters(data, |name| - 1 - i);
      if name[i] == '-' {
        HyphensAreApart(data, |name| - 1 - i);
      }
    }
  }

  lemma NameLacks(name: string)
    requires NameLike(name)
    ensures |name| > 0 && Lacks(name, '.') && Lacks(name, '=') && Lacks(name, '(')
    ensures forall i :: 0 <= i < |name| ==> !IsSpace(name[i])
  {
  }

  lemma ExeEndings(low: string)
    requires !EndsWith(low, ".exe")
    ensures !EndsWith(low, ".exe.exe")
    ensures EndsWith(low + ".exe", ".exe") && !EndsWith(low + ".exe", ".exe.exe")
    ensures EndsWith(low + ".exe.exe", ".exe.exe")
  {
  }

  /** Stripping undoes adding the extension, once or twice and in any case. */
  lemma StripFrom(s: string, ext: string)
    requires !EndsWith(Lower(s), ".exe") && Lower(ext) in {"", ".exe", ".exe.exe"}
    ensures StripExe(s + ext) == s
  {
    hide Lower, EndsWith;
    ExeEndings(Lower(s));
    LowerAppend(s, ext);
    assert (s + ext)[..|s|] == s;
    assert Lower(s) + "" == Lower(s) && s + "" == s;
  }

  lemma LowerAppend(a: string, b: string)
    ensures Lower(a + b) == Lower(a) + Lower(b)
  {
  }

  lemma LacksDotNoExe(s: string)
    requires Lacks(s, '.')
    ensures !EndsWith(Lower(s), ".exe")
  {
    if |s| >= 4 {
      assert Lower(s)[|s| - 4..][0] == Lower(s)[|s| - 4] == LowerChar(s[|s| - 4]);
    }
  }

  /** The text after the marker: it starts with no hyphen, no two hyphens in it touch or are nine
      apart, and it does not continue as the marker would. */
  predicate RestLike(rest: string) {
    && |rest| > 0 && rest[0] != '-'
    && (forall i :: 0 <= i < |rest| - 1 ==> !(rest[i] == '-' && rest[i + 1] == '-'))
    && (forall i :: 0 <= i < |rest| - 9 ==> !(rest[i] == '-' && rest[i + 9] == '-'))
    && !(rest[0] == 'l' && |rest| > 8 && rest[8] == '-')
  }

  lemma RestIsLike(name: string, tail: string)
    requires NameLike(name) && Lacks(tail, '-')
    ensures RestLike(name + tail)
  {
  }

  lemma NoneToReplace(s: string, p: string, with: string)
    requires |p| > 0 && forall i :: !StandsAt(s, p, i)
    ensures Replace(s, p, with) == s && Split(s, p) == [s]
  {
  }

  lemma ReplaceFirst(first: string, p: string, rest: string, with: string)
    requires |p| > 0 && forall i :: 0 <= i < |first| ==> !StandsAt(first + p + rest, p, i)
    ensures Replace(first + p + rest, p, with) == first + with + Replace(rest, p, with)
  {
    var all := first + p + rest;
    assert all[|first|..|first| + |p|] == p;
    FindIs(all, p, |first|);
    assert all[..|first|] == first && all[|first| + |p|..] == rest;
  }

  /** Nothing that starts with a hyphen stands before the marker. */
  lemma NotInRustdesk(rest: string, p: string)
    requires |p| > 0 && p[0] == '-'
    ensures forall i :: 0 <= i < 8 ==> !StandsAt("rustdesk" + rest, p, i)
  {
    var all := "rustdesk" + rest;
    forall i | 0 <= i < 8
      ensures !StandsAt(all, p, i)
    {
      StandsIs(all, p, i);
      assert all[i] == "rustdesk"[i] != '-';
    }
  }

  lemma NoneInRest(rest: string, p: string)
    requires RestLike(rest) && p in {"-licensed-", "-licensed--", "-licensed---", "--"}
    ensures forall i :: !StandsAt(rest, p, i)
  {
    forall i
      ensures !StandsAt(rest, p, i)
    {
      StandsIs(rest, p, i);
      if p == "--" {
        assert p[0] == '-' && p[1] == '-';
      } else {
        assert p[0] == '-' && p[9] == '-';
      }
    }
  }

  lemma CharAt(s: string, p: string, i: int, k: nat)
    requires StandsAt(s, p, i) && k < |p|
    ensures 0 <= i && i + k < |s| && s[i + k] == p[k]
  {
    StandsIs(s, p, i);
  }

  /** With more hyphens than the marker has, a longer one does not stand there. */
  lemma NoLongerMarker(marker: string, rest: string, p: string)
    requires RestLike(rest)
    requires marker == "-licensed-" || marker == "-licensed--"
    requires p == "-licensed---" || (p == "-licensed--" && marker == "-licensed-")
    ensures forall i :: !StandsAt("rustdesk" + marker + rest, p, i)
  {
    hide StandsAt;
    var all := "rustdesk" + marker + rest;
    assert all == "rustdesk" + (marker + rest);
    NotInRustdesk(marker + rest, p);
    forall i
      ensures !StandsAt(all, p, i)
    {
      if StandsAt(all, p, i) && i >= 8 {
        CharAt(all, p, i, 9);
        CharAt(all, p, i, 10);
        CharAt(all, p, i, |p| - 1);
        LongerMarker(marker, rest, |p|, i - 8);
      }
      assert StandsAt(all, p, i) ==> i >= 0 by {
        if StandsAt(all, p, i) { CharAt(all, p, i, 0); }
      }
    }
  }

  /** Hyphens at places 9 and 10 from i on, and 11 for the longest marker, do not all occur. */
  lemma LongerMarker(marker: string, rest: string, length: nat, i: nat)
    requires RestLike(rest)
    requires marker == "-licensed-" || marker == "-licensed--"
    requires length == 12 || (length == 11 && marker == "-licensed-")
    requires i + length <= |marker + rest|
    ensures !((marker + rest)[i + 9] == '-' && (marker + rest)[i + 10] == '-' && (marker + rest)[i + length - 1] == '-')
  {
    var text, m := marker + rest, |marker|;
    assert text[m] == rest[0];
    if i + 9 >= m {
      assert text[i + 9] == rest[i + 9 - m] && text[i + 10] == rest[i + 10 - m];
    }
  }

  /** Reduced to the separator, nothing of a marker is left. */
  lemma NoMarkerLeft(rest: string, p: string)
    requires RestLike(rest) && (p == "-licensed-" || p == "-licensed--")
    ensures forall i :: !StandsAt("rustdesk" + "--" + rest, p, i)
  {
    hide StandsAt;
    var all := "rustdesk" + "--" + rest;
    assert all == "rustdesk" + ("--" + rest);
    NotInRustdesk("--" + rest, p);
    forall i
      ensures !StandsAt(all, p, i)
    {
      if StandsAt(all, p, i) {
        CharAt(all, p, i, 0);
        CharAt(all, p, i, 1);
        CharAt(all, p, i, 9);
        if i >= 8 {
          NotAfterSeparator(rest, i - 8);
        }
      }
    }
  }

  lemma NotAfterSeparator(rest: string, i: nat)
    requires RestLike(rest) && i + 9 < |"--" + rest|
    ensures !(("--" + rest)[i] == '-' && ("--" + rest)[i + 1] == 'l' && ("--" + rest)[i + 9] == '-')
  {
    var text := "--" + rest;
    assert text[1] == '-' && text[2] == rest[0];
    if i >= 2 {
      assert text[i] == rest[i - 2] && text[i + 9] == rest[i - 2 + 9];
    } else if i == 1 {
      assert text[i + 9] == rest[8];
    }
  }

  const MARKERS: set<string> := {"-licensed-", "-licensed--", "-licensed---"}

  /** Each of the three markers is reduced to the separator and nothing else changes. */
  lemma UnlicenseMarks(marker: string, rest: string)
    requires marker in MARKERS && RestLike(rest)
    ensures Unlicense("rustdesk" + marker + rest) == "rustdesk" + "--" + rest
  {
    hide Find, Replace, StandsAt, RestLike;
    var s := "rustdesk" + marker + rest;
    assert s == "rustdesk" + (marker + rest);
    NotInRustdesk(marker + rest, marker);
    NoneInRest(rest, marker);
    NoneToReplace(rest, marker, "--");
    ReplaceFirst("rustdesk", marker, rest, "--");
    if marker == "-licensed---" {
      NoMarkerLeft(rest, "-licensed--");
      NoneToReplace("rustdesk" + "--" + rest, "-licensed--", "--");
    } else {
      NoLongerMarker(marker, rest, "-licensed---");
      NoneToReplace(s, "-licensed---", "--");
      if marker == "-licensed-" {
        NoLongerMarker(marker, rest, "-licensed--");
        NoneToReplace(s, "-licensed--", "--");
      }
    }
    if marker != "-licensed-" {
      NoMarkerLeft(rest, "-licensed-");
      NoneToReplace("rustdesk" + "--" + rest, "-licensed-", "--");
    }
  }

  lemma UnlicenseCuts(marker: string, name: string, tail: string)
    requires marker in MARKERS && NameLike(name) && Lacks(tail, '-')
    ensures Split(Unlicense("rustdesk" + marker + name + tail), "--") == ["rustdesk", name + tail]
  {
    hide NameLike, Find, Split, StandsAt, Unlicense, RestLike;
    var rest := name + tail;
    RestIsLike(name, tail);
    assert "rustdesk" + marker + name + tail == "rustdesk" + marker + rest;
    UnlicenseMarks(marker, rest);
    assert "rustdesk" + "--" + rest == "rustdesk" + ("--" + rest);
    NotInRustdesk("--" + rest, "--");
    SplitFirst("rustdesk", "--", rest);
    NoneInRest(rest, "--");
    NoneToReplace(rest, "--", "");
  }

  /** The word before the marker decodes to six bytes that are neither JSON nor signed. */
  lemma RustdeskIsRejected(lib: Library)
    requires lib.Sound()
    ensures FromPiece(lib, "rustdesk") == None
  {
    hide Decode;
    assert Trim("rustdesk") == "rustdesk";
    assert Reverse("rustdesk") == "ksedtsur";
    RustdeskDecodes();
    forall i
      ensures !StandsAt("rustdesk", "(", i)
    {
      StandsIs("rustdesk", "(", i);
      assert "("[0] == '(';
    }
  }

  lemma RustdeskDecodes()
    ensures Decode("ksedtsur").Some? && |Decode("ksedtsur").value| == 6 && Decode("ksedtsur").value[0] == 146
  {
  }

  lemma GeneratedParsesBack(lib: Library, r: CustomServer)
    requires lib.Sound() && r.Ascii()
    ensures FromConfigString(lib, GenName(r)) == Some(r)
  {
    ReverseTwice(Encode(JsonBytes(r)));
    DecodeEncode(JsonBytes(r));
  }

  /** Text with a parenthesis in it is not base64, so a copy mark makes the whole piece fail. */
  lemma ParenthesisFails(lib: Library, s: string, n: nat)
    requires n < |s| && s[n] == '('
    ensures FromConfigString(lib, s) == None
  {
    var text := Reverse(s);
    var at := |s| - 1 - n;
    if Decode(text).Some? {
      DecodedCharacters(text, at);
    }
    if DecodePadded(text).Some? {
      PaddedCharacters(text, at);
    }
  }

  lemma PaddedCharacters(text: string, i: nat)
    requires DecodePadded(text).Some? && i < |text|
    ensures DecodeChar(text[i]).Some? || text[i] == '='
  {
    if |text| >= 2 && text[|text| - 2..] == "==" {
      assert text[|text| - 2..][0] == text[|text| - 2] && text[|text| - 2..][1] == text[|text| - 1];
      if i < |text| - 2 { DecodedCharacters(text[..|text| - 2], i); }
    } else if text[|text| - 1] == '=' {
      if i < |text| - 1 { DecodedCharacters(text[..|text| - 1], i); }
    } else {
      DecodedCharacters(text, i);
    }
  }

  lemma LacksNoKey(s: string)
    requires Lacks(s, '=')
    ensures Find(Lower(s), "host=") == None
  {
    var lower := Lower(s);
    assert "host="[4] == '=';
    forall i
      ensures !StandsAt(lower, "host=", i)
    {
      StandsIs(lower, "host=", i);
    }
  }

  /** A piece that is a generated name, with or without a copy mark, parses to its record. */
  lemma MarkedPieceParses(lib: Library, r: CustomServer, tail: string)
    requires lib.Sound() && r.Ascii() && CopyMark(tail)
    ensures FromPiece(lib, GenName(r) + tail) == Some(r)
  {
    hide Library.Sound, CustomServer.Ascii, FromConfigString, GenName, Split, Find, Trim, NameLike;
    var name := GenName(r);
    GeneratedIsNameLike(r);
    NameLacks(name);
    GeneratedParsesBack(lib, r);
    if tail == "" {
      TrimTrailing(name, "");
      assert name + "" == name;
    } else {
      var n :| 0 <= n < |tail| && tail[n] == '(' && forall i :: 0 <= i < n ==> IsSpace(tail[i]);
      assert name + tail == name + tail[..n] + "(" + tail[n + 1..];
      CopiedPieceParses(lib, name, tail[..n], tail[n + 1..]);
    }
  }

  lemma CopiedPieceParses(lib: Library, name: string, spaces: string, rest: string)
    requires |name| > 0 && Lacks(name, '(') && forall i :: 0 <= i < |name| ==> !IsSpace(name[i])
    requires forall i :: 0 <= i < |spaces| ==> IsSpace(spaces[i])
    requires FromConfigString(lib, name).Some?
    ensures FromPiece(lib, name + spaces + "(" + rest) == FromConfigString(lib, name)
  {
    hide FromConfigString, Split, Find, Trim, StandsAt;
    var first := name + spaces;
    var piece := first + "(" + rest;
    TrimTrailing(name, spaces);
    var k := TrimKeepsParenthesis(piece, |first|);
    ParenthesisFails(lib, Trim(piece), k);
    forall i | 0 <= i < |first|
      ensures !StandsAt(piece, "(", i)
    {
      StandsIs(piece, "(", i);
      assert "("[0] == '(' && piece[i] == first[i];
    }
    SplitFirst(first, "(", rest);
    StandsIs(piece, "(", |first|);
  }

  lemma TrimKeepsParenthesis(s: string, n: nat) returns (k: nat)
    requires n < |s| && s[n] == '('
    ensures k < |Trim(s)| && Trim(s)[k] == '('
  {
    k := TrimStartKeeps(s, n);
    k := TrimEndKeeps(TrimStart(s), k);
  }

  lemma {:induction false} TrimStartKeeps(s: string, n: nat) returns (k: nat)
    requires n < |s| && s[n] == '('
    ensures k < |TrimStart(s)| && TrimStart(s)[k] == '('
  {
    if IsSpace(s[0]) {
      k := TrimStartKeeps(s[1..], n - 1);
    } else {
      k := n;
    }
  }

  lemma {:induction false} TrimEndKeeps(s: string, n: nat) returns (k: nat)
    requires n < |s| && s[n] == '('
    ensures k < |TrimEnd(s)| && TrimEnd(s)[k] == '('
  {
    if IsSpace(s[|s| - 1]) {
      k := TrimEndKeeps(s[..|s| - 1], n);
    } else {
      k := n;
    }
  }

  lemma MarkedNameLacks(marker: string, name: string, tail: string)
    requires marker in MARKERS && Lacks(name, '.') && Lacks(name, '=') && CopyMark(tail)
    ensures Lacks("rustdesk" + marker + name + tail, '.') && Lacks("rustdesk" + marker + name + tail, '=') && Lacks(tail, '-')
  {
  }

  lemma SecondPiece(lib: Library, a: string, b: string)
    requires FromPiece(lib, a) == None
    ensures FromPieces(lib, [a, b]) == FromPiece(lib, b)
  {
    hide FromPiece;
    assert [a, b][1..] == [b] && [b][1..] == [];
    assert FromPieces(lib, [b]) == FromPiece(lib, b);
  }

  /** Every ASCII record put into a file name comes back out of it, behind each of the three markers,
      also from a copy of the file and with the extension in any case, twice, or missing. */
  lemma GeneratedNameRoundTrip(lib: Library, r: CustomServer, marker: string, tail: string, ext: string)
    requires lib.Sound() && r.Ascii() && CopyMark(tail) && Lower(ext) in {"", ".exe", ".exe.exe"}
    requires marker in {"-licensed-", "-licensed--", "-licensed---"}
    ensures ParseName(lib, "rustdesk" + marker + GenName(r) + tail + ext) == Some(r)
  {
    hide Library.Sound, CustomServer.Ascii, GenName, FromPiece, FromPieces, Unlicense, Split, Find, StripExe, NameLike,
      Lower, Lacks, CopyMark, EndsWith;
    var s := "rustdesk" + marker + GenName(r) + tail;
    GeneratedIsNameLike(r);
    NameLacks(GenName(r));
    MarkedNameLacks(marker, GenName(r), tail);
    LacksDotNoExe(s);
    StripFrom(s, ext);
    LacksNoKey(s);
    UnlicenseCuts(marker, GenName(r), tail);
    RustdeskIsRejected(lib);
    MarkedPieceParses(lib, r, tail);
    SecondPiece(lib, "rustdesk", GenName(r) + tail);
  }

  // ---- The other texts that carry a record ----

  /** A record also comes back from padded base64. */
  lemma PaddedParsesBack(lib: Library, r: CustomServer)
    requires lib.Sound() && r.Ascii()
    ensures FromConfigString(lib, Reverse(EncodePadded(JsonBytes(r)))) == Some(r)
  {
    hide Library.Sound, Encode, Decode, DecodePadded, Json;
    var data := JsonBytes(r);
    ReverseTwice(EncodePadded(data));
    PaddedRoundTrip(data);
    DecodeEncode(data);
    assert Encode(data) + "" == Encode(data);
    SoundReads(lib, r);
  }

  lemma SoundReads(lib: Library, r: CustomServer)
    requires lib.Sound() && r.Ascii()
    ensures lib.fromJson(JsonBytes(r)) == Some(r)
  {
    hide Json;
  }

  /** And from a signed message, when the signature holds and the message before it is its JSON. */
  lemma SignedParsesBack(lib: Library, r: CustomServer, signed: seq<Byte>)
    requires lib.Sound() && r.Ascii()
    requires lib.fromJson(signed) == None && lib.verify(signed) == Some(JsonBytes(r))
    ensures FromConfigString(lib, Reverse(Encode(signed))) == Some(r)
    ensures FromConfigString(lib, Reverse(EncodePadded(signed))) == Some(r)
  {
    hide Library.Sound, Encode, Decode, DecodePadded, Json;
    ReverseTwice(Encode(signed));
    ReverseTwice(EncodePadded(signed));
    DecodeEncode(signed);
    PaddedRoundTrip(signed);
    assert Encode(signed) + "" == Encode(signed);
    SoundReads(lib, r);
  }

  /** Neither reading is tried the other way round: text that decodes but is neither JSON nor signed
      carries nothing, and so does text that does not decode. */
  lemma NothingElseParses(lib: Library, s: string)
    ensures Decode(Reverse(s)) == None && DecodePadded(Reverse(s)) == None ==> FromConfigString(lib, s) == None
    ensures forall data: seq<Byte> ::
      Decode(Reverse(s)) == Some(data) && lib.fromJson(data) == None && lib.verify(data) == None ==>
        FromConfigString(lib, s) == None
  {
  }

  // ---- Plain fields parse back ----

  predicate Known(piece: string) {
    || StartsWith(Lower(piece), "host=") || StartsWith(Lower(piece), "key=")
    || StartsWith(Lower(piece), "api=") || StartsWith(Lower(piece), "relay=")
  }

  /** The keys of the four fields, written in any letter case. */
  datatype Keys = Keys(host: string, key: string, api: string, relay: string) {
    predicate Valid() {
      Lower(host) == "host=" && Lower(key) == "key=" && Lower(api) == "api=" && Lower(relay) == "relay="
    }
  }

  function FieldText(keys: Keys, r: CustomServer, junk: string): string {
    (keys.host + r.host) + "," + ((keys.key + r.key) + "," + ((keys.api + r.api) + "," + ((keys.relay + r.relay) + "," + junk)))
  }

  /** The same text seen from its two ends: after the first key, and before the junk. */
  function AfterHostKey(keys: Keys, r: CustomServer, junk: string): string {
    r.host + "," + ((keys.key + r.key) + "," + ((keys.api + r.api) + "," + ((keys.relay + r.relay) + "," + junk)))
  }

  function BeforeJunk(keys: Keys, r: CustomServer): string {
    keys.host + r.host + "," + keys.key + r.key + "," + keys.api + r.api + "," + keys.relay + r.relay
  }

  lemma FieldTextEnds(before: string, keys: Keys, r: CustomServer, junk: string)
    ensures before + FieldText(keys, r, junk) == before + keys.host + AfterHostKey(keys, r, junk)
    ensures before + FieldText(keys, r, junk) == (before + BeforeJunk(keys, r)) + "," + junk
  {
  }

  predicate CommaFree(r: CustomServer) {
    Lacks(r.key, ',') && Lacks(r.host, ',') && Lacks(r.api, ',') && Lacks(r.relay, ',')
  }

  lemma SplitAtComma(first: string, rest: string)
    requires Lacks(first, ',')
    ensures Split(first + "," + rest, ",") == [first] + Split(rest, ",")
  {
    var all := first + "," + rest;
    forall i | 0 <= i < |first|
      ensures !StandsAt(all, ",", i)
    {
      StandsIs(all, ",", i);
      assert ","[0] == ',' && all[i] == first[i];
    }
    SplitFirst(first, ",", rest);
  }

  lemma KeyedLacksComma(key: string, name: string, value: string)
    requires Lower(key) == name && Lacks(name, ',') && Lacks(value, ',')
    ensures Lacks(key + value, ',')
  {
  }

  lemma FieldTextSplits(keys: Keys, r: CustomServer, junk: string)
    requires keys.Valid() && CommaFree(r)
    ensures Split(FieldText(keys, r, junk), ",")
      == [keys.host + r.host, keys.key + r.key, keys.api + r.api, keys.relay + r.relay] + Split(junk, ",")
  {
    hide Split, Lower;
    KeyedLacksComma(keys.host, "host=", r.host);
    KeyedLacksComma(keys.key, "key=", r.key);
    KeyedLacksComma(keys.api, "api=", r.api);
    KeyedLacksComma(keys.relay, "relay=", r.relay);
    SplitAtComma(keys.relay + r.relay, junk);
    var three := (keys.relay + r.relay) + "," + junk;
    SplitAtComma(keys.api + r.api, three);
    var two := (keys.api + r.api) + "," + three;
    SplitAtComma(keys.key + r.key, two);
    SplitAtComma(keys.host + r.host, (keys.key + r.key) + "," + two);
  }

  /** A keyed piece carries its own key and none that starts with another letter. */
  lemma KeyedPiece(key: string, name: string, value: string)
    requires Lower(key) == name && |name| > 0
    ensures StartsWith(Lower(key + value), name) && (key + value)[|name|..] == value
    ensures forall other: string :: |other| > 0 && other[0] != name[0] ==> !StartsWith(Lower(key + value), other)
  {
  }

  lemma {:induction false} JunkIsIgnored(pieces: seq<string>, junk: seq<string>, name: string)
    requires name in {"host=", "key=", "api=", "relay="}
    requires forall i :: 0 <= i < |junk| ==> !Known(junk[i])
    ensures LastValue(pieces + junk, name) == LastValue(pieces, name)
  {
    if junk == [] {
      assert pieces + junk == pieces;
    } else {
      var all := pieces + junk;
      assert all[..|all| - 1] == pieces + junk[..|junk| - 1];
      assert all[|all| - 1] == junk[|junk| - 1];
      JunkIsIgnored(pieces, junk[..|junk| - 1], name);
    }
  }

  lemma LastOf(pieces: seq<string>, piece: string, name: string)
    requires |name| > 0
    ensures StartsWith(Lower(piece), name) ==> LastValue(pieces + [piece], name) == piece[|name|..]
    ensures !StartsWith(Lower(piece), name) ==> LastValue(pieces + [piece], name) == LastValue(pieces, name)
  {
  }

  lemma FieldsOfPieces(keys: Keys, r: CustomServer)
    requires keys.Valid()
    ensures Fields([keys.host + r.host, keys.key + r.key, keys.api + r.api, keys.relay + r.relay]) == r
  {
    hide LastValue, StartsWith, Lower;
    var h, k, a, l := keys.host + r.host, keys.key + r.key, keys.api + r.api, keys.relay + r.relay;
    KeyedPiece(keys.host, "host=", r.host);
    KeyedPiece(keys.key, "key=", r.key);
    KeyedPiece(keys.api, "api=", r.api);
    KeyedPiece(keys.relay, "relay=", r.relay);
    forall name | name in {"host=", "key=", "api=", "relay="}
      ensures LastValue([h, k, a, l], name) ==
        if name == "host=" then r.host else if name == "key=" then r.key else if name == "api=" then r.api else r.relay
    {
      assert [] + [h] == [h] && [h] + [k] == [h, k] && [h, k] + [a] == [h, k, a] && [h, k, a] + [l] == [h, k, a, l];
      LastOf([], h, name);
      LastOf([h], k, name);
      LastOf([h, k], a, name);
      LastOf([h, k, a], l, name);
    }
  }

  /** The first key of the text is where the fields begin: it cannot overlap what comes before. */
  lemma FieldsBegin(before: string, host: string, rest: string)
    requires Find(Lower(before), "host=") == None && Lower(host) == "host="
    ensures Find(Lower(before + host + rest), "host=") == Some(|before|)
  {
    var all, head, p := Lower(before + host + rest), Lower(before), "host=";
    LowerAppend(before + host, rest);
    LowerAppend(before, host);
    assert p[0] == 'h' && forall k :: 1 <= k < 5 ==> p[k] != 'h';
    forall i | 0 <= i < |before|
      ensures !StandsAt(all, p, i)
    {
      StandsIs(all, p, i);
      StandsIs(head, p, i);
      assert all[|before|] == p[0];
      assert forall k :: 0 <= k < |before| ==> all[k] == head[k];
      assert |before| - i < 5 ==> p[|before| - i] == all[i + (|before| - i)] || !StandsAt(all, p, i);
    }
    assert all[|before|..|before| + 5] == p;
    FindIs(all, p, |before|);
  }

  lemma FieldTextNoExe(before: string, junk: string)
    requires !EndsWith(Lower(junk), ".exe")
    ensures !EndsWith(Lower(before + "," + junk), ".exe")
  {
    var all := Lower(before + "," + junk);
    LowerAppend(before + ",", junk);
    if |all| >= 4 {
      var last := all[|all| - 4..];
      if |junk| >= 4 {
        assert last == Lower(junk)[|junk| - 4..];
      } else {
        assert last[3 - |junk|] == all[|before|] == ',';
        assert forall k :: 0 <= k < 4 ==> ".exe"[k] != ',';
      }
    }
  }

  /** Comma-free ASCII fields written out in a file name are read back, whatever stands before the first
      key and, as long as it does not look like a field or an extension, after the last. */
  lemma FieldNameRoundTrip(lib: Library, before: string, keys: Keys, r: CustomServer, junk: string, ext: string)
    requires AsciiText(before) && r.Ascii() && AsciiText(junk) && AsciiText(ext)
    requires keys.Valid() && CommaFree(r) && Find(Lower(before), "host=") == None
    requires forall piece | piece in Split(junk, ",") :: !Known(piece)
    requires !EndsWith(Lower(junk), ".exe") && Lower(ext) in {"", ".exe", ".exe.exe"}
    ensures ParseName(lib, before + FieldText(keys, r, junk) + ext) == Some(r)
  {
    hide Lower, Find, Split, Known, LastValue, EndsWith, StripExe, CommaFree, FieldText, AfterHostKey, BeforeJunk;
    var fields := FieldText(keys, r, junk);
    var s := before + fields;
    FieldTextEnds(before, keys, r, junk);
    FieldTextNoExe(before + BeforeJunk(keys, r), junk);
    StripFrom(s, ext);
    FieldsBegin(before, keys.host, AfterHostKey(keys, r, junk));
    assert s[|before|..] == fields;
    FieldTextSplits(keys, r, junk);
    FieldsOfPieces(keys, r);
    var pieces := [keys.host + r.host, keys.key + r.key, keys.api + r.api, keys.relay + r.relay];
    JunkIsIgnored(pieces, Split(junk, ","), "host=");
    JunkIsIgnored(pieces, Split(junk, ","), "key=");
    JunkIsIgnored(pieces, Split(junk, ","), "api=");
    JunkIsIgnored(pieces, Split(junk, ","), "relay=");
  }

  // ---- A reader and a signature check as assumed exist ----

  /** Escaping a character leaves no quote in front, and the rest of the text shows where it ends. */
  lemma EscapedCharacter(c: char, d: char, x: string, y: string)
    requires EscapeChar(c) + x == EscapeChar(d) + y
    ensures c == d && x == y
  {
    var left, right := EscapeChar(c) + x, EscapeChar(d) + y;
    assert left[0] == EscapeChar(c)[0] && right[0] == EscapeChar(d)[0];
    if |EscapeChar(c)| > 1 {
      assert left[1] == EscapeChar(c)[1] && right[1] == EscapeChar(d)[1];
      if EscapeChar(c)[1] == 'u' {
        assert left[4] == EscapeChar(c)[4] && right[4] == EscapeChar(d)[4];
        assert left[5] == EscapeChar(c)[5] && right[5] == EscapeChar(d)[5];
        HexDigitsDiffer(c as int / 16, d as int / 16);
        HexDigitsDiffer(c as int % 16, d as int % 16);
      }
    }
    assert c == d;
    assert x == left[|EscapeChar(c)|..] == y;
  }

  lemma HexDigitsDiffer(v: int, w: int)
    requires 0 <= v < 16 && 0 <= w < 16 && HexDigit(v) == HexDigit(w)
    ensures v == w
  {
  }

  lemma {:induction false} EscapedText(a: string, b: string, x: string, y: string)
    requires Escape(a) + "\"" + x == Escape(b) + "\"" + y
    ensures a == b && x == y
    decreases |a|
  {
    hide EscapeChar;
    QuoteEscaped(a, x);
    QuoteEscaped(b, y);
    if a != "" && b != "" {
      var restA, restB := Escape(a[1..]) + "\"" + x, Escape(b[1..]) + "\"" + y;
      assert Escape(a) + "\"" + x == EscapeChar(a[0]) + restA;
      assert Escape(b) + "\"" + y == EscapeChar(b[0]) + restB;
      EscapedCharacter(a[0], b[0], restA, restB);
      EscapedText(a[1..], b[1..], x, y);
    } else {
      assert (Escape(a) + "\"" + x)[1..] == x && (Escape(b) + "\"" + y)[1..] == y;
    }
  }

  lemma QuoteEscaped(s: string, x: string)
    ensures (Escape(s) + "\"" + x)[0] == '"' <==> s == ""
  {
    if s != "" {
      assert (Escape(s) + "\"" + x)[0] == EscapeChar(s[0])[0];
    }
  }

  lemma FieldFirst(name: string, a: string, b: string, x: string, y: string)
    requires Field(name, a) + x == Field(name, b) + y
    ensures a == b && x == y
  {
    var head := "\"" + name + "\":\"";
    var restA, restB := Escape(a) + "\"" + x, Escape(b) + "\"" + y;
    assert Field(name, a) + x == head + restA && Field(name, b) + y == head + restB;
    assert (head + restA)[|head|..] == restA && (head + restB)[|head|..] == restB;
    EscapedText(a, b, x, y);
  }

  /** Two records with one JSON text are the same record. */
  lemma JsonIsInjective(a: CustomServer, b: CustomServer)
    requires Json(a) == Json(b)
    ensures a == b
  {
    hide Field;
    var relayA, relayB := Field("relay", a.relay) + "}", Field("relay", b.relay) + "}";
    var apiA, apiB := Field("api", a.api) + ("," + relayA), Field("api", b.api) + ("," + relayB);
    var hostA, hostB := Field("host", a.host) + ("," + apiA), Field("host", b.host) + ("," + apiB);
    var keyA, keyB := Field("key", a.key) + ("," + hostA), Field("key", b.key) + ("," + hostB);
    assert Json(a) == "{" + keyA && Json(b) == "{" + keyB;
    AfterPrefix("{", keyA, keyB);
    FieldFirst("key", a.key, b.key, "," + hostA, "," + hostB);
    AfterPrefix(",", hostA, hostB);
    FieldFirst("host", a.host, b.host, "," + apiA, "," + apiB);
    AfterPrefix(",", apiA, apiB);
    FieldFirst("api", a.api, b.api, "," + relayA, "," + relayB);
    AfterPrefix(",", relayA, relayB);
    FieldFirst("relay", a.relay, b.relay, "}", "}");
  }

  lemma AfterPrefix(p: string, x: string, y: string)
    requires p + x == p + y
    ensures x == y
  {
    assert (p + x)[|p|..] == x && (p + y)[|p|..] == y;
  }

  /** So a reader and a signature check as assumed do exist. */
  lemma SoundLibraryExists() returns (lib: Library)
    ensures lib.Sound()
  {
    hide Json, JsonBytes;
    lib := Library((data: seq<Byte>) => ReadBack(data), (data: seq<Byte>) => None);
    forall r: CustomServer | r.Ascii()
      ensures ReadBack(JsonBytes(r)) == Some(r)
    {
      JsonBytesAreInjective(r);
    }
    JsonStartsInAscii();
  }

  /** The record whose JSON the bytes are, if there is one. */
  ghost function ReadBack(data: seq<Byte>): Option<CustomServer> {
    if r: CustomServer :| r.Ascii() && JsonBytes(r) == data then Some(r) else None
  }

  lemma JsonBytesAreInjective(r: CustomServer)
    requires r.Ascii()
    ensures forall other: CustomServer | other.Ascii() && JsonBytes(other) == JsonBytes(r) :: other == r
  {
    hide Json;
    forall other: CustomServer | other.Ascii() && JsonBytes(other) == JsonBytes(r)
      ensures other == r
    {
      JsonIsAscii(r);
      JsonIsAscii(other);
      assert forall i :: 0 <= i < |Json(r)| ==> JsonBytes(r)[i] == Json(r)[i] as int;
      assert forall i :: 0 <= i < |Json(other)| ==> JsonBytes(other)[i] == Json(other)[i] as int;
      assert |Json(r)| == |JsonBytes(r)| == |Json(other)|;
      assert forall i :: 0 <= i < |Json(r)| ==> Json(r)[i] as int == JsonBytes(r)[i] == Json(other)[i] as int;
      assert Json(r) == Json(other);
      JsonIsInjective(other, r);
    }
  }

  lemma JsonStartsInAscii()
    ensures forall data: seq<Byte> :: |data| > 0 && data[0] >= 128 ==> ReadBack(data) == None
  {
    hide JsonBytes;
  }
}
