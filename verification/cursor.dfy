/** The pagination cursor codec of src/lib/cursor.ts: base64url (section 5 of
    RFC 4648: the alphabet of section 4 with `-` and `_` in place of `+` and
    `/`, padding left off as section 3.2 allows) over the UTF-8 bytes of a JSON
    text. UTF-8 conversion (`TextEncoder`, `TextDecoder`, `Buffer`) and
    `JSON.stringify`/`JSON.parse` are parameters. */
module Cursor {
  import opened Wrappers

  type byte = x: int | 0 <= x < 256
  type sextet = x: int | 0 <= x < 64

  // ---------------------------------------------------------------------------
  // The base64 alphabet (Table 1 of RFC 4648)

  function Alpha(v: sextet): char {
    if v < 26 then ('A' as int + v) as char
    else if v < 52 then ('a' as int + (v - 26)) as char
    else if v < 62 then ('0' as int + (v - 52)) as char
    else if v == 62 then '+'
    else '/'
  }

  /** The value of an alphabet character, `None` for any other character. */
  function SextetOf(c: char): Option<sextet> {
    if 'A' <= c <= 'Z' then Some(c as int - 'A' as int)
    else if 'a' <= c <= 'z' then Some(c as int - 'a' as int + 26)
    else if '0' <= c <= '9' then Some(c as int - '0' as int + 52)
    else if c == '+' then Some(62)
    else if c == '/' then Some(63)
    else None
  }

  /** Reading a character back gives the value it encodes; no alphabet
      character is `=`, `-` or `_`. */
  lemma AlphaInverse(v: sextet)
    ensures SextetOf(Alpha(v)) == Some(v)
    ensures Alpha(v) != '=' && Alpha(v) != '-' && Alpha(v) != '_'
  {
  }

  // ---------------------------------------------------------------------------
  // Encoding (section 4 of RFC 4648)

  /** The 6-bit groups of the input, 24 bits at a time; a final group of one
      or two bytes gives two or three values, its missing bits zero. */
  function Sextets(b: seq<byte>): seq<sextet> {
    if |b| == 0 then []
    else if |b| == 1 then [Split0(b[0]), Split1(b[0], 0)]
    else if |b| == 2 then [Split0(b[0]), Split1(b[0], b[1]), Split2(b[1], 0)]
    else [Split0(b[0]), Split1(b[0], b[1]), Split2(b[1], b[2]), Split3(b[2])] + Sextets(b[3..])
  }

  /** Four characters per three bytes, and two or three for a final one or
      two; so the count is never 1 modulo 4, and it is 0 only for no bytes. */
  lemma {:induction false} SextetsLength(b: seq<byte>)
    ensures |Sextets(b)| % 4 == (if |b| % 3 == 0 then 0 else |b| % 3 + 1)
    ensures |Sextets(b)| == 0 <==> b == []
    decreases |b|
  {
    if |b| >= 3 {
      var n := |Sextets(b[3..])|;
      var m := |b[3..]|;
      SextetsLength(b[3..]);
      LengthStep(n, m);
      assert |Sextets(b)| == n + 4;
      assert |b| == m + 3;
    }
  }

  /** One more full group adds 4 characters and 3 bytes, which keeps the
      relation between the two remainders. */
  lemma LengthStep(n: nat, m: nat)
    requires n % 4 == (if m % 3 == 0 then 0 else m % 3 + 1)
    ensures (n + 4) % 4 == (if (m + 3) % 3 == 0 then 0 else (m + 3) % 3 + 1)
  {
    assert (n + 4) % 4 == n % 4;
    assert (m + 3) % 3 == m % 3;
  }

  /** The four 6-bit values of a 24-bit group, from its bytes. */
  function Split0(b0: byte): sextet { b0 / 4 }
  function Split1(b0: byte, b1: byte): sextet { (b0 % 4) * 16 + b1 / 16 }
  function Split2(b1: byte, b2: byte): sextet { (b1 % 16) * 4 + b2 / 64 }
  function Split3(b2: byte): sextet { b2 % 64 }

  /** The encoded characters before the padding. */
  function Body(b: seq<byte>): (r: string)
    ensures |r| == |Sextets(b)|
    ensures forall i :: 0 <= i < |r| ==> r[i] == Alpha(Sextets(b)[i])
  {
    var v := Sextets(b);
    seq(|v|, i requires 0 <= i < |v| => Alpha(v[i]))
  }

  /** `n` copies of `=` */
  function Equals(n: nat): (r: string)
    ensures |r| == n && forall i :: 0 <= i < n ==> r[i] == '='
  {
    if n == 0 then [] else Equals(n - 1) + ['=']
  }

  /** The padded base64 text of the bytes (`Buffer#toString("base64")`, `btoa`). */
  function EncodeStd(b: seq<byte>): string {
    Body(b) + Equals(if |b| % 3 == 0 then 0 else 3 - |b| % 3)
  }

  // ---------------------------------------------------------------------------
  // Decoding (`atob`: the forgiving base64 decode of the HTML standard)

  /** The bytes of a sequence of 6-bit values whose length is not 1 modulo 4;
      leftover bits of a final partial group are dropped. */
  function DecodeSextets(v: seq<sextet>): seq<byte>
    requires |v| % 4 != 1
  {
    if |v| == 0 then []
    else if |v| == 2 then [Join0(v[0], v[1])]
    else if |v| == 3 then [Join0(v[0], v[1]), Join1(v[1], v[2])]
    else [Join0(v[0], v[1]), Join1(v[1], v[2]), Join2(v[2], v[3])] + DecodeSextets(v[4..])
  }

  /** The three bytes of a 24-bit group, from its 6-bit values. */
  function Join0(v0: sextet, v1: sextet): byte { v0 * 4 + v1 / 16 }
  function Join1(v1: sextet, v2: sextet): byte { (v1 % 16) * 16 + v2 / 4 }
  function Join2(v2: sextet, v3: sextet): byte { (v2 % 4) * 64 + v3 }

  predicate IsAsciiWhitespace(c: char) {
    c == '\t' || c == '\n' || c == '\U{000C}' || c == '\r' || c == ' '
  }

  function RemoveWhitespace(s: string): (r: string)
    ensures |r| <= |s|
  {
    if s == [] then []
    else (if IsAsciiWhitespace(s[0]) then [] else [s[0]]) + RemoveWhitespace(s[1..])
  }

  predicate AllAlpha(s: string) {
    forall i :: 0 <= i < |s| ==> SextetOf(s[i]).Some?
  }

  /** The values of a text of alphabet characters. */
  function Values(s: string): (r: seq<sextet>)
    requires AllAlpha(s)
    ensures |r| == |s|
    ensures forall i :: 0 <= i < |s| ==> Some(r[i]) == SextetOf(s[i])
  {
    seq(|s|, i requires 0 <= i < |s| => SextetOf(s[i]).value)
  }

  /** One or two final `=` removed from a text whose length is a multiple of 4. */
  function DropPadding(t: string): (r: string)
    ensures |r| <= |t|
  {
    if |t| % 4 == 0 && |t| >= 2 && t[|t| - 2] == '=' && t[|t| - 1] == '=' then t[..|t| - 2]
    else if |t| % 4 == 0 && |t| >= 1 && t[|t| - 1] == '=' then t[..|t| - 1]
    else t
  }

  /** `atob`, giving the bytes behind the binary string it returns, or `None`
      where it throws. */
  function Atob(s: string): Option<seq<byte>> {
    var t := DropPadding(RemoveWhitespace(s));
    if |t| % 4 == 1 || !AllAlpha(t) then None
    else Some(DecodeSextets(Values(t)))
  }

  // ---------------------------------------------------------------------------
  // Round trip of the base64 layer

  /** Decoding the 6-bit groups of some bytes gives those bytes. */
  lemma {:induction false} DecodeSextetsOfSextets(b: seq<byte>)
    ensures |Sextets(b)| % 4 != 1
    ensures DecodeSextets(Sextets(b)) == b
    decreases |b|
  {
    SextetsLength(b);
    var v := Sextets(b);
    if |b| >= 3 {
      var rest := Sextets(b[3..]);
      DecodeSextetsOfSextets(b[3..]);
      assert v == [Split0(b[0]), Split1(b[0], b[1]), Split2(b[1], b[2]), Split3(b[2])] + rest;
      assert |v| >= 4 && v[4..] == rest;
      GroupRoundTrip(b[0], b[1], b[2]);
      calc {
        DecodeSextets(v);
        [Join0(v[0], v[1]), Join1(v[1], v[2]), Join2(v[2], v[3])] + DecodeSextets(rest);
        [b[0], b[1], b[2]] + b[3..];
        b;
      }
    } else if |b| == 2 {
      assert b == [b[0], b[1]];
      assert v == [Split0(b[0]), Split1(b[0], b[1]), Split2(b[1], 0)];
      assert DecodeSextets(v) == [Join0(v[0], v[1]), Join1(v[1], v[2])];
      GroupRoundTrip(b[0], b[1], 0);
    } else if |b| == 1 {
      assert b == [b[0]];
      assert v == [Split0(b[0]), Split1(b[0], 0)];
      assert DecodeSextets(v) == [Join0(v[0], v[1])];
      GroupRoundTrip(b[0], 0, 0);
    }
  }

  /** 24 bits split into four 6-bit values and joined again. */
  lemma GroupRoundTrip(b0: byte, b1: byte, b2: byte)
    ensures Join0(Split0(b0), Split1(b0, b1)) == b0
    ensures Join1(Split1(b0, b1), Split2(b1, b2)) == b1
    ensures Join2(Split2(b1, b2), Split3(b2)) == b2
  {
  }

  /** The body of an encoding has no whitespace, no `=`, and its length is
      never 1 modulo 4. */
  lemma BodyShape(b: seq<byte>)
    ensures RemoveWhitespace(Body(b)) == Body(b)
    ensures AllAlpha(Body(b)) && Values(Body(b)) == Sextets(b)
    ensures forall i :: 0 <= i < |Body(b)| ==> Body(b)[i] != '=' && Body(b)[i] != '-' && Body(b)[i] != '_'
    ensures |Body(b)| % 4 == (if |b| % 3 == 0 then 0 else |b| % 3 + 1)
    ensures |Body(b)| == 0 <==> b == []
  {
    SextetsLength(b);
    var s := Body(b);
    var v := Sextets(b);
    forall i | 0 <= i < |s|
      ensures SextetOf(s[i]) == Some(v[i]) && s[i] != '=' && s[i] != '-' && s[i] != '_'
    {
      AlphaInverse(v[i]);
    }
    NoWhitespace(s);
    assert Values(s) == v;
  }

  /** A text of alphabet characters loses nothing to whitespace removal. */
  lemma {:induction false} NoWhitespace(s: string)
    requires AllAlpha(s)
    ensures RemoveWhitespace(s) == s
  {
    if s != [] {
      var t := s[1..];
      assert SextetOf(s[0]).Some?;
      assert !IsAsciiWhitespace(s[0]);
      assert AllAlpha(t) by {
        forall i | 0 <= i < |t| ensures SextetOf(t[i]).Some? {
          assert t[i] == s[i + 1];
        }
      }
      NoWhitespace(t);
      assert RemoveWhitespace(s) == [s[0]] + RemoveWhitespace(t);
      assert s == [s[0]] + t;
    }
  }

  /** `atob(btoa(x))`: decoding the padded encoding gives the bytes back. */
  lemma AtobOfEncodeStd(b: seq<byte>)
    ensures Atob(EncodeStd(b)) == Some(b)
  {
    BodyShape(b);
    DecodeSextetsOfSextets(b);
    var pad := if |b| % 3 == 0 then 0 else 3 - |b| % 3;
    AtobOfPadded(Body(b), pad);
  }

  /** `atob` of a text of alphabet characters followed by the padding that
      completes its last group decodes the text. */
  lemma AtobOfPadded(body: string, pad: nat)
    requires AllAlpha(body) && RemoveWhitespace(body) == body
    requires |body| % 4 != 1 && pad == (if |body| % 4 == 0 then 0 else 4 - |body| % 4)
    ensures Atob(body + Equals(pad)) == Some(DecodeSextets(Values(body)))
  {
    var s := body + Equals(pad);
    assert RemoveWhitespace(s) == s by {
      WhitespaceAppend(body, Equals(pad));
      EqualsNoWhitespace(pad);
    }
    if body != [] {
      assert SextetOf(body[|body| - 1]).Some?;
    }
    DropPaddingOfPadded(body, pad);
  }

  /** The padding is exactly what `atob` removes. */
  lemma DropPaddingOfPadded(body: string, pad: nat)
    requires body != [] ==> body[|body| - 1] != '='
    requires |body| % 4 != 1 && pad == (if |body| % 4 == 0 then 0 else 4 - |body| % 4)
    ensures DropPadding(body + Equals(pad)) == body
  {
    var s := body + Equals(pad);
    assert |s| % 4 == 0 by {
      var q := |body| / 4;
      assert |body| == 4 * q + |body| % 4;
      assert |s| == 4 * q + |body| % 4 + pad;
      assert |s| == 4 * q || |s| == 4 * (q + 1);
    }
    if pad == 2 {
      assert s[..|s| - 2] == body;
    } else if pad == 1 {
      assert s[|s| - 2] == body[|body| - 1];
      assert s[..|s| - 1] == body;
    } else {
      assert s == body;
    }
  }

  lemma {:induction false} WhitespaceAppend(s: string, t: string)
    ensures RemoveWhitespace(s + t) == RemoveWhitespace(s) + RemoveWhitespace(t)
    decreases |s|
  {
    if s == [] {
      assert s + t == t;
    } else {
      assert (s + t)[0] == s[0];
      assert (s + t)[1..] == s[1..] + t;
      WhitespaceAppend(s[1..], t);
    }
  }

  lemma {:induction false} EqualsNoWhitespace(n: nat)
    ensures RemoveWhitespace(Equals(n)) == Equals(n)
  {
    if n > 0 {
      EqualsNoWhitespace(n - 1);
      WhitespaceAppend(Equals(n - 1), ['=']);
    }
  }

  // ---------------------------------------------------------------------------
  // The URL-safe form

  /** `.replace(/\+/g, "-").replace(/\//g, "_")` */
  function ToUrlAlphabet(s: string): (r: string)
    ensures |r| == |s|
    ensures forall i :: 0 <= i < |s| ==> r[i] == (if s[i] == '+' then '-' else if s[i] == '/' then '_' else s[i])
  {
    seq(|s|, i requires 0 <= i < |s| => if s[i] == '+' then '-' else if s[i] == '/' then '_' else s[i])
  }

  /** `.replace(/-/g, "+").replace(/_/g, "/")` */
  function FromUrlAlphabet(s: string): (r: string)
    ensures |r| == |s|
    ensures forall i :: 0 <= i < |s| ==> r[i] == (if s[i] == '-' then '+' else if s[i] == '_' then '/' else s[i])
  {
    seq(|s|, i requires 0 <= i < |s| => if s[i] == '-' then '+' else if s[i] == '_' then '/' else s[i])
  }

  /** The URL alphabet has no `+` or `/`, and the decoder's substitution undoes
      the encoder's on any text free of `-` and `_`, which base64 output is. The
      converse holds for text free of `+` and `/`. */
  lemma UrlAlphabetRoundTrip(s: string)
    ensures '+' !in ToUrlAlphabet(s) && '/' !in ToUrlAlphabet(s)
    ensures '-' !in FromUrlAlphabet(s) && '_' !in FromUrlAlphabet(s)
    ensures '-' !in s && '_' !in s ==> FromUrlAlphabet(ToUrlAlphabet(s)) == s
    ensures '+' !in s && '/' !in s ==> ToUrlAlphabet(FromUrlAlphabet(s)) == s
  {
    if '-' !in s && '_' !in s {
      var t := FromUrlAlphabet(ToUrlAlphabet(s));
      assert forall i :: 0 <= i < |s| ==> t[i] == s[i];
    }
    if '+' !in s && '/' !in s {
      var t := ToUrlAlphabet(FromUrlAlphabet(s));
      assert forall i :: 0 <= i < |s| ==> t[i] == s[i];
    }
  }

  /** `.replace(/=+$/, "")`: the run of `=` at the end removed. */
  function StripTrailingEquals(s: string): (r: string)
    ensures |r| <= |s| && r == s[..|r|]
    ensures r == [] || r[|r| - 1] != '='
    ensures forall i :: |r| <= i < |s| ==> s[i] == '='
  {
    if s != [] && s[|s| - 1] == '=' then StripTrailingEquals(s[..|s| - 1]) else s
  }

  /** The base64url text of some bytes: the encoding with the URL alphabet and
      no padding. */
  function EncodeUrl(b: seq<byte>): string {
    StripTrailingEquals(ToUrlAlphabet(EncodeStd(b)))
  }

  /** The URL-safe text is the body with `+` and `/` replaced: it holds no `+`,
      no `/` and no `=` at all. */
  lemma EncodeUrlShape(b: seq<byte>)
    ensures EncodeUrl(b) == ToUrlAlphabet(Body(b))
    ensures forall i :: 0 <= i < |EncodeUrl(b)| ==> EncodeUrl(b)[i] !in "+/="
  {
    BodyShape(b);
    StripPadded(Body(b), if |b| % 3 == 0 then 0 else 3 - |b| % 3);
  }

  /** Stripping the trailing `=` run after the alphabet change removes exactly
      the padding when the text before it has no `=`. */
  lemma StripPadded(body: string, pad: nat)
    requires forall i :: 0 <= i < |body| ==> body[i] != '='
    ensures StripTrailingEquals(ToUrlAlphabet(body + Equals(pad))) == ToUrlAlphabet(body)
    ensures forall i :: 0 <= i < |body| ==> ToUrlAlphabet(body)[i] !in "+/="
  {
    var t := ToUrlAlphabet(body);
    assert ToUrlAlphabet(body + Equals(pad)) == t + Equals(pad);
    assert t == [] || t[|t| - 1] != '=';
    StripEquals(t, pad);
  }

  /** Stripping the trailing `=` run removes exactly the `=` appended to a text
      that does not end in `=`. */
  lemma {:induction false} StripEquals(t: string, pad: nat)
    requires t == [] || t[|t| - 1] != '='
    ensures StripTrailingEquals(t + Equals(pad)) == t
  {
    if pad == 0 {
      assert t + Equals(0) == t;
    } else {
      var u := t + Equals(pad);
      assert u[|u| - 1] == '=';
      assert u[..|u| - 1] == t + Equals(pad - 1);
      StripEquals(t, pad - 1);
    }
  }

  /** `(4 - (length % 4)) % 4` is the number of `=` that makes the length a
      multiple of 4. */
  function PadCount(s: string): (n: nat)
    ensures n == (if |s| % 4 == 0 then 0 else 4 - |s| % 4)
  {
    (4 - |s| % 4) % 4
  }

  /** The decoder's normalisation and re-padding turn the URL-safe text back
      into the padded encoding, so `atob` gives back the bytes. */
  lemma DecodeUrlOfEncodeUrl(b: seq<byte>)
    ensures var normalized := FromUrlAlphabet(EncodeUrl(b));
      normalized + Equals(PadCount(normalized)) == EncodeStd(b)
    ensures var normalized := FromUrlAlphabet(EncodeUrl(b));
      Atob(normalized + Equals(PadCount(normalized))) == Some(b)
  {
    EncodeUrlShape(b);
    BodyShape(b);
    var body := Body(b);
    var normalized := FromUrlAlphabet(EncodeUrl(b));
    assert normalized == body;
    AtobOfEncodeStd(b);
  }

  // ---------------------------------------------------------------------------
  // Binary strings and the browser loops

  /** `String.fromCharCode(...bytes)`: one character per byte. */
  function Latin1(b: seq<byte>): (r: string)
    ensures |r| == |b| && forall i :: 0 <= i < |b| ==> r[i] as int == b[i]
  {
    seq(|b|, i requires 0 <= i < |b| => b[i] as char)
  }

  /** `charCodeAt` stored into a `Uint8Array`, which keeps the low 8 bits. */
  function Codes(s: string): (r: seq<byte>)
    ensures |r| == |s| && forall i :: 0 <= i < |s| ==> r[i] == s[i] as int % 256
  {
    seq(|s|, i requires 0 <= i < |s| => s[i] as int % 256)
  }

  lemma CodesOfLatin1(b: seq<byte>)
    ensures Codes(Latin1(b)) == b
  {
  }

  /** The size of the slices the browser encoder converts at a time. */
  const ChunkSize: nat := 0x8000

  /** Latin1 maps each part of a concatenation on its own. */
  lemma Latin1Append(a: seq<byte>, b: seq<byte>)
    ensures Latin1(a + b) == Latin1(a) + Latin1(b)
  {
    var l, r := Latin1(a + b), Latin1(a) + Latin1(b);
    assert |l| == |r|;
    forall k | 0 <= k < |l| ensures l[k] == r[k] {
      if k < |a| {
        assert (a + b)[k] == a[k];
      } else {
        assert (a + b)[k] == b[k - |a|];
      }
    }
  }

  /** The browser encoder's loop: the binary string built slice by slice is the
      one built from all the bytes at once. */
  method BinaryString(bytes: seq<byte>) returns (binary: string)
    ensures binary == Latin1(bytes)
  {
    binary := "";
    var i := 0;
    while i < |bytes|
      invariant 0 <= i
      invariant i < |bytes| ==> binary == Latin1(bytes[..i])
      invariant i >= |bytes| ==> binary == Latin1(bytes)
      decreases |bytes| - i
    {
      var end := if i + ChunkSize < |bytes| then i + ChunkSize else |bytes|;
      var chunk := bytes[i..end];
      assert bytes[..end] == bytes[..i] + chunk;
      Latin1Append(bytes[..i], chunk);
      binary := binary + Latin1(chunk);
      if end == |bytes| {
        assert bytes[..end] == bytes;
      }
      i := i + ChunkSize;
    }
  }

  /** The browser decoder's loop filling a `Uint8Array` from the binary string. */
  method BinaryToBytes(binary: string) returns (result: seq<byte>)
    ensures result == Codes(binary)
  {
    var bytes := new byte[|binary|];
    for i := 0 to |binary|
      invariant forall k :: 0 <= k < i ==> bytes[k] == binary[k] as int % 256
    {
      bytes[i] := binary[i] as int % 256;
    }
    result := bytes[..];
  }

  // ---------------------------------------------------------------------------
  // toBase64Url, fromBase64Url, encodeCursor, decodeCursor

  /** `toBase64Url` (the `Buffer` path): base64url of the UTF-8 bytes. */
  function ToBase64Url(input: string, utf8Encode: string -> seq<byte>): string {
    EncodeUrl(utf8Encode(input))
  }

  /** `toBase64Url` on the path without `Buffer`: the bytes go through the
      slice loop and `btoa`, and the result is the same text. */
  method ToBase64UrlBrowser(input: string, utf8Encode: string -> seq<byte>) returns (r: string)
    ensures r == ToBase64Url(input, utf8Encode)
    ensures forall i :: 0 <= i < |r| ==> r[i] !in "+/="
  {
    var bytes := utf8Encode(input);
    var binary := BinaryString(bytes);
    CodesOfLatin1(bytes);
    var base64 := EncodeStd(Codes(binary));
    r := StripTrailingEquals(ToUrlAlphabet(base64));
    EncodeUrlShape(bytes);
  }

  /** `fromBase64Url` (the path without `Buffer`): normalise the alphabet,
      re-pad, `atob`, and decode UTF-8; `None` where `atob` throws. */
  function FromBase64Url(encoded: string, utf8Decode: seq<byte> -> string): Option<string> {
    var normalized := FromUrlAlphabet(encoded);
    match Atob(normalized + Equals(PadCount(normalized)))
    case None => None
    case Some(bytes) => Some(utf8Decode(bytes))
  }

  /** The same, with the byte-filling loop. */
  method FromBase64UrlBrowser(encoded: string, utf8Decode: seq<byte> -> string) returns (r: Option<string>)
    ensures r == FromBase64Url(encoded, utf8Decode)
  {
    var normalized := FromUrlAlphabet(encoded);
    var padded := normalized + Equals(PadCount(normalized));
    var decoded := Atob(padded);
    if decoded.None? {
      return None;
    }
    var binary := Latin1(decoded.value);
    var bytes := BinaryToBytes(binary);
    CodesOfLatin1(decoded.value);
    r := Some(utf8Decode(bytes));
  }

  /** Decoding an encoding gives back the text, for any text that survives the
      UTF-8 round trip. */
  lemma Base64UrlRoundTrip(s: string, utf8Encode: string -> seq<byte>, utf8Decode: seq<byte> -> string)
    requires utf8Decode(utf8Encode(s)) == s
    ensures FromBase64Url(ToBase64Url(s, utf8Encode), utf8Decode) == Some(s)
  {
    DecodeUrlOfEncodeUrl(utf8Encode(s));
  }

  /** `encodeCursor`: the base64url text of the payload's JSON. */
  function EncodeCursor<P>(payload: P, stringify: P -> string, utf8Encode: string -> seq<byte>): string {
    ToBase64Url(stringify(payload), utf8Encode)
  }

  /** `decodeCursor`: nothing for an absent or empty cursor, nothing when the
      text does not decode or does not parse, the parsed payload otherwise. */
  function DecodeCursor<P>(cursor: Option<string>, parse: string -> Option<P>,
                           utf8Decode: seq<byte> -> string): (r: Option<P>)
    ensures cursor.None? || cursor == Some("") ==> r.None?
  {
    if cursor.None? || cursor.value == "" then None
    else
      match FromBase64Url(cursor.value, utf8Decode)
      case None => None
      case Some(json) => parse(json)
  }

  /** A cursor made by `encodeCursor` decodes to its payload, when the JSON and
      UTF-8 conversions round-trip and the JSON text is not empty. */
  lemma CursorRoundTrip<P>(payload: P, stringify: P -> string, parse: string -> Option<P>,
                           utf8Encode: string -> seq<byte>, utf8Decode: seq<byte> -> string)
    requires parse(stringify(payload)) == Some(payload)
    requires utf8Decode(utf8Encode(stringify(payload))) == stringify(payload)
    requires stringify(payload) != "" && utf8Decode([]) == ""
    ensures DecodeCursor(Some(EncodeCursor(payload, stringify, utf8Encode)), parse, utf8Decode) == Some(payload)
  {
    var json := stringify(payload);
    var bytes := utf8Encode(json);
    Base64UrlRoundTrip(json, utf8Encode, utf8Decode);
    EncodeUrlShape(bytes);
    BodyShape(bytes);
    assert bytes != [];
  }
}
