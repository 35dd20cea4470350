/**
  Percent-encoding of URI components (section 2.1 of RFC 3986) as JavaScript's
  `decodeURIComponent` and `encodeURIComponent` perform it (section 19.2.6 of
  ECMA-262): an escape `%HH` stands for one byte, and bytes of 0x80 and above
  must form the shortest UTF-8 encoding of a Unicode scalar value (RFC 3629).
  A malformed escape makes `decodeURIComponent` throw; here it gives `None`.
  Strings are sequences of Unicode scalar values.
 */
module UriComponent {
  import opened Wrappers

  /** One octet. */
  type Byte = b: nat | b < 256

  /** The value of a hexadecimal digit of either case. */
  function HexValue(c: char): (d: Option<nat>)
    ensures d.Some? ==> d.value < 16
    ensures d.Some? <==> ('0' <= c <= '9' || 'A' <= c <= 'F' || 'a' <= c <= 'f')
  {
    if '0' <= c <= '9' then Some(c as int - '0' as int)
    else if 'A' <= c <= 'F' then Some(c as int - 'A' as int + 10)
    else if 'a' <= c <= 'f' then Some(c as int - 'a' as int + 10)
    else None
  }

  /** Case does not matter: a lower-case digit has the value of its upper-case form. */
  lemma HexCaseInsensitive(c: char)
    requires 'a' <= c <= 'f'
    ensures HexValue(c).Some? && HexValue(c) == HexValue((c as int - 32) as char)
  {
  }

  /** The upper-case hexadecimal digit `encodeURIComponent` writes for `d`. */
  function HexDigit(d: nat): (c: char)
    requires d < 16
    ensures HexValue(c) == Some(d)
    ensures '0' <= c <= '9' || 'A' <= c <= 'F'
  {
    if d < 10 then ('0' as int + d) as char else ('A' as int + d - 10) as char
  }

  /** The byte an escape `%HH` at the start of `s` stands for, if `s` starts with one. */
  function EscapedByte(s: string): (b: Option<Byte>)
    ensures b.Some? ==> |s| >= 3 && s[0] == '%'
    ensures (|s| >= 3 && s[0] == '%' && HexValue(s[1]).Some? && HexValue(s[2]).Some?) <==> b.Some?
  {
    if |s| >= 3 && s[0] == '%' && HexValue(s[1]).Some? && HexValue(s[2]).Some? then
      Some(16 * HexValue(s[1]).value + HexValue(s[2]).value)
    else None
  }

  /** The number of bytes of the UTF-8 sequence a lead byte starts: 1 for ASCII,
      else its count of leading one bits; 0 when that count is 1 or above 4. */
  function SequenceLength(lead: Byte): (n: nat)
    ensures n <= 4
  {
    if lead < 0x80 then 1
    else if lead < 0xC0 then 0
    else if lead < 0xE0 then 2
    else if lead < 0xF0 then 3
    else if lead < 0xF8 then 4
    else 0
  }

  /** A continuation byte, `10xxxxxx`. */
  predicate IsContinuation(b: Byte)
  {
    0x80 <= b < 0xC0
  }

  /** The `n` escapes at the start of `s`, each of which must be a continuation byte. */
  function Continuations(s: string, n: nat): (r: Option<seq<Byte>>)
    ensures r.Some? ==> |r.value| == n && 3 * n <= |s|
    ensures r.Some? ==> forall b <- r.value :: IsContinuation(b)
    decreases n
  {
    if n == 0 then Some([])
    else match EscapedByte(s)
      case None => None
      case Some(b) =>
        if !IsContinuation(b) then None
        else match Continuations(s[3..], n - 1)
          case None => None
          case Some(rest) => Some([b] + rest)
  }

  /** The six low bits a continuation byte carries. */
  function Payload(b: Byte): int
  {
    b as int - 0x80
  }

  /** The code point that a lead byte and its continuation bytes spell out. */
  function CodePoint(lead: Byte, cont: seq<Byte>): int
    requires 1 <= SequenceLength(lead) && |cont| == SequenceLength(lead) - 1
    requires forall b <- cont :: IsContinuation(b)
  {
    if |cont| == 0 then lead
    else if |cont| == 1 then (lead - 0xC0) * 64 + Payload(cont[0])
    else if |cont| == 2 then (lead - 0xE0) * 4096 + Payload(cont[0]) * 64 + Payload(cont[1])
    else (lead - 0xF0) * 262144 + Payload(cont[0]) * 4096 + Payload(cont[1]) * 64 + Payload(cont[2])
  }

  /** The smallest code point that needs an `n`-byte UTF-8 sequence. */
  function MinCodePoint(n: nat): int
  {
    if n <= 1 then 0 else if n == 2 then 0x80 else if n == 3 then 0x800 else 0x10000
  }

  /** An `n`-byte sequence decoding to `cp` is valid UTF-8: shortest form, not a
      surrogate, at most U+10FFFF. */
  predicate ValidSequence(n: nat, cp: int)
  {
    MinCodePoint(n) <= cp <= 0x10FFFF && !(0xD800 <= cp <= 0xDFFF)
  }

  function Cons(c: char, r: Option<string>): (r': Option<string>)
    ensures r'.Some? <==> r.Some?
    ensures r'.Some? ==> r'.value == [c] + r.value
  {
    match r
    case None => None
    case Some(t) => Some([c] + t)
  }

  /** `decodeURIComponent(s)`, with `None` where it throws a URIError. */
  function Decode(s: string): (r: Option<string>)
    ensures r.None? ==> '%' in s
    ensures r.Some? ==> |r.value| <= |s|
    decreases |s|
  {
    if s == "" then Some("")
    else if s[0] != '%' then Cons(s[0], Decode(s[1..]))
    else match EscapedByte(s)
      case None => None
      case Some(lead) =>
        var n := SequenceLength(lead);
        if n == 0 then None
        else match Continuations(s[3..], n - 1)
          case None => None
          case Some(cont) =>
            var cp := CodePoint(lead, cont);
            if !ValidSequence(n, cp) then None
            else Cons(cp as char, Decode(s[3 * n..]))
  }

  /** A string with no `%` decodes to itself. */
  lemma {:induction false} DecodeNoEscapes(s: string)
    requires '%' !in s
    ensures Decode(s) == Some(s)
    decreases |s|
  {
    if s != "" {
      assert s[0] in s;
      DecodeNoEscapes(s[1..]);
      assert [s[0]] + s[1..] == s;
    }
  }

  /** A `%` that is not followed by two hexadecimal digits makes decoding fail. */
  lemma BadEscapeFails(s: string)
    requires s != "" && s[0] == '%'
    requires |s| < 3 || HexValue(s[1]).None? || HexValue(s[2]).None?
    ensures Decode(s).None?
  {
  }

  /** The characters `encodeURIComponent` leaves as they are. */
  predicate Unreserved(c: char)
  {
    ('A' <= c <= 'Z') || ('a' <= c <= 'z') || ('0' <= c <= '9') || c in "-_.!~*'()"
  }

  /** The UTF-8 bytes of a character. */
  function Utf8(c: char): (bytes: seq<Byte>)
    ensures 1 <= |bytes| <= 4
  {
    var cp := c as int;
    if cp < 0x80 then [cp]
    else if cp < 0x800 then [0xC0 + cp / 64, 0x80 + cp % 64]
    else if cp < 0x10000 then [0xE0 + cp / 4096, 0x80 + (cp / 64) % 64, 0x80 + cp % 64]
    else [0xF0 + cp / 262144, 0x80 + (cp / 4096) % 64, 0x80 + (cp / 64) % 64, 0x80 + cp % 64]
  }

  /** The escape `%HH` for one byte. */
  function Escape(b: Byte): string
  {
    ['%', HexDigit(b / 16), HexDigit(b % 16)]
  }

  function EscapeAll(bytes: seq<Byte>): (s: string)
    ensures |s| == 3 * |bytes|
  {
    if bytes == [] then "" else Escape(bytes[0]) + EscapeAll(bytes[1..])
  }

  /** `encodeURIComponent` of one character. */
  function EncodeChar(c: char): string
  {
    if Unreserved(c) then [c] else EscapeAll(Utf8(c))
  }

  /** `encodeURIComponent(s)`: never writes `+`, `&` or `=`, so its output survives
      query-string splitting and the `+`-to-space rewrite. */
  function Encode(s: string): (r: string)
    ensures forall i :: 0 <= i < |r| ==> r[i] != '+' && r[i] != '&' && r[i] != '='
  {
    if s == "" then ""
    else
      EncodeCharAlphabet(s[0]);
      var head, tail := EncodeChar(s[0]), Encode(s[1..]);
      assert forall i :: 0 <= i < |head + tail| ==> (head + tail)[i] == if i < |head| then head[i] else tail[i - |head|];
      head + tail
  }

  lemma {:induction false} EscapeAllAlphabet(bytes: seq<Byte>)
    ensures forall i :: 0 <= i < |EscapeAll(bytes)| ==> EscapeAll(bytes)[i] != '+' && EscapeAll(bytes)[i] != '&' && EscapeAll(bytes)[i] != '='
  {
    if bytes != [] {
      EscapeAllAlphabet(bytes[1..]);
      var head, tail := Escape(bytes[0]), EscapeAll(bytes[1..]);
      assert forall i :: 0 <= i < |head + tail| ==> (head + tail)[i] == if i < |head| then head[i] else tail[i - |head|];
    }
  }

  lemma EncodeCharAlphabet(c: char)
    ensures forall i :: 0 <= i < |EncodeChar(c)| ==> EncodeChar(c)[i] != '+' && EncodeChar(c)[i] != '&' && EncodeChar(c)[i] != '='
  {
    if !Unreserved(c) {
      EscapeAllAlphabet(Utf8(c));
    }
  }

  /** Reading back an escape gives its byte and leaves the rest of the input. */
  lemma EscapedByteOfEscape(b: Byte, t: string)
    ensures EscapedByte(Escape(b) + t) == Some(b)
    ensures (Escape(b) + t)[3..] == t
  {
    var s := Escape(b) + t;
    assert s[0] == '%' && s[1] == HexDigit(b / 16) && s[2] == HexDigit(b % 16);
  }

  /** Reading back escaped continuation bytes gives those bytes. */
  lemma {:induction false} ContinuationsOfEscapes(bytes: seq<Byte>, t: string)
    requires forall b <- bytes :: IsContinuation(b)
    ensures Continuations(EscapeAll(bytes) + t, |bytes|) == Some(bytes)
    decreases |bytes|
  {
    if bytes != [] {
      var s := EscapeAll(bytes) + t;
      assert s == Escape(bytes[0]) + (EscapeAll(bytes[1..]) + t);
      EscapedByteOfEscape(bytes[0], EscapeAll(bytes[1..]) + t);
      ContinuationsOfEscapes(bytes[1..], t);
      assert [bytes[0]] + bytes[1..] == bytes;
    }
  }

  /** The UTF-8 bytes of a character form a sequence that decodes back to it. */
  lemma Utf8Decodes(c: char)
    ensures SequenceLength(Utf8(c)[0]) == |Utf8(c)|
    ensures forall b <- Utf8(c)[1..] :: IsContinuation(b)
    ensures CodePoint(Utf8(c)[0], Utf8(c)[1..]) == c as int
    ensures ValidSequence(|Utf8(c)|, c as int)
  {
    var cp := c as int;
    var bytes := Utf8(c);
    if cp < 0x80 {
    } else if cp < 0x800 {
      TwoBytes(cp);
      assert bytes == [0xC0 + cp / 64, 0x80 + cp % 64];
    } else if cp < 0x10000 {
      ThreeBytes(cp);
      assert bytes == [0xE0 + cp / 4096, 0x80 + (cp / 64) % 64, 0x80 + cp % 64];
    } else {
      FourBytes(cp);
      assert bytes == [0xF0 + cp / 262144, 0x80 + (cp / 4096) % 64, 0x80 + (cp / 64) % 64, 0x80 + cp % 64];
    }
  }

  lemma TwoBytes(cp: int)
    requires 0x80 <= cp < 0x800
    ensures 0xC2 <= 0xC0 + cp / 64 < 0xE0
    ensures (cp / 64) * 64 + cp % 64 == cp
  {
  }

  lemma ThreeBytes(cp: int)
    requires 0x800 <= cp < 0x10000
    ensures 0xE0 <= 0xE0 + cp / 4096 < 0xF0
    ensures (cp / 4096) * 4096 + ((cp / 64) % 64) * 64 + cp % 64 == cp
  {
    var q1, r1 := cp / 64, cp % 64;
    var q2, r2 := q1 / 64, q1 % 64;
    assert cp == q2 * 4096 + r2 * 64 + r1;
    assert cp / 4096 == q2;
  }

  lemma FourBytes(cp: int)
    requires 0x10000 <= cp < 0x110000
    ensures 0xF0 <= 0xF0 + cp / 262144 < 0xF5
    ensures (cp / 262144) * 262144 + ((cp / 4096) % 64) * 4096 + ((cp / 64) % 64) * 64 + cp % 64 == cp
  {
    var q1, r1 := cp / 64, cp % 64;
    var q2, r2 := q1 / 64, q1 % 64;
    var q3, r3 := q2 / 64, q2 % 64;
    assert cp == q3 * 262144 + r3 * 4096 + r2 * 64 + r1;
    assert cp / 4096 == q2;
    assert cp / 262144 == q3;
  }

  /** Decoding the encoding of one character gives that character back. */
  lemma DecodeEncodeChar(c: char, rest: string)
    ensures Decode(EncodeChar(c) + rest) == Cons(c, Decode(rest))
  {
    if Unreserved(c) {
      var s := EncodeChar(c) + rest;
      assert s[0] == c && s[1..] == rest;
    } else {
      Utf8Decodes(c);
      DecodeSequence(Utf8(c), c, rest);
    }
  }

  /** The escapes of a well-formed byte sequence decode to the character it encodes. */
  lemma DecodeSequence(bytes: seq<Byte>, c: char, rest: string)
    requires |bytes| >= 1 && SequenceLength(bytes[0]) == |bytes|
    requires forall b <- bytes[1..] :: IsContinuation(b)
    requires CodePoint(bytes[0], bytes[1..]) == c as int && ValidSequence(|bytes|, c as int)
    ensures Decode(EscapeAll(bytes) + rest) == Cons(c, Decode(rest))
  {
    var tail := EscapeAll(bytes[1..]) + rest;
    var s := EscapeAll(bytes) + rest;
    assert s == Escape(bytes[0]) + tail;
    EscapedByteOfEscape(bytes[0], tail);
    ContinuationsOfEscapes(bytes[1..], rest);
    assert tail[3 * (|bytes| - 1)..] == rest;
    assert s[3 * |bytes|..] == rest;
    DecodeAtEscape(s, bytes[0], bytes[1..], c);
  }

  /** One step of the decoder at a well-formed escaped sequence. */
  lemma DecodeAtEscape(s: string, lead: Byte, cont: seq<Byte>, c: char)
    requires EscapedByte(s) == Some(lead) && SequenceLength(lead) == |cont| + 1
    requires Continuations(s[3..], |cont|) == Some(cont)
    requires CodePoint(lead, cont) == c as int && ValidSequence(|cont| + 1, c as int)
    requires 3 * (|cont| + 1) <= |s|
    ensures Decode(s) == Cons(c, Decode(s[3 * (|cont| + 1)..]))
  {
    assert (c as int) as char == c;
  }

  /** `decodeURIComponent(encodeURIComponent(s)) == s` for every string. */
  lemma {:induction false} DecodeEncode(s: string)
    ensures Decode(Encode(s)) == Some(s)
    decreases |s|
  {
    if s != "" {
      DecodeEncodeChar(s[0], Encode(s[1..]));
      DecodeEncode(s[1..]);
      assert [s[0]] + s[1..] == s;
    }
  }
}
