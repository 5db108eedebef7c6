/** `URLSearchParams.prototype.toString()`: the application/x-www-form-urlencoded
    serializer of the WHATWG URL Standard (section 5.2), together with the
    matching parser (section 5.1), so that the header's search URL can be read
    back into the parameters it was built from. Characters are Unicode scalar
    values; bytes are UTF-8. */
module FormUrlEncoding {
  import opened Wrappers

  type Byte = x: int | 0 <= x < 256

  type Pair = (string, string)

  // ---------------------------------------------------------------- UTF-8

  /** The UTF-8 encoding of one scalar value. */
  function Utf8(c: char): (bs: seq<Byte>)
    ensures 1 <= |bs| <= 4
    ensures (c as int < 0x80) <==> |bs| == 1
    ensures |bs| == 1 ==> bs[0] == c as int
  {
    var n := c as int;
    if n < 0x80 then [n]
    else if n < 0x800 then [0xC0 + n / 64, 0x80 + n % 64]
    else if n < 0x10000 then [0xE0 + n / 4096, 0x80 + (n / 64) % 64, 0x80 + n % 64]
    else [0xF0 + n / 262144, 0x80 + (n / 4096) % 64, 0x80 + (n / 64) % 64, 0x80 + n % 64]
  }

  function Utf8Bytes(s: string): seq<Byte> {
    if s == [] then [] else Utf8(s[0]) + Utf8Bytes(s[1..])
  }

  predicate IsCont(b: Byte) {
    0x80 <= b < 0xC0
  }

  function Prepend(c: char, rest: Option<string>): Option<string> {
    match rest
    case Some(s) => Some([c] + s)
    case None => None
  }

  /** Strict UTF-8 decoding: `None` on any ill-formed sequence (overlong forms,
      surrogates, values above U+10FFFF, truncated or stray continuation bytes). */
  function Utf8Decode(bs: seq<Byte>): Option<string>
    decreases |bs|
  {
    if bs == [] then Some([])
    else
      var b0 := bs[0] as int;
      if b0 < 0x80 then
        Prepend(b0 as char, Utf8Decode(bs[1..]))
      else if 0xC0 <= b0 < 0xE0 then
        if |bs| >= 2 && IsCont(bs[1]) then
          var cp := (b0 - 0xC0) * 64 + (bs[1] as int - 0x80);
          if 0x80 <= cp then Prepend(cp as char, Utf8Decode(bs[2..])) else None
        else None
      else if 0xE0 <= b0 < 0xF0 then
        if |bs| >= 3 && IsCont(bs[1]) && IsCont(bs[2]) then
          var cp := ((b0 - 0xE0) * 64 + (bs[1] as int - 0x80)) * 64 + (bs[2] as int - 0x80);
          if 0x800 <= cp && !(0xD800 <= cp < 0xE000) then Prepend(cp as char, Utf8Decode(bs[3..]))
          else None
        else None
      else if 0xF0 <= b0 < 0xF8 then
        if |bs| >= 4 && IsCont(bs[1]) && IsCont(bs[2]) && IsCont(bs[3]) then
          var cp := (((b0 - 0xF0) * 64 + (bs[1] as int - 0x80)) * 64 + (bs[2] as int - 0x80)) * 64
                    + (bs[3] as int - 0x80);
          if 0x10000 <= cp < 0x110000 then Prepend(cp as char, Utf8Decode(bs[4..])) else None
        else None
      else None
  }

  lemma DivChain(n: nat)
    ensures n / 4096 == (n / 64) / 64
    ensures n / 262144 == (n / 4096) / 64
  {
    var q := n / 64;
    var q2 := q / 64;
    assert n == q2 * 4096 + (q % 64) * 64 + n % 64;
    var q3 := (n / 4096) / 64;
    assert n / 4096 == q3 * 64 + (n / 4096) % 64;
  }

  /** Decoding the encoding of one character consumes exactly its bytes. */
  lemma Utf8DecodeChar(c: char, rest: seq<Byte>)
    ensures Utf8Decode(Utf8(c) + rest) == Prepend(c, Utf8Decode(rest))
  {
    var n := c as int;
    var bs := Utf8(c) + rest;
    DivChain(n);
    if n < 0x80 {
      assert bs[1..] == rest;
    } else if n < 0x800 {
      assert bs[2..] == rest;
      assert (n / 64) * 64 + n % 64 == n;
    } else if n < 0x10000 {
      assert bs[3..] == rest;
      assert ((n / 4096) * 64 + (n / 64) % 64) * 64 + n % 64 == n;
    } else {
      assert bs[4..] == rest;
      assert (((n / 262144) * 64 + (n / 4096) % 64) * 64 + (n / 64) % 64) * 64 + n % 64 == n;
    }
  }

  lemma {:induction false} Utf8RoundTrip(s: string)
    ensures Utf8Decode(Utf8Bytes(s)) == Some(s)
  {
    if s != [] {
      Utf8DecodeChar(s[0], Utf8Bytes(s[1..]));
      Utf8RoundTrip(s[1..]);
      assert [s[0]] + s[1..] == s;
    }
  }

  // ------------------------------------------------------- percent-encoding

  /** The bytes the form-urlencoded serializer leaves as they are. */
  predicate Unreserved(c: char) {
    ('a' <= c <= 'z') || ('A' <= c <= 'Z') || ('0' <= c <= '9')
    || c == '*' || c == '-' || c == '.' || c == '_'
  }

  function HexDigit(d: nat): char
    requires d < 16
  {
    if d < 10 then ('0' as int + d) as char else ('A' as int + d - 10) as char
  }

  predicate IsHex(c: char) {
    ('0' <= c <= '9') || ('A' <= c <= 'F') || ('a' <= c <= 'f')
  }

  function HexValue(c: char): (d: nat)
    requires IsHex(c)
    ensures d < 16
  {
    if '0' <= c <= '9' then c as int - '0' as int
    else if 'A' <= c <= 'F' then c as int - 'A' as int + 10
    else c as int - 'a' as int + 10
  }

  lemma HexRoundTrip(d: nat)
    requires d < 16
    ensures IsHex(HexDigit(d)) && HexValue(HexDigit(d)) == d
  {
  }

  function PercentByte(b: Byte): string {
    ['%', HexDigit(b / 16), HexDigit(b % 16)]
  }

  function PercentBytes(bs: seq<Byte>): string {
    if bs == [] then [] else PercentByte(bs[0]) + PercentBytes(bs[1..])
  }

  function EncodeChar(c: char): string {
    if Unreserved(c) then [c]
    else if c == ' ' then "+"
    else PercentBytes(Utf8(c))
  }

  /** One name or value, serialized. */
  function EncodeComponent(s: string): string {
    if s == [] then [] else EncodeChar(s[0]) + EncodeComponent(s[1..])
  }

  function PairText(p: Pair): string {
    EncodeComponent(p.0) + "=" + EncodeComponent(p.1)
  }

  /** `params.toString()`: the pairs in order, joined by "&". */
  function Serialize(ps: seq<Pair>): string {
    if ps == [] then ""
    else if |ps| == 1 then PairText(ps[0])
    else PairText(ps[0]) + "&" + Serialize(ps[1..])
  }

  // --------------------------------------------------------------- parsing

  /** The bytes a serialized component stands for: "+" is a space, "%XX" is one
      byte, and any other character stands for its own UTF-8 bytes. */
  function DecodeToBytes(t: string): seq<Byte>
    decreases |t|
  {
    if t == [] then []
    else if t[0] == '%' && |t| >= 3 && IsHex(t[1]) && IsHex(t[2]) then
      [HexValue(t[1]) * 16 + HexValue(t[2])] + DecodeToBytes(t[3..])
    else if t[0] == '+' then [0x20] + DecodeToBytes(t[1..])
    else Utf8(t[0]) + DecodeToBytes(t[1..])
  }

  function DecodeComponent(t: string): Option<string> {
    Utf8Decode(DecodeToBytes(t))
  }

  /** Position of the first `c` in `s`, or `|s|` when there is none. */
  function IndexOf(s: string, c: char): (i: nat)
    ensures i <= |s|
    ensures forall k :: 0 <= k < i ==> s[k] != c
    ensures i < |s| ==> s[i] == c
  {
    if s == [] then 0 else if s[0] == c then 0 else 1 + IndexOf(s[1..], c)
  }

  /** One "&"-separated segment: the name runs to the first "=", the value is the
      rest (empty when there is no "="). */
  function ParsePair(seg: string): Option<Pair> {
    var j := IndexOf(seg, '=');
    var name := DecodeComponent(seg[..j]);
    var value := DecodeComponent(if j < |seg| then seg[j + 1..] else "");
    if name.Some? && value.Some? then Some((name.value, value.value)) else None
  }

  /** `new URLSearchParams(t)` for a query without a leading "?": empty segments
      are skipped. `None` stands for malformed UTF-8, which the standard would
      replace with U+FFFD; that case is not modelled. */
  function ParseQuery(t: string): Option<seq<Pair>>
    decreases |t|
  {
    var i := IndexOf(t, '&');
    var tail := if i < |t| then ParseQuery(t[i + 1..]) else Some([]);
    if i == 0 then tail
    else
      var p := ParsePair(t[..i]);
      if p.Some? && tail.Some? then Some([p.value] + tail.value) else None
  }

  // ------------------------------------------------------------ round trip

  predicate Safe(c: char) {
    Unreserved(c) || c == '+' || c == '%'
  }

  lemma {:induction false} PercentBytesSafe(bs: seq<Byte>)
    ensures forall k :: 0 <= k < |PercentBytes(bs)| ==> Safe(PercentBytes(bs)[k])
  {
    if bs != [] {
      PercentBytesSafe(bs[1..]);
    }
  }

  /** A serialized component contains neither "&" nor "=". */
  lemma {:induction false} EncodedIsSafe(s: string)
    ensures forall k :: 0 <= k < |EncodeComponent(s)| ==> Safe(EncodeComponent(s)[k])
  {
    if s != [] {
      PercentBytesSafe(Utf8(s[0]));
      EncodedIsSafe(s[1..]);
    }
  }

  lemma {:induction false} DecodePercentBytes(bs: seq<Byte>, rest: string)
    ensures DecodeToBytes(PercentBytes(bs) + rest) == bs + DecodeToBytes(rest)
  {
    if bs != [] {
      var b := bs[0];
      HexRoundTrip(b / 16);
      HexRoundTrip(b % 16);
      var t := PercentBytes(bs) + rest;
      assert t == PercentByte(b) + (PercentBytes(bs[1..]) + rest);
      assert t[0] == '%' && t[1] == HexDigit(b / 16) && t[2] == HexDigit(b % 16);
      assert t[3..] == PercentBytes(bs[1..]) + rest;
      assert HexValue(t[1]) * 16 + HexValue(t[2]) == b;
      assert DecodeToBytes(t) == [b] + DecodeToBytes(PercentBytes(bs[1..]) + rest);
      DecodePercentBytes(bs[1..], rest);
      assert bs + DecodeToBytes(rest) == [b] + (bs[1..] + DecodeToBytes(rest));
    } else {
      assert PercentBytes(bs) + rest == rest;
    }
  }

  lemma DecodeEncodedChar(c: char, rest: string)
    ensures DecodeToBytes(EncodeChar(c) + rest) == Utf8(c) + DecodeToBytes(rest)
  {
    if Unreserved(c) {
      assert ([c] + rest)[1..] == rest;
    } else if c == ' ' {
      assert ("+" + rest)[1..] == rest;
    } else {
      DecodePercentBytes(Utf8(c), rest);
    }
  }

  lemma {:induction false} DecodeEncodedBytes(s: string)
    ensures DecodeToBytes(EncodeComponent(s)) == Utf8Bytes(s)
  {
    if s != [] {
      DecodeEncodedChar(s[0], EncodeComponent(s[1..]));
      DecodeEncodedBytes(s[1..]);
    }
  }

  /** Every name and value reads back as itself. */
  lemma ComponentRoundTrip(s: string)
    ensures DecodeComponent(EncodeComponent(s)) == Some(s)
  {
    DecodeEncodedBytes(s);
    Utf8RoundTrip(s);
  }

  lemma IndexOfAfterSafe(a: string, c: char, b: string)
    requires forall k :: 0 <= k < |a| ==> a[k] != c
    ensures IndexOf(a + [c] + b, c) == |a|
    ensures IndexOf(a, c) == |a|
  {
    if a != [] {
      assert (a + [c] + b)[1..] == a[1..] + [c] + b;
      IndexOfAfterSafe(a[1..], c, b);
    }
  }

  lemma PairRoundTrip(p: Pair)
    ensures ParsePair(PairText(p)) == Some(p)
  {
    var n := EncodeComponent(p.0);
    var v := EncodeComponent(p.1);
    EncodedIsSafe(p.0);
    IndexOfAfterSafe(n, '=', v);
    var seg := PairText(p);
    assert seg == n + ['='] + v;
    assert seg[..|n|] == n;
    assert seg[|n| + 1..] == v;
    ComponentRoundTrip(p.0);
    ComponentRoundTrip(p.1);
  }

  lemma PairTextSafe(p: Pair)
    ensures forall k :: 0 <= k < |PairText(p)| ==> PairText(p)[k] != '&'
    ensures |PairText(p)| > 0
  {
    EncodedIsSafe(p.0);
    EncodedIsSafe(p.1);
    var n := EncodeComponent(p.0);
    var v := EncodeComponent(p.1);
    forall k | 0 <= k < |PairText(p)|
      ensures PairText(p)[k] != '&'
    {
      if k < |n| {
        assert PairText(p)[k] == n[k];
      } else if k > |n| {
        assert PairText(p)[k] == v[k - |n| - 1];
      }
    }
  }

  /** A query made of one segment without "&". */
  lemma ParseSingle(seg: string)
    requires |seg| > 0 && forall k :: 0 <= k < |seg| ==> seg[k] != '&'
    ensures ParseQuery(seg) == if ParsePair(seg).Some? then Some([ParsePair(seg).value]) else None
  {
    IndexOfAfterSafe(seg, '&', "");
    assert seg[..|seg|] == seg;
    var p := ParsePair(seg);
    if p.Some? {
      assert [p.value] + [] == [p.value];
    }
  }

  /** A query whose first segment has no "&" splits there. */
  lemma ParseCons(seg: string, rest: string)
    requires |seg| > 0 && forall k :: 0 <= k < |seg| ==> seg[k] != '&'
    ensures var t := seg + "&" + rest;
            ParseQuery(t)
            == if ParsePair(seg).Some? && ParseQuery(rest).Some?
               then Some([ParsePair(seg).value] + ParseQuery(rest).value) else None
  {
    var t := seg + "&" + rest;
    IndexOfAfterSafe(seg, '&', rest);
    assert t == seg + ['&'] + rest;
    assert t[..|seg|] == seg;
    assert t[|seg| + 1..] == rest;
  }

  /** The parser reads the serialized list back: same pairs, same order. */
  lemma {:induction false} SerializeRoundTrip(ps: seq<Pair>)
    ensures ParseQuery(Serialize(ps)) == Some(ps)
    decreases |ps|
  {
    if ps == [] {
    } else {
      var head := PairText(ps[0]);
      PairTextSafe(ps[0]);
      PairRoundTrip(ps[0]);
      if |ps| == 1 {
        ParseSingle(head);
        assert ps == [ps[0]];
      } else {
        ParseCons(head, Serialize(ps[1..]));
        SerializeRoundTrip(ps[1..]);
        assert [ps[0]] + ps[1..] == ps;
      }
    }
  }
}
