/**
 * `encodeURIComponent` as the 2021 edition of ECMA-262 defines it (section
 * 19.2.6.5 with the Encode abstract operation of 19.2.6.1.1): characters outside the unreserved set are
 * written as the UTF-8 bytes of their code point, each byte as `%XY` with
 * upper-case hexadecimal digits. Strings here are sequences of Unicode scalar
 * values, so the lone-surrogate `URIError` case cannot arise.
 *
 * `Decode` is the matching reference decoder, `decodeURIComponent` (section
 * 19.2.6.3 with the Decode abstract operation of 19.2.6.1.2, same edition): it accepts only
 * well-formed UTF-8, rejecting stray continuation bytes, overlong forms,
 * surrogates and values above U+10FFFF. `ValueChars` is the `value-chars`
 * production of RFC 8187, section 3.2.1.
 */
module UriEncoding {
  import opened Wrappers

  type Byte = b: int | 0 <= b < 256

  predicate IsAsciiAlphaNum(c: char) {
    'A' <= c <= 'Z' || 'a' <= c <= 'z' || '0' <= c <= '9'
  }

  /** The characters `encodeURIComponent` leaves as they are. */
  predicate UriUnreserved(c: char) {
    IsAsciiAlphaNum(c) || c in "-_.!~*'()"
  }

  /** `attr-char` of RFC 8187, section 3.2.1. */
  predicate AttrChar(c: char) {
    IsAsciiAlphaNum(c) || c in "!#$&+-.^_`|~"
  }

  predicate IsHex(c: char) {
    '0' <= c <= '9' || 'A' <= c <= 'F' || 'a' <= c <= 'f'
  }

  /**
   * Which characters an encoder keeps: `UriComponent` is `encodeURIComponent`;
   * `ExtValue` also escapes the four marks that are not RFC 8187 attr-chars.
   */
  datatype Charset = UriComponent | ExtValue

  predicate Keeps(cs: Charset, c: char) {
    match cs
    case UriComponent => UriUnreserved(c)
    case ExtValue => UriUnreserved(c) && c !in "'()*"
  }

  function HexDigit(d: nat): (c: char)
    requires d < 16
    ensures IsHex(c) && c as int < 128
  {
    if d < 10 then ('0' as int + d) as char else ('A' as int + d - 10) as char
  }

  function HexValue(c: char): (r: Option<nat>)
    ensures r.Some? <==> IsHex(c)
    ensures r.Some? ==> r.value < 16
  {
    if '0' <= c <= '9' then Some(c as int - '0' as int)
    else if 'A' <= c <= 'F' then Some(c as int - 'A' as int + 10)
    else if 'a' <= c <= 'f' then Some(c as int - 'a' as int + 10)
    else None
  }

  function PercentByte(b: Byte): string {
    ['%', HexDigit(b / 16), HexDigit(b % 16)]
  }

  /** Bytes written as `%XY` triplets. */
  function Percent(bs: seq<Byte>): (r: string)
    ensures |r| == 3 * |bs|
    ensures forall i | 0 <= i < |r| :: (r[i] == '%' || IsHex(r[i])) && r[i] as int < 128
  {
    if bs == [] then [] else PercentByte(bs[0]) + Percent(bs[1..])
  }

  /** The UTF-8 encoding of one Unicode scalar value (RFC 3629). */
  function Utf8(c: char): (bs: seq<Byte>)
    ensures 1 <= |bs| <= 4
    ensures |bs| == 1 <==> bs[0] < 0x80
    ensures |bs| == 2 <==> 0xC0 <= bs[0] < 0xE0
    ensures |bs| == 3 <==> 0xE0 <= bs[0] < 0xF0
    ensures |bs| == 4 <==> 0xF0 <= bs[0] < 0xF8
    ensures forall i | 1 <= i < |bs| :: 0x80 <= bs[i] < 0xC0
  {
    var n := c as int;
    if n < 0x80 then [n]
    else if n < 0x800 then [0xC0 + n / 64, 0x80 + n % 64]
    else if n < 0x1_0000 then [0xE0 + n / 4096, 0x80 + (n / 64) % 64, 0x80 + n % 64]
    else [0xF0 + n / 262144, 0x80 + (n / 4096) % 64, 0x80 + (n / 64) % 64, 0x80 + n % 64]
  }

  function EncodeChar(cs: Charset, c: char): string {
    if Keeps(cs, c) then [c] else Percent(Utf8(c))
  }

  /** Each character kept or percent-encoded; the result is all ASCII. */
  function Encode(cs: Charset, s: string): (r: string)
    ensures forall i | 0 <= i < |r| :: (Keeps(cs, r[i]) || r[i] == '%' || IsHex(r[i])) && r[i] as int < 128
  {
    if s == [] then [] else EncodeChar(cs, s[0]) + Encode(cs, s[1..])
  }

  /** `encodeURIComponent(s)`: ASCII text that `decodeURIComponent` turns back into `s`. */
  function EncodeUriComponent(s: string): (r: string)
    ensures forall i | 0 <= i < |r| :: r[i] as int < 128
    ensures Decode(r) == Some(s)
  {
    DecodeEncode(UriComponent, s);
    Encode(UriComponent, s)
  }

  // ---------------------------------------------------------------------------
  // Decoding

  function DecodeByte(t: string, i: nat): (r: Option<Byte>)
    ensures r.Some? ==> i + 3 <= |t|
  {
    if i + 3 <= |t| && t[i] == '%' then
      match (HexValue(t[i + 1]), HexValue(t[i + 2]))
      case (Some(h), Some(l)) => Some(h * 16 + l)
      case _ => None
    else None
  }

  /** Reads `k` continuation bytes from position `i`, folding their six payload bits into `acc`. */
  function Continue(t: string, i: nat, k: nat, acc: int): (r: Option<int>)
    requires i <= |t|
    ensures r.Some? ==> i + 3 * k <= |t|
    decreases k
  {
    if k == 0 then Some(acc)
    else match DecodeByte(t, i)
      case None => None
      case Some(b) =>
        if 0x80 <= b < 0xC0 then Continue(t, i + 3, k - 1, acc * 64 + (b - 0x80)) else None
  }

  predicate IsScalar(n: int) {
    0 <= n < 0xD800 || 0xE000 <= n < 0x11_0000
  }

  /** The least code point that needs `k` continuation bytes; anything smaller is an overlong form. */
  function Shortest(k: nat): int {
    if k == 0 then 0 else if k == 1 then 0x80 else if k == 2 then 0x800 else 0x1_0000
  }

  /** Decodes one percent-encoded UTF-8 sequence at the start of `t`; gives the character and its length. */
  function DecodeScalar(t: string): (r: Option<(char, nat)>)
    ensures r.Some? ==> 3 <= r.value.1 <= |t|
  {
    match DecodeByte(t, 0)
    case None => None
    case Some(b0) =>
      if 0x80 <= b0 < 0xC0 || 0xF8 <= b0 then None
      else
        var k := if b0 < 0x80 then 0 else if b0 < 0xE0 then 1 else if b0 < 0xF0 then 2 else 3;
        match Continue(t, 3, k, LeadBits(b0))
        case None => None
        case Some(n) => if IsScalar(n) && Shortest(k) <= n then Some((n as char, 3 + 3 * k)) else None
  }

  function Cons(c: char, r: Option<string>): Option<string> {
    match r
    case None => None
    case Some(s) => Some([c] + s)
  }

  /** `decodeURIComponent`: `None` where it throws `URIError`. */
  function Decode(t: string): Option<string>
    decreases |t|
  {
    if t == [] then Some([])
    else if t[0] != '%' then Cons(t[0], Decode(t[1..]))
    else match DecodeScalar(t)
      case None => None
      case Some((c, len)) => Cons(c, Decode(t[len..]))
  }

  // ---------------------------------------------------------------------------
  // Round trip

  function Fold(acc: int, bs: seq<Byte>): int
    decreases |bs|
  {
    if bs == [] then acc else Fold(acc * 64 + (bs[0] as int - 0x80), bs[1..])
  }

  lemma {:induction false} PercentAt(bs: seq<Byte>, t: string, j: nat)
    requires j < |bs|
    ensures DecodeByte(Percent(bs) + t, 3 * j) == Some(bs[j])
  {
    var u := Percent(bs) + t;
    PercentSlice(bs, j);
    assert u[3 * j] == '%' && u[3 * j + 1] == HexDigit(bs[j] / 16) && u[3 * j + 2] == HexDigit(bs[j] % 16);
  }

  lemma {:induction false} PercentSlice(bs: seq<Byte>, j: nat)
    requires j < |bs|
    ensures Percent(bs)[3 * j..3 * j + 3] == PercentByte(bs[j])
  {
    if j > 0 {
      PercentSlice(bs[1..], j - 1);
      assert Percent(bs) == PercentByte(bs[0]) + Percent(bs[1..]);
    }
  }

  lemma ContinueStep(t: string, i: nat, k: nat, acc: int, b: Byte)
    requires i <= |t| && 0 < k && DecodeByte(t, i) == Some(b) && 0x80 <= b < 0xC0
    ensures Continue(t, i, k, acc) == Continue(t, i + 3, k - 1, acc * 64 + (b - 0x80))
  {
  }

  lemma FoldStep(acc: int, bs: seq<Byte>, j: nat)
    requires j < |bs|
    ensures Fold(acc, bs[j..]) == Fold(acc * 64 + (bs[j] as int - 0x80), bs[j + 1..])
  {
    assert bs[j..][0] == bs[j] && bs[j..][1..] == bs[j + 1..];
  }

  lemma {:induction false} ContinueAt(bs: seq<Byte>, t: string, j: nat, acc: int)
    requires j <= |bs|
    requires forall i | j <= i < |bs| :: 0x80 <= bs[i] < 0xC0
    ensures Continue(Percent(bs) + t, 3 * j, |bs| - j, acc) == Some(Fold(acc, bs[j..]))
    decreases |bs| - j
  {
    if j < |bs| {
      var u := Percent(bs) + t;
      var next := acc * 64 + (bs[j] as int - 0x80);
      PercentAt(bs, t, j);
      ContinueStep(u, 3 * j, |bs| - j, acc, bs[j]);
      assert 3 * j + 3 == 3 * (j + 1);
      ContinueAt(bs, t, j + 1, next);
      FoldStep(acc, bs, j);
    }
  }

  lemma Base64Digits(n: nat)
    ensures n / 4096 == (n / 64) / 64
    ensures n / 262144 == (n / 4096) / 64
  {
  }

  /** The lead bits of the first byte followed by the payload bits of the rest give back the code point. */
  lemma Utf8Fold(c: char)
    ensures var bs := Utf8(c); Fold(LeadBits(bs[0]), bs[1..]) == c as int
  {
    var n := c as int;
    var bs := Utf8(c);
    Base64Digits(n);
    if n < 0x80 {
    } else if n < 0x800 {
      assert bs[1..][1..] == [];
    } else if n < 0x1_0000 {
      var q := n / 64;
      assert bs == [0xE0 + n / 4096, 0x80 + q % 64, 0x80 + n % 64];
      assert 0 <= n / 4096 < 16;
      assert LeadBits(bs[0]) == n / 4096;
      assert (q / 64) * 64 + q % 64 == q;
      assert Fold(n / 4096, bs[1..]) == Fold(q, bs[1..][1..]);
      assert Fold(q, bs[1..][1..]) == Fold(n, bs[1..][1..][1..]);
      assert bs[1..][1..][1..] == [];
    } else {
      var q := n / 64;
      var q2 := n / 4096;
      assert bs == [0xF0 + n / 262144, 0x80 + q2 % 64, 0x80 + q % 64, 0x80 + n % 64];
      assert 0 <= n / 262144 < 8;
      assert LeadBits(bs[0]) == n / 262144;
      assert (q2 / 64) * 64 + q2 % 64 == q2;
      assert (q / 64) * 64 + q % 64 == q;
      assert Fold(n / 262144, bs[1..]) == Fold(q2, bs[1..][1..]);
      assert Fold(q2, bs[1..][1..]) == Fold(q, bs[1..][1..][1..]);
      assert Fold(q, bs[1..][1..][1..]) == Fold(n, bs[1..][1..][1..][1..]);
      assert bs[1..][1..][1..][1..] == [];
    }
  }

  function LeadBits(b0: Byte): int {
    if b0 < 0x80 then b0 else if b0 < 0xE0 then b0 - 0xC0 else if b0 < 0xF0 then b0 - 0xE0 else b0 - 0xF0
  }

  lemma {:induction false} DecodeScalarOfUtf8(c: char, t: string)
    ensures DecodeScalar(Percent(Utf8(c)) + t) == Some((c, 3 * |Utf8(c)|))
  {
    var bs := Utf8(c);
    var u := Percent(bs) + t;
    PercentAt(bs, t, 0);
    ContinueAt(bs, t, 1, LeadBits(bs[0]));
    Utf8Fold(c);
    assert Continue(u, 3, |bs| - 1, LeadBits(bs[0])) == Some(c as int);
    assert Shortest(|bs| - 1) <= c as int;
  }

  /** An overlong form is refused: `%C0%80` spells U+0000 in two bytes instead of one. */
  lemma OverlongRejected()
    ensures Decode("%C0%80") == None
  {
    var t := "%C0%80";
    assert DecodeByte(t, 0) == Some(0xC0);
    assert DecodeByte(t, 3) == Some(0x80);
    assert Continue(t, 3, 1, LeadBits(0xC0)) == Some(0);
  }

  lemma {:induction false} DecodeEncodeChar(cs: Charset, c: char, t: string)
    ensures Decode(EncodeChar(cs, c) + t) == Cons(c, Decode(t))
  {
    var u := EncodeChar(cs, c) + t;
    if Keeps(cs, c) {
      assert u[1..] == t;
    } else {
      DecodeScalarOfUtf8(c, t);
      assert u[0] == '%';
      assert u[3 * |Utf8(c)|..] == t;
    }
  }

  /** `decodeURIComponent(encodeURIComponent(s)) == s`, and the same for the RFC 8187 encoder. */
  lemma {:induction false} DecodeEncode(cs: Charset, s: string)
    ensures Decode(Encode(cs, s)) == Some(s)
  {
    if s == [] {
    } else {
      DecodeEncode(cs, s[1..]);
      DecodeEncodeChar(cs, s[0], Encode(cs, s[1..]));
      assert Encode(cs, s) == EncodeChar(cs, s[0]) + Encode(cs, s[1..]);
      assert s == [s[0]] + s[1..];
    }
  }

  /** Text made only of kept characters is not changed by the encoder. */
  lemma {:induction false} EncodeKept(cs: Charset, s: string)
    requires forall i | 0 <= i < |s| :: Keeps(cs, s[i])
    ensures Encode(cs, s) == s
  {
    if s != [] {
      EncodeKept(cs, s[1..]);
    }
  }

  /** The two encoders differ only on `' ( ) *`: without those marks they give the same text. */
  lemma {:induction false} EncodersAgree(s: string)
    requires forall i | 0 <= i < |s| :: s[i] !in "'()*"
    ensures Encode(ExtValue, s) == Encode(UriComponent, s)
  {
    if s != [] {
      EncodersAgree(s[1..]);
      assert Keeps(ExtValue, s[0]) == Keeps(UriComponent, s[0]);
    }
  }

  /** A kept character of the input survives into the output. */
  lemma {:induction false} KeptSurvives(cs: Charset, s: string, c: char)
    requires c in s && Keeps(cs, c)
    ensures c in Encode(cs, s)
  {
    if s[0] != c {
      KeptSurvives(cs, s[1..], c);
    }
  }

  // ---------------------------------------------------------------------------
  // RFC 8187 value-chars

  /** `value-chars = *( pct-encoded / attr-char )`. */
  predicate ValueChars(t: string)
    decreases |t|
  {
    t == [] ||
    (AttrChar(t[0]) && ValueChars(t[1..])) ||
    (|t| >= 3 && t[0] == '%' && IsHex(t[1]) && IsHex(t[2]) && ValueChars(t[3..]))
  }

  /** The first token of non-empty `value-chars`: one attr-char or one `%XY` triplet. */
  predicate HeadToken(t: string, n: nat) {
    (n == 1 && |t| >= 1 && AttrChar(t[0])) ||
    (n == 3 && |t| >= 3 && t[0] == '%' && IsHex(t[1]) && IsHex(t[2]))
  }

  lemma SplitHead(a: string) returns (n: nat)
    requires a != [] && ValueChars(a)
    ensures n <= |a| && HeadToken(a, n) && ValueChars(a[n..])
  {
    n := if AttrChar(a[0]) && ValueChars(a[1..]) then 1 else 3;
  }

  lemma JoinHead(a: string, n: nat, b: string)
    requires n <= |a| && HeadToken(a, n) && ValueChars(a[n..] + b)
    ensures ValueChars(a + b)
  {
    assert (a + b)[n..] == a[n..] + b;
    assert HeadToken(a + b, n);
  }

  lemma {:induction false} ValueCharsAppend(a: string, b: string)
    requires ValueChars(a) && ValueChars(b)
    ensures ValueChars(a + b)
    decreases |a|
  {
    if a == [] {
      assert a + b == b;
    } else {
      var n := SplitHead(a);
      ValueCharsAppend(a[n..], b);
      JoinHead(a, n, b);
    }
  }

  lemma {:induction false} PercentValueChars(bs: seq<Byte>)
    ensures ValueChars(Percent(bs))
  {
    if bs != [] {
      PercentValueChars(bs[1..]);
      var p := PercentByte(bs[0]);
      assert ValueChars(p) by {
        assert p[3..] == [];
      }
      ValueCharsAppend(p, Percent(bs[1..]));
    }
  }

  /** The corrected encoder always yields an RFC 8187 value. */
  lemma {:induction false} ExtValueConforms(s: string)
    ensures ValueChars(Encode(ExtValue, s))
  {
    if s != [] {
      ExtValueConforms(s[1..]);
      var c := s[0];
      if Keeps(ExtValue, c) {
        assert ValueChars([c]) by {
          assert [c][1..] == [];
        }
      } else {
        PercentValueChars(Utf8(c));
      }
      ValueCharsAppend(EncodeChar(ExtValue, c), Encode(ExtValue, s[1..]));
    }
  }

  /** No RFC 8187 value contains `(`. */
  lemma {:induction false} ValueCharsExcludeParen(t: string)
    requires ValueChars(t)
    ensures '(' !in t
    decreases |t|
  {
    if t != [] {
      if AttrChar(t[0]) && ValueChars(t[1..]) {
        ValueCharsExcludeParen(t[1..]);
        assert t == [t[0]] + t[1..];
      } else {
        ValueCharsExcludeParen(t[3..]);
        assert t == t[..3] + t[3..];
      }
    }
  }

  /** `encodeURIComponent` keeps `(`, so its output is not always an RFC 8187 value. */
  lemma {:induction false} UriComponentNotValueChars(s: string)
    requires '(' in s
    ensures !ValueChars(Encode(UriComponent, s))
  {
    KeptSurvives(UriComponent, s, '(');
    if ValueChars(Encode(UriComponent, s)) {
      ValueCharsExcludeParen(Encode(UriComponent, s));
    }
  }
}
