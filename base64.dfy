/**
 * Base 64 encoding as defined in section 4 of RFC 4648 (the alphabet of its Table 1,
 * `=` padding), which is what Python's `base64.b64encode` produces. The decoder is the
 * strict inverse of that encoding and serves as a reference for it.
 */
module Base64 {
  import opened Wrappers

  type byte = x: int | 0 <= x < 256
  type sextet = x: int | 0 <= x < 64

  /** Table 1 of RFC 4648: value to character. */
  function Symbol(v: sextet): char {
    if v < 26 then ('A' as int + v) as char
    else if v < 52 then ('a' as int + v - 26) as char
    else if v < 62 then ('0' as int + v - 52) as char
    else if v == 62 then '+'
    else '/'
  }

  predicate IsSymbol(c: char) {
    'A' <= c <= 'Z' || 'a' <= c <= 'z' || '0' <= c <= '9' || c == '+' || c == '/'
  }

  /** Table 1 of RFC 4648: character to value. */
  function Value(c: char): (v: sextet)
    requires IsSymbol(c)
    ensures Symbol(v) == c
  {
    if 'A' <= c <= 'Z' then c as int - 'A' as int
    else if 'a' <= c <= 'z' then c as int - 'a' as int + 26
    else if '0' <= c <= '9' then c as int - '0' as int + 52
    else if c == '+' then 62
    else 63
  }

  lemma SymbolValue(v: sextet)
    ensures IsSymbol(Symbol(v)) && Value(Symbol(v)) == v
  {
  }

  /** Three octets become four characters (the 24-bit group of section 4 of RFC 4648). */
  function EncodeGroup(a: byte, b: byte, c: byte): string {
    [Symbol(a / 4), Symbol((a % 4) * 16 + b / 16), Symbol((b % 16) * 4 + c / 64), Symbol(c % 64)]
  }

  /** Final quantum of one octet: two characters and two `=`. */
  function EncodeOne(a: byte): string {
    [Symbol(a / 4), Symbol((a % 4) * 16), '=', '=']
  }

  /** Final quantum of two octets: three characters and one `=`. */
  function EncodeTwo(a: byte, b: byte): string {
    [Symbol(a / 4), Symbol((a % 4) * 16 + b / 16), Symbol((b % 16) * 4), '=']
  }

  /** `base64.b64encode`. */
  function Encode(s: seq<byte>): (r: string)
    decreases |s|
    ensures |r| == 4 * ((|s| + 2) / 3)
  {
    if |s| == 0 then ""
    else if |s| == 1 then EncodeOne(s[0])
    else if |s| == 2 then EncodeTwo(s[0], s[1])
    else EncodeGroup(s[0], s[1], s[2]) + Encode(s[3..])
  }

  lemma GroupAlphabet(a: byte, b: byte, c: byte, i: nat)
    requires i < 4
    ensures IsSymbol(EncodeGroup(a, b, c)[i])
  {
    var v := if i == 0 then a / 4 else if i == 1 then (a % 4) * 16 + b / 16
             else if i == 2 then (b % 16) * 4 + c / 64 else c % 64;
    assert EncodeGroup(a, b, c)[i] == Symbol(v);
    SymbolValue(v);
  }

  /** An encoding is made of alphabet characters and `=`. */
  lemma {:induction false} EncodeAlphabet(s: seq<byte>)
    ensures forall i :: 0 <= i < |Encode(s)| ==> IsSymbol(Encode(s)[i]) || Encode(s)[i] == '='
    decreases |s|
  {
    if |s| > 2 {
      EncodeAlphabet(s[3..]);
      var g := EncodeGroup(s[0], s[1], s[2]);
      var rest := Encode(s[3..]);
      assert Encode(s) == g + rest;
      forall i | 0 <= i < |g + rest| ensures IsSymbol((g + rest)[i]) || (g + rest)[i] == '=' {
        if i >= 4 {
          assert (g + rest)[i] == rest[i - 4];
        } else {
          assert (g + rest)[i] == g[i];
          GroupAlphabet(s[0], s[1], s[2], i);
        }
      }
    }
  }

  /** Four characters without padding back to three octets. */
  function DecodeGroup(q: string): (r: Option<seq<byte>>)
    requires |q| == 4
  {
    if IsSymbol(q[0]) && IsSymbol(q[1]) && IsSymbol(q[2]) && IsSymbol(q[3]) then
      var v0, v1, v2, v3 := Value(q[0]), Value(q[1]), Value(q[2]), Value(q[3]);
      Some([v0 * 4 + v1 / 16, (v1 % 16) * 16 + v2 / 4, (v2 % 4) * 64 + v3])
    else None
  }

  /** The last four characters, which may carry padding. */
  function DecodeFinal(q: string): (r: Option<seq<byte>>)
    requires |q| == 4
  {
    if q[2] == '=' && q[3] == '=' then
      if IsSymbol(q[0]) && IsSymbol(q[1]) && Value(q[1]) % 16 == 0 then
        Some([Value(q[0]) * 4 + Value(q[1]) / 16])
      else None
    else if q[3] == '=' then
      if IsSymbol(q[0]) && IsSymbol(q[1]) && IsSymbol(q[2]) && Value(q[2]) % 4 == 0 then
        Some([Value(q[0]) * 4 + Value(q[1]) / 16, (Value(q[1]) % 16) * 16 + Value(q[2]) / 4])
      else None
    else DecodeGroup(q)
  }

  /** Strict decoding: the length is a multiple of four and padding appears only at the end. */
  function Decode(t: string): (r: Option<seq<byte>>)
    decreases |t|
  {
    if |t| == 0 then Some([])
    else if |t| < 4 then None
    else if |t| == 4 then DecodeFinal(t)
    else
      match DecodeGroup(t[..4])
      case None => None
      case Some(g) =>
        match Decode(t[4..])
        case None => None
        case Some(rest) => Some(g + rest)
  }

  /** Splitting a value into a high and a low part by a constant radix and joining them again. */
  lemma Radix16(x: int, y: int)
    requires 0 <= y < 16
    ensures (x * 16 + y) / 16 == x && (x * 16 + y) % 16 == y
  {
  }

  lemma Radix4(x: int, y: int)
    requires 0 <= y < 4
    ensures (x * 4 + y) / 4 == x && (x * 4 + y) % 4 == y
  {
  }

  /** The three sextet computations of EncodeGroup undo each other pairwise. */
  lemma GroupArithmetic(a: byte, b: byte, c: byte)
    ensures (a / 4) * 4 + ((a % 4) * 16 + b / 16) / 16 == a
    ensures (((a % 4) * 16 + b / 16) % 16) * 16 + ((b % 16) * 4 + c / 64) / 4 == b
    ensures (((b % 16) * 4 + c / 64) % 4) * 64 + c % 64 == c
  {
    Radix16(a % 4, b / 16);
    Radix4(b % 16, c / 64);
  }

  lemma GroupRoundTrip(a: byte, b: byte, c: byte)
    ensures DecodeGroup(EncodeGroup(a, b, c)) == Some([a, b, c])
    ensures DecodeFinal(EncodeGroup(a, b, c)) == Some([a, b, c])
  {
    var v0, v1, v2, v3 := a / 4, (a % 4) * 16 + b / 16, (b % 16) * 4 + c / 64, c % 64;
    var q := EncodeGroup(a, b, c);
    assert q == [Symbol(v0), Symbol(v1), Symbol(v2), Symbol(v3)];
    SymbolValue(v0);
    SymbolValue(v1);
    SymbolValue(v2);
    SymbolValue(v3);
    GroupArithmetic(a, b, c);
    assert q[3] != '=';
  }

  lemma OneRoundTrip(a: byte)
    ensures DecodeFinal(EncodeOne(a)) == Some([a])
  {
    var v0, v1 := a / 4, (a % 4) * 16;
    SymbolValue(v0);
    SymbolValue(v1);
    Radix16(a % 4, 0);
  }

  lemma TwoRoundTrip(a: byte, b: byte)
    ensures DecodeFinal(EncodeTwo(a, b)) == Some([a, b])
  {
    var v0, v1, v2 := a / 4, (a % 4) * 16 + b / 16, (b % 16) * 4;
    var q := EncodeTwo(a, b);
    SymbolValue(v0);
    SymbolValue(v1);
    SymbolValue(v2);
    Radix16(a % 4, b / 16);
    Radix4(b % 16, 0);
    assert q[2] != '=';
  }

  /** Encodings of one octet decode back. */
  lemma OneOctetRoundTrip(s: seq<byte>)
    requires |s| == 1
    ensures Decode(Encode(s)) == Some(s)
  {
    assert Encode(s) == EncodeOne(s[0]);
    OneRoundTrip(s[0]);
    assert s == [s[0]];
  }

  /** Encodings of two octets decode back. */
  lemma TwoOctetRoundTrip(s: seq<byte>)
    requires |s| == 2
    ensures Decode(Encode(s)) == Some(s)
  {
    assert Encode(s) == EncodeTwo(s[0], s[1]);
    TwoRoundTrip(s[0], s[1]);
    assert s == [s[0], s[1]];
  }

  /** Decoding a full group followed by the rest decodes the group, then the rest. */
  lemma DecodeAfterGroup(a: byte, b: byte, c: byte, rest: string)
    requires |rest| > 0
    ensures Decode(EncodeGroup(a, b, c) + rest) ==
      match Decode(rest) case None => None case Some(r) => Some([a, b, c] + r)
  {
    var t := EncodeGroup(a, b, c) + rest;
    GroupRoundTrip(a, b, c);
    assert t[..4] == EncodeGroup(a, b, c);
    assert t[4..] == rest;
  }

  lemma Regroup(s: seq<byte>)
    requires |s| >= 3
    ensures [s[0], s[1], s[2]] + s[3..] == s
  {
  }

  /** Decoding an encoding gives back the octets (the round trip of section 4 of RFC 4648). */
  lemma {:induction false} DecodeEncode(s: seq<byte>)
    ensures Decode(Encode(s)) == Some(s)
    decreases |s|
  {
    if |s| == 1 {
      OneOctetRoundTrip(s);
    } else if |s| == 2 {
      TwoOctetRoundTrip(s);
    } else if |s| > 2 {
      var g := EncodeGroup(s[0], s[1], s[2]);
      assert Encode(s) == g + Encode(s[3..]);
      if |s| == 3 {
        GroupRoundTrip(s[0], s[1], s[2]);
        assert Encode(s[3..]) == "";
        assert g + "" == g;
        Regroup(s);
        assert [s[0], s[1], s[2]] + [] == [s[0], s[1], s[2]];
      } else {
        DecodeEncode(s[3..]);
        DecodeAfterGroup(s[0], s[1], s[2], Encode(s[3..]));
        Regroup(s);
      }
    }
  }
}
