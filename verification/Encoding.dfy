/** Byte and text encodings: hexadecimal and base64url (section 5 of RFC 4648).

    The decoders walk their input with an index and fail on malformed text; each is a method
    proved against a function on sequences, and the round trips are proved on the functions. */
module Encoding {

  type byte = b: int | 0 <= b < 256

  datatype CryptoError =
    | InvalidHexString
    | EncodingError
    | HashChainBroken
    | InvalidHashFormat
    | SerializationFailed

  datatype Decoded<+T> = Ok(value: T) | Err(error: CryptoError)

  datatype TextEncoding = Hex | Base64Url

  // ------------------------------------------------------------------ hexadecimal

  function HexDigit(n: int): (c: char)
    requires 0 <= n < 16
    ensures IsHexChar(c) && HexValue(c) == n
  {
    if n < 10 then ('0' as int + n) as char else ('a' as int + (n - 10)) as char
  }

  predicate IsHexChar(c: char) {
    '0' <= c <= '9' || 'a' <= c <= 'f' || 'A' <= c <= 'F'
  }

  function HexValue(c: char): (n: int)
    requires IsHexChar(c)
    ensures 0 <= n < 16
  {
    if c <= '9' then c as int - '0' as int
    else if c <= 'F' then c as int - 'A' as int + 10
    else c as int - 'a' as int + 10
  }

  predicate AllHex(s: string) {
    forall i :: 0 <= i < |s| ==> IsHexChar(s[i])
  }

  function LowerChar(c: char): char {
    if 'A' <= c <= 'Z' then (c as int + 32) as char else c
  }

  function Lower(s: string): string {
    seq(|s|, i requires 0 <= i < |s| => LowerChar(s[i]))
  }

  function ToHex(bytes: seq<byte>): (s: string)
    ensures |s| == 2 * |bytes| && AllHex(s)
  {
    if bytes == [] then ""
    else [HexDigit(bytes[0] / 16), HexDigit(bytes[0] % 16)] + ToHex(bytes[1..])
  }

  function HexByte(high: char, low: char): byte
    requires IsHexChar(high) && IsHexChar(low)
  {
    16 * HexValue(high) + HexValue(low)
  }

  function HexPairs(s: string): (bytes: seq<byte>)
    requires |s| % 2 == 0 && AllHex(s)
    ensures |bytes| == |s| / 2
  {
    if s == "" then [] else [HexByte(s[0], s[1])] + HexPairs(s[2..])
  }

  function HexDecoding(s: string): Decoded<seq<byte>> {
    if |s| % 2 == 0 && AllHex(s) then Ok(HexPairs(s)) else Err(InvalidHexString)
  }

  method FromHex(hex: string) returns (r: Decoded<seq<byte>>)
    ensures r == HexDecoding(hex)
  {
    if |hex| == 0 {
      return Ok([]);
    }
    if |hex| % 2 != 0 || !AllHex(hex) {
      return Err(InvalidHexString);
    }
    var bytes := HexLoop(hex);
    return Ok(bytes);
  }

  method HexLoop(hex: string) returns (bytes: seq<byte>)
    requires |hex| % 2 == 0 && AllHex(hex)
    ensures bytes == HexPairs(hex)
  {
    var normalized := Lower(hex);
    bytes := [];
    var index := 0;
    ghost var left := AllPairsLeft(hex);
    while index < |normalized|
      invariant 0 <= left && index + 2 * left == |hex|
      invariant bytes + LastPairs(hex, left) == HexPairs(hex)
    {
      LastPairsStep(hex, left);
      bytes := bytes + [HexByte(normalized[index], normalized[index + 1])];
      index := index + 2;
      left := left - 1;
    }
  }

  lemma AllPairsLeft(hex: string) returns (left: nat)
    requires |hex| % 2 == 0 && AllHex(hex)
    ensures 2 * left == |hex| && LastPairs(hex, left) == HexPairs(hex) && LastPairs(hex, 0) == []
  {
    left := |hex| / 2;
    assert hex[0..] == hex && hex[|hex|..] == "";
  }

  /** The bytes of the last `left` pairs. */
  function LastPairs(hex: string, left: nat): seq<byte>
    requires AllHex(hex) && 2 * left <= |hex|
  {
    HexPairs(hex[|hex| - 2 * left..])
  }

  /** One turn of the decoding loop. */
  lemma LastPairsStep(hex: string, left: nat)
    requires AllHex(hex) && 0 < left && 2 * left <= |hex|
    ensures AllHex(Lower(hex))
    ensures var i := |hex| - 2 * left;
            LastPairs(hex, left) == [HexByte(Lower(hex)[i], Lower(hex)[i + 1])] + LastPairs(hex, left - 1)
  {
    var i := |hex| - 2 * left;
    forall k | 0 <= k < |hex| ensures IsHexChar(Lower(hex)[k]) && HexValue(Lower(hex)[k]) == HexValue(hex[k]) {
      LowerKeepsHexValue(hex[k]);
    }
    assert hex[i..][2..] == hex[i + 2..];
  }

  lemma LowerKeepsHexValue(c: char)
    requires IsHexChar(c)
    ensures IsHexChar(LowerChar(c)) && HexValue(LowerChar(c)) == HexValue(c)
    ensures HexDigit(HexValue(c)) == LowerChar(c)
  {
  }

  /** Decoding inverts encoding for every byte string. */
  lemma {:induction false} HexRoundTrip(bytes: seq<byte>)
    ensures HexDecoding(ToHex(bytes)) == Ok(bytes)
  {
    if bytes != [] {
      HexRoundTrip(bytes[1..]);
      var s := ToHex(bytes);
      assert s[2..] == ToHex(bytes[1..]);
      PairDigits(bytes[0] / 16, bytes[0] % 16);
      assert bytes == [bytes[0]] + bytes[1..];
    }
  }

  lemma PairDigits(hi: int, lo: int)
    requires 0 <= hi < 16 && 0 <= lo < 16
    ensures (16 * hi + lo) / 16 == hi && (16 * hi + lo) % 16 == lo
  {
  }

  /** Encoding inverts decoding up to letter case. */
  lemma {:induction false} HexTextRoundTrip(s: string)
    requires |s| % 2 == 0 && AllHex(s)
    ensures ToHex(HexPairs(s)) == Lower(s)
  {
    if s != "" {
      HexTextRoundTrip(s[2..]);
      PairDigits(HexValue(s[0]), HexValue(s[1]));
      LowerKeepsHexValue(s[0]);
      LowerKeepsHexValue(s[1]);
      assert HexPairs(s)[1..] == HexPairs(s[2..]);
      LowerSplit(s);
    }
  }

  lemma LowerSplit(s: string)
    requires |s| >= 2
    ensures Lower(s) == [LowerChar(s[0]), LowerChar(s[1])] + Lower(s[2..])
  {
  }

  lemma ToHexIsLower(bytes: seq<byte>)
    ensures Lower(ToHex(bytes)) == ToHex(bytes)
  {
    HexRoundTrip(bytes);
    HexTextRoundTrip(ToHex(bytes));
  }

  lemma ToHexInjective(a: seq<byte>, b: seq<byte>)
    requires ToHex(a) == ToHex(b)
    ensures a == b
  {
    HexRoundTrip(a);
    HexRoundTrip(b);
  }

  // ------------------------------------------------------------------ base64url

  /** The alphabet A-Z a-z 0-9 - _ by position. */
  function SextetChar(n: int): (c: char)
    requires 0 <= n < 64
    ensures IsSextetChar(c)
  {
    if n < 26 then ('A' as int + n) as char
    else if n < 52 then ('a' as int + (n - 26)) as char
    else if n < 62 then ('0' as int + (n - 52)) as char
    else if n == 62 then '-'
    else '_'
  }

  predicate IsSextetChar(c: char) {
    'A' <= c <= 'Z' || 'a' <= c <= 'z' || '0' <= c <= '9' || c == '-' || c == '_'
  }

  function SextetValue(c: char): (n: int)
    requires IsSextetChar(c)
    ensures 0 <= n < 64
  {
    if c == '-' then 62
    else if c == '_' then 63
    else if c <= '9' then c as int - '0' as int + 52
    else if c <= 'Z' then c as int - 'A' as int
    else c as int - 'a' as int + 26
  }

  lemma SextetInverse(n: int)
    requires 0 <= n < 64
    ensures SextetValue(SextetChar(n)) == n
  {
  }

  /** The alphabet of section 5 of RFC 4648: capitals, small letters, digits, then minus and underscore, each run in
      its own order. */
  lemma SextetAlphabet(n: int)
    requires 0 <= n < 63
    ensures SextetChar(0) == 'A' && SextetChar(26) == 'a' && SextetChar(52) == '0' && SextetChar(62) == '-'
    ensures n == 62 ==> SextetChar(n + 1) == '_'
    ensures n != 25 && n != 51 && n != 61 && n != 62 ==> SextetChar(n + 1) as int == SextetChar(n) as int + 1
  {
  }

  predicate AllSextets(s: string) {
    forall i :: 0 <= i < |s| ==> IsSextetChar(s[i])
  }

  /** The characters of one group of at most three bytes. The shifted fields never overlap, so the
      bitwise or of the original is a sum here. */
  function EncodeGroup(g: seq<byte>): (s: string)
    requires 1 <= |g| <= 3
    ensures |s| == |g| + 1 && AllSextets(s)
  {
    GroupText(g[0], if |g| > 1 then g[1] else 0, if |g| > 2 then g[2] else 0, |g|)
  }

  function GroupText(b0: byte, b1: byte, b2: byte, count: int): (s: string)
    requires 1 <= count <= 3
    ensures |s| == count + 1 && AllSextets(s)
  {
    var head := [SextetChar(b0 / 4), SextetChar(b0 % 4 * 16 + b1 / 16)];
    if count == 1 then head
    else if count == 2 then head + [SextetChar(b1 % 16 * 4 + b2 / 64)]
    else head + [SextetChar(b1 % 16 * 4 + b2 / 64), SextetChar(b2 % 64)]
  }

  /** Emits the characters of one group, appending the optional ones last. */
  method EmitGroup(b0: byte, b1: byte, b2: byte, count: int) returns (group: string)
    requires 1 <= count <= 3
    ensures group == GroupText(b0, b1, b2, count)
  {
    group := [SextetChar(b0 / 4)];
    group := group + [SextetChar(b0 % 4 * 16 + b1 / 16)];
    if count > 1 {
      group := group + [SextetChar(b1 % 16 * 4 + b2 / 64)];
    }
    if count > 2 {
      group := group + [SextetChar(b2 % 64)];
    }
  }

  function Base64UrlText(bytes: seq<byte>): (s: string)
    ensures AllSextets(s)
  {
    if bytes == [] then ""
    else if |bytes| <= 3 then EncodeGroup(bytes)
    else EncodeGroup(bytes[..3]) + Base64UrlText(bytes[3..])
  }

  function Min(a: int, b: int): int {
    if a <= b then a else b
  }

  method ToBase64Url(bytes: seq<byte>) returns (result: string)
    ensures result == Base64UrlText(bytes)
  {
    result := "";
    var i := 0;
    while i < |bytes|
      invariant 0 <= i
      invariant result + Base64UrlText(bytes[Min(i, |bytes|)..]) == Base64UrlText(bytes)
    {
      var b0 := bytes[i];
      var b1 := if i + 1 < |bytes| then bytes[i + 1] else 0;
      var b2 := if i + 2 < |bytes| then bytes[i + 2] else 0;
      var group := EmitGroup(b0, b1, b2, Min(3, |bytes| - i));
      Base64UrlTextFrom(bytes, i, result);
      result := result + group;
      i := i + 3;
    }
  }

  lemma Base64UrlTextFrom(bytes: seq<byte>, i: nat, done: string)
    requires i < |bytes|
    ensures var j := Min(i + 3, |bytes|);
      var group := GroupText(bytes[i], if i + 1 < |bytes| then bytes[i + 1] else 0,
                             if i + 2 < |bytes| then bytes[i + 2] else 0, j - i);
      done + Base64UrlText(bytes[i..]) == (done + group) + Base64UrlText(bytes[j..])
  {
    var j, rest := Min(i + 3, |bytes|), bytes[i..];
    assert bytes[j..] == rest[j - i..];
    var g := rest[..j - i];
    assert g[0] == bytes[i] && (j - i > 1 ==> g[1] == bytes[i + 1]) && (j - i > 2 ==> g[2] == bytes[i + 2]);
    assert Base64UrlText(rest) == EncodeGroup(g) + Base64UrlText(rest[j - i..]) by {
      if |rest| <= 3 {
        assert g == rest;
      }
    }
  }

  /** The text without its trailing padding. */
  function Stripped(s: string): (t: string)
    ensures t <= s
    ensures t != "" ==> t[|t| - 1] != '='
    ensures forall i :: |t| <= i < |s| ==> s[i] == '='
  {
    if s != "" && s[|s| - 1] == '=' then Stripped(s[..|s| - 1]) else s
  }

  /** Alphabet characters, then at most two padding characters. */
  predicate MatchesBase64UrlPattern(s: string) {
    AllSextets(Stripped(s)) && |s| - |Stripped(s)| <= 2
  }

  /** The bytes of one group of two to four characters. */
  function DecodeGroup(g: string): (bytes: seq<byte>)
    requires 2 <= |g| <= 4 && AllSextets(g)
    ensures |bytes| == |g| - 1
  {
    GroupBytes(SextetValue(g[0]), SextetValue(g[1]),
               if |g| > 2 then SextetValue(g[2]) else 0, if |g| > 3 then SextetValue(g[3]) else 0, |g|)
  }

  type sextet = n: int | 0 <= n < 64

  function GroupBytes(c0: sextet, c1: sextet, c2: sextet, c3: sextet, count: int): (bytes: seq<byte>)
    requires 2 <= count <= 4
    ensures |bytes| == count - 1
  {
    if count == 2 then [c0 * 4 + c1 / 16]
    else if count == 3 then [c0 * 4 + c1 / 16, c1 % 16 * 16 + c2 / 4]
    else [c0 * 4 + c1 / 16, c1 % 16 * 16 + c2 / 4, c2 % 4 * 64 + c3]
  }

  /** Stores the bytes of one group, the optional ones last. */
  method StoreGroup(c0: sextet, c1: sextet, c2: sextet, c3: sextet, count: int) returns (group: seq<byte>)
    requires 2 <= count <= 4
    ensures group == GroupBytes(c0, c1, c2, c3, count)
  {
    group := [c0 * 4 + c1 / 16];
    if count > 2 {
      group := group + [c1 % 16 * 16 + c2 / 4];
    }
    if count > 3 {
      group := group + [c2 % 4 * 64 + c3];
    }
  }

  /** A text of this length splits into groups of four and a last group of two to four. */
  predicate Decodable(n: nat) {
    n != 1 && (n > 4 ==> Decodable(n - 4))
  }

  lemma {:induction false} DecodableMeaning(n: nat)
    ensures Decodable(n) <==> n % 4 != 1
    decreases n
  {
    if n > 4 { DecodableMeaning(n - 4); }
  }

  function SextetBytes(s: string): seq<byte>
    requires AllSextets(s) && Decodable(|s|)
  {
    if s == "" then []
    else if |s| <= 4 then DecodeGroup(s)
    else DecodeGroup(s[..4]) + SextetBytes(s[4..])
  }

  function Base64UrlDecoding(s: string): Decoded<seq<byte>> {
    if !MatchesBase64UrlPattern(s) then Err(EncodingError)
    else if !Decodable(|Stripped(s)|) then Err(EncodingError)
    else Ok(SextetBytes(Stripped(s)))
  }

  method FromBase64Url(str: string) returns (r: Decoded<seq<byte>>)
    ensures r == Base64UrlDecoding(str)
  {
    if |str| == 0 {
      return Ok([]);
    }
    var stripped := Stripped(str);
    DecodableMeaning(|stripped|);
    if !MatchesBase64UrlPattern(str) || |stripped| % 4 == 1 {
      return Err(EncodingError);
    }
    var bytes := SextetLoop(stripped);
    return Ok(bytes);
  }

  /** The decoding loop over the stripped text. */
  method SextetLoop(stripped: string) returns (result: seq<byte>)
    requires AllSextets(stripped) && Decodable(|stripped|)
    ensures result == SextetBytes(stripped)
  {
    result := [];
    var i := 0;
    while i < |stripped|
      invariant 0 <= i && Decodable(|stripped| - Min(i, |stripped|))
      invariant result + SextetBytes(stripped[Min(i, |stripped|)..]) == SextetBytes(stripped)
    {
      SextetBytesFrom(stripped, i, result);
      var group := DecodeGroupAt(stripped, i);
      result := result + group;
      i := i + 4;
    }
  }

  /** The bytes of the group that starts at `i`, which may be a short last one. */
  function GroupAt(s: string, i: nat): seq<byte>
    requires AllSextets(s) && i + 1 < |s|
  {
    GroupBytes(SextetValue(s[i]), SextetValue(s[i + 1]),
               if i + 2 < |s| then SextetValue(s[i + 2]) else 0,
               if i + 3 < |s| then SextetValue(s[i + 3]) else 0, Min(4, |s| - i))
  }

  method DecodeGroupAt(s: string, i: nat) returns (group: seq<byte>)
    requires AllSextets(s) && i + 1 < |s|
    ensures group == GroupAt(s, i)
  {
    var c0 := SextetValue(s[i]);
    var c1 := SextetValue(s[i + 1]);
    var c2 := if i + 2 < |s| then SextetValue(s[i + 2]) else 0;
    var c3 := if i + 3 < |s| then SextetValue(s[i + 3]) else 0;
    group := StoreGroup(c0, c1, c2, c3, Min(4, |s| - i));
  }

  lemma SextetBytesFrom(s: string, i: nat, done: seq<byte>)
    requires AllSextets(s) && i < |s| && Decodable(|s| - i)
    ensures Decodable(|s| - Min(i + 4, |s|)) && i + 1 < |s|
    ensures done + SextetBytes(s[i..]) == (done + GroupAt(s, i)) + SextetBytes(s[Min(i + 4, |s|)..])
  {
    var j, rest := Min(i + 4, |s|), s[i..];
    assert s[j..] == rest[j - i..];
    var g := rest[..j - i];
    assert forall k :: 0 <= k < j - i ==> g[k] == s[i + k];
    assert DecodeGroup(g) == GroupAt(s, i);
    if |rest| <= 4 {
      assert rest[..j - i] == rest;
    }
  }

  lemma Join16(q: nat, r: nat)
    requires r < 16
    ensures (q * 16 + r) / 16 == q && (q * 16 + r) % 16 == r
  {
  }

  lemma Join4(q: nat, r: nat)
    requires r < 4
    ensures (q * 4 + r) / 4 == q && (q * 4 + r) % 4 == r
  {
  }

  /** Three bytes cut into four sextets and joined again. */
  lemma Regroup(b0: byte, b1: byte, b2: byte)
    ensures var c0, c1, c2, c3 := b0 / 4, b0 % 4 * 16 + b1 / 16, b1 % 16 * 4 + b2 / 64, b2 % 64;
            c0 * 4 + c1 / 16 == b0 && c1 % 16 * 16 + c2 / 4 == b1 && c2 % 4 * 64 + c3 == b2
  {
    Join16(b0 % 4, b1 / 16);
    Join4(b1 % 16, b2 / 64);
  }

  /** The sextets that the characters of a group stand for. */
  lemma GroupValues(b0: byte, b1: byte, b2: byte, count: int)
    requires 1 <= count <= 3
    ensures var s := GroupText(b0, b1, b2, count);
            && SextetValue(s[0]) == b0 / 4 && SextetValue(s[1]) == b0 % 4 * 16 + b1 / 16
            && (count > 1 ==> SextetValue(s[2]) == b1 % 16 * 4 + b2 / 64)
            && (count > 2 ==> SextetValue(s[3]) == b2 % 64)
  {
    SextetInverse(b0 / 4);
    SextetInverse(b0 % 4 * 16 + b1 / 16);
    SextetInverse(b1 % 16 * 4 + b2 / 64);
    SextetInverse(b2 % 64);
  }

  lemma DecodesToBytes(b0: byte, b1: byte, b2: byte, count: int)
    requires 1 <= count <= 3 && (count < 2 ==> b1 == 0) && (count < 3 ==> b2 == 0)
    ensures DecodeGroup(GroupText(b0, b1, b2, count)) == [b0, b1, b2][..count]
  {
    GroupValues(b0, b1, b2, count);
    Regroup(b0, b1, b2);
  }

  lemma GroupRoundTrip(g: seq<byte>)
    requires 1 <= |g| <= 3
    ensures DecodeGroup(EncodeGroup(g)) == g
  {
    var b0, b1, b2 := g[0], if |g| > 1 then g[1] else 0, if |g| > 2 then g[2] else 0;
    DecodesToBytes(b0, b1, b2, |g|);
    assert [b0, b1, b2][..|g|] == g;
  }

  function EncodedLength(n: nat): (m: nat)
    ensures Decodable(m)
  {
    if n == 0 then 0 else if n <= 3 then n + 1 else 4 + EncodedLength(n - 3)
  }

  lemma {:induction false} EncodedClosedForm(k: nat, r: nat)
    requires r < 3
    ensures EncodedLength(3 * k + r) == 4 * k + if r == 0 then 0 else r + 1
    decreases k
  {
    if k > 0 { EncodedClosedForm(k - 1, r); }
  }

  lemma EncodedParity(n: nat)
    ensures EncodedLength(n) % 2 == 1 <==> n % 3 == 2
  {
    var k, r := n / 3, n % 3;
    EncodedClosedForm(k, r);
    EvenMultiple(k, if r == 0 then 0 else r + 1);
  }

  lemma EvenMultiple(k: nat, t: nat)
    ensures (4 * k + t) % 2 == t % 2
  {
  }

  lemma Base64UrlLength(bytes: seq<byte>)
    ensures |Base64UrlText(bytes)| == EncodedLength(|bytes|)
  {
    if |bytes| > 3 {
      Base64UrlLength(bytes[3..]);
    }
  }

  lemma SextetRoundTrip(bytes: seq<byte>)
    ensures Decodable(|Base64UrlText(bytes)|)
    ensures SextetBytes(Base64UrlText(bytes)) == bytes
  {
    Base64UrlLength(bytes);
    if bytes == [] {
    } else if |bytes| <= 3 {
      GroupRoundTrip(bytes);
    } else {
      SextetRoundTrip(bytes[3..]);
      GroupRoundTrip(bytes[..3]);
      SplitGroup(EncodeGroup(bytes[..3]), Base64UrlText(bytes[3..]));
    }
  }

  lemma SplitGroup(head: string, tail: string)
    requires |head| == 4 && tail != "" && AllSextets(head) && AllSextets(tail) && Decodable(|tail|)
    ensures SextetBytes(head + tail) == DecodeGroup(head) + SextetBytes(tail)
  {
    var s := head + tail;
    assert s[..4] == head && s[4..] == tail;
  }

  /** Decoding inverts encoding for every byte string. */
  lemma Base64UrlRoundTrip(bytes: seq<byte>)
    ensures Base64UrlDecoding(Base64UrlText(bytes)) == Ok(bytes)
  {
    SextetRoundTrip(bytes);
    assert Stripped(Base64UrlText(bytes)) == Base64UrlText(bytes);
  }

  predicate Padding(s: string) {
    |s| <= 2 && forall i :: 0 <= i < |s| ==> s[i] == '='
  }

  /** A text decodes exactly when it is characters of the alphabet, not one more than a multiple of four, and at most
      two padding characters; padding says nothing. */
  lemma DecodingMeaning(s: string, t: string, p: string)
    requires s == t + p && AllSextets(t) && forall i :: 0 <= i < |p| ==> p[i] == '='
    ensures Base64UrlDecoding(s).Ok? <==> Padding(p) && |t| % 4 != 1
    ensures Padding(p) ==> Base64UrlDecoding(s) == Base64UrlDecoding(t)
  {
    StrippedIs(s, t, p);
    StrippedIs(t, t, "");
    DecodableMeaning(|t|);
  }

  lemma {:induction false} StrippedIs(s: string, t: string, p: string)
    requires s == t + p && AllSextets(t) && forall i :: 0 <= i < |p| ==> p[i] == '='
    ensures Stripped(s) == t
    decreases |p|
  {
    if p == "" {
      assert s == t;
    } else {
      assert s[|s| - 1] == p[|p| - 1] && s[..|s| - 1] == t + p[..|p| - 1];
      StrippedIs(s[..|s| - 1], t, p[..|p| - 1]);
    }
  }

  /** Texts known from section 10 of RFC 4648, for "f", "fo" and "foo". */
  lemma KnownBase64Url()
    ensures Base64UrlText([102]) == "Zg" && Base64UrlText([102, 111]) == "Zm8"
    ensures Base64UrlText([102, 111, 111]) == "Zm9v"
  {
    assert GroupText(102, 0, 0, 1) == "Zg";
    assert GroupText(102, 111, 0, 2) == "Zm8";
    assert GroupText(102, 111, 111, 3) == "Zm9v";
  }

  /** Bytes that need the last two characters of the alphabet, where base64url and base64 differ. */
  lemma KnownUrlSafe()
    ensures Base64UrlText([251, 255]) == "-_8"
  {
    assert GroupText(251, 255, 0, 2) == "-_8";
  }

  /** The high half of a byte comes first, in small letters. */
  lemma KnownHex()
    ensures ToHex([0x0f, 0xa5]) == "0fa5"
  {
    var bytes: seq<byte> := [0x0f, 0xa5];
    assert bytes[1..] == [0xa5];
    assert ToHex([0xa5]) == "a5";
  }

  // ------------------------------------------------------------------ detection

  function DetectEncoding(s: string): TextEncoding {
    if |s| == 0 then Hex
    else if |s| % 2 == 0 && AllHex(s) then Hex
    else Base64Url
  }

  lemma DetectsHex(bytes: seq<byte>)
    ensures DetectEncoding(ToHex(bytes)) == Hex
  {
  }

  /** Base64url text is recognised as such whenever the byte count leaves remainder two modulo
      three, which covers every 32-byte key and digest. */
  lemma DetectsBase64Url(bytes: seq<byte>)
    requires |bytes| % 3 == 2
    ensures DetectEncoding(Base64UrlText(bytes)) == Base64Url
  {
    Base64UrlLength(bytes);
    EncodedParity(|bytes|);
  }

  function ZeroBytes(n: nat): (bytes: seq<byte>)
    ensures |bytes| == n
  {
    seq(n, _ => 0)
  }

  predicate AllAs(s: string) {
    forall i :: 0 <= i < |s| ==> s[i] == 'A'
  }

  lemma ZeroGroup(g: seq<byte>)
    requires 1 <= |g| <= 3 && forall i :: 0 <= i < |g| ==> g[i] == 0
    ensures AllAs(EncodeGroup(g))
  {
    assert SextetChar(0) == 'A';
  }

  /** Zero bytes are written with the letter A alone, which is also a hexadecimal digit. */
  lemma {:induction false} ZeroText(n: nat)
    ensures AllAs(Base64UrlText(ZeroBytes(n)))
    decreases n
  {
    var bytes := ZeroBytes(n);
    if n > 3 {
      ZeroText(n - 3);
      ZeroGroup(bytes[..3]);
      assert bytes[3..] == ZeroBytes(n - 3);
    } else if n > 0 {
      ZeroGroup(bytes);
    }
  }

  lemma AsAreNotZero(s: string)
    requires |s| % 2 == 0 && s != "" && AllAs(s)
    ensures AllHex(s) && HexPairs(s)[0] == 170
  {
  }

  /** For every other positive byte count the heuristic misreads some text: the one for zero bytes is
      taken for hexadecimal and decodes to something else. */
  lemma DetectionIsAmbiguous(n: nat)
    requires n > 0 && n % 3 != 2
    ensures DetectEncoding(Base64UrlText(ZeroBytes(n))) == Hex
    ensures HexDecoding(Base64UrlText(ZeroBytes(n))) != Ok(ZeroBytes(n))
  {
    Base64UrlLength(ZeroBytes(n));
    EncodedParity(n);
    ZeroText(n);
    AsAreNotZero(Base64UrlText(ZeroBytes(n)));
  }

  /** The length condition is exact: all texts of a byte count are recognised if and only if it leaves
      remainder two modulo three. */
  lemma DetectionIsExact(n: nat)
    ensures (forall b: seq<byte> :: |b| == n ==> DetectEncoding(Base64UrlText(b)) == Base64Url) <==> n % 3 == 2
  {
    if n % 3 == 2 {
      forall b: seq<byte> | |b| == n ensures DetectEncoding(Base64UrlText(b)) == Base64Url {
        DetectsBase64Url(b);
      }
    } else {
      var zeros := ZeroBytes(n);
      if n == 0 {
        assert Base64UrlText(zeros) == "";
      } else {
        DetectionIsAmbiguous(n);
      }
      assert DetectEncoding(Base64UrlText(zeros)) == Hex;
    }
  }
}
