/** Positional notation in the two bases of base58 text: 58 for characters, 256 for bytes.

    `Value` reads digits with the least significant first, `BigValue` with the most significant
    first. `Transcode` rewrites a big-endian sequence in the other base, keeping one leading zero
    per leading zero of its input: this is what base58 does in both directions. */
module Positional {

  datatype Radix = Fifty8 | Bytes

  function Base(r: Radix): int {
    if r.Fifty8? then 58 else 256
  }

  function Other(r: Radix): Radix {
    if r.Fifty8? then Bytes else Fifty8
  }

  function Scale(r: Radix, x: int): int {
    if r.Fifty8? then 58 * x else 256 * x
  }

  function Quotient(r: Radix, x: int): int {
    if r.Fifty8? then x / 58 else x / 256
  }

  function Remainder(r: Radix, x: int): int {
    if r.Fifty8? then x % 58 else x % 256
  }

  lemma QuotientFacts(r: Radix, n: nat)
    ensures 0 <= Remainder(r, n) < Base(r) && n == Scale(r, Quotient(r, n)) + Remainder(r, n)
    ensures 0 <= Quotient(r, n) <= n && (n >= 1 ==> Quotient(r, n) < n) && (n >= Base(r) ==> Quotient(r, n) >= 1)
  {
  }

  lemma QuotientOf(r: Radix, q: nat, d: int)
    requires 0 <= d < Base(r)
    ensures Quotient(r, d + Scale(r, q)) == q && Remainder(r, d + Scale(r, q)) == d
    ensures q > 0 ==> d + Scale(r, q) >= Base(r)
  {
  }

  predicate Digits(s: seq<int>, r: Radix) {
    forall i :: 0 <= i < |s| ==> 0 <= s[i] < Base(r)
  }

  function Value(s: seq<int>, r: Radix): int {
    if s == [] then 0 else s[0] + Scale(r, Value(s[1..], r))
  }

  function BigValue(s: seq<int>, r: Radix): int {
    if s == [] then 0 else Scale(r, BigValue(s[..|s| - 1], r)) + s[|s| - 1]
  }

  /** At least one digit, and no superfluous most significant zero. */
  predicate Canonical(s: seq<int>) {
    |s| == 1 || (|s| > 1 && s[|s| - 1] != 0)
  }

  function ToDigits(n: nat, r: Radix): (s: seq<int>)
    ensures s != []
    decreases n
  {
    if n < Base(r) then [n] else
      QuotientFacts(r, n);
      [Remainder(r, n)] + ToDigits(Quotient(r, n), r)
  }

  lemma ConsValue(d: int, t: seq<int>, r: Radix)
    ensures Value([d] + t, r) == d + Scale(r, Value(t, r))
  {
    assert ([d] + t)[1..] == t;
  }

  lemma {:induction false} ToDigitsFacts(n: nat, r: Radix)
    ensures Digits(ToDigits(n, r), r) && Canonical(ToDigits(n, r))
    ensures Value(ToDigits(n, r), r) == n
    ensures n > 0 ==> ToDigits(n, r)[|ToDigits(n, r)| - 1] != 0
    decreases n
  {
    if n >= Base(r) {
      QuotientFacts(r, n);
      ToDigitsFacts(Quotient(r, n), r);
      PrefixDigit(Remainder(r, n), ToDigits(Quotient(r, n), r), r);
    } else {
      ConsValue(n, [], r);
      assert [n] + [] == [n];
    }
  }

  lemma PrefixDigit(d: int, t: seq<int>, r: Radix)
    requires 0 <= d < Base(r) && Digits(t, r) && t != [] && t[|t| - 1] != 0
    ensures var s := [d] + t;
      Digits(s, r) && Canonical(s) && s[|s| - 1] != 0 && Value(s, r) == d + Scale(r, Value(t, r))
  {
    ConsValue(d, t, r);
  }

  lemma {:induction false} ValueSign(s: seq<int>, r: Radix)
    requires Digits(s, r)
    ensures Value(s, r) >= 0
    ensures s != [] && s[|s| - 1] != 0 ==> Value(s, r) > 0
  {
    if s != [] {
      ValueSign(s[1..], r);
    }
  }

  /** Two canonical notations of one number in a given base are the same. */
  lemma {:induction false} NotationUnique(s: seq<int>, t: seq<int>, r: Radix)
    requires Digits(s, r) && Digits(t, r) && Canonical(s) && Canonical(t) && Value(s, r) == Value(t, r)
    ensures s == t
    decreases |s|
  {
    ValueSign(s[1..], r);
    ValueSign(t[1..], r);
    QuotientOf(r, Value(s[1..], r), s[0]);
    QuotientOf(r, Value(t[1..], r), t[0]);
    assert s == [s[0]] + s[1..] && t == [t[0]] + t[1..];
    if |s| > 1 && |t| > 1 {
      NotationUnique(s[1..], t[1..], r);
    }
  }

  lemma CanonicalUnique(s: seq<int>, r: Radix)
    requires Digits(s, r) && Canonical(s)
    ensures Value(s, r) >= 0 && ToDigits(Value(s, r), r) == s
  {
    ValueSign(s, r);
    ToDigitsFacts(Value(s, r), r);
    NotationUnique(s, ToDigits(Value(s, r), r), r);
  }

  function Reverse(s: seq<int>): (t: seq<int>)
    ensures |t| == |s| && forall i :: 0 <= i < |s| ==> t[i] == s[|s| - 1 - i]
  {
    seq(|s|, i requires 0 <= i < |s| => s[|s| - 1 - i])
  }

  lemma {:induction false} BigValueReverse(s: seq<int>, r: Radix)
    ensures BigValue(Reverse(s), r) == Value(s, r)
  {
    if s != [] {
      BigValueReverse(s[1..], r);
      assert Reverse(s)[..|s| - 1] == Reverse(s[1..]);
    }
  }

  /** Length of the leading run of zeros. */
  function LeadingZeros(s: seq<int>): (n: nat)
    ensures n <= |s| && (forall i :: 0 <= i < n ==> s[i] == 0) && (n < |s| ==> s[n] != 0)
  {
    if s != [] && s[0] == 0 then 1 + LeadingZeros(s[1..]) else 0
  }

  function Zeros(n: nat): (s: seq<int>)
    ensures |s| == n && forall i :: 0 <= i < n ==> s[i] == 0
  {
    seq(n, i => 0)
  }

  lemma {:induction false} BigValueLeadingZeros(n: nat, s: seq<int>, r: Radix)
    ensures BigValue(Zeros(n) + s, r) == BigValue(s, r)
  {
    if s != [] {
      BigValueLeadingZeros(n, s[..|s| - 1], r);
      assert (Zeros(n) + s)[..n + |s| - 1] == Zeros(n) + s[..|s| - 1];
    } else if n > 0 {
      BigValueLeadingZeros(n - 1, s, r);
      assert (Zeros(n) + s)[..n - 1] == Zeros(n - 1) + s;
    }
  }

  predicate HasNonZero(s: seq<int>) {
    exists i :: 0 <= i < |s| && s[i] != 0
  }

  lemma {:induction false} BigValueSign(s: seq<int>, r: Radix)
    requires Digits(s, r)
    ensures BigValue(s, r) >= 0
  {
    if s != [] {
      BigValueSign(s[..|s| - 1], r);
    }
  }

  function Transcode(s: seq<int>, from: Radix): seq<int>
    requires Digits(s, from)
  {
    BigValueSign(s, from);
    Zeros(LeadingZeros(s)) + Reverse(ToDigits(BigValue(s, from), Other(from)))
  }

  /** The digits after the leading zeros, least significant first. */
  function Significant(s: seq<int>): seq<int> {
    Reverse(s[LeadingZeros(s)..])
  }

  lemma LeadingSplit(s: seq<int>)
    ensures s == Zeros(LeadingZeros(s)) + s[LeadingZeros(s)..]
  {
  }

  lemma LeadingZerosAre(s: seq<int>, n: nat)
    requires n < |s| && s[n] != 0 && s[..n] == Zeros(n)
    ensures LeadingZeros(s) == n
  {
    assert forall i :: 0 <= i < n ==> s[i] == s[..n][i] == 0;
  }

  lemma ReverseTwice(s: seq<int>)
    ensures Reverse(Reverse(s)) == s
  {
  }

  lemma SignificantFacts(s: seq<int>, r: Radix)
    requires Digits(s, r) && HasNonZero(s)
    ensures var c := Significant(s); Digits(c, r) && c != [] && c[|c| - 1] != 0
  {
    LeadingBound(s);
  }

  /** Any sequence is its leading zeros followed by its significant digits. */
  lemma SplitLeading(s: seq<int>, r: Radix)
    ensures s == Zeros(LeadingZeros(s)) + Reverse(Significant(s))
    ensures BigValue(s, r) == Value(Significant(s), r)
  {
    LeadingSplit(s);
    ReverseTwice(s[LeadingZeros(s)..]);
    SplitValue(LeadingZeros(s), Significant(s), r);
  }

  lemma SplitValue(n: nat, c: seq<int>, r: Radix)
    ensures BigValue(Zeros(n) + Reverse(c), r) == Value(c, r)
  {
    BigValueLeadingZeros(n, Reverse(c), r);
    BigValueReverse(c, r);
  }

  lemma LeadingBound(s: seq<int>)
    requires HasNonZero(s)
    ensures LeadingZeros(s) < |s|
  {
  }

  /** Rewriting keeps the number, the leading zeros and the presence of a non-zero digit. */
  lemma TranscodeNonZero(s: seq<int>, from: Radix)
    requires Digits(s, from) && HasNonZero(s)
    ensures var t := Transcode(s, from);
      && Digits(t, Other(from)) && HasNonZero(t)
      && LeadingZeros(t) == LeadingZeros(s) && BigValue(t, Other(from)) == BigValue(s, from)
  {
    SplitLeading(s, from);
    SignificantFacts(s, from);
    ValueSign(Significant(s), from);
    PrefixedDigits(LeadingZeros(s), BigValue(s, from), Other(from));
  }

  lemma PrefixedDigits(n: nat, v: nat, r: Radix)
    requires v > 0
    ensures var t := Zeros(n) + Reverse(ToDigits(v, r));
      Digits(t, r) && HasNonZero(t) && LeadingZeros(t) == n && BigValue(t, r) == v
  {
    var d := ToDigits(v, r);
    ToDigitsFacts(v, r);
    PrefixedZeros(n, d);
    BigValueLeadingZeros(n, Reverse(d), r);
    BigValueReverse(d, r);
  }

  lemma PrefixedZeros(n: nat, d: seq<int>)
    requires d != [] && d[|d| - 1] != 0
    ensures HasNonZero(Zeros(n) + Reverse(d)) && LeadingZeros(Zeros(n) + Reverse(d)) == n
  {
    var t := Zeros(n) + Reverse(d);
    assert t[n] == d[|d| - 1] && t[..n] == Zeros(n);
    LeadingZerosAre(t, n);
  }

  /** Rewriting in the other base and back is the identity when some digit is not zero. */
  lemma TranscodeRoundTrip(s: seq<int>, from: Radix)
    requires Digits(s, from) && HasNonZero(s)
    ensures Digits(Transcode(s, from), Other(from))
    ensures Transcode(Transcode(s, from), Other(from)) == s
  {
    TranscodeNonZero(s, from);
    SplitLeading(s, from);
    SignificantFacts(s, from);
    CanonicalUnique(Significant(s), from);
  }

  /** A non-empty all-zero sequence gains one zero in each direction. */
  lemma TranscodeAllZero(s: seq<int>, from: Radix)
    requires s != [] && !HasNonZero(s)
    ensures Digits(s, from) && Transcode(s, from) == Zeros(|s| + 1)
  {
    assert s == Zeros(|s|) + [];
    BigValueLeadingZeros(|s|, [], from);
    assert LeadingZeros(s) == |s|;
    assert Reverse([0]) == [0];
  }

  // ------------------------------------------------------------------ in-place carry

  /** The digits that the two carry loops leave behind when the number is multiplied by the
      other base. */
  function Carried(digits: seq<int>, carry: nat, r: Radix): seq<int>
    requires Digits(digits, r)
  {
    if digits == [] then Pushed(carry, r) else
      var value := Scale(Other(r), digits[0]) + carry;
      QuotientFacts(r, value);
      [Remainder(r, value)] + Carried(digits[1..], Quotient(r, value), r)
  }

  function Pushed(carry: nat, r: Radix): seq<int> {
    if carry == 0 then [] else
      QuotientFacts(r, carry);
      [Remainder(r, carry)] + Pushed(Quotient(r, carry), r)
  }

  lemma {:induction false} PushedFacts(carry: nat, r: Radix)
    ensures Digits(Pushed(carry, r), r) && Value(Pushed(carry, r), r) == carry
    ensures carry > 0 ==> Pushed(carry, r) != [] && Pushed(carry, r)[|Pushed(carry, r)| - 1] != 0
  {
    if carry > 0 {
      QuotientFacts(r, carry);
      PushedFacts(Quotient(r, carry), r);
      ConsValue(Remainder(r, carry), Pushed(Quotient(r, carry), r), r);
    }
  }

  lemma ConsDigits(d: int, t: seq<int>, r: Radix)
    requires 0 <= d < Base(r) && Digits(t, r)
    ensures Digits([d] + t, r)
  {
  }

  /** The carry loops multiply by the other base and add `carry`. */
  lemma {:induction false} CarriedValue(digits: seq<int>, carry: nat, r: Radix)
    requires Digits(digits, r)
    ensures Digits(Carried(digits, carry, r), r)
    ensures Value(Carried(digits, carry, r), r) == Scale(Other(r), Value(digits, r)) + carry
  {
    if digits == [] {
      PushedFacts(carry, r);
    } else {
      var q := Quotient(r, Scale(Other(r), digits[0]) + carry);
      QuotientFacts(r, Scale(Other(r), digits[0]) + carry);
      CarriedValue(digits[1..], q, r);
      CarriedDigit(digits, carry, Carried(digits[1..], q, r), r);
    }
  }

  /** One turn of the loop, once the rest of the digits is right. */
  lemma CarriedDigit(digits: seq<int>, carry: nat, rest: seq<int>, r: Radix)
    requires digits != [] && Digits(digits, r) && Digits(rest, r)
    requires Value(rest, r) ==
      Scale(Other(r), Value(digits[1..], r)) + Quotient(r, Scale(Other(r), digits[0]) + carry)
    ensures var d := [Remainder(r, Scale(Other(r), digits[0]) + carry)] + rest;
      Digits(d, r) && Value(d, r) == Scale(Other(r), Value(digits, r)) + carry
  {
    var value := Scale(Other(r), digits[0]) + carry;
    QuotientFacts(r, value);
    ConsDigits(Remainder(r, value), rest, r);
    ConsValue(Remainder(r, value), rest, r);
    CarryArithmetic(digits[0], carry, Value(digits[1..], r), r);
  }

  lemma CarryArithmetic(d: int, carry: int, tail: int, r: Radix)
    requires 0 <= d && 0 <= carry
    ensures var value := Scale(Other(r), d) + carry;
      Remainder(r, value) + Scale(r, Scale(Other(r), tail) + Quotient(r, value))
      == Scale(Other(r), d + Scale(r, tail)) + carry
  {
    QuotientFacts(r, Scale(Other(r), d) + carry);
  }

  /** They leave no superfluous most significant zero. */
  lemma {:induction false} CarriedTop(digits: seq<int>, carry: nat, r: Radix)
    requires Digits(digits, r) && Canonical(digits)
    ensures Canonical(Carried(digits, carry, r)) && |Carried(digits, carry, r)| >= |digits|
    ensures digits[|digits| - 1] != 0 ==> Carried(digits, carry, r)[|Carried(digits, carry, r)| - 1] != 0
  {
    if |digits| == 1 {
      CarriedOne(digits[0], carry, r);
      assert digits == [digits[0]];
    } else {
      var value := Scale(Other(r), digits[0]) + carry;
      QuotientFacts(r, value);
      CarriedTop(digits[1..], Quotient(r, value), r);
      ConsTop(Remainder(r, value), Carried(digits[1..], Quotient(r, value), r));
    }
  }

  lemma ConsTop(d: int, t: seq<int>)
    requires t != [] && t[|t| - 1] != 0
    ensures Canonical([d] + t) && ([d] + t)[|t|] != 0
  {
  }

  lemma CarriedOne(d: int, carry: nat, r: Radix)
    requires 0 <= d < Base(r)
    ensures var s := Carried([d], carry, r); Canonical(s) && |s| >= 1 && (d != 0 ==> s[|s| - 1] != 0)
  {
    var value := Scale(Other(r), d) + carry;
    QuotientFacts(r, value);
    PushedTop(Remainder(r, value), Quotient(r, value), r);
    assert Carried([d], carry, r) == [Remainder(r, value)] + Pushed(Quotient(r, value), r) by {
      assert [d][1..] == [];
    }
  }

  lemma PushedTop(d: int, carry: nat, r: Radix)
    ensures var s := [d] + Pushed(carry, r); Canonical(s) && (d != 0 || carry > 0 ==> s[|s| - 1] != 0)
  {
    PushedFacts(carry, r);
  }

  /** The digit loop shared by both directions: multiply the number in `digits` by the other base
      and add `addend`, rewriting the digits in place and appending what is left of the carry. */
  method MultiplyAdd(digits: seq<int>, addend: nat, r: Radix) returns (d: seq<int>)
    requires addend < Base(Other(r))
    requires Digits(digits, r) && Canonical(digits)
    ensures Digits(d, r) && Canonical(d)
    ensures Value(d, r) == Scale(Other(r), Value(digits, r)) + addend
  {
    var carry: nat;
    d, carry := CarryLoop(digits, addend, r);
    d := PushCarry(d, carry, r);
    CarriedValue(digits, addend, r);
    CarriedTop(digits, addend, r);
  }

  /** The first loop. The carry never reaches the other base: 255 is its bound when encoding, 57
      when decoding. */
  method CarryLoop(digits: seq<int>, addend: nat, r: Radix) returns (d: seq<int>, carry: nat)
    requires addend < Base(Other(r)) && Digits(digits, r)
    ensures carry <= Base(Other(r)) - 1
    ensures d + Pushed(carry, r) == Carried(digits, addend, r)
  {
    d, carry := digits, addend;
    var index := 0;
    while index < |d|
      invariant 0 <= index <= |d| == |digits|
      invariant carry <= Base(Other(r)) - 1
      invariant d[index..] == digits[index..]
      invariant d[..index] + Carried(digits[index..], carry, r) == Carried(digits, addend, r)
    {
      var value := Scale(Other(r), d[index]) + carry;
      CarryStep(d, digits, index, carry, r);
      d := d[index := Remainder(r, value)];
      carry := Quotient(r, value);
      index := index + 1;
    }
    assert d[..index] == d && digits[index..] == [];
  }

  /** The second loop: append the digits of what is left of the carry. */
  method PushCarry(digits: seq<int>, left: nat, r: Radix) returns (d: seq<int>)
    ensures d == digits + Pushed(left, r)
  {
    d := digits;
    var carry: nat := left;
    while carry > 0
      invariant d + Pushed(carry, r) == digits + Pushed(left, r)
    {
      QuotientFacts(r, carry);
      d := d + [Remainder(r, carry)];
      carry := Quotient(r, carry);
    }
  }

  /** One turn of the first carry loop. */
  lemma CarryStep(d: seq<int>, digits: seq<int>, index: nat, carry: nat, r: Radix)
    requires index < |d| == |digits| && d[index..] == digits[index..] && Digits(digits, r)
    requires carry <= Base(Other(r)) - 1
    ensures var value := Scale(Other(r), d[index]) + carry;
      && 0 <= Quotient(r, value) <= Base(Other(r)) - 1
      && d[index := Remainder(r, value)][index + 1..] == digits[index + 1..]
      && d[..index] + Carried(digits[index..], carry, r)
         == d[index := Remainder(r, value)][..index + 1] + Carried(digits[index + 1..], Quotient(r, value), r)
  {
    var rest := digits[index..];
    assert d[index] == d[index..][0] == rest[0] && rest[1..] == digits[index + 1..];
    var value := Scale(Other(r), d[index]) + carry;
    QuotientFacts(r, value);
    assert d[index := Remainder(r, value)][..index + 1] == d[..index] + [Remainder(r, value)];
    assert d[index := Remainder(r, value)][index + 1..] == d[index..][1..];
  }
}

/** base58 text and the did:key identifiers built from it. */
module DidKey {
  import opened Encoding
  import opened Positional

  datatype KeyError = InvalidCharacter | NotBase58Btc | WrongLength | NotEd25519

  datatype KeyResult<+T> = KeyOk(value: T) | KeyErr(error: KeyError)

  /** The alphabet 1-9 A-Z a-z without O, I and l, by position. */
  function AlphabetChar(n: int): char
    requires 0 <= n < 58
  {
    if n < 9 then ('1' as int + n) as char
    else if n < 17 then ('A' as int + (n - 9)) as char
    else if n < 22 then ('J' as int + (n - 17)) as char
    else if n < 33 then ('P' as int + (n - 22)) as char
    else if n < 44 then ('a' as int + (n - 33)) as char
    else ('m' as int + (n - 44)) as char
  }

  predicate InAlphabet(c: char) {
    '1' <= c <= '9' || 'A' <= c <= 'H' || 'J' <= c <= 'N' || 'P' <= c <= 'Z' || 'a' <= c <= 'k' || 'm' <= c <= 'z'
  }

  function AlphabetIndex(c: char): (n: int)
    requires InAlphabet(c)
    ensures 0 <= n < 58 && AlphabetChar(n) == c
  {
    if c <= '9' then c as int - '1' as int
    else if c <= 'H' then c as int - 'A' as int + 9
    else if c <= 'N' then c as int - 'J' as int + 17
    else if c <= 'Z' then c as int - 'P' as int + 22
    else if c <= 'k' then c as int - 'a' as int + 33
    else c as int - 'm' as int + 44
  }

  lemma AlphabetInverse(n: int)
    requires 0 <= n < 58
    ensures InAlphabet(AlphabetChar(n)) && AlphabetIndex(AlphabetChar(n)) == n
  {
  }

  /** The alphabet is every digit and letter except 0, O, I and l, in the order of their codes. */
  lemma AlphabetMeaning(m: int, n: int, c: char)
    requires 0 <= m < n < 58
    ensures AlphabetChar(m) < AlphabetChar(n)
    ensures InAlphabet(c) <==>
      ('0' <= c <= '9' || 'A' <= c <= 'Z' || 'a' <= c <= 'z') && c != '0' && c != 'O' && c != 'I' && c != 'l'
  {
  }

  function Chars(digits: seq<int>): string
    requires Digits(digits, Fifty8)
  {
    seq(|digits|, i requires 0 <= i < |digits| => AlphabetChar(digits[i]))
  }

  predicate AllInAlphabet(s: string) {
    forall i :: 0 <= i < |s| ==> InAlphabet(s[i])
  }

  function Indices(s: string): (digits: seq<int>)
    requires AllInAlphabet(s)
    ensures Digits(digits, Fifty8) && |digits| == |s|
  {
    seq(|s|, i requires 0 <= i < |s| => AlphabetIndex(s[i]))
  }

  lemma IndicesOfChars(digits: seq<int>)
    requires Digits(digits, Fifty8)
    ensures AllInAlphabet(Chars(digits)) && Indices(Chars(digits)) == digits
  {
    forall i | 0 <= i < |digits| ensures InAlphabet(Chars(digits)[i]) && AlphabetIndex(Chars(digits)[i]) == digits[i] {
      AlphabetInverse(digits[i]);
    }
  }

  lemma TranscodeDigits(s: seq<int>, from: Radix)
    requires Digits(s, from)
    ensures Digits(Transcode(s, from), Other(from))
  {
    BigValueSign(s, from);
    ToDigitsFacts(BigValue(s, from), Other(from));
  }

  /** What base58 encoding means: the number of the bytes in base 58, after one '1' per leading
      zero byte. */
  function Base58Text(bytes: seq<byte>): string {
    if bytes == [] then "" else
      TranscodeDigits(bytes, Bytes);
      Chars(Transcode(bytes, Bytes))
  }

  function Base58Bytes(s: string): KeyResult<seq<byte>> {
    if s == "" then KeyOk([])
    else if !AllInAlphabet(s) then KeyErr(InvalidCharacter)
    else
      TranscodeDigits(Indices(s), Fifty8);
      KeyOk(Transcode(Indices(s), Fifty8))
  }

  method EncodeBase58(bytes: seq<byte>) returns (output: string)
    ensures output == Base58Text(bytes)
  {
    if |bytes| == 0 {
      return "";
    }
    var digits := EncodeDigits(bytes);
    output := LeadingOnes(bytes);
    var tail := FromTheTop(digits);
    output := output + tail;
    TextAssembles(bytes, digits);
  }

  /** The number of the bytes in base 58, least significant digit first. */
  method EncodeDigits(bytes: seq<byte>) returns (digits: seq<int>)
    ensures Digits(digits, Fifty8) && NumberOf(bytes, Bytes) == digits
  {
    digits := [0];
    var k := 0;
    while k < |bytes|
      invariant 0 <= k <= |bytes| && Digits(digits, Fifty8) && Canonical(digits)
      invariant Value(digits, Fifty8) == BigValue(bytes[..k], Bytes)
    {
      digits := MultiplyAdd(digits, bytes[k], Fifty8);
      BigValueNext(bytes, k, Bytes);
      k := k + 1;
    }
    assert bytes[..k] == bytes;
    CanonicalUnique(digits, Fifty8);
  }

  /** The canonical notation, in the other base, of the number that `s` writes. */
  function NumberOf(s: seq<int>, from: Radix): (digits: seq<int>)
    requires Digits(s, from)
  {
    BigValueSign(s, from);
    ToDigits(BigValue(s, from), Other(from))
  }

  lemma BigValueNext(s: seq<int>, k: nat, r: Radix)
    requires k < |s|
    ensures BigValue(s[..k + 1], r) == Scale(r, BigValue(s[..k], r)) + s[k]
  {
    assert s[..k + 1][..k] == s[..k];
  }

  lemma CharsConcat(a: seq<int>, b: seq<int>)
    requires Digits(a, Fifty8) && Digits(b, Fifty8)
    ensures Digits(a + b, Fifty8) && Chars(a + b) == Chars(a) + Chars(b)
  {
  }

  lemma TextAssembles(bytes: seq<byte>, digits: seq<int>)
    requires bytes != [] && Digits(digits, Fifty8) && NumberOf(bytes, Bytes) == digits
    ensures Base58Text(bytes) == Chars(Zeros(LeadingZeros(bytes))) + Chars(Reverse(digits))
  {
    TranscodeDigits(bytes, Bytes);
    CharsConcat(Zeros(LeadingZeros(bytes)), Reverse(digits));
  }

  /** The digits as characters, most significant first. */
  method FromTheTop(digits: seq<int>) returns (output: string)
    requires Digits(digits, Fifty8)
    ensures output == Chars(Reverse(digits))
  {
    output := "";
    var index := |digits| - 1;
    while index >= 0
      invariant -1 <= index < |digits|
      invariant output == Chars(Reverse(digits))[..|digits| - 1 - index]
    {
      output := output + [AlphabetChar(digits[index])];
      index := index - 1;
    }
  }

  /** One '1' per leading zero byte. */
  method LeadingOnes(bytes: seq<byte>) returns (output: string)
    ensures output == Chars(Zeros(LeadingZeros(bytes)))
  {
    var zeros := 0;
    output := "";
    while zeros < |bytes| && bytes[zeros] == 0
      invariant 0 <= zeros <= LeadingZeros(bytes) && output == Chars(Zeros(zeros))
    {
      output := output + [AlphabetChar(0)];
      zeros := zeros + 1;
    }
  }

  method DecodeBase58(value: string) returns (r: KeyResult<seq<byte>>)
    ensures r == Base58Bytes(value)
  {
    if |value| == 0 {
      return KeyOk([]);
    }
    var number := DecodeDigits(value);
    if number.KeyErr? {
      return KeyErr(InvalidCharacter);
    }
    var bytes := PushZeros(number.value, value);
    TranscodeDigits(Indices(value), Fifty8);
    return KeyOk(Reverse(bytes));
  }

  /** The number of the text in base 256, least significant byte first. */
  method DecodeDigits(value: string) returns (r: KeyResult<seq<int>>)
    ensures r == if AllInAlphabet(value) then KeyOk(NumberOf(Indices(value), Fifty8)) else KeyErr(InvalidCharacter)
  {
    var bytes: seq<int> := [0];
    var k := 0;
    while k < |value|
      invariant 0 <= k <= |value| && AllInAlphabet(value[..k])
      invariant Digits(bytes, Bytes) && Canonical(bytes)
      invariant Value(bytes, Bytes) == BigValue(Indices(value[..k]), Fifty8)
    {
      if !InAlphabet(value[k]) {
        return KeyErr(InvalidCharacter);
      }
      bytes := MultiplyAdd(bytes, AlphabetIndex(value[k]), Bytes);
      IndicesNext(value, k);
      k := k + 1;
    }
    assert value[..k] == value;
    CanonicalUnique(bytes, Bytes);
    r := KeyOk(bytes);
  }

  lemma IndicesNext(value: string, k: nat)
    requires k < |value| && AllInAlphabet(value[..k]) && InAlphabet(value[k])
    ensures AllInAlphabet(value[..k + 1])
    ensures BigValue(Indices(value[..k + 1]), Fifty8) ==
      Scale(Fifty8, BigValue(Indices(value[..k]), Fifty8)) + AlphabetIndex(value[k])
  {
    assert Indices(value[..k + 1])[..k] == Indices(value[..k]);
  }

  /** Appends one zero byte per leading '1'. */
  method PushZeros(number: seq<int>, value: string) returns (bytes: seq<int>)
    requires AllInAlphabet(value)
    ensures Reverse(bytes) == Zeros(LeadingZeros(Indices(value))) + Reverse(number)
  {
    bytes := number;
    AlphabetInverse(0);
    var zeros := 0;
    while zeros < |value| && value[zeros] == AlphabetChar(0)
      invariant 0 <= zeros <= LeadingZeros(Indices(value)) && bytes == number + Zeros(zeros)
    {
      assert Indices(value)[zeros] == 0;
      bytes := bytes + [0];
      zeros := zeros + 1;
    }
    if zeros < |value| {
      assert Indices(value)[zeros] != 0;
    }
  }

  /** Decoding inverts encoding exactly on the byte strings that are empty or have a non-zero byte. */
  lemma Base58RoundTrip(bytes: seq<byte>)
    ensures Base58Bytes(Base58Text(bytes)) == KeyOk(bytes) <==> (bytes == [] || HasNonZero(bytes))
  {
    if bytes != [] {
      TranscodeDigits(bytes, Bytes);
      var digits := Transcode(bytes, Bytes);
      IndicesOfChars(digits);
      if HasNonZero(bytes) {
        TranscodeRoundTrip(bytes, Bytes);
      } else {
        TranscodeAllZero(bytes, Bytes);
        TranscodeAllZero(digits, Fifty8);
      }
    }
  }

  /** Encoding inverts decoding exactly on the texts that are empty or have a character other than
      '1', so decoding is injective there. */
  lemma Base58TextRoundTrip(s: string)
    requires AllInAlphabet(s)
    ensures Base58Bytes(s).KeyOk?
    ensures Base58Text(Base58Bytes(s).value) == s <==> (s == "" || exists i :: 0 <= i < |s| && s[i] != '1')
  {
    if s != "" {
      var indices := Indices(s);
      TranscodeDigits(indices, Fifty8);
      var bytes := Transcode(indices, Fifty8);
      assert Chars(indices) == s;
      if i :| 0 <= i < |s| && s[i] != '1' {
        assert indices[i] != 0;
        TranscodeRoundTrip(indices, Fifty8);
      } else {
        assert !HasNonZero(indices);
        TranscodeAllZero(indices, Fifty8);
        TranscodeAllZero(bytes, Bytes);
      }
    }
  }

  const MULTICODEC_PREFIX: seq<byte> := [0xed, 0x01]

  function PublicKeyToDidKey(key: seq<byte>): string {
    "did:key:z" + Base58Text(MULTICODEC_PREFIX + key)
  }

  function DecodeDidKeyPayload(id: string): KeyResult<seq<byte>> {
    if |id| == 0 || id[0] != 'z' then KeyErr(NotBase58Btc) else
      match Base58Bytes(id[1..])
      case KeyErr(e) => KeyErr(e)
      case KeyOk(bytes) =>
        if |bytes| != 34 then KeyErr(WrongLength)
        else if bytes[..2] != MULTICODEC_PREFIX then KeyErr(NotEd25519)
        else KeyOk(bytes[2..])
  }

  /** An identifier is read as a key exactly when it is a z followed by base58 of the prefix ed01 and 32 bytes. */
  lemma PayloadMeaning(id: string, key: seq<byte>)
    ensures DecodeDidKeyPayload(id) == KeyOk(key) <==>
      |key| == 32 && |id| > 0 && id[0] == 'z' && Base58Bytes(id[1..]) == KeyOk([0xed, 0x01] + key)
    ensures DecodeDidKeyPayload(id) == KeyErr(NotBase58Btc) <==> |id| == 0 || id[0] != 'z'
    ensures DecodeDidKeyPayload(id) == KeyErr(InvalidCharacter) <==>
      |id| > 0 && id[0] == 'z' && exists i :: 1 <= i < |id| && !InAlphabet(id[i])
  {
    if |id| > 0 {
      assert forall i :: 1 <= i < |id| ==> id[i] == id[1..][i - 1];
    }
    if |id| > 0 && id[0] == 'z' && Base58Bytes(id[1..]).KeyOk? {
      var bytes := Base58Bytes(id[1..]).value;
      if |bytes| == 34 { assert bytes == bytes[..2] + bytes[2..]; }
      var whole: seq<byte> := [0xed, 0x01] + key;
      assert whole[..2] == [0xed, 0x01] && whole[2..] == key;
    }
  }

  /** Known texts: 97 is 1 * 58 + 39, and a leading zero byte is a leading one. */
  lemma KnownBase58()
    ensures Base58Text([97]) == "2g" && Base58Text([0, 97]) == "12g"
  {
    KnownDigits();
    var bytes: seq<byte> := [0, 97];
    assert [97][..0] == [] && bytes[..1] == [0] && [0][..0] == [];
    assert LeadingZeros(bytes) == 1;
  }

  lemma KnownDigits()
    ensures ToDigits(97, Fifty8) == [39, 1]
  {
    assert ToDigits(1, Fifty8) == [1];
  }

  /** did:key decoding recovers the key from its identifier, for every 32-byte key and no other. */
  lemma DidKeyRoundTrip(key: seq<byte>)
    ensures |key| == 32 ==> DecodeDidKeyPayload(PublicKeyToDidKey(key)[|"did:key:"|..]) == KeyOk(key)
    ensures |key| != 32 ==> DecodeDidKeyPayload(PublicKeyToDidKey(key)[|"did:key:"|..]) == KeyErr(WrongLength)
  {
    var payload := MULTICODEC_PREFIX + key;
    var id := PublicKeyToDidKey(key)[|"did:key:"|..];
    assert id == "z" + Base58Text(payload);
    assert id[1..] == Base58Text(payload);
    assert payload[0] != 0;
    Base58RoundTrip(payload);
    assert payload[2..] == key;
  }
}
