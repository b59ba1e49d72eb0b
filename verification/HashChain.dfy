/** The append-only hash chain: every record names the hash of its predecessor.

    SHA-256 and JSON canonicalization (section 3.2 of RFC 8785) are parameters. No function onto
    32-byte digests is injective, so the tamper-evidence results hand back an explicit collision
    where injectivity would otherwise be assumed. */
module HashChain {
  import opened Common
  import opened Encoding

  type Digest = d: seq<byte> | |d| == 32 witness seq(32, i => 0)

  /** The `prevHash` property of a record, as JavaScript sees it. */
  datatype PrevField = Absent | Undefined | Null | Text(text: string) | NotAString

  /** `content` stands for every other property. */
  datatype Record = Record(content: string, prev: PrevField)

  datatype Crypto = Crypto(sha: seq<byte> -> Digest, canonical: Record -> seq<byte>)

  ghost predicate CanonicalInjective(c: Crypto) {
    forall a, b :: c.canonical(a) == c.canonical(b) ==> a == b
  }

  ghost predicate Collision(c: Crypto, x: seq<byte>, y: seq<byte>) {
    x != y && c.sha(x) == c.sha(y)
  }

  /** UTF-8 of the text; the hashed texts are hexadecimal, so one byte per character. */
  function TextBytes(s: string): (bytes: seq<byte>)
    ensures |bytes| == |s|
  {
    seq(|s|, i requires 0 <= i < |s| => s[i] as int % 256)
  }

  // ------------------------------------------------------------------ reading prevHash

  function Decoded32(d: Decoded<seq<byte>>, text: string): Decoded<Option<string>> {
    match d
    case Err(e) => Err(e)
    case Ok(bytes) => if |bytes| != 32 then Err(InvalidHashFormat) else Ok(Some(text))
  }

  function PrevHashStrict(r: Record): Decoded<Option<string>> {
    match r.prev
    case Absent => Ok(None)
    case Undefined => Ok(None)
    case Null => Ok(None)
    case NotAString => Err(HashChainBroken)
    case Text(t) => if t == "" then Err(InvalidHashFormat) else Decoded32(HexDecoding(t), t)
  }

  function NormalizePrevHash(r: Record): Decoded<Option<string>> {
    match r.prev
    case Absent => Ok(None)
    case Undefined => Ok(None)
    case Null => Ok(None)
    case NotAString => Err(HashChainBroken)
    case Text(t) =>
      if t == "" then Err(InvalidHashFormat)
      else if DetectEncoding(t) == Base64Url then
        match Base64UrlDecoding(t)
        case Err(e) => Err(e)
        case Ok(bytes) => if |bytes| != 32 then Err(InvalidHashFormat) else Ok(Some(ToHex(bytes)))
      else Decoded32(HexDecoding(t), Lower(t))
  }

  function WithPrev(r: Record, p: Option<string>): Record {
    r.(prev := if p.None? then Null else Text(p.value))
  }

  function HashInput(c: Crypto, r: Record, p: Option<string>): seq<byte> {
    TextBytes(if p.None? then "" else p.value) + c.canonical(r)
  }

  function ComputeRecordHash(c: Crypto, r: Record): Decoded<string> {
    match PrevHashStrict(r)
    case Err(e) => Err(e)
    case Ok(p) =>
      if r.prev.Undefined? then Err(SerializationFailed)
      else Ok(ToHex(c.sha(HashInput(c, r, p))))
  }

  /** The hash of a record whose prevHash is first rewritten as `p`. */
  function NormalHash(c: Crypto, r: Record, p: Option<string>): (h: string)
    ensures |h| == 64
  {
    ToHex(c.sha(HashInput(c, WithPrev(r, p), p)))
  }

  /** What a normalized prevHash looks like: absent or 64 lower-case hexadecimal characters. */
  predicate NormalForm(p: Option<string>) {
    p.Some? ==> |p.value| == 64 && AllHex(p.value) && Lower(p.value) == p.value
  }

  lemma NormalizedIsNormal(r: Record)
    ensures NormalizePrevHash(r).Ok? ==> NormalForm(NormalizePrevHash(r).value)
  {
    if r.prev.Text? && NormalizePrevHash(r).Ok? {
      var t := r.prev.text;
      if DetectEncoding(t) == Base64Url {
        ToHexIsLower(Base64UrlDecoding(t).value);
      } else {
        HexTextRoundTrip(t);
        ToHexIsLower(HexPairs(t));
      }
    }
  }

  lemma StrictOnNormal(c: Crypto, r: Record, p: Option<string>)
    requires NormalForm(p)
    ensures PrevHashStrict(WithPrev(r, p)) == Ok(p) && NormalizePrevHash(WithPrev(r, p)) == Ok(p)
    ensures ComputeRecordHash(c, WithPrev(r, p)) == Ok(NormalHash(c, r, p))
  {
  }

  /** What is hashed: the previous hash as text, then the canonical record; nothing for no previous hash. */
  lemma RecordHashMeaning(c: Crypto, r: Record)
    ensures r.prev == Null || r.prev == Absent ==> ComputeRecordHash(c, r) == Ok(ToHex(c.sha(c.canonical(r))))
    ensures r.prev == Undefined ==> ComputeRecordHash(c, r) == Err(SerializationFailed)
    ensures r.prev.Text? && |r.prev.text| == 64 && AllHex(r.prev.text) ==>
      ComputeRecordHash(c, r) == Ok(ToHex(c.sha(TextBytes(r.prev.text) + c.canonical(r))))
    ensures r.prev.Text? && !(|r.prev.text| == 64 && AllHex(r.prev.text)) ==> ComputeRecordHash(c, r).Err?
    ensures r.prev == NotAString ==> ComputeRecordHash(c, r) == Err(HashChainBroken)
  {
    if r.prev == Null || r.prev == Absent {
      assert HashInput(c, r, None) == c.canonical(r);
    }
  }

  /** How a prevHash is read for verification: no value is none; a text must stand for 32 bytes, as hexadecimal or
      base64url, and is read as small hexadecimal; each other field has its error. */
  lemma ReadingMeaning(r: Record)
    ensures r.prev == Absent || r.prev == Undefined || r.prev == Null ==> NormalizePrevHash(r) == Ok(None)
    ensures r.prev == NotAString ==> NormalizePrevHash(r) == Err(HashChainBroken)
    ensures r.prev == Text("") ==> NormalizePrevHash(r) == Err(InvalidHashFormat)
    ensures r.prev.Text? && r.prev.text != "" ==> NormalizePrevHash(r) == ReadDigest(ReadBytes(r.prev.text))
  {
    if r.prev.Text? && |r.prev.text| % 2 == 0 && AllHex(r.prev.text) { HexTextRoundTrip(r.prev.text); }
  }

  /** The bytes that a text stands for. */
  function ReadBytes(t: string): Decoded<seq<byte>> {
    if |t| % 2 == 0 && AllHex(t) then HexDecoding(t) else Base64UrlDecoding(t)
  }

  function ReadDigest(d: Decoded<seq<byte>>): Decoded<Option<string>> {
    match d
    case Err(e) => Err(e)
    case Ok(bytes) => if |bytes| == 32 then Ok(Some(ToHex(bytes))) else Err(InvalidHashFormat)
  }

  // ------------------------------------------------------------------ verification

  datatype VerifyResult =
    | Valid(chainLength: nat)
    | Broken(index: nat, expected: Option<string>, actual: Option<string>)
    | Thrown(error: CryptoError)

  function VerifyFrom(c: Crypto, records: seq<Record>, index: nat, expected: Option<string>): VerifyResult
    requires index <= |records|
    decreases |records| - index
  {
    if index == |records| then Valid(|records|) else
      match NormalizePrevHash(records[index])
      case Err(e) => Thrown(e)
      case Ok(actual) =>
        if actual != expected then Broken(index, expected, actual)
        else VerifyFrom(c, records, index + 1, Some(NormalHash(c, records[index], actual)))
  }

  function VerifyChain(c: Crypto, records: seq<Record>): VerifyResult {
    VerifyFrom(c, records, 0, None)
  }

  /** The prevHash that record `i` must carry. */
  function Expected(c: Crypto, records: seq<Record>, i: nat): Option<string>
    requires i <= |records|
  {
    if i == 0 then None else
      match NormalizePrevHash(records[i - 1])
      case Err(_) => None
      case Ok(p) => Some(NormalHash(c, records[i - 1], p))
  }

  predicate LinkedAt(c: Crypto, records: seq<Record>, i: nat)
    requires i < |records|
  {
    NormalizePrevHash(records[i]) == Ok(Expected(c, records, i))
  }

  ghost predicate Linked(c: Crypto, records: seq<Record>, n: nat)
    requires n <= |records|
  {
    forall i :: 0 <= i < n ==> LinkedAt(c, records, i)
  }

  /** What the records carry, and what each leads the next to be expected to carry. */
  function Carried(records: seq<Record>): seq<Decoded<Option<string>>> {
    seq(|records|, i requires 0 <= i < |records| => NormalizePrevHash(records[i]))
  }

  function Led(c: Crypto, records: seq<Record>): seq<Option<string>> {
    seq(|records|, i requires 0 <= i < |records| => Expected(c, records, i + 1))
  }

  /** Verification on those two lists alone. */
  function Walk(
    carried: seq<Decoded<Option<string>>>, led: seq<Option<string>>, index: nat, expected: Option<string>): VerifyResult
    requires index <= |carried| == |led|
    decreases |carried| - index
  {
    if index == |carried| then Valid(|carried|) else
      match carried[index]
      case Err(e) => Thrown(e)
      case Ok(actual) =>
        if actual != expected then Broken(index, expected, actual)
        else Walk(carried, led, index + 1, led[index])
  }

  lemma VerifyStep(c: Crypto, records: seq<Record>, i: nat, expected: Option<string>)
    requires i < |records|
    ensures VerifyFrom(c, records, i, expected) ==
            match Carried(records)[i]
            case Err(e) => Thrown(e)
            case Ok(actual) =>
              if actual != expected then Broken(i, expected, actual)
              else VerifyFrom(c, records, i + 1, Led(c, records)[i])
  {
    var d := NormalizePrevHash(records[i]);
    assert Carried(records)[i] == d && Led(c, records)[i] == Expected(c, records, i + 1);
    if d.Ok? {
      ExpectedNext(c, records, i, d.value);
    }
  }

  lemma {:induction false} VerifyIsWalk(c: Crypto, records: seq<Record>, i: nat, expected: Option<string>)
    requires i <= |records|
    ensures VerifyFrom(c, records, i, expected) == Walk(Carried(records), Led(c, records), i, expected)
    decreases |records| - i
  {
    if i < |records| {
      VerifyStep(c, records, i, expected);
      VerifyIsWalk(c, records, i + 1, Led(c, records)[i]);
    }
  }

  /** The walk stops at the first entry that is not what the one before led to. */
  lemma {:induction false} WalkLinked(
    carried: seq<Decoded<Option<string>>>, led: seq<Option<string>>, from: nat, end: nat, expected: Option<string>,
    last: Option<string>)
    requires from <= end <= |carried| == |led|
    requires forall i :: from <= i < end ==> carried[i] == Ok(if i == from then expected else led[i - 1])
    requires last == if from == end then expected else led[end - 1]
    ensures Walk(carried, led, from, expected) == Walk(carried, led, end, last)
    decreases end - from
  {
    if from < end {
      WalkLinked(carried, led, from + 1, end, led[from], last);
    }
  }

  lemma LinkedIsLed(c: Crypto, records: seq<Record>, i: nat)
    requires i < |records| && LinkedAt(c, records, i)
    ensures Carried(records)[i] == Ok(if i == 0 then None else Led(c, records)[i - 1])
  {
  }

  lemma WalkToEnd(c: Crypto, records: seq<Record>, end: nat, last: Option<string>)
    requires end <= |records| && Linked(c, records, end) && last == Expected(c, records, end)
    ensures Walk(Carried(records), Led(c, records), 0, None) == Walk(Carried(records), Led(c, records), end, last)
  {
    forall i: nat | i < end ensures Carried(records)[i] == Ok(if i == 0 then None else Led(c, records)[i - 1]) {
      assert LinkedAt(c, records, i);
      LinkedIsLed(c, records, i);
    }
    WalkLinked(Carried(records), Led(c, records), 0, end, None, last);
  }

  /** Verification stops at the first record that is not linked to its predecessor. */
  lemma VerifyFromLinked(c: Crypto, records: seq<Record>, end: nat)
    requires end <= |records| && Linked(c, records, end)
    ensures VerifyFrom(c, records, 0, None) == VerifyFrom(c, records, end, Expected(c, records, end))
  {
    var last := Expected(c, records, end);
    VerifyIsWalk(c, records, 0, None);
    VerifyIsWalk(c, records, end, last);
    WalkToEnd(c, records, end, last);
  }

  /** The verdict in terms of links alone: valid exactly when all records are linked, and
      otherwise decided by the first record that is not. */
  lemma VerifyMeaning(c: Crypto, records: seq<Record>)
    ensures VerifyChain(c, records) == Valid(|records|) <==> Linked(c, records, |records|)
    ensures forall i :: 0 <= i < |records| && Linked(c, records, i) && !LinkedAt(c, records, i) ==>
      VerifyChain(c, records) ==
        match NormalizePrevHash(records[i])
        case Err(e) => Thrown(e)
        case Ok(actual) => Broken(i, Expected(c, records, i), actual)
  {
    forall i | 0 <= i <= |records| && Linked(c, records, i)
      ensures VerifyChain(c, records) == VerifyFrom(c, records, i, Expected(c, records, i))
    {
      VerifyFromLinked(c, records, i);
    }
    if !Linked(c, records, |records|) {
      var i := FirstUnlinked(c, records, |records|);
      assert VerifyChain(c, records) == VerifyFrom(c, records, i, Expected(c, records, i));
    }
  }

  lemma {:induction false} FirstUnlinked(c: Crypto, records: seq<Record>, n: nat) returns (i: nat)
    requires n <= |records| && !Linked(c, records, n)
    ensures i < n && Linked(c, records, i) && !LinkedAt(c, records, i)
  {
    if Linked(c, records, n - 1) {
      i := n - 1;
    } else {
      i := FirstUnlinked(c, records, n - 1);
    }
  }

  // ------------------------------------------------------------------ the chain object

  function Appended(c: Crypto, head: Option<string>, r: Record): Decoded<string> {
    match PrevHashStrict(r)
    case Err(e) => Err(e)
    case Ok(p) => if p != head then Err(HashChainBroken) else ComputeRecordHash(c, r)
  }

  class Chain {
    const crypto: Crypto
    var headHash: Option<string>
    var length: nat

    constructor (crypto: Crypto)
      ensures this.crypto == crypto && headHash == None && length == 0
    {
      this.crypto := crypto;
      headHash := None;
      length := 0;
    }

    /** Appends a record that names the current head; a rejected record changes nothing. */
    method Append(record: Record) returns (r: Decoded<string>)
      modifies this
      ensures r == Appended(crypto, old(headHash), record)
      ensures r.Ok? ==> headHash == Some(r.value) && length == old(length) + 1
      ensures r.Err? ==> headHash == old(headHash) && length == old(length)
    {
      var prev := PrevHashStrict(record);
      if prev.Err? {
        return Err(prev.error);
      }
      if prev.value != headHash {
        return Err(HashChainBroken);
      }
      r := ComputeRecordHash(crypto, record);
      if r.Ok? {
        headHash := Some(r.value);
        length := length + 1;
      }
    }

    method Verify(records: seq<Record>) returns (r: VerifyResult)
      ensures r == VerifyChain(crypto, records)
    {
      var expected: Option<string> := None;
      var index := 0;
      while index < |records|
        invariant 0 <= index <= |records|
        invariant VerifyFrom(crypto, records, index, expected) == VerifyChain(crypto, records)
      {
        var record := records[index];
        var actual := NormalizePrevHash(record);
        if actual.Err? {
          return Thrown(actual.error);
        }
        if actual.value != expected {
          return Broken(index, expected, actual.value);
        }
        NormalizedIsNormal(record);
        StrictOnNormal(crypto, record, actual.value);
        var next := ComputeRecordHash(crypto, WithPrev(record, actual.value));
        expected := Some(next.value);
        index := index + 1;
      }
      return Valid(|records|);
    }
  }

  // ------------------------------------------------------------------ append, then verify

  /** The head after appending all records to an empty chain, if every append succeeds. */
  function AppendAll(c: Crypto, records: seq<Record>): Decoded<Option<string>> {
    if records == [] then Ok(None) else
      match AppendAll(c, records[..|records| - 1])
      case Err(e) => Err(e)
      case Ok(head) =>
        match Appended(c, head, records[|records| - 1])
        case Err(e) => Err(e)
        case Ok(h) => Ok(Some(h))
  }

  lemma AppendLink(c: Crypto, head: Option<string>, r: Record)
    requires NormalForm(head) && Appended(c, head, r).Ok?
    ensures NormalizePrevHash(r) == Ok(head)
    ensures NormalForm(Some(Appended(c, head, r).value))
    ensures r.prev != Absent ==> r == WithPrev(r, head) && Appended(c, head, r) == Ok(NormalHash(c, r, head))
    ensures r.prev == Absent ==> head == None && Appended(c, head, r) == Ok(ToHex(c.sha(c.canonical(r))))
  {
    ToHexIsLower(c.sha(HashInput(c, r, head)));
    if r.prev.Absent? {
      assert HashInput(c, r, None) == c.canonical(r);
    }
  }

  /** A record is appended exactly when it names the head: null or nothing on an empty chain, the very text of the head
      on any other. */
  lemma AppendMeaning(c: Crypto, head: Option<string>, r: Record)
    requires NormalForm(head)
    ensures Appended(c, head, r).Ok? <==>
      match head case None => r.prev == Null || r.prev == Absent case Some(h) => r.prev == Text(h)
    ensures r.prev.Text? && |r.prev.text| == 64 && AllHex(r.prev.text) && head != Some(r.prev.text) ==>
      Appended(c, head, r) == Err(HashChainBroken)
    ensures head.Some? && (r.prev == Null || r.prev == Absent) ==> Appended(c, head, r) == Err(HashChainBroken)
  {
  }

  /** The head after appending is the hash that verification computes last, provided the first
      record carries an explicit null. */
  lemma {:induction false} AppendedIsLinked(c: Crypto, records: seq<Record>)
    requires AppendAll(c, records).Ok?
    requires records != [] ==> records[0].prev == Null
    ensures NormalForm(AppendAll(c, records).value)
    ensures Linked(c, records, |records|)
    ensures AppendAll(c, records).value == Expected(c, records, |records|)
  {
    if records != [] {
      var n := |records| - 1;
      var front := records[..n];
      AppendedIsLinked(c, front);
      LinkedFront(c, records, n);
      AppendExtends(c, records, n, AppendAll(c, front).value);
    }
  }

  /** A record that is not missing its prevHash and was appended is linked, and the new head is what
      verification will expect next. */
  lemma AppendExtends(c: Crypto, records: seq<Record>, n: nat, head: Option<string>)
    requires n < |records| && records[0].prev == Null && NormalForm(head)
    requires Linked(c, records, n) && head == Expected(c, records, n) && Appended(c, head, records[n]).Ok?
    ensures LinkedAt(c, records, n) && Linked(c, records, n + 1)
    ensures NormalForm(Some(Appended(c, head, records[n]).value))
    ensures Some(Appended(c, head, records[n]).value) == Expected(c, records, n + 1)
  {
    AppendLink(c, head, records[n]);
    assert records[n].prev != Absent by {
      if n > 0 {
        ExpectedIsHash(c, records, n);
        StrictAbsent(c, head, records[n]);
      }
    }
    ExpectedNext(c, records, n, head);
  }

  lemma ExpectedIsHash(c: Crypto, records: seq<Record>, n: nat)
    requires 0 < n <= |records| && Linked(c, records, n)
    ensures Expected(c, records, n).Some?
  {
    assert LinkedAt(c, records, n - 1);
  }

  lemma ExpectedNext(c: Crypto, records: seq<Record>, n: nat, head: Option<string>)
    requires n < |records| && NormalizePrevHash(records[n]) == Ok(head)
    ensures Expected(c, records, n + 1) == Some(NormalHash(c, records[n], head))
  {
  }

  /** Links depend on the records up to the link only. */
  lemma LinkedFront(c: Crypto, records: seq<Record>, n: nat)
    requires n <= |records|
    ensures Linked(c, records[..n], n) <==> Linked(c, records, n)
    ensures Expected(c, records[..n], n) == Expected(c, records, n)
  {
    var front := records[..n];
    assert forall i :: 0 <= i < n ==> LinkedAt(c, records, i) == LinkedAt(c, front, i);
  }

  lemma StrictAbsent(c: Crypto, head: Option<string>, r: Record)
    requires head.Some? && Appended(c, head, r).Ok?
    ensures r.prev.Text?
  {
  }

  /** Any list appended in order to an empty chain verifies when its first record carries an
      explicit null, and the last hash computed is the head. */
  lemma AppendThenVerify(c: Crypto, records: seq<Record>)
    requires AppendAll(c, records).Ok?
    requires records != [] ==> records[0].prev == Null
    ensures VerifyChain(c, records) == Valid(|records|)
    ensures AppendAll(c, records).value == Expected(c, records, |records|)
  {
    AppendedIsLinked(c, records);
    VerifyMeaning(c, records);
  }

  lemma AppendAllPrefix(c: Crypto, records: seq<Record>, n: nat)
    requires n <= |records| && AppendAll(c, records).Ok?
    ensures AppendAll(c, records[..n]).Ok?
    decreases |records|
  {
    if n < |records| {
      AppendAllPrefix(c, records[..|records| - 1], n);
      assert records[..|records| - 1][..n] == records[..n];
    } else {
      assert records[..n] == records;
    }
  }

  /** After the first record, which carries no property, the head is the hash of the record as it stands. */
  lemma AbsentFirst(c: Crypto, records: seq<Record>)
    requires AppendAll(c, records).Ok? && records != [] && records[0].prev != Null
    ensures records[0].prev == Absent && Linked(c, records, 1)
    ensures AppendAll(c, records[..1]) == Ok(Some(ToHex(c.sha(c.canonical(records[0])))))
  {
    var r := records[0];
    AppendAllPrefix(c, records, 1);
    assert records[..1][..0] == [];
    AppendLink(c, None, r);
    StrictNone(c, r);
    assert LinkedAt(c, records, 0);
  }

  /** The second record names that head. */
  lemma AbsentSecond(c: Crypto, records: seq<Record>)
    requires AppendAll(c, records).Ok? && |records| > 1 && records[0].prev != Null
    ensures NormalizePrevHash(records[1]) == Ok(Some(ToHex(c.sha(c.canonical(records[0])))))
  {
    AbsentFirst(c, records);
    AppendAllPrefix(c, records, 2);
    assert records[..2][..1] == records[..1];
    ToHexIsLower(c.sha(c.canonical(records[0])));
    AppendLink(c, Some(ToHex(c.sha(c.canonical(records[0])))), records[1]);
  }

  predicate BrokenAtOne(c: Crypto, records: seq<Record>)
    requires records != []
  {
    VerifyChain(c, records) ==
      Broken(1, Some(NormalHash(c, records[0], None)), Some(ToHex(c.sha(c.canonical(records[0])))))
  }

  /** A first record without the property is hashed as it stands by append but with a null by
      verify. Alone it verifies; with any second record the chain is reported broken at index 1, unless
      the two texts collide. */
  lemma AbsentPrevHashBreaks(c: Crypto, records: seq<Record>) returns (x: seq<byte>, y: seq<byte>)
    requires CanonicalInjective(c) && AppendAll(c, records).Ok? && records != []
    requires records[0].prev != Null
    ensures |records| == 1 ==> VerifyChain(c, records) == Valid(1)
    ensures |records| > 1 ==> Collision(c, x, y) || BrokenAtOne(c, records)
  {
    var r := records[0];
    AbsentFirst(c, records);
    VerifyFromLinked(c, records, 1);
    x, y := c.canonical(r), c.canonical(WithPrev(r, None));
    assert x != y && HashInput(c, WithPrev(r, None), None) == y;
    if |records| > 1 && c.sha(x) != c.sha(y) {
      if ToHex(c.sha(x)) == ToHex(c.sha(y)) {
        ToHexInjective(c.sha(x), c.sha(y));
      }
      AbsentSecond(c, records);
    }
  }

  lemma StrictNone(c: Crypto, r: Record)
    requires Appended(c, None, r).Ok?
    ensures r.prev == Null || r.prev == Absent
  {
  }

  /** The head binds the history: two lists of one length that were appended to the same head are the same, unless
      two texts collide. */
  lemma {:induction false} HeadBindsHistory(c: Crypto, a: seq<Record>, b: seq<Record>)
    returns (x: seq<byte>, y: seq<byte>)
    requires CanonicalInjective(c) && |a| == |b| && AppendAll(c, a).Ok? && AppendAll(c, a) == AppendAll(c, b)
    ensures Collision(c, x, y) || a == b
    decreases |a|
  {
    if a == [] {
      x, y := [], [];
    } else {
      x, y := HeadBindsLast(c, a, b);
      if !Collision(c, x, y) {
        var front, front' := a[..|a| - 1], b[..|b| - 1];
        x, y := HeadBindsHistory(c, front, front');
        if front == front' { SameFrontSame(a, b); }
      }
    }
  }

  lemma SameFrontSame(a: seq<Record>, b: seq<Record>)
    requires a != [] && |a| == |b| && a[..|a| - 1] == b[..|b| - 1] && a[|a| - 1] == b[|b| - 1]
    ensures a == b
  {
    assert a == a[..|a| - 1] + [a[|a| - 1]] && b == b[..|b| - 1] + [b[|b| - 1]];
  }

  lemma HeadBindsLast(c: Crypto, a: seq<Record>, b: seq<Record>) returns (x: seq<byte>, y: seq<byte>)
    requires CanonicalInjective(c) && a != [] && |a| == |b|
    requires AppendAll(c, a).Ok? && AppendAll(c, a) == AppendAll(c, b)
    ensures AppendAll(c, a[..|a| - 1]).Ok?
    ensures Collision(c, x, y) ||
      (a[|a| - 1] == b[|b| - 1] && AppendAll(c, a[..|a| - 1]) == AppendAll(c, b[..|b| - 1]))
  {
    HeadIsHash(c, a);
    HeadIsHash(c, b);
    x, y := LastInput(c, a), LastInput(c, b);
    if x == y {
      SameInput(c, a, b);
    } else {
      ToHexInjective(c.sha(x), c.sha(y));
    }
  }

  /** The bytes hashed last when a list is appended. */
  function LastInput(c: Crypto, a: seq<Record>): seq<byte>
    requires a != [] && AppendAll(c, a).Ok?
  {
    var r := a[|a| - 1];
    HashInput(c, r, AppendAll(c, a[..|a| - 1]).value)
  }

  lemma HeadIsHash(c: Crypto, a: seq<Record>)
    requires a != [] && AppendAll(c, a).Ok?
    ensures AppendAll(c, a[..|a| - 1]).Ok? && AppendAll(c, a).value == Some(ToHex(c.sha(LastInput(c, a))))
  {
  }

  lemma SameInput(c: Crypto, a: seq<Record>, b: seq<Record>)
    requires CanonicalInjective(c) && a != [] && |a| == |b| && AppendAll(c, a).Ok? && AppendAll(c, b).Ok?
    requires LastInput(c, a) == LastInput(c, b)
    ensures a[|a| - 1] == b[|b| - 1] && AppendAll(c, a[..|a| - 1]) == AppendAll(c, b[..|b| - 1])
  {
    var n := |a| - 1;
    var p, p' := AppendAll(c, a[..n]).value, AppendAll(c, b[..n]).value;
    AppendedHead(c, a[..n]);
    AppendedHead(c, b[..n]);
    var k := |TextBytes(if p.None? then "" else p.value)|;
    assert LastInput(c, a)[k..] == c.canonical(a[n]) && LastInput(c, b)[k..] == c.canonical(b[n]);
    assert PrevHashStrict(a[n]) == Ok(p) && PrevHashStrict(b[n]) == Ok(p');
  }

  /** A list has a head exactly when it is not empty, and it is a digest. */
  lemma AppendedHead(c: Crypto, a: seq<Record>)
    requires AppendAll(c, a).Ok?
    ensures AppendAll(c, a).value.Some? <==> a != []
    ensures AppendAll(c, a).value.Some? ==> |AppendAll(c, a).value.value| == 64
  {
  }

  // ------------------------------------------------------------------ re-encoding

  /** Rewriting any hexadecimal prevHash as base64url changes no verdict. */
  lemma ReencodingKeepsVerdict(c: Crypto, records: seq<Record>, i: nat, digest: Digest)
    requires i < |records| && records[i].prev.Text?
    requires records[i].prev.text != "" && HexDecoding(records[i].prev.text) == Ok(digest)
    ensures VerifyChain(c, records[i := records[i].(prev := Text(Base64UrlText(digest)))]) == VerifyChain(c, records)
  {
    var r := records[i];
    var r' := r.(prev := Text(Base64UrlText(digest)));
    HexReads(r, digest);
    Base64UrlReads(r', digest);
    SameVerdict(c, records, records[i := r']);
  }

  lemma HexReads(r: Record, digest: Digest)
    requires r.prev.Text? && r.prev.text != "" && HexDecoding(r.prev.text) == Ok(digest)
    ensures NormalizePrevHash(r) == Ok(Some(ToHex(digest)))
  {
    HexTextRoundTrip(r.prev.text);
  }

  lemma Base64UrlReads(r: Record, digest: Digest)
    requires r.prev == Text(Base64UrlText(digest))
    ensures NormalizePrevHash(r) == Ok(Some(ToHex(digest)))
  {
    Base64UrlRoundTrip(digest);
    DetectsBase64Url(digest);
  }

  lemma SameLed(c: Crypto, a: seq<Record>, b: seq<Record>, i: nat)
    requires |a| == |b| && i < |a| && a[i].content == b[i].content && NormalizePrevHash(a[i]) == NormalizePrevHash(b[i])
    ensures Expected(c, a, i + 1) == Expected(c, b, i + 1)
  {
    forall p: Option<string> ensures WithPrev(a[i], p) == WithPrev(b[i], p) {
    }
  }

  lemma SameVerdict(c: Crypto, a: seq<Record>, b: seq<Record>)
    requires |a| == |b|
    requires forall k :: 0 <= k < |a| ==>
      a[k].content == b[k].content && NormalizePrevHash(a[k]) == NormalizePrevHash(b[k])
    ensures VerifyChain(c, a) == VerifyChain(c, b)
  {
    VerifyIsWalk(c, a, 0, None);
    VerifyIsWalk(c, b, 0, None);
    assert Carried(a) == Carried(b);
    forall i | 0 <= i < |a| ensures Led(c, a)[i] == Led(c, b)[i] {
      SameLed(c, a, b, i);
    }
    assert Led(c, a) == Led(c, b);
  }

  // ------------------------------------------------------------------ tampering

  /** Changing the content of any record but the last of a valid chain is reported exactly at its
      successor, unless the old and new texts collide. */
  lemma TamperEvident(c: Crypto, records: seq<Record>, i: nat, content: string) returns (x: seq<byte>, y: seq<byte>)
    requires CanonicalInjective(c)
    requires VerifyChain(c, records) == Valid(|records|) && i + 1 < |records| && content != records[i].content
    ensures var tampered := records[i := records[i].(content := content)];
      Collision(c, x, y)
      || (VerifyChain(c, tampered).Broken? && VerifyChain(c, tampered).index == i + 1)
  {
    VerifyMeaning(c, records);
    var r := records[i];
    var r' := r.(content := content);
    var tampered := records[i := r'];
    assert LinkedAt(c, records, i) && LinkedAt(c, records, i + 1);
    var p := NormalizePrevHash(r).value;
    assert NormalizePrevHash(r') == Ok(p);
    forall k | 0 <= k <= i ensures LinkedAt(c, tampered, k) {
      assert LinkedAt(c, records, k) && Expected(c, tampered, k) == Expected(c, records, k);
    }
    x, y := HashInput(c, WithPrev(r, p), p), HashInput(c, WithPrev(r', p), p);
    InputsDiffer(c, r, r', p);
    VerifyMeaning(c, tampered);
    if c.sha(x) != c.sha(y) {
      if NormalHash(c, r, p) == NormalHash(c, r', p) {
        ToHexInjective(c.sha(x), c.sha(y));
      }
      assert !LinkedAt(c, tampered, i + 1);
    }
  }

  lemma InputsDiffer(c: Crypto, r: Record, r': Record, p: Option<string>)
    requires CanonicalInjective(c) && r.content != r'.content
    ensures HashInput(c, WithPrev(r, p), p) != HashInput(c, WithPrev(r', p), p)
  {
    var x, y := HashInput(c, WithPrev(r, p), p), HashInput(c, WithPrev(r', p), p);
    var n := |TextBytes(if p.None? then "" else p.value)|;
    assert x[n..] == c.canonical(WithPrev(r, p)) && y[n..] == c.canonical(WithPrev(r', p));
  }
}
