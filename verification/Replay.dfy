/** AEAD nonces and the replay tracker of the encrypted envelope body.

    The nonce is direction byte, eight-byte big-endian sequence number and three salt bytes. The
    tracker keeps, per string key, the highest sequence number accepted. */
module Replay {
  import opened Common
  import opened Encoding

  datatype Direction = InitToResp | RespToInit

  function DirectionByte(d: Direction): byte {
    if d.InitToResp? then 0x01 else 0x02
  }

  // ------------------------------------------------------------------ nonce layout

  /** The `k` low-order bytes of `n`, most significant first. */
  function BigEndian(n: nat, k: nat): (bytes: seq<byte>)
    ensures |bytes| == k
  {
    if k == 0 then [] else BigEndian(n / 256, k - 1) + [n % 256]
  }

  function FromBigEndian(bytes: seq<byte>): nat {
    if bytes == [] then 0 else 256 * FromBigEndian(bytes[..|bytes| - 1]) + bytes[|bytes| - 1]
  }

  const TWO_32: nat := 0x1_0000_0000
  const TWO_64: nat := 0x1_0000_0000_0000_0000

  function SaltByte(salt: seq<byte>, i: nat): byte {
    if i < |salt| then salt[i] else 0
  }

  /** Two 32-bit stores, each dropping the bits above. */
  function BuildAeadNonce(d: Direction, sequenceNumber: nat, salt: seq<byte>): (nonce: seq<byte>)
    ensures |nonce| == 12
  {
    [DirectionByte(d)]
    + BigEndian(sequenceNumber / TWO_32, 4) + BigEndian(sequenceNumber % TWO_32, 4)
    + [SaltByte(salt, 0), SaltByte(salt, 1), SaltByte(salt, 2)]
  }

  datatype Extracted = Extracted(sequence: nat, directionByte: byte) | InvalidNonce

  /** The twelve bytes of the nonce text: 24 hexadecimal characters, or whatever the lenient
      base64url decoder of the runtime makes of it. */
  function NonceBytes(text: string, bufferDecode: string -> seq<byte>): Option<seq<byte>> {
    if |text| == 24 && AllHex(text) then Some(HexPairs(text))
    else if |bufferDecode(text)| == 12 then Some(bufferDecode(text))
    else None
  }

  function ExtractSpec(text: string, bufferDecode: string -> seq<byte>): Extracted {
    match NonceBytes(text, bufferDecode)
    case None => InvalidNonce
    case Some(b) =>
      if |b| == 12 then Extracted(FromBigEndian(b[1..9]), b[0]) else InvalidNonce
  }

  method ExtractSequenceNumber(text: string, bufferDecode: string -> seq<byte>) returns (r: Extracted)
    ensures r == ExtractSpec(text, bufferDecode)
  {
    var bytes := NonceBytes(text, bufferDecode);
    if bytes.None? {
      return InvalidNonce;
    }
    var b := bytes.value;
    var seqNo: nat := 0;
    var i := 1;
    while i <= 8
      invariant 1 <= i <= 9 && |b| == 12
      invariant seqNo == FromBigEndian(b[1..i])
    {
      assert b[1..i + 1][..i - 1] == b[1..i];
      seqNo := 256 * seqNo + b[i];
      i := i + 1;
    }
    return Extracted(seqNo, b[0]);
  }

  function Pow256(k: nat): nat {
    if k == 0 then 1 else 256 * Pow256(k - 1)
  }

  lemma {:induction false} BigEndianValue(n: nat, k: nat)
    requires n < Pow256(k)
    ensures FromBigEndian(BigEndian(n, k)) == n
  {
    if k > 0 {
      BigEndianValue(n / 256, k - 1);
      assert BigEndian(n, k)[..k - 1] == BigEndian(n / 256, k - 1);
    }
  }

  lemma {:induction false} BigEndianTruncates(n: nat, m: nat, k: nat)
    ensures BigEndian(n + m * Pow256(k), k) == BigEndian(n, k)
  {
    if k > 0 {
      ShiftProduct(m, k);
      BigEndianTruncates(n / 256, m, k - 1);
      DivShift(n, m * Pow256(k - 1));
    }
  }

  lemma DivShift(n: nat, p: nat)
    ensures (n + 256 * p) / 256 == n / 256 + p && (n + 256 * p) % 256 == n % 256
  {
  }

  lemma FourBytes()
    ensures Pow256(4) == TWO_32
  {
    assert Pow256(1) == 256;
    assert Pow256(2) == 256 * 256;
    assert Pow256(3) == 256 * 256 * 256;
  }

  lemma {:induction false} FromBigEndianConcat(a: seq<byte>, b: seq<byte>)
    ensures FromBigEndian(a + b) == FromBigEndian(a) * Pow256(|b|) + FromBigEndian(b)
  {
    if b == [] {
      assert a + b == a;
    } else {
      var front := b[..|b| - 1];
      FromBigEndianConcat(a, front);
      assert (a + b)[..|a + b| - 1] == a + front;
      ShiftProduct(FromBigEndian(a), |b|);
    }
  }

  lemma ShiftProduct(x: nat, k: nat)
    requires k >= 1
    ensures x * Pow256(k) == 256 * (x * Pow256(k - 1))
  {
  }

  lemma SplitNumber(n: nat)
    ensures n == n / TWO_32 * TWO_32 + n % TWO_32 && n % TWO_32 < TWO_32
    ensures n < TWO_64 ==> n / TWO_32 < TWO_32
  {
  }

  lemma NonceSlice(d: Direction, n: nat, salt: seq<byte>)
    ensures BuildAeadNonce(d, n, salt)[1..9] == BigEndian(n / TWO_32, 4) + BigEndian(n % TWO_32, 4)
    ensures BuildAeadNonce(d, n, salt)[0] == DirectionByte(d)
  {
  }

  lemma SequenceBytes(n: nat)
    requires n < TWO_64
    ensures FromBigEndian(BigEndian(n / TWO_32, 4) + BigEndian(n % TWO_32, 4)) == n
  {
    SplitNumber(n);
    FourBytes();
    BigEndianValue(n / TWO_32, 4);
    BigEndianValue(n % TWO_32, 4);
    FromBigEndianConcat(BigEndian(n / TWO_32, 4), BigEndian(n % TWO_32, 4));
  }

  /** The receiver reads back the direction and sequence number that the sender wrote, for every
      64-bit sequence number. */
  lemma NonceRoundTrip(d: Direction, n: nat, salt: seq<byte>, bufferDecode: string -> seq<byte>)
    requires n < TWO_64
    ensures ExtractSpec(ToHex(BuildAeadNonce(d, n, salt)), bufferDecode) == Extracted(n, DirectionByte(d))
  {
    HexRoundTrip(BuildAeadNonce(d, n, salt));
    NonceSlice(d, n, salt);
    SequenceBytes(n);
  }

  /** The twelve bytes: one for the direction, the sequence number with its least significant byte last, and three of
      salt, zero where the salt is shorter. */
  lemma NonceLayout(d: Direction, n: nat, salt: seq<byte>)
    ensures var b := BuildAeadNonce(d, n, salt);
            && |b| == 12 && b[0] == (match d case InitToResp => 1 case RespToInit => 2)
            && b[8] == n % 256 && b[4] == n / 0x1_0000_0000 % 256
            && (forall i :: 0 <= i < 3 ==> b[9 + i] == if i < |salt| then salt[i] else 0)
  {
    LowByte(n);
  }

  lemma LowByte(n: nat)
    ensures n % TWO_32 % 256 == n % 256
  {
    var q := n / TWO_32;
    assert n == n % TWO_32 + 256 * (q * 0x100_0000);
    DivShift(n % TWO_32, q * 0x100_0000);
  }

  /** Beyond 64 bits the two nonces of numbers 2^64 apart are the same, so the bound is exact. */
  lemma NonceWrapsAround(d: Direction, n: nat, salt: seq<byte>)
    ensures BuildAeadNonce(d, n + TWO_64, salt) == BuildAeadNonce(d, n, salt)
  {
    WrapSplit(n);
    FourBytes();
    BigEndianTruncates(n / TWO_32, 1, 4);
  }

  lemma WrapSplit(n: nat)
    ensures (n + TWO_64) / TWO_32 == n / TWO_32 + TWO_32 && (n + TWO_64) % TWO_32 == n % TWO_32
  {
  }

  // ------------------------------------------------------------------ the string key

  function Decimal(n: nat): (s: string)
    ensures s != "" && ColonFree(s)
  {
    if n < 10 then [('0' as int + n) as char]
    else Decimal(n / 10) + [('0' as int + n % 10) as char]
  }

  predicate ColonFree(s: string) {
    forall i :: 0 <= i < |s| ==> s[i] != ':'
  }

  function ReplayKey(sessionId: string, nonceByte: byte, keyId: string): string {
    sessionId + ":" + Decimal(nonceByte) + ":" + keyId
  }

  lemma {:induction false} DecimalInjective(a: nat, b: nat)
    requires Decimal(a) == Decimal(b)
    ensures a == b
  {
    var s := Decimal(a);
    if a < 10 && b < 10 {
      assert s[0] == ('0' as int + a) as char == ('0' as int + b) as char;
    } else if a >= 10 && b >= 10 {
      assert s[..|s| - 1] == Decimal(a / 10) && s[..|s| - 1] == Decimal(b / 10);
      DecimalInjective(a / 10, b / 10);
      assert s[|s| - 1] == ('0' as int + a % 10) as char == ('0' as int + b % 10) as char;
    }
  }

  /** The text after the last colon is determined. */
  lemma LastColon(a: string, k: string, a': string, k': string)
    requires a + ":" + k == a' + ":" + k' && ColonFree(k) && ColonFree(k')
    ensures a == a' && k == k'
  {
    var s := a + ":" + k;
    assert s[|a|] == ':' && s[|a'|] == ':';
    NoColonAfter(a, k, |a'|);
    NoColonAfter(a', k', |a|);
    assert a == s[..|a|] && a' == s[..|a'|] && k == s[|a| + 1..] && k' == s[|a'| + 1..];
  }

  lemma NoColonAfter(a: string, k: string, p: nat)
    requires ColonFree(k)
    ensures |a| < p < |a + ":" + k| ==> (a + ":" + k)[p] != ':'
  {
    if |a| < p < |a + ":" + k| {
      assert (a + ":" + k)[p] == k[p - |a| - 1];
    }
  }

  /** Sessions, directions and key generations never share a tracker key, whatever the session id
      contains, as long as key ids have no colon. */
  lemma ReplayKeyInjective(s: string, b: byte, k: string, s': string, b': byte, k': string)
    requires ColonFree(k) && ColonFree(k') && ReplayKey(s, b, k) == ReplayKey(s', b', k')
    ensures s == s' && b == b' && k == k'
  {
    LastColon(s + ":" + Decimal(b), k, s' + ":" + Decimal(b'), k');
    LastColon(s, Decimal(b), s', Decimal(b'));
    DecimalInjective(b, b');
  }

  /** The longer key id swallows the shorter one, its nonce byte and the end of its session id. */
  ghost predicate Swallows(s: string, b: byte, k: string, s': string, b': byte, k': string) {
    exists u :: k == u + (Decimal(b') + ":" + k') && s' + ":" == s + ":" + Decimal(b) + ":" + u
  }

  lemma SwallowedCollides(s: string, b: byte, k: string, s': string, b': byte, k': string)
    requires Swallows(s, b, k, s', b', k')
    ensures ReplayKey(s, b, k) == ReplayKey(s', b', k')
  {
    var u :| k == u + (Decimal(b') + ":" + k') && s' + ":" == s + ":" + Decimal(b) + ":" + u;
    var front, back := s + ":" + Decimal(b) + ":", Decimal(b') + ":" + k';
    assert front + (u + back) == (front + u) + back;
    assert ReplayKey(s', b', k') == (s' + ":") + back;
  }

  /** A key cut at its two colons. */
  lemma KeyParts(s: string, b: byte, k: string)
    ensures var text, from := ReplayKey(s, b, k), |s| + |Decimal(b)| + 2;
            && from <= |text| && text[from - 1] == ':' && text[from..] == k
            && text[..from] == s + ":" + Decimal(b) + ":" && text[..|s| + 1] == s + ":"
            && text[|s| + 1..] == Decimal(b) + ":" + k
  {
  }

  lemma CollisionSwallows(s: string, b: byte, k: string, s': string, b': byte, k': string)
    requires ReplayKey(s, b, k) == ReplayKey(s', b', k') && |k'| < |k|
    ensures Swallows(s, b, k, s', b', k')
  {
    var text, from, end := ReplayKey(s, b, k), |s| + |Decimal(b)| + 2, |s'| + 1;
    KeyParts(s, b, k);
    KeyParts(s', b', k');
    forall p | end <= p < end + |Decimal(b')| ensures text[p] != ':' {
      assert text[p] == text[end..][p - end] == Decimal(b')[p - end];
    }
    assert |text| - |k| == from && |text| - |k'| == end + |Decimal(b')| + 1;
    assert from <= end;
    CutTwice(text, from, end);
  }

  lemma CutTwice(text: string, from: nat, end: nat)
    requires from <= end <= |text|
    ensures text[from..] == text[from..end] + text[end..] && text[..end] == text[..from] + text[from..end]
  {
  }

  lemma SameLengthSame(s: string, b: byte, k: string, s': string, b': byte, k': string)
    requires ReplayKey(s, b, k) == ReplayKey(s', b', k') && |k'| == |k|
    ensures s == s' && b == b' && k == k'
  {
    var front, front' := s + ":" + Decimal(b), s' + ":" + Decimal(b');
    var text := ReplayKey(s, b, k);
    assert k == text[|front| + 1..] && k' == text[|front| + 1..] && front == text[..|front|] == front';
    LastColon(s, Decimal(b), s', Decimal(b'));
    DecimalInjective(b, b');
  }

  /** Exactly which triples share a tracker key: only equal ones, and those where the longer key id swallows the
      other's parts. */
  lemma ReplayKeyMeaning(s: string, b: byte, k: string, s': string, b': byte, k': string)
    requires |k'| <= |k|
    ensures ReplayKey(s, b, k) == ReplayKey(s', b', k') <==>
      (s == s' && b == b' && k == k') || Swallows(s, b, k, s', b', k')
  {
    if Swallows(s, b, k, s', b', k') { SwallowedCollides(s, b, k, s', b', k'); }
    if ReplayKey(s, b, k) == ReplayKey(s', b', k') {
      if |k'| < |k| { CollisionSwallows(s, b, k, s', b', k'); } else { SameLengthSame(s, b, k, s', b', k'); }
    }
  }

  /** So every session, direction and key id has a key id with a colon that collides with it. */
  lemma ReplayKeyCollides(s: string, b: byte, b': byte, k: string)
    ensures ReplayKey(s, b, Decimal(b') + ":" + k) == ReplayKey(s + ":" + Decimal(b), b', k)
    ensures s != s + ":" + Decimal(b)
  {
    var back := Decimal(b') + ":" + k;
    assert back == "" + back && s + ":" + Decimal(b) + ":" == s + ":" + Decimal(b) + ":" + "";
    SwallowedCollides(s, b, back, s + ":" + Decimal(b), b', k);
  }

  // ------------------------------------------------------------------ decryption

  datatype DecryptError =
    InvalidEncryptedBody | ReplayDetected | DecryptionFailed | SessionHandleRevoked | TokenMismatch

  /** What the routed handle says: its token id, and the plaintext or refusal of the AEAD. */
  datatype HandleAnswer = HandleAnswer(tokenId: Option<string>, plaintext: Option<seq<byte>>, refusal: DecryptError)

  /** One call, with the answer of the session registry for (sessionId, keyId). */
  datatype Attempt = Attempt(
    sessionId: string, hasType: bool, nonce: Extracted, keyId: string, handle: Option<HandleAnswer>, tokenRef: string)

  datatype DecryptResult = Plaintext(bytes: seq<byte>) | Refused(error: DecryptError)

  type Tracker = map<string, nat>

  function KeyOf(a: Attempt): string
    requires a.nonce.Extracted?
  {
    ReplayKey(a.sessionId, a.nonce.directionByte, a.keyId)
  }

  /** The answer when the replay check is left aside. */
  function Checked(a: Attempt): DecryptResult {
    match a.handle
    case None => Refused(DecryptionFailed)
    case Some(h) =>
      if h.plaintext.None? then Refused(h.refusal)
      else if h.tokenId != Some(a.tokenRef) then Refused(TokenMismatch)
      else Plaintext(h.plaintext.value)
  }

  function DecryptSpec(tracker: Tracker, a: Attempt): (Tracker, DecryptResult) {
    if !a.hasType || a.nonce.InvalidNonce? then (tracker, Refused(InvalidEncryptedBody))
    else if KeyOf(a) in tracker && a.nonce.sequence <= tracker[KeyOf(a)] then (tracker, Refused(ReplayDetected))
    else if Checked(a).Plaintext? then (tracker[KeyOf(a) := a.nonce.sequence], Checked(a))
    else (tracker, Checked(a))
  }

  /** What a call answers when it is not a replay: routing, decryption and the token are checked in this order. */
  lemma AnswerMeaning(tracker: Tracker, a: Attempt)
    requires a.hasType && a.nonce.Extracted?
    requires KeyOf(a) in tracker ==> tracker[KeyOf(a)] < a.nonce.sequence
    ensures var r := DecryptSpec(tracker, a).1;
            && (a.handle.None? ==> r == Refused(DecryptionFailed))
            && (a.handle.Some? && a.handle.value.plaintext.None? ==> r == Refused(a.handle.value.refusal))
            && (a.handle.Some? && a.handle.value.plaintext.Some? ==>
                r == if a.handle.value.tokenId == Some(a.tokenRef) then Plaintext(a.handle.value.plaintext.value)
                     else Refused(TokenMismatch))
  {
  }

  /** A body without a type or with an unreadable nonce is refused as such, whatever else it is. */
  lemma MalformedMeaning(tracker: Tracker, a: Attempt)
    requires !a.hasType || a.nonce.InvalidNonce?
    ensures DecryptSpec(tracker, a) == (tracker, Refused(InvalidEncryptedBody))
  {
  }

  class ReplayGuard {
    var tracker: Tracker

    constructor ()
      ensures tracker == map[]
    {
      tracker := map[];
    }

    /** Replay check, routing, AEAD, token check, and only then the tracker update. */
    method DecryptEnvelopeBody(a: Attempt) returns (r: DecryptResult)
      modifies this
      ensures (tracker, r) == DecryptSpec(old(tracker), a)
      ensures r.Refused? ==> tracker == old(tracker)
    {
      if !a.hasType || a.nonce.InvalidNonce? {
        return Refused(InvalidEncryptedBody);
      }
      var key := KeyOf(a);
      var maxSeen := if key in tracker then Some(tracker[key]) else None;
      if maxSeen.Some? && a.nonce.sequence <= maxSeen.value {
        return Refused(ReplayDetected);
      }
      if a.handle.None? {
        return Refused(DecryptionFailed);
      }
      var h := a.handle.value;
      if h.plaintext.None? {
        return Refused(h.refusal);
      }
      if h.tokenId != Some(a.tokenRef) {
        return Refused(TokenMismatch);
      }
      if maxSeen.None? || a.nonce.sequence > maxSeen.value {
        tracker := tracker[key := a.nonce.sequence];
      }
      return Plaintext(h.plaintext.value);
    }
  }

  // ------------------------------------------------------------------ runs

  function TrackerAfter(run: seq<Attempt>): Tracker {
    if run == [] then map[] else DecryptSpec(TrackerAfter(run[..|run| - 1]), run[|run| - 1]).0
  }

  /** Whether call `i` of the run returned a plaintext. */
  predicate Accepted(run: seq<Attempt>, i: nat)
    requires i < |run|
  {
    DecryptSpec(TrackerAfter(run[..i]), run[i]).1.Plaintext?
  }

  predicate SameStream(a: Attempt, b: Attempt) {
    && a.nonce.Extracted? && b.nonce.Extracted?
    && a.sessionId == b.sessionId && a.nonce.directionByte == b.nonce.directionByte && a.keyId == b.keyId
  }

  /** The registry routes to a handle only by its own key id, which is hexadecimal. */
  predicate RoutedByHexKeyId(run: seq<Attempt>) {
    forall i :: 0 <= i < |run| && run[i].handle.Some? ==> ColonFree(run[i].keyId)
  }

  predicate Authentic(a: Attempt) {
    a.hasType && a.nonce.Extracted? && Checked(a).Plaintext?
  }

  lemma AcceptedPrefix(run: seq<Attempt>, n: nat, i: nat)
    requires i < n <= |run|
    ensures Accepted(run[..n], i) == Accepted(run, i)
  {
    assert run[..n][..i] == run[..i];
  }

  predicate AcceptedAs(run: seq<Attempt>, i: nat, key: string, sequence: nat)
    requires i < |run|
  {
    Accepted(run, i) && run[i].nonce.Extracted? && KeyOf(run[i]) == key && run[i].nonce.sequence == sequence
  }

  /** What the last call does to the entry of one key. */
  lemma LastCall(run: seq<Attempt>, key: string)
    requires run != []
    ensures var n := |run| - 1;
            var before, after := TrackerAfter(run[..n]), TrackerAfter(run);
            if Accepted(run, n) && KeyOf(run[n]) == key then
              key in after && after[key] == run[n].nonce.sequence && (key in before ==> before[key] < after[key])
            else (key in after <==> key in before) && (key in before ==> after[key] == before[key])
  {
  }

  /** Whatever the tracker holds under a key was accepted under it. */
  lemma {:induction false} TrackerIsAccepted(run: seq<Attempt>, key: string) returns (i: nat)
    requires key in TrackerAfter(run)
    ensures i < |run| && AcceptedAs(run, i, key, TrackerAfter(run)[key])
    decreases |run|
  {
    var n := |run| - 1;
    LastCall(run, key);
    if Accepted(run, n) && KeyOf(run[n]) == key {
      i := n;
    } else {
      i := TrackerIsAccepted(run[..n], key);
      AcceptedPrefix(run, n, i);
    }
  }

  /** Whatever was accepted under a key is at most what the tracker holds under it. */
  lemma {:induction false} AcceptedIsTracked(run: seq<Attempt>, i: nat)
    requires i < |run| && Accepted(run, i)
    ensures var key := KeyOf(run[i]); key in TrackerAfter(run) && run[i].nonce.sequence <= TrackerAfter(run)[key]
    decreases |run|
  {
    var n := |run| - 1;
    LastCall(run, KeyOf(run[i]));
    if i < n {
      AcceptedPrefix(run, n, i);
      AcceptedIsTracked(run[..n], i);
    }
  }

  /** The tracker holds, under each key, the largest sequence number accepted under it. */
  lemma TrackerMeaning(run: seq<Attempt>, key: string)
    ensures key in TrackerAfter(run) ==> exists i :: 0 <= i < |run| && AcceptedAs(run, i, key, TrackerAfter(run)[key])
    ensures forall i :: 0 <= i < |run| && Accepted(run, i) && KeyOf(run[i]) == key ==>
      key in TrackerAfter(run) && run[i].nonce.sequence <= TrackerAfter(run)[key]
  {
    if key in TrackerAfter(run) {
      var i := TrackerIsAccepted(run, key);
    }
    forall i | 0 <= i < |run| && Accepted(run, i) && KeyOf(run[i]) == key
      ensures key in TrackerAfter(run) && run[i].nonce.sequence <= TrackerAfter(run)[key]
    {
      AcceptedIsTracked(run, i);
    }
  }

  /** Exactly when a call is accepted: it is authentic and its sequence number exceeds every one
      accepted before in the same session, direction and key generation. Other generations,
      directions and sessions never interfere, and refused calls leave no trace. */
  lemma AcceptanceMeaning(run: seq<Attempt>, j: nat)
    requires j < |run| && RoutedByHexKeyId(run)
    ensures Accepted(run, j) <==>
      && Authentic(run[j])
      && forall i :: 0 <= i < j && Accepted(run, i) && SameStream(run[i], run[j]) ==>
           run[i].nonce.sequence < run[j].nonce.sequence
  {
    var a, front := run[j], run[..j];
    forall i | 0 <= i < j ensures Accepted(front, i) == Accepted(run, i) {
      AcceptedPrefix(run, j, i);
    }
    if Authentic(a) {
      TrackerMeaning(front, KeyOf(a));
      forall i | 0 <= i < j && Accepted(run, i) && run[i].nonce.Extracted? && KeyOf(run[i]) == KeyOf(a)
        ensures SameStream(run[i], a)
      {
        AcceptedIsAuthentic(run, i);
        ReplayKeyInjective(run[i].sessionId, run[i].nonce.directionByte, run[i].keyId, a.sessionId,
          a.nonce.directionByte, a.keyId);
      }
    }
  }

  lemma AcceptedIsAuthentic(run: seq<Attempt>, i: nat)
    requires i < |run| && Accepted(run, i)
    ensures Authentic(run[i])
  {
  }

  /** A message is authentic when it can be read, a handle answers to its key id and decrypts it, and it names the
      handle's own token. */
  lemma AuthenticMeaning(a: Attempt)
    ensures Authentic(a) <==>
      && a.hasType && a.nonce.Extracted? && a.handle.Some? && a.handle.value.plaintext.Some?
      && a.handle.value.tokenId == Some(a.tokenRef)
  {
  }

  /** A replay is reported exactly when a number at least as high was accepted before in the same stream. */
  lemma ReplayMeaning(run: seq<Attempt>, j: nat)
    requires j < |run| && RoutedByHexKeyId(run) && run[j].hasType && run[j].nonce.Extracted?
    requires ColonFree(run[j].keyId) && (run[j].handle.Some? ==> run[j].handle.value.refusal != ReplayDetected)
    ensures DecryptSpec(TrackerAfter(run[..j]), run[j]).1 == Refused(ReplayDetected) <==>
      exists i :: 0 <= i < j && Accepted(run, i) && SameStream(run[i], run[j]) &&
        run[j].nonce.sequence <= run[i].nonce.sequence
  {
    var a, front := run[j], run[..j];
    forall i | 0 <= i < j ensures Accepted(front, i) == Accepted(run, i) {
      AcceptedPrefix(run, j, i);
    }
    TrackerMeaning(front, KeyOf(a));
    if DecryptSpec(TrackerAfter(front), a).1 == Refused(ReplayDetected) {
      var i :| 0 <= i < |front| && AcceptedAs(front, i, KeyOf(a), TrackerAfter(front)[KeyOf(a)]);
      assert front[i] == run[i] && Accepted(run, i);
      AcceptedIsAuthentic(run, i);
      ReplayKeyInjective(run[i].sessionId, run[i].nonce.directionByte, run[i].keyId, a.sessionId,
        a.nonce.directionByte, a.keyId);
      assert SameStream(run[i], a);
    }
  }

  /** Accepted sequence numbers of one stream strictly increase over any run. */
  lemma AcceptedIncrease(run: seq<Attempt>, i: nat, j: nat)
    requires i < j < |run| && RoutedByHexKeyId(run)
    requires Accepted(run, i) && Accepted(run, j) && SameStream(run[i], run[j])
    ensures run[i].nonce.sequence < run[j].nonce.sequence
  {
    AcceptanceMeaning(run, j);
  }

  /** The frames of one sender generation, delivered in order with any gaps, are all accepted; and
      no delivery is accepted twice. */
  lemma InOrderDelivery(run: seq<Attempt>, j: nat)
    requires j < |run| && RoutedByHexKeyId(run) && Authentic(run[j])
    requires forall i :: 0 <= i < j && SameStream(run[i], run[j]) ==> run[i].nonce.sequence < run[j].nonce.sequence
    ensures Accepted(run, j)
    ensures forall k :: j < k < |run| && run[k] == run[j] ==> !Accepted(run, k)
  {
    AcceptanceMeaning(run, j);
    forall k | j < k < |run| && run[k] == run[j] ensures !Accepted(run, k) {
      AcceptanceMeaning(run, k);
    }
  }
}
