/** Migration 028: rewriting hash-chain entries from version 1.0.0 to 2.0.0 in keyset batches.

    The table is a map from entry id to row. A batch runs in one transaction, so its effect is all
    or nothing; what the network and the process do to each attempt is the environment's choice. */
module Migration {
  import opened Common

  type EntryId = int

  datatype ChainKey = ChainKey(namespace: string, tenantId: Option<string>, auditClass: Option<string>)

  datatype Version = V1 | V2 | OtherVersion

  datatype Row = Row(
    chain: ChainKey, position: nat, payload: string, hash: string, previous: string,
    version: Version, identityJcs: Option<string>)

  type Table = map<EntryId, Row>

  /** Canonical chain identity, and the hash of payload followed by identity. */
  datatype Hasher = Hasher(identity: ChainKey -> string, digest: (string, string) -> string)

  function Zeros(n: nat): string {
    if n == 0 then "" else "0" + Zeros(n - 1)
  }

  const GENESIS_PREVIOUS_HASH := Zeros(64)

  predicate Pending(r: Row) {
    r.version == V1 || r.identityJcs.None?
  }

  function NewHash(h: Hasher, r: Row): string {
    h.digest(r.payload, h.identity(r.chain))
  }

  /** The four-column update. */
  function Upgraded(h: Hasher, r: Row, previous: string): Row {
    r.(identityJcs := Some(h.identity(r.chain)), hash := NewHash(h, r), previous := previous, version := V2)
  }

  // ------------------------------------------------------------------ shape of a table

  /** For each chain, its entry ids by position. */
  type Layout = map<ChainKey, seq<EntryId>>

  predicate RowPlaced(t: Table, l: Layout, id: EntryId)
    requires id in t
  {
    t[id].chain in l && t[id].position < |l[t[id].chain]| && l[t[id].chain][t[id].position] == id
  }

  predicate SlotFilled(t: Table, l: Layout, c: ChainKey, p: nat)
    requires c in l && p < |l[c]|
  {
    l[c][p] in t && t[l[c][p]].chain == c && t[l[c][p]].position == p
  }

  /** Positions of every chain are contiguous from zero and unique. */
  ghost predicate WellLaid(t: Table, l: Layout) {
    && (forall id :: id in t ==> RowPlaced(t, l, id))
    && (forall c, p: nat :: c in l && p < |l[c]| ==> SlotFilled(t, l, c, p))
  }

  function PreviousHash(t: Table, l: Layout, c: ChainKey, p: nat): string
    requires WellLaid(t, l) && c in l && p < |l[c]|
  {
    if p == 0 then GENESIS_PREVIOUS_HASH else
      assert SlotFilled(t, l, c, p - 1);
      t[l[c][p - 1]].hash
  }

  /** Entry `p` of chain `c` is migrated and linked to its predecessor. */
  predicate Linked(t: Table, l: Layout, c: ChainKey, p: nat)
    requires WellLaid(t, l) && c in l && p < |l[c]|
  {
    assert SlotFilled(t, l, c, p);
    var r := t[l[c][p]];
    !Pending(r) && r.version == V2 && r.previous == PreviousHash(t, l, c, p)
  }

  predicate PendingAt(t: Table, l: Layout, c: ChainKey, p: nat)
    requires WellLaid(t, l) && c in l && p < |l[c]|
  {
    assert SlotFilled(t, l, c, p);
    Pending(t[l[c][p]])
  }

  /** Chain `c` is a linked prefix of `k` migrated entries followed by pending ones. */
  ghost predicate SplitAt(t: Table, l: Layout, c: ChainKey, k: nat)
    requires WellLaid(t, l) && c in l
  {
    && k <= |l[c]|
    && (forall p: nat :: p < k ==> Linked(t, l, c, p))
    && (forall p: nat :: k <= p < |l[c]| ==> PendingAt(t, l, c, p))
  }

  ghost predicate ChainShape(t: Table, l: Layout, c: ChainKey)
    requires WellLaid(t, l) && c in l
  {
    exists k: nat :: SplitAt(t, l, c, k)
  }

  ghost predicate Shape(t: Table, l: Layout) {
    WellLaid(t, l) && forall c :: c in l ==> ChainShape(t, l, c)
  }

  // ------------------------------------------------------------------ the table every run converges to

  function FinalHash(h: Hasher, r: Row): string {
    if Pending(r) then NewHash(h, r) else r.hash
  }

  function FinalPrevious(h: Hasher, t: Table, l: Layout, c: ChainKey, p: nat): string
    requires WellLaid(t, l) && c in l && p < |l[c]|
  {
    if p == 0 then GENESIS_PREVIOUS_HASH else
      assert SlotFilled(t, l, c, p - 1);
      FinalHash(h, t[l[c][p - 1]])
  }

  function FinalRow(h: Hasher, t: Table, l: Layout, id: EntryId): Row
    requires WellLaid(t, l) && id in t
  {
    assert RowPlaced(t, l, id);
    if Pending(t[id]) then Upgraded(h, t[id], FinalPrevious(h, t, l, t[id].chain, t[id].position)) else t[id]
  }

  /** It depends on the initial rows alone. */
  function Final(h: Hasher, t: Table, l: Layout): Table
    requires WellLaid(t, l)
  {
    map id | id in t :: FinalRow(h, t, l, id)
  }

  /** Two layouts of the same table agree on where it is going: the final table is a function of the rows. */
  lemma FinalIgnoresLayout(h: Hasher, t: Table, l: Layout, l': Layout)
    requires WellLaid(t, l) && WellLaid(t, l')
    ensures Final(h, t, l) == Final(h, t, l')
  {
    forall id | id in t ensures FinalRow(h, t, l, id) == FinalRow(h, t, l', id) {
      assert RowPlaced(t, l, id) && RowPlaced(t, l', id);
      var c, p := t[id].chain, t[id].position;
      if p > 0 {
        assert SlotFilled(t, l, c, p - 1) && RowPlaced(t, l', l[c][p - 1]);
      }
    }
  }

  predicate AllZeros(s: string) {
    |s| == 64 && forall i :: 0 <= i < |s| ==> s[i] == '0'
  }

  lemma {:induction false} ZerosAre(n: nat, s: string)
    ensures s == Zeros(n) <==> |s| == n && forall i :: 0 <= i < |s| ==> s[i] == '0'
    decreases n
  {
    if n > 0 {
      ZerosAre(n - 1, Zeros(n - 1));
      if |s| == n && forall i :: 0 <= i < |s| ==> s[i] == '0' {
        ZerosAre(n - 1, s[1..]);
        assert s == "0" + s[1..];
      }
    }
  }

  /** The row names the hash of the one before it in its chain, or sixty-four zeros when it is the first. */
  predicate LinksBack(t: Table, r: Row) {
    if r.position == 0 then AllZeros(r.previous)
    else exists q :: q in t && t[q].chain == r.chain && t[q].position + 1 == r.position && r.previous == t[q].hash
  }

  /** A row that was to be migrated has the digest of its payload followed by its chain's identity, that identity,
      version 2 and the link back, and keeps everything else; any other row is as it was. */
  predicate RowMigrated(h: Hasher, t: Table, before: Row, after: Row) {
    if before.version == V1 || before.identityJcs.None? then
      && after.hash == h.digest(before.payload, h.identity(before.chain))
      && after.identityJcs == Some(h.identity(before.chain)) && after.version == V2
      && after.payload == before.payload && after.chain == before.chain && after.position == before.position
      && LinksBack(t, after)
    else after == before
  }

  /** The migration of a table, row by row. */
  predicate MigratedFrom(h: Hasher, t0: Table, t: Table) {
    t.Keys == t0.Keys && forall id :: id in t0 ==> RowMigrated(h, t, t0[id], t[id])
  }

  lemma FinalRowMigrated(h: Hasher, t0: Table, l: Layout, id: EntryId)
    requires WellLaid(t0, l) && id in t0
    ensures RowMigrated(h, Final(h, t0, l), t0[id], FinalRow(h, t0, l, id))
  {
    assert RowPlaced(t0, l, id);
    var c, p := t0[id].chain, t0[id].position;
    if p == 0 {
      ZerosAre(64, GENESIS_PREVIOUS_HASH);
    } else {
      assert SlotFilled(t0, l, c, p - 1);
      var q := l[c][p - 1];
      assert Final(h, t0, l)[q] == FinalRow(h, t0, l, q);
    }
  }

  lemma MigratedIsFinal(h: Hasher, t0: Table, l: Layout, t: Table, id: EntryId)
    requires WellLaid(t0, l) && MigratedFrom(h, t0, t) && id in t0
    ensures t[id] == FinalRow(h, t0, l, id)
  {
    assert RowPlaced(t0, l, id) && RowMigrated(h, t, t0[id], t[id]);
    var c, p := t0[id].chain, t0[id].position;
    if Pending(t0[id]) {
      if p == 0 {
        ZerosAre(64, t[id].previous);
      } else {
        var q :| q in t && t[q].chain == c && t[q].position + 1 == p && t[id].previous == t[q].hash;
        assert RowMigrated(h, t, t0[q], t[q]) && RowPlaced(t0, l, q);
      }
    }
  }

  /** The final table is the migrated one, and no other table is. */
  lemma FinalMeaning(h: Hasher, t0: Table, l: Layout, t: Table)
    requires WellLaid(t0, l)
    ensures t == Final(h, t0, l) <==> MigratedFrom(h, t0, t)
  {
    if t == Final(h, t0, l) {
      forall id | id in t0 ensures RowMigrated(h, t, t0[id], t[id]) {
        FinalRowMigrated(h, t0, l, id);
      }
    }
    if MigratedFrom(h, t0, t) {
      forall id | id in t0 ensures t[id] == FinalRow(h, t0, l, id) {
        MigratedIsFinal(h, t0, l, t, id);
      }
    }
  }

  /** Some rows of `t0` have been replaced by their final form. */
  ghost predicate Progress(h: Hasher, t0: Table, t: Table, l: Layout)
    requires WellLaid(t0, l)
  {
    t.Keys == t0.Keys && forall id :: id in t0 ==> t[id] == t0[id] || t[id] == FinalRow(h, t0, l, id)
  }

  lemma ProgressKeepsLayout(h: Hasher, t0: Table, t: Table, l: Layout)
    requires WellLaid(t0, l) && Progress(h, t0, t, l)
    ensures WellLaid(t, l)
  {
    forall id | id in t ensures RowPlaced(t, l, id) {
      assert RowPlaced(t0, l, id);
    }
    forall c, p: nat | c in l && p < |l[c]| ensures SlotFilled(t, l, c, p) {
      assert SlotFilled(t0, l, c, p);
      var id := l[c][p];
      assert t[id] == t0[id] || t[id] == FinalRow(h, t0, l, id);
    }
  }

  lemma ProgressKeepsHash(h: Hasher, t0: Table, t: Table, l: Layout, id: EntryId)
    requires WellLaid(t0, l) && Progress(h, t0, t, l) && id in t0
    ensures FinalHash(h, t[id]) == FinalHash(h, t0[id])
  {
  }

  lemma ProgressKeepsRow(h: Hasher, t0: Table, t: Table, l: Layout, id: EntryId)
    requires WellLaid(t0, l) && Progress(h, t0, t, l) && WellLaid(t, l) && id in t0
    ensures FinalRow(h, t, l, id) == FinalRow(h, t0, l, id)
  {
    assert RowPlaced(t0, l, id) && RowPlaced(t, l, id);
    var c, p := t0[id].chain, t0[id].position;
    if p > 0 {
      assert SlotFilled(t0, l, c, p - 1) && SlotFilled(t, l, c, p - 1);
      ProgressKeepsHash(h, t0, t, l, l[c][p - 1]);
    }
  }

  /** Partial progress does not change where the migration is going. */
  lemma ProgressKeepsFinal(h: Hasher, t0: Table, t: Table, l: Layout)
    requires WellLaid(t0, l) && Progress(h, t0, t, l)
    ensures WellLaid(t, l) && Final(h, t, l) == Final(h, t0, l)
  {
    ProgressKeepsLayout(h, t0, t, l);
    forall id | id in t0 ensures FinalRow(h, t, l, id) == FinalRow(h, t0, l, id) {
      ProgressKeepsRow(h, t0, t, l, id);
    }
  }

  lemma ProgressTransitive(h: Hasher, t0: Table, t1: Table, t2: Table, l: Layout)
    requires WellLaid(t0, l) && Progress(h, t0, t1, l) && WellLaid(t1, l) && Progress(h, t1, t2, l)
    ensures Progress(h, t0, t2, l)
  {
    forall id | id in t0 ensures t2[id] == t0[id] || t2[id] == FinalRow(h, t0, l, id) {
      ProgressKeepsRow(h, t0, t1, l, id);
    }
  }

  ghost predicate NothingPending(t: Table) {
    forall id :: id in t ==> !Pending(t[id])
  }

  /** A table without pending rows is final. */
  lemma DoneIsFinal(h: Hasher, t0: Table, t: Table, l: Layout)
    requires WellLaid(t0, l) && Progress(h, t0, t, l) && NothingPending(t)
    ensures t == Final(h, t0, l)
  {
    forall id | id in t0 ensures t[id] == FinalRow(h, t0, l, id) {
      assert t[id] == t0[id] || t[id] == FinalRow(h, t0, l, id);
    }
  }

  /** In the final table every entry is linked: its previous hash is the hash of its predecessor,
      and sixty-four zeros at position zero. */
  lemma FinalIsLinked(h: Hasher, t: Table, l: Layout, c: ChainKey, p: nat)
    requires Shape(t, l) && c in l && p < |l[c]|
    ensures WellLaid(Final(h, t, l), l) && Linked(Final(h, t, l), l, c, p)
  {
    var f := Final(h, t, l);
    ProgressKeepsLayout(h, t, f, l);
    assert ChainShape(t, l, c);
    var k: nat :| SplitAt(t, l, c, k);
    assert SlotFilled(t, l, c, p) && SlotFilled(f, l, c, p);
    if p > 0 {
      assert SlotFilled(t, l, c, p - 1) && SlotFilled(f, l, c, p - 1);
      assert f[l[c][p - 1]].hash == FinalHash(h, t[l[c][p - 1]]);
    }
    if p < k {
      assert Linked(t, l, c, p);
      if p > 0 { assert Linked(t, l, c, p - 1); }
    } else {
      assert PendingAt(t, l, c, p);
    }
  }

  // ------------------------------------------------------------------ committing a range

  predicate InRange(r: Row, c: ChainKey, from: nat, end: nat) {
    r.chain == c && from <= r.position < end
  }

  /** Rows `from` to `end` of one chain in their final form, everything else untouched. */
  function Committed(h: Hasher, t: Table, l: Layout, c: ChainKey, from: nat, end: nat): Table
    requires WellLaid(t, l)
  {
    map id | id in t :: if InRange(t[id], c, from, end) then FinalRow(h, t, l, id) else t[id]
  }

  lemma CommittedIsProgress(h: Hasher, t: Table, l: Layout, c: ChainKey, from: nat, end: nat)
    requires WellLaid(t, l)
    ensures Progress(h, t, Committed(h, t, l, c, from, end), l)
    ensures WellLaid(Committed(h, t, l, c, from, end), l)
  {
    ProgressKeepsLayout(h, t, Committed(h, t, l, c, from, end), l);
  }

  /** Committing the next stretch of a chain keeps the shape of every chain. */
  lemma CommittedKeepsShape(h: Hasher, t: Table, l: Layout, c: ChainKey, k: nat, end: nat)
    requires Shape(t, l) && c in l && SplitAt(t, l, c, k) && k <= end <= |l[c]|
    ensures Shape(Committed(h, t, l, c, k, end), l) && SplitAt(Committed(h, t, l, c, k, end), l, c, end)
  {
    var t' := Committed(h, t, l, c, k, end);
    CommittedIsProgress(h, t, l, c, k, end);
    CommittedSplit(h, t, l, c, k, end);
    forall d | d in l ensures ChainShape(t', l, d) {
      if d == c {
        assert SplitAt(t', l, c, end);
      } else {
        assert ChainShape(t, l, d);
        var j: nat :| SplitAt(t, l, d, j);
        OtherChainSame(h, t, l, c, k, end, d, j);
      }
    }
  }

  lemma OtherChainSame(h: Hasher, t: Table, l: Layout, c: ChainKey, k: nat, end: nat, d: ChainKey, j: nat)
    requires WellLaid(t, l) && WellLaid(Committed(h, t, l, c, k, end), l) && d in l && d != c && SplitAt(t, l, d, j)
    ensures SplitAt(Committed(h, t, l, c, k, end), l, d, j)
  {
    var t' := Committed(h, t, l, c, k, end);
    forall p: nat | p < |l[d]| ensures SlotFilled(t, l, d, p) && t'[l[d][p]] == t[l[d][p]] {
      assert SlotFilled(t, l, d, p);
    }
    forall p: nat | p < j ensures Linked(t', l, d, p) {
      assert Linked(t, l, d, p) && SlotFilled(t, l, d, p);
      if p > 0 { assert SlotFilled(t, l, d, p - 1); }
    }
    forall p: nat | j <= p < |l[d]| ensures PendingAt(t', l, d, p) {
      assert PendingAt(t, l, d, p) && SlotFilled(t, l, d, p);
    }
  }

  lemma CommittedSplit(h: Hasher, t: Table, l: Layout, c: ChainKey, k: nat, end: nat)
    requires WellLaid(t, l) && WellLaid(Committed(h, t, l, c, k, end), l)
    requires c in l && SplitAt(t, l, c, k) && k <= end <= |l[c]|
    ensures SplitAt(Committed(h, t, l, c, k, end), l, c, end)
  {
    var t' := Committed(h, t, l, c, k, end);
    forall p: nat | p < end ensures Linked(t', l, c, p) {
      CommittedLink(h, t, l, c, k, end, p);
    }
    forall p: nat | end <= p < |l[c]| ensures PendingAt(t', l, c, p) {
      assert PendingAt(t, l, c, p) && SlotFilled(t, l, c, p) && SlotFilled(t', l, c, p);
    }
  }

  lemma CommittedLink(h: Hasher, t: Table, l: Layout, c: ChainKey, k: nat, end: nat, p: nat)
    requires WellLaid(t, l) && WellLaid(Committed(h, t, l, c, k, end), l)
    requires c in l && SplitAt(t, l, c, k) && k <= end <= |l[c]| && p < end
    ensures Linked(Committed(h, t, l, c, k, end), l, c, p)
  {
    var t' := Committed(h, t, l, c, k, end);
    assert SlotFilled(t, l, c, p) && SlotFilled(t', l, c, p);
    if p < k {
      assert Linked(t, l, c, p);
    } else {
      assert PendingAt(t, l, c, p);
      assert t'[l[c][p]] == FinalRow(h, t, l, l[c][p]);
    }
    if p > 0 {
      assert SlotFilled(t, l, c, p - 1) && SlotFilled(t', l, c, p - 1);
      if p - 1 < k {
        assert Linked(t, l, c, p - 1);
      } else {
        assert PendingAt(t, l, c, p - 1);
      }
    }
  }

  // ------------------------------------------------------------------ one batch, as values

  /** A row as SELECT returned it. */
  datatype Selected = Selected(id: EntryId, row: Row)

  /** The UPDATE statement: four columns of the row with this id, computed from the selected row. */
  function UpdateRow(h: Hasher, t: Table, s: Selected, previous: string): Table {
    if s.id !in t then t else
      t[s.id := t[s.id].(
          identityJcs := Some(h.identity(s.row.chain)), hash := NewHash(h, s.row), previous := previous, version := V2)]
  }

  /** All updates of a batch, each row linked to the new hash of the one before. */
  function UpdateRows(h: Hasher, t: Table, rows: seq<Selected>, previous: string): Table
    decreases |rows|
  {
    if rows == [] then t
    else UpdateRows(h, UpdateRow(h, t, rows[0], previous), rows[1..], NewHash(h, rows[0].row))
  }

  predicate Mentions(rows: seq<Selected>, id: EntryId) {
    exists i :: 0 <= i < |rows| && rows[i].id == id
  }

  predicate DistinctIds(rows: seq<Selected>) {
    forall i, j :: 0 <= i < j < |rows| ==> rows[i].id != rows[j].id
  }

  /** A batch touches its own rows only. */
  lemma {:induction false} UpdateRowsFrame(h: Hasher, t: Table, rows: seq<Selected>, previous: string, id: EntryId)
    requires !Mentions(rows, id)
    ensures UpdateRows(h, t, rows, previous).Keys == t.Keys
    ensures id in t ==> UpdateRows(h, t, rows, previous)[id] == t[id]
    decreases |rows|
  {
    if rows != [] {
      assert forall i :: 0 <= i < |rows[1..]| ==> rows[1..][i] == rows[i + 1];
      assert rows[0].id != id;
      UpdateRowsFrame(h, UpdateRow(h, t, rows[0], previous), rows[1..], NewHash(h, rows[0].row), id);
    }
  }

  /** And writes into each the digest of its payload followed by its chain's identity, that identity, version 2, and
      as previous hash the new digest of the row before it, or the anchor for the first. */
  lemma {:induction false} UpdateRowsMeaning(h: Hasher, t: Table, rows: seq<Selected>, previous: string, i: nat)
    requires DistinctIds(rows) && i < |rows| && rows[i].id in t
    ensures var s, u := rows[i], UpdateRows(h, t, rows, previous);
            s.id in u && u[s.id] == t[s.id].(
              hash := h.digest(s.row.payload, h.identity(s.row.chain)), version := V2,
              identityJcs := Some(h.identity(s.row.chain)),
              previous := if i == 0 then previous else
                h.digest(rows[i - 1].row.payload, h.identity(rows[i - 1].row.chain)))
    decreases |rows|
  {
    var rest, t' := rows[1..], UpdateRow(h, t, rows[0], previous);
    assert forall j :: 0 <= j < |rest| ==> rest[j] == rows[j + 1];
    if i == 0 {
      UpdateRowsFrame(h, t', rest, NewHash(h, rows[0].row), rows[0].id);
    } else {
      UpdateRowsMeaning(h, t', rest, NewHash(h, rows[0].row), i - 1);
    }
  }

  /** The selected rows of positions `from` to `end`. */
  function Stretch(t: Table, l: Layout, c: ChainKey, from: nat, end: nat): (rows: seq<Selected>)
    requires WellLaid(t, l) && c in l && from <= end <= |l[c]|
    ensures |rows| == end - from
    ensures forall i: nat :: i < end - from ==>
      SlotFilled(t, l, c, from + i) && rows[i] == Selected(l[c][from + i], t[l[c][from + i]])
    decreases end - from
  {
    if from == end then [] else
      assert SlotFilled(t, l, c, from);
      [Selected(l[c][from], t[l[c][from]])] + Stretch(t, l, c, from + 1, end)
  }

  /** Positions `from` to `j` are final, `j` to `end` are original or final, the rest is original. */
  ghost predicate PartWay(h: Hasher, t0: Table, t: Table, l: Layout, c: ChainKey, from: nat, j: nat, end: nat)
    requires WellLaid(t0, l)
  {
    t.Keys == t0.Keys && forall id :: id in t0 ==> PartWayRow(h, t0, t[id], l, id, c, from, j, end)
  }

  predicate PartWayRow(h: Hasher, t0: Table, r: Row, l: Layout, id: EntryId, c: ChainKey, from: nat, j: nat, end: nat)
    requires WellLaid(t0, l) && id in t0
  {
    if InRange(t0[id], c, from, j) then r == FinalRow(h, t0, l, id)
    else if InRange(t0[id], c, j, end) then r == t0[id] || r == FinalRow(h, t0, l, id)
    else r == t0[id]
  }

  lemma UpdateRowAdvances(h: Hasher, t0: Table, t: Table, l: Layout, c: ChainKey, from: nat, j: nat, end: nat)
    requires WellLaid(t0, l) && c in l && from <= j < end <= |l[c]| && PartWay(h, t0, t, l, c, from, j, end)
    requires PendingAt(t0, l, c, j) && SlotFilled(t0, l, c, j)
    ensures PartWay(h, t0, UpdateRow(h, t, Selected(l[c][j], t0[l[c][j]]), FinalPrevious(h, t0, l, c, j)), l, c, from,
      j + 1, end)
  {
    var id0 := l[c][j];
    var t' := UpdateRow(h, t, Selected(id0, t0[id0]), FinalPrevious(h, t0, l, c, j));
    assert PartWayRow(h, t0, t[id0], l, id0, c, from, j, end);
    assert t'[id0] == FinalRow(h, t0, l, id0);
    forall id | id in t0 ensures PartWayRow(h, t0, t'[id], l, id, c, from, j + 1, end) {
      assert PartWayRow(h, t0, t[id], l, id, c, from, j, end) && RowPlaced(t0, l, id);
    }
  }

  lemma PartWayEnd(h: Hasher, t0: Table, t: Table, l: Layout, c: ChainKey, from: nat, end: nat)
    requires WellLaid(t0, l) && PartWay(h, t0, t, l, c, from, end, end)
    ensures t == Committed(h, t0, l, c, from, end)
  {
    forall id | id in t0 ensures t[id] == Committed(h, t0, l, c, from, end)[id] {
      assert PartWayRow(h, t0, t[id], l, id, c, from, end, end);
    }
  }

  lemma StretchTail(t: Table, l: Layout, c: ChainKey, from: nat, end: nat)
    requires WellLaid(t, l) && c in l && from < end <= |l[c]| && SlotFilled(t, l, c, from)
    ensures Stretch(t, l, c, from, end)[0] == Selected(l[c][from], t[l[c][from]])
    ensures Stretch(t, l, c, from, end)[1..] == Stretch(t, l, c, from + 1, end)
  {
  }

  lemma {:induction false} UpdateRowsFinish(
    h: Hasher, t0: Table, t: Table, l: Layout, c: ChainKey, from: nat, j: nat, end: nat, previous: string)
    requires WellLaid(t0, l) && c in l && from <= j <= end <= |l[c]| && PartWay(h, t0, t, l, c, from, j, end)
    requires forall p: nat :: j <= p < end ==> PendingAt(t0, l, c, p)
    requires j < end ==> previous == FinalPrevious(h, t0, l, c, j)
    ensures UpdateRows(h, t, Stretch(t0, l, c, j, end), previous) == Committed(h, t0, l, c, from, end)
    decreases end - j
  {
    if j == end {
      PartWayEnd(h, t0, t, l, c, from, end);
    } else {
      var rows := Stretch(t0, l, c, j, end);
      assert SlotFilled(t0, l, c, j) && PendingAt(t0, l, c, j);
      StretchTail(t0, l, c, j, end);
      UpdateRowAdvances(h, t0, t, l, c, from, j, end);
      UpdateRowsFinish(h, t0, UpdateRow(h, t, rows[0], previous), l, c, from, j + 1, end, NewHash(h, rows[0].row));
    }
  }

  /** Running a batch on the table it was selected from, or once more after its commit went through
      unacknowledged, gives the same table. */
  lemma BatchIsIdempotent(h: Hasher, t0: Table, t: Table, l: Layout, c: ChainKey, k: nat, end: nat, previous: string)
    requires WellLaid(t0, l) && c in l && SplitAt(t0, l, c, k) && k <= end <= |l[c]|
    requires t == t0 || t == Committed(h, t0, l, c, k, end)
    requires k < end ==> previous == PreviousHash(t0, l, c, k)
    ensures UpdateRows(h, t, Stretch(t0, l, c, k, end), previous) == Committed(h, t0, l, c, k, end)
  {
    forall id | id in t0 ensures PartWayRow(h, t0, t[id], l, id, c, k, k, end) {
    }
    if k < end && k > 0 {
      assert Linked(t0, l, c, k - 1) && SlotFilled(t0, l, c, k - 1);
    }
    UpdateRowsFinish(h, t0, t, l, c, k, k, end, previous);
  }
}
