/** Migration 028 as it runs: keyset pages, one transaction per batch, retries, crashes and restarts. */
module MigrationRun {
  import opened Migration

  // ------------------------------------------------------------------ keyset pages

  datatype Cursor = Start | After(position: nat, id: EntryId)

  predicate Past(cursor: Cursor, r: Row, id: EntryId) {
    cursor.Start? || cursor.position < r.position || (cursor.position == r.position && cursor.id < id)
  }

  /** The cursor orders rows by position and, within a position, by id: nothing is past itself, and of two different
      keys exactly one is past the other. */
  lemma CursorOrder(r: Row, id: EntryId, r': Row, id': EntryId)
    ensures Past(Start, r, id) && !Past(After(r.position, id), r, id)
    ensures r.position < r'.position ==> Past(After(r.position, id), r', id')
    ensures r.position == r'.position && id < id' ==> Past(After(r.position, id), r', id')
    ensures !(r.position == r'.position && id == id') ==>
      (Past(After(r.position, id), r', id') <==> !Past(After(r'.position, id'), r, id))
  {
  }

  predicate Matches(t: Table, c: ChainKey, cursor: Cursor, id: EntryId) {
    id in t && t[id].chain == c && Pending(t[id]) && Past(cursor, t[id], id)
  }

  function Matching(t: Table, c: ChainKey, cursor: Cursor): set<EntryId> {
    set id | id in t && Matches(t, c, cursor, id)
  }

  /** Ascending (position, id). */
  predicate Precedes(t: Table, a: EntryId, b: EntryId)
    requires a in t && b in t
  {
    t[a].position < t[b].position || (t[a].position == t[b].position && a < b)
  }

  predicate Fetched(t: Table, s: Selected) {
    s.id in t && s.row == t[s.id]
  }

  /** The first `n` matching rows in order. */
  ghost predicate IsPage(t: Table, c: ChainKey, cursor: Cursor, n: nat, rows: seq<Selected>) {
    && |rows| <= n
    && (forall i :: 0 <= i < |rows| ==> Fetched(t, rows[i]) && Matches(t, c, cursor, rows[i].id))
    && (forall i, j :: 0 <= i < j < |rows| ==> Precedes(t, rows[i].id, rows[j].id))
    && (forall id :: Matches(t, c, cursor, id) ==> OnPage(rows, id) || (|rows| == n && AllPrecede(t, rows, id)))
  }

  ghost predicate OnPage(rows: seq<Selected>, id: EntryId) {
    exists i :: 0 <= i < |rows| && rows[i].id == id
  }

  ghost predicate AllPrecede(t: Table, rows: seq<Selected>, id: EntryId) {
    id in t && forall i :: 0 <= i < |rows| ==> rows[i].id in t && Precedes(t, rows[i].id, id)
  }

  /** A matching row lies at its slot, at or after the split. */
  lemma MatchIsPending(t: Table, l: Layout, c: ChainKey, k: nat, cursor: Cursor, id: EntryId)
    requires WellLaid(t, l) && c in l && SplitAt(t, l, c, k) && Matches(t, c, cursor, id)
    ensures k <= t[id].position < |l[c]| && l[c][t[id].position] == id
  {
    assert RowPlaced(t, l, id);
    assert t[id].position < k ==> Linked(t, l, c, t[id].position);
  }

  lemma SlotMatches(t: Table, l: Layout, c: ChainKey, k: nat, cursor: Cursor, p: nat)
    requires WellLaid(t, l) && c in l && SplitAt(t, l, c, k) && (cursor.After? ==> cursor.position < k)
    requires k <= p < |l[c]|
    ensures SlotFilled(t, l, c, p) && Matches(t, c, cursor, l[c][p])
  {
    assert PendingAt(t, l, c, p) && SlotFilled(t, l, c, p);
  }

  lemma NoGap(t: Table, rows: seq<Selected>, i: nat, next: EntryId)
    requires next in t && i < |rows| && forall a :: 0 <= a < |rows| ==> rows[a].id in t
    requires forall a, b :: 0 <= a < b < |rows| ==> Precedes(t, rows[a].id, rows[b].id)
    requires OnPage(rows, next) || AllPrecede(t, rows, next)
    requires i > 0 ==> t[rows[i - 1].id].position < t[next].position
    ensures t[rows[i].id].position <= t[next].position
  {
    if OnPage(rows, next) {
      var j :| 0 <= j < |rows| && rows[j].id == next;
      assert i < j ==> Precedes(t, rows[i].id, rows[j].id);
    }
  }

  /** On a chain split at `k`, with the cursor anywhere before `k`, row `i` of the page is position `k + i`. */
  lemma {:induction false} PageRow(
    t: Table, l: Layout, c: ChainKey, k: nat, cursor: Cursor, n: nat, rows: seq<Selected>, i: nat)
    requires WellLaid(t, l) && c in l && SplitAt(t, l, c, k) && IsPage(t, c, cursor, n, rows)
    requires (cursor.After? ==> cursor.position < k) && i < |rows|
    ensures k + i < |l[c]| && rows[i].id == l[c][k + i]
    decreases i
  {
    var id := rows[i].id;
    assert Fetched(t, rows[i]) && Matches(t, c, cursor, id);
    MatchIsPending(t, l, c, k, cursor, id);
    if i > 0 {
      PageRow(t, l, c, k, cursor, n, rows, i - 1);
      assert Precedes(t, rows[i - 1].id, id) && SlotFilled(t, l, c, k + i - 1);
    }
    SlotMatches(t, l, c, k, cursor, k + i);
    NoGap(t, rows, i, l[c][k + i]);
  }

  lemma PageStopsShort(t: Table, l: Layout, c: ChainKey, k: nat, cursor: Cursor, n: nat, rows: seq<Selected>)
    requires WellLaid(t, l) && c in l && SplitAt(t, l, c, k) && IsPage(t, c, cursor, n, rows)
    requires (cursor.After? ==> cursor.position < k) && k + |rows| < |l[c]|
    ensures |rows| == n
  {
    SlotMatches(t, l, c, k, cursor, k + |rows|);
    forall i: nat | i < |rows| ensures rows[i].id != l[c][k + |rows|] {
      PageRow(t, l, c, k, cursor, n, rows, i);
      assert SlotFilled(t, l, c, k + i);
    }
  }

  /** The page is exactly the next stretch of the chain. */
  lemma PageIsStretch(t: Table, l: Layout, c: ChainKey, k: nat, cursor: Cursor, n: nat, rows: seq<Selected>)
    requires WellLaid(t, l) && c in l && SplitAt(t, l, c, k) && IsPage(t, c, cursor, n, rows)
    requires cursor.After? ==> cursor.position < k
    ensures k + |rows| <= |l[c]| && rows == Stretch(t, l, c, k, k + |rows|)
    ensures |rows| < n ==> k + |rows| == |l[c]|
  {
    forall i: nat | i < |rows| ensures k + i < |l[c]| && rows[i].id == l[c][k + i] && Fetched(t, rows[i]) {
      PageRow(t, l, c, k, cursor, n, rows, i);
    }
    if |rows| > 0 { PageRow(t, l, c, k, cursor, n, rows, |rows| - 1); }
    if k + |rows| < |l[c]| { PageStopsShort(t, l, c, k, cursor, n, rows); }
  }

  // ------------------------------------------------------------------ the anchor of a batch

  datatype Anchor = Found(hash: string) | Missing | NotMigrated

  /** Row `id` stands right before position `p` of its chain. */
  predicate Before(t: Table, id: EntryId, c: ChainKey, p: nat) {
    id in t && t[id].chain == c && t[id].position + 1 == p
  }

  /** What the anchor query may answer for a batch that starts at position `p`. A position that arrives as
      text never equals the number zero, and the query then looks for a row before the first. */
  ghost predicate IsAnchor(numeric: bool, t: Table, c: ChainKey, p: nat, a: Anchor) {
    if numeric && p == 0 then a == Found(GENESIS_PREVIOUS_HASH) else
      match a
      case Found(x) => exists id :: Before(t, id, c, p) && t[id].version == V2 && t[id].hash == x
      case Missing => forall id :: !Before(t, id, c, p)
      case NotMigrated => exists id :: Before(t, id, c, p) && t[id].version != V2
  }

  /** A batch that starts at position `p` has an anchor to find. */
  predicate Anchored(numeric: bool, p: nat) {
    numeric || p > 0
  }

  /** With the predecessor migrated, the anchor is its hash. */
  lemma AnchorIsPrevious(numeric: bool, t: Table, l: Layout, c: ChainKey, p: nat, a: Anchor)
    requires WellLaid(t, l) && c in l && p < |l[c]| && (p > 0 ==> Linked(t, l, c, p - 1))
    requires IsAnchor(numeric, t, c, p, a)
    ensures a == if Anchored(numeric, p) then Found(PreviousHash(t, l, c, p)) else Missing
  {
    if p > 0 {
      assert SlotFilled(t, l, c, p - 1) && Before(t, l[c][p - 1], c, p);
      forall id | Before(t, id, c, p) ensures id == l[c][p - 1] {
        assert RowPlaced(t, l, id);
      }
    }
  }

  /** The anchor read before a batch or after its unacknowledged commit is the same. */
  lemma AnchorIsStable(
    numeric: bool, h: Hasher, t0: Table, t: Table, l: Layout, c: ChainKey, k: nat, end: nat, a: Anchor)
    requires Shape(t0, l) && c in l && SplitAt(t0, l, c, k) && k < end <= |l[c]|
    requires t == t0 || t == Committed(h, t0, l, c, k, end)
    requires IsAnchor(numeric, t, c, k, a)
    ensures a == if Anchored(numeric, k) then Found(PreviousHash(t0, l, c, k)) else Missing
  {
    CommittedKeepsShape(h, t0, l, c, k, end);
    if k > 0 {
      assert Linked(t0, l, c, k - 1) && SlotFilled(t0, l, c, k - 1);
      assert Linked(Committed(h, t0, l, c, k, end), l, c, k - 1);
    }
    AnchorIsPrevious(numeric, t, l, c, k, a);
  }

  /** The first row of the chain is still to be migrated. */
  ghost predicate StartPending(t: Table, c: ChainKey) {
    exists id :: id in t && t[id].chain == c && t[id].position == 0 && Pending(t[id])
  }

  ghost predicate NoneStarts(t: Table) {
    forall id :: id in t && t[id].position == 0 ==> !Pending(t[id])
  }

  /** First rows are as before. */
  ghost predicate StartsKept(t0: Table, t: Table) {
    t.Keys == t0.Keys && forall id :: id in t0 && (t0[id].position == 0 || t[id].position == 0) ==> t[id] == t0[id]
  }

  lemma StartsCompose(t0: Table, t1: Table, t2: Table)
    requires StartsKept(t0, t1) && StartsKept(t1, t2)
    ensures StartsKept(t0, t2) && (NoneStarts(t0) <==> NoneStarts(t1))
  {
  }

  /** The smallest table on which the two readings of a position part: one pending first row. */
  lemma TextHidesStart(id: EntryId, r: Row, a: Anchor)
    requires r.position == 0 && Pending(r)
    ensures var t := map[id := r];
            && Shape(t, map[r.chain := [id]]) && !NoneStarts(t)
            && (IsAnchor(true, t, r.chain, 0, a) <==> a == Found(GENESIS_PREVIOUS_HASH))
            && (IsAnchor(false, t, r.chain, 0, a) <==> a == Missing)
  {
    var t, l := map[id := r], map[r.chain := [id]];
    assert WellLaid(t, l) && SplitAt(t, l, r.chain, 0);
    assert ChainShape(t, l, r.chain);
    assert id in t && t[id].position == 0;
  }

  // ------------------------------------------------------------------ the environment

  /** What becomes of one call to the database. */
  datatype Outcome =
    | Succeeds
    | Fails                        // an error before the commit: rolled back
    | AckLost                      // committed, but the caller sees an error
    | Crashes(committed: bool)     // the process dies, before or after the commit

  predicate Durable(o: Outcome) {
    o.Succeeds? || o.AckLost? || (o.Crashes? && o.committed)
  }

  datatype BatchResult = Done | Threw | Died

  datatype RunResult = Completed | Aborted

  /** One invocation of the script. */
  datatype Run = Run(batchSize: nat, retryPerBatch: nat, env: nat -> Outcome)

  ghost predicate Undisturbed(run: Run) {
    run.batchSize > 0 && run.retryPerBatch > 0 && forall i :: run.env(i) == Succeeds
  }

  ghost predicate OnlyChain(t0: Table, t: Table, c: ChainKey) {
    t.Keys == t0.Keys && forall id :: id in t0 && t0[id].chain != c ==> t[id] == t0[id]
  }

  ghost predicate ChainDone(t: Table, c: ChainKey) {
    forall id :: id in t && t[id].chain == c ==> !Pending(t[id])
  }

  lemma SplitEndIsDone(t: Table, l: Layout, c: ChainKey)
    requires WellLaid(t, l) && c in l && SplitAt(t, l, c, |l[c]|)
    ensures ChainDone(t, c)
  {
    forall id | id in t && t[id].chain == c ensures !Pending(t[id]) {
      assert RowPlaced(t, l, id);
      assert Linked(t, l, c, t[id].position);
    }
  }

  /** The required shape, and the original with some rows in their final form. */
  ghost predicate Good(h: Hasher, l: Layout, origin: Table, t: Table)
    requires WellLaid(origin, l)
  {
    Shape(t, l) && Progress(h, origin, t, l)
  }

  method AnyOf(ids: set<EntryId>) returns (m: EntryId)
    requires ids != {}
    ensures m in ids
  {
    assert (forall x :: x !in ids) ==> ids == {};
    m :| m in ids;
  }

  class Database {
    const h: Hasher
    const numeric: bool            // whether the driver returns positions as numbers rather than as text
    ghost const l: Layout
    var table: Table
    var tick: nat
    ghost var origin: Table        // the table before the first run
    ghost var commits: seq<Table>  // the table after every commit so far

    /** The table is good now and was good after every commit of every run. */
    ghost predicate Valid()
      reads this
    {
      WellLaid(origin, l) && Good(h, l, origin, table) && forall i :: 0 <= i < |commits| ==>
        Good(h, l, origin, commits[i])
    }

    constructor (h: Hasher, numeric: bool, ghost l: Layout, table: Table)
      requires Shape(table, l)
      ensures Valid() && this.h == h && this.numeric == numeric && this.l == l
      ensures this.table == table && origin == table && commits == []
    {
      this.h, this.numeric, this.l, this.table, this.tick := h, numeric, l, table, 0;
      this.origin, this.commits := table, [];
    }

    method FetchPrevCommittedHash(c: ChainKey, position: nat) returns (a: Anchor)
      ensures IsAnchor(numeric, table, c, position, a)
    {
      if numeric && position == 0 { return Found(GENESIS_PREVIOUS_HASH); }
      if id :| id in table && Before(table, id, c, position) {
        a := if table[id].version == V2 then Found(table[id].hash) else NotMigrated;
      } else {
        a := Missing;
      }
    }

    method First(ids: set<EntryId>) returns (m: EntryId)
      requires ids != {} && ids <= table.Keys
      ensures m in ids && forall x :: x in ids && x != m ==> Precedes(table, m, x)
    {
      m := AnyOf(ids);
      var rest := ids - {m};
      while rest != {}
        invariant m in ids && rest <= ids && m !in rest
        invariant forall x :: x in ids && x !in rest && x != m ==> Precedes(table, m, x)
        decreases |rest|
      {
        var x := AnyOf(rest);
        rest := rest - {x};
        if Precedes(table, x, m) { m := x; }
      }
    }

    method SelectNextBatch(c: ChainKey, cursor: Cursor, batchSize: nat) returns (rows: seq<Selected>)
      ensures IsPage(table, c, cursor, batchSize, rows)
    {
      rows := [];
      var rest := Matching(table, c, cursor);
      while |rows| < batchSize && rest != {}
        invariant |rows| <= batchSize && rest <= table.Keys && forall id :: id in rest ==> Matches(table, c, cursor, id)
        invariant forall i :: 0 <= i < |rows| ==> Fetched(table, rows[i]) && Matches(table, c, cursor, rows[i].id)
        invariant forall i, j :: 0 <= i < j < |rows| ==> Precedes(table, rows[i].id, rows[j].id)
        invariant forall id :: id in rest ==> AllPrecede(table, rows, id)
        invariant forall id :: Matches(table, c, cursor, id) ==> id in rest || OnPage(rows, id)
        decreases batchSize - |rows|
      {
        var m := First(rest);
        ghost var before := rows;
        assert AllPrecede(table, rows, m);
        rows := rows + [Selected(m, table[m])];
        rest := rest - {m};
        PageGrows(before, rows);
      }
    }

    /** On a chain split at `k` the selected batch is the next stretch. */
    method NextPage(c: ChainKey, cursor: Cursor, batchSize: nat, ghost k: nat) returns (rows: seq<Selected>)
      requires WellLaid(table, l) && c in l && SplitAt(table, l, c, k) && (cursor.After? ==> cursor.position < k)
      ensures k + |rows| <= |l[c]| && rows == Stretch(table, l, c, k, k + |rows|)
      ensures |rows| < batchSize ==> k + |rows| == |l[c]|
    {
      rows := SelectNextBatch(c, cursor, batchSize);
      PageIsStretch(table, l, c, k, cursor, batchSize, rows);
    }

    /** One transaction. The answer to the anchor query is reported as `a`. */
    method ProcessBatch(c: ChainKey, rows: seq<Selected>, outcome: Outcome) returns (r: BatchResult, ghost a: Anchor)
      requires rows != []
      modifies this`table, this`commits
      ensures IsAnchor(numeric, old(table), c, rows[0].row.position, a)
      ensures a.Found? && Durable(outcome) ==>
        table == UpdateRows(h, old(table), rows, a.hash) && commits == old(commits) + [table]
      ensures !(a.Found? && Durable(outcome)) ==> table == old(table) && commits == old(commits)
      ensures r == if outcome.Crashes? then Died else if a.Found? && outcome.Succeeds? then Done else Threw
    {
      var anchor := FetchPrevCommittedHash(c, rows[0].row.position);
      a := anchor;
      if anchor.Found? {
        var work, previous := table, anchor.hash;
        for i := 0 to |rows|
          invariant UpdateRows(h, work, rows[i..], previous) == UpdateRows(h, table, rows, a.hash)
          invariant table == old(table) && commits == old(commits)
        {
          assert rows[i..][1..] == rows[i + 1..];
          work := UpdateRow(h, work, rows[i], previous);
          previous := NewHash(h, rows[i].row);
        }
        if Durable(outcome) {
          table := work;
          commits := commits + [table];
        }
      }
      r := if outcome.Crashes? then Died else if anchor.Found? && outcome.Succeeds? then Done else Threw;
    }

    /** One attempt, on the table the batch was selected from or on one where it is already committed. */
    method Attempt(c: ChainKey, rows: seq<Selected>, outcome: Outcome, ghost t0: Table, ghost k: nat, ghost end: nat)
      returns (r: BatchResult)
      requires Valid() && Good(h, l, origin, t0) && c in l && SplitAt(t0, l, c, k) && k < end <= |l[c]|
      requires rows == Stretch(t0, l, c, k, end) && (table == t0 || table == Committed(h, t0, l, c, k, end))
      modifies this`table, this`commits
      ensures Valid() && (table == old(table) || table == Committed(h, t0, l, c, k, end))
      ensures r == Done ==> table == Committed(h, t0, l, c, k, end)
      ensures !Anchored(numeric, k) ==> table == old(table) && r != Done
      ensures outcome.Succeeds? && Anchored(numeric, k) ==> r == Done
    {
      StretchHead(t0, l, c, k, end);
      ghost var a;
      r, a := ProcessBatch(c, rows, outcome);
      AttemptIsGood(numeric, h, l, origin, t0, old(table), c, k, end, a);
    }

    /** However the attempts go, the table is as before or has exactly this stretch migrated. */
    method ProcessBatchWithRetry(c: ChainKey, rows: seq<Selected>, run: Run, ghost k: nat, ghost end: nat)
      returns (r: BatchResult)
      requires Valid() && c in l && SplitAt(table, l, c, k) && k < end <= |l[c]| && rows == Stretch(table, l, c, k, end)
      modifies this`table, this`commits, this`tick
      ensures Valid()
      ensures table == old(table) || table == Committed(h, old(table), l, c, k, end)
      ensures r == Done ==> table == Committed(h, old(table), l, c, k, end)
      ensures !Anchored(numeric, k) ==> table == old(table) && r != Done
      ensures Undisturbed(run) && Anchored(numeric, k) ==> r == Done
    {
      var attempt := 0;
      while attempt < run.retryPerBatch
        invariant Valid() && (table == old(table) || table == Committed(h, old(table), l, c, k, end))
        invariant !Anchored(numeric, k) ==> table == old(table)
        invariant attempt > 0 && Anchored(numeric, k) ==> !Undisturbed(run)
      {
        var outcome := run.env(tick);
        tick := tick + 1;
        r := Attempt(c, rows, outcome, old(table), k, end);
        if r != Threw { return; }
        attempt := attempt + 1;
      }
      r := Threw;
    }

    /** One chain, page after page. Where positions arrive as text, its first row is never touched and a
        pending one stops the chain. */
    method MigrateChain(c: ChainKey, run: Run) returns (r: BatchResult)
      requires Valid() && c in l
      modifies this`table, this`commits, this`tick
      ensures Valid() && Progress(h, old(table), table, l) && OnlyChain(old(table), table, c)
      ensures numeric || StartsKept(old(table), table)
      ensures Undisturbed(run) ==> (r == Done <==> numeric || !StartPending(old(table), c))
      ensures Undisturbed(run) && r == Done ==> ChainDone(table, c)
    {
      assert ChainShape(table, l, c);
      ghost var k: nat :| SplitAt(table, l, c, k);
      var cursor := Start;
      while true
        invariant Valid() && SplitAt(table, l, c, k) && (cursor.After? ==> cursor.position < k)
        invariant Progress(h, old(table), table, l) && OnlyChain(old(table), table, c)
        invariant numeric || StartsKept(old(table), table)
        decreases |l[c]| - k
      {
        ghost var t1 := table;
        if run.env(tick) != Succeeds { return Threw; }
        tick := tick + 1;
        var rows := NextPage(c, cursor, run.batchSize, k);
        if rows == [] {
          if run.batchSize > 0 { SplitEndIsDone(t1, l, c); }
          StartDecides(old(table), t1, l, c, k);
          return Done;
        }
        ghost var end := k + |rows|;
        r := ProcessBatchWithRetry(c, rows, run, k, end);
        StretchMoves(h, old(table), t1, l, c, k, end);
        StartDecides(old(table), t1, l, c, k);
        if r != Done { return; }
        cursor := After(rows[|rows| - 1].row.position, rows[|rows| - 1].id);
        StretchLast(t1, l, c, k, end);
        k := end;
      }
    }

    method ListChains() returns (chains: seq<ChainKey>)
      ensures forall c :: c in chains <==> HasPending(table, c)
      ensures forall i, j :: 0 <= i < j < |chains| ==> chains[i] != chains[j]
    {
      chains := [];
      var rest := PendingIds(table);
      while rest != {}
        invariant rest <= PendingIds(table)
        invariant forall c :: c in chains ==> HasPending(table, c)
        invariant forall id :: id in table && Pending(table[id]) ==> id in rest || table[id].chain in chains
        invariant forall i, j :: 0 <= i < j < |chains| ==> chains[i] != chains[j]
        decreases |rest|
      {
        var id := AnyOf(rest);
        rest := rest - {id};
        if table[id].chain !in chains { chains := chains + [table[id].chain]; }
      }
    }

    method MigrateChains(chains: seq<ChainKey>, run: Run) returns (r: BatchResult)
      requires Valid() && forall c :: c in chains ==> c in l
      modifies this`table, this`commits, this`tick
      ensures Valid() && Progress(h, old(table), table, l)
      ensures numeric || StartsKept(old(table), table)
      ensures Undisturbed(run) && (numeric || NoneStarts(old(table))) ==> r == Done
      ensures Undisturbed(run) && r == Done ==> DoneUpTo(table, chains, |chains|)
    {
      for i := 0 to |chains|
        invariant Valid() && Progress(h, old(table), table, l)
        invariant numeric || StartsKept(old(table), table)
        invariant Undisturbed(run) ==> DoneUpTo(table, chains, i)
      {
        ghost var t1 := table;
        r := MigrateChain(chains[i], run);
        ChainStep(h, old(table), t1, table, l, chains, i);
        if r != Done { return; }
      }
      r := Done;
    }

    /** One run of the script, from pre-check to post-check. Where positions arrive as text it completes only
        on a table without a pending first row. */
    method Migrate(run: Run) returns (r: RunResult)
      requires Valid()
      modifies this`table, this`commits, this`tick
      ensures Valid() && Progress(h, old(table), table, l)
      ensures r == Completed ==> table == Final(h, origin, l) && MigratedFrom(h, origin, table)
      ensures numeric || StartsKept(old(table), table)
      ensures r == Completed ==> numeric || NoneStarts(old(table))
      ensures Undisturbed(run) && (numeric || NoneStarts(old(table))) ==> r == Completed
    {
      var t0 := table;
      if run.env(tick) != Succeeds { return Aborted; }
      tick := tick + 1;
      if |PendingIds(table)| == 0 {
        CheckedIsFinal(h, origin, table, l);
        CheckedStarts(t0, table);
        return Completed;
      }
      var chains := ListChains();
      PendingChains(t0, l);
      var b := MigrateChains(chains, run);
      if b != Done || run.env(tick) != Succeeds { return Aborted; }
      tick := tick + 1;
      if |PendingIds(table)| != 0 {
        AllDone(h, t0, table, l, chains);
        return Aborted;
      }
      CheckedIsFinal(h, origin, table, l);
      if !numeric { CheckedStarts(t0, table); }
      r := Completed;
    }

    /** Restarting until a run completes: whatever the batch sizes and wherever the crashes fell, the
        table converges to the same final table. */
    method MigrateWithRestarts(runs: seq<Run>) returns (completed: bool)
      requires Valid()
      modifies this`table, this`commits, this`tick
      ensures Valid()
      ensures completed ==> table == Final(h, origin, l) && MigratedFrom(h, origin, table)
      ensures completed ==> numeric || NoneStarts(old(table))
      ensures (exists i :: 0 <= i < |runs| && Undisturbed(runs[i])) && (numeric || NoneStarts(old(table))) ==> completed
    {
      for i := 0 to |runs|
        invariant Valid() && (numeric || StartsKept(old(table), table))
        invariant numeric || NoneStarts(old(table)) ==> forall j :: 0 <= j < i ==> !Undisturbed(runs[j])
      {
        ghost var t1 := table;
        var r := Migrate(runs[i]);
        if !numeric { StartsCompose(old(table), t1, table); }
        if r == Completed { return true; }
      }
      completed := false;
    }
  }

  function PendingIds(t: Table): set<EntryId> {
    set id | id in t && Pending(t[id])
  }

  predicate HasPending(t: Table, c: ChainKey) {
    exists id :: id in t && t[id].chain == c && Pending(t[id])
  }

  lemma PendingChains(t: Table, l: Layout)
    requires WellLaid(t, l)
    ensures forall c :: HasPending(t, c) ==> c in l
  {
    forall c | HasPending(t, c) ensures c in l {
      var id :| id in t && t[id].chain == c && Pending(t[id]);
      assert RowPlaced(t, l, id);
    }
  }

  ghost predicate DoneUpTo(t: Table, chains: seq<ChainKey>, n: nat)
    requires n <= |chains|
  {
    forall i :: 0 <= i < n ==> ChainDone(t, chains[i])
  }

  lemma ChainStep(h: Hasher, t0: Table, t1: Table, t2: Table, l: Layout, chains: seq<ChainKey>, n: nat)
    requires WellLaid(t0, l) && Progress(h, t0, t1, l) && WellLaid(t1, l) && Progress(h, t1, t2, l) && n < |chains|
    ensures Progress(h, t0, t2, l)
    ensures DoneUpTo(t1, chains, n) && ChainDone(t2, chains[n]) ==> DoneUpTo(t2, chains, n + 1)
  {
    ProgressTransitive(h, t0, t1, t2, l);
    forall c | ChainDone(t1, c) ensures ChainDone(t2, c) {
    }
  }

  /** When every chain that had pending rows is done, nothing is pending. */
  lemma AllDone(h: Hasher, t0: Table, t: Table, l: Layout, chains: seq<ChainKey>)
    requires WellLaid(t0, l) && Progress(h, t0, t, l)
    requires forall c :: c in chains <==> HasPending(t0, c)
    ensures DoneUpTo(t, chains, |chains|) ==> |PendingIds(t)| == 0
  {
    if DoneUpTo(t, chains, |chains|) {
      forall id | id in t ensures !Pending(t[id]) {
        assert t[id] == t0[id] || t[id] == FinalRow(h, t0, l, id);
        assert Pending(t[id]) ==> HasPending(t0, t0[id].chain);
      }
      assert PendingIds(t) == {};
    }
  }

  /** The post-check: a count of zero pending rows means the final table. */
  lemma CheckedIsFinal(h: Hasher, origin: Table, t: Table, l: Layout)
    requires WellLaid(origin, l) && Progress(h, origin, t, l) && |PendingIds(t)| == 0
    ensures t == Final(h, origin, l) && MigratedFrom(h, origin, t)
  {
    FinalMeaning(h, origin, l, t);
    forall id | id in t ensures !Pending(t[id]) {
      assert id !in PendingIds(t);
    }
    DoneIsFinal(h, origin, t, l);
  }

  lemma CheckedStarts(t0: Table, t: Table)
    requires StartsKept(t0, t) && |PendingIds(t)| == 0
    ensures NoneStarts(t0)
  {
    forall id | id in t0 && t0[id].position == 0 ensures !Pending(t0[id]) {
      assert id !in PendingIds(t);
    }
  }

  lemma StretchLast(t: Table, l: Layout, c: ChainKey, k: nat, end: nat)
    requires WellLaid(t, l) && c in l && k < end <= |l[c]|
    ensures |Stretch(t, l, c, k, end)| == end - k && Stretch(t, l, c, k, end)[end - k - 1].row.position == end - 1
  {
    assert SlotFilled(t, l, c, k + (end - k - 1));
  }

  /** Committing a stretch is progress confined to its chain, and moves the split. */
  lemma StretchMoves(h: Hasher, t0: Table, t: Table, l: Layout, c: ChainKey, k: nat, end: nat)
    requires WellLaid(t0, l) && Shape(t, l) && Progress(h, t0, t, l) && OnlyChain(t0, t, c)
    requires c in l && SplitAt(t, l, c, k) && k <= end <= |l[c]|
    ensures Progress(h, t0, Committed(h, t, l, c, k, end), l) && OnlyChain(t0, Committed(h, t, l, c, k, end), c)
    ensures WellLaid(Committed(h, t, l, c, k, end), l) && SplitAt(Committed(h, t, l, c, k, end), l, c, end)
    ensures k > 0 && StartsKept(t0, t) ==> StartsKept(t0, Committed(h, t, l, c, k, end))
  {
    CommittedKeepsShape(h, t, l, c, k, end);
    CommittedIsProgress(h, t, l, c, k, end);
    ProgressTransitive(h, t0, t, Committed(h, t, l, c, k, end), l);
  }

  /** While first rows are as before, a chain split past zero did not start pending; split at zero it did. */
  lemma StartDecides(t0: Table, t: Table, l: Layout, c: ChainKey, k: nat)
    requires WellLaid(t0, l) && WellLaid(t, l) && c in l && SplitAt(t, l, c, k)
    ensures StartsKept(t0, t) ==> (StartPending(t0, c) <==> k == 0 && |l[c]| > 0)
  {
    assert k > 0 ==> Linked(t, l, c, 0);
    if StartsKept(t0, t) {
      if k == 0 && |l[c]| > 0 {
        assert PendingAt(t, l, c, 0) && SlotFilled(t, l, c, 0) && SlotFilled(t0, l, c, 0);
        var id := l[c][0];
        assert id in t0 && t0[id].chain == c && t0[id].position == 0 && Pending(t0[id]);
      }
      if StartPending(t0, c) {
        var id :| id in t0 && t0[id].chain == c && t0[id].position == 0 && Pending(t0[id]);
        assert RowPlaced(t0, l, id);
      }
    }
  }

  lemma StretchHead(t: Table, l: Layout, c: ChainKey, k: nat, end: nat)
    requires WellLaid(t, l) && c in l && k < end <= |l[c]|
    ensures |Stretch(t, l, c, k, end)| > 0 && Stretch(t, l, c, k, end)[0].row.position == k
  {
    assert SlotFilled(t, l, c, k);
  }

  /** Any attempt at an anchored batch would commit the same good table, and no other finds an anchor. */
  lemma AttemptIsGood(
    numeric: bool, h: Hasher, l: Layout, origin: Table, t0: Table, t: Table, c: ChainKey, k: nat, end: nat,
    a: Anchor)
    requires WellLaid(origin, l) && Good(h, l, origin, t0) && c in l && SplitAt(t0, l, c, k) && k < end <= |l[c]|
    requires (t == t0 || t == Committed(h, t0, l, c, k, end)) && IsAnchor(numeric, t, c, k, a)
    ensures a.Found? <==> Anchored(numeric, k)
    ensures a.Found? ==> UpdateRows(h, t, Stretch(t0, l, c, k, end), a.hash) == Committed(h, t0, l, c, k, end)
    ensures Good(h, l, origin, Committed(h, t0, l, c, k, end))
  {
    AnchorIsStable(numeric, h, t0, t, l, c, k, end, a);
    if a.Found? { BatchIsIdempotent(h, t0, t, l, c, k, end, a.hash); }
    CommittedKeepsShape(h, t0, l, c, k, end);
    CommittedIsProgress(h, t0, l, c, k, end);
    ProgressTransitive(h, origin, t0, Committed(h, t0, l, c, k, end), l);
  }

  lemma PageGrows(before: seq<Selected>, rows: seq<Selected>)
    requires |rows| == |before| + 1 && before == rows[..|before|]
    ensures OnPage(rows, rows[|before|].id) && forall id :: OnPage(before, id) ==> OnPage(rows, id)
  {
    assert rows[|before|].id == rows[|before|].id;
    forall id | OnPage(before, id) ensures OnPage(rows, id) {
      var i :| 0 <= i < |before| && before[i].id == id;
      assert rows[i].id == id;
    }
  }
}
