/** The server: one table of records per account, written under optimistic concurrency. */
module Stores {
  import opened Crypto
  import opened Vault
  import opened Wire

  datatype Row = Row(revision: int, ciphertext: Option<Sealed<Plain>>, deleted: bool, proof: Option<Sealed<Plain>>,
                     updatedAt: int)

  /** What the server keeps for one account. */
  datatype Account = Account(revision: int, rows: map<WireId, Row>)

  datatype PushResult = Pushed(revision: int) | Conflict(current: int) | NoAccount

  const NEW_ACCOUNT := Account(0, map[])

  function RowFor(item: SyncItem, revision: int, now: int): Row {
    Row(revision, if item.deleted then None else item.ciphertext, item.deleted,
        if item.deleted then item.proof else None, now)
  }

  function RecordOf(id: WireId, row: Row): SyncItem {
    SyncItem(id, row.revision, row.ciphertext, row.deleted, row.proof)
  }

  function Upserts(rows: map<WireId, Row>, items: seq<SyncItem>, revision: int, now: int): map<WireId, Row> {
    if items == [] then rows
    else
      var last := items[|items| - 1];
      Upserts(rows, items[..|items| - 1], revision, now)[last.id := RowFor(last, revision, now)]
  }

  /** One push of a batch, refused unless it was made against the current revision. */
  function AfterPush(account: Account, expected: int, items: seq<SyncItem>, now: int): Account {
    if account.revision != expected then account
    else Account(expected + 1, Upserts(account.rows, items, expected + 1, now))
  }

  function WithoutOldTombstones(account: Account, before: int): Account {
    account.(rows := map id | id in account.rows && !(account.rows[id].deleted && account.rows[id].updatedAt < before)
                       :: account.rows[id])
  }

  /** `page` lists every row above `since`, each exactly once, lowest revision first. */
  ghost predicate IsDelta(rows: map<WireId, Row>, since: int, page: seq<SyncItem>) {
    && (forall i :: 0 <= i < |page| ==> page[i].id in rows && rows[page[i].id].revision > since
                                        && page[i] == RecordOf(page[i].id, rows[page[i].id]))
    && (forall i, j :: 0 <= i < j < |page| ==> page[i].id != page[j].id && page[i].revision <= page[j].revision)
    && (forall id :: id in rows && rows[id].revision > since ==> exists i :: 0 <= i < |page| && page[i].id == id)
  }

  /** The table as a client sees it: each record without the server's bookkeeping time. */
  function Table(rows: map<WireId, Row>): map<WireId, SyncItem> {
    map id | id in rows :: RecordOf(id, rows[id])
  }

  function Overlay(table: map<WireId, SyncItem>, page: seq<SyncItem>): map<WireId, SyncItem> {
    if page == [] then table
    else Overlay(table, page[..|page| - 1])[page[|page| - 1].id := page[|page| - 1]]
  }

  // ---- what one push does ---------------------------------------------

  /** `i` is where the last record naming `id` is. */
  ghost predicate LastNamed(items: seq<SyncItem>, id: WireId, i: nat) {
    i < |items| && items[i].id == id && forall j :: i < j < |items| ==> items[j].id != id
  }

  /** After a batch an id has the row of the last record naming it, or the row it had. */
  lemma {:induction false} UpsertsAt(rows: map<WireId, Row>, items: seq<SyncItem>, revision: int, now: int, id: WireId)
    ensures var after := Upserts(rows, items, revision, now);
            if exists i :: 0 <= i < |items| && items[i].id == id
            then id in after && exists i: nat :: LastNamed(items, id, i) && after[id] == RowFor(items[i], revision, now)
            else (id in after <==> id in rows) && (id in rows ==> after[id] == rows[id])
  {
    if items != [] {
      var before, last := items[..|items| - 1], items[|items| - 1];
      UpsertsAt(rows, before, revision, now, id);
      if last.id == id {
        assert LastNamed(items, id, |items| - 1);
      } else {
        assert forall i :: 0 <= i < |items| && items[i].id == id ==> i < |before| && before[i] == items[i];
        assert forall i: nat :: LastNamed(before, id, i) ==> LastNamed(items, id, i);
      }
    }
  }

  /** With one record per id, each listed id gets its record and every other row is as before. */
  lemma UpsertsDistinct(rows: map<WireId, Row>, items: seq<SyncItem>, revision: int, now: int)
    requires forall i, j :: 0 <= i < j < |items| ==> items[i].id != items[j].id
    ensures var after := Upserts(rows, items, revision, now);
            && (forall i :: 0 <= i < |items| ==>
                items[i].id in after && after[items[i].id] == RowFor(items[i], revision, now))
            && (forall id :: id in after && (forall i :: 0 <= i < |items| ==> items[i].id != id) ==>
                id in rows && after[id] == rows[id])
            && (forall id :: id in rows ==> id in after)
  {
    var after := Upserts(rows, items, revision, now);
    forall i | 0 <= i < |items| ensures items[i].id in after && after[items[i].id] == RowFor(items[i], revision, now) {
      UpsertsAt(rows, items, revision, now, items[i].id);
    }
    forall id | id in after && (forall i :: 0 <= i < |items| ==> items[i].id != id)
        ensures id in rows && after[id] == rows[id] {
      UpsertsAt(rows, items, revision, now, id);
    }
    forall id | id in rows ensures id in after {
      UpsertsAt(rows, items, revision, now, id);
    }
  }

  // ---- runs of pushes -------------------------------------------------

  datatype Attempt = Attempt(expected: int, items: seq<SyncItem>, now: int)

  function AfterAll(account: Account, attempts: seq<Attempt>): Account {
    if attempts == [] then account
    else
      var last := attempts[|attempts| - 1];
      AfterPush(AfterAll(account, attempts[..|attempts| - 1]), last.expected, last.items, last.now)
  }

  function Accepted(account: Account, attempts: seq<Attempt>): nat {
    if attempts == [] then 0
    else
      var before := attempts[..|attempts| - 1];
      Accepted(account, before)
      + (if AfterAll(account, before).revision == attempts[|attempts| - 1].expected then 1 else 0)
  }

  /** Record revisions lie in 1..=revision, deleted rows hold no body, live rows no proof. */
  ghost predicate WellFormed(account: Account) {
    && account.revision >= 0
    && forall id :: id in account.rows ==>
         && 1 <= account.rows[id].revision <= account.revision
         && (account.rows[id].deleted ==> account.rows[id].ciphertext.None?)
         && (!account.rows[id].deleted ==> account.rows[id].proof.None?)
  }

  /** The row as this record leaves it: a deleted one holds no body, a live one no proof. */
  predicate WrittenFrom(row: Row, item: SyncItem, revision: int, now: int) {
    && row.revision == revision && row.deleted == item.deleted && row.updatedAt == now
    && row.ciphertext == (if item.deleted then None else item.ciphertext)
    && row.proof == (if item.deleted then item.proof else None)
  }

  /** What a push writes.  Against the current revision it takes the next one, every id it names has what its
      last record for that id says, stamped with that revision and the server's clock, and no other row
      changes; against any other it changes nothing. */
  lemma PushWrites(account: Account, expected: int, items: seq<SyncItem>, now: int, id: WireId)
    ensures var after := AfterPush(account, expected, items, now);
            if expected != account.revision then after == account
            else
              && after.revision == expected + 1
              && if exists i :: 0 <= i < |items| && items[i].id == id
                 then id in after.rows
                      && exists i: nat :: LastNamed(items, id, i)
                                          && WrittenFrom(after.rows[id], items[i], expected + 1, now)
                 else (id in after.rows <==> id in account.rows)
                      && (id in account.rows ==> after.rows[id] == account.rows[id])
  {
    UpsertsAt(account.rows, items, expected + 1, now, id);
    if account.revision == expected && exists i :: 0 <= i < |items| && items[i].id == id {
      var after := Upserts(account.rows, items, expected + 1, now);
      var i: nat :| LastNamed(items, id, i) && after[id] == RowFor(items[i], expected + 1, now);
      assert WrittenFrom(after[id], items[i], expected + 1, now);
    }
  }

  lemma PushKeepsWellFormed(account: Account, expected: int, items: seq<SyncItem>, now: int)
    requires WellFormed(account)
    ensures WellFormed(AfterPush(account, expected, items, now))
  {
    var after := AfterPush(account, expected, items, now);
    if account.revision == expected {
      forall id | id in after.rows
        ensures 1 <= after.rows[id].revision <= after.revision
        ensures after.rows[id].deleted ==> after.rows[id].ciphertext.None?
        ensures !after.rows[id].deleted ==> after.rows[id].proof.None?
      {
        UpsertsAt(account.rows, items, expected + 1, now, id);
      }
    }
  }

  /** The revision counts the accepted pushes, and every run keeps the table well formed. */
  lemma {:induction false} RevisionCountsPushes(account: Account, attempts: seq<Attempt>)
    requires WellFormed(account)
    ensures WellFormed(AfterAll(account, attempts))
    ensures AfterAll(account, attempts).revision == account.revision + Accepted(account, attempts)
  {
    if attempts != [] {
      var before, last := attempts[..|attempts| - 1], attempts[|attempts| - 1];
      RevisionCountsPushes(account, before);
      PushKeepsWellFormed(AfterAll(account, before), last.expected, last.items, last.now);
    }
  }

  /** Rows at or below an older revision are exactly as they were then, and none has gone. */
  lemma {:induction false} OldRowsStand(past: Account, attempts: seq<Attempt>)
    requires WellFormed(past)
    ensures var present := AfterAll(past, attempts);
            && WellFormed(present) && past.revision <= present.revision
            && (forall id :: id in present.rows && present.rows[id].revision <= past.revision ==>
                  id in past.rows && present.rows[id] == past.rows[id])
            && (forall id :: id in past.rows ==> id in present.rows)
  {
    RevisionCountsPushes(past, attempts);
    if attempts != [] {
      var before, last := attempts[..|attempts| - 1], attempts[|attempts| - 1];
      OldRowsStand(past, before);
      var mid := AfterAll(past, before);
      if mid.revision == last.expected {
        var present := AfterAll(past, attempts);
        forall id | id in present.rows && present.rows[id].revision <= past.revision
          ensures id in mid.rows && present.rows[id] == mid.rows[id]
        {
          UpsertsAt(mid.rows, last.items, last.expected + 1, last.now, id);
        }
        forall id | id in mid.rows ensures id in present.rows {
          UpsertsAt(mid.rows, last.items, last.expected + 1, last.now, id);
        }
      }
    }
  }

  lemma {:induction false} OverlayHit(table: map<WireId, SyncItem>, page: seq<SyncItem>, i: nat)
    requires i < |page| && forall a, b :: 0 <= a < b < |page| ==> page[a].id != page[b].id
    ensures page[i].id in Overlay(table, page) && Overlay(table, page)[page[i].id] == page[i]
  {
    if i < |page| - 1 {
      OverlayHit(table, page[..|page| - 1], i);
    }
  }

  lemma {:induction false} OverlayMiss(table: map<WireId, SyncItem>, page: seq<SyncItem>, id: WireId)
    requires forall i :: 0 <= i < |page| ==> page[i].id != id
    ensures id in Overlay(table, page) <==> id in table
    ensures id in table ==> Overlay(table, page)[id] == table[id]
  {
    if page != [] {
      OverlayMiss(table, page[..|page| - 1], id);
    }
  }

  /** Laying a delta over an older table gives every current row, and leaves the rest of the old. */
  lemma OverlaidAt(older: map<WireId, Row>, newer: map<WireId, Row>, since: int, page: seq<SyncItem>, id: WireId)
    requires IsDelta(newer, since, page)
    requires forall i :: i in newer && newer[i].revision <= since ==> i in older && newer[i] == older[i]
    ensures var overlaid := Overlay(Table(older), page);
            && (id in overlaid <==> id in newer || id in older)
            && (id in newer ==> overlaid[id] == RecordOf(id, newer[id]))
  {
    if exists i :: 0 <= i < |page| && page[i].id == id {
      var i :| 0 <= i < |page| && page[i].id == id;
      OverlayHit(Table(older), page, i);
    } else {
      OverlayMiss(Table(older), page, id);
    }
  }

  /** A delta is the full state: whatever was pushed or refused since, laying what changed above
      the old revision over the old table gives the current table. */
  lemma {:induction false} DeltaEqualsFullState(past: Account, attempts: seq<Attempt>, page: seq<SyncItem>)
    requires WellFormed(past) && IsDelta(AfterAll(past, attempts).rows, past.revision, page)
    ensures Overlay(Table(past.rows), page) == Table(AfterAll(past, attempts).rows)
  {
    var present := AfterAll(past, attempts);
    OldRowsStand(past, attempts);
    hide IsDelta, AfterAll, Overlay, WellFormed;
    var overlaid, table := Overlay(Table(past.rows), page), Table(present.rows);
    forall id ensures (id in overlaid <==> id in table) && (id in overlaid ==> overlaid[id] == table[id]) {
      OverlaidAt(past.rows, present.rows, past.revision, page, id);
    }
  }

  /** A purge is invisible to a delta exactly when the older table held none of the purged rows. */
  lemma PurgeBreaksDeltas(past: Account, attempts: seq<Attempt>, before: int, page: seq<SyncItem>)
    requires WellFormed(past)
    requires IsDelta(WithoutOldTombstones(AfterAll(past, attempts), before).rows, past.revision, page)
    ensures Overlay(Table(past.rows), page) == Table(WithoutOldTombstones(AfterAll(past, attempts), before).rows)
            <==> forall id :: id in past.rows ==> id in WithoutOldTombstones(AfterAll(past, attempts), before).rows
  {
    var purged := WithoutOldTombstones(AfterAll(past, attempts), before);
    OldRowsStand(past, attempts);
    var overlaid, table := Overlay(Table(past.rows), page), Table(purged.rows);
    assert forall i :: i in purged.rows && purged.rows[i].revision <= past.revision ==>
        i in past.rows && purged.rows[i] == past.rows[i];
    hide IsDelta, AfterAll, Overlay, WellFormed, WithoutOldTombstones;
    forall id ensures (id in overlaid <==> id in table || id in past.rows)
        && (id in table ==> overlaid[id] == table[id]) {
      OverlaidAt(past.rows, purged.rows, past.revision, page, id);
    }
    if forall id :: id in past.rows ==> id in purged.rows {
      assert overlaid == table;
    } else {
      var id :| id in past.rows && id !in purged.rows;
      assert id in overlaid && id !in table;
    }
  }

  /** A row that breaks it: live when the client saw it, deleted at second 5 and purged before second 9.
      The client is told of nothing and goes on holding it. */
  lemma PurgeLosesADeletion(id: Uuid, body: Sealed<Plain>, proof: Sealed<Plain>)
    ensures var wire := Canonical(id);
      var past := Account(1, map[wire := Row(1, Some(body), false, None, 0)]);
      var present := WithoutOldTombstones(
        AfterAll(past, [Attempt(1, [SyncItem(wire, 0, None, true, Some(proof))], 5)]), 9);
      && WellFormed(past) && IsDelta(present.rows, past.revision, [])
      && wire in Overlay(Table(past.rows), []) && wire !in Table(present.rows)
  {
    var wire := Canonical(id);
    var past := Account(1, map[wire := Row(1, Some(body), false, None, 0)]);
    var item := SyncItem(wire, 0, None, true, Some(proof));
    var push := Attempt(1, [item], 5);
    assert [push][..0] == [] && [item][..0] == [];
    assert AfterAll(past, []) == past;
    assert Upserts(past.rows, [], 2, 5) == past.rows;
    assert AfterAll(past, [push]).rows[wire] == RowFor(item, 2, 5);
  }

  // ---- a pull in two reads --------------------------------------------

  /** Some accepted push among these carried a record. */
  ghost predicate Wrote(account: Account, attempts: seq<Attempt>) {
    attempts != [] &&
    var before, last := attempts[..|attempts| - 1], attempts[|attempts| - 1];
    Wrote(account, before) || (AfterAll(account, before).revision == last.expected && last.items != [])
  }

  ghost predicate ShowsAbove(account: Account, revision: int) {
    exists id :: id in account.rows && account.rows[id].revision > revision
  }

  /** A table nothing was written to is the same table; one that was written to shows a row above the
      revision it had. */
  lemma {:induction false} WritingShows(past: Account, attempts: seq<Attempt>)
    requires WellFormed(past)
    ensures if Wrote(past, attempts) then ShowsAbove(AfterAll(past, attempts), past.revision)
            else AfterAll(past, attempts).rows == past.rows
  {
    if attempts != [] {
      var before, last := attempts[..|attempts| - 1], attempts[|attempts| - 1];
      var mid, present := AfterAll(past, before), AfterAll(past, attempts);
      WritingShows(past, before);
      RevisionCountsPushes(past, before);
      if mid.revision == last.expected {
        assert present.rows == Upserts(mid.rows, last.items, mid.revision + 1, last.now);
        if last.items != [] {
          var id := last.items[|last.items| - 1].id;
          assert id in present.rows && present.rows[id].revision == mid.revision + 1;
        } else {
          assert present.rows == mid.rows;
        }
      } else {
        assert present.rows == mid.rows;
      }
    }
  }

  /** The answer to a pull is read in two steps, the records first and the revision after.  What the
      client then has is the table of the revision it is told exactly when no push in between wrote a
      record. */
  lemma TornPullExactly(past: Account, before: seq<Attempt>, page: seq<SyncItem>, between: seq<Attempt>)
    requires WellFormed(past) && IsDelta(AfterAll(past, before).rows, past.revision, page)
    ensures var read := AfterAll(past, before);
      Overlay(Table(past.rows), page) == Table(AfterAll(read, between).rows) <==> !Wrote(read, between)
  {
    var read := AfterAll(past, before);
    DeltaEqualsFullState(past, before, page);
    RevisionCountsPushes(past, before);
    WritingShows(read, between);
    var now := AfterAll(read, between);
    if Wrote(read, between) {
      var id :| id in now.rows && now.rows[id].revision > read.revision;
      assert id in Table(now.rows) && Table(now.rows)[id].revision > read.revision;
      assert id in Table(read.rows) ==> Table(read.rows)[id].revision <= read.revision;
    }
  }

  /** One push between the two reads: the client is told revision 1 and has none of it. */
  lemma OnePushTearsAPull(id: Uuid, body: Sealed<Plain>)
    ensures var between := [Attempt(0, [SyncItem(Canonical(id), 0, Some(body), false, None)], 5)];
      && IsDelta(NEW_ACCOUNT.rows, NEW_ACCOUNT.revision, [])
      && AfterAll(NEW_ACCOUNT, between).revision == 1
      && Overlay(Table(NEW_ACCOUNT.rows), []) != Table(AfterAll(NEW_ACCOUNT, between).rows)
  {
    var push := Attempt(0, [SyncItem(Canonical(id), 0, Some(body), false, None)], 5);
    assert [push][..0] == [];
    assert AfterAll(NEW_ACCOUNT, []) == NEW_ACCOUNT;
    assert Wrote(NEW_ACCOUNT, [push]);
    TornPullExactly(NEW_ACCOUNT, [], [], [push]);
  }

  /** And what was missed stays missed: no later pull above the revision the client was told lists a
      record written in between, until someone writes it again. */
  lemma MissedUntilRewritten(read: Account, between: seq<Attempt>, later: seq<Attempt>, id: WireId, page: seq<SyncItem>)
    requires WellFormed(read)
    requires var told := AfterAll(read, between);
      && id in told.rows && told.rows[id].revision > read.revision
      && IsDelta(AfterAll(told, later).rows, told.revision, page)
    ensures var told := AfterAll(read, between);
      var latest := AfterAll(told, later);
      id in latest.rows
      && ((exists i :: 0 <= i < |page| && page[i].id == id) <==> latest.rows[id] != told.rows[id])
  {
    var told := AfterAll(read, between);
    RevisionCountsPushes(read, between);
    OldRowsStand(told, later);
  }

  // ---- the query, row by row ------------------------------------------

  /** The order of the query: by revision, and by id within one. */
  predicate NoLater(rows: map<WireId, Row>, rank: WireId -> int, a: WireId, b: WireId)
    requires a in rows && b in rows
  {
    rows[a].revision < rows[b].revision || (rows[a].revision == rows[b].revision && rank(a) <= rank(b))
  }

  /** `page` holds what is above `since` and not in `left`, and everything left is no earlier. */
  ghost predicate Listed(rows: map<WireId, Row>, rank: WireId -> int, since: int, left: set<WireId>,
                         page: seq<SyncItem>) {
    && left <= rows.Keys
    && (forall i :: 0 <= i < |page| ==> page[i].id in rows && rows[page[i].id].revision > since
                                        && page[i] == RecordOf(page[i].id, rows[page[i].id]))
    && (forall i, j :: 0 <= i < j < |page| ==>
          page[i].id != page[j].id && NoLater(rows, rank, page[i].id, page[j].id))
    && (forall i, id :: 0 <= i < |page| && id in left ==> page[i].id != id && NoLater(rows, rank, page[i].id, id))
    && (forall id :: id in left ==> rows[id].revision > since)
    && (forall id :: id in rows && rows[id].revision > since && id !in left ==>
        exists i :: 0 <= i < |page| && page[i].id == id)
  }

  /** What is so listed, with nothing left. */
  ghost predicate InOrder(rows: map<WireId, Row>, rank: WireId -> int, page: seq<SyncItem>) {
    && (forall i :: 0 <= i < |page| ==> page[i].id in rows)
    && forall i, j :: 0 <= i < j < |page| ==> NoLater(rows, rank, page[i].id, page[j].id)
  }

  lemma AllListed(rows: map<WireId, Row>, rank: WireId -> int, since: int, page: seq<SyncItem>)
    requires Listed(rows, rank, since, {}, page)
    ensures IsDelta(rows, since, page) && InOrder(rows, rank, page)
  {
    forall i, j | 0 <= i < j < |page| ensures page[i].revision <= page[j].revision {
      assert NoLater(rows, rank, page[i].id, page[j].id);
    }
  }

  lemma ListedAt(rows: map<WireId, Row>, rank: WireId -> int, since: int, left: set<WireId>, page: seq<SyncItem>,
                 i: nat)
    requires Listed(rows, rank, since, left, page) && i < |page|
    ensures page[i].id in rows && rows[page[i].id].revision > since && page[i] == RecordOf(page[i].id, rows[page[i].id])
    ensures forall j :: i < j < |page| ==>
              && page[i].id != page[j].id && page[j].id in rows && NoLater(rows, rank, page[i].id, page[j].id)
    ensures forall id :: id in left ==> id in rows && page[i].id != id && NoLater(rows, rank, page[i].id, id)
  {
  }

  lemma ListOne(rows: map<WireId, Row>, rank: WireId -> int, since: int, left: set<WireId>, page: seq<SyncItem>,
                next: WireId)
    requires Listed(rows, rank, since, left, page)
    requires next in left && forall id :: id in left ==> id in rows && NoLater(rows, rank, next, id)
    ensures Listed(rows, rank, since, left - {next}, page + [RecordOf(next, rows[next])])
  {
    var more := page + [RecordOf(next, rows[next])];
    forall id | id in rows && rows[id].revision > since && id !in left - {next}
      ensures exists i :: 0 <= i < |more| && more[i].id == id
    {
      if id == next {
        assert more[|page|].id == id;
      } else {
        var i :| 0 <= i < |page| && page[i].id == id;
        assert more[i].id == id;
      }
    }
    assert forall id :: id in left ==> rows[id].revision > since;
    hide Listed, NoLater;
    forall i | 0 <= i < |more| ensures ListedSoFar(rows, rank, since, left - {next}, more, i) {
      if i < |page| {
        ListedAt(rows, rank, since, left, page, i);
      }
    }
    ListedFrom(rows, rank, since, left - {next}, more);
  }

  ghost predicate ListedSoFar(rows: map<WireId, Row>, rank: WireId -> int, since: int, left: set<WireId>,
                              page: seq<SyncItem>, i: nat)
    requires i < |page|
  {
    && page[i].id in rows && rows[page[i].id].revision > since && page[i] == RecordOf(page[i].id, rows[page[i].id])
    && (forall j :: i < j < |page| ==>
          page[i].id != page[j].id && page[j].id in rows && NoLater(rows, rank, page[i].id, page[j].id))
    && (forall id :: id in left ==> id in rows && page[i].id != id && NoLater(rows, rank, page[i].id, id))
  }

  lemma ListedFrom(rows: map<WireId, Row>, rank: WireId -> int, since: int, left: set<WireId>, page: seq<SyncItem>)
    requires left <= rows.Keys
    requires forall i :: 0 <= i < |page| ==> ListedSoFar(rows, rank, since, left, page, i)
    requires forall id :: id in left ==> rows[id].revision > since
    requires forall id :: id in rows && rows[id].revision > since && id !in left ==>
        exists i :: 0 <= i < |page| && page[i].id == id
    ensures Listed(rows, rank, since, left, page)
  {
    hide NoLater;
    forall i | 0 <= i < |page|
      ensures page[i].id in rows && rows[page[i].id].revision > since
          && page[i] == RecordOf(page[i].id, rows[page[i].id])
      ensures forall id :: id in left ==> id in rows && page[i].id != id && NoLater(rows, rank, page[i].id, id)
    {
      assert ListedSoFar(rows, rank, since, left, page, i);
    }
    forall i, j | 0 <= i < j < |page|
      ensures page[i].id in rows && page[j].id in rows && page[i].id != page[j].id
      ensures NoLater(rows, rank, page[i].id, page[j].id)
    {
      assert ListedSoFar(rows, rank, since, left, page, i);
    }
  }

  /** The record is the row's, field by field. */
  predicate Reads(record: SyncItem, rows: map<WireId, Row>) {
    record.id in rows
    && var row := rows[record.id];
       record.revision == row.revision && record.ciphertext == row.ciphertext && record.deleted == row.deleted
       && record.proof == row.proof
  }

  lemma DeltaReads(rows: map<WireId, Row>, rank: WireId -> int, since: int, page: seq<SyncItem>)
    requires IsDelta(rows, since, page) && InOrder(rows, rank, page)
    ensures forall i :: 0 <= i < |page| ==> Reads(page[i], rows)
    ensures forall i, j :: 0 <= i < j < |page| ==>
              || page[i].revision < page[j].revision
              || (page[i].revision == page[j].revision && rank(page[i].id) <= rank(page[j].id))
  {
    forall i, j | 0 <= i < j < |page|
      ensures || page[i].revision < page[j].revision
              || (page[i].revision == page[j].revision && rank(page[i].id) <= rank(page[j].id))
    {
      assert NoLater(rows, rank, page[i].id, page[j].id);
    }
  }

  // ---- the object -----------------------------------------------------

  class Store {
    var accounts: map<string, Account>

    constructor ()
      ensures accounts == map[]
    {
      accounts := map[];
    }

    method Revision(account: string) returns (r: Option<int>)
      ensures r == if account in accounts then Some(accounts[account].revision) else None
    {
      r := if account in accounts then Some(accounts[account].revision) else None;
    }

    /** The query: picks the first row left until nothing above `since` is left.  `rank` is the place of an
        id in the order of their texts. */
    method ItemsSince(account: string, since: int, rank: WireId -> int) returns (page: seq<SyncItem>)
      ensures account !in accounts ==> page == []
      ensures account in accounts ==> IsDelta(accounts[account].rows, since, page)
      ensures account in accounts ==> InOrder(accounts[account].rows, rank, page)
      ensures forall i, j :: 0 <= i < j < |page| ==>
                || page[i].revision < page[j].revision
                || (page[i].revision == page[j].revision && rank(page[i].id) <= rank(page[j].id))
      ensures account in accounts ==> forall i :: 0 <= i < |page| ==> Reads(page[i], accounts[account].rows)
    {
      if account !in accounts {
        return [];
      }
      var rows := accounts[account].rows;
      var left := set id | id in rows && rows[id].revision > since;
      page := [];
      while left != {}
        invariant Listed(rows, rank, since, left, page)
        decreases left
      {
        FirstExists(rows, rank, left);
        var next :| next in left && forall id :: id in left ==> NoLater(rows, rank, next, id);
        ListOne(rows, rank, since, left, page, next);
        page := page + [RecordOf(next, rows[next])];
        left := left - {next};
      }
      AllListed(rows, rank, since, page);
      hide Listed;
      DeltaReads(rows, rank, since, page);
      hide IsDelta, InOrder, RecordOf;
    }

    /** One transaction: the loop fills a copy of the table, which is committed with the revision. */
    method PushItems(account: string, expected: int, items: seq<SyncItem>, now: int) returns (r: PushResult)
      modifies this
      ensures account !in old(accounts) ==> r == NoAccount && accounts == old(accounts)
      ensures account in old(accounts) ==>
                && accounts == old(accounts)[account := AfterPush(old(accounts)[account], expected, items, now)]
                && r == (if old(accounts)[account].revision == expected then Pushed(expected + 1)
                         else Conflict(old(accounts)[account].revision))
    {
      if account !in accounts {
        return NoAccount;
      }
      var current := accounts[account].revision;
      if current != expected {
        return Conflict(current);
      }
      var next := current + 1;
      var rows := accounts[account].rows;
      for k := 0 to |items|
        invariant accounts == old(accounts)
        invariant rows == Upserts(accounts[account].rows, items[..k], next, now)
      {
        assert items[..k + 1][..k] == items[..k];
        rows := rows[items[k].id := RowFor(items[k], next, now)];
      }
      assert items[..|items|] == items;
      accounts := accounts[account := Account(next, rows)];
      r := Pushed(next);
    }

    /** In every account the deleted rows last written before the cut go, and nothing else changes. */
    method PurgeTombstones(before: int)
      modifies this
      ensures accounts.Keys == old(accounts).Keys
      ensures forall a, id :: a in accounts ==>
        (id in accounts[a].rows <==>
          && id in old(accounts)[a].rows
          && !(old(accounts)[a].rows[id].deleted && old(accounts)[a].rows[id].updatedAt < before))
      ensures forall a :: a in accounts ==>
        && accounts[a].revision == old(accounts)[a].revision
        && forall id :: id in accounts[a].rows ==> accounts[a].rows[id] == old(accounts)[a].rows[id]
    {
      accounts := map a | a in accounts :: WithoutOldTombstones(accounts[a], before);
    }
  }

  lemma FirstExists(rows: map<WireId, Row>, rank: WireId -> int, left: set<WireId>)
    requires left != {} && left <= rows.Keys
    ensures exists next :: next in left && forall id :: id in left ==> NoLater(rows, rank, next, id)
  {
    var some :| some in left;
    var rest := left - {some};
    if rest == {} {
      assert left == {some};
    } else {
      FirstExists(rows, rank, rest);
      var first :| first in rest && forall id :: id in rest ==> NoLater(rows, rank, first, id);
      var next := if NoLater(rows, rank, some, first) then some else first;
      assert forall id :: id in left ==> id in rest || id == some;
      assert next in left && forall id :: id in left ==> NoLater(rows, rank, next, id);
    }
  }
}
