/** The unlocked vault: its items, the deletions it remembers, and how it is sealed. */
module Vault {
  import opened Crypto

  const FORMAT_VERSION := 1
  const KDF_ALGORITHM := "argon2id"
  const TOMBSTONE_RETENTION: nat := 90 * 24 * 60 * 60
  const TOMBSTONE_CAPACITY: nat := 5000

  /** One credential.  `body` stands for every field that no rule here looks at. */
  datatype Item = Item(id: Uuid, name: string, body: string, folder: Option<string>, tags: seq<string>,
                       updatedAt: nat)

  datatype Tombstone = Tombstone(id: Uuid, deletedAt: nat)

  /** The part of the sync state that reconciling reads and writes. */
  datatype SyncState = SyncState(lastRevision: int, lastSyncedAt: nat)

  datatype VaultData = VaultData(items: seq<Item>, folders: seq<string>, tombstones: seq<Tombstone>,
                                 sync: Option<SyncState>)

  /** What the vault key or a master key may seal. */
  datatype Plain =
    | KeyPlain(key: Key)
    | DataPlain(data: VaultData)
    | ItemPlain(item: Item)
    | TombstonePlain(tombstone: Tombstone)

  // ---- lookups --------------------------------------------------------

  function Find(items: seq<Item>, id: Uuid): Option<Item> {
    if items == [] then None
    else if items[0].id == id then Some(items[0])
    else Find(items[1..], id)
  }

  function FindGrave(graves: seq<Tombstone>, id: Uuid): Option<Tombstone> {
    if graves == [] then None
    else if graves[0].id == id then Some(graves[0])
    else FindGrave(graves[1..], id)
  }

  /** The item held under `id`, if any. */
  function Held(data: VaultData, id: Uuid): Option<Item> {
    Find(data.items, id)
  }

  /** The deletion remembered for `id`, if any. */
  function Buried(data: VaultData, id: Uuid): Option<Tombstone> {
    FindGrave(data.tombstones, id)
  }

  predicate DistinctItems(items: seq<Item>) {
    items == [] || (Find(items[1..], items[0].id).None? && DistinctItems(items[1..]))
  }

  predicate DistinctGraves(graves: seq<Tombstone>) {
    graves == [] || (FindGrave(graves[1..], graves[0].id).None? && DistinctGraves(graves[1..]))
  }

  /** One item per id, one deletion per id, and nothing both present and recorded as deleted. */
  ghost predicate Consistent(data: VaultData) {
    && DistinctItems(data.items)
    && DistinctGraves(data.tombstones)
    && (forall id: Uuid :: Held(data, id).None? || Buried(data, id).None?)
  }

  lemma {:induction false} FindAt(items: seq<Item>, k: nat)
    requires DistinctItems(items) && k < |items|
    ensures Find(items, items[k].id) == Some(items[k])
    ensures forall j :: 0 <= j < k ==> items[j].id != items[k].id
  {
    if k > 0 {
      FindAt(items[1..], k - 1);
      assert items[1..][k - 1] == items[k];
      forall j | 0 <= j < k ensures items[j].id != items[k].id {
        assert j > 0 ==> items[1..][j - 1] == items[j];
      }
    }
  }

  lemma {:induction false} FoundAt(items: seq<Item>, id: Uuid) returns (k: nat)
    requires Find(items, id).Some?
    ensures k < |items| && items[k] == Find(items, id).value && items[k].id == id
  {
    k := 0;
    if items[0].id != id {
      k := FoundAt(items[1..], id);
      k := k + 1;
    }
  }

  lemma {:induction false} GraveAt(graves: seq<Tombstone>, k: nat)
    requires DistinctGraves(graves) && k < |graves|
    ensures FindGrave(graves, graves[k].id) == Some(graves[k])
    ensures forall j :: 0 <= j < k ==> graves[j].id != graves[k].id
  {
    if k > 0 {
      GraveAt(graves[1..], k - 1);
      assert graves[1..][k - 1] == graves[k];
      forall j | 0 <= j < k ensures graves[j].id != graves[k].id {
        assert j > 0 ==> graves[1..][j - 1] == graves[j];
      }
    }
  }

  lemma {:induction false} GraveFoundAt(graves: seq<Tombstone>, id: Uuid) returns (k: nat)
    requires FindGrave(graves, id).Some?
    ensures k < |graves| && graves[k] == FindGrave(graves, id).value && graves[k].id == id
  {
    k := 0;
    if graves[0].id != id {
      k := GraveFoundAt(graves[1..], id);
      k := k + 1;
    }
  }

  // ---- the edits, as functions of the contents ------------------------

  function Replaced(items: seq<Item>, item: Item): seq<Item> {
    if items == [] then [item]
    else if items[0].id == item.id then [item] + items[1..]
    else [items[0]] + Replaced(items[1..], item)
  }

  function WithoutFirst(items: seq<Item>, id: Uuid): seq<Item> {
    if items == [] then []
    else if items[0].id == id then items[1..]
    else [items[0]] + WithoutFirst(items[1..], id)
  }

  function WithoutGrave(graves: seq<Tombstone>, id: Uuid): seq<Tombstone> {
    if graves == [] then []
    else if graves[0].id == id then WithoutGrave(graves[1..], id)
    else [graves[0]] + WithoutGrave(graves[1..], id)
  }

  /** Still inside the retention window; a deletion stamped in the future is. */
  predicate Remembered(grave: Tombstone, now: nat) {
    now <= grave.deletedAt || now - grave.deletedAt <= TOMBSTONE_RETENTION
  }

  function Unexpired(graves: seq<Tombstone>, now: nat): seq<Tombstone> {
    if graves == [] then []
    else if Remembered(graves[0], now) then [graves[0]] + Unexpired(graves[1..], now)
    else Unexpired(graves[1..], now)
  }

  function Newest(graves: seq<Tombstone>, capacity: nat): seq<Tombstone> {
    if |graves| > capacity then graves[|graves| - capacity..] else graves
  }

  function Pruned(graves: seq<Tombstone>, now: nat): seq<Tombstone> {
    Newest(Unexpired(graves, now), TOMBSTONE_CAPACITY)
  }

  function Upserted(data: VaultData, item: Item): VaultData {
    data.(tombstones := WithoutGrave(data.tombstones, item.id), items := Replaced(data.items, item))
  }

  function Added(data: VaultData, item: Item): VaultData {
    data.(tombstones := WithoutGrave(data.tombstones, item.id), items := data.items + [item])
  }

  function Removed(data: VaultData, id: Uuid, now: nat): VaultData {
    data.(items := WithoutFirst(data.items, id),
          tombstones := Pruned(WithoutGrave(data.tombstones, id) + [Tombstone(id, now)], now))
  }

  // ---- what the edits do to every id ----------------------------------

  lemma {:induction false} FindReplaced(items: seq<Item>, item: Item, id: Uuid)
    ensures Find(Replaced(items, item), id) == if id == item.id then Some(item) else Find(items, id)
    ensures DistinctItems(items) ==> DistinctItems(Replaced(items, item))
  {
    if items != [] && items[0].id != item.id {
      FindReplaced(items[1..], item, id);
      FindReplaced(items[1..], item, items[0].id);
    } else if items != [] {
      assert Replaced(items, item)[1..] == items[1..];
    }
  }

  lemma {:induction false} FindWithoutFirst(items: seq<Item>, gone: Uuid, id: Uuid)
    requires DistinctItems(items)
    ensures Find(WithoutFirst(items, gone), id) == if id == gone then None else Find(items, id)
    ensures DistinctItems(WithoutFirst(items, gone))
  {
    if items != [] && items[0].id != gone {
      FindWithoutFirst(items[1..], gone, id);
      FindWithoutFirst(items[1..], gone, items[0].id);
    }
  }

  lemma {:induction false} FindAppended(items: seq<Item>, item: Item, id: Uuid)
    ensures Find(items + [item], id) == if Find(items, id).Some? then Find(items, id)
                                        else if id == item.id then Some(item) else None
    ensures DistinctItems(items) && Find(items, item.id).None? ==> DistinctItems(items + [item])
  {
    if items != [] {
      assert (items + [item])[1..] == items[1..] + [item];
      FindAppended(items[1..], item, id);
      FindAppended(items[1..], item, items[0].id);
    } else {
      assert items + [item] == [item];
    }
  }

  lemma {:induction false} GraveWithout(graves: seq<Tombstone>, gone: Uuid, id: Uuid)
    ensures FindGrave(WithoutGrave(graves, gone), id) == if id == gone then None else FindGrave(graves, id)
    ensures DistinctGraves(graves) ==> DistinctGraves(WithoutGrave(graves, gone))
    ensures |WithoutGrave(graves, gone)| <= |graves|
  {
    if graves != [] {
      GraveWithout(graves[1..], gone, id);
      GraveWithout(graves[1..], gone, graves[0].id);
    }
  }

  lemma {:induction false} GraveAppended(graves: seq<Tombstone>, grave: Tombstone, id: Uuid)
    ensures FindGrave(graves + [grave], id) == if FindGrave(graves, id).Some? then FindGrave(graves, id)
                                               else if id == grave.id then Some(grave) else None
    ensures DistinctGraves(graves) && FindGrave(graves, grave.id).None? ==> DistinctGraves(graves + [grave])
  {
    if graves != [] {
      assert (graves + [grave])[1..] == graves[1..] + [grave];
      GraveAppended(graves[1..], grave, id);
      GraveAppended(graves[1..], grave, graves[0].id);
    } else {
      assert graves + [grave] == [grave];
    }
  }

  // ---- exactly which deletions are forgotten --------------------------

  /** The deletion of `id` is remembered at `now` and still will be when `extra` more have been recorded. */
  predicate Lasts(graves: seq<Tombstone>, id: Uuid, now: nat, extra: nat) {
    graves != []
    && if graves[0].id == id
       then Remembered(graves[0], now) && |Unexpired(graves[1..], now)| + extra < TOMBSTONE_CAPACITY
       else Lasts(graves[1..], id, now, extra)
  }

  lemma {:induction false} LastsAt(graves: seq<Tombstone>, k: nat, now: nat, extra: nat)
    requires DistinctGraves(graves) && k < |graves|
    ensures Lasts(graves, graves[k].id, now, extra)
            <==> Remembered(graves[k], now) && |Unexpired(graves[k + 1..], now)| + extra < TOMBSTONE_CAPACITY
  {
    if k > 0 {
      GraveAt(graves, k);
      LastsAt(graves[1..], k - 1, now, extra);
      assert graves[1..][k - 1] == graves[k] && graves[1..][k..] == graves[k + 1..];
    }
  }

  lemma {:induction false} LastsFound(graves: seq<Tombstone>, id: Uuid, now: nat, extra: nat)
    requires Lasts(graves, id, now, extra)
    ensures FindGrave(graves, id).Some?
  {
    if graves[0].id != id {
      LastsFound(graves[1..], id, now, extra);
    }
  }

  lemma {:induction false} LastsLess(graves: seq<Tombstone>, id: Uuid, now: nat, extra: nat, less: nat)
    requires Lasts(graves, id, now, extra) && less <= extra
    ensures Lasts(graves, id, now, less)
  {
    if graves[0].id != id {
      LastsLess(graves[1..], id, now, extra, less);
    }
  }

  lemma {:induction false} UnexpiredSplits(a: seq<Tombstone>, b: seq<Tombstone>, now: nat)
    ensures Unexpired(a + b, now) == Unexpired(a, now) + Unexpired(b, now)
  {
    if a == [] {
      assert a + b == b;
    } else {
      assert (a + b)[1..] == a[1..] + b;
      UnexpiredSplits(a[1..], b, now);
    }
  }

  lemma UnexpiredOne(graves: seq<Tombstone>, grave: Tombstone, now: nat)
    requires Remembered(grave, now)
    ensures |Unexpired(graves + [grave], now)| == |Unexpired(graves, now)| + 1
  {
    UnexpiredSplits(graves, [grave], now);
    assert [grave][1..] == [];
    assert Unexpired([grave], now) == [grave] + Unexpired([], now);
  }

  /** Recording another deletion uses up one place behind every earlier one. */
  lemma {:induction false} LastsAppended(graves: seq<Tombstone>, grave: Tombstone, id: Uuid, now: nat, extra: nat)
    requires Remembered(grave, now) && grave.id != id
    ensures Lasts(graves + [grave], id, now, extra) <==> Lasts(graves, id, now, extra + 1)
  {
    if graves == [] {
      assert graves + [grave] == [grave];
    } else {
      assert (graves + [grave])[1..] == graves[1..] + [grave];
      LastsAppended(graves[1..], grave, id, now, extra);
      UnexpiredOne(graves[1..], grave, now);
    }
  }

  lemma {:induction false} LastsNewest(graves: seq<Tombstone>, grave: Tombstone, now: nat)
    requires Remembered(grave, now) && FindGrave(graves, grave.id).None?
    ensures Lasts(graves + [grave], grave.id, now, 0)
  {
    if graves == [] {
      assert graves + [grave] == [grave] && [grave][1..] == [];
    } else {
      assert (graves + [grave])[1..] == graves[1..] + [grave];
      LastsNewest(graves[1..], grave, now);
    }
  }

  lemma {:induction false} UnexpiredWithout(graves: seq<Tombstone>, gone: Uuid, now: nat)
    ensures |Unexpired(WithoutGrave(graves, gone), now)| <= |Unexpired(graves, now)|
  {
    if graves != [] {
      UnexpiredWithout(graves[1..], gone, now);
    }
  }

  lemma {:induction false} LastsWithout(graves: seq<Tombstone>, gone: Uuid, id: Uuid, now: nat, extra: nat)
    requires gone != id && Lasts(graves, id, now, extra)
    ensures Lasts(WithoutGrave(graves, gone), id, now, extra)
  {
    if graves[0].id == id {
      UnexpiredWithout(graves[1..], gone, now);
    } else {
      LastsWithout(graves[1..], gone, id, now, extra);
    }
  }

  lemma {:induction false} WithoutAbsent(graves: seq<Tombstone>, id: Uuid)
    requires FindGrave(graves, id).None?
    ensures WithoutGrave(graves, id) == graves
  {
    if graves != [] {
      WithoutAbsent(graves[1..], id);
    }
  }

  lemma {:induction false} UnexpiredFind(graves: seq<Tombstone>, now: nat, id: Uuid, extra: nat)
    requires DistinctGraves(graves)
    ensures var kept := Unexpired(graves, now);
      && DistinctGraves(kept)
      && (forall k :: 0 <= k < |kept| ==> Remembered(kept[k], now))
      && Unexpired(kept, now) == kept
      && FindGrave(kept, id)
         == (if FindGrave(graves, id).Some? && Remembered(FindGrave(graves, id).value, now) then FindGrave(graves, id)
             else None)
      && (Lasts(kept, id, now, extra) <==> Lasts(graves, id, now, extra))
  {
    if graves != [] {
      UnexpiredFind(graves[1..], now, id, extra);
      UnexpiredFind(graves[1..], now, graves[0].id, extra);
      if Lasts(Unexpired(graves[1..], now), id, now, extra) {
        LastsFound(Unexpired(graves[1..], now), id, now, extra);
      }
    }
  }

  lemma {:induction false} SuffixFind(graves: seq<Tombstone>, d: nat, now: nat, id: Uuid, extra: nat)
    requires DistinctGraves(graves) && forall k :: 0 <= k < |graves| ==> Remembered(graves[k], now)
    requires Unexpired(graves, now) == graves
    requires d == if |graves| > TOMBSTONE_CAPACITY then |graves| - TOMBSTONE_CAPACITY else 0
    ensures DistinctGraves(graves[d..])
    ensures FindGrave(graves[d..], id) == if Lasts(graves, id, now, 0) then FindGrave(graves, id) else None
    ensures Lasts(graves[d..], id, now, extra) <==> Lasts(graves, id, now, extra)
  {
    if d == 0 {
      assert graves[0..] == graves;
      if FindGrave(graves, id).Some? {
        var k := GraveFoundAt(graves, id);
        UnexpiredNoLonger(graves[k + 1..], now);
        LastsAt(graves, k, now, 0);
      }
      if Lasts(graves, id, now, 0) {
        LastsFound(graves, id, now, 0);
      }
    } else {
      var rest := graves[1..];
      assert Unexpired(graves, now)[1..] == Unexpired(rest, now);
      SuffixFind(rest, d - 1, now, id, extra);
      assert rest[d - 1..] == graves[d..];
      if Lasts(rest, id, now, extra) {
        LastsFound(rest, id, now, extra);
      }
    }
  }

  lemma {:induction false} UnexpiredNoLonger(graves: seq<Tombstone>, now: nat)
    ensures |Unexpired(graves, now)| <= |graves|
  {
    if graves != [] {
      UnexpiredNoLonger(graves[1..], now);
    }
  }

  /** What pruning leaves of one deletion, and of the room behind it. */
  lemma PrunedAt(graves: seq<Tombstone>, now: nat, id: Uuid, extra: nat)
    requires DistinctGraves(graves)
    ensures DistinctGraves(Pruned(graves, now))
    ensures FindGrave(Pruned(graves, now), id) == if Lasts(graves, id, now, 0) then FindGrave(graves, id) else None
    ensures Lasts(Pruned(graves, now), id, now, extra) <==> Lasts(graves, id, now, extra)
  {
    var kept := Unexpired(graves, now);
    UnexpiredFind(graves, now, id, extra);
    UnexpiredFind(graves, now, id, 0);
    SuffixFind(kept, if |kept| > TOMBSTONE_CAPACITY then |kept| - TOMBSTONE_CAPACITY else 0, now, id, extra);
    assert kept[0..] == kept;
    if Lasts(kept, id, now, 0) {
      LastsFound(kept, id, now, 0);
    }
  }

  /** Made at most ninety days ago, or stamped in the future. */
  predicate WithinNinetyDays(grave: Tombstone, now: nat) {
    grave.deletedAt + 7776000 >= now
  }

  /** The places from `from` on that hold a deletion of the last ninety days. */
  function RecentFrom(graves: seq<Tombstone>, from: nat, now: nat): set<nat> {
    set i: nat | from <= i < |graves| && WithinNinetyDays(graves[i], now)
  }

  lemma {:induction false} UnexpiredCounts(graves: seq<Tombstone>, from: nat, now: nat)
    requires from <= |graves|
    ensures |Unexpired(graves[from..], now)| == |RecentFrom(graves, from, now)|
    decreases |graves| - from
  {
    if from == |graves| {
      assert RecentFrom(graves, from, now) == {};
    } else {
      UnexpiredCounts(graves, from + 1, now);
      assert graves[from..][1..] == graves[from + 1..];
      assert RecentFrom(graves, from, now)
          == RecentFrom(graves, from + 1, now) + if WithinNinetyDays(graves[from], now) then {from} else {};
    }
  }

  /** A deletion survives pruning exactly when it was made in the last ninety days and fewer than five
      thousand of that age were recorded after it. */
  lemma PrunedExactly(graves: seq<Tombstone>, now: nat, k: nat)
    requires DistinctGraves(graves) && k < |graves|
    ensures FindGrave(Pruned(graves, now), graves[k].id) == Some(graves[k])
            <==> WithinNinetyDays(graves[k], now) && |RecentFrom(graves, k + 1, now)| < 5000
  {
    GraveAt(graves, k);
    LastsAt(graves, k, now, 0);
    PrunedAt(graves, now, graves[k].id, 0);
    UnexpiredCounts(graves, k + 1, now);
  }

  /** Pruning keeps one record per id and invents none. */
  lemma PrunedDistinct(graves: seq<Tombstone>, now: nat)
    requires DistinctGraves(graves)
    ensures DistinctGraves(Pruned(graves, now))
    ensures forall id: Uuid :: FindGrave(Pruned(graves, now), id).Some? ==>
              FindGrave(Pruned(graves, now), id) == FindGrave(graves, id)
  {
    forall id: Uuid | FindGrave(Pruned(graves, now), id).Some?
      ensures FindGrave(Pruned(graves, now), id) == FindGrave(graves, id)
    {
      PrunedAt(graves, now, id, 0);
    }
    if graves != [] {
      PrunedAt(graves, now, graves[0].id, 0);
    }
  }

  // ---- what the edits do to a vault -----------------------------------

  /** `upsert` replaces exactly one id and un-deletes it. */
  lemma UpsertedEffect(data: VaultData, item: Item)
    requires Consistent(data)
    ensures Consistent(Upserted(data, item))
    ensures forall id: Uuid :: Held(Upserted(data, item), id) == if id == item.id then Some(item) else Held(data, id)
    ensures forall id: Uuid :: Buried(Upserted(data, item), id) == if id == item.id then None else Buried(data, id)
    ensures KeepsTheRest(data, Upserted(data, item))
    ensures |Upserted(data, item).items| == |data.items| + if Held(data, item.id).Some? then 0 else 1
    ensures forall k :: 0 <= k < |data.items| ==>
              Upserted(data, item).items[k] == if data.items[k].id == item.id then item else data.items[k]
  {
    forall id: Uuid
      ensures Held(Upserted(data, item), id) == if id == item.id then Some(item) else Held(data, id)
      ensures Buried(Upserted(data, item), id) == if id == item.id then None else Buried(data, id)
    {
      FindReplaced(data.items, item, id);
      GraveWithout(data.tombstones, item.id, id);
    }
    FindReplaced(data.items, item, item.id);
    GraveWithout(data.tombstones, item.id, item.id);
    ReplacedAt(data.items, item);
  }

  /** Folders and the sync state are nobody's to change here. */
  predicate KeepsTheRest(data: VaultData, after: VaultData) {
    after.folders == data.folders && after.sync == data.sync
  }

  /** The item takes its predecessor's place, or the end. */
  lemma {:induction false} ReplacedAt(items: seq<Item>, item: Item)
    requires DistinctItems(items)
    ensures |Replaced(items, item)| == |items| + if Find(items, item.id).Some? then 0 else 1
    ensures forall k :: 0 <= k < |items| ==>
              Replaced(items, item)[k] == if items[k].id == item.id then item else items[k]
  {
    if items != [] {
      ReplacedAt(items[1..], item);
      forall k | 0 < k < |items| && items[0].id == item.id ensures items[k].id != item.id {
        FindAt(items, k);
      }
    }
  }

  /** The others close up. */
  lemma {:induction false} WithoutFirstAt(items: seq<Item>, id: Uuid, k: nat)
    requires DistinctItems(items) && k < |items| && items[k].id == id
    ensures WithoutFirst(items, id) == items[..k] + items[k + 1..]
  {
    if k > 0 {
      FindAt(items, k);
      WithoutFirstAt(items[1..], id, k - 1);
      assert items[1..][..k - 1] == items[1..k] && items[1..][k..] == items[k + 1..];
    }
  }

  /** `remove` takes exactly one id out and records when.  Another deletion is forgotten exactly when
      it has no room left behind it. */
  lemma RemovedEffect(data: VaultData, id: Uuid, now: nat)
    requires Consistent(data)
    ensures Consistent(Removed(data, id, now))
    ensures forall other: Uuid ::
              Held(Removed(data, id, now), other) == if other == id then None else Held(data, other)
    ensures forall other: Uuid :: Buried(Removed(data, id, now), other)
              == if other == id then Some(Tombstone(id, now))
                 else if Lasts(WithoutGrave(data.tombstones, id), other, now, 1) then Buried(data, other) else None
    ensures KeepsTheRest(data, Removed(data, id, now))
    ensures forall k :: 0 <= k < |data.items| && data.items[k].id == id ==>
              Removed(data, id, now).items == data.items[..k] + data.items[k + 1..]
  {
    var after := Removed(data, id, now);
    forall k | 0 <= k < |data.items| && data.items[k].id == id
      ensures after.items == data.items[..k] + data.items[k + 1..]
    {
      WithoutFirstAt(data.items, id, k);
    }
    forall other: Uuid
      ensures Held(after, other) == if other == id then None else Held(data, other)
      ensures Buried(after, other)
              == if other == id then Some(Tombstone(id, now))
                 else if Lasts(WithoutGrave(data.tombstones, id), other, now, 1) then Buried(data, other) else None
    {
      FindWithoutFirst(data.items, id, other);
      RemovedGrave(data.tombstones, id, now, other, 0);
    }
    FindWithoutFirst(data.items, id, id);
    RemovedGrave(data.tombstones, id, now, id, 0);
    forall other: Uuid ensures Held(after, other).None? || Buried(after, other).None? {
      assert Held(data, other).None? || Buried(data, other).None?;
    }
  }

  lemma RemovedGrave(graves: seq<Tombstone>, id: Uuid, now: nat, other: Uuid, extra: nat)
    requires DistinctGraves(graves)
    ensures var after := Pruned(WithoutGrave(graves, id) + [Tombstone(id, now)], now);
      && DistinctGraves(after)
      && (other == id ==> FindGrave(after, id) == Some(Tombstone(id, now)))
      && (other != id ==>
            && FindGrave(after, other)
               == (if Lasts(WithoutGrave(graves, id), other, now, 1) then FindGrave(graves, other) else None)
            && (Lasts(after, other, now, extra) <==> Lasts(WithoutGrave(graves, id), other, now, extra + 1)))
  {
    var kept, grave := WithoutGrave(graves, id), Tombstone(id, now);
    GraveWithout(graves, id, id);
    GraveWithout(graves, id, other);
    GraveAppended(kept, grave, id);
    GraveAppended(kept, grave, other);
    PrunedAt(kept + [grave], now, other, extra);
    if other == id {
      LastsNewest(kept, grave, now);
    } else {
      LastsAppended(kept, grave, other, now, 0);
      LastsAppended(kept, grave, other, now, extra);
      if Lasts(kept, other, now, 1) {
        LastsFound(kept, other, now, 1);
      }
    }
  }

  /** `add` under an id that is not held adds exactly that id. */
  lemma AddedEffect(data: VaultData, item: Item)
    requires Consistent(data) && Held(data, item.id).None?
    ensures Consistent(Added(data, item))
    ensures forall id: Uuid :: Held(Added(data, item), id) == if id == item.id then Some(item) else Held(data, id)
    ensures forall id: Uuid :: Buried(Added(data, item), id) == if id == item.id then None else Buried(data, id)
    ensures KeepsTheRest(data, Added(data, item)) && Added(data, item).items == data.items + [item]
  {
    forall id: Uuid
      ensures Held(Added(data, item), id) == if id == item.id then Some(item) else Held(data, id)
      ensures Buried(Added(data, item), id) == if id == item.id then None else Buried(data, id)
    {
      FindAppended(data.items, item, id);
      GraveWithout(data.tombstones, item.id, id);
    }
    FindAppended(data.items, item, item.id);
    GraveWithout(data.tombstones, item.id, item.id);
  }
}
