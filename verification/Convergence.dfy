/** Two rounds of successful syncs bring every device to the same items. */
module Convergence {
  import opened Crypto
  import opened Vault
  import U = UnlockedVaults
  import opened Wire
  import opened Sync
  import opened SyncNow
  import opened SyncGuarantees
  import opened SyncWorld
  import opened SyncRun
  import opened Merge
  import Stores

  /** One step of a round: no local change, and no push refused or lost. */
  ghost predicate TakesStep(ws: seq<World>, acts: seq<Act>, i: nat)
    requires |ws| == |acts| + 1 && i < |acts|
  {
    && Enabled(ws[i], acts[i]) && ws[i + 1] == Do(ws[i], acts[i])
    && (acts[i].Tick? || acts[i].Pull? || acts[i].Push? || acts[i].Reopen?)
    && (acts[i].Push? ==> Completes(ws[i], acts[i], acts[i].device))
  }

  ghost predicate CompletesAt(ws: seq<World>, acts: seq<Act>, i: nat, device: nat)
    requires |ws| == |acts| + 1 && i < |acts|
  {
    Enabled(ws[i], acts[i]) && Completes(ws[i], acts[i], device)
  }

  /** Syncs interleaved in any way: every one that is begun completes, and every device completes one. */
  ghost predicate IsRound(ws: seq<World>, acts: seq<Act>) {
    && |ws| == |acts| + 1 && AllIdle(ws[0]) && AllIdle(ws[|acts|])
    && (forall i :: 0 <= i < |acts| ==> TakesStep(ws, acts, i))
    && (forall d :: d in ws[0].devices ==> exists i :: 0 <= i < |acts| && CompletesAt(ws, acts, i, d))
  }

  ghost predicate AllIdle(w: World) {
    forall d :: d in w.devices ==> w.devices[d].phase == Idle
  }

  /** Nothing on the device waits to be pushed. */
  ghost predicate Quiet(data: VaultData) {
    data.sync.Some? && forall id: Uuid :: !Changed(SlotOf(data, id), data.sync.value.lastSyncedAt)
  }

  /** Right after its sync nothing on a device is newer than the sync. */
  lemma StampedIsQuiet(key: Key, account: Stores.Account, clock: nat, dev: Device)
    requires DeviceInv(key, account, clock, dev) && dev.data.sync.value.lastSyncedAt == clock
    ensures Quiet(dev.data)
  {
    forall id: Uuid ensures !Changed(SlotOf(dev.data, id), clock) {
      assert StampedBy(SlotOf(dev.data, id), clock);
    }
  }

  // ---- a quiet device's pull ------------------------------------------

  /** Where this machine has been quiet the record is taken as it is, and no copy is made. */
  lemma QuietSettles(key: Key, row: Stores.Row, id: Uuid, slot: Slot, since: nat, now: nat, copyId: Uuid)
    requires RowGood(key, Canonical(id), row) && !Changed(slot, since)
    ensures Matches(key, id, row, Settled(key, Stores.RecordOf(Canonical(id), row), id, slot, since, now))
    ensures CopyMade(key, Stores.RecordOf(Canonical(id), row), id, slot, since, copyId).None?
  {
  }

  lemma ThinsQuietly(slot: Slot, thinner: Slot, since: nat)
    requires Thins(slot, thinner) && !Changed(slot, since)
    ensures !Changed(thinner, since)
  {
  }

  /** A page of rows the account's clients wrote, each once. */
  ghost predicate GoodPage(key: Key, rows: map<WireId, Stores.Row>, page: seq<SyncItem>) {
    && (forall i :: 0 <= i < |page| ==>
          && page[i].id in rows && page[i] == Stores.RecordOf(page[i].id, rows[page[i].id])
          && RowGood(key, page[i].id, rows[page[i].id]))
    && (forall a, b :: 0 <= a < b < |page| ==> page[a].id != page[b].id)
  }

  lemma GoodPageAt(key: Key, rows: map<WireId, Stores.Row>, page: seq<SyncItem>, k: nat)
    requires GoodPage(key, rows, page) && k < |page|
    ensures page[k].id.Canonical? && page[k].id in rows && RowGood(key, page[k].id, rows[page[k].id])
    ensures page[k] == Stores.RecordOf(page[k].id, rows[page[k].id])
    ensures forall j :: 0 <= j < k ==> page[j].id != page[k].id
  {
  }

  /** A record for an id that has been quiet leaves nothing under the id drawn for a copy. */
  lemma QuietMakesNoCopy(key: Key, st: Applied, page: seq<SyncItem>, since: nat, now: nat, ids: seq<Uuid>,
                         rows: map<WireId, Stores.Row>, k: nat)
    requires Ready(key, st.data, page, ids) && GoodPage(key, rows, page) && k < |page| && page[k].id.Canonical?
    requires !Changed(SlotOf(st.data, page[k].id.id), since)
    requires Thins(SlotOf(st.data, page[k].id.id), SlotOf(Upto(key, st, page, since, now, ids, k), page[k].id.id))
    ensures SlotOf(Upto(key, st, page, since, now, ids, k + 1), ids[k]) == Slot(None, None)
  {
    hide Upto, ApplyPage, SlotOf, Settled, CopyMade, RowGood, Changed, Ready, Matches, GoodPage, FreshIds, GenuinePage;
    GoodPageAt(key, rows, page, k);
    DrawnIsNew(key, st.data, page, ids, k);
    PageStep(key, st, page, since, now, ids, k);
    var id := page[k].id.id;
    var was := SlotOf(Upto(key, st, page, since, now, ids, k), id);
    ThinsQuietly(SlotOf(st.data, id), was, since);
    QuietSettles(key, rows[page[k].id], id, was, since, now, ids[k]);
  }

  /** So of an id it does not name, a quiet device's page at most forgets a deletion. */
  lemma {:induction false} QuietPageAt(key: Key, st: Applied, page: seq<SyncItem>, since: nat, now: nat, ids: seq<Uuid>,
                                       rows: map<WireId, Stores.Row>, k: nat, id: Uuid)
    requires Ready(key, st.data, page, ids) && k <= |page|
    requires forall id: Uuid :: !Changed(SlotOf(st.data, id), since)
    requires GoodPage(key, rows, page)
    requires forall j :: 0 <= j < k ==> page[j].id != Canonical(id)
    ensures Thins(SlotOf(st.data, id), SlotOf(Upto(key, st, page, since, now, ids, k), id))
  {
    hide Upto, ApplyPage, SlotOf, Changed, Ready, GoodPage, FreshIds, GenuinePage;
    if k == 0 {
      ReadyDraws(key, st.data, page, ids);
      UptoNothing(key, st, page, since, now, ids);
    } else {
      DrawnIsNew(key, st.data, page, ids, k - 1);
      if id == ids[k - 1] {
        GoodPageAt(key, rows, page, k - 1);
        QuietPageAt(key, st, page, since, now, ids, rows, k - 1, page[k - 1].id.id);
        QuietMakesNoCopy(key, st, page, since, now, ids, rows, k - 1);
      } else {
        PageStepAt(key, st, page, since, now, ids, k - 1, id);
        QuietPageAt(key, st, page, since, now, ids, rows, k - 1, id);
      }
    }
  }

  lemma PageStepAt(key: Key, st: Applied, page: seq<SyncItem>, since: nat, now: nat, ids: seq<Uuid>, k: nat, id: Uuid)
    requires Ready(key, st.data, page, ids) && k < |page| && page[k].id != Canonical(id) && id != ids[k]
    ensures Thins(SlotOf(Upto(key, st, page, since, now, ids, k), id),
        SlotOf(Upto(key, st, page, since, now, ids, k + 1), id))
  {
    hide Upto, ApplyPage, SlotOf, Settled, CopyMade;
    PageStep(key, st, page, since, now, ids, k);
  }

  /** The same item, or both deleted. */
  predicate SameContent(key: Key, id: Uuid, a: Stores.Row, b: Stores.Row) {
    && a.deleted == b.deleted
    && (!a.deleted ==>
          DecodeItem(key, id, Stores.RecordOf(Canonical(id), a))
          == DecodeItem(key, id, Stores.RecordOf(Canonical(id), b)))
  }

  ghost predicate SameTable(key: Key, a: Stores.Account, b: Stores.Account) {
    && (forall id: Uuid :: Canonical(id) in a.rows <==> Canonical(id) in b.rows)
    && (forall id: Uuid :: Canonical(id) in a.rows && Canonical(id) in b.rows ==>
          SameContent(key, id, a.rows[Canonical(id)], b.rows[Canonical(id)]))
  }

  /** After the pull of a quiet device every row matches it, and it holds nothing changed that the
      server does not store. */
  lemma {:induction false} QuietPull(w: World, device: nat, page: seq<SyncItem>, ids: seq<Uuid>)
    requires Inv(w) && MayPull(w, device, page, ids) && Quiet(w.devices[device].data)
    ensures var data := w.devices[device].data;
            var applied := Pulled(w.key, data, Page(w.account.revision, page), w.clock, ids).data;
            && Consistent(applied)
            && (forall id: Uuid :: Canonical(id) in w.account.rows ==>
                  Matches(w.key, id, w.account.rows[Canonical(id)], SlotOf(applied, id)))
            && (forall id: Uuid :: Changed(SlotOf(applied, id), data.sync.value.lastSyncedAt) ==>
                Canonical(id) in w.account.rows)
  {
    var data, rows := w.devices[device].data, w.account.rows;
    var st, since := Applied(data, EMPTY_REPORT.(revision := w.account.revision)), data.sync.value.lastSyncedAt;
    PullMatches(w, device, page, ids);
    forall i | 0 <= i < |page| ensures RowGood(w.key, page[i].id, rows[page[i].id]) {
    }
    assert page[..|page|] == page;
    var applied := Upto(w.key, st, page, since, w.clock, ids, |page|);
    forall id: Uuid
      ensures Canonical(id) in rows ==> Matches(w.key, id, rows[Canonical(id)], SlotOf(applied, id))
      ensures Changed(SlotOf(applied, id), since) ==> Canonical(id) in rows
    {
      if i :| 0 <= i < |page| && page[i].id == Canonical(id) {
        PageDecides(w.key, st, page, since, w.clock, ids, i, |page|);
        QuietSettles(w.key, rows[Canonical(id)], id, SlotOf(data, id), since, w.clock, ids[i]);
      } else {
        QuietPageAt(w.key, st, page, since, w.clock, ids, rows, |page|, id);
        ThinsQuietly(SlotOf(data, id), SlotOf(applied, id), since);
        assert Canonical(id) in rows ==> rows[Canonical(id)].revision <= data.sync.value.lastRevision;
      }
    }
  }

  lemma {:induction false} EchoRow(key: Key, account: Stores.Account, data: VaultData, since: nat, clock: nat, id: Uuid)
    requires Consistent(data) && StampedBy(SlotOf(data, id), clock)
    requires Canonical(id) in account.rows ==> Matches(key, id, account.rows[Canonical(id)], SlotOf(data, id))
    requires Canonical(id) in account.rows ==> RowGood(key, Canonical(id), account.rows[Canonical(id)])
    requires Changed(SlotOf(data, id), since) ==> Canonical(id) in account.rows
    ensures var after := Stores.AfterPush(account, account.revision, Outgoing(key, data, since), clock);
            && (Canonical(id) in account.rows <==> Canonical(id) in after.rows)
            && (Canonical(id) in account.rows ==>
                  SameContent(key, id, account.rows[Canonical(id)], after.rows[Canonical(id)]))
  {
    PushedRow(key, account, data, since, clock, Canonical(id));
    Stores.UpsertsAt(account.rows, Outgoing(key, data, since), account.revision + 1, clock, Canonical(id));
    if Changed(SlotOf(data, id), since) {
      RowOfSlot(key, data, id, since, account.revision + 1, clock);
    }
  }

  // ---- one step -------------------------------------------------------

  /** Everything the device would push is on the server already. */
  ghost predicate EchoReady(key: Key, account: Stores.Account, data: VaultData)
    requires data.sync.Some?
  {
    && (forall id: Uuid :: Canonical(id) in account.rows ==>
          Matches(key, id, account.rows[Canonical(id)], SlotOf(data, id)))
    && (forall id: Uuid :: Changed(SlotOf(data, id), data.sync.value.lastSyncedAt) ==> Canonical(id) in account.rows)
  }

  /** A device at rest has nothing to push, and one under way nothing new, unless its push would be
      refused. */
  ghost predicate Echoes(key: Key, account: Stores.Account, dev: Device) {
    && dev.data.sync.Some?
    && match dev.phase
       case Idle => Quiet(dev.data)
       case Pushing(expected, _) => expected == account.revision ==> EchoReady(key, account, dev.data)
  }

  ghost predicate AllEcho(w: World) {
    forall d :: d in w.devices ==> Echoes(w.key, w.account, w.devices[d])
  }

  lemma CompletedIsQuiet(w: World, act: Act, device: nat)
    requires Inv(w) && Enabled(w, act) && Completes(w, act, device)
    ensures var next := Do(w, act);
            device in next.devices && next.devices[device].phase == Idle && Quiet(next.devices[device].data)
  {
    StepKeeps(w, act);
    var next := Do(w, act);
    assert DeviceInv(next.key, next.account, next.clock, next.devices[device]);
    hide SlotOf, Changed, StampedBy, Known, Outgoing, Pulled, Quiet;
    StampedIsQuiet(next.key, next.account, next.clock, next.devices[device]);
  }

  lemma ReopenStaysQuiet(data: VaultData, now: nat)
    requires Consistent(data) && Quiet(data) && U.Migrated(data) == data && RoomForUnsent(data, now, 0)
    ensures Quiet(U.Reopened(data, now))
  {
    ReopenedFades(data, now);
    forall id: Uuid ensures !Changed(SlotOf(U.Reopened(data, now), id), data.sync.value.lastSyncedAt) {
      ThinsQuietly(SlotOf(data, id), SlotOf(U.Reopened(data, now), id), data.sync.value.lastSyncedAt);
    }
  }

  lemma PushEchoes(w: World, device: nat)
    requires Inv(w) && Enabled(w, Push(device)) && Completes(w, Push(device), device)
    requires Echoes(w.key, w.account, w.devices[device])
    ensures SameTable(w.key, w.account, Do(w, Push(device)).account)
  {
    var dev := w.devices[device];
    assert DeviceInv(w.key, w.account, w.clock, dev);
    var since, next := dev.data.sync.value.lastSyncedAt, Do(w, Push(device));
    assert next.account == Stores.AfterPush(w.account, w.account.revision, Outgoing(w.key, dev.data, since), w.clock);
    assert RowsGood(w.key, w.account) && EchoReady(w.key, w.account, dev.data);
    hide Inv, Outgoing, Stores.AfterPush, SlotOf, RowGood, Do, Matches, Changed, StampedBy, DeviceInv;
    forall id: Uuid
      ensures Canonical(id) in w.account.rows <==> Canonical(id) in next.account.rows
      ensures Canonical(id) in w.account.rows ==>
                SameContent(w.key, id, w.account.rows[Canonical(id)], next.account.rows[Canonical(id)])
    {
      EchoRow(w.key, w.account, dev.data, since, w.clock, id);
    }
  }

  lemma PullEchoes(w: World, device: nat, page: seq<SyncItem>, ids: seq<Uuid>)
    requires Inv(w) && MayPull(w, device, page, ids) && Quiet(w.devices[device].data)
    ensures var next := Do(w, Pull(device, page, ids));
            Echoes(next.key, next.account, next.devices[device])
  {
    var act, data := Pull(device, page, ids), w.devices[device].data;
    QuietPull(w, device, page, ids);
    PullMatches(w, device, page, ids);
    hide Pulled, Outgoing, SlotOf, Matches, Changed, Quiet, Inv, Ready, Known, StampedBy;
    if Do(w, act).devices[device].phase == Idle {
      CompletedIsQuiet(w, act, device);
    }
  }

  /** While every device echoes, a step leaves the server's content alone and every device echoing. */
  lemma EchoChangesNothing(w: World, act: Act)
    requires Inv(w) && AllEcho(w) && Enabled(w, act)
    requires act.Tick? || act.Pull? || act.Push? || act.Reopen?
    requires act.Push? ==> Completes(w, act, act.device)
    ensures SameTable(w.key, w.account, Do(w, act).account)
    ensures AllEcho(Do(w, act))
  {
    var next := Do(w, act);
    match act
    case Tick(_) => assert next.account == w.account && next.devices == w.devices;
    case Pull(device, page, ids) =>
      assert Echoes(w.key, w.account, w.devices[device]);
      PullEchoes(w, device, page, ids);
    case Reopen(device) =>
      assert Echoes(w.key, w.account, w.devices[device]);
      assert DeviceInv(w.key, w.account, w.clock, w.devices[device]);
      ReopenStaysQuiet(w.devices[device].data, w.clock);
    case Push(device) =>
      PushEchoes(w, device);
      CompletedIsQuiet(w, act, device);
      assert next.devices[device].data.sync.Some?;
      forall d | d in next.devices && d != device ensures Echoes(next.key, next.account, next.devices[d]) {
        assert Echoes(w.key, w.account, w.devices[d]) && DeviceInv(w.key, w.account, w.clock, w.devices[d]);
      }
    case _ =>
  }

  // ---- rounds ---------------------------------------------------------

  lemma {:induction false} RoundKeeps(ws: seq<World>, acts: seq<Act>, k: nat)
    requires IsRound(ws, acts) && Inv(ws[0]) && k <= |acts|
    ensures Inv(ws[k]) && ws[k].key == ws[0].key && ws[k].devices.Keys == ws[0].devices.Keys
  {
    hide Inv, Completes, CompletesAt, AgreesWithServer;
    if k > 0 {
      RoundKeeps(ws, acts, k - 1);
      assert TakesStep(ws, acts, k - 1);
      StepKeeps(ws[k - 1], acts[k - 1]);
    }
  }

  lemma RoundStep(ws: seq<World>, acts: seq<Act>, i: nat)
    requires IsRound(ws, acts) && i < |acts|
    ensures |ws| == |acts| + 1 && TakesStep(ws, acts, i)
  {
  }

  /** A device that has completed a sync in the round has nothing to push whenever it is at rest. */
  lemma {:induction false} CompletedStaysQuiet(ws: seq<World>, acts: seq<Act>, i: nat, k: nat, device: nat)
    requires IsRound(ws, acts) && Inv(ws[0]) && i < k <= |acts| && CompletesAt(ws, acts, i, device)
    ensures device in ws[k].devices
    ensures ws[k].devices[device].phase == Idle ==> Quiet(ws[k].devices[device].data)
  {
    hide Inv, Quiet, Do, Completes, IsRound;
    RoundKeeps(ws, acts, k - 1);
    RoundStep(ws, acts, k - 1);
    if i < k - 1 {
      CompletedStaysQuiet(ws, acts, i, k - 1, device);
      QuietStep(ws[k - 1], acts[k - 1], device);
    } else {
      CompletedIsQuiet(ws[i], acts[i], device);
    }
  }

  lemma QuietStep(w: World, act: Act, device: nat)
    requires Inv(w) && Enabled(w, act) && device in w.devices
    requires act.Tick? || act.Pull? || act.Push? || act.Reopen?
    requires act.Push? ==> Completes(w, act, act.device)
    requires w.devices[device].phase == Idle ==> Quiet(w.devices[device].data)
    ensures var next := Do(w, act);
            && device in next.devices
            && (next.devices[device].phase == Idle ==> Quiet(next.devices[device].data))
  {
    var next := Do(w, act);
    assert DeviceInv(w.key, w.account, w.clock, w.devices[device]);
    hide Quiet, Outgoing, Pulled, SlotOf, Changed, Known, StampedBy;
    if !act.Tick? && act.device == device {
      if act.Reopen? {
        ReopenStaysQuiet(w.devices[device].data, w.clock);
      } else if next.devices[device].phase == Idle {
        CompletedIsQuiet(w, act, device);
      }
    }
  }

  /** In a round that every device begins with nothing to push, the server's content stands still. */
  lemma {:induction false} QuietRoundFreezes(ws: seq<World>, acts: seq<Act>, k: nat)
    requires IsRound(ws, acts) && Inv(ws[0]) && AllEcho(ws[0]) && k <= |acts|
    ensures AllEcho(ws[k])
    ensures k > 0 ==> SameTable(ws[0].key, ws[k - 1].account, ws[k].account)
  {
    hide Inv, AllEcho, SameTable, Completes, CompletesAt, Do;
    if k > 0 {
      QuietRoundFreezes(ws, acts, k - 1);
      RoundKeeps(ws, acts, k - 1);
      assert TakesStep(ws, acts, k - 1);
      EchoChangesNothing(ws[k - 1], acts[k - 1]);
    }
  }

  /** So a device that has completed a sync goes on agreeing with the server whenever it is at rest. */
  lemma {:induction false} AgreementLasts(ws: seq<World>, acts: seq<Act>, i: nat, k: nat, device: nat)
    requires IsRound(ws, acts) && Inv(ws[0]) && AllEcho(ws[0])
    requires i < k <= |acts| && CompletesAt(ws, acts, i, device)
    ensures device in ws[k].devices
    ensures ws[k].devices[device].phase == Idle ==> AgreesWithServer(ws[k], device)
  {
    hide Inv, AllEcho, SameTable, AgreesWithServer, Do, Completes, IsRound, Quiet;
    RoundKeeps(ws, acts, k - 1);
    RoundStep(ws, acts, k - 1);
    var was, act := ws[k - 1], acts[k - 1];
    if i == k - 1 {
      StepKeeps(was, act);
      CompletedIsQuiet(was, act, device);
    } else {
      AgreementLasts(ws, acts, i, k - 1, device);
      QuietRoundFreezes(ws, acts, k);
      AgreementStep(was, act, device);
    }
  }

  lemma AgreementStep(w: World, act: Act, device: nat)
    requires Inv(w) && Enabled(w, act) && device in w.devices
    requires act.Tick? || act.Pull? || act.Push? || act.Reopen?
    requires act.Push? ==> Completes(w, act, act.device)
    requires w.devices[device].phase == Idle ==> AgreesWithServer(w, device)
    requires SameTable(w.key, w.account, Do(w, act).account)
    ensures var next := Do(w, act);
            && device in next.devices
            && (next.devices[device].phase == Idle ==> AgreesWithServer(next, device))
  {
    var next := Do(w, act);
    StepKeeps(w, act);
    assert DeviceInv(w.key, w.account, w.clock, w.devices[device]);
    hide Inv, Outgoing, Pulled, SlotOf, Changed, Known, StampedBy, ServerInv, RowsGood, Stores.AfterPush,
      Stores.IsDelta, FreshIds, RoomForUnsent, Consistent, Matches, SameContent;
    if next.devices[device].phase == Idle && (act.Tick? || act.device != device || act.Reopen?) {
      if act.Reopen? && act.device == device {
        ReopenedFades(w.devices[device].data, w.clock);
      }
      forall id: Uuid | Canonical(id) in next.account.rows
        ensures Matches(next.key, id, next.account.rows[Canonical(id)], SlotOf(next.devices[device].data, id))
      {
        assert SameContent(w.key, id, w.account.rows[Canonical(id)], next.account.rows[Canonical(id)]);
        assert Matches(w.key, id, w.account.rows[Canonical(id)], SlotOf(w.devices[device].data, id));
      }
    }
  }

  /** Convergence.  From any reachable state with no sync under way, if there are no further local
      changes and, in each of two successive rounds, every device completes a sync and no sync fails,
      every device agrees with the server, and so with every other device, on every id the server
      stores.  Within a round the syncs may interleave in any way. */
  lemma {:induction false} TwoRoundsConverge(run: seq<World>, acts: seq<Act>, first: seq<World>, acts1: seq<Act>,
                                             second: seq<World>, acts2: seq<Act>)
    requires IsRun(run, acts)
    requires IsRound(first, acts1) && first[0] == run[|acts|]
    requires IsRound(second, acts2) && second[0] == first[|acts1|]
    ensures var end := second[|acts2|];
            && (forall d :: d in end.devices ==> AgreesWithServer(end, d))
            && (forall d, e, id: Uuid ::
                  d in end.devices && e in end.devices && Canonical(id) in end.account.rows ==>
                  Held(end.devices[d].data, id) == Held(end.devices[e].data, id))
  {
    hide Inv, IsRun, CompletesAt, Quiet;
    RunKeeps(run, acts, |acts|);
    RoundKeeps(first, acts1, |acts1|);
    forall d | d in second[0].devices ensures Echoes(second[0].key, second[0].account, second[0].devices[d]) {
      var i :| 0 <= i < |acts1| && CompletesAt(first, acts1, i, d);
      CompletedStaysQuiet(first, acts1, i, |acts1|, d);
      QuietHasSynced(second[0].devices[d].data);
    }
    var end := second[|acts2|];
    RoundKeeps(second, acts2, |acts2|);
    forall d | d in end.devices ensures AgreesWithServer(end, d) {
      var i :| 0 <= i < |acts2| && CompletesAt(second, acts2, i, d);
      AgreementLasts(second, acts2, i, |acts2|, d);
    }
    forall d, e, id: Uuid | d in end.devices && e in end.devices && Canonical(id) in end.account.rows
      ensures Held(end.devices[d].data, id) == Held(end.devices[e].data, id)
    {
      assert Matches(end.key, id, end.account.rows[Canonical(id)], SlotOf(end.devices[d].data, id));
      assert Matches(end.key, id, end.account.rows[Canonical(id)], SlotOf(end.devices[e].data, id));
    }
  }

  lemma QuietHasSynced(data: VaultData)
    requires Quiet(data)
    ensures data.sync.Some?
  {
  }
}
