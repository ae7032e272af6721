/** What wins when two machines changed the same thing. */
module Merge {
  import opened Crypto

  datatype LocalItem = LocalItem(id: Uuid, updatedAt: nat, deleted: bool)

  datatype RemoteItem = RemoteItem(id: Uuid, updatedAt: nat, deleted: bool)

  datatype Resolution = ApplyRemote | KeepLocal | ApplyDelete | Conflict(remoteWins: bool)

  function Reconcile(local: Option<LocalItem>, remote: RemoteItem, lastSyncAt: nat): Resolution {
    match local
    case None => if remote.deleted then ApplyDelete else ApplyRemote
    case Some(mine) =>
      var changedLocally := mine.updatedAt > lastSyncAt;
      if mine.deleted && remote.deleted then KeepLocal
      else if mine.deleted then (if changedLocally then KeepLocal else ApplyRemote)
      else if !changedLocally then (if remote.deleted then ApplyDelete else ApplyRemote)
      else if remote.deleted then KeepLocal
      else Conflict(remote.updatedAt > mine.updatedAt)
  }

  /** The records changed since the last sync, in their order. */
  function ToPush(local: seq<LocalItem>, lastSyncAt: nat): seq<LocalItem> {
    if local == [] then []
    else if local[0].updatedAt > lastSyncAt then [local[0]] + ToPush(local[1..], lastSyncAt)
    else ToPush(local[1..], lastSyncAt)
  }
}
