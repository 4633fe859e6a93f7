/** Which semaphore a thread waits for (EcatConfigMaster::wait): each thread that has called gets its own,
    in the order of the first calls. */
module Registration {
  import opened Memory
  import opened CycleSemaphore

  /** The place of a thread in the list, or its end. */
  function Find(ids: seq<int>, id: int): (k: nat)
    ensures k <= |ids|
    ensures k < |ids| ==> ids[k] == id
    ensures forall j :: 0 <= j < k ==> ids[j] != id
  {
    if ids == [] || ids[0] == id then 0 else 1 + Find(ids[1..], id)
  }

  /** The list after a call. */
  function After(ids: seq<int>, id: int): seq<int> {
    if Find(ids, id) == |ids| < EC_SEM_NUM then ids + [id] else ids
  }

  /** The semaphore that a call waits for, if any. */
  function SlotOf(ids: seq<int>, id: int): Option<nat> {
    if Find(ids, id) < |ids| || |ids| < EC_SEM_NUM then Some(Find(ids, id)) else None
  }

  class Client {
    var threadId: seq<int>

    constructor ()
      ensures threadId == []
    {
      threadId := [];
    }

    /** One call by the thread `id`. */
    method Wait(id: int) returns (slot: Option<nat>)
      modifies this
      ensures threadId == After(old(threadId), id) && slot == SlotOf(old(threadId), id)
    {
      var it := 0;
      while it < |threadId| && threadId[it] != id
        invariant 0 <= it <= |threadId|
        invariant forall j :: 0 <= j < it ==> threadId[j] != id
      {
        it := it + 1;
      }
      if it < |threadId| {
        slot := Some(it);
      } else if |threadId| >= EC_SEM_NUM {
        slot := None;
      } else {
        threadId := threadId + [id];
        slot := Some(|threadId| - 1);
      }
    }
  }

  /** The list after the first `k` calls. */
  function Ids(calls: seq<int>, k: nat): seq<int>
    requires k <= |calls|
  {
    if k == 0 then [] else After(Ids(calls, k - 1), calls[k - 1])
  }

  function Slot(calls: seq<int>, k: nat): Option<nat>
    requires k < |calls|
  {
    SlotOf(Ids(calls, k), calls[k])
  }

  ghost predicate Distinct(ids: seq<int>) {
    |ids| <= EC_SEM_NUM && forall i, j :: 0 <= i < j < |ids| ==> ids[i] != ids[j]
  }

  lemma {:induction false} IdsAreDistinct(calls: seq<int>, k: nat)
    requires k <= |calls|
    ensures Distinct(Ids(calls, k))
  {
    hide Find;
    if k > 0 {
      IdsAreDistinct(calls, k - 1);
    }
  }

  lemma {:induction false} IdsGrow(calls: seq<int>, j: nat, k: nat)
    requires j <= k <= |calls|
    ensures Ids(calls, j) <= Ids(calls, k)
    decreases k
  {
    hide Find;
    if j < k {
      IdsGrow(calls, j, k - 1);
    }
  }

  /** After its call a thread is in the list, at its slot, or the list is full without it. */
  lemma {:induction false} Registered(calls: seq<int>, j: nat, k: nat)
    requires j < k <= |calls|
    ensures var ids := Ids(calls, k); var slot := Slot(calls, j);
            && (slot.Some? ==> slot.value < |ids| && slot.value < EC_SEM_NUM && ids[slot.value] == calls[j])
            && (slot.None? ==> ids == Ids(calls, j) && |ids| == EC_SEM_NUM && calls[j] !in ids)
  {
    hide Find;
    IdsAreDistinct(calls, j);
    IdsGrow(calls, j + 1, k);
    IdsAreDistinct(calls, k);
  }

  /** A thread always waits for the same semaphore, and two threads never for the same one. At most the
      first ten threads get one; a call is refused exactly if ten others came before. */
  lemma {:induction false} SlotsAreOwn(calls: seq<int>, j: nat, k: nat)
    requires j < k < |calls|
    ensures calls[j] == calls[k] ==> Slot(calls, j) == Slot(calls, k)
    ensures calls[j] != calls[k] && Slot(calls, j).Some? && Slot(calls, k).Some? ==> Slot(calls, j) != Slot(calls, k)
    ensures Slot(calls, k).None? <==> |Ids(calls, k)| == EC_SEM_NUM && calls[k] !in Ids(calls, k)
  {
    hide Ids, Find;
    Registered(calls, j, k);
    IdsAreDistinct(calls, k);
  }
}
