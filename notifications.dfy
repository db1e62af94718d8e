/** Toast notifications (`showNotification`): the notification nodes in
    `document.body`, in document order, and the operations on that list. */
module Notifications {

  /** The `type` argument: it picks the toast's icon and background colour. */
  datatype Kind = Success | Error

  /** One notification node. `id` is the node's identity (what the dismissal timers
      of `showNotification` hold on to); `leaving` records that its slide-out
      animation has been started. */
  datatype Toast = Toast(id: nat, message: string, kind: Kind, leaving: bool)

  /** The ids in `body`, in document order. */
  function Ids(body: seq<Toast>): (ids: seq<nat>)
    ensures |ids| == |body|
    ensures forall k | 0 <= k < |body| :: ids[k] == body[k].id
  {
    if body == [] then [] else [body[0].id] + Ids(body[1..])
  }

  /** showNotification(message, type) creating node `id`: the first node found by
      `querySelector('.notification')` (if any) is removed, then a fresh node,
      not yet leaving, is appended to the body. */
  function Show(body: seq<Toast>, id: nat, message: string, kind: Kind): (r: seq<Toast>)
    ensures |r| >= 1 && r[|r| - 1] == Toast(id, message, kind, false)
    ensures r[..|r| - 1] == if body == [] then [] else body[1..]
  {
    (if body == [] then [] else body[1..]) + [Toast(id, message, kind, false)]
  }

  /** The first timer (after 5000 ms): node `id` gets its slide-out animation. A node
      that is no longer in the page changes nothing visible. */
  function StartLeaving(body: seq<Toast>, id: nat): (r: seq<Toast>)
    ensures |r| == |body|
    ensures Ids(r) == Ids(body)
    ensures forall k | 0 <= k < |body| ::
      r[k] == if body[k].id == id then body[k].(leaving := true) else body[k]
  {
    if body == [] then []
    else [if body[0].id == id then body[0].(leaving := true) else body[0]]
         + StartLeaving(body[1..], id)
  }

  /** The second timer (300 ms later): node `id` is removed if it still has a parent;
      otherwise nothing happens. */
  function Remove(body: seq<Toast>, id: nat): (r: seq<Toast>)
    ensures id !in Ids(r)
    ensures |r| <= |body|
  {
    if body == [] then []
    else if body[0].id == id then Remove(body[1..], id)
    else [body[0]] + Remove(body[1..], id)
  }

  /** At most one toast is ever on the page: showing keeps it so. */
  lemma {:induction false} ShowKeepsAtMostOne(body: seq<Toast>, id: nat, message: string, kind: Kind)
    requires |body| <= 1
    ensures Show(body, id, message, kind) == [Toast(id, message, kind, false)]
  {
    var r := Show(body, id, message, kind);
    assert r[..|r| - 1] == [];
    assert r == r[..|r| - 1] + [r[|r| - 1]];
  }

  /** Removing a node that is not in the page is a no-op. */
  lemma {:induction false} RemoveAbsent(body: seq<Toast>, id: nat)
    requires id !in Ids(body)
    ensures Remove(body, id) == body
  {
    if body != [] {
      assert Ids(body)[0] == body[0].id;
      assert Ids(body[1..]) == Ids(body)[1..];
      RemoveAbsent(body[1..], id);
    }
  }

  /** Removing node `id` from a well-numbered body leaves exactly the other nodes,
      in their order. */
  lemma {:induction false} RemoveOnlyOwn(body: seq<Toast>, id: nat, k: nat)
    requires k < |body| && body[k].id == id
    requires forall a, b | 0 <= a < b < |body| :: body[a].id != body[b].id
    ensures Remove(body, id) == body[..k] + body[k + 1..]
  {
    var tail := body[1..];
    if k == 0 {
      forall j | 0 <= j < |tail| ensures Ids(tail)[j] != id {
        assert tail[j] == body[j + 1];
      }
      RemoveAbsent(tail, id);
      assert body[..k] + body[k + 1..] == tail;
    } else {
      assert body[0].id != id;
      forall a, b | 0 <= a < b < |tail| ensures tail[a].id != tail[b].id {
        assert tail[a] == body[a + 1] && tail[b] == body[b + 1];
      }
      RemoveOnlyOwn(tail, id, k - 1);
      assert body[..k] == [body[0]] + tail[..k - 1];
      assert body[k + 1..] == tail[k..];
    }
  }

  /** A toast's own removal step after it was replaced by a newer toast changes
      nothing: the newer toast stays. */
  lemma ReplacedToastRemovalIsNoop(replaced: Toast, id: nat, message: string, kind: Kind)
    requires id != replaced.id
    ensures Remove(Show([replaced], id, message, kind), replaced.id) == [Toast(id, message, kind, false)]
  {
    ShowKeepsAtMostOne([replaced], id, message, kind);
    RemoveAbsent([Toast(id, message, kind, false)], replaced.id);
  }

  /** A toast's own removal step while it is the one on the page empties the page. */
  lemma OwnRemovalEmpties(id: nat, message: string, kind: Kind, leaving: bool)
    ensures Remove([Toast(id, message, kind, leaving)], id) == []
  {
  }
}
