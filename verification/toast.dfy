/**
  Short-lived notifications. A toast is shown by appending it to the shared
  list; a timer fires after its duration and takes that same toast out again.
  The timer is an explicit `Expire` event here, and the object identity the
  source relies on (`indexOf(toast)`) is a fresh id handed out per toast.
 */
module Toasts {
  import opened Seqs

  datatype ToastType = Success | Error | Info | Celebration

  datatype Toast = Toast(message: string, kind: Option<ToastType>, duration: Option<int>)

  /** How long each kind of toast stays up, in milliseconds. */
  function DefaultDuration(t: ToastType): nat {
    match t
    case Celebration => 2000
    case Error => 1500
    case Success => 1000
    case Info => 1000
  }

  /** `getToastDuration`: no type means an informational toast. */
  function GetToastDuration(t: Option<ToastType>): (d: nat)
    ensures t.None? ==> d == DefaultDuration(Info)
    ensures t.Some? ==> d == DefaultDuration(t.value)
  {
    DefaultDuration(if t.Some? then t.value else Info)
  }

  lemma DurationTable()
    ensures GetToastDuration(Some(Celebration)) == 2000
    ensures GetToastDuration(Some(Error)) == 1500
    ensures GetToastDuration(Some(Success)) == 1000
    ensures GetToastDuration(Some(Info)) == 1000
    ensures GetToastDuration(None) == 1000
    ensures forall t :: GetToastDuration(Some(t)) <= GetToastDuration(Some(Celebration))
  {
  }

  /** `toast.duration ?? getToastDuration(toast.type)`: an explicit duration wins, even 0. */
  function TimerDelay(t: Toast): (d: int)
    ensures t.duration.Some? ==> d == t.duration.value
    ensures t.duration.None? ==> d == GetToastDuration(t.kind)
  {
    match t.duration
    case Some(v) => v
    case None => GetToastDuration(t.kind)
  }

  datatype Shown = Shown(id: nat, toast: Toast)

  /** The toast list, plus the id the next toast will get. */
  datatype Board = Board(shown: seq<Shown>, nextId: nat)

  /** Ids are distinct and all smaller than `nextId`. */
  predicate Valid(b: Board) {
    && (forall i | 0 <= i < |b.shown| :: b.shown[i].id < b.nextId)
    && (forall i, j | 0 <= i < j < |b.shown| :: b.shown[i].id != b.shown[j].id)
  }

  datatype Added = Added(board: Board, id: nat, delay: int)

  /** `addToast`: append the toast and arm its removal timer. */
  function AddToast(b: Board, t: Toast): (r: Added)
    ensures r.board.shown == b.shown + [Shown(r.id, t)]
    ensures r.id == b.nextId && r.board.nextId == b.nextId + 1
    ensures r.delay == TimerDelay(t)
  {
    Added(Board(b.shown + [Shown(b.nextId, t)], b.nextId + 1), b.nextId, TimerDelay(t))
  }

  /** Index of the toast with id `id`, or `|s|` when it is gone. */
  function Find(s: seq<Shown>, id: nat): (i: nat)
    ensures i <= |s|
    ensures i < |s| ==> s[i].id == id
    ensures forall k | 0 <= k < i :: s[k].id != id
  {
    if |s| == 0 then 0
    else if s[0].id == id then 0
    else 1 + Find(s[1..], id)
  }

  /** The timer of toast `id` fires: remove it if still present, otherwise do nothing. */
  function Expire(b: Board, id: nat): (r: Board)
    ensures r.nextId == b.nextId
    ensures |r.shown| <= |b.shown|
  {
    var i := Find(b.shown, id);
    if i == |b.shown| then b else Board(b.shown[..i] + b.shown[i + 1..], b.nextId)
  }

  /** Adding and expiring toasts keeps ids distinct and fresh. */
  lemma BoardStaysValid(b: Board, t: Toast, id: nat)
    requires Valid(b)
    ensures Valid(AddToast(b, t).board)
    ensures Valid(Expire(b, id))
  {
    var a := AddToast(b, t).board;
    assert forall i | 0 <= i < |b.shown| :: a.shown[i] == b.shown[i];
    var i := Find(b.shown, id);
    if i < |b.shown| {
      var r := Expire(b, id);
      assert forall k | 0 <= k < |r.shown| :: r.shown[k] == b.shown[if k < i then k else k + 1];
    }
  }

  lemma {:induction false} FindLast(s: seq<Shown>, x: Shown)
    requires forall k | 0 <= k < |s| :: s[k].id != x.id
    ensures Find(s + [x], x.id) == |s|
  {
    if |s| > 0 {
      assert (s + [x])[1..] == s[1..] + [x];
      FindLast(s[1..], x);
    }
  }

  /** A timer for a toast that is no longer shown changes nothing. */
  lemma ExpireAbsent(b: Board, id: nat)
    requires forall k | 0 <= k < |b.shown| :: b.shown[k].id != id
    ensures Expire(b, id) == b
  {
  }

  /** Expiring removes exactly the toast with that id and keeps the others in order. */
  lemma ExpireRemovesOnlyThat(b: Board, id: nat)
    requires Valid(b)
    ensures forall s | s in Expire(b, id).shown :: s in b.shown && s.id != id
    ensures forall s | s in b.shown && s.id != id :: s in Expire(b, id).shown
  {
    var i := Find(b.shown, id);
    if i < |b.shown| {
      var r := Expire(b, id);
      forall s | s in b.shown && s.id != id
        ensures s in r.shown
      {
        var k :| 0 <= k < |b.shown| && b.shown[k] == s;
        assert k != i;
        if k < i {
          assert r.shown[k] == s;
        } else {
          assert r.shown[k - 1] == s;
        }
      }
    }
  }

  /** Adding a toast and letting its timer fire leaves the list as it was. */
  lemma AddThenExpire(b: Board, t: Toast)
    requires Valid(b)
    ensures Expire(AddToast(b, t).board, AddToast(b, t).id).shown == b.shown
  {
    var a := AddToast(b, t);
    assert forall k | 0 <= k < |b.shown| :: a.board.shown[k] == b.shown[k];
    FindLast(b.shown, Shown(a.id, t));
    assert a.board.shown[..|b.shown|] == b.shown;
  }
}
