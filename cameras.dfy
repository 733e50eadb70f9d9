/** The camera switch of both scanner pages: the next camera in the device
    list, wrapping around. */
module Cameras {
  import opened Wrappers
  import opened Types

  /** `cameras.findIndex(c => c.id === id)`: the first position of id, or -1. */
  function FindIndex(cameras: seq<Id>, id: Id): (i: int)
    ensures -1 <= i < |cameras|
    ensures i == -1 <==> id !in cameras
    ensures 0 <= i ==> cameras[i] == id && forall j :: 0 <= j < i ==> cameras[j] != id
  {
    if cameras == [] then -1
    else if cameras[0] == id then 0
    else
      var i := FindIndex(cameras[1..], id);
      if i == -1 then -1 else i + 1
  }

  /** The id is set and not the empty text (`!activeCameraId` fails). */
  predicate IsSet(active: Option<Id>) {
    active.Some? && active.value != ""
  }

  /** `handleCameraSwitch`: the active camera after the switch. */
  function NextCamera(cameras: seq<Id>, active: Option<Id>): (r: Option<Id>)
    ensures |cameras| < 2 || !IsSet(active) ==> r == active
    ensures |cameras| >= 2 && IsSet(active) ==> r.Some? && r.value in cameras
    ensures |cameras| >= 2 && IsSet(active) && active.value !in cameras ==> r == Some(cameras[0])
  {
    if |cameras| < 2 || !IsSet(active) then active
    else Some(cameras[(FindIndex(cameras, active.value) + 1) % |cameras|])
  }

  predicate Distinct(cameras: seq<Id>) {
    forall i, j :: 0 <= i < j < |cameras| ==> cameras[i] != cameras[j]
  }

  /** The active camera after k presses of the switch. */
  function Presses(cameras: seq<Id>, active: Option<Id>, k: nat): Option<Id> {
    if k == 0 then active else NextCamera(cameras, Presses(cameras, active, k - 1))
  }

  /** The position after position i among n, wrapping after the last. */
  function Succ(i: int, n: int): int {
    if i + 1 == n then 0 else i + 1
  }

  /** The position k steps after position i among n. */
  function Rotated(i: int, k: nat, n: int): (r: int)
    requires 0 <= i < n
    ensures 0 <= r < n
  {
    if k == 0 then i else Succ(Rotated(i, k - 1, n), n)
  }

  lemma MulBound(d: int, n: int)
    requires n > 0
    ensures d > 0 ==> d * n >= n
    ensures d < 0 ==> d * n <= -n
  {
  }

  /** Euclidean division is unique: a quotient and an in-range remainder are `/` and `%`. */
  lemma ModUnique(x: int, q: int, r: int, n: int)
    requires n > 0 && 0 <= r < n && x == q * n + r
    ensures x % n == r
  {
    var d := x / n - q;
    assert d * n == r - x % n;
    MulBound(d, n);
  }

  lemma DivMod(a: int, n: int)
    requires n > 0
    ensures a == (a / n) * n + a % n && 0 <= a % n < n
  {
  }

  /** The position after a % n is a + 1 modulo n. */
  lemma SuccMod(a: int, n: int)
    requires n > 0
    ensures Succ(a % n, n) == (a + 1) % n
  {
    DivMod(a, n);
    var q, r := a / n, a % n;
    if r + 1 < n {
      ModUnique(a + 1, q, r + 1, n);
    } else {
      ModUnique(a + 1, q + 1, 0, n);
    }
  }

  /** Stepping k times is adding k modulo n. */
  lemma {:induction false} RotatedIsMod(i: int, k: nat, n: int)
    requires 0 <= i < n
    ensures Rotated(i, k, n) == (i + k) % n
  {
    if k == 0 {
      ModUnique(i, 0, i, n);
    } else {
      RotatedIsMod(i, k - 1, n);
      SuccMod(i + k - 1, n);
    }
  }

  /** From camera i, one press moves to the next camera, wrapping after the last. */
  lemma NextOfIndex(cameras: seq<Id>, i: int)
    requires Distinct(cameras) && 2 <= |cameras| && 0 <= i < |cameras| && cameras[i] != ""
    ensures NextCamera(cameras, Some(cameras[i])) == Some(cameras[Succ(i, |cameras|)])
  {
    assert FindIndex(cameras, cameras[i]) == i;
    if i + 1 == |cameras| {
      ModUnique(i + 1, 1, 0, |cameras|);
    } else {
      ModUnique(i + 1, 0, i + 1, |cameras|);
    }
  }

  /** With distinct, non-empty ids the switch visits every camera in turn. */
  lemma {:induction false} PressesRotate(cameras: seq<Id>, i: int, k: nat)
    requires Distinct(cameras) && 2 <= |cameras| && 0 <= i < |cameras|
    requires forall j :: 0 <= j < |cameras| ==> cameras[j] != ""
    ensures Presses(cameras, Some(cameras[i]), k) == Some(cameras[Rotated(i, k, |cameras|)])
  {
    if k > 0 {
      PressesRotate(cameras, i, k - 1);
      NextOfIndex(cameras, Rotated(i, k - 1, |cameras|));
    }
  }

  /** n steps among n positions return to the start. */
  lemma RotatedFull(i: int, n: int)
    requires 0 <= i < n
    ensures Rotated(i, n, n) == i
  {
    RotatedIsMod(i, n, n);
    ModUnique(i + n, 1, i, n);
  }

  /** After as many presses as there are cameras the switch is back where it started. */
  lemma FullTurn(cameras: seq<Id>, i: int)
    requires Distinct(cameras) && 2 <= |cameras| && 0 <= i < |cameras|
    requires forall j :: 0 <= j < |cameras| ==> cameras[j] != ""
    ensures Presses(cameras, Some(cameras[i]), |cameras|) == Some(cameras[i])
  {
    RotatedFull(i, |cameras|);
    PressesRotate(cameras, i, |cameras|);
  }
}
