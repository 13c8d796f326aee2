/**
 * The lock-free vsock CID counter: fetch_add for new VMs, and a weak
 * compare-and-swap loop that moves it past recovered ones
 * (qarax-node/src/firecracker/helpers.rs). One action is one atomic access.
 */
module VsockCid {

  const MAX := 0x7fff_ffff_ffff_ffff
  const MIN := -0x8000_0000_0000_0000
  const FIRST := 0x5000

  /** 64-bit two's complement. */
  function Wrap(x: int): int {
    if x > MAX then x - 0x1_0000_0000_0000_0000 else x
  }

  type Tid = nat

  /** A thread inside advance_vsock_cid_past(used), about to test `cur < next`. */
  datatype Advance = Advance(used: int, next: int, cur: int)

  /** `returned` records each finished advance and how many CIDs had been issued by then. */
  datatype Sys = Sys(counter: int, inside: map<Tid, Advance>, issued: seq<int>, returned: seq<(int, nat)>)

  datatype Action =
    | Assign
    | Begin(t: Tid, used: int)
    | Leave(t: Tid)
    | Swap(t: Tid, spurious: bool)

  predicate Step(s: Sys, a: Action, s': Sys) {
    match a
    case Assign => s' == s.(counter := Wrap(s.counter + 1), issued := s.issued + [s.counter])
    case Begin(t, used) =>
      && t !in s.inside && MIN <= used <= MAX
      && s' == s.(inside := s.inside[t := Advance(used, Wrap(used + 1), s.counter)])
    case Leave(t) =>
      && t in s.inside && s.inside[t].cur >= s.inside[t].next
      && s' == Return(s, t)
    case Swap(t, spurious) =>
      && t in s.inside && s.inside[t].cur < s.inside[t].next
      && s' == if !spurious && s.counter == s.inside[t].cur
               then Return(s.(counter := s.inside[t].next), t)
               else s.(inside := s.inside[t := s.inside[t].(cur := s.counter)])
  }

  function Return(s: Sys, t: Tid): Sys
    requires t in s.inside
  {
    s.(inside := s.inside - {t}, returned := s.returned + [(s.inside[t].used, |s.issued|)])
  }

  const START := Sys(FIRST, map[], [], [])

  ghost predicate IsRun(run: seq<Sys>, actions: seq<Action>) {
    && |run| == |actions| + 1 && run[0] == START
    && forall i :: 0 <= i < |actions| ==> Step(run[i], actions[i], run[i + 1])
  }

  /** No recovered CID reaches `bound`, and the run is too short to push the counter from there to the top. */
  predicate Bounded(actions: seq<Action>, bound: int) {
    && FIRST <= bound && bound + |actions| <= MAX
    && forall i :: 0 <= i < |actions| && actions[i].Begin? ==> actions[i].used < bound
  }

  predicate Increasing(s: seq<int>) {
    forall i, j :: 0 <= i < j < |s| ==> s[i] < s[j]
  }

  /** Every CID issued from position `n` on is above `used`. */
  predicate AllAbove(issued: seq<int>, n: nat, used: int) {
    forall i :: n <= i < |issued| ==> issued[i] > used
  }

  ghost predicate Inv(s: Sys, top: int) {
    && s.counter <= top
    && Increasing(s.issued) && (forall i :: 0 <= i < |s.issued| ==> s.issued[i] < s.counter)
    && (forall t :: t in s.inside ==> Inside(s, s.inside[t], top))
    && forall k :: 0 <= k < |s.returned| ==> Settled(s, s.returned[k])
  }

  predicate Inside(s: Sys, a: Advance, top: int) {
    a.next == a.used + 1 <= top && a.cur <= s.counter
  }

  predicate Settled(s: Sys, r: (int, nat)) {
    r.0 < s.counter && r.1 <= |s.issued| && AllAbove(s.issued, r.1, r.0)
  }

  /** One atomic access by any thread keeps the invariant and never lowers the counter. */
  lemma StepKeeps(s: Sys, a: Action, s': Sys, top: int)
    requires Inv(s, top) && Step(s, a, s') && top < MAX && (a.Begin? ==> a.used < top)
    ensures Inv(s', top + 1) && s.counter <= s'.counter && s.issued <= s'.issued && s.returned <= s'.returned
  {
    match a {
      case Assign =>
        forall k | 0 <= k < |s.returned| ensures Settled(s', s'.returned[k]) {
          assert Settled(s, s.returned[k]);
        }
      case Begin(t, used) =>
      case Leave(t) =>
        assert Inside(s, s.inside[t], top);
      case Swap(t, spurious) =>
        assert Inside(s, s.inside[t], top);
        forall k | 0 <= k < |s.returned| ensures Settled(s', s.returned[k]) {
          assert Settled(s, s.returned[k]);
        }
    }
  }

  lemma {:induction false} RunKeeps(run: seq<Sys>, actions: seq<Action>, bound: int, k: nat)
    requires IsRun(run, actions) && Bounded(actions, bound) && k <= |actions|
    ensures Inv(run[k], bound + k)
  {
    if k > 0 {
      RunKeeps(run, actions, bound, k - 1);
      StepKeeps(run[k - 1], actions[k - 1], run[k], bound + k - 1);
    }
  }

  /** Over every interleaving the counter only grows and what was issued or returned stays recorded. */
  lemma {:induction false} CounterGrows(run: seq<Sys>, actions: seq<Action>, bound: int, i: nat, j: nat)
    requires IsRun(run, actions) && Bounded(actions, bound) && i <= j <= |actions|
    ensures run[i].counter <= run[j].counter && run[i].issued <= run[j].issued && run[i].returned <= run[j].returned
    decreases j
  {
    if i < j {
      CounterGrows(run, actions, bound, i, j - 1);
      RunKeeps(run, actions, bound, j - 1);
      StepKeeps(run[j - 1], actions[j - 1], run[j], bound + j - 1);
    }
  }

  lemma {:induction false} FromFirst(run: seq<Sys>, actions: seq<Action>, bound: int, k: nat)
    requires IsRun(run, actions) && Bounded(actions, bound) && k <= |actions|
    ensures run[k].counter >= 0x5000 && forall i :: 0 <= i < |run[k].issued| ==> run[k].issued[i] >= 0x5000
  {
    if k > 0 {
      FromFirst(run, actions, bound, k - 1);
      RunKeeps(run, actions, bound, k - 1);
      StepKeeps(run[k - 1], actions[k - 1], run[k], bound + k - 1);
      assert Step(run[k - 1], actions[k - 1], run[k]);
    }
  }

  /** Without recovered VMs the CIDs issued are 0x5000, 0x5001 and so on, one for each request. */
  lemma {:induction false} CidsInOrder(n: nat) returns (run: seq<Sys>)
    requires 0x5000 + n <= MAX
    ensures IsRun(run, seq(n, i => Assign)) && |run[n].issued| == n && run[n].counter == 0x5000 + n
    ensures forall i :: 0 <= i < n ==> run[n].issued[i] == 0x5000 + i
  {
    if n == 0 {
      run := [START];
    } else {
      var front := CidsInOrder(n - 1);
      var s := front[n - 1];
      var s' := s.(counter := s.counter + 1, issued := s.issued + [s.counter]);
      run := front + [s'];
      assert Step(s, Assign, s');
    }
  }

  /**
   * No two assigned CIDs are equal, and one issued after an advance returned
   * is above the CID that advance was given.
   */
  lemma CidsNeverMeet(run: seq<Sys>, actions: seq<Action>, bound: int, k: nat)
    requires IsRun(run, actions) && Bounded(actions, bound) && k <= |actions|
    ensures forall i, j :: 0 <= i < j < |run[k].issued| ==> run[k].issued[i] != run[k].issued[j]
    ensures forall r, i :: r in run[k].returned && r.1 <= i < |run[k].issued| ==> run[k].issued[i] > r.0
    ensures forall i :: 0 <= i < |run[k].issued| ==> run[k].issued[i] >= 0x5000
  {
    RunKeeps(run, actions, bound, k);
    FromFirst(run, actions, bound, k);
    forall r | r in run[k].returned ensures AllAbove(run[k].issued, r.1, r.0) {
      var n :| 0 <= n < |run[k].returned| && run[k].returned[n] == r;
      assert Settled(run[k], run[k].returned[n]);
    }
  }

  /** A thread inside an advance can always go on: it leaves once the counter it saw is past, and swaps until then. */
  lemma AdvanceGoesOn(s: Sys, t: Tid, spurious: bool)
    requires t in s.inside
    ensures if s.inside[t].next <= s.inside[t].cur then exists s' :: Step(s, Leave(t), s')
            else exists s' :: Step(s, Swap(t, spurious), s')
    ensures !(exists s', s'' :: Step(s, Leave(t), s') && Step(s, Swap(t, spurious), s''))
  {
    if s.inside[t].next <= s.inside[t].cur {
      assert Step(s, Leave(t), Return(s, t));
    } else {
      var s' := if !spurious && s.counter == s.inside[t].cur then Return(s.(counter := s.inside[t].next), t)
                else s.(inside := s.inside[t := s.inside[t].(cur := s.counter)]);
      assert Step(s, Swap(t, spurious), s');
    }
  }

  /**
   * The bound matters: an advance that no other thread disturbs ends above `used`
   * exactly when `used` is not the largest 64-bit value, where the addition wraps.
   */
  lemma AdvancePastIff(s: Sys, s': Sys, s'': Sys, t: Tid, used: int)
    requires MIN <= s.counter <= MAX && Step(s, Begin(t, used), s')
    requires Step(s', Leave(t), s'') || Step(s', Swap(t, false), s'')
    ensures t !in s''.inside
    ensures s''.counter > used <==> used < 0x7fff_ffff_ffff_ffff
    ensures used < 0x7fff_ffff_ffff_ffff ==> s''.counter == if s.counter <= used then used + 1 else s.counter
  {
  }
}
