/**
 * The round-robin scheduler tick (bsd/kern/init_ram_getty/proc.c:22-48).
 */
module Sched {
  import opened Common

  datatype State = Running | Zombie | New | Waiting

  function Slot(cur: nat, i: nat, n: nat): nat { if cur + i >= n then cur + i - n else cur + i }

  /** The task a tick selects once the `i - 1` slots after `cur` have been passed over; None is the panic. */
  function Search(states: seq<State>, cur: nat, i: nat): (r: Option<nat>)
    requires cur < |states| && 1 <= i <= |states|
    ensures r.Some? ==> r.value < |states| && states[r.value].Running?
    decreases |states| - i
  {
    if i == |states| then (if states[cur].Running? then Some(cur) else None)
    else if states[Slot(cur, i, |states|)].Running? then Some(Slot(cur, i, |states|))
    else Search(states, cur, i + 1)
  }

  function Next(states: seq<State>, cur: nat): (r: Option<nat>)
    requires cur < |states|
    ensures r.Some? ==> r.value < |states| && states[r.value].Running?
  {
    Search(states, cur, 1)
  }

  /** How many slots ahead of `cur` task `t` is, going round; the current task itself is a full round away. */
  function Ahead(cur: nat, t: nat, n: nat): int { if t > cur then t - cur else t - cur + n }

  lemma {:induction false} SearchAhead(states: seq<State>, cur: nat, i: nat, t: nat)
    requires cur < |states| && t < |states| && states[t].Running? && 1 <= i <= Ahead(cur, t, |states|)
    ensures var r := Search(states, cur, i);
            r.Some? && (r.value == t || Ahead(r.value, t, |states|) < Ahead(cur, t, |states|))
    decreases |states| - i
  {
    var n := |states|;
    if i < n {
      var s := Slot(cur, i, n);
      if !states[s].Running? {
        SearchAhead(states, cur, i + 1, t);
      }
    }
  }

  /** A runnable task is selected or comes nearer. */
  lemma TickNearer(states: seq<State>, cur: nat, t: nat)
    requires cur < |states| && t < |states| && states[t].Running?
    ensures var r := Next(states, cur);
            r.Some? && (r.value == t || Ahead(r.value, t, |states|) < Ahead(cur, t, |states|))
  {
    SearchAhead(states, cur, 1, t);
  }

  /** A tick panics exactly when no task at all is runnable. */
  lemma PanicExact(states: seq<State>, cur: nat)
    requires cur < |states|
    ensures Next(states, cur).None? <==> forall t :: 0 <= t < |states| ==> !states[t].Running?
  {
    if t :| 0 <= t < |states| && states[t].Running? {
      TickNearer(states, cur, t);
    }
  }

  /** The task current after each of a run of ticks; `history` holds the task states each tick finds. */
  function Current(history: seq<seq<State>>, n: nat, cur: nat, k: nat): (r: Option<nat>)
    requires cur < n && k <= |history| && forall i :: 0 <= i < |history| ==> |history[i]| == n
    ensures r.Some? ==> r.value < n
    decreases k
  {
    if k == 0 then Some(cur)
    else match Current(history, n, cur, k - 1)
      case None => None
      case Some(c) => Next(history[k - 1], c)
  }

  lemma {:induction false} Approaches(history: seq<seq<State>>, n: nat, cur: nat, t: nat, k: nat)
    requires cur < n && t < n && k <= |history|
    requires forall i :: 0 <= i < |history| ==> |history[i]| == n && history[i][t].Running?
    requires forall j :: 0 < j <= k ==> Current(history, n, cur, j) != Some(t)
    ensures var c := Current(history, n, cur, k);
            c.Some? && Ahead(c.value, t, n) + k <= Ahead(cur, t, n)
    decreases k
  {
    if k > 0 {
      Approaches(history, n, cur, t, k - 1);
      var c := Current(history, n, cur, k - 1).value;
      TickNearer(history[k - 1], c, t);
      assert Current(history, n, cur, k) == Next(history[k - 1], c);
    }
  }

  /**
   * Whatever the other tasks do, a task that stays runnable is selected within
   * its distance, and nothing panics on the way.
   */
  lemma Fair(history: seq<seq<State>>, n: nat, cur: nat, t: nat)
    requires cur < n && t < n && forall i :: 0 <= i < |history| ==> |history[i]| == n && history[i][t].Running?
    requires |history| >= Ahead(cur, t, n)
    ensures 1 <= Ahead(cur, t, n) <= n && (t != cur ==> Ahead(cur, t, n) < n)
    ensures exists k :: 1 <= k <= Ahead(cur, t, n) && Current(history, n, cur, k) == Some(t)
  {
    var d := Ahead(cur, t, n);
    if forall k :: 0 < k <= d ==> Current(history, n, cur, k) != Some(t) {
      Approaches(history, n, cur, t, d);
      assert false;
    }
  }

  /** g_tasks, g_task_count and g_cur_task. */
  class Table {
    const states: array<State>
    const ticks: array<nat>
    var count: nat
    var cur: Option<nat>

    ghost predicate Valid()
      reads this
    {
      count <= states.Length == ticks.Length && (cur.Some? ==> cur.value < count)
    }

    constructor (states: array<State>, ticks: array<nat>, count: nat, cur: Option<nat>)
      requires count <= states.Length == ticks.Length && (cur.Some? ==> cur.value < count)
      ensures Valid() && this.states == states && this.ticks == ticks && this.count == count && this.cur == cur
    {
      this.states, this.ticks, this.count, this.cur := states, ticks, count, cur;
    }

    /** sched_tick; the result says whether it returned rather than panicked. */
    method Tick() returns (ok: bool)
      requires Valid() && (states as object) != (ticks as object)
      modifies this`cur, ticks
      ensures Valid() && states[..] == old(states[..])
      ensures ok <==> old(cur).Some? && Next(states[..count], old(cur).value).Some?
      ensures ok ==> cur == Next(states[..count], old(cur).value)
      ensures !ok ==> cur == old(cur)
      ensures ticks[..] == if old(cur).Some? then old(ticks[..])[old(cur).value := old(ticks[cur.value]) + 1]
              else old(ticks[..])
    {
      if count <= 0 || cur.None? {
        return false;
      }
      var slot := cur.value;
      ticks[slot] := ticks[slot] + 1;
      ghost var live := states[..count];
      var i := 1;
      while i < count
        invariant 1 <= i <= count && cur == Some(slot) && states[..] == old(states[..])
        invariant Next(live, slot) == Search(live, slot, i)
        invariant ticks[..] == old(ticks[..])[slot := old(ticks[slot]) + 1]
      {
        var s := slot + i;
        if s >= count {
          s := s - count;
        }
        if states[s].Running? {
          cur := Some(s);
          return true;
        }
        i := i + 1;
      }
      return states[slot].Running?;
    }
  }
}
