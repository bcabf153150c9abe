/**
 * The `debounce` helper of book.js's selection handler, over an abstract
 * clock: each call cancels the pending timer and starts a new one for `wait`
 * time units; when a timer runs out, the wrapped function runs with the
 * arguments of the call that started it (unless `immediate`, in which case
 * it runs at the start of a burst instead). Real timers are replaced by
 * `AdvanceTo`, and the wrapped function's runs are recorded in `calls`.
 */
module Debounce {
  import opened Prelude

  /** A running timer: when it is due and the arguments its `later` closure captured. */
  datatype Timer<A> = Timer(due: int, args: A)

  class Debouncer<A> {
    const wait: nat
    const immediate: bool
    /** The current time. */
    var now: int
    /** The `timeout` variable: the pending timer, or null. */
    var timeout: Option<Timer<A>>
    /** The arguments of every run of the wrapped function so far, in order. */
    var calls: seq<A>

    /** A pending timer is due within one window from now. */
    ghost predicate Valid()
      reads this
    {
      timeout.Some? ==> now <= timeout.value.due <= now + wait
    }

    /** `debounce(f, wait, immediate)`: no timer yet, nothing run. */
    constructor (wait: nat, immediate: bool)
      ensures Valid()
      ensures this.wait == wait && this.immediate == immediate
      ensures now == 0 && timeout == None && calls == []
    {
      this.wait := wait;
      this.immediate := immediate;
      now := 0;
      timeout := None;
      calls := [];
    }

    /**
     * The debounced function is called: any pending timer is cancelled and a
     * new one starts for a full window; with `immediate`, the wrapped function
     * runs now if no timer was pending.
     */
    method Call(args: A)
      requires Valid()
      modifies this
      ensures Valid()
      ensures now == old(now)
      ensures timeout == Some(Timer(now + wait, args))
      ensures calls == if immediate && old(timeout).None? then old(calls) + [args] else old(calls)
    {
      var callNow := immediate && timeout.None?;
      if timeout.Some? {
        timeout := None;
      }
      timeout := Some(Timer(now + wait, args));
      if callNow {
        calls := calls + [args];
      }
    }

    /**
     * Time passes up to `t`. A timer due by then fires: `later` clears
     * `timeout` and, unless `immediate`, runs the wrapped function with the
     * captured arguments. Nothing else happens.
     */
    method AdvanceTo(t: int)
      requires Valid() && now <= t
      modifies this
      ensures Valid()
      ensures now == t
      ensures old(timeout).Some? && old(timeout).value.due <= t ==>
        timeout == None && calls == old(calls) + (if immediate then [] else [old(timeout).value.args])
      ensures !(old(timeout).Some? && old(timeout).value.due <= t) ==>
        timeout == old(timeout) && calls == old(calls)
    {
      if timeout.Some? && timeout.value.due <= t {
        var later := timeout.value;
        timeout := None;
        if !immediate {
          calls := calls + [later.args];
        }
      }
      now := t;
    }
  }

  /**
   * Five selection changes 50 time units apart, with the 1000-unit window of
   * the selection handler: nothing runs during the burst or before the window
   * has elapsed after the last change, and then exactly one run happens, with
   * the last change's arguments.
   */
  method BurstRunsOnce() returns (during: seq<int>, justBefore: seq<int>, after: seq<int>)
    ensures during == [] && justBefore == []
    ensures after == [5]
  {
    var d := new Debouncer<int>(1000, false);
    d.Call(1);
    d.AdvanceTo(50);
    d.Call(2);
    d.AdvanceTo(100);
    d.Call(3);
    d.AdvanceTo(150);
    d.Call(4);
    d.AdvanceTo(200);
    d.Call(5);
    during := d.calls;
    d.AdvanceTo(1199);
    justBefore := d.calls;
    d.AdvanceTo(1200);
    after := d.calls;
  }
}
