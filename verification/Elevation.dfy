/** Time-boxed elevation: a sliding idle window, opened by a successful
    password check, refreshed by every use, and closed by lapsing or on request. */
module Elevation {
  import opened Text

  /** The last use and the idle timeout of an open window. */
  datatype Window = Window(last: nat, timeout: nat)

  /** What can happen, with clock readings. A check reads the clock once to test
      the window and again to refresh it. */
  datatype Event =
    | Elevate(accepted: bool, at: nat, timeout: nat)
    | Deescalate
    | Check(tested: nat, refreshed: nat)

  /** `Instant::elapsed` never goes negative. */
  function Elapsed(last: nat, now: nat): nat { if now < last then 0 else now - last }

  class ElevationState {
    var window: Option<Window>

    constructor ()
      ensures window == None
    {
      window := None;
    }

    /** A rejected password leaves the state alone. */
    method Elevate(accepted: bool, now: nat, timeout: nat) returns (ok: bool)
      modifies this
      ensures window == Step(old(window), Event.Elevate(accepted, now, timeout))
      ensures ok == accepted
    {
      if !accepted {
        return false;
      }
      window := Some(Window(now, timeout));
      ok := true;
    }

    method Deescalate()
      modifies this
      ensures window == Step(old(window), Event.Deescalate)
    {
      window := None;
    }

    method IsElevated(tested: nat, refreshed: nat) returns (open: bool)
      modifies this
      ensures window == Step(old(window), Check(tested, refreshed))
      ensures open == window.Some?
    {
      match window
      case Some(w) =>
        if Elapsed(w.last, tested) < w.timeout {
          window := Some(Window(refreshed, w.timeout));
          open := true;
        } else {
          window := None;
          open := false;
        }
      case None => open := false;
    }

    /** The command line actually run: through `sudo -n` when elevated. */
    method Run(program: string, args: seq<string>, tested: nat, refreshed: nat) returns (argv: seq<string>)
      modifies this
      ensures window == Step(old(window), Check(tested, refreshed))
      ensures argv == (if window.Some? then ["sudo", "-n"] else []) + [program] + args
    {
      var open := IsElevated(tested, refreshed);
      if open {
        argv := ["sudo", "-n"] + [program] + args;
      } else {
        argv := [] + [program] + args;
      }
    }
  }

  function Step(w: Option<Window>, e: Event): Option<Window> {
    match e
    case Elevate(accepted, at, timeout) => if accepted then Some(Window(at, timeout)) else w
    case Deescalate => None
    case Check(tested, refreshed) =>
      if w.Some? && Elapsed(w.value.last, tested) < w.value.timeout
      then Some(Window(refreshed, w.value.timeout)) else None
  }

  /** The state after a history, starting with no window. */
  function Replay(h: seq<Event>): Option<Window> {
    if h == [] then None else Step(Replay(h[..|h| - 1]), h[|h| - 1])
  }

  // ----- What the history says --------------------------------------------

  predicate Opens(e: Event) { e.Elevate? && e.accepted }

  /** The latest use before position `k` of a window opened at `i`. */
  function LastUse(h: seq<Event>, i: nat, k: nat): nat
    requires i < k <= |h| && Opens(h[i])
    decreases k
  {
    if k == i + 1 then h[i].at
    else if h[k - 1].Check? then h[k - 1].refreshed
    else LastUse(h, i, k - 1)
  }

  /** A use at `now` comes before the timeout has run out since `last`; a timeout
      of zero leaves no time at all, and a clock that went back leaves all of it. */
  predicate InTime(last: nat, now: nat, timeout: nat) { timeout > 0 && now < last + timeout }

  /** The window opened at `i` has not been replaced, closed, or left idle for
      its timeout between one use and the next. */
  predicate OpenSince(h: seq<Event>, i: nat) {
    && i < |h| && Opens(h[i])
    && (forall k :: i < k < |h| ==> !Opens(h[k]) && !h[k].Deescalate?)
    && forall k :: i < k < |h| && h[k].Check? ==> InTime(LastUse(h, i, k), h[k].tested, h[i].timeout)
  }

  predicate Elevated(h: seq<Event>) { exists i :: 0 <= i < |h| && OpenSince(h, i) }

  lemma {:induction false} LastUsePrefix(h: seq<Event>, g: seq<Event>, i: nat, k: nat)
    requires i < k <= |g| && g <= h && Opens(h[i])
    ensures LastUse(h, i, k) == LastUse(g, i, k)
    decreases k
  {
    if k > i + 1 {
      LastUsePrefix(h, g, i, k - 1);
    }
  }

  /** Adding one event to a history, seen from a window opened before it. */
  lemma OpenSinceExtended(h: seq<Event>, i: nat)
    requires h != [] && i < |h| - 1
    ensures var g, e := h[..|h| - 1], h[|h| - 1];
            OpenSince(h, i) <==>
            && OpenSince(g, i) && !Opens(e) && !e.Deescalate?
            && (e.Check? ==> InTime(LastUse(g, i, |g|), e.tested, g[i].timeout))
  {
    var g := h[..|h| - 1];
    if Opens(h[i]) {
      forall k | i < k <= |g| ensures LastUse(h, i, k) == LastUse(g, i, k) {
        LastUsePrefix(h, g, i, k);
      }
      assert forall k :: i < k < |g| ==> g[k] == h[k];
    }
  }

  /** The state machine agrees with the history: a window is held exactly when
      the history says one is open, with that elevation's timeout and the time
      of its latest use. */
  lemma {:induction false} ReplayMatchesHistory(h: seq<Event>)
    ensures Replay(h).Some? <==> Elevated(h)
    ensures forall i :: 0 <= i < |h| && OpenSince(h, i) ==>
              Replay(h) == Some(Window(LastUse(h, i, |h|), h[i].timeout))
  {
    if h == [] {
    } else {
      var g, e, n := h[..|h| - 1], h[|h| - 1], |h| - 1;
      ReplayMatchesHistory(g);
      forall i | 0 <= i < n
        ensures OpenSince(h, i) <==>
                && OpenSince(g, i) && !Opens(e) && !e.Deescalate?
                && (e.Check? ==> InTime(LastUse(g, i, n), e.tested, g[i].timeout))
        ensures OpenSince(h, i) ==> LastUse(h, i, |h|) == if e.Check? then e.refreshed else LastUse(g, i, n)
      {
        OpenSinceExtended(h, i);
        if OpenSince(h, i) {
          LastUsePrefix(h, g, i, n);
        }
      }
      if Opens(e) {
        assert OpenSince(h, n);
      } else if Elevated(g) {
        var i :| 0 <= i < |g| && OpenSince(g, i);
        assert OpenSince(h, i) <==> Replay(h).Some?;
        if Elevated(h) {
          var j :| 0 <= j < |h| && OpenSince(h, j);
          assert OpenSince(g, j);
        }
      }
    }
  }

  /** A command goes through sudo exactly when the history up to and including
      its own check has an accepted elevation with no later de-escalation and
      every idle gap since then below that elevation's timeout. */
  lemma SudoExactlyWhenElevated(h: seq<Event>, tested: nat, refreshed: nat)
    ensures Step(Replay(h), Check(tested, refreshed)).Some? <==> Elevated(h + [Check(tested, refreshed)])
  {
    var all := h + [Check(tested, refreshed)];
    assert all[..|all| - 1] == h;
    ReplayMatchesHistory(all);
  }

  /** Once not elevated, it stays so until the next accepted password. */
  lemma {:induction false} LapsedStaysLapsed(h: seq<Event>, more: seq<Event>)
    requires !Elevated(h)
    requires forall k :: 0 <= k < |more| ==> !Opens(more[k])
    ensures !Elevated(h + more)
  {
    if more == [] {
      assert h + more == h;
    } else {
      var n := |more| - 1;
      LapsedStaysLapsed(h, more[..n]);
      var all := h + more;
      assert all[..|all| - 1] == h + more[..n];
      ReplayMatchesHistory(h + more[..n]);
      ReplayMatchesHistory(all);
    }
  }
}
