/**
 * The Ctrl+C debounce of sigint_handler (malcrepl.c:55-56, 60-104): two
 * globals, the number of recent presses and the time of the last one. A
 * press more than two seconds after the previous one starts the count
 * afresh; the second press within the window ends the process. The clock
 * (`time(NULL)`) is the parameter `now`; installing the handler, the
 * messages and `exit` are not modelled, an exit is the result `exits`.
 */
module Interrupt {

  /** The handler's two globals. */
  datatype Presses = Presses(count: nat, last: int)

  /** `ctrl_c_count = 0` and `last_ctrl_c_time = 0` at start-up. */
  const Initial := Presses(0, 0)

  /** The state after a press at time `now`. */
  function Press(s: Presses, now: int): (r: Presses)
    ensures r.last == now
    ensures r.count == 1 <==> now - s.last > 2 || s.count == 0
    ensures r.count >= 2 <==> now - s.last <= 2 && s.count >= 1
  {
    Presses((if now - s.last > 2 then 0 else s.count) + 1, now)
  }

  /** The handler exits once the count reaches two. */
  predicate Exits(s: Presses) {
    s.count >= 2
  }

  /** The handler's globals, updated in place by each press. */
  class CtrlC {
    var count: nat
    var last: int

    constructor ()
      ensures State() == Initial
    {
      count := 0;
      last := 0;
    }

    function State(): Presses
      reads this
    {
      Presses(count, last)
    }

    /** One SIGINT: reset when stale, count the press, stamp it, and report whether the process exits. */
    method Handle(now: int) returns (exits: bool)
      modifies this
      ensures State() == Press(old(State()), now)
      ensures exits <==> Exits(State())
    {
      if now - last > 2 {
        count := 0;
      }
      count := count + 1;
      last := now;
      exits := count >= 2;
    }
  }

  /** The first press after start-up only warns, whatever the clock reads. */
  lemma FirstPressWarns(now: int)
    ensures !Exits(Press(Initial, now)) && Press(Initial, now).count == 1
  {
  }

  /**
   * While the process lives the count is at most one, and a press that
   * does not exit leaves it at exactly one.
   */
  lemma WarningLeavesOne(s: Presses, now: int)
    requires s.count <= 1 && !Exits(Press(s, now))
    ensures Press(s, now).count == 1
  {
  }

  /**
   * After a press at time t that only warned, the next press at time now
   * exits exactly when it comes at most two seconds later (or the clock
   * went back).
   */
  lemma SecondPressExits(s: Presses, t: int, now: int)
    requires s.count <= 1 && !Exits(Press(s, t))
    ensures Exits(Press(Press(s, t), now)) <==> now - t <= 2
  {
  }

  /** A press more than two seconds after the last one never exits. */
  lemma StalePressWarns(s: Presses, now: int)
    requires now - s.last > 2
    ensures !Exits(Press(s, now))
  {
  }

  /** The state after presses at the given times, in order. */
  function Run(s: Presses, times: seq<int>): Presses {
    if |times| == 0 then s else Press(Run(s, times[..|times| - 1]), times[|times| - 1])
  }

  /** The process survives a run when no press in it, counted from s, exits. */
  predicate Survives(s: Presses, times: seq<int>) {
    forall i | 0 < i <= |times| :: !Exits(Run(s, times[..i]))
  }

  /**
   * From start-up, any run of presses that the process survived leaves the
   * count at one (or zero for no press), and the next press exits exactly
   * when it is within two seconds of the last.
   */
  lemma {:induction false} SurvivedRun(times: seq<int>)
    requires Survives(Initial, times)
    ensures Run(Initial, times).count == if |times| == 0 then 0 else 1
    ensures forall now :: Exits(Press(Run(Initial, times), now)) <==> |times| > 0 && now - times[|times| - 1] <= 2
  {
    if |times| > 0 {
      var init := times[..|times| - 1];
      forall i | 0 < i <= |init|
        ensures !Exits(Run(Initial, init[..i]))
      {
        assert init[..i] == times[..i];
      }
      SurvivedRun(init);
      assert times[..|times|] == times;
      assert !Exits(Run(Initial, times));
    }
  }
}
