/** The states of the service check: a service is up or down once enough checks in a row say so. */
module HealthCheck {

  datatype State = Init | Disabled | Rising | Falling | Up | Down

  /** How many successes make a service rise and how many failures make it fall. */
  datatype Options = Options(rise: int, fall: int)

  /** One iteration's observations: whether the disabling file exists, and what the check says. While
      disabled the check is not made. */
  datatype Input = Input(disabled: bool, passes: bool)

  function AtLeastOne(n: int): nat {
    if n < 1 then 1 else n
  }

  // ----- the closed form -----

  /** The iteration's outcome counts: it is not disabled, and does not just leave the disabled state. */
  predicate Counts(h: seq<Input>, i: nat)
    requires i < |h|
  {
    !h[i].disabled && (i > 0 ==> !h[i - 1].disabled)
  }

  /** The length of the run of equal outcomes at the end. */
  function Streak(h: seq<Input>): (n: nat)
    ensures n <= |h|
  {
    if h == [] || !Counts(h, |h| - 1) then 0
    else
      var init := h[..|h| - 1];
      if Streak(init) > 0 && init[|init| - 1].passes == h[|h| - 1].passes then Streak(init) + 1 else 1
  }

  /** The state after the observations `h`: disabled, just initialised, or what the current run of equal
      outcomes amounts to. */
  function StateAfter(h: seq<Input>, o: Options): State {
    if h == [] then Init
    else
      var last := h[|h| - 1];
      if last.disabled then Disabled
      else if !Counts(h, |h| - 1) then Init
      else if last.passes then (if Streak(h) >= AtLeastOne(o.rise) then Up else Rising)
      else (if Streak(h) >= AtLeastOne(o.fall) then Down else Falling)
  }

  /** A service is up or down exactly while the run of equal outcomes at the end is as long as asked for,
      and not empty; rising or falling while it is shorter. */
  lemma StateIff(h: seq<Input>, o: Options)
    requires h != []
    ensures var s, n, passes := StateAfter(h, o), Streak(h), h[|h| - 1].passes;
            && (s == Up <==> n > 0 && passes && n >= o.rise)
            && (s == Rising <==> n > 0 && passes && n < o.rise)
            && (s == Down <==> n > 0 && !passes && n >= o.fall)
            && (s == Falling <==> n > 0 && !passes && n < o.fall)
            && (s == Disabled <==> h[|h| - 1].disabled)
            && (s == Init <==> n == 0 && !h[|h| - 1].disabled)
  {
  }

  /** What a run is: all its outcomes count and are the same, and it reaches back as far as that holds. */
  lemma {:induction false} StreakIsMaximal(h: seq<Input>)
    ensures var n := Streak(h);
            && (forall i: nat | |h| - n <= i < |h| :: Counts(h, i) && h[i].passes == h[|h| - 1].passes)
            && (n < |h| && n > 0 ==>
                  !Counts(h, |h| - n - 1) || h[|h| - n - 1].passes != h[|h| - 1].passes)
            && (n == 0 && h != [] ==> !Counts(h, |h| - 1))
  {
    if h != [] && Counts(h, |h| - 1) {
      var init := h[..|h| - 1];
      StreakIsMaximal(init);
      assert forall i: nat | i < |init| :: Counts(init, i) <==> Counts(h, i);
      assert forall i: nat | i < |init| :: init[i] == h[i];
    }
  }

  /** A service that is up is declared down only by enough failed checks in a row since. */
  lemma DownNeedsFailures(h: seq<Input>, more: seq<Input>, o: Options)
    requires StateAfter(h, o) == Up && StateAfter(h + more, o) == Down
    ensures var n := if o.fall >= 1 then o.fall else 1;
            && n <= |more|
            && forall i: nat | |more| - n <= i < |more| :: !more[i].disabled && !more[i].passes
  {
    var all, n := h + more, AtLeastOne(o.fall);
    StreakIsMaximal(all);
    StreakIsMaximal(h);
    assert all[|h| - 1] == h[|h| - 1];
    assert forall i: nat | |all| - n <= i < |all| :: Counts(all, i) && !all[i].passes;
    assert forall i: nat | i < |more| :: more[i] == all[|h| + i];
  }

  /** Likewise a service that is down is declared up only by enough successful checks in a row since. */
  lemma UpNeedsSuccesses(h: seq<Input>, more: seq<Input>, o: Options)
    requires StateAfter(h, o) == Down && StateAfter(h + more, o) == Up
    ensures var n := if o.rise >= 1 then o.rise else 1;
            && n <= |more|
            && forall i: nat | |more| - n <= i < |more| :: !more[i].disabled && more[i].passes
  {
    var all, n := h + more, AtLeastOne(o.rise);
    StreakIsMaximal(all);
    StreakIsMaximal(h);
    assert all[|h| - 1] == h[|h| - 1];
    assert forall i: nat | |all| - n <= i < |all| :: Counts(all, i) && all[i].passes;
    assert forall i: nat | i < |more| :: more[i] == all[|h| + i];
  }

  /** One more observation, in terms of the state before it. */
  lemma NextState(h: seq<Input>, x: Input, o: Options)
    ensures var s, t := StateAfter(h, o), StateAfter(h + [x], o);
            var n, streak := Streak(h), Streak(h + [x]);
            && (x.disabled ==> t == Disabled)
            && (!x.disabled && s == Disabled ==> t == Init)
            && (!x.disabled && s != Disabled ==>
                  && (var continues := if x.passes then s == Rising || s == Up else s == Falling || s == Down;
                      streak == if continues then n + 1 else 1)
                  && t == if x.passes then (if streak >= AtLeastOne(o.rise) then Up else Rising)
                          else (if streak >= AtLeastOne(o.fall) then Down else Falling))
    ensures StateAfter(h, o) == Up ==> Streak(h) >= AtLeastOne(o.rise)
    ensures StateAfter(h, o) == Down ==> Streak(h) >= AtLeastOne(o.fall)
    ensures StateAfter(h, o) == Rising ==> 1 <= Streak(h) < AtLeastOne(o.rise)
    ensures StateAfter(h, o) == Falling ==> 1 <= Streak(h) < AtLeastOne(o.fall)
  {
  }

  // ----- the loop -----

  /** Enters a state; a first success or failure that is enough skips the state in between. */
  method Trigger(target: State, o: Options) returns (state: State)
    ensures target == Rising ==> state == if AtLeastOne(o.rise) == 1 then Up else Rising
    ensures target == Falling ==> state == if AtLeastOne(o.fall) == 1 then Down else Falling
    ensures target != Rising && target != Falling ==> state == target
  {
    state := target;
    if state == Rising && o.rise <= 1 {
      state := Up;
    } else if state == Falling && o.fall <= 1 {
      state := Down;
    }
  }

  /** The loop, for as long as there are observations: the states it goes through are those of the
      closed form. */
  method Loop(inputs: seq<Input>, o: Options) returns (states: seq<State>)
    ensures |states| == |inputs|
    ensures forall i: nat | i < |states| :: states[i] == StateAfter(inputs[..i + 1], o)
  {
    var state, checks := Init, 0;
    states := [];
    for i := 0 to |inputs|
      invariant |states| == i && forall j: nat | j < i :: states[j] == StateAfter(inputs[..j + 1], o)
      invariant state == StateAfter(inputs[..i], o)
      invariant state == Rising || state == Falling ==> checks == Streak(inputs[..i])
    {
      var disabled := inputs[i].disabled;
      var successful := disabled || inputs[i].passes;
      ghost var before, after := inputs[..i], inputs[..i + 1];
      assert after == before + [inputs[i]];
      NextState(before, inputs[i], o);
      hide StateAfter, Streak;
      if state != Disabled && disabled {
        state := Trigger(Disabled, o);
      } else if state == Init {
        if successful && o.rise <= 1 {
          state := Trigger(Up, o);
        } else if successful {
          state := Trigger(Rising, o);
          checks := 1;
        } else {
          state := Trigger(Falling, o);
          checks := 1;
        }
      } else if state == Disabled {
        if !disabled {
          state := Trigger(Init, o);
        }
      } else if state == Rising {
        if successful {
          checks := checks + 1;
          if checks >= o.rise {
            state := Trigger(Up, o);
          }
        } else {
          state := Trigger(Falling, o);
          checks := 1;
        }
      } else if state == Falling {
        if !successful {
          checks := checks + 1;
          if checks >= o.fall {
            state := Trigger(Down, o);
          }
        } else {
          state := Trigger(Rising, o);
          checks := 1;
        }
      } else if state == Up {
        if !successful {
          state := Trigger(Falling, o);
          checks := 1;
        }
      } else {
        if successful {
          state := Trigger(Rising, o);
          checks := 1;
        }
      }
      states := states + [state];
    }
  }
}
