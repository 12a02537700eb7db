/** The one-second step of applications/Control/Control.c: which relays a thermostat
    switches, from what it measures and what it remembers. */
module Thermostat {

  const VALUE_NULL: int := -9999
  const MODULE_SLAVE: nat := 0
  const CONVENTIONAL: nat := 1
  const MODE_O: nat := 2
  const MODE_B: nat := 3

  datatype Direction = NoRun | Cooling | Heating

  datatype Relays = Relays(w: bool, y: bool, g: bool, w2: bool, y2: bool)

  const ALL_OFF := Relays(false, false, false, false, false)

  /** What a step reads; VALUE_NULL is a reading that is not there. */
  datatype Input = Input(
    time: nat, temperature: int, point: int, deadBand: nat, mode: nat, enabled: bool, connected: bool)

  /** The static variables of ControlProgram, the reported direction and the relays. */
  datatype Memory = Memory(
    lastTime: nat, lastTemp: int, stage: nat, direction: Direction, reported: Direction, relays: Relays)

  predicate Valid(i: Input) {
    i.temperature != VALUE_NULL && i.point != VALUE_NULL
  }

  /** Which way the temperature is off. */
  function Wanted(i: Input): Direction {
    var min := if i.point > i.deadBand then i.point - i.deadBand else 0;
    if i.temperature > i.point + i.deadBand then Cooling
    else if i.temperature < min then Heating
    else NoRun
  }

  function Abs(x: int): nat { if x < 0 then -x else x }

  /** The relays CtrlRelay leaves, enabled; other modes and stages change nothing. */
  function Switched(r: Relays, d: Direction, stage: nat, mode: nat): Relays {
    if d == NoRun || !(1 <= stage <= 2) || !(CONVENTIONAL <= mode <= MODE_B) then r
    else if d == Cooling then Relays(mode == MODE_O, true, true, false, stage == 2)
    else Relays(mode != MODE_O, mode != CONVENTIONAL, true, stage == 2, false)
  }

  /** ControlProgram */
  function Next(m: Memory, i: Input): Memory {
    if !Valid(i) || (!i.enabled && i.mode == MODULE_SLAVE) then m.(reported := NoRun, relays := ALL_OFF)
    else
      var d := Wanted(i);
      var off := if d == NoRun then m.(relays := ALL_OFF) else m;
      var turned := if m.direction != d then off.(lastTime := i.time, lastTemp := i.temperature, stage := 1, direction := d) else off;
      var staged :=
        if i.time > turned.lastTime + 300 && Abs(i.temperature - turned.lastTemp) <= 10 then turned.(stage := 2) else turned;
      if !i.connected && i.mode == MODULE_SLAVE then staged.(reported := NoRun, relays := ALL_OFF)
      else staged.(reported := d, relays := Switched(staged.relays, d, staged.stage, i.mode))
  }

  // ----- After one step

  /** In a wired mode the relays follow from direction, stage and mode alone. */
  lemma RelaysAreDetermined(m: Memory, i: Input)
    requires CONVENTIONAL <= i.mode <= MODE_B && 1 <= m.stage <= 2
    ensures var m' := Next(m, i);
      1 <= m'.stage <= 2 &&
      m'.relays == (if Valid(i) then Switched(ALL_OFF, Wanted(i), m'.stage, i.mode) else ALL_OFF) &&
      (m'.relays.g <==> m'.relays.w || m'.relays.y) && !(m'.relays.w2 && m'.relays.y2) &&
      (m'.relays.w2 ==> Valid(i) && Wanted(i) == Heating) && (m'.relays.y2 ==> Valid(i) && Wanted(i) == Cooling)
  {
  }

  // ----- Whole runs

  const START := Memory(0, 0, 1, NoRun, NoRun, ALL_OFF)

  /** Steps in a wired mode, which may change, while time does not run backwards. */
  ghost predicate Run(states: seq<Memory>, inputs: seq<Input>) {
    && |states| == |inputs| + 1 && states[0] == START
    && (forall k | 0 <= k < |inputs| :: states[k + 1] == Next(states[k], inputs[k]))
    && (forall k | 0 <= k < |inputs| :: CONVENTIONAL <= inputs[k].mode <= MODE_B)
    && (forall j, k | 0 <= j < k < |inputs| :: inputs[j].time <= inputs[k].time)
  }

  /** Since the recorded change of direction every valid reading asked for the recorded
      direction, and the second stage came more than 300 counts after it. */
  ghost predicate Steady(m: Memory, inputs: seq<Input>, k: nat)
    requires k <= |inputs|
  {
    && 1 <= m.stage <= 2
    && (forall j | 0 <= j < k && Valid(inputs[j]) && inputs[j].time > m.lastTime :: Wanted(inputs[j]) == m.direction)
    && (m.stage == 2 ==> k > 0 && inputs[k - 1].time > m.lastTime + 300)
    && (k > 0 && Valid(inputs[k - 1]) ==> m.direction == Wanted(inputs[k - 1]))
  }

  lemma {:induction false} RunsAreSteady(states: seq<Memory>, inputs: seq<Input>, k: nat)
    requires Run(states, inputs) && k <= |inputs|
    ensures Steady(states[k], inputs, k)
  {
    if k > 0 {
      RunsAreSteady(states, inputs, k - 1);
      assert k > 1 ==> inputs[k - 2].time <= inputs[k - 1].time;
      var m, i := states[k], inputs[k - 1];
      forall j | 0 <= j < k && Valid(inputs[j]) && inputs[j].time > m.lastTime
        ensures Wanted(inputs[j]) == m.direction
      {
        assert j < k - 1 ==> inputs[j].time <= i.time;
      }
    }
  }

  /** After every step of every run: W2 and Y2 are never both on and the fan runs exactly
      with W or Y; and the second stage is on only if for the last 300 counts and more
      every valid reading asked for the same direction. */
  lemma RunsAreSafe(states: seq<Memory>, inputs: seq<Input>, k: nat)
    requires Run(states, inputs) && 0 < k <= |inputs|
    ensures var r := states[k].relays; !(r.w2 && r.y2) && (r.g <==> r.w || r.y)
    ensures states[k].relays.w2 || states[k].relays.y2 ==>
      var now := inputs[k - 1];
      Valid(now) && now.time > states[k].lastTime + 300 &&
      Wanted(now) == (if states[k].relays.w2 then Heating else Cooling) &&
      forall j | 0 <= j < k && Valid(inputs[j]) && inputs[j].time + 300 >= now.time :: Wanted(inputs[j]) == Wanted(now)
  {
    RunsAreSteady(states, inputs, k - 1);
    RunsAreSteady(states, inputs, k);
    RelaysAreDetermined(states[k - 1], inputs[k - 1]);
  }

  // ----- The relays and the temperature

  /** Too warm is 1, too cold -1, and neither 0. */
  function Side(i: Input): (r: int)
    ensures -1 <= r <= 1
  {
    if i.temperature > i.point + i.deadBand then 1
    else if i.temperature < 0 || i.temperature < i.point - i.deadBand then -1
    else 0
  }

  /** After every step of every run: without a reading, and between the limits, all is off.
      Above the upper limit it cools, Y on and W2 off, with W on in mode O only.  Below the
      lower limit it heats, Y2 off, with W on except in mode O, and Y on except in mode 1. */
  lemma RelaysFollowTheTemperature(states: seq<Memory>, inputs: seq<Input>, k: nat)
    requires Run(states, inputs) && 0 < k <= |inputs|
    ensures var i, r := inputs[k - 1], states[k].relays;
      if i.temperature == -9999 || i.point == -9999 then !r.w && !r.y && !r.g && !r.w2 && !r.y2
      else if i.temperature > i.point + i.deadBand then r.y && r.g && !r.w2 && (r.w <==> i.mode == 2)
      else if i.temperature < 0 || i.temperature < i.point - i.deadBand then
        r.g && !r.y2 && (r.w <==> i.mode != 2) && (r.y <==> i.mode != 1)
      else !r.w && !r.y && !r.g && !r.w2 && !r.y2
  {
    RunsAreSteady(states, inputs, k - 1);
    RelaysAreDetermined(states[k - 1], inputs[k - 1]);
  }

  // ----- The second stage

  /** The side of the last valid reading before step j. */
  function SideBefore(inputs: seq<Input>, j: nat): (r: int)
    requires j <= |inputs|
    ensures -1 <= r <= 1
  {
    if j == 0 then 0 else if Valid(inputs[j - 1]) then Side(inputs[j - 1]) else SideBefore(inputs, j - 1)
  }

  /** Step j turns to another side, and no valid reading up to step k turns again. */
  ghost predicate TurnsAt(inputs: seq<Input>, j: nat, k: nat) {
    && j < k <= |inputs| && Valid(inputs[j]) && Side(inputs[j]) != SideBefore(inputs, j)
    && forall i | j < i < k && Valid(inputs[i]) :: Side(inputs[i]) == Side(inputs[j])
  }

  /** More than 300 counts after `turn` the temperature was still within 10 of it. */
  predicate Stuck(turn: Input, later: Input) {
    Valid(later) && later.time > turn.time + 300 && -10 <= later.temperature - turn.temperature <= 10
  }

  function Towards(side: int): Direction {
    if side > 0 then Cooling else if side < 0 then Heating else NoRun
  }

  lemma SideDecides(i: Input)
    ensures Wanted(i) == Towards(Side(i))
  {
  }

  lemma {:induction false} RemembersTheSide(states: seq<Memory>, inputs: seq<Input>, k: nat)
    requires Run(states, inputs) && k <= |inputs|
    ensures states[k].direction == Towards(SideBefore(inputs, k))
  {
    if k > 0 {
      RemembersTheSide(states, inputs, k - 1);
      SideDecides(inputs[k - 1]);
    }
  }

  lemma {:induction false} StageAfterTurn(states: seq<Memory>, inputs: seq<Input>, j: nat, k: nat)
    requires Run(states, inputs) && TurnsAt(inputs, j, k)
    ensures states[k].lastTime == inputs[j].time && states[k].lastTemp == inputs[j].temperature
    ensures states[k].direction == Towards(Side(inputs[j])) && 1 <= states[k].stage <= 2
    ensures states[k].stage == 2 <==> exists i | j <= i < k :: Stuck(inputs[j], inputs[i])
    decreases k
  {
    SideDecides(inputs[k - 1]);
    if k == j + 1 {
      RemembersTheSide(states, inputs, j);
      assert states[k] == Next(states[j], inputs[j]);
      assert !Stuck(inputs[j], inputs[j]);
    } else {
      StageAfterTurn(states, inputs, j, k - 1);
      assert states[k] == Next(states[k - 1], inputs[k - 1]);
      assert states[k].stage == 2 <==> states[k - 1].stage == 2 || Stuck(inputs[j], inputs[k - 1]);
    }
  }

  /** In every run the second stage, Y2 or W2, is on after a valid reading if and only if at
      some step since the readings turned to this side, more than 300 counts after the turn,
      the temperature was still within 10 of what it was then. */
  lemma SecondStageIsExact(states: seq<Memory>, inputs: seq<Input>, j: nat, k: nat)
    requires Run(states, inputs) && TurnsAt(inputs, j, k) && Valid(inputs[k - 1])
    ensures var stuck := exists i | j <= i < k :: Stuck(inputs[j], inputs[i]);
      && (states[k].relays.y2 <==> Side(inputs[j]) == 1 && stuck)
      && (states[k].relays.w2 <==> Side(inputs[j]) == -1 && stuck)
  {
    StageAfterTurn(states, inputs, j, k);
    RunsAreSteady(states, inputs, k - 1);
    RelaysAreDetermined(states[k - 1], inputs[k - 1]);
    SideDecides(inputs[k - 1]);
  }

  /** A reading on either side has such a turn behind it. */
  lemma {:induction false} TurnExists(inputs: seq<Input>, k: nat) returns (j: nat)
    requires k <= |inputs| && SideBefore(inputs, k) != 0
    ensures TurnsAt(inputs, j, k) && Side(inputs[j]) == SideBefore(inputs, k)
  {
    if Valid(inputs[k - 1]) && Side(inputs[k - 1]) != SideBefore(inputs, k - 1) {
      j := k - 1;
    } else {
      j := TurnExists(inputs, k - 1);
    }
  }

  /** One step in any mode: what is reported, and, in the modes that are not wired, that
      relays are switched off and never on. */
  lemma ReportsTheSide(m: Memory, i: Input)
    ensures var stopped := !Valid(i) || (i.mode == 0 && (!i.enabled || !i.connected));
      && Next(m, i).reported == (if stopped || Side(i) == 0 then NoRun else if Side(i) == 1 then Cooling else Heating)
      && (!(1 <= i.mode <= 3) ==>
            Next(m, i).relays == if stopped || Side(i) == 0 then Relays(false, false, false, false, false) else m.relays)
  {
    SideDecides(i);
  }

  // ----- The program

  class Program {
    var lastTime: nat
    var lastTemp: int
    var stage: nat
    var direction: Direction
    var reported: Direction
    var relays: Relays

    function Value(): Memory
      reads this
    {
      Memory(lastTime, lastTemp, stage, direction, reported, relays)
    }

    constructor ()
      ensures Value() == START
    {
      lastTime, lastTemp, stage, direction, reported, relays := 0, 0, 1, NoRun, NoRun, ALL_OFF;
    }

    /** CtrlRelay, enabled */
    method CtrlRelay(d: Direction, level: nat, mode: nat)
      modifies this`relays
      ensures relays == Switched(old(relays), d, level, mode)
    {
      if d == Cooling {
        if level == 1 {
          if mode == CONVENTIONAL {
            relays := relays.(y := true, g := true, w := false, w2 := false, y2 := false);
          } else if mode == MODE_O {
            relays := relays.(w := true, y := true, g := true, w2 := false, y2 := false);
          } else if mode == MODE_B {
            relays := relays.(y := true, g := true, w := false, w2 := false, y2 := false);
          }
        } else if level == 2 {
          if mode == CONVENTIONAL {
            relays := relays.(y := true, g := true, y2 := true, w := false, w2 := false);
          } else if mode == MODE_O {
            relays := relays.(w := true, y := true, g := true, y2 := true, w2 := false);
          } else if mode == MODE_B {
            relays := relays.(y := true, g := true, y2 := true, w := false, w2 := false);
          }
        }
      } else if d == Heating {
        if level == 1 {
          if mode == CONVENTIONAL {
            relays := relays.(w := true, g := true, y := false, y2 := false, w2 := false);
          } else if mode == MODE_O {
            relays := relays.(y := true, g := true, w := false, y2 := false, w2 := false);
          } else if mode == MODE_B {
            relays := relays.(w := true, y := true, g := true, y2 := false, w2 := false);
          }
        } else if level == 2 {
          if mode == CONVENTIONAL {
            relays := relays.(w := true, g := true, w2 := true, y := false, y2 := false);
          } else if mode == MODE_O {
            relays := relays.(y := true, g := true, w2 := true, w := false, y2 := false);
          } else if mode == MODE_B {
            relays := relays.(w := true, y := true, g := true, w2 := true, y2 := false);
          }
        }
      }
    }

    method Control(i: Input)
      modifies this
      ensures Value() == Next(old(Value()), i)
    {
      if i.temperature == VALUE_NULL || i.point == VALUE_NULL {
        reported := NoRun;
        relays := ALL_OFF;
        return;
      }
      if !i.enabled && i.mode == MODULE_SLAVE {
        reported := NoRun;
        relays := ALL_OFF;
        return;
      }
      var tempMin := if i.point > i.deadBand then i.point - i.deadBand else 0;
      var tempMax := i.point + i.deadBand;
      if i.temperature > tempMax {
        reported := Cooling;
      } else if i.temperature < tempMin {
        reported := Heating;
      } else {
        reported := NoRun;
        relays := ALL_OFF;
      }
      if direction != reported {
        lastTime := i.time;
        lastTemp := i.temperature;
        stage := 1;
        direction := reported;
      }
      if i.time > lastTime + 300 && Abs(i.temperature - lastTemp) <= 10 {
        stage := 2;
      }
      if !i.connected && i.mode == MODULE_SLAVE {
        reported := NoRun;
        relays := ALL_OFF;
      } else {
        CtrlRelay(reported, stage, i.mode);
      }
    }
  }
}
