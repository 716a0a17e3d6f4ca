/**
 * Action application and trajectory execution of the pi0 integration
 * (lerobot/pi0-integration/motor_control.py).
 *
 * The robot is an actuator object: a list of follower arms, each with its
 * motors in enumeration order, and their Goal_Position registers. A ghost log
 * records every write attempt and every pacing sleep, in order.
 * The environment is an input:
 *   - `fails` is the set of Goal_Position write attempts, numbered from 0 in
 *     the order the robot sees them, that raise (a bus error, a rejected
 *     value), so any pattern of failures over a trajectory can be described;
 *   - `clock(k)` is the value of the k-th `time.time()` reading taken while
 *     executing a trajectory.
 */
module MotorControl {
  import opened Wrappers

  /** A follower arm: its motor names in enumeration order. */
  datatype Arm = Arm(motors: seq<string>)

  /** What the robot sees: a Goal_Position write attempt on arm `arm` (with whether it succeeded), or a pacing sleep. */
  datatype Event = GoalWrite(arm: nat, motor: string, value: real, ok: bool) | Sleep(seconds: real)

  /** One arm's Goal_Position registers after the successful writes of `events` addressed to that arm. */
  function GoalsAfter(goal: map<string, real>, events: seq<Event>, arm: nat): map<string, real>
    decreases |events|
  {
    if |events| == 0 then goal
    else
      var g := GoalsAfter(goal, events[..|events| - 1], arm);
      var e := events[|events| - 1];
      if e.GoalWrite? && e.ok && e.arm == arm then g[e.motor := e.value] else g
  }

  /** Replaying two stretches of the log one after the other is replaying their concatenation. */
  lemma {:induction false} GoalsAfterAppend(goal: map<string, real>, a: seq<Event>, b: seq<Event>, arm: nat)
    ensures GoalsAfter(goal, a + b, arm) == GoalsAfter(GoalsAfter(goal, a, arm), b, arm)
    decreases |b|
  {
    if |b| > 0 {
      assert (a + b)[..|a + b| - 1] == a + b[..|b| - 1];
      GoalsAfterAppend(goal, a, b[..|b| - 1], arm);
    } else {
      assert a + b == a;
    }
  }

  /** Events addressed to other arms leave an arm's registers as they were. */
  lemma {:induction false} GoalsAfterUntouched(goal: map<string, real>, events: seq<Event>, arm: nat)
    requires forall k :: 0 <= k < |events| ==> !(events[k].GoalWrite? && events[k].arm == arm)
    ensures GoalsAfter(goal, events, arm) == goal
    decreases |events|
  {
    if |events| > 0 {
      GoalsAfterUntouched(goal, events[..|events| - 1], arm);
    }
  }

  /** How many write attempts, successful or not, `events` records. */
  function WritesIn(events: seq<Event>): nat
    decreases |events|
  {
    if |events| == 0 then 0
    else WritesIn(events[..|events| - 1]) + (if events[|events| - 1].GoalWrite? then 1 else 0)
  }

  /** The write attempts in two stretches of the log add up. */
  lemma {:induction false} WritesInAppend(a: seq<Event>, b: seq<Event>)
    ensures WritesIn(a + b) == WritesIn(a) + WritesIn(b)
    decreases |b|
  {
    if |b| > 0 {
      assert (a + b)[..|a + b| - 1] == a + b[..|b| - 1];
      WritesInAppend(a, b[..|b| - 1]);
    } else {
      assert a + b == a;
    }
  }

  /** A stretch of the log made only of write attempts counts all its events. */
  lemma {:induction false} WritesInAllWrites(events: seq<Event>)
    requires forall k :: 0 <= k < |events| ==> events[k].GoalWrite?
    ensures WritesIn(events) == |events|
    decreases |events|
  {
    if |events| > 0 {
      WritesInAllWrites(events[..|events| - 1]);
    }
  }

  /** The robot: its follower arms, their Goal_Position registers, and the log of what was done to it. */
  class Robot {
    const arms: seq<Arm>
    /** The numbers of the write attempts on this robot that raise: the bus's behaviour, given as an input. */
    const fails: iset<nat>
    /** How many write attempts the robot has seen so far. */
    var attempts: nat
    var goals: seq<map<string, real>>
    ghost var log: seq<Event>
    ghost const initialGoals: seq<map<string, real>>

    /** Every arm's registers are its initial registers updated by exactly the successful writes in the log. */
    ghost predicate Valid()
      reads this
    {
      && |goals| == |arms|
      && |initialGoals| == |arms|
      && forall j :: 0 <= j < |arms| ==> goals[j] == GoalsAfter(initialGoals[j], log, j)
    }

    constructor (arms: seq<Arm>, fails: iset<nat>, goals: seq<map<string, real>>)
      requires |goals| == |arms|
      ensures Valid()
      ensures this.arms == arms && this.fails == fails && this.goals == goals
      ensures attempts == 0 && log == []
    {
      this.arms := arms;
      this.fails := fails;
      this.attempts := 0;
      this.goals := goals;
      this.initialGoals := goals;
      this.log := [];
    }

    /** `arm.write("Goal_Position", value, motor)`: raises exactly when this attempt is one that fails. */
    method WriteGoalPosition(arm: nat, motor: string, value: real) returns (ok: bool)
      requires Valid() && arm < |arms|
      modifies this
      ensures Valid()
      ensures ok <==> old(attempts) !in fails
      ensures attempts == old(attempts) + 1
      ensures log == old(log) + [GoalWrite(arm, motor, value, ok)]
      ensures goals == if ok then old(goals)[arm := old(goals)[arm][motor := value]] else old(goals)
    {
      ok := attempts !in fails;
      attempts := attempts + 1;
      var e := GoalWrite(arm, motor, value, ok);
      assert (log + [e])[..|log + [e]| - 1] == log;
      if ok {
        goals := goals[arm := goals[arm][motor := value]];
      }
      log := log + [e];
    }

    /** `time.sleep(seconds)`. */
    method Sleep(seconds: real)
      requires Valid() && seconds > 0.0
      modifies this
      ensures Valid()
      ensures log == old(log) + [Event.Sleep(seconds)]
      ensures goals == old(goals) && attempts == old(attempts)
    {
      var e := Event.Sleep(seconds);
      assert (log + [e])[..|log + [e]| - 1] == log;
      log := log + [e];
    }
  }

  /** Two register snapshots agree on every arm except possibly the first. */
  ghost predicate SameBeyondFirstArm(before: seq<map<string, real>>, after: seq<map<string, real>>)
  {
    |before| == |after| && forall j :: 1 <= j < |before| ==> before[j] == after[j]
  }

  // ---------------------------------------------------------------------------
  // One action step
  // ---------------------------------------------------------------------------

  function Min(a: nat, b: nat): nat
  {
    if a <= b then a else b
  }

  /** `action_step[:n]` when the step is longer than n values, the step unchanged otherwise. */
  function Truncate(step: seq<real>, n: nat): (p: seq<real>)
    ensures |p| == Min(|step|, n)
    ensures p == step[..|p|]
    ensures |step| <= n ==> p == step
  {
    if |step| > n then step[..n] else step
  }

  /** Among the n attempts numbered a, a+1, ..., the offset of the first that fails, or n when none fails. */
  function FirstFault(fails: iset<nat>, a: nat, n: nat): (f: nat)
    ensures f <= n
    ensures forall j :: a <= j < a + f ==> j !in fails
    ensures f < n ==> a + f in fails
  {
    if n == 0 then 0
    else
      var f := FirstFault(fails, a, n - 1);
      if f < n - 1 then f
      else if a + n - 1 in fails then n - 1
      else n
  }

  /** The three properties of `FirstFault` determine it. */
  lemma FirstFaultUnique(fails: iset<nat>, a: nat, n: nat, f: nat)
    requires f <= n
    requires forall j :: a <= j < a + f ==> j !in fails
    requires f < n ==> a + f in fails
    ensures FirstFault(fails, a, n) == f
  {
  }

  /** How many of n writes starting at attempt `a` are issued: through the first failing one, or all n. */
  function WriteCount(fails: iset<nat>, a: nat, n: nat): (c: nat)
    ensures c <= n
  {
    var f := FirstFault(fails, a, n);
    if f < n then f + 1 else n
  }

  /**
   * The writes one step issues to the first arm, starting at attempt `a`: the
   * k-th motor in enumeration order receives the k-th position with attempt
   * a + k, in order, for `min(#motors, #positions)` motors, stopping right
   * after the first failing write.
   */
  function StepWrites(motors: seq<string>, positions: seq<real>, fails: iset<nat>, a: nat): (w: seq<Event>)
  {
    var c := WriteCount(fails, a, Min(|motors|, |positions|));
    seq(c, k requires 0 <= k < c => GoalWrite(0, motors[k], positions[k], a + k !in fails))
  }

  /** The same writes as the `zip` loop inside `try` issues them: one pair at a time, the first exception ending the loop. */
  function ZipWrites(motors: seq<string>, positions: seq<real>, fails: iset<nat>, a: nat): seq<Event>
  {
    if |motors| == 0 || |positions| == 0 then []
    else if a in fails then [GoalWrite(0, motors[0], positions[0], false)]
    else [GoalWrite(0, motors[0], positions[0], true)] + ZipWrites(motors[1..], positions[1..], fails, a + 1)
  }

  /** A step whose first write does not fail writes it and then continues as a step over the remaining motors. */
  lemma StepWritesCons(motors: seq<string>, positions: seq<real>, fails: iset<nat>, a: nat)
    requires |motors| > 0 && |positions| > 0 && a !in fails
    ensures StepWrites(motors, positions, fails, a)
         == [GoalWrite(0, motors[0], positions[0], true)] + StepWrites(motors[1..], positions[1..], fails, a + 1)
  {
    WriteCountShift(fails, a, Min(|motors|, |positions|));
    var w, w' := StepWrites(motors, positions, fails, a), StepWrites(motors[1..], positions[1..], fails, a + 1);
    forall k | 1 <= k < |w|
      ensures w[k] == w'[k - 1]
    {
      assert motors[1..][k - 1] == motors[k] && positions[1..][k - 1] == positions[k];
    }
    assert w == [w[0]] + w';
  }

  /** The closed form of a step's writes agrees with the motor-by-motor loop. */
  lemma {:induction false} StepWritesAreZipWrites(motors: seq<string>, positions: seq<real>, fails: iset<nat>, a: nat)
    ensures StepWrites(motors, positions, fails, a) == ZipWrites(motors, positions, fails, a)
    decreases |positions|
  {
    if |motors| > 0 && |positions| > 0 {
      if a !in fails {
        StepWritesCons(motors, positions, fails, a);
        StepWritesAreZipWrites(motors[1..], positions[1..], fails, a + 1);
      } else {
        FirstFaultUnique(fails, a, Min(|motors|, |positions|), 0);
      }
    }
  }

  /** When attempt `a` succeeds, the count of writes issued from `a` is one more than the count from `a + 1`. */
  lemma WriteCountShift(fails: iset<nat>, a: nat, n: nat)
    requires n > 0 && a !in fails
    ensures WriteCount(fails, a, n) == WriteCount(fails, a + 1, n - 1) + 1
  {
    var f' := FirstFault(fails, a + 1, n - 1);
    assert forall j :: a <= j < a + f' + 1 ==> j !in fails by {
      forall j | a < j < a + f' + 1
        ensures j !in fails
      {
        assert a + 1 <= j < a + 1 + f';
      }
    }
    FirstFaultUnique(fails, a, n, f' + 1);
  }

  /** What one call of `apply_single_action` returned: a success flag, or an uncaught exception. */
  datatype StepResult = Done(ok: bool) | Raised

  /** The motor count the step uses: the one given, else that of the first follower arm, else none. */
  function MotorCount(arms: seq<Arm>, numMotors: Option<nat>): Option<nat>
  {
    if numMotors.Some? then numMotors
    else if |arms| > 0 then Some(|arms[0].motors|)
    else None
  }

  /** The writes `apply_single_action(robot, step, numMotors)` issues when the robot's next attempt is number `a`. */
  function StepLog(arms: seq<Arm>, step: seq<real>, numMotors: Option<nat>, fails: iset<nat>, a: nat): seq<Event>
  {
    match MotorCount(arms, numMotors)
    case None => []
    case Some(n) => if n == 0 || |arms| == 0 then [] else StepWrites(arms[0].motors, Truncate(step, n), fails, a)
  }

  /**
   * What `apply_single_action(robot, step, numMotors)` returns. With no motor
   * count and no arm, `len(action_step) > None` raises; with a count but no arm
   * the function falls off its end and returns `None`, which its caller reads
   * as failure, as it does `False`.
   */
  function StepOutcome(arms: seq<Arm>, step: seq<real>, numMotors: Option<nat>, fails: iset<nat>, a: nat): StepResult
  {
    match MotorCount(arms, numMotors)
    case None => Raised
    case Some(n) =>
      if n == 0 || |arms| == 0 then Done(false)
      else
        var z := Min(|arms[0].motors|, Min(|step|, n));
        Done(FirstFault(fails, a, z) == z)
  }

  /** With a motor count of zero the step fails without writing anything. */
  lemma StepWithoutMotors(arms: seq<Arm>, step: seq<real>, numMotors: Option<nat>, fails: iset<nat>, a: nat)
    requires MotorCount(arms, numMotors) == Some(0)
    ensures StepOutcome(arms, step, numMotors, fails, a) == Done(false)
    ensures StepLog(arms, step, numMotors, fails, a) == []
  {
  }

  /**
   * A step writes only the first arm; the k-th write goes to the k-th motor in
   * enumeration order with the k-th value of the step, and succeeds exactly
   * when attempt a + k does; the step succeeds exactly when all
   * `min(#motors, #values, count)` writes are issued and succeed; and when it
   * fails after writing, the last write is the only failing one.
   */
  lemma StepLogShape(arms: seq<Arm>, step: seq<real>, n: nat, fails: iset<nat>, a: nat)
    requires |arms| > 0 && n > 0
    ensures var w := StepLog(arms, step, Some(n), fails, a);
            var z := Min(|arms[0].motors|, Min(|step|, n));
            && |w| <= z
            && (forall k :: 0 <= k < |w| ==>
                  && w[k].GoalWrite? && w[k].arm == 0 && w[k].motor == arms[0].motors[k] && w[k].value == step[k]
                  && (w[k].ok <==> a + k !in fails))
            && (StepOutcome(arms, step, Some(n), fails, a) == Done(true) <==> |w| == z && forall k :: 0 <= k < |w| ==> w[k].ok)
            && (StepOutcome(arms, step, Some(n), fails, a) == Done(false) && |w| > 0 ==>
                  !w[|w| - 1].ok && forall k :: 0 <= k < |w| - 1 ==> w[k].ok)
  {
    var p := Truncate(step, n);
    var z := Min(|arms[0].motors|, Min(|step|, n));
    assert Min(|arms[0].motors|, |p|) == z;
    var w := StepLog(arms, step, Some(n), fails, a);
    assert w == StepWrites(arms[0].motors, p, fails, a);
    var f := FirstFault(fails, a, z);
    if f < z {
      assert |w| == f + 1 && !w[f].ok;
    }
    forall k | 0 <= k < |w|
      ensures w[k].value == step[k]
    {
      assert p[k] == step[k];
    }
  }

  /** A step writes only arm 0: every other arm's registers are left alone. */
  lemma StepLogFirstArmOnly(arms: seq<Arm>, step: seq<real>, numMotors: Option<nat>, fails: iset<nat>, a: nat)
    ensures forall k :: 0 <= k < |StepLog(arms, step, numMotors, fails, a)| ==>
              StepLog(arms, step, numMotors, fails, a)[k].GoalWrite? && StepLog(arms, step, numMotors, fails, a)[k].arm == 0
  {
  }

  /** After a successful step on an arm with distinct motor names, the k-th motor's goal is the k-th value. */
  lemma {:induction false} SuccessfulStepSetsGoals(motors: seq<string>, positions: seq<real>, fails: iset<nat>, a: nat,
                                                   goal: map<string, real>, k: nat)
    requires forall i, j :: 0 <= i < j < |motors| ==> motors[i] != motors[j]
    requires FirstFault(fails, a, Min(|motors|, |positions|)) == Min(|motors|, |positions|)
    requires k < Min(|motors|, |positions|)
    ensures motors[k] in GoalsAfter(goal, StepWrites(motors, positions, fails, a), 0)
    ensures GoalsAfter(goal, StepWrites(motors, positions, fails, a), 0)[motors[k]] == positions[k]
  {
    var w := StepWrites(motors, positions, fails, a);
    PrefixGoals(motors, positions, fails, a, goal, k, |w|);
    assert w[..|w|] == w;
  }

  /** After the first j writes of a successful step, motor k (k < j) holds value k. */
  lemma {:induction false} PrefixGoals(motors: seq<string>, positions: seq<real>, fails: iset<nat>, a: nat,
                                       goal: map<string, real>, k: nat, j: nat)
    requires forall i, i' :: 0 <= i < i' < |motors| ==> motors[i] != motors[i']
    requires FirstFault(fails, a, Min(|motors|, |positions|)) == Min(|motors|, |positions|)
    requires k < j <= |StepWrites(motors, positions, fails, a)|
    ensures motors[k] in GoalsAfter(goal, StepWrites(motors, positions, fails, a)[..j], 0)
    ensures GoalsAfter(goal, StepWrites(motors, positions, fails, a)[..j], 0)[motors[k]] == positions[k]
    decreases j
  {
    var w := StepWrites(motors, positions, fails, a);
    assert w[..j][..j - 1] == w[..j - 1];
    if k < j - 1 {
      PrefixGoals(motors, positions, fails, a, goal, k, j - 1);
    }
  }

  /**
   * The `try` block of `apply_single_action`: `zip` the first arm's motors with
   * the positions and write them one by one; an exception ends the loop.
   */
  method WriteFirstArm(robot: Robot, positions: seq<real>) returns (ok: bool)
    requires robot.Valid() && |robot.arms| > 0
    modifies robot
    ensures robot.Valid()
    ensures ok <==> FirstFault(robot.fails, old(robot.attempts), Min(|robot.arms[0].motors|, |positions|))
                      == Min(|robot.arms[0].motors|, |positions|)
    ensures robot.log == old(robot.log) + StepWrites(robot.arms[0].motors, positions, robot.fails, old(robot.attempts))
    ensures robot.attempts == old(robot.attempts) + |StepWrites(robot.arms[0].motors, positions, robot.fails, old(robot.attempts))|
    ensures SameBeyondFirstArm(old(robot.goals), robot.goals)
  {
    var motors := robot.arms[0].motors;
    ghost var a := robot.attempts;
    ghost var w := StepWrites(motors, positions, robot.fails, a);
    var k := 0;
    while k < |motors| && k < |positions|
      invariant k <= FirstFault(robot.fails, a, Min(|motors|, |positions|))
      invariant robot.Valid()
      invariant robot.attempts == a + k
      invariant robot.log == old(robot.log) + w[..k]
      invariant SameBeyondFirstArm(old(robot.goals), robot.goals)
    {
      StepWriteAt(motors, positions, robot.fails, a, k);
      var written := robot.WriteGoalPosition(0, motors[k], positions[k]);
      PrefixExtend(w, k);
      if !written {
        return false;
      }
      k := k + 1;
    }
    assert w[..k] == w;
    return true;
  }

  /** Extending a prefix of the writes by one; the last extension gives all of them. */
  lemma PrefixExtend(w: seq<Event>, k: nat)
    requires k < |w|
    ensures w[..k + 1] == w[..k] + [w[k]]
    ensures k + 1 == |w| ==> w[..k + 1] == w
  {
  }

  /**
   * The k-th write of a step whose first k writes succeeded: it is issued, with
   * attempt a + k; when it fails it is the step's last write, and when it
   * succeeds the first k + 1 writes have succeeded.
   */
  lemma StepWriteAt(motors: seq<string>, positions: seq<real>, fails: iset<nat>, a: nat, k: nat)
    requires k < Min(|motors|, |positions|) && k <= FirstFault(fails, a, Min(|motors|, |positions|))
    ensures k < |StepWrites(motors, positions, fails, a)|
    ensures StepWrites(motors, positions, fails, a)[k] == GoalWrite(0, motors[k], positions[k], a + k !in fails)
    ensures a + k in fails ==> |StepWrites(motors, positions, fails, a)| == k + 1
    ensures a + k !in fails ==> k + 1 <= FirstFault(fails, a, Min(|motors|, |positions|))
  {
  }

  /**
   * `apply_single_action(robot, action_step, num_motors)`: truncates the step
   * to the motor count, writes the first follower arm motor by motor in
   * enumeration order, and returns at the first failing write.
   */
  method ApplySingleAction(robot: Robot, step: seq<real>, numMotors: Option<nat>) returns (r: StepResult)
    requires robot.Valid()
    modifies robot
    ensures robot.Valid()
    ensures r == StepOutcome(robot.arms, step, numMotors, robot.fails, old(robot.attempts))
    ensures robot.log == old(robot.log) + StepLog(robot.arms, step, numMotors, robot.fails, old(robot.attempts))
    ensures robot.attempts == old(robot.attempts) + |StepLog(robot.arms, step, numMotors, robot.fails, old(robot.attempts))|
    ensures SameBeyondFirstArm(old(robot.goals), robot.goals)
  {
    var count := numMotors;
    if count.None? && |robot.arms| > 0 {
      count := Some(|robot.arms[0].motors|);
    }
    if count == Some(0) {
      return Done(false);
    }
    if count.None? {
      // `len(action_step) > None` raises TypeError
      return Raised;
    }
    var positions := if |step| > count.value then step[..count.value] else step;
    if |robot.arms| == 0 {
      // the loop over follower arms never runs and the function returns None
      return Done(false);
    }
    assert positions == Truncate(step, count.value);
    var ok := WriteFirstArm(robot, positions);
    return Done(ok);
  }

  // ---------------------------------------------------------------------------
  // A trajectory
  // ---------------------------------------------------------------------------

  /** `max(0, period - elapsed)`: the pacing sleep of a step that started at `start` and finished its writes at `end`. */
  function PaceSleep(period: real, start: real, end: real): (d: real)
    ensures d >= 0.0
    ensures d >= period - (end - start)
    ensures d == 0.0 || d == period - (end - start)
  {
    if period - (end - start) > 0.0 then period - (end - start) else 0.0
  }

  /**
   * A step whose writes took no longer than the period is padded to exactly
   * one period; a step that overran is not slept after at all; and no step is
   * slept after for longer than the period.
   */
  lemma PaceSleepBudget(period: real, start: real, end: real)
    ensures 0.0 <= end - start <= period ==> (end - start) + PaceSleep(period, start, end) == period
    ensures end - start >= period ==> PaceSleep(period, start, end) == 0.0
    ensures end - start >= 0.0 && period >= 0.0 ==> PaceSleep(period, start, end) <= period
  {
  }

  /** The sleep the code performs: `time.sleep` is only called for a positive duration. */
  function SleepLog(d: real): seq<Event>
  {
    if d > 0.0 then [Event.Sleep(d)] else []
  }

  /**
   * The robot's attempt counter when step i starts, had steps 0 .. i-1 all
   * run: the counter at the start of the trajectory plus their writes. Only
   * steps whose predecessors all succeeded run, so this is the counter of
   * every step that runs.
   */
  function StepStart(arms: seq<Arm>, fails: iset<nat>, actions: seq<seq<real>>, n: nat, a0: nat, i: nat): nat
    requires i <= |actions|
  {
    if i == 0 then a0
    else
      var s := StepStart(arms, fails, actions, n, a0, i - 1);
      s + |StepLog(arms, actions[i - 1], Some(n), fails, s)|
  }

  /** Step i + 1 starts where step i's writes leave the counter. */
  lemma StepStartNext(arms: seq<Arm>, fails: iset<nat>, actions: seq<seq<real>>, n: nat, a0: nat, i: nat)
    requires i < |actions|
    ensures StepStart(arms, fails, actions, n, a0, i + 1)
         == StepStart(arms, fails, actions, n, a0, i)
            + |StepLog(arms, actions[i], Some(n), fails, StepStart(arms, fails, actions, n, a0, i))|
  {
  }

  /** What step i does: its writes, then its pacing sleep timed from its own two clock readings, `2i` and `2i + 1`. */
  function StepBlock(arms: seq<Arm>, fails: iset<nat>, actions: seq<seq<real>>, n: nat, a0: nat,
                     period: real, clock: nat -> real, i: nat): seq<Event>
    requires i < |actions|
  {
    StepLog(arms, actions[i], Some(n), fails, StepStart(arms, fails, actions, n, a0, i))
      + SleepLog(PaceSleep(period, clock(2 * i), clock(2 * i + 1)))
  }

  predicate StepSucceeds(arms: seq<Arm>, fails: iset<nat>, actions: seq<seq<real>>, n: nat, a0: nat, i: nat)
    requires i < |actions|
  {
    StepOutcome(arms, actions[i], Some(n), fails, StepStart(arms, fails, actions, n, a0, i)) == Done(true)
  }

  /**
   * The executor's control flow over what each step would do (`blocks[i]`) and
   * whether it succeeds (`oks[i]`): step i runs, and step i+1 runs only if step
   * i succeeded.
   */
  function Run(blocks: seq<seq<Event>>, oks: seq<bool>, i: nat): seq<Event>
    requires |blocks| == |oks| && i <= |blocks|
    decreases |blocks| - i
  {
    if i == |blocks| then []
    else blocks[i] + (if oks[i] then Run(blocks, oks, i + 1) else [])
  }

  /** Blocks i up to (not including) j, one after the other, without any condition. */
  function Concat(blocks: seq<seq<Event>>, i: nat, j: nat): seq<Event>
    requires i <= j <= |blocks|
    decreases j - i
  {
    if i == j then [] else blocks[i] + Concat(blocks, i + 1, j)
  }

  /**
   * Short circuit: when step k is the first that fails, the run is exactly
   * steps i..k, the failing step included, and the steps after k never run.
   */
  lemma {:induction false} RunStopsAtFirstFailure(blocks: seq<seq<Event>>, oks: seq<bool>, i: nat, k: nat)
    requires |blocks| == |oks| && i <= k < |blocks|
    requires forall j :: i <= j < k ==> oks[j]
    requires !oks[k]
    ensures Run(blocks, oks, i) == Concat(blocks, i, k + 1)
    decreases k - i
  {
    if i < k {
      RunStopsAtFirstFailure(blocks, oks, i + 1, k);
    } else {
      assert Concat(blocks, k + 1, k + 1) == [];
    }
  }

  /** When every step succeeds, every step runs, in index order. */
  lemma {:induction false} RunAllSteps(blocks: seq<seq<Event>>, oks: seq<bool>, i: nat)
    requires |blocks| == |oks| && i <= |blocks|
    requires forall j :: i <= j < |blocks| ==> oks[j]
    ensures Run(blocks, oks, i) == Concat(blocks, i, |blocks|)
    decreases |blocks| - i
  {
    if i < |blocks| {
      RunAllSteps(blocks, oks, i + 1);
    }
  }

  /** Every event of a run is an event of one of the steps that ran. */
  lemma {:induction false} RunEventsFromBlocks(blocks: seq<seq<Event>>, oks: seq<bool>, i: nat, e: Event)
    requires |blocks| == |oks| && i <= |blocks|
    requires e in Run(blocks, oks, i)
    ensures exists j :: i <= j < |blocks| && e in blocks[j]
    decreases |blocks| - i
  {
    if e !in blocks[i] {
      RunEventsFromBlocks(blocks, oks, i + 1, e);
    }
  }

  /** A run from step i depends only on steps i, i+1, ...: what happened before does not change it. */
  lemma {:induction false} RunDependsOnLaterSteps(blocks: seq<seq<Event>>, oks: seq<bool>,
                                                  blocks': seq<seq<Event>>, oks': seq<bool>, i: nat)
    requires |blocks| == |oks| == |blocks'| == |oks'| && i <= |blocks|
    requires forall j :: i <= j < |blocks| ==> blocks[j] == blocks'[j] && oks[j] == oks'[j]
    ensures Run(blocks, oks, i) == Run(blocks', oks', i)
    decreases |blocks| - i
  {
    if i < |blocks| {
      RunDependsOnLaterSteps(blocks, oks, blocks', oks', i + 1);
    }
  }

  /** What every step of a trajectory would do, in index order. */
  function StepBlocks(arms: seq<Arm>, fails: iset<nat>, actions: seq<seq<real>>, n: nat, a0: nat,
                      period: real, clock: nat -> real): (b: seq<seq<Event>>)
    ensures |b| == |actions|
  {
    seq(|actions|, i requires 0 <= i < |actions| => StepBlock(arms, fails, actions, n, a0, period, clock, i))
  }

  /** Whether each step of a trajectory succeeds. */
  function StepOks(arms: seq<Arm>, fails: iset<nat>, actions: seq<seq<real>>, n: nat, a0: nat): (o: seq<bool>)
    ensures |o| == |actions|
  {
    seq(|actions|, i requires 0 <= i < |actions| => StepSucceeds(arms, fails, actions, n, a0, i))
  }

  /** The motor count `apply_trajectory` takes from the first follower arm, 0 without one. */
  function FirstArmMotorCount(arms: seq<Arm>): nat
  {
    if |arms| > 0 then |arms[0].motors| else 0
  }

  /** The one way `apply_trajectory` raises: a non-empty trajectory at 0 Hz divides by zero before any step. */
  predicate TrajectoryRaises(actions: seq<seq<real>>, hz: real)
  {
    |actions| > 0 && hz == 0.0
  }

  /** What `apply_trajectory(robot, actions, hz)` does to a robot whose next write attempt is number `a0`. */
  function TrajectoryLog(arms: seq<Arm>, fails: iset<nat>, a0: nat, actions: seq<seq<real>>, hz: real,
                         clock: nat -> real): seq<Event>
  {
    if |actions| == 0 || hz == 0.0 then []
    else
      var n := FirstArmMotorCount(arms);
      Run(StepBlocks(arms, fails, actions, n, a0, 1.0 / hz, clock), StepOks(arms, fails, actions, n, a0), 0)
  }

  /**
   * Steps run in index order; when step k is the first to fail, the
   * trajectory is steps 0..k, the failing step's writes and pacing sleep
   * included, and steps k+1..N-1 are never attempted.
   */
  lemma TrajectoryStopsAtFirstFailure(arms: seq<Arm>, fails: iset<nat>, a0: nat, actions: seq<seq<real>>,
                                      hz: real, clock: nat -> real, k: nat)
    requires hz != 0.0 && k < |actions|
    requires forall j :: 0 <= j < k ==> StepSucceeds(arms, fails, actions, FirstArmMotorCount(arms), a0, j)
    requires !StepSucceeds(arms, fails, actions, FirstArmMotorCount(arms), a0, k)
    ensures TrajectoryLog(arms, fails, a0, actions, hz, clock)
         == Concat(StepBlocks(arms, fails, actions, FirstArmMotorCount(arms), a0, 1.0 / hz, clock), 0, k + 1)
  {
    var n := FirstArmMotorCount(arms);
    var blocks, oks := StepBlocks(arms, fails, actions, n, a0, 1.0 / hz, clock), StepOks(arms, fails, actions, n, a0);
    assert TrajectoryLog(arms, fails, a0, actions, hz, clock) == Run(blocks, oks, 0);
    assert forall j :: 0 <= j < k ==> oks[j];
    RunStopsAtFirstFailure(blocks, oks, 0, k);
  }

  /**
   * Any step can be the first to fail, not only step 0: on a one-motor arm
   * whose second write attempt raises, a three-step trajectory of equal-length
   * steps writes step 0, sleeps, attempts step 1, sleeps, and stops.
   */
  lemma SecondStepFailsFirst(clock: nat -> real)
    requires forall k: nat :: clock(k) == 0.0
    ensures var arms, fails, actions := [Arm(["m"])], iset{1}, [[1.0], [2.0], [3.0]];
            && StepSucceeds(arms, fails, actions, 1, 0, 0)
            && !StepSucceeds(arms, fails, actions, 1, 0, 1)
            && TrajectoryLog(arms, fails, 0, actions, 20.0, clock)
               == [GoalWrite(0, "m", 1.0, true), Event.Sleep(1.0 / 20.0), GoalWrite(0, "m", 2.0, false), Event.Sleep(1.0 / 20.0)]
  {
    var arms, fails, actions := [Arm(["m"])], iset{1}, [[1.0], [2.0], [3.0]];
    assert FirstFault(fails, 0, 1) == 1;
    assert StepLog(arms, actions[0], Some(1), fails, 0) == [GoalWrite(0, "m", 1.0, true)];
    assert StepStart(arms, fails, actions, 1, 0, 1) == 1;
    assert FirstFault(fails, 1, 1) == 0;
    assert StepLog(arms, actions[1], Some(1), fails, 1) == [GoalWrite(0, "m", 2.0, false)];
    var blocks := StepBlocks(arms, fails, actions, 1, 0, 1.0 / 20.0, clock);
    assert blocks[0] == [GoalWrite(0, "m", 1.0, true), Event.Sleep(1.0 / 20.0)];
    assert blocks[1] == [GoalWrite(0, "m", 2.0, false), Event.Sleep(1.0 / 20.0)];
    TrajectoryStopsAtFirstFailure(arms, fails, 0, actions, 20.0, clock, 1);
    assert Concat(blocks, 2, 2) == [];
  }

  /** A step's pacing sleep, if any, is positive, and its writes address the first arm only. */
  lemma StepBlockEvents(arms: seq<Arm>, fails: iset<nat>, actions: seq<seq<real>>, n: nat, a0: nat,
                        period: real, clock: nat -> real, i: nat, e: Event)
    requires i < |actions| && e in StepBlock(arms, fails, actions, n, a0, period, clock, i)
    ensures e.Sleep? ==> e.seconds > 0.0
    ensures e.GoalWrite? ==> e.arm == 0
  {
    var w := StepLog(arms, actions[i], Some(n), fails, StepStart(arms, fails, actions, n, a0, i));
    if e in w {
      StepLogFirstArmOnly(arms, actions[i], Some(n), fails, StepStart(arms, fails, actions, n, a0, i));
      var k :| 0 <= k < |w| && w[k] == e;
    }
  }

  /** Every sleep of a trajectory is positive, and no write ever addresses an arm other than the first. */
  lemma TrajectoryEvents(arms: seq<Arm>, fails: iset<nat>, a0: nat, actions: seq<seq<real>>, hz: real,
                         clock: nat -> real, e: Event)
    requires e in TrajectoryLog(arms, fails, a0, actions, hz, clock)
    ensures e.Sleep? ==> e.seconds > 0.0
    ensures e.GoalWrite? ==> e.arm == 0
  {
    var n := FirstArmMotorCount(arms);
    var blocks := StepBlocks(arms, fails, actions, n, a0, 1.0 / hz, clock);
    RunEventsFromBlocks(blocks, StepOks(arms, fails, actions, n, a0), 0, e);
    var j :| 0 <= j < |blocks| && e in blocks[j];
    StepBlockEvents(arms, fails, actions, n, a0, 1.0 / hz, clock, j, e);
  }

  /** The clock with every reading from the `from`-th on delayed by `late` seconds. */
  function Delayed(clock: nat -> real, from: nat, late: real): nat -> real
  {
    (k: nat) => if k >= from then clock(k) + late else clock(k)
  }

  /**
   * No catch-up: however late step i starts (earlier steps overran by `late`
   * seconds, delaying every later clock reading), steps i, i+1, ... write and
   * sleep exactly as they would have on time; no sleep is shortened to make up
   * for the delay, because each step's sleep is timed from its own start.
   */
  lemma NoCatchUp(arms: seq<Arm>, fails: iset<nat>, actions: seq<seq<real>>, n: nat, a0: nat,
                  period: real, clock: nat -> real, i: nat, late: real)
    requires i <= |actions|
    ensures Run(StepBlocks(arms, fails, actions, n, a0, period, clock), StepOks(arms, fails, actions, n, a0), i)
         == Run(StepBlocks(arms, fails, actions, n, a0, period, Delayed(clock, 2 * i, late)), StepOks(arms, fails, actions, n, a0), i)
  {
    var later := Delayed(clock, 2 * i, late);
    var b, b' := StepBlocks(arms, fails, actions, n, a0, period, clock), StepBlocks(arms, fails, actions, n, a0, period, later);
    forall j | i <= j < |actions|
      ensures b[j] == b'[j]
    {
      assert later(2 * j + 1) - later(2 * j) == clock(2 * j + 1) - clock(2 * j);
    }
    RunDependsOnLaterSteps(b, StepOks(arms, fails, actions, n, a0), b', StepOks(arms, fails, actions, n, a0), i);
  }

  /** One more step of the executor loop keeps the log on course for the whole run. */
  lemma StepProgress(blocks: seq<seq<Event>>, oks: seq<bool>, before: seq<Event>, after: seq<Event>,
                     start: seq<Event>, i: nat, writes: seq<Event>, sleep: seq<Event>)
    requires |blocks| == |oks| && i < |blocks|
    requires start + Run(blocks, oks, 0) == before + Run(blocks, oks, i)
    requires blocks[i] == writes + sleep && after == before + writes + sleep
    ensures oks[i] ==> start + Run(blocks, oks, 0) == after + Run(blocks, oks, i + 1)
    ensures !oks[i] ==> start + Run(blocks, oks, 0) == after
  {
  }

  /** One pass of the executor loop, started at attempt `attempts`, keeps the log and the counter on course. */
  lemma TrajectoryStep(arms: seq<Arm>, fails: iset<nat>, actions: seq<seq<real>>, n: nat, a0: nat,
                       period: real, clock: nat -> real, i: nat,
                       start: seq<Event>, before: seq<Event>, after: seq<Event>, attempts: nat, success: bool)
    requires i < |actions|
    requires attempts == StepStart(arms, fails, actions, n, a0, i)
    requires start + Run(StepBlocks(arms, fails, actions, n, a0, period, clock), StepOks(arms, fails, actions, n, a0), 0)
          == before + Run(StepBlocks(arms, fails, actions, n, a0, period, clock), StepOks(arms, fails, actions, n, a0), i)
    requires after == before + StepLog(arms, actions[i], Some(n), fails, attempts)
                      + SleepLog(PaceSleep(period, clock(2 * i), clock(2 * i + 1)))
    requires success <==> StepOutcome(arms, actions[i], Some(n), fails, attempts) == Done(true)
    requires a0 + WritesIn(before) == attempts + WritesIn(start)
    ensures a0 + WritesIn(after) == attempts + |StepLog(arms, actions[i], Some(n), fails, attempts)| + WritesIn(start)
    ensures success ==>
      start + Run(StepBlocks(arms, fails, actions, n, a0, period, clock), StepOks(arms, fails, actions, n, a0), 0)
      == after + Run(StepBlocks(arms, fails, actions, n, a0, period, clock), StepOks(arms, fails, actions, n, a0), i + 1)
    ensures !success ==>
      start + Run(StepBlocks(arms, fails, actions, n, a0, period, clock), StepOks(arms, fails, actions, n, a0), 0) == after
    ensures attempts + |StepLog(arms, actions[i], Some(n), fails, attempts)| == StepStart(arms, fails, actions, n, a0, i + 1)
  {
    var blocks, oks := StepBlocks(arms, fails, actions, n, a0, period, clock), StepOks(arms, fails, actions, n, a0);
    assert oks[i] == success;
    StepProgress(blocks, oks, before, after, start, i,
                 StepLog(arms, actions[i], Some(n), fails, attempts), SleepLog(PaceSleep(period, clock(2 * i), clock(2 * i + 1))));
    StepStartNext(arms, fails, actions, n, a0, i);
    var w := StepLog(arms, actions[i], Some(n), fails, attempts);
    var d := SleepLog(PaceSleep(period, clock(2 * i), clock(2 * i + 1)));
    StepBlockWrites(arms, actions[i], n, fails, attempts, PaceSleep(period, clock(2 * i), clock(2 * i + 1)));
    WritesInAppend(before, w + d);
    assert after == before + (w + d);
  }

  /** A step and its pacing sleep make as many write attempts as the step issues writes. */
  lemma StepBlockWrites(arms: seq<Arm>, step: seq<real>, n: nat, fails: iset<nat>, a: nat, d: real)
    ensures WritesIn(StepLog(arms, step, Some(n), fails, a) + SleepLog(d)) == |StepLog(arms, step, Some(n), fails, a)|
  {
    var w := StepLog(arms, step, Some(n), fails, a);
    StepLogFirstArmOnly(arms, step, Some(n), fails, a);
    WritesInAllWrites(w);
    WritesInAppend(w, SleepLog(d));
  }

  /**
   * `apply_trajectory(robot, actions_array, hz)`: runs the steps in order,
   * timing each from its own start, sleeping `max(0, 1/hz - elapsed)` after
   * it, and stopping after the first step that fails.
   */
  method ApplyTrajectory(robot: Robot, actions: seq<seq<real>>, hz: real, clock: nat -> real) returns (raised: bool)
    requires robot.Valid()
    modifies robot
    ensures raised <==> TrajectoryRaises(actions, hz)
    ensures robot.Valid()
    ensures robot.log == old(robot.log) + TrajectoryLog(robot.arms, robot.fails, old(robot.attempts), actions, hz, clock)
    ensures robot.attempts == old(robot.attempts) + WritesIn(TrajectoryLog(robot.arms, robot.fails, old(robot.attempts), actions, hz, clock))
    ensures SameBeyondFirstArm(old(robot.goals), robot.goals)
  {
    if |actions| == 0 {
      return false;
    }
    var numMotors := 0;
    if |robot.arms| > 0 {
      numMotors := |robot.arms[0].motors|;
    }
    if hz == 0.0 {
      return true;
    }
    raised := false;
    var stepDuration := 1.0 / hz;
    ghost var a0 := robot.attempts;
    assert TrajectoryLog(robot.arms, robot.fails, a0, actions, hz, clock)
        == Run(StepBlocks(robot.arms, robot.fails, actions, numMotors, a0, stepDuration, clock),
               StepOks(robot.arms, robot.fails, actions, numMotors, a0), 0);
    RunSteps(robot, actions, numMotors, stepDuration, clock);
    WritesInAppend(old(robot.log), TrajectoryLog(robot.arms, robot.fails, a0, actions, hz, clock));
  }

  /** The `for` loop of `apply_trajectory` over a non-empty trajectory with a non-zero rate. */
  method RunSteps(robot: Robot, actions: seq<seq<real>>, numMotors: nat, stepDuration: real, clock: nat -> real)
    requires robot.Valid()
    modifies robot
    ensures robot.Valid()
    ensures robot.log == old(robot.log) + Run(StepBlocks(robot.arms, robot.fails, actions, numMotors, old(robot.attempts), stepDuration, clock),
                                              StepOks(robot.arms, robot.fails, actions, numMotors, old(robot.attempts)), 0)
    ensures old(robot.attempts) + WritesIn(robot.log) == robot.attempts + WritesIn(old(robot.log))
    ensures SameBeyondFirstArm(old(robot.goals), robot.goals)
  {
    ghost var a0 := robot.attempts;
    ghost var blocks := StepBlocks(robot.arms, robot.fails, actions, numMotors, a0, stepDuration, clock);
    ghost var oks := StepOks(robot.arms, robot.fails, actions, numMotors, a0);
    var i: nat := 0;
    while i < |actions|
      invariant 0 <= i <= |actions|
      invariant robot.Valid()
      invariant robot.attempts == StepStart(robot.arms, robot.fails, actions, numMotors, a0, i)
      invariant a0 + WritesIn(robot.log) == robot.attempts + WritesIn(old(robot.log))
      invariant old(robot.log) + Run(blocks, oks, 0) == robot.log + Run(blocks, oks, i)
      invariant SameBeyondFirstArm(old(robot.goals), robot.goals)
    {
      ghost var before := robot.log;
      ghost var start := robot.attempts;
      var success := ExecuteStep(robot, actions[i], numMotors, stepDuration, clock(2 * i), clock(2 * i + 1));
      TrajectoryStep(robot.arms, robot.fails, actions, numMotors, a0, stepDuration, clock, i,
                     old(robot.log), before, robot.log, start, success);
      if !success {
        break;
      }
      i := i + 1;
    }
  }

  /**
   * One pass of the `apply_trajectory` loop: read the clock, apply the step,
   * read the clock again, and sleep for what is left of the period.
   */
  method ExecuteStep(robot: Robot, step: seq<real>, numMotors: nat, period: real, startTime: real, endTime: real)
    returns (success: bool)
    requires robot.Valid()
    modifies robot
    ensures robot.Valid()
    ensures success <==> StepOutcome(robot.arms, step, Some(numMotors), robot.fails, old(robot.attempts)) == Done(true)
    ensures robot.log == old(robot.log) + StepLog(robot.arms, step, Some(numMotors), robot.fails, old(robot.attempts))
                         + SleepLog(PaceSleep(period, startTime, endTime))
    ensures robot.attempts == old(robot.attempts) + |StepLog(robot.arms, step, Some(numMotors), robot.fails, old(robot.attempts))|
    ensures SameBeyondFirstArm(old(robot.goals), robot.goals)
  {
    var r := ApplySingleAction(robot, step, Some(numMotors));
    var elapsed := endTime - startTime;
    var sleepTime := if period - elapsed > 0.0 then period - elapsed else 0.0;
    if sleepTime > 0.0 {
      robot.Sleep(sleepTime);
    }
    success := r == Done(true);
  }

  /** The key of the policy response that holds the trajectory. */
  const ActionsKey: string := "actions"

  /** What `apply_robot_action(robot, response, hz)` does: nothing without an `actions` entry or with an empty one. */
  function ResponseLog(arms: seq<Arm>, fails: iset<nat>, a0: nat, response: map<string, seq<seq<real>>>,
                       hz: real, clock: nat -> real): seq<Event>
  {
    if ActionsKey !in response || |response[ActionsKey]| == 0 then []
    else TrajectoryLog(arms, fails, a0, response[ActionsKey], hz, clock)
  }

  /** A trajectory that raises on its zero rate does so before its first write: the robot is left untouched. */
  lemma RaisingTrajectoryWritesNothing(arms: seq<Arm>, fails: iset<nat>, a0: nat, actions: seq<seq<real>>,
                                       hz: real, clock: nat -> real)
    requires TrajectoryRaises(actions, hz)
    ensures TrajectoryLog(arms, fails, a0, actions, hz, clock) == []
  {
  }

  /** A response without a trajectory, or with an empty one, performs no write and no sleep. */
  lemma NoTrajectoryNoEvents(arms: seq<Arm>, fails: iset<nat>, a0: nat, response: map<string, seq<seq<real>>>,
                             hz: real, clock: nat -> real)
    requires ActionsKey !in response || |response[ActionsKey]| == 0
    ensures ResponseLog(arms, fails, a0, response, hz, clock) == []
    ensures TrajectoryLog(arms, fails, a0, [], hz, clock) == []
  {
  }

  /**
   * `apply_robot_action(robot, response, hz)`: the response's other entries
   * are ignored; the `actions` trajectory, when present and non-empty, is run,
   * and a division by zero inside it propagates.
   */
  method ApplyRobotAction(robot: Robot, response: map<string, seq<seq<real>>>, hz: real, clock: nat -> real)
    returns (raised: bool)
    requires robot.Valid()
    modifies robot
    ensures raised <==> ActionsKey in response && TrajectoryRaises(response[ActionsKey], hz)
    ensures robot.Valid()
    ensures robot.log == old(robot.log) + ResponseLog(robot.arms, robot.fails, old(robot.attempts), response, hz, clock)
    ensures robot.attempts == old(robot.attempts) + WritesIn(ResponseLog(robot.arms, robot.fails, old(robot.attempts), response, hz, clock))
    ensures SameBeyondFirstArm(old(robot.goals), robot.goals)
  {
    if ActionsKey !in response {
      return false;
    }
    var actions := response[ActionsKey];
    if |actions| == 0 {
      return false;
    }
    raised := ApplyTrajectory(robot, actions, hz, clock);
  }
}
