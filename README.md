# SO-100 follower arm with a pi0 policy: a Dafny model

This project models three pieces of the SO-100 / pi0 integration in LeRobot:

- **Observation capture** (`lerobot/pi0-integration/robot_interface.py`). The
  follower arm's state vector is split into five joint values and a gripper
  value. Each is clipped to its calibrated range and mapped linearly onto
  [-1, 1]. Camera images are looked up by name, with a black 224×224×3 frame
  for a camera that is missing. Everything is assembled into the seven-key
  observation dictionary the pi0 server expects.
- **Action execution** (`lerobot/pi0-integration/motor_control.py`):
  - One action step is truncated to the motor count. Its values are written
    as Goal_Position, motor by motor in enumeration order, to the first
    follower arm only. The step stops at the first write that raises.
  - A trajectory runs its steps in order. Each step is paced to `1/hz` seconds
    by sleeping `max(0, 1/hz - elapsed)` after it. The trajectory stops after
    the first step that fails.
  - A policy response is run when it carries a non-empty `actions` entry.
- **Follower-motor diagnostics** (`lerobot/scripts/diagnose_follower_motors.py`):
  - the Feetech status-byte decoder;
  - the motor-ID guard of the interactive session;
  - the position tolerance behind its "did not reach target" warning.

The files:

- `wrappers.dfy`: an `Option` type. It stands for Python's `None` and for a
  call that raises.
- `robot_interface.dfy` (module `RobotInterface`): pure functions over reals
  and maps, plus two methods. `CollectImages` is the loop that fills the
  images dictionary. `CaptureRobotData` calls it and assembles the
  observation.
- `motor_control.dfy` (module `MotorControl`) is imperative:
  - The robot is a `Robot` object. It holds its arms (motor names in
    enumeration order) and the Goal_Position registers of every arm.
  - It counts its write attempts, and it keeps a ghost log of every write
    attempt and every sleep.
  - Whether a write raises is an input: `fails` is the set of attempt numbers
    that raise (a bus error, a rejected value). So any pattern of failures,
    transient or lasting, can be described.
  - `ApplySingleAction`, `ApplyTrajectory` and `ApplyRobotAction` are methods.
    `ApplySingleAction` writes through `WriteFirstArm`, whose loop is the
    `zip` over the first arm's motors. `ApplyTrajectory` runs the steps
    through `RunSteps`, whose loop is the `for` over the trajectory.
    `ApplyRobotAction` has no loop of its own; it calls `ApplyTrajectory`.
  - Each of the three is proved against a function that says what the robot
    sees (`StepLog`, `TrajectoryLog`, `ResponseLog`). Its ensures also state
    the new attempt counter. Lemmas state the properties of those functions.
  - The wall clock is an input: `clock(k)` is the k-th `time.time()` reading
    of a trajectory. Step i reads `clock(2i)` before its writes and
    `clock(2i+1)` after them.
- `diagnose_follower_motors.dfy` (module `DiagnoseFollowerMotors`):
  - `InterpretFeetechStatus` is the decoder's seven guarded appends, proved
    against `StatusMessage`.
  - `InteractiveSession` is the prompt loop over a given sequence of answers.
  - Bits follow Python's `&` on arbitrary integers. Formatting follows `str`
    and `format(_, '08b')`.

Where the comments and the code disagree, the model follows the code:

- Channel assignment. The comment above `process_images` in
  `capture_robot_data` says the laptop camera is the exterior view and the
  phone the wrist view. The code assigns `wrist_image` from "laptop" and
  `exterior_image` from "phone". The model does the same
  (`ExteriorCamera == "phone"`, `WristCamera == "laptop"`).
- Denormalisation. The comment on the ranges speaks of a matching
  denormalisation in `motor_control.py`. That file sends the policy's values
  to the motors unchanged. The model does the same, and it has no per-channel
  rescaling of actions and no gripper-index fallback. `DenormalizeChannel` is
  only a ghost reference inverse that states the round trip of the
  normalisation.
- Arm selection. `apply_single_action` returns from inside its loop over
  arms, so it only ever writes the first arm, although the comment speaks of
  sending to each follower arm.

For a sample reading: the state `[0, 100, -50, 0, 0, 25]` normalises to joints
`[0, 1/201, 3/7, 19/21, 0]` and gripper `[0]`, as the ranges in the code give
(`ExampleState`).

A robot without follower arms meets `apply_single_action` in three ways:

- With no motor count, `len(action_step) > None` raises `TypeError`
  (`StepResult.Raised`).
- `apply_trajectory` passes a count of 0 in that case. So the step returns
  `False` without any write (`StepWithoutMotors`).
- With a positive count, the loop over arms never runs and the function
  returns `None`. That value counts as failure (`Done(false)`). No caller in
  this code passes such a count.

## Model

| member | source | states |
|---|---|---|
| RobotInterface.RangesWellFormed | lerobot/pi0-integration/robot_interface.py:10-18 | five joint ranges and one gripper range, each with min strictly below max, so no normalisation divides by zero |
| RobotInterface.Clip | lerobot/pi0-integration/robot_interface.py:27 | `np.clip` of a value: inside [lo, hi], unchanged when already inside, equal to the nearer bound when outside |
| RobotInterface.ClipMonotone | lerobot/pi0-integration/robot_interface.py:27 | clipping preserves the order of its inputs |
| RobotInterface.NormalizeChannel | lerobot/pi0-integration/robot_interface.py:27-30 | a clipped min-max map: result in [-1, 1], -1 at or below min, 1 at or above max |
| RobotInterface.NormalizeChannelMonotone | lerobot/pi0-integration/robot_interface.py:21-32 | normalisation preserves the order of positions |
| RobotInterface.NormalizeChannelMidpoint | lerobot/pi0-integration/robot_interface.py:30 | the middle of a range maps to 0 |
| RobotInterface.NormalizeChannelRoundTrip | lerobot/pi0-integration/robot_interface.py:21-32 | for a position inside the range, the reference inverse recovers it from its normalisation |
| RobotInterface.DenormalizeChannelRoundTrip | lerobot/pi0-integration/robot_interface.py:21-32 | for every n in [-1, 1], the reference inverse gives a position in the range whose normalisation is n |
| RobotInterface.Broadcast | lerobot/pi0-integration/robot_interface.py:27 | numpy broadcasting against the five-entry range arrays: a five-vector is used as is, a one-vector is repeated, any other length raises |
| RobotInterface.NormalizeJointPosition | lerobot/pi0-integration/robot_interface.py:21-32 | defined exactly for vectors of 5 or 1 values; gives five values, each in [-1, 1] |
| RobotInterface.NormalizeJointPositionAt | lerobot/pi0-integration/robot_interface.py:27-30 | output i is joint i's value normalised against joint i's own range; a one-value vector is broadcast, so output i is that value normalised against joint i's range |
| RobotInterface.NormalizeJointPositionEndpoints | lerobot/pi0-integration/robot_interface.py:27-30 | a joint at or beyond its min maps to -1, at or beyond its max to 1; for a one-value vector that value is compared with every joint's range |
| RobotInterface.NormalizeJointPositionMonotone | lerobot/pi0-integration/robot_interface.py:21-32 | raising one joint's position, or the one value of a broadcast vector, never lowers its normalised value |
| RobotInterface.NormalizeGripperPosition | lerobot/pi0-integration/robot_interface.py:35-46 | defined exactly for a non-empty vector; gives one value in [-1, 1], -1 at or below 0 and 1 at or above 50 |
| RobotInterface.NormalizeGripperReadsFirst | lerobot/pi0-integration/robot_interface.py:41 | only the first entry of the gripper vector matters |
| RobotInterface.GripperMidpoint | lerobot/pi0-integration/robot_interface.py:35-46 | a half-open gripper (25) normalises to [0] |
| RobotInterface.SplitState | lerobot/pi0-integration/robot_interface.py:96-98 | `s[:-1]` and `s[-1:]`: the parts concatenate back to the state; the gripper part is the last value, or empty for an empty state |
| RobotInterface.ExampleState | lerobot/pi0-integration/robot_interface.py:96-105 | the example state [0, 100, -50, 0, 0, 25] normalises to joints [0, 1/201, 3/7, 19/21, 0] and gripper [0] |
| RobotInterface.ZeroFrame | lerobot/pi0-integration/robot_interface.py:67 | `np.zeros(shape)`: the given shape, every pixel 0 |
| RobotInterface.ZeroVector | lerobot/pi0-integration/robot_interface.py:141-142 | `np.zeros_like` of a vector of length n: n values, each 0 |
| RobotInterface.ProcessImages | lerobot/pi0-integration/robot_interface.py:65-74 | a missing or `None` camera gives the zero frame; a present one is resized to (d0, d1): its pixels are the resampler's output for that size, and its shape becomes (d1, d0, channels of the image) |
| RobotInterface.CameraImages | lerobot/pi0-integration/robot_interface.py:110-115 | the images dictionary built from the configured cameras (properties in `CameraImagesContents`) |
| RobotInterface.CameraKey | lerobot/pi0-integration/robot_interface.py:113 | the key `observation.images.<name>` under which a camera's frame is captured (properties in `CameraImagesContents`) |
| RobotInterface.CollectImages | lerobot/pi0-integration/robot_interface.py:110-115 | the camera loop builds exactly `CameraImages` |
| RobotInterface.CameraImagesContents | lerobot/pi0-integration/robot_interface.py:110-115 | a camera is in the images dictionary exactly when it is configured and its `observation.images.<name>` entry was captured, with that entry as its image |
| RobotInterface.CameraImagesAppend | lerobot/pi0-integration/robot_interface.py:111-115 | visiting one more camera adds at most that camera and changes nothing else |
| RobotInterface.MissingCameraIsZeroFrame | lerobot/pi0-integration/robot_interface.py:110-119 | a camera that is not configured or not captured yields the black default frame |
| RobotInterface.AssembleObservation | lerobot/pi0-integration/robot_interface.py:130-146 | exactly the seven observation keys, each with its value; velocities are zero vectors shaped like the positions |
| RobotInterface.ObservationOf | lerobot/pi0-integration/robot_interface.py:77-148 | the observation of a state and images, `None` when normalisation raises (properties in `ObservationShape`) |
| RobotInterface.ObservationShape | lerobot/pi0-integration/robot_interface.py:77-148 | an observation exists exactly for states of 6 (or 2) values; then it has the seven keys, `s[:-1]` normalised as the five joints (each in [-1, 1]), the last state value normalised as gripper, zero velocities, the "phone" frame as exterior and the "laptop" frame as wrist, and the prompt unchanged |
| RobotInterface.CaptureRobotData | lerobot/pi0-integration/robot_interface.py:77-148 | the result is the observation `ObservationOf` describes for the images `CameraImages` gives, whatever the display callback does |
| MotorControl.Robot.WriteGoalPosition | lerobot/pi0-integration/motor_control.py:41 | one Goal_Position write: raises exactly when its attempt number is one that fails, counts as one attempt, is logged, and on success updates that register only |
| MotorControl.Robot.Sleep | lerobot/pi0-integration/motor_control.py:85-86 | a sleep is logged with its duration and changes no register |
| MotorControl.GoalsAfter | lerobot/pi0-integration/motor_control.py:41 | an arm's registers after replaying the log: each successful write to that arm sets its motor, nothing else does (properties in `GoalsAfterAppend`, `GoalsAfterUntouched`) |
| MotorControl.GoalsAfterAppend | lerobot/pi0-integration/motor_control.py:37-45 | replaying two stretches of the log one after the other is replaying their concatenation |
| MotorControl.GoalsAfterUntouched | lerobot/pi0-integration/motor_control.py:37-45 | events addressed to other arms leave an arm's registers unchanged |
| MotorControl.WritesIn | lerobot/pi0-integration/motor_control.py:41 | the number of write attempts, failed ones included, in a stretch of the log (properties in `WritesInAppend`, `WritesInAllWrites`) |
| MotorControl.WritesInAppend | lerobot/pi0-integration/motor_control.py:37-45 | the write attempts of two stretches of the log add up |
| MotorControl.WritesInAllWrites | lerobot/pi0-integration/motor_control.py:37-45 | a stretch made only of writes counts every event |
| MotorControl.MotorCount | lerobot/pi0-integration/motor_control.py:16-20 | the given count, else the first arm's motor count, else none when there is no arm (properties in `StepWithoutMotors`, `StepLogShape`, `ApplySingleAction`) |
| MotorControl.Truncate | lerobot/pi0-integration/motor_control.py:26-31 | the step cut to `min(len, n)` values, a prefix of the step, unchanged when not longer than n |
| MotorControl.FirstFault | lerobot/pi0-integration/motor_control.py:38-45 | among n write attempts from attempt a, the offset of the first that raises, or n: every attempt before it succeeds, the one at it fails |
| MotorControl.FirstFaultUnique | lerobot/pi0-integration/motor_control.py:38-45 | those three properties determine the first failing attempt |
| MotorControl.WriteCount | lerobot/pi0-integration/motor_control.py:38-45 | a step issues at most n writes |
| MotorControl.WriteCountShift | lerobot/pi0-integration/motor_control.py:40-41 | when the first attempt succeeds, the step issues one write more than a step over the remaining motors from the next attempt |
| MotorControl.StepWrites | lerobot/pi0-integration/motor_control.py:37-45 | the writes of one step in closed form: one per motor and position pair up to and including the first that raises (properties in `StepWritesAreZipWrites`, `StepWriteAt`, `StepLogShape`) |
| MotorControl.ZipWrites | lerobot/pi0-integration/motor_control.py:37-45 | the `zip` loop written as recursion: write the first pair, stop if it raised, otherwise go on from the next attempt (properties in `StepWritesAreZipWrites`) |
| MotorControl.StepWritesCons | lerobot/pi0-integration/motor_control.py:40-41 | a step whose first write succeeds is that write followed by a step over the remaining motors and positions |
| MotorControl.StepWritesAreZipWrites | lerobot/pi0-integration/motor_control.py:37-45 | the closed form of a step's writes equals the `zip` loop that a raised exception ends |
| MotorControl.StepLog | lerobot/pi0-integration/motor_control.py:5-45 | what one step writes: nothing with no count or a zero count, otherwise the first arm's writes for the truncated step (properties in `StepLogShape`) |
| MotorControl.StepOutcome | lerobot/pi0-integration/motor_control.py:5-45 | what one step returns: raises with no count and no arm, fails for a zero count or no arm, otherwise succeeds exactly when none of its writes raises (properties in `StepLogShape`) |
| MotorControl.StepWithoutMotors | lerobot/pi0-integration/motor_control.py:22-24 | a motor count of 0 fails the step without any write |
| MotorControl.StepLogShape | lerobot/pi0-integration/motor_control.py:26-45 | write k goes to the first arm's k-th motor with the step's k-th value and succeeds exactly when attempt a + k does, for at most `min(motors, values, count)` writes; the step succeeds exactly when all of them are issued and succeed; on failure only the last write failed |
| MotorControl.StepLogFirstArmOnly | lerobot/pi0-integration/motor_control.py:36-45 | every write of a step addresses the first follower arm |
| MotorControl.SuccessfulStepSetsGoals | lerobot/pi0-integration/motor_control.py:40-42 | after a successful step on distinct motors, the k-th motor's goal is the k-th position |
| MotorControl.StepWriteAt | lerobot/pi0-integration/motor_control.py:40-45 | once the first k writes succeeded, write k is issued with attempt a + k; if it raises it is the step's last write |
| MotorControl.WriteFirstArm | lerobot/pi0-integration/motor_control.py:37-45 | the write loop issues exactly the step's writes, one attempt each, reports success exactly when no write failed, and leaves every other arm's registers alone |
| MotorControl.ApplySingleAction | lerobot/pi0-integration/motor_control.py:5-45 | the result and the writes are those of `StepOutcome` and `StepLog`: count detection, zero-count failure, `TypeError` with no count and no arm, truncation, first-arm writes |
| MotorControl.PaceSleep | lerobot/pi0-integration/motor_control.py:82-83 | `max(0, period - elapsed)`: never negative, never less than `period - elapsed`, and one of the two |
| MotorControl.PaceSleepBudget | lerobot/pi0-integration/motor_control.py:69-86 | a step that took no longer than the period is padded to exactly one period; one that overran gets no sleep; no sleep exceeds the period |
| MotorControl.SleepLog | lerobot/pi0-integration/motor_control.py:85-86 | `time.sleep` only for a positive duration (properties in `StepBlockEvents`) |
| MotorControl.StepStart | lerobot/pi0-integration/motor_control.py:73-79 | the attempt counter at the start of step i (properties in `StepStartNext`) |
| MotorControl.StepStartNext | lerobot/pi0-integration/motor_control.py:73-79 | step i + 1 starts at the attempt after step i's last write |
| MotorControl.StepBlock | lerobot/pi0-integration/motor_control.py:74-86 | what step i does: its writes, then its pacing sleep from its own two clock readings (properties in `StepBlockEvents`, `NoCatchUp`, `StepBlockWrites`) |
| MotorControl.StepBlockWrites | lerobot/pi0-integration/motor_control.py:74-86 | a step and its sleep contain exactly as many write attempts as the step issues writes |
| MotorControl.StepSucceeds | lerobot/pi0-integration/motor_control.py:79-96 | whether step i, started at its attempt number, returns success (properties in `TrajectoryStopsAtFirstFailure`) |
| MotorControl.StepBlocks | lerobot/pi0-integration/motor_control.py:73-86 | one block per step of the trajectory |
| MotorControl.StepOks | lerobot/pi0-integration/motor_control.py:79-96 | one outcome per step of the trajectory |
| MotorControl.Run | lerobot/pi0-integration/motor_control.py:73-96 | the loop's control flow: from step i, that block, then the rest only when step i succeeded (properties in `RunStopsAtFirstFailure`, `RunAllSteps`, `RunEventsFromBlocks`, `RunDependsOnLaterSteps`) |
| MotorControl.Concat | lerobot/pi0-integration/motor_control.py:73-96 | blocks i to j - 1 one after the other (properties in `RunStopsAtFirstFailure`, `RunAllSteps`) |
| MotorControl.StepProgress | lerobot/pi0-integration/motor_control.py:73-96 | one more block keeps the log on course for the run, and a failed step ends it |
| MotorControl.RunStopsAtFirstFailure | lerobot/pi0-integration/motor_control.py:73-96 | when step k is the first to fail, steps 0..k run, k included, and nothing after |
| MotorControl.RunAllSteps | lerobot/pi0-integration/motor_control.py:73-96 | when every step succeeds, all steps run in index order |
| MotorControl.RunEventsFromBlocks | lerobot/pi0-integration/motor_control.py:73-96 | every event of a run belongs to one of its steps |
| MotorControl.RunDependsOnLaterSteps | lerobot/pi0-integration/motor_control.py:73-96 | the run from step i depends only on steps i and later |
| MotorControl.TrajectoryStopsAtFirstFailure | lerobot/pi0-integration/motor_control.py:73-96 | a trajectory whose step k is the first to fail performs steps 0..k, each with its writes and its pacing sleep, and never attempts a later step |
| MotorControl.SecondStepFailsFirst | lerobot/pi0-integration/motor_control.py:73-96 | with equal-length steps and a transient failure at the second attempt, step 0 succeeds, step 1 is the first to fail, and the trajectory stops after its sleep |
| MotorControl.StepBlockEvents | lerobot/pi0-integration/motor_control.py:79-86 | a step's sleep, when there is one, is positive, and its writes go to the first arm |
| MotorControl.TrajectoryEvents | lerobot/pi0-integration/motor_control.py:73-96 | every sleep of a trajectory is positive and every write addresses the first arm |
| MotorControl.NoCatchUp | lerobot/pi0-integration/motor_control.py:73-86 | delaying every clock reading from step i on leaves steps i and later unchanged: a late step does not shorten later sleeps |
| MotorControl.Delayed | lerobot/pi0-integration/motor_control.py:74-82 | the clock with every reading from a given one on made later by the same amount (properties in `NoCatchUp`) |
| MotorControl.TrajectoryStep | lerobot/pi0-integration/motor_control.py:73-96 | one pass of the loop keeps the log on course for `TrajectoryLog`, ends it when the step failed, advances the attempt counter to the next step's start, and keeps the counter equal to the write attempts logged |
| MotorControl.RunSteps | lerobot/pi0-integration/motor_control.py:73-96 | the loop over the steps leaves the robot having seen exactly the executor run over the step blocks, with the attempt counter advanced by the write attempts it logged, and other arms untouched |
| MotorControl.ExecuteStep | lerobot/pi0-integration/motor_control.py:74-86 | one pass: the step's writes and outcome, then the pacing sleep timed from the step's two clock readings |
| MotorControl.FirstArmMotorCount | lerobot/pi0-integration/motor_control.py:62-67 | the first arm's motor count, 0 without arms (properties in `TrajectoryStopsAtFirstFailure`, `ApplyTrajectory`) |
| MotorControl.TrajectoryRaises | lerobot/pi0-integration/motor_control.py:56-70 | `1.0 / hz` raises only for a non-empty trajectory at 0 Hz (properties in `RaisingTrajectoryWritesNothing`, `ApplyTrajectory`) |
| MotorControl.TrajectoryLog | lerobot/pi0-integration/motor_control.py:48-96 | what a trajectory does: nothing when empty or at 0 Hz, otherwise the executor run over the steps (properties in `TrajectoryStopsAtFirstFailure`, `TrajectoryEvents`, `NoCatchUp`) |
| MotorControl.RaisingTrajectoryWritesNothing | lerobot/pi0-integration/motor_control.py:70 | a non-empty trajectory at 0 Hz raises before its first write |
| MotorControl.ApplyTrajectory | lerobot/pi0-integration/motor_control.py:48-96 | raises exactly for a non-empty trajectory at 0 Hz; otherwise the robot sees exactly `TrajectoryLog`: nothing for an empty trajectory, the steps in order with pacing, stopping after the first failure; the attempt counter advances by the write attempts in that log; other arms keep their registers |
| MotorControl.ResponseLog | lerobot/pi0-integration/motor_control.py:99-121 | what a response does: nothing without `actions` or with an empty one, otherwise its trajectory (properties in `NoTrajectoryNoEvents`) |
| MotorControl.NoTrajectoryNoEvents | lerobot/pi0-integration/motor_control.py:107-115 | a response without `actions`, or with an empty trajectory, performs no write and no sleep |
| MotorControl.ApplyRobotAction | lerobot/pi0-integration/motor_control.py:99-121 | runs the response's `actions` trajectory when present and non-empty, nothing otherwise; raises exactly when that trajectory does; the attempt counter advances by the write attempts in `ResponseLog` |
| DiagnoseFollowerMotors.Pow2 | lerobot/scripts/diagnose_follower_motors.py:38-45 | the mask 2^i of status bit i, at least 1 (the values `0x01` to `0x40` for bits 0 to 6 in `PowersOfTwo`) |
| DiagnoseFollowerMotors.Bit | lerobot/scripts/diagnose_follower_motors.py:38-45 | `status & (1 << i)` is non-zero, for any integer status (properties in `FlagNamedIffBitSet`, `PowersOfTwo`) |
| DiagnoseFollowerMotors.FlagsDistinct | lerobot/scripts/diagnose_follower_motors.py:38-45 | seven error names, all different |
| DiagnoseFollowerMotors.FlagsBelow | lerobot/scripts/diagnose_follower_motors.py:36-45 | the names of the set bits among bits 0..k-1 in bit order, at most k of them (properties in `FlagsBelowAreSetBits`, `FlagNamedIffBitSet`) |
| DiagnoseFollowerMotors.FlagsOnlyBelow | lerobot/scripts/diagnose_follower_motors.py:38-45 | a bit at or above k contributes no name to the list built from the bits below k |
| DiagnoseFollowerMotors.ErrorNames | lerobot/scripts/diagnose_follower_motors.py:36-45 | the list the seven guarded appends build (properties in `ErrorNamesSpec`, `NoErrorsIffNoFlags`) |
| DiagnoseFollowerMotors.SetBitsBelowSpec | lerobot/scripts/diagnose_follower_motors.py:38-45 | the reference list of set bits below k is increasing and holds exactly the set bits |
| DiagnoseFollowerMotors.FlagsBelowAreSetBits | lerobot/scripts/diagnose_follower_motors.py:38-45 | the p-th error name is the name of the p-th set bit |
| DiagnoseFollowerMotors.FlagNamedIffBitSet | lerobot/scripts/diagnose_follower_motors.py:38-45 | a bit's name is in the list exactly when that bit is set |
| DiagnoseFollowerMotors.ErrorNamesSpec | lerobot/scripts/diagnose_follower_motors.py:37-45 | for bits 0..6, name present iff bit set, and names in ascending bit order |
| DiagnoseFollowerMotors.NoErrorsIffNoFlags | lerobot/scripts/diagnose_follower_motors.py:47-51 | the error list is empty exactly when bits 0..6 are all clear |
| DiagnoseFollowerMotors.Decimal | lerobot/scripts/diagnose_follower_motors.py:51-53 | `str` of an integer: optional minus sign, then its decimal digits (properties in `DigitsRoundTrip`) |
| DiagnoseFollowerMotors.Binary8 | lerobot/scripts/diagnose_follower_motors.py:51-53 | `format(status, '08b')`: sign, then binary digits zero-padded to width 8 (properties in `Binary8OfByte`) |
| DiagnoseFollowerMotors.Digits | lerobot/scripts/diagnose_follower_motors.py:51-53 | the base-2 or base-10 digits of a natural number, most significant first (properties in `DigitsShape`, `DigitsRoundTrip`) |
| DiagnoseFollowerMotors.ZeroDigits | lerobot/scripts/diagnose_follower_motors.py:51-53 | the `0` padding of `08b`: n characters, all `0` |
| DiagnoseFollowerMotors.PaddedBinary | lerobot/scripts/diagnose_follower_motors.py:51-53 | a status of at most eight binary digits prints as padding zeros followed by its digits |
| DiagnoseFollowerMotors.DigitsShape | lerobot/scripts/diagnose_follower_motors.py:51-53 | a number below base^w has between 1 and w digits, each below the base |
| DiagnoseFollowerMotors.DigitsRoundTrip | lerobot/scripts/diagnose_follower_motors.py:51-53 | reading a number's digits back gives the number |
| DiagnoseFollowerMotors.Binary8OfByte | lerobot/scripts/diagnose_follower_motors.py:51-53 | a status in 0..255 prints as exactly eight binary digits that read back as the status |
| DiagnoseFollowerMotors.JoinAppend | lerobot/scripts/diagnose_follower_motors.py:53 | `', '.join` puts the separator between consecutive names only |
| DiagnoseFollowerMotors.Join | lerobot/scripts/diagnose_follower_motors.py:53 | `sep.join(names)` (properties in `JoinAppend`) |
| DiagnoseFollowerMotors.UnknownMessage | lerobot/scripts/diagnose_follower_motors.py:50-51 | the unknown-status message with the status in decimal and binary (properties in `StatusHighBitOnly`, `MessagesDiffer`) |
| DiagnoseFollowerMotors.ErrorsMessage | lerobot/scripts/diagnose_follower_motors.py:52-53 | the error message with the joined names, the raw status and its binary form (properties in `StatusOverloadAndHeat`, `MessagesDiffer`) |
| DiagnoseFollowerMotors.MessagesDiffer | lerobot/scripts/diagnose_follower_motors.py:47-53 | neither the unknown-status message nor the error message can be "OK (0)" |
| DiagnoseFollowerMotors.StatusMessage | lerobot/scripts/diagnose_follower_motors.py:31-53 | the decoder's message: not available, OK, unknown, or the joined error names with raw and binary values (properties in `StatusCases`) |
| DiagnoseFollowerMotors.InterpretFeetechStatus | lerobot/scripts/diagnose_follower_motors.py:31-53 | the seven guarded appends and the summary choice return exactly `StatusMessage` |
| DiagnoseFollowerMotors.StatusMissing | lerobot/scripts/diagnose_follower_motors.py:33-34 | a `None` status gives "Status not available" |
| DiagnoseFollowerMotors.StatusZero | lerobot/scripts/diagnose_follower_motors.py:48-49 | status 0 gives "OK (0)" |
| DiagnoseFollowerMotors.StatusCases | lerobot/scripts/diagnose_follower_motors.py:47-53 | "OK (0)" exactly for 0; the unknown-status message for a non-zero status with bits 0..6 clear; the non-empty error list message whenever one of bits 0..6 is set |
| DiagnoseFollowerMotors.StatusHighBitOnly | lerobot/scripts/diagnose_follower_motors.py:50-51 | 0x80 gives the unknown-status message, printing 128 and 10000000 |
| DiagnoseFollowerMotors.StatusOverloadAndHeat | lerobot/scripts/diagnose_follower_motors.py:38-53 | status 5 lists overload then overtemperature, joined with ", ", with raw 5 and binary 00000101 |
| DiagnoseFollowerMotors.MotorIdValid | lerobot/scripts/diagnose_follower_motors.py:204 | the ID guard `0 < motor_id < 253` |
| DiagnoseFollowerMotors.SessionRequests | lerobot/scripts/diagnose_follower_motors.py:196-222 | the moves a sequence of answers asks for (properties in `SessionIdsValid`, `SkipEntry`, `AcceptedIdRunsOnce`, `NothingAfterQuit`) |
| DiagnoseFollowerMotors.InteractiveSession | lerobot/scripts/diagnose_follower_motors.py:196-222 | the prompt loop runs exactly the moves of `SessionRequests`: it stops at quit and skips malformed answers and out-of-range IDs |
| DiagnoseFollowerMotors.SessionIdsValid | lerobot/scripts/diagnose_follower_motors.py:204-206 | every move the session runs has an ID in 1..252 |
| DiagnoseFollowerMotors.RejectedIdRunsNothing | lerobot/scripts/diagnose_follower_motors.py:204-206 | an answer with an ID outside 0 < id < 253 runs nothing and leaves the rest of the session as it would be without it |
| DiagnoseFollowerMotors.SkipEntry | lerobot/scripts/diagnose_follower_motors.py:203-215 | a malformed answer or a rejected ID is skipped without effect on the rest of the session |
| DiagnoseFollowerMotors.AcceptedIdRunsOnce | lerobot/scripts/diagnose_follower_motors.py:204-212 | an accepted ID runs its move once, before the rest of the session |
| DiagnoseFollowerMotors.NothingAfterQuit | lerobot/scripts/diagnose_follower_motors.py:199-201 | nothing typed after quit runs |
| DiagnoseFollowerMotors.NotReachedWarning | lerobot/scripts/diagnose_follower_motors.py:146 | `abs(final - target) > 10` (properties in `NotReachedIffOutsideBand`) |
| DiagnoseFollowerMotors.NotReachedIffOutsideBand | lerobot/scripts/diagnose_follower_motors.py:146-147 | no warning exactly when the final position is within 10 steps of the target, either side; the check is symmetric |

## Left out

- Hardware and I/O are not modelled: the motor bus, connecting, the baud
  rate, camera capture, printing, and `initialize_robot`. The robot's
  `capture_observation()` result enters as the state vector and the captured
  frames.
- Which write attempts raise is an input, not a model of the bus. The model
  does not say why a write raises.
- MotorControl.Robot.WriteGoalPosition: a write that raises is taken to leave
  its register unchanged. The bus call at line 41 of `motor_control.py` may
  already have reached the servo when it raises; that partial effect is not
  modelled.
- Default arguments are plain parameters: `prompt="Pick up the duck"`
  (line 77 of `robot_interface.py`) and `hz=20` (lines 48 and 99 of
  `motor_control.py`) have no default in the model, and the caller passes
  them.
- MotorControl.ApplyRobotAction: `actions` must be a numpy array, since line
  118 of `motor_control.py` reads `actions_array.shape`; a plain list raises
  `AttributeError` there, before any write. The model's
  `map<string, seq<seq<real>>>` also accepts ragged lists of steps, which a
  two-dimensional array cannot hold, and it does not model that
  `AttributeError`.
- Pixel resampling in PIL is a parameter (`resize`). Only the shape of the
  resized frame and the zero fill are modelled. The `uint8` element type is
  represented as `int`.
- Floating point is modelled as exact `real` arithmetic. Rounding, NaN and
  infinities are not modelled.
- Time is a sequence of clock readings given as input; `time.sleep` is
  logged, not performed. The printed `actual_hz` (lines 87-91 of
  `motor_control.py`) is output only and is not modelled.
- MotorControl.ApplySingleAction: the motor count is a natural number. A
  negative count passed by a caller is not modelled (its slice would drop
  values from the end). The only callers in this code pass no count or a
  length.
- RobotInterface.CaptureRobotData: the `observation.state` key is assumed
  present, as `robot.capture_observation()` provides it. The tensor-to-numpy
  conversion is identity.
- DiagnoseFollowerMotors.InteractiveSession: answers arrive as a finite
  sequence already parsed into quit, an (ID, target) pair, or malformed. The
  model does not include the details of Python's `int()` parsing, an
  end-of-input error looping forever, or the KeyboardInterrupt path apart from
  its ending the session.
- `set_motor_target_position`, `get_motor_bus_cls` and the register reads
  around the decoder are bus I/O and are not modelled. The tolerance check is
  modelled as a predicate on the two positions.
- `main.py`, `pi0_client.py`, `camera_utils.py` and the other scripts under
  `lerobot/scripts/` are not part of this model.
