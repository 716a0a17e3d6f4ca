/**
 * State normalisation and observation assembly of the pi0 integration
 * (lerobot/pi0-integration/robot_interface.py).
 *
 * Raw joint and gripper positions are clipped to fixed calibrated ranges and
 * mapped linearly onto [-1, 1]; camera frames are looked up by camera name and
 * replaced by an all-zero frame when missing; the observation handed to the
 * policy is a dictionary with a fixed set of keys.
 */
module RobotInterface {
  import opened Wrappers

  // ---------------------------------------------------------------------------
  // Configured normalisation ranges
  // ---------------------------------------------------------------------------

  /** Number of arm joints: the length of the configured joint range arrays. */
  const JointCount: nat := 5

  /** Lower calibration bound of each arm joint, in raw hardware units. */
  const JointMin: seq<real> := [-1.0, -1.0, -200.0, -200.0, -10.0]

  /** Upper calibration bound of each arm joint, in raw hardware units. */
  const JointMax: seq<real> := [1.0, 200.0, 10.0, 10.0, 10.0]

  /** Calibration bounds of the single gripper channel. */
  const GripperMin: real := 0.0
  const GripperMax: real := 50.0

  /** Every configured channel has a non-empty range, so the normalising division is defined. */
  lemma RangesWellFormed()
    ensures |JointMin| == JointCount && |JointMax| == JointCount
    ensures forall i :: 0 <= i < JointCount ==> JointMin[i] < JointMax[i]
    ensures GripperMin < GripperMax
  {
  }

  // ---------------------------------------------------------------------------
  // Per-channel clip and min-max mapping
  // ---------------------------------------------------------------------------

  /** `np.clip(x, lo, hi)` on one channel. */
  function Clip(x: real, lo: real, hi: real): (r: real)
    requires lo <= hi
    ensures lo <= r <= hi
    ensures lo <= x <= hi ==> r == x
    ensures x <= lo ==> r == lo
    ensures x >= hi ==> r == hi
  {
    if x < lo then lo else if x > hi then hi else x
  }

  /** Clipping preserves the order of its inputs. */
  lemma ClipMonotone(x: real, y: real, lo: real, hi: real)
    requires lo <= hi && x <= y
    ensures Clip(x, lo, hi) <= Clip(y, lo, hi)
  {
  }

  /** Division by a positive range keeps a value between 0 and the range inside [0, 1]. */
  lemma ScaledInUnit(a: real, w: real)
    requires w > 0.0 && 0.0 <= a <= w
    ensures 0.0 <= a / w <= 1.0
  {
  }

  /** One channel of `2 * (clip(x) - min) / (max - min) - 1`. */
  function NormalizeChannel(x: real, lo: real, hi: real): (r: real)
    requires lo < hi
    ensures -1.0 <= r <= 1.0
    ensures x <= lo ==> r == -1.0
    ensures x >= hi ==> r == 1.0
  {
    var c := Clip(x, lo, hi);
    ScaledInUnit(c - lo, hi - lo);
    assert 2.0 * (c - lo) / (hi - lo) == 2.0 * ((c - lo) / (hi - lo));
    2.0 * (c - lo) / (hi - lo) - 1.0
  }

  /** Normalisation never reverses the order of two raw readings of one channel. */
  lemma {:induction false} NormalizeChannelMonotone(x: real, y: real, lo: real, hi: real)
    requires lo < hi && x <= y
    ensures NormalizeChannel(x, lo, hi) <= NormalizeChannel(y, lo, hi)
  {
    ClipMonotone(x, y, lo, hi);
    var cx, cy := Clip(x, lo, hi), Clip(y, lo, hi);
    var w := hi - lo;
    DivMonotone(2.0 * (cx - lo), 2.0 * (cy - lo), w);
  }

  /** Dividing by a positive number keeps the order. */
  lemma DivMonotone(a: real, b: real, w: real)
    requires w > 0.0 && a <= b
    ensures a / w <= b / w
  {
    assert b / w - a / w == (b - a) / w;
    assert (b - a) / w >= 0.0;
  }

  /** The midpoint of a channel's range maps to 0. */
  lemma NormalizeChannelMidpoint(lo: real, hi: real)
    requires lo < hi
    ensures NormalizeChannel((lo + hi) / 2.0, lo, hi) == 0.0
  {
    var w := hi - lo;
    assert 2.0 * ((lo + hi) / 2.0 - lo) == w;
    assert w / w == 1.0;
  }

  /**
   * The linear inverse of the in-range part of the mapping, `0.5 * (n + 1) * (max - min) + min`.
   * robot_interface.py only normalises; this is the reference inverse used to
   * state that normalisation loses nothing inside the calibrated range.
   */
  ghost function DenormalizeChannel(n: real, lo: real, hi: real): real
  {
    0.5 * (n + 1.0) * (hi - lo) + lo
  }

  /** Inside the calibrated range normalisation is invertible, so no information is lost. */
  lemma NormalizeChannelRoundTrip(x: real, lo: real, hi: real)
    requires lo < hi && lo <= x <= hi
    ensures DenormalizeChannel(NormalizeChannel(x, lo, hi), lo, hi) == x
  {
  }

  /** Every value of [-1, 1] is reached by exactly the raw reading its inverse names. */
  lemma DenormalizeChannelRoundTrip(n: real, lo: real, hi: real)
    requires lo < hi && -1.0 <= n <= 1.0
    ensures lo <= DenormalizeChannel(n, lo, hi) <= hi
    ensures NormalizeChannel(DenormalizeChannel(n, lo, hi), lo, hi) == n
  {
    var w := hi - lo;
    var m := 0.5 * (n + 1.0);
    var x := DenormalizeChannel(n, lo, hi);
    assert 0.0 <= m <= 1.0;
    FractionOfRange(m, w);
    assert x - lo == m * w;
    assert Clip(x, lo, hi) == x;
    assert NormalizeChannel(x, lo, hi) == 2.0 * (x - lo) / w - 1.0;
    assert 2.0 * (x - lo) == (2.0 * m) * w;
    MulDivCancel(2.0 * m, w);
    assert 2.0 * (x - lo) / w == 2.0 * m;
  }

  /** A fraction in [0, 1] of a positive width lies between 0 and that width. */
  lemma FractionOfRange(m: real, w: real)
    requires 0.0 <= m <= 1.0 && w > 0.0
    ensures 0.0 <= m * w <= w
  {
  }

  /** Multiplying and then dividing by the same non-zero real is the identity. */
  lemma MulDivCancel(a: real, w: real)
    requires w != 0.0
    ensures a * w / w == a
  {
  }

  // ---------------------------------------------------------------------------
  // Joint and gripper vectors
  // ---------------------------------------------------------------------------

  /**
   * numpy broadcasting of a one-dimensional vector against the shape of the
   * range arrays: an equal length is used as is, a length-1 vector is repeated,
   * and any other length makes numpy raise.
   */
  function Broadcast(p: seq<real>, n: nat): (r: Option<seq<real>>)
    ensures r.Some? <==> |p| == n || |p| == 1
    ensures r.Some? ==> |r.value| == n
    ensures r.Some? ==> forall i :: 0 <= i < n ==> r.value[i] == p[if |p| == n then i else 0]
  {
    if |p| == n then Some(p)
    else if |p| == 1 then Some(seq(n, i => p[0]))
    else None
  }

  /** `normalize_joint_position`: each joint clipped to its range and mapped onto [-1, 1]; `None` where numpy raises. */
  function NormalizeJointPosition(p: seq<real>): (r: Option<seq<real>>)
    ensures r.Some? <==> |p| == JointCount || |p| == 1
    ensures r.Some? ==> |r.value| == JointCount
    ensures r.Some? ==> forall i :: 0 <= i < JointCount ==> -1.0 <= r.value[i] <= 1.0
  {
    RangesWellFormed();
    match Broadcast(p, JointCount)
    case None => None
    case Some(q) => Some(seq(JointCount, i requires 0 <= i < JointCount => NormalizeChannel(q[i], JointMin[i], JointMax[i])))
  }

  /**
   * Joint i of the normalised vector is channel i's normalisation of raw
   * joint i, and nothing else; a one-value vector is broadcast, so every
   * joint normalises that value against its own range.
   */
  lemma NormalizeJointPositionAt(p: seq<real>, i: nat)
    requires (|p| == JointCount || |p| == 1) && i < JointCount
    ensures JointMin[i] < JointMax[i]
    ensures NormalizeJointPosition(p).Some?
    ensures NormalizeJointPosition(p).value[i]
         == NormalizeChannel(p[if |p| == JointCount then i else 0], JointMin[i], JointMax[i])
  {
  }

  /** At or below a joint's minimum the output is exactly -1; at or above its maximum, exactly +1 (the one value of a broadcast vector standing for every joint). */
  lemma NormalizeJointPositionEndpoints(p: seq<real>, i: nat)
    requires (|p| == JointCount || |p| == 1) && i < JointCount
    ensures p[if |p| == JointCount then i else 0] <= JointMin[i] ==> NormalizeJointPosition(p).value[i] == -1.0
    ensures p[if |p| == JointCount then i else 0] >= JointMax[i] ==> NormalizeJointPosition(p).value[i] == 1.0
  {
  }

  /** Raising one raw joint (or the one value of a broadcast vector) never lowers its normalised value. */
  lemma NormalizeJointPositionMonotone(p: seq<real>, q: seq<real>, i: nat)
    requires |p| == |q| && (|p| == JointCount || |p| == 1) && i < JointCount
    requires p[if |p| == JointCount then i else 0] <= q[if |q| == JointCount then i else 0]
    ensures NormalizeJointPosition(p).value[i] <= NormalizeJointPosition(q).value[i]
  {
    NormalizeJointPositionAt(p, i);
    NormalizeJointPositionAt(q, i);
    NormalizeChannelMonotone(p[if |p| == JointCount then i else 0], q[if |q| == JointCount then i else 0],
                             JointMin[i], JointMax[i]);
  }

  /** `normalize_gripper_position`: element 0 clipped to [0, 50] and mapped onto [-1, 1], as a length-1 vector. */
  function NormalizeGripperPosition(g: seq<real>): (r: Option<seq<real>>)
    ensures r.Some? <==> |g| > 0
    ensures r.Some? ==> |r.value| == 1 && -1.0 <= r.value[0] <= 1.0
    ensures r.Some? && g[0] <= GripperMin ==> r.value == [-1.0]
    ensures r.Some? && g[0] >= GripperMax ==> r.value == [1.0]
  {
    if |g| == 0 then None
    else Some([NormalizeChannel(g[0], GripperMin, GripperMax)])
  }

  /** The gripper normalisation reads element 0 of its input and nothing else. */
  lemma NormalizeGripperReadsFirst(g: seq<real>, h: seq<real>)
    requires |g| > 0 && |h| > 0 && g[0] == h[0]
    ensures NormalizeGripperPosition(g) == NormalizeGripperPosition(h)
  {
  }

  /** The gripper's half-open position 25 lies mid-range and normalises to 0. */
  lemma GripperMidpoint()
    ensures NormalizeGripperPosition([25.0]) == Some([0.0])
  {
  }

  /** The raw state split into joints (all but the last element) and gripper (the last element), as Python slices do it. */
  function SplitState(s: seq<real>): (r: (seq<real>, seq<real>))
    ensures r.0 + r.1 == s
    ensures |s| == 0 ==> r.1 == []
    ensures |s| > 0 ==> r.1 == [s[|s| - 1]]
  {
    if |s| == 0 then ([], []) else (s[..|s| - 1], s[|s| - 1..])
  }

  /** A sample raw reading (five joints, then the gripper) and what the code makes of it. */
  lemma ExampleState()
    ensures SplitState([0.0, 100.0, -50.0, 0.0, 0.0, 25.0]) == ([0.0, 100.0, -50.0, 0.0, 0.0], [25.0])
    ensures NormalizeJointPosition([0.0, 100.0, -50.0, 0.0, 0.0]) == Some([0.0, 1.0 / 201.0, 3.0 / 7.0, 19.0 / 21.0, 0.0])
    ensures NormalizeGripperPosition([25.0]) == Some([0.0])
  {
    var p := [0.0, 100.0, -50.0, 0.0, 0.0];
    var s := [0.0, 100.0, -50.0, 0.0, 0.0, 25.0];
    assert s[..5] == p;
    assert s[5..] == [25.0];
    var r := NormalizeJointPosition(p).value;
    forall i | 0 <= i < JointCount
      ensures r[i] == [0.0, 1.0 / 201.0, 3.0 / 7.0, 19.0 / 21.0, 0.0][i]
    {
      NormalizeJointPositionAt(p, i);
    }
    assert r == [0.0, 1.0 / 201.0, 3.0 / 7.0, 19.0 / 21.0, 0.0];
    GripperMidpoint();
  }

  // ---------------------------------------------------------------------------
  // Camera frames
  // ---------------------------------------------------------------------------

  /** A numpy array shape `(d0, d1, d2)` of an image. */
  datatype Shape = Shape(d0: nat, d1: nat, d2: nat)

  /** The frame shape the policy expects, `(224, 224, 3)`. */
  const DefaultShape: Shape := Shape(224, 224, 3)

  /** An 8-bit image: its shape and its elements in row-major order. */
  datatype Frame = Frame(shape: Shape, pixels: seq<int>)

  /** `np.zeros(shape, dtype=np.uint8)`. */
  function ZeroFrame(shape: Shape): (f: Frame)
    ensures f.shape == shape
    ensures |f.pixels| == shape.d0 * shape.d1 * shape.d2
    ensures forall k :: 0 <= k < |f.pixels| ==> f.pixels[k] == 0
  {
    Frame(shape, seq(shape.d0 * shape.d1 * shape.d2, k => 0))
  }

  /**
   * `process_images`: the named camera's image resized to the default shape, or
   * an all-zero frame of that shape when the name is absent or its image is
   * `None`. PIL's resampling is foreign; `resize(img, width, height)` stands for
   * the elements it produces. PIL takes `(width, height)` = `(d0, d1)` and numpy
   * reads the result back as `(height, width, channels)`.
   */
  function ProcessImages(images: map<string, Option<Frame>>, cameraName: string, shape: Shape,
                         resize: (Frame, nat, nat) -> seq<int>): (f: Frame)
    ensures (cameraName !in images || images[cameraName].None?) ==> f == ZeroFrame(shape)
    ensures cameraName in images && images[cameraName].Some? ==>
              f.shape == Shape(shape.d1, shape.d0, images[cameraName].value.shape.d2)
    ensures cameraName in images && images[cameraName].Some? ==>
              f.pixels == resize(images[cameraName].value, shape.d0, shape.d1)
  {
    if cameraName in images && images[cameraName].Some? then
      var img := images[cameraName].value;
      Frame(Shape(shape.d1, shape.d0, img.shape.d2), resize(img, shape.d0, shape.d1))
    else
      ZeroFrame(shape)
  }

  /** The key under which the robot's observation dictionary holds a camera's image. */
  function CameraKey(cameraName: string): string
  {
    "observation.images." + cameraName
  }

  /** The `images` dictionary `capture_robot_data` builds: every configured camera whose image was captured. */
  function CameraImages(cameras: seq<string>, captured: map<string, Frame>): (images: map<string, Option<Frame>>)
  {
    map c | c in cameras && CameraKey(c) in captured :: Some(captured[CameraKey(c)])
  }

  /** A camera appears in the `images` dictionary exactly when it is configured and its image was captured, with that image. */
  lemma CameraImagesContents(cameras: seq<string>, captured: map<string, Frame>, c: string)
    ensures c in CameraImages(cameras, captured) <==> c in cameras && CameraKey(c) in captured
    ensures c in CameraImages(cameras, captured) ==> CameraImages(cameras, captured)[c] == Some(captured[CameraKey(c)])
  {
  }

  /** Scanning one more camera name adds its image when it was captured, and nothing otherwise. */
  lemma CameraImagesAppend(cameras: seq<string>, c: string, captured: map<string, Frame>)
    ensures CameraImages(cameras + [c], captured) ==
              if CameraKey(c) in captured then CameraImages(cameras, captured)[c := Some(captured[CameraKey(c)])]
              else CameraImages(cameras, captured)
  {
  }

  /** A camera that is not configured, or whose image was not captured, reaches the policy as an all-zero default frame. */
  lemma MissingCameraIsZeroFrame(cameras: seq<string>, captured: map<string, Frame>, cameraName: string,
                                 resize: (Frame, nat, nat) -> seq<int>)
    requires cameraName !in cameras || CameraKey(cameraName) !in captured
    ensures ProcessImages(CameraImages(cameras, captured), cameraName, DefaultShape, resize) == ZeroFrame(DefaultShape)
    ensures |ZeroFrame(DefaultShape).pixels| == 224 * 224 * 3
  {
  }

  // ---------------------------------------------------------------------------
  // The observation sent to the policy
  // ---------------------------------------------------------------------------

  /** A value of the observation dictionary. */
  datatype Field = Vector(values: seq<real>) | Image(frame: Frame) | Text(text: string)

  type Observation = map<string, Field>

  const JointPositionKey: string := "observation/joint_position"
  const GripperPositionKey: string := "observation/gripper_position"
  const ExteriorImageKey: string := "observation/exterior_image_1_left"
  const WristImageKey: string := "observation/wrist_image_left"
  const JointVelocityKey: string := "observation/joint_velocity"
  const GripperVelocityKey: string := "observation/gripper_velocity"
  const PromptKey: string := "prompt"

  /** The keys every observation has, whatever the cameras delivered. */
  const ObservationKeys: set<string> := {JointPositionKey, GripperPositionKey, ExteriorImageKey, WristImageKey,
                                         JointVelocityKey, GripperVelocityKey, PromptKey}

  /** `np.zeros_like` of a vector of length n. */
  function ZeroVector(n: nat): (z: seq<real>)
    ensures |z| == n && forall k :: 0 <= k < n ==> z[k] == 0.0
  {
    seq(n, k => 0.0)
  }

  /** The observation dictionary with its seven fixed keys; velocities are zero vectors shaped like the positions. */
  function AssembleObservation(joints: seq<real>, gripper: seq<real>, exterior: Frame, wrist: Frame,
                               prompt: string): (obs: Observation)
    ensures obs.Keys == ObservationKeys
    ensures obs[JointPositionKey] == Vector(joints) && obs[GripperPositionKey] == Vector(gripper)
    ensures obs[JointVelocityKey] == Vector(ZeroVector(|joints|)) && obs[GripperVelocityKey] == Vector(ZeroVector(|gripper|))
    ensures obs[ExteriorImageKey] == Image(exterior) && obs[WristImageKey] == Image(wrist)
    ensures obs[PromptKey] == Text(prompt)
  {
    map[
      JointPositionKey := Vector(joints),
      GripperPositionKey := Vector(gripper),
      ExteriorImageKey := Image(exterior),
      WristImageKey := Image(wrist),
      JointVelocityKey := Vector(ZeroVector(|joints|)),
      GripperVelocityKey := Vector(ZeroVector(|gripper|)),
      PromptKey := Text(prompt)
    ]
  }

  /** The camera the policy sees as the exterior view, and the one it sees as the wrist view. */
  const ExteriorCamera: string := "phone"
  const WristCamera: string := "laptop"

  /**
   * What `capture_robot_data` returns for a raw state, the `images` dictionary
   * and a prompt: `None` where normalisation raises.
   */
  function ObservationOf(state: seq<real>, images: map<string, Option<Frame>>, prompt: string,
                         resize: (Frame, nat, nat) -> seq<int>): Option<Observation>
  {
    var (jointPosition, gripperPosition) := SplitState(state);
    match (NormalizeJointPosition(jointPosition), NormalizeGripperPosition(gripperPosition))
    case (Some(joints), Some(gripper)) =>
      Some(AssembleObservation(joints, gripper,
                               ProcessImages(images, ExteriorCamera, DefaultShape, resize),
                               ProcessImages(images, WristCamera, DefaultShape, resize), prompt))
    case _ => None
  }

  /**
   * An observation exists exactly for states of five joints plus a gripper
   * (or a single broadcast joint plus a gripper), and always has the same keys:
   * normalised positions, zero velocities of the same shapes, the exterior frame
   * from "phone", the wrist frame from "laptop", and the prompt.
   */
  lemma ObservationShape(state: seq<real>, images: map<string, Option<Frame>>, prompt: string,
                         resize: (Frame, nat, nat) -> seq<int>)
    ensures ObservationOf(state, images, prompt, resize).Some? <==> |state| == JointCount + 1 || |state| == 2
    ensures ObservationOf(state, images, prompt, resize).Some? ==>
              var obs := ObservationOf(state, images, prompt, resize).value;
              && obs.Keys == ObservationKeys
              && obs[JointPositionKey] == Vector(NormalizeJointPosition(state[..|state| - 1]).value)
              && obs[JointPositionKey].Vector? && |obs[JointPositionKey].values| == JointCount
              && (forall i :: 0 <= i < JointCount ==> -1.0 <= obs[JointPositionKey].values[i] <= 1.0)
              && obs[GripperPositionKey] == Vector(NormalizeGripperPosition([state[|state| - 1]]).value)
              && obs[JointVelocityKey] == Vector(ZeroVector(JointCount))
              && obs[GripperVelocityKey] == Vector(ZeroVector(1))
              && obs[ExteriorImageKey] == Image(ProcessImages(images, "phone", DefaultShape, resize))
              && obs[WristImageKey] == Image(ProcessImages(images, "laptop", DefaultShape, resize))
              && obs[PromptKey] == Text(prompt)
  {
  }

  /** The camera loop of `capture_robot_data`: each camera's frame, for the cameras the observation has one for. */
  method CollectImages(cameras: seq<string>, captured: map<string, Frame>) returns (images: map<string, Option<Frame>>)
    ensures images == CameraImages(cameras, captured)
  {
    images := map[];
    var k := 0;
    while k < |cameras|
      invariant 0 <= k <= |cameras|
      invariant images == CameraImages(cameras[..k], captured)
    {
      var key := CameraKey(cameras[k]);
      if key in captured {
        images := images[cameras[k] := Some(captured[key])];
      }
      assert cameras[..k + 1] == cameras[..k] + [cameras[k]];
      CameraImagesAppend(cameras[..k], cameras[k], captured);
      k := k + 1;
    }
    assert cameras[..k] == cameras;
  }

  /**
   * `capture_robot_data` after `robot.capture_observation()`: `state` is the
   * `observation.state` vector, `captured` the rest of the robot's observation
   * dictionary, `cameras` the robot's camera names. `display` is the optional
   * display callback, whose answer only affects a log line.
   */
  method CaptureRobotData(state: seq<real>, captured: map<string, Frame>, cameras: seq<string>,
                          display: Option<map<string, Frame> -> bool>, prompt: string,
                          resize: (Frame, nat, nat) -> seq<int>)
    returns (obs: Option<Observation>)
    ensures obs == ObservationOf(state, CameraImages(cameras, captured), prompt, resize)
  {
    var (jointPosition, gripperPosition) := SplitState(state);
    var joints := NormalizeJointPosition(jointPosition);
    if joints.None? {
      return None;
    }
    var gripper := NormalizeGripperPosition(gripperPosition);
    if gripper.None? {
      return None;
    }

    var images := CollectImages(cameras, captured);
    var wristImage := ProcessImages(images, WristCamera, DefaultShape, resize);
    var exteriorImage := ProcessImages(images, ExteriorCamera, DefaultShape, resize);

    if display.Some? {
      var keepOpen := display.value(map["exterior_image_1_left" := exteriorImage, "wrist_image_left" := wristImage]);
    }

    obs := Some(AssembleObservation(joints.value, gripper.value, exteriorImage, wristImage, prompt));
  }
}
