/** The frame-to-frame tracker: a three-state machine (not initialised,
    tracking, lost), a frame counter, the last pose, and a fixed-length
    window of the latest match counts that drives the decision to
    triangulate new map points.

    The feature extraction, local map, motion model and pose solver are
    collaborators outside this model: what they deliver for a frame is an
    input, `FrameResults`. */
module RgbSlam {

  /** The largest `unsigned long`, the filler of a fresh match window. */
  const ULongMax: int := 18446744073709551615

  type ULong = x: int | 0 <= x <= ULongMax

  /** The decreasing-matches policy triangulates when every count is at most
      this fraction of the previous one. */
  const DecreaseRatio: real := 0.99

  /** The map-size policy triangulates while the local map holds fewer points. */
  const MapSizeLimit: nat := 1000

  datatype TrackingState = NotInitialized | Tracking | Lost

  /** A camera pose: position and orientation quaternion `(w, x, y, z)`. */
  datatype Pose = Pose(position: (real, real, real), orientation: (real, real, real, real))

  /** The default pose: at the origin, not rotated. */
  const IdentityPose: Pose := Pose((0.0, 0.0, 0.0), (1.0, 0.0, 0.0, 0.0))

  datatype TriangulationPolicy = DecreasingMatches | AlwaysTriangulate | MapSize

  /** What the collaborators deliver while one frame is tracked: the local map
      size after a first triangulation, the motion model's prediction from the
      last pose, the number of map points matched from an estimated pose, the
      pose the solver refines from it, and the local map size when the
      triangulation policy is consulted. */
  datatype FrameResults = FrameResults(
    initialMapSize: ULong,
    predict: Pose -> Pose,
    matchCount: Pose -> ULong,
    solvePose: Pose -> Pose,
    mapSize: nat)

  /** Every count of the window is at most `DecreaseRatio` times the one before it. */
  predicate MatchesDecreasing(window: seq<ULong>)
  {
    forall i :: 1 <= i < |window| ==> window[i] as real <= DecreaseRatio * (window[i - 1] as real)
  }

  /** The triangulation decision of each policy. */
  predicate Triangulates(policy: TriangulationPolicy, window: seq<ULong>, mapSize: nat)
  {
    match policy
    case DecreasingMatches => MatchesDecreasing(window)
    case AlwaysTriangulate => true
    case MapSize => mapSize < MapSizeLimit
  }

  /** A window whose second count is still the filler never asks for a
      triangulation under the decreasing policy. The policy is consulted on
      the window after a tracked frame's count entered it; its second count
      is still the filler for the first `windowSize - 2` tracked frames that
      follow the map's initialisation. */
  lemma FillerWindowNotDecreasing(window: seq<ULong>)
    requires |window| >= 2 && window[1] == ULongMax
    ensures !MatchesDecreasing(window)
  {
    assert window[1] as real > DecreaseRatio * (window[0] as real);
  }

  /** Under the decreasing policy every later count is at most `DecreaseRatio`
      times the first one, so with a positive first count the last count is
      strictly smaller. */
  lemma {:induction false} DecreasingWindowShrinks(window: seq<ULong>, k: nat)
    requires MatchesDecreasing(window) && 1 <= k < |window|
    ensures window[k] as real <= DecreaseRatio * (window[0] as real)
    ensures window[0] > 0 ==> window[k] < window[0]
  {
    if k > 1 {
      DecreasingWindowShrinks(window, k - 1);
    }
  }

  class RgbSlam {
    /** Length of the match window. */
    const windowSize: nat
    const policy: TriangulationPolicy
    /** Fewer matches than this lose the tracking. */
    const minMatchesForTracking: nat

    var state: TrackingState
    var frameNumber: nat
    var lastPose: Pose
    var lastMatches: seq<ULong>

    /** The match window keeps its length. */
    ghost predicate Valid()
      reads this
    {
      windowSize >= 1 && |lastMatches| == windowSize
    }

    /** Builds the tracker in its reset state, with the configured policy
        (decreasing matches unless another one is configured). */
    constructor(windowSize: nat, configured: TriangulationPolicy, minMatchesForTracking: nat)
      requires windowSize >= 1
      ensures Valid() && InResetState()
      ensures this.windowSize == windowSize && this.minMatchesForTracking == minMatchesForTracking
      ensures policy == configured
    {
      this.windowSize := windowSize;
      this.minMatchesForTracking := minMatchesForTracking;
      var chosen := DecreasingMatches;
      if configured == AlwaysTriangulate {
        chosen := AlwaysTriangulate;
      } else if configured == MapSize {
        chosen := MapSize;
      }
      policy := chosen;
      new;
      Reset();
    }

    /** The state right after a reset: no frame, not initialised, the default
        pose and a window filled with the largest `unsigned long`. */
    ghost predicate InResetState()
      reads this
    {
      frameNumber == 0 && state == NotInitialized && lastPose == IdentityPose
      && lastMatches == seq(windowSize, _ => ULongMax)
    }

    method Reset()
      requires windowSize >= 1
      modifies this
      ensures Valid() && InResetState()
    {
      lastPose := IdentityPose;
      frameNumber := 0;
      lastMatches := seq(windowSize, _ => ULongMax);
      state := NotInitialized;
    }

    /** Tracks one frame and returns the pose, and whether new map points were
        triangulated. The frame counter always advances. A lost tracker stays
        lost and keeps its pose. The first frame initialises the map at the
        identity pose and records the map size in the window. Later frames are
        matched from the motion model's prediction: too few matches lose the
        tracking and keep the last pose; otherwise the refined pose becomes
        the last pose and the match count enters the window. */
    method Track(frame: FrameResults) returns (pose: Pose, triangulated: bool)
      requires Valid()
      modifies this
      ensures Valid() && frameNumber == old(frameNumber) + 1
      ensures old(state) == Lost ==>
        state == Lost && pose == lastPose == old(lastPose) && lastMatches == old(lastMatches) && !triangulated
      ensures old(state) == NotInitialized ==>
        state == Tracking && pose == IdentityPose && lastPose == old(lastPose) && triangulated
        && lastMatches == old(lastMatches)[0 := frame.initialMapSize]
      ensures old(state) == Tracking ==>
        var estimated := frame.predict(old(lastPose));
        var matches := frame.matchCount(estimated);
        if matches < minMatchesForTracking then
          state == Lost && pose == lastPose == old(lastPose) && lastMatches == old(lastMatches) && !triangulated
        else
          state == Tracking && pose == lastPose == frame.solvePose(estimated)
          && lastMatches == old(lastMatches)[1..] + [matches]
          && triangulated == Triangulates(policy, lastMatches, frame.mapSize)
    {
      frameNumber := frameNumber + 1;
      if state == Lost {
        return lastPose, false;
      }
      if state == NotInitialized {
        state := Tracking;
        lastMatches := lastMatches[0 := frame.initialMapSize];
        return IdentityPose, true;
      }
      var predicted := frame.predict(lastPose);
      var computed, isTracking;
      computed, isTracking, triangulated := PerformTracking(predicted, frame);
      if !isTracking {
        state := Lost;
        return lastPose, triangulated;
      }
      lastPose := computed;
      pose := computed;
    }

    /** Matches the frame from the estimated pose. Too few matches report a
        lost tracking and the last pose; otherwise the count is pushed into
        the window, whose oldest count drops out, and the solver's pose is
        returned, with the triangulation the policy asks for. */
    method PerformTracking(estimated: Pose, frame: FrameResults) returns (pose: Pose, isTracking: bool, triangulated: bool)
      requires Valid()
      modifies this`lastMatches
      ensures Valid()
      ensures var matches := frame.matchCount(estimated);
        if matches < minMatchesForTracking then
          !isTracking && pose == lastPose && lastMatches == old(lastMatches) && !triangulated
        else
          isTracking && pose == frame.solvePose(estimated)
          && lastMatches == old(lastMatches)[1..] + [matches]
          && triangulated == Triangulates(policy, lastMatches, frame.mapSize)
    {
      var matches := frame.matchCount(estimated);
      if matches < minMatchesForTracking {
        return lastPose, false, false;
      }
      lastMatches := lastMatches + [matches];
      lastMatches := lastMatches[1..];
      pose := frame.solvePose(estimated);
      triangulated := NeedNewTriangulation(frame.mapSize);
      isTracking := true;
    }

    /** Consults the configured policy. */
    method NeedNewTriangulation(mapSize: nat) returns (triangulate: bool)
      requires Valid()
      ensures triangulate == Triangulates(policy, lastMatches, mapSize)
    {
      match policy {
        case DecreasingMatches =>
          triangulate := TriangulationPolicyDecreasingMatches();
        case AlwaysTriangulate =>
          triangulate := true;
        case MapSize =>
          triangulate := mapSize < MapSizeLimit;
      }
    }

    /** Scans the window from the newest count back and refuses as soon as a
        count exceeds `DecreaseRatio` times the one before it. */
    method TriangulationPolicyDecreasingMatches() returns (decreasing: bool)
      requires Valid()
      ensures decreasing <==> MatchesDecreasing(lastMatches)
    {
      var i := windowSize - 1;
      while i > 0
        invariant 0 <= i < windowSize
        invariant forall j :: i < j < windowSize ==>
          lastMatches[j] as real <= DecreaseRatio * (lastMatches[j - 1] as real)
      {
        if lastMatches[i] as real > DecreaseRatio * (lastMatches[i - 1] as real) {
          return false;
        }
        i := i - 1;
      }
      return true;
    }
  }
}
