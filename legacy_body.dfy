// The legacy body adapter: a modern-shaped body whose fields are
// overwritten in place from each legacy skeleton.

module LegacyBody {
  import opened KinectTypes
  import opened LegacyTypes
  import opened Conversion

  datatype TrackingConfidence = Low | High
  datatype HandState = Unknown | NotTrackedHand | Open | Closed | Lasso
  datatype PointF = PointF(x: real, y: real)
  datatype JointOrientation = JointOrientation(jointType: JointType, x: real, y: real, z: real, w: real)

  /** The observable state of a legacy body, one field per updated property. */
  datatype BodyValue = BodyValue(
    joints: map<JointType, Joint>,
    clippedEdges: bv32,
    isTracked: bool,
    trackingId: ulong)

  /** A freshly constructed body: no joints, no edges, untracked, id 0. */
  const NewBody := BodyValue(map[], 0, false, 0)

  /** `(ulong)skeleton.TrackingId`: an `int` reinterpreted as unsigned 64-bit. */
  function ToUlong(id: int32): (r: ulong)
    ensures 0 <= id ==> r == id
    ensures id < 0 ==> r == id + 0x1_0000_0000_0000_0000
  {
    id % 0x1_0000_0000_0000_0000
  }

  /** The joint map after writing each joint of `js`, in order, under its converted type. */
  function ApplyJoints(m: map<JointType, Joint>, js: seq<LegacyJoint>): map<JointType, Joint> {
    if js == [] then m
    else
      var last := js[|js| - 1];
      ApplyJoints(m, js[..|js| - 1])[ConvertJointType(last.jointType) := ConvertJoint(last)]
  }

  /** The converted types of the joints in `js`. */
  function ConvertedTypes(js: seq<LegacyJoint>): set<JointType> {
    set j | j in js :: ConvertJointType(j.jointType)
  }

  /** The map only grows: its keys become the old keys plus the converted joint types. */
  lemma {:induction false} ApplyJointsKeys(m: map<JointType, Joint>, js: seq<LegacyJoint>)
    ensures ApplyJoints(m, js).Keys == m.Keys + ConvertedTypes(js)
  {
    if js != [] {
      var init := js[..|js| - 1];
      ApplyJointsKeys(m, init);
      assert js == init + [js[|js| - 1]];
      assert ConvertedTypes(js) == ConvertedTypes(init) + {ConvertJointType(js[|js| - 1].jointType)};
    }
  }

  /** Keys that no incoming joint converts to keep their previous entries. */
  lemma {:induction false} ApplyJointsKeepsOthers(m: map<JointType, Joint>, js: seq<LegacyJoint>, t: JointType)
    requires t in m && t !in ConvertedTypes(js)
    ensures t in ApplyJoints(m, js) && ApplyJoints(m, js)[t] == m[t]
  {
    if js != [] {
      var init := js[..|js| - 1];
      assert ConvertedTypes(init) <= ConvertedTypes(js);
      ApplyJointsKeepsOthers(m, init, t);
    }
  }

  /** A joint that is the last of its type in `js` ends up converted under the converted type. */
  lemma {:induction false} ApplyJointsWrites(m: map<JointType, Joint>, js: seq<LegacyJoint>, i: int)
    requires 0 <= i < |js|
    requires forall k :: i < k < |js| ==> js[k].jointType != js[i].jointType
    ensures ConvertJointType(js[i].jointType) in ApplyJoints(m, js)
    ensures ApplyJoints(m, js)[ConvertJointType(js[i].jointType)] == ConvertJoint(js[i])
  {
    var init := js[..|js| - 1];
    if i < |js| - 1 {
      ConvertJointTypeInjective(js[|js| - 1].jointType, js[i].jointType);
      ApplyJointsWrites(m, init, i);
    }
  }

  /** The new state of a body after `Update(skeleton)`. */
  function Updated(b: BodyValue, s: Skeleton): BodyValue
  {
    BodyValue(
      ApplyJoints(b.joints, s.joints),
      ConvertEdges(s.clippedEdges),
      s.trackingState == SkeletonTracked,
      ToUlong(s.trackingId))
  }

  /** What the source promises about an update, stated field by field. */
  lemma UpdatedFields(b: BodyValue, s: Skeleton)
    ensures Updated(b, s).isTracked <==> s.trackingState == SkeletonTracked
    ensures Updated(b, s).clippedEdges == ConvertEdges(s.clippedEdges)
    ensures Updated(b, s).joints.Keys == b.joints.Keys + ConvertedTypes(s.joints)
    ensures forall t :: t in b.joints && t !in ConvertedTypes(s.joints) ==> Updated(b, s).joints[t] == b.joints[t]
    ensures 0 <= s.trackingId ==> Updated(b, s).trackingId == s.trackingId
  {
    ApplyJointsKeys(b.joints, s.joints);
    forall t | t in b.joints && t !in ConvertedTypes(s.joints)
      ensures Updated(b, s).joints[t] == b.joints[t]
    {
      ApplyJointsKeepsOthers(b.joints, s.joints, t);
    }
  }

  class Body {
    var joints: map<JointType, Joint>
    var clippedEdges: bv32
    var isTracked: bool
    var trackingId: ulong

    function Value(): BodyValue
      reads this
    {
      BodyValue(joints, clippedEdges, isTracked, trackingId)
    }

    constructor ()
      ensures Value() == NewBody
    {
      joints := map[];
      clippedEdges := 0;
      isTracked := false;
      trackingId := 0;
    }

    /** Overwrites each joint in place, then the edges, the tracked flag and the id. */
    method Update(skeleton: Skeleton)
      modifies this
      ensures Value() == Updated(old(Value()), skeleton)
    {
      var js := skeleton.joints;
      var i := 0;
      while i < |js|
        invariant 0 <= i <= |js|
        invariant joints == ApplyJoints(old(joints), js[..i])
      {
        var j := js[i];
        assert js[..i + 1][..i] == js[..i];
        var t := ConvertJointType(j.jointType);
        joints := joints[t := Joint(t, ConvertPoint(j.position), ConvertTrackingState(j.trackingState))];
        i := i + 1;
      }
      assert js[..i] == js;
      clippedEdges := ConvertEdges(skeleton.clippedEdges);
      isTracked := skeleton.trackingState == SkeletonTracked;
      trackingId := ToUlong(skeleton.trackingId);
    }

    /** The properties the legacy sensor cannot report, fixed to "unsupported" values. */
    function HandLeftConfidence(): TrackingConfidence { Low }
    function HandRightConfidence(): TrackingConfidence { Low }
    function HandLeftState(): HandState { Unknown }
    function HandRightState(): HandState { Unknown }
    function IsRestricted(): bool { false }
    function Lean(): PointF { PointF(0.0, 0.0) }
    function LeanTrackingState(): TrackingState { NotTracked }
    function JointOrientations(): map<JointType, JointOrientation> { map[] }
  }

  /** The sentinel getters never depend on the body's state. */
  lemma SentinelsAreConstant(a: Body, b: Body)
    ensures a.HandLeftConfidence() == b.HandLeftConfidence() == Low
    ensures a.HandRightConfidence() == b.HandRightConfidence() == Low
    ensures a.HandLeftState() == b.HandLeftState() == Unknown
    ensures a.HandRightState() == b.HandRightState() == Unknown
    ensures !a.IsRestricted() && a.Lean() == PointF(0.0, 0.0)
    ensures a.LeanTrackingState() == NotTracked && a.JointOrientations() == map[]
  {
  }
}
