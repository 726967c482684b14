/** Nearest-neighbour identification as the `/identify-user` route does it: one
    linear scan over the stored users in table order, keeping the closest one whose
    distance to the live descriptor is strictly below the threshold. */
module Matching {
  import opened Records

  /** The fixed matching threshold; a candidate must be strictly closer than this. */
  const Threshold: real := 0.4

  function Distance(dist: Metric, u: User, live: Descriptor): real {
    dist(u.encoding, live)
  }

  /** The running best distance of the scan, which starts at `float('inf')`. */
  datatype Bound = Infinity | Finite(value: real)

  predicate Below(x: real, b: Bound) {
    b.Infinity? || x < b.value
  }

  /** The index the scan has settled on after reading all of `rows`, by the same
      rule as the loop: the last row replaces the best so far only when it is
      strictly closer than that best and strictly under the threshold. */
  function Closest(rows: seq<User>, live: Descriptor, dist: Metric): (r: Option<nat>)
    ensures r.Some? ==> r.value < |rows| && Distance(dist, rows[r.value], live) < Threshold
    decreases |rows|
  {
    if rows == [] then None
    else
      var last := |rows| - 1;
      var prev := Closest(rows[..last], live, dist);
      var d := Distance(dist, rows[last], live);
      if (prev.None? || d < Distance(dist, rows[prev.value], live)) && d < Threshold then
        Some(last)
      else prev
  }

  /** Row `k` is under the threshold, no row under the threshold is closer, and
      every earlier row is either not under the threshold or strictly farther:
      the first of the closest rows under the threshold. */
  ghost predicate IsClosestMatch(rows: seq<User>, live: Descriptor, dist: Metric, k: int) {
    && 0 <= k < |rows|
    && Distance(dist, rows[k], live) < Threshold
    && (forall j :: 0 <= j < k ==>
          Distance(dist, rows[j], live) >= Threshold
          || Distance(dist, rows[j], live) > Distance(dist, rows[k], live))
    && (forall j :: k < j < |rows| ==>
          Distance(dist, rows[j], live) >= Threshold
          || Distance(dist, rows[j], live) >= Distance(dist, rows[k], live))
  }

  /** No match exactly when no row is strictly under the threshold (an empty store,
      or every distance at 0.4 or more). */
  lemma {:induction false} ClosestNoneIff(rows: seq<User>, live: Descriptor, dist: Metric)
    ensures Closest(rows, live, dist).None? <==>
              forall j :: 0 <= j < |rows| ==> Distance(dist, rows[j], live) >= Threshold
    decreases |rows|
  {
    if rows != [] {
      var last := |rows| - 1;
      var pre := rows[..last];
      ClosestNoneIff(pre, live, dist);
      assert forall j :: 0 <= j < last ==> pre[j] == rows[j];
    }
  }

  /** Whatever the scan settles on is the first closest row under the threshold. */
  lemma {:induction false} ClosestIsClosestMatch(rows: seq<User>, live: Descriptor, dist: Metric)
    requires Closest(rows, live, dist).Some?
    ensures IsClosestMatch(rows, live, dist, Closest(rows, live, dist).value)
    decreases |rows|
  {
    var last := |rows| - 1;
    var pre := rows[..last];
    assert forall j :: 0 <= j < last ==> pre[j] == rows[j];
    var prev := Closest(pre, live, dist);
    if prev.Some? {
      ClosestIsClosestMatch(pre, live, dist);
    } else {
      ClosestNoneIff(pre, live, dist);
    }
  }

  /** At most one row is the first closest row under the threshold. */
  lemma ClosestMatchUnique(rows: seq<User>, live: Descriptor, dist: Metric, k: int, k': int)
    requires IsClosestMatch(rows, live, dist, k) && IsClosestMatch(rows, live, dist, k')
    ensures k == k'
  {
  }

  /** The scan finds row `k` exactly when row `k` is the first closest row under
      the threshold. */
  lemma ClosestIff(rows: seq<User>, live: Descriptor, dist: Metric, k: int)
    ensures Closest(rows, live, dist) == Some(k) <==> IsClosestMatch(rows, live, dist, k)
  {
    var r := Closest(rows, live, dist);
    if r.Some? {
      ClosestIsClosestMatch(rows, live, dist);
      if IsClosestMatch(rows, live, dist, k) {
        ClosestMatchUnique(rows, live, dist, k, r.value);
      }
    } else {
      ClosestNoneIff(rows, live, dist);
    }
  }

  /** The loop of the route over `users = User.query.all()`. */
  method Scan(users: seq<User>, live: Descriptor, dist: Metric) returns (closest: Option<nat>)
    ensures closest == Closest(users, live, dist)
    ensures closest.None? <==>
              forall j :: 0 <= j < |users| ==> Distance(dist, users[j], live) >= Threshold
    ensures closest.Some? ==> IsClosestMatch(users, live, dist, closest.value)
  {
    closest := None;
    var closestDistance := Infinity;
    var threshold := Threshold;
    for i := 0 to |users|
      invariant closest == Closest(users[..i], live, dist)
      invariant closestDistance ==
                  if closest.None? then Infinity
                  else Finite(Distance(dist, users[closest.value], live))
    {
      assert users[..i + 1][..i] == users[..i];
      var distance := Distance(dist, users[i], live);
      if Below(distance, closestDistance) && distance < threshold {
        closestDistance := Finite(distance);
        closest := Some(i);
      }
    }
    assert users[..|users|] == users;
    ClosestNoneIff(users, live, dist);
    if closest.Some? {
      ClosestIsClosestMatch(users, live, dist);
    }
  }

  /** The detail group a match reports: the student's or the staff member's. */
  datatype RoleFields =
    | StudentFields(dob: Option<string>, usn: Option<string>, cgpa: Option<string>)
    | StaffFields(department: Option<string>, designation: Option<string>)
    | NoRoleFields

  /** The `user` member of a successful identification; it never carries the id. */
  datatype Profile = Profile(name: string, role: string, fields: RoleFields)

  function ProfileOf(u: User): Profile {
    Profile(u.name, u.role,
            if u.role == Student then StudentFields(u.dob, u.usn, u.cgpa)
            else if u.role == Staff then StaffFields(u.department, u.designation)
            else NoRoleFields)
  }

  /** A stored user is reported with its name, its role and the full detail group of
      that role, and nothing of the other role. */
  lemma ProfileOfStored(u: User)
    requires WellFormed(u)
    ensures var p := ProfileOf(u);
            && p.name == u.name && p.role == u.role
            && (u.role == Student ==>
                  p.fields.StudentFields? && Present(p.fields.dob)
                  && Present(p.fields.usn) && Present(p.fields.cgpa))
            && (u.role == Staff ==>
                  p.fields.StaffFields? && Present(p.fields.department)
                  && Present(p.fields.designation))
  {
  }

  datatype Identification = Identified(profile: Profile) | Unidentified(failure: Failure)

  /** The text Python gives the AttributeError of `None.split(',')`, raised when the
      image member is JSON null. */
  const NullImageText: string := "'NoneType' object has no attribute 'split'"

  /** The outcome of one identification against the users `rows`, in table order. */
  function Recognize(rows: seq<User>, image: Arg, embed: Embedder, dist: Metric): (r: Identification)
    ensures image.Absent? ==> r == Unidentified(Internal(KeyErrorText("image")))
    ensures image.Text? && embed(image.s) == Faces([]) ==> r == Unidentified(NoFaceDetected)
    ensures r.Identified? <==>
              && image.Text? && embed(image.s).Faces? && |embed(image.s).descriptors| > 0
              && exists j :: 0 <= j < |rows|
                   && Distance(dist, rows[j], embed(image.s).descriptors[0]) < Threshold
    ensures r.Identified? ==>
              exists k :: IsClosestMatch(rows, embed(image.s).descriptors[0], dist, k)
                          && r.profile == ProfileOf(rows[k])
    ensures (image.Text? && embed(image.s).Faces? && |embed(image.s).descriptors| > 0
             && r.Unidentified?)
              ==> r == Unidentified(NoMatchingUser)
  {
    match image
    case Absent => Unidentified(Internal(KeyErrorText("image")))
    case Null => Unidentified(Internal(NullImageText))
    case Text(s) =>
      match embed(s)
      case Undecodable(reason) => Unidentified(Internal(reason))
      case Faces(encodings) =>
        if |encodings| == 0 then Unidentified(NoFaceDetected)
        else
          var live := encodings[0];
          ClosestNoneIff(rows, live, dist);
          match Closest(rows, live, dist)
          case None => Unidentified(NoMatchingUser)
          case Some(k) =>
            ClosestIsClosestMatch(rows, live, dist);
            Identified(ProfileOf(rows[k]))
  }
}
