/** The user table and the three routes that use it. The table is kept as a map from
    identifier to record (the primary-key lookup of `User.query.get`) together with
    the order in which rows were inserted (the order `User.query.all()` returns them). */
module Registry {
  import opened Records
  import opened Registration
  import opened Matching
  import opened Search

  /** The records of `byId` listed in the order `ids`. */
  function RowsOf(byId: map<string, User>, ids: seq<string>): (rows: seq<User>)
    requires forall id :: id in ids ==> id in byId
    ensures |rows| == |ids|
    ensures forall i :: 0 <= i < |ids| ==> rows[i] == byId[ids[i]]
    decreases |ids|
  {
    if ids == [] then [] else RowsOf(byId, ids[..|ids| - 1]) + [byId[ids[|ids| - 1]]]
  }

  /** Identifiers are unique, each record sits under its own identifier, the scan
      order lists every stored identifier once, and every record carries exactly the
      detail group of its role. */
  ghost predicate ValidTable(byId: map<string, User>, ids: seq<string>) {
    && (forall id :: id in byId <==> id in ids)
    && (forall i, j :: 0 <= i < j < |ids| ==> ids[i] != ids[j])
    && (forall id :: id in byId ==> byId[id].id == id && WellFormed(byId[id]))
  }

  /** Inserting a well-formed record under a new identifier keeps the table valid,
      appends the record to the scan and leaves the rows before it as they were. */
  lemma Insert(byId: map<string, User>, ids: seq<string>, u: User)
    requires ValidTable(byId, ids)
    requires u.id !in byId && WellFormed(u)
    ensures ValidTable(byId[u.id := u], ids + [u.id])
    ensures RowsOf(byId[u.id := u], ids + [u.id]) == RowsOf(byId, ids) + [u]
  {
  }

  class UserStore {
    var records: map<string, User>
    var order: seq<string>

    ghost predicate Valid()
      reads this
    {
      ValidTable(records, order)
    }

    /** `User.query.all()`: every stored user in table order. */
    function Rows(): (rows: seq<User>)
      reads this
      requires Valid()
      ensures |rows| == |records|
      ensures forall u :: u in rows ==> u.id in records && records[u.id] == u && WellFormed(u)
      ensures forall id :: id in records ==> records[id] in rows
      ensures forall i, j :: 0 <= i < j < |rows| ==> rows[i].id != rows[j].id
    {
      CardinalityOfOrder();
      var rows := RowsOf(records, order);
      forall id | id in records
        ensures records[id] in rows
      {
        var i :| 0 <= i < |order| && order[i] == id;
        assert rows[i] == records[id];
      }
      rows
    }

    lemma CardinalityOfOrder()
      requires Valid()
      ensures |records| == |order|
    {
      var ids := set i | 0 <= i < |order| :: order[i];
      assert records.Keys == ids;
      DistinctCardinality(order);
    }

    constructor ()
      ensures Valid()
      ensures records == map[] && order == []
    {
      records := map[];
      order := [];
    }

    /** `/register-user`: decides as `Enroll` does and, on success only, adds the new
        record under its identifier at the end of the table. */
    method Register(req: Request, embed: Embedder) returns (r: Enrollment)
      requires Valid()
      modifies this
      ensures Valid()
      ensures r == Enroll(old(records), req, embed)
      ensures r.Rejected? ==> records == old(records) && order == old(order)
      ensures r.Registered? ==>
                && r.user.id !in old(records)
                && records == old(records)[r.user.id := r.user]
                && order == old(order) + [r.user.id]
      ensures Rows() == if r.Registered? then old(Rows()) + [r.user] else old(Rows())
    {
      if req.userId.None? { return Rejected(Internal(KeyErrorText("user_id"))); }
      var userId := req.userId.value;
      if req.name.Absent? { return Rejected(Internal(KeyErrorText("name"))); }
      if req.role.Absent? { return Rejected(Internal(KeyErrorText("role"))); }
      if req.image.Absent? { return Rejected(Internal(KeyErrorText("image"))); }

      if !Given(req.name) || !Given(req.role) || !Given(req.image) {
        return Rejected(MissingRequiredFields);
      }

      var detection := embed(req.image.s);
      if detection.Undecodable? { return Rejected(Internal(detection.reason)); }
      var faceEncodings := detection.descriptors;
      if |faceEncodings| == 0 { return Rejected(NoFaceDetected); }
      var encoding := faceEncodings[0];

      if userId in records { return Rejected(UserAlreadyExists); }

      var user := User(userId, req.name.s, req.role.s, None, None, None, None, None, encoding);
      if user.role == Student {
        user := user.(dob := req.dob, usn := req.usn, cgpa := req.cgpa);
        if !Present(user.dob) || !Present(user.usn) || !Present(user.cgpa) {
          return Rejected(MissingStudentDetails);
        }
      } else if user.role == Staff {
        user := user.(department := req.department, designation := req.designation);
        if !Present(user.department) || !Present(user.designation) {
          return Rejected(MissingStaffDetails);
        }
      } else {
        return Rejected(InvalidRole);
      }

      assert WellFormed(user);
      Insert(records, order, user);
      records := records[userId := user];
      order := order + [userId];
      r := Registered(user);
    }

    /** `/identify-user`: answers as `Recognize` does over the current table. */
    method Identify(image: Arg, embed: Embedder, dist: Metric) returns (r: Identification)
      requires Valid()
      ensures r == Recognize(Rows(), image, embed, dist)
    {
      if image.Absent? { return Unidentified(Internal(KeyErrorText("image"))); }
      if image.Null? { return Unidentified(Internal(NullImageText)); }
      var detection := embed(image.s);
      if detection.Undecodable? { return Unidentified(Internal(detection.reason)); }
      var liveEncodings := detection.descriptors;
      if |liveEncodings| == 0 { return Unidentified(NoFaceDetected); }
      var liveEncoding := liveEncodings[0];
      var users := Rows();
      var closestMatch := Scan(users, liveEncoding, dist);
      if closestMatch.Some? {
        r := Identified(ProfileOf(users[closestMatch.value]));
      } else {
        r := Unidentified(NoMatchingUser);
      }
    }

    /** `/search-user` with its first statement reading `User.query`: every stored
        user that matches every given argument, in table order, listed in full. */
    method Search(q: SearchQuery) returns (r: SearchResult)
      requires Valid()
      ensures r.Listed?
      ensures |r.users| == |Selected(Rows(), q)|
      ensures forall k :: 0 <= k < |r.users| ==> r.users[k] == ListingOf(Selected(Rows(), q)[k])
    {
      var results := Filter(Rows(), q);
      var users := ListUsers(results);
      r := Listed(users);
    }
  }

  /** A user registered with descriptor `d` and then looked for with an image whose
      first face yields `d` again is found, with the details the registration gave,
      provided the distance is zero from a descriptor to itself and no user stored
      before holds a descriptor at distance zero from `d` (an earlier one would win
      the tie). */
  lemma {:induction false} RegisterThenIdentify(store: map<string, User>, rows: seq<User>,
                                                req: Request, embed: Embedder, dist: Metric,
                                                image: string)
    requires Enroll(store, req, embed).Registered?
    requires var u := Enroll(store, req, embed).user;
             && FaceFound(embed(image)) && embed(image).descriptors[0] == u.encoding
             && dist(u.encoding, u.encoding) == 0.0
             && forall j :: 0 <= j < |rows| ==> Distance(dist, rows[j], u.encoding) > 0.0
    ensures var u := Enroll(store, req, embed).user;
            Recognize(rows + [u], Text(image), embed, dist)
              == Identified(Profile(req.name.s, req.role.s,
                                    if req.role.s == Student then StudentFields(req.dob, req.usn, req.cgpa)
                                    else StaffFields(req.department, req.designation)))
  {
  }

  lemma {:induction false} DistinctCardinality(s: seq<string>)
    requires forall i, j :: 0 <= i < j < |s| ==> s[i] != s[j]
    ensures |set i | 0 <= i < |s| :: s[i]| == |s|
    decreases |s|
  {
    if s != [] {
      var init := s[..|s| - 1];
      DistinctCardinality(init);
      var a := set i | 0 <= i < |init| :: init[i];
      var b := set i | 0 <= i < |s| :: s[i];
      assert b == a + {s[|s| - 1]};
      assert s[|s| - 1] !in a;
    }
  }
}
