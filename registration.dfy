/** The decision taken by the `/register-user` route: a chain of guards, in the
    order the route runs them, followed by one insert. The route itself, which
    changes the store, is `Registry.UserStore.Register`; this module states what it
    must decide. */
module Registration {
  import opened Records

  /** The JSON body of a registration request. `user_id`, `name`, `role` and `image`
      are read with `data[key]`; the role details with `data.get(key)`, for which a
      missing member and JSON null are both `None`. */
  datatype Request = Request(
    userId: Option<string>,
    name: Arg,
    role: Arg,
    image: Arg,
    dob: Option<string>,
    usn: Option<string>,
    cgpa: Option<string>,
    department: Option<string>,
    designation: Option<string>)

  datatype Enrollment = Registered(user: User) | Rejected(failure: Failure)

  /** All four members read with `data[key]` are in the body. */
  predicate KeysPresent(req: Request) {
    req.userId.Some? && !req.name.Absent? && !req.role.Absent? && !req.image.Absent?
  }

  /** Name, role and image are all non-empty strings. */
  predicate RequiredGiven(req: Request) {
    Given(req.name) && Given(req.role) && Given(req.image)
  }

  predicate FaceFound(d: Detection) {
    d.Faces? && |d.descriptors| > 0
  }

  /** The role is one of the two known roles and its detail group is complete. */
  predicate RoleDetailsGiven(req: Request)
    requires req.role.Text?
  {
    || (req.role.s == Student && Present(req.dob) && Present(req.usn) && Present(req.cgpa))
    || (req.role.s == Staff && Present(req.department) && Present(req.designation))
  }

  /** The outcome of one registration against the store `store`. */
  function Enroll(store: map<string, User>, req: Request, embed: Embedder): (r: Enrollment)
    // the four key lookups raise before any guard runs
    ensures req.userId.None? ==> r == Rejected(Internal(KeyErrorText("user_id")))
    ensures req.userId.Some? && req.name.Absent? ==> r == Rejected(Internal(KeyErrorText("name")))
    ensures (req.userId.Some? && !req.name.Absent? && req.role.Absent?)
              ==> r == Rejected(Internal(KeyErrorText("role")))
    ensures (req.userId.Some? && !req.name.Absent? && !req.role.Absent? && req.image.Absent?)
              ==> r == Rejected(Internal(KeyErrorText("image")))
    // missing name, role or image is reported before face detection and the duplicate check
    ensures KeysPresent(req) && !RequiredGiven(req) ==> r == Rejected(MissingRequiredFields)
    ensures (KeysPresent(req) && RequiredGiven(req) && embed(req.image.s) == Faces([]))
              ==> r == Rejected(NoFaceDetected)
    // a known identifier is reported before the role is looked at, whatever the role details
    ensures (KeysPresent(req) && RequiredGiven(req) && FaceFound(embed(req.image.s))
             && req.userId.value in store)
              ==> r == Rejected(UserAlreadyExists)
    ensures (KeysPresent(req) && RequiredGiven(req) && FaceFound(embed(req.image.s))
             && req.userId.value !in store && req.role.s != Student && req.role.s != Staff)
              ==> r == Rejected(InvalidRole)
    ensures (KeysPresent(req) && RequiredGiven(req) && FaceFound(embed(req.image.s))
             && req.userId.value !in store && req.role.s == Student
             && !(Present(req.dob) && Present(req.usn) && Present(req.cgpa)))
              ==> r == Rejected(MissingStudentDetails)
    ensures (KeysPresent(req) && RequiredGiven(req) && FaceFound(embed(req.image.s))
             && req.userId.value !in store && req.role.s == Staff
             && !(Present(req.department) && Present(req.designation)))
              ==> r == Rejected(MissingStaffDetails)
    ensures r.Registered? <==>
              && KeysPresent(req) && RequiredGiven(req) && FaceFound(embed(req.image.s))
              && req.userId.value !in store && RoleDetailsGiven(req)
    // the new record: the first descriptor, and only the detail group of its role
    ensures r.Registered? ==>
              && r.user.id == req.userId.value
              && r.user.name == req.name.s
              && r.user.role == req.role.s
              && r.user.encoding == embed(req.image.s).descriptors[0]
              && WellFormed(r.user)
              && (r.user.role == Student ==>
                    r.user.dob == req.dob && r.user.usn == req.usn && r.user.cgpa == req.cgpa)
              && (r.user.role == Staff ==>
                    r.user.department == req.department && r.user.designation == req.designation)
  {
    if req.userId.None? then Rejected(Internal(KeyErrorText("user_id")))
    else if req.name.Absent? then Rejected(Internal(KeyErrorText("name")))
    else if req.role.Absent? then Rejected(Internal(KeyErrorText("role")))
    else if req.image.Absent? then Rejected(Internal(KeyErrorText("image")))
    else if !Given(req.name) || !Given(req.role) || !Given(req.image) then
      Rejected(MissingRequiredFields)
    else
      match embed(req.image.s)
      case Undecodable(reason) => Rejected(Internal(reason))
      case Faces(encodings) =>
        if |encodings| == 0 then Rejected(NoFaceDetected)
        else if req.userId.value in store then Rejected(UserAlreadyExists)
        else if req.role.s == Student then
          if Present(req.dob) && Present(req.usn) && Present(req.cgpa) then
            Registered(User(req.userId.value, req.name.s, req.role.s,
                            req.dob, req.usn, req.cgpa, None, None, encodings[0]))
          else Rejected(MissingStudentDetails)
        else if req.role.s == Staff then
          if Present(req.department) && Present(req.designation) then
            Registered(User(req.userId.value, req.name.s, req.role.s,
                            None, None, None, req.department, req.designation, encodings[0]))
          else Rejected(MissingStaffDetails)
        else Rejected(InvalidRole)
  }

  /** Once an identifier is registered, no later request for it registers again:
      whatever its payload, it is turned away, and once it gets past the field and
      face checks it is turned away as a duplicate. */
  lemma SecondRegistrationRejected(store: map<string, User>, req: Request, again: Request,
                                   embed: Embedder)
    requires Enroll(store, req, embed).Registered?
    requires again.userId == req.userId
    ensures var u := Enroll(store, req, embed).user;
            Enroll(store[u.id := u], again, embed).Rejected?
    ensures var u := Enroll(store, req, embed).user;
            (KeysPresent(again) && RequiredGiven(again) && FaceFound(embed(again.image.s)))
              ==> Enroll(store[u.id := u], again, embed) == Rejected(UserAlreadyExists)
  {
  }
}
