/** The record shape of the face registry and the values that the three routes
    exchange with their collaborators: the request arguments, the face-embedding
    provider and the failure kinds with the messages the routes answer with. */
module Records {

  datatype Option<T> = None | Some(value: T)

  /** A face descriptor as the embedding model computes it (128 numbers in practice). */
  type Descriptor = seq<real>

  /** One stored user: the SQL table `User`, one row per identifier. The two role
      field groups are nullable columns; `encoding` is the pickled descriptor. */
  datatype User = User(
    id: string,
    name: string,
    role: string,
    dob: Option<string>,
    usn: Option<string>,
    cgpa: Option<string>,
    department: Option<string>,
    designation: Option<string>,
    encoding: Descriptor)

  const Student: string := "student"
  const Staff: string := "staff"

  /** Python truthiness of an optional string: set and not empty. */
  predicate Present(v: Option<string>) {
    v.Some? && v.value != ""
  }

  /** A JSON request member read with `data[key]`: missing (the lookup raises
      KeyError), JSON null, or a string. */
  datatype Arg = Absent | Null | Text(s: string)

  /** Python truthiness of a request member. */
  predicate Given(a: Arg) {
    a.Text? && a.s != ""
  }

  /** What the registration route can put in the store: a non-empty name, and a role
      that is either student with its three details set and the staff columns unset,
      or staff with its two details set and the student columns unset. */
  predicate WellFormed(u: User) {
    && u.name != ""
    && (|| (u.role == Student && Present(u.dob) && Present(u.usn) && Present(u.cgpa)
            && u.department.None? && u.designation.None?)
        || (u.role == Staff && Present(u.department) && Present(u.designation)
            && u.dob.None? && u.usn.None? && u.cgpa.None?))
  }

  /** What the embedding provider makes of an encoded image: either the image could
      not be decoded (the reason is the text of the exception raised), or one
      descriptor per detected face, in the detector's order. */
  datatype Detection = Undecodable(reason: string) | Faces(descriptors: seq<Descriptor>)

  type Embedder = string -> Detection

  /** The distance between a stored descriptor and a live one. */
  type Metric = (Descriptor, Descriptor) -> real

  /** Every way a route answers `success: False`. `Internal` carries the text of an
      exception caught by the route's catch-all handler. */
  datatype Failure =
    | MissingRequiredFields
    | NoFaceDetected
    | UserAlreadyExists
    | MissingStudentDetails
    | MissingStaffDetails
    | InvalidRole
    | NoMatchingUser
    | Internal(text: string)

  /** The `message` member of the JSON answer for each failure. */
  function Message(f: Failure): string {
    match f
    case MissingRequiredFields => "Missing required fields."
    case NoFaceDetected => "No face detected."
    case UserAlreadyExists => "User already exists."
    case MissingStudentDetails => "Missing student details."
    case MissingStaffDetails => "Missing staff details."
    case InvalidRole => "Invalid role provided."
    case NoMatchingUser => "No matching user found."
    case Internal(text) => text
  }

  /** The text of the KeyError raised by `data[key]` on a missing key. */
  function KeyErrorText(key: string): string {
    "'" + key + "'"
  }
}
