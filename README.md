# Face registry: registration, identification and search

This project models the Flask service in `test.py`. The service keeps a table of users. Each user has an identifier, a name, a role (`student` or `staff`), that role's detail fields and one face descriptor. The service offers three routes:

- **`/register-user`** runs a chain of guards in a fixed order, then inserts one row. The guards check for missing keys, then an empty name, role or image, then whether a face is found, then whether the identifier is already taken, then the details the role needs. Any other role is refused.
- **`/identify-user`** takes the first face found in a live image. It scans the table in order and keeps the closest stored user whose distance is strictly below 0.4. A tie goes to the earlier user. It answers with that user's name, role and role details, never the identifier.
- **`/search-user`** narrows the table one filter at a time. Name, usn, department and designation are matched as case-insensitive substrings (`ilike '%x%'`). Role must match exactly. Each matching user is listed with all eight columns.

The model is written as Dafny:

- `UserStore` is a class holding a map from identifier to record, plus the insertion order. `Rows()` is the table as `User.query.all()` returns it.
- Each route is a method on the class, proved against a specification function (`Enroll`, `Recognize`, `Selected`).
- The loops of the routes are methods with invariants (`Scan`, `ListUsers`). The step-by-step narrowing of the search query is the method `Filter`.

Three collaborators become parameters:

- the face-embedding provider: `Embedder`, from an image string to "undecodable" or a list of descriptors;
- the distance: `Metric`, into the reals;
- the request body: datatypes `Request` and `Arg`.

Behaviour of `test.py` worth knowing, which the model follows:

- The identifier is never checked for emptiness, so an empty string is accepted as an identifier.
- The duplicate check runs before the role check. A duplicate with an unknown role is reported as "User already exists.".
- A missing `user_id`, `name`, `role` or `image` key is not a validation failure. The lookup raises `KeyError`, and the catch-all handler answers with the key's text (`'name'`).
- The search route as written never returns results (see Findings).

## Model

| member | source | states |
|---|---|---|
| `Registration.Enroll` | test.py:377-426 | The guards fire in source order. A missing `user_id`, `name`, `role` or `image` key gives that key's KeyError text, in that order of lookup. An empty name, role or image gives "Missing required fields." before face detection. No face gives "No face detected.". A known id gives "User already exists." whatever the role or its details. Next come incomplete student or staff details, then "Invalid role provided.". Registration succeeds exactly when every guard passes. The new record has the first descriptor, the request's name and role, and only its role's detail group. |
| `Registration.SecondRegistrationRejected` | test.py:397-398 | After one successful registration, no later request with the same id registers again. Once the field and face guards pass, it is refused as a duplicate. |
| `Registry.UserStore.Register` | test.py:377-426 | The route decides as `Enroll` does. On refusal the table is unchanged. On success, exactly one record is added under its id at the end of the scan order, and nothing else changes. The table invariant (unique ids, well-formed role groups) is kept. |
| `Registry.Insert` | test.py:420-421 | Inserting a well-formed record under a new id keeps the table valid. It appends the record to the scan and leaves earlier rows unchanged. |
| `Registry.UserStore.Rows` | test.py:443 | The scan lists every stored user exactly once: every stored record appears, no id appears twice, and the count equals the number of stored users. Each row is the record stored under its id and has its role's detail group. |
| `Registry.RowsOf` | test.py:443 | The rows are the records of the ids in scan order, one per id. |
| `Matching.Closest` | test.py:445-453 | The scan's choice is either nothing or a row strictly under the threshold. |
| `Matching.ClosestNoneIff` | test.py:445-474 | There is no match exactly when no stored distance is strictly below 0.4. This covers an empty table and a distance of exactly 0.4. |
| `Matching.ClosestIsClosestMatch` | test.py:449-453 | The chosen row is under 0.4. No row under 0.4 is closer. Every earlier row is either not under 0.4 or strictly farther, so the first of equal minima wins. |
| `Matching.ClosestMatchUnique` | test.py:449-453 | At most one row is the first closest row under the threshold. |
| `Matching.ClosestIff` | test.py:445-453 | The scan picks row k exactly when row k is the first closest row under the threshold. |
| `Matching.Scan` | test.py:445-453 | The loop, with its running best starting at infinity and the strict test on both the best and 0.4, returns the first closest row under the threshold, or nothing when no row is under it. |
| `Matching.ProfileOfStored` | test.py:455-470 | A matched stored user is reported with name, role and the full detail group of its role, and never the other group. |
| `Matching.Recognize` | test.py:430-477 | A missing image gives the KeyError text. No face gives "No face detected.". A match happens exactly when some stored distance to the first live descriptor is under 0.4. The reported profile is that of the first closest row. Every other outcome with a face is "No matching user found.". |
| `Registry.UserStore.Identify` | test.py:430-477 | The route answers as `Recognize` does over the current table. |
| `Registry.RegisterThenIdentify` | test.py:400-470 | A user registered with descriptor d is found by an image whose first face yields d, with the name, role and details given at registration. This assumes self-distance is zero and no earlier user is at distance zero from d. |
| `Search.HasInfixOccurs` | test.py:491-498 | When the substring test holds, the text occurs in the column at some position. |
| `Search.OccursHasInfix` | test.py:491-498 | An occurrence of the text at any position of the column makes the substring test hold. |
| `Search.HasInfixIff` | test.py:491-498 | The substring test holds exactly when the text occurs at some position of the column, which is `LIKE '%text%'`. |
| `Search.CriteriaHold` | test.py:491-500 | A user passes every filter the route adds exactly when it satisfies the search rule: every given argument restricts, an omitted or empty one does not. |
| `Search.NarrowedIsSelected` | test.py:491-502 | Adding the filters one after another selects exactly the users the rule selects, in table order. |
| `Search.Filter` | test.py:491-502 | The query built by the five conditional `filter` steps returns exactly the matching users in table order. |
| `Search.SelectedIff` | test.py:491-500 | A user is in the result exactly when it is stored and matches every given filter. A NULL column never matches a filter on it. |
| `Search.SelectedAppend` | test.py:491-502 | Selection keeps table order: selecting from a+b is selecting from a, then from b. |
| `Search.SelectedUnfiltered` | test.py:491-500 | With no argument given, or only empty ones, every stored user is returned. |
| `Search.RefineAppend` | test.py:491-500 | One filter keeps the order of the rows it narrows. |
| `Search.ListUsers` | test.py:504-516 | The result list has one entry per result row, in order, and each entry carries all eight columns, the id included. |
| `Registry.UserStore.Search` | test.py:481-521 | The corrected route (reading `User.query`) lists, in table order and in full, exactly the users the search rule selects. |
| `Search.SearchRouteAsWritten` | test.py:481-521 | As written, every search fails with the AttributeError text of `User.query2`. |
| `Search.StaffSearchAsWrittenFails` | test.py:483 | For a table with one staff member and `role=staff`, the rule selects that member, but the route as written lists nobody. |

## Findings

| source | as written | input that shows it | evidently intended | confidence | as-written member | corrected member |
|---|---|---|---|---|---|---|
| test.py:483 | `query = User.query2`: the model class has no `query2`, so the route raises AttributeError and the catch-all answers `success: False` to every search | a table holding one staff user and the request `?role=staff` | `query = User.query`, after which lines 491-516 list the matching users | high (not executed) | `Search.SearchRouteAsWritten` (exhibited by `Search.StaffSearchAsWrittenFails`) | `Registry.UserStore.Search` (with `Search.Filter`, `Search.SelectedIff`) |

## Left out

- HTTP routing, JSON parsing and `jsonify`: outcomes are datatypes. `Records.Message` gives each failure's message text.
- Image decoding (`base64_to_image`, `cvtColor`) and the dlib detector and embedding model (`get_face_encodings`): they are the `Embedder` parameter. Its "undecodable" answer carries the exception text.
- `np.linalg.norm` and floating point: the distance is an abstract `Metric` into the reals. NaN and rounding are not modelled.
- SQLAlchemy sessions, commits and database errors (for example a failing commit): the store is a map plus insertion order. Scan order is taken to be insertion order. SQLite's order for a query without `ORDER BY` is not guaranteed to be insertion order.
- `%` and `_` inside filter text act as SQL wildcards. The model treats filter text as plain text. Case folding is ASCII-only, as SQLite's `lower()` does it.
- A JSON null `user_id`, and request values that are not strings (a numeric `cgpa`, for instance, where 0 would be falsy): the model takes `user_id` as absent or a string, and the detail fields as absent, null or strings.
- Exception texts other than a KeyError on a missing key, `None.split` on a null identification image, the decoder's reason and the missing `query2` attribute.
- `if closest_match:` treats every matched record as truthy, which is the case for a model instance.
- `Registry.RegisterThenIdentify`: holds only under the stated distance assumptions (self-distance zero, no earlier user at distance zero). The source promises nothing about the embedding model.
- The commented-out earlier versions at the top of `test.py` and the browser script `script_verify.js` (camera, canvas, speech) are not part of this model.
