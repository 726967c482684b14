/** The filter rule of the `/search-user` route: optional case-insensitive substring
    filters on name, usn, department and designation, and an exact filter on role,
    applied one after another to the query, then every remaining user listed with
    all eight of its fields. */
module Search {
  import opened Records

  /** ASCII lower-casing, which is what SQLite's `lower()` does. */
  function Fold(c: char): char {
    if 'A' <= c <= 'Z' then (c as int + ('a' as int - 'A' as int)) as char else c
  }

  function FoldAll(s: string): (r: string)
    ensures |r| == |s|
    ensures forall i :: 0 <= i < |s| ==> r[i] == Fold(s[i])
  {
    if s == [] then [] else [Fold(s[0])] + FoldAll(s[1..])
  }

  /** `p` occurs in `s` starting at position `k`. */
  ghost predicate OccursAt(s: string, p: string, k: nat) {
    k + |p| <= |s| && s[k..k + |p|] == p
  }

  /** `p` occurs somewhere in `s`: `s LIKE '%p%'` for a `p` free of wildcards. */
  function HasInfix(s: string, p: string): bool {
    p <= s || (s != [] && HasInfix(s[1..], p))
  }

  /** A substring test that holds has a position where `p` occurs. */
  lemma {:induction false} HasInfixOccurs(s: string, p: string)
    requires HasInfix(s, p)
    ensures exists k: nat :: OccursAt(s, p, k)
    decreases |s|
  {
    if p <= s {
      assert OccursAt(s, p, 0);
    } else {
      HasInfixOccurs(s[1..], p);
      var k: nat :| OccursAt(s[1..], p, k);
      assert s[1..][k..k + |p|] == s[k + 1..k + 1 + |p|];
      assert OccursAt(s, p, k + 1);
    }
  }

  /** An occurrence at any position makes the substring test hold. */
  lemma {:induction false} OccursHasInfix(s: string, p: string, k: nat)
    requires OccursAt(s, p, k)
    ensures HasInfix(s, p)
    decreases k
  {
    if k == 0 {
      assert s[..|p|] == p;
    } else {
      assert s[1..][k - 1..k - 1 + |p|] == s[k..k + |p|];
      OccursHasInfix(s[1..], p, k - 1);
    }
  }

  lemma HasInfixIff(s: string, p: string)
    ensures HasInfix(s, p) <==> exists k: nat :: OccursAt(s, p, k)
  {
    if HasInfix(s, p) {
      HasInfixOccurs(s, p);
    }
    if k: nat :| OccursAt(s, p, k) {
      OccursHasInfix(s, p, k);
    }
  }

  /** `ilike '%text%'` on a column: a NULL column never matches. */
  predicate Like(column: Option<string>, text: string) {
    column.Some? && HasInfix(FoldAll(column.value), FoldAll(text))
  }

  /** The query-string arguments, each `None` when the argument is not given. */
  datatype SearchQuery = SearchQuery(
    name: Option<string>,
    usn: Option<string>,
    department: Option<string>,
    designation: Option<string>,
    role: Option<string>)

  /** One `filter` or `filter_by` the route adds to the query. */
  datatype Criterion =
    | NameLike(text: string)
    | UsnLike(text: string)
    | DepartmentLike(text: string)
    | DesignationLike(text: string)
    | RoleIs(role: string)

  predicate Holds(c: Criterion, u: User) {
    match c
    case NameLike(t) => Like(Some(u.name), t)
    case UsnLike(t) => Like(u.usn, t)
    case DepartmentLike(t) => Like(u.department, t)
    case DesignationLike(t) => Like(u.designation, t)
    case RoleIs(r) => u.role == r
  }

  /** The filters the route adds, in the order it adds them: one per argument that
      is given and not empty. */
  function Criteria(q: SearchQuery): seq<Criterion> {
    var byName := if Present(q.name) then [NameLike(q.name.value)] else [];
    var byUsn := if Present(q.usn) then byName + [UsnLike(q.usn.value)] else byName;
    var byDepartment :=
      if Present(q.department) then byUsn + [DepartmentLike(q.department.value)] else byUsn;
    var byDesignation :=
      if Present(q.designation) then byDepartment + [DesignationLike(q.designation.value)]
      else byDepartment;
    if Present(q.role) then byDesignation + [RoleIs(q.role.value)] else byDesignation
  }

  /** The query narrowed by one more filter: the rows it keeps, in their order. */
  function Refine(rows: seq<User>, c: Criterion): seq<User> {
    if rows == [] then []
    else (if Holds(c, rows[0]) then [rows[0]] else []) + Refine(rows[1..], c)
  }

  /** The query after the filters `cs` have been added one after another. */
  function Narrowed(rows: seq<User>, cs: seq<Criterion>): seq<User> {
    if cs == [] then rows else Refine(Narrowed(rows, cs[..|cs| - 1]), cs[|cs| - 1])
  }

  lemma NarrowedSnoc(rows: seq<User>, cs: seq<Criterion>, c: Criterion)
    ensures Narrowed(rows, cs + [c]) == Refine(Narrowed(rows, cs), c)
  {
  }

  /** The search rule: every given argument restricts, none other does. */
  predicate Matches(q: SearchQuery, u: User) {
    && (Present(q.name) ==> Like(Some(u.name), q.name.value))
    && (Present(q.usn) ==> Like(u.usn, q.usn.value))
    && (Present(q.department) ==> Like(u.department, q.department.value))
    && (Present(q.designation) ==> Like(u.designation, q.designation.value))
    && (Present(q.role) ==> u.role == q.role.value)
  }

  /** The users a search returns: those of `rows` that match, in table order. */
  function Selected(rows: seq<User>, q: SearchQuery): seq<User> {
    if rows == [] then []
    else (if Matches(q, rows[0]) then [rows[0]] else []) + Selected(rows[1..], q)
  }

  lemma {:induction false} RefineAppend(a: seq<User>, b: seq<User>, c: Criterion)
    ensures Refine(a + b, c) == Refine(a, c) + Refine(b, c)
    decreases |a|
  {
    if a != [] {
      assert (a + b)[0] == a[0] && (a + b)[1..] == a[1..] + b;
      RefineAppend(a[1..], b, c);
    } else {
      assert a + b == b;
    }
  }

  /** Narrowing by several filters keeps a row exactly when every filter holds of it. */
  lemma {:induction false} NarrowedCons(u: User, rest: seq<User>, cs: seq<Criterion>)
    ensures Narrowed([u] + rest, cs) ==
              (if forall c | c in cs :: Holds(c, u) then [u] else []) + Narrowed(rest, cs)
    decreases |cs|
  {
    if cs != [] {
      var init, c := cs[..|cs| - 1], cs[|cs| - 1];
      assert cs == init + [c];
      NarrowedCons(u, rest, init);
      var head := if forall c' | c' in init :: Holds(c', u) then [u] else [];
      RefineAppend(head, Narrowed(rest, init), c);
      assert Refine([u], c) == (if Holds(c, u) then [u] else []) + Refine([], c);
    }
  }

  lemma CriteriaHold(q: SearchQuery, u: User)
    ensures (forall c | c in Criteria(q) :: Holds(c, u)) <==> Matches(q, u)
  {
    var cs := Criteria(q);
    if Present(q.name) { assert NameLike(q.name.value) in cs; }
    if Present(q.usn) { assert UsnLike(q.usn.value) in cs; }
    if Present(q.department) { assert DepartmentLike(q.department.value) in cs; }
    if Present(q.designation) { assert DesignationLike(q.designation.value) in cs; }
    if Present(q.role) { assert RoleIs(q.role.value) in cs; }
  }

  /** Adding the filters one after another selects exactly what the search rule
      selects, in the same order. */
  lemma {:induction false} NarrowedIsSelected(rows: seq<User>, q: SearchQuery)
    ensures Narrowed(rows, Criteria(q)) == Selected(rows, q)
    decreases |rows|
  {
    var cs := Criteria(q);
    if rows == [] {
      NarrowedOfEmpty(cs);
    } else {
      assert rows == [rows[0]] + rows[1..];
      NarrowedCons(rows[0], rows[1..], cs);
      CriteriaHold(q, rows[0]);
      NarrowedIsSelected(rows[1..], q);
    }
  }

  lemma {:induction false} NarrowedOfEmpty(cs: seq<Criterion>)
    ensures Narrowed([], cs) == []
    decreases |cs|
  {
    if cs != [] {
      NarrowedOfEmpty(cs[..|cs| - 1]);
    }
  }

  /** A user is in the result exactly when it is stored and matches every given filter. */
  lemma {:induction false} SelectedIff(rows: seq<User>, q: SearchQuery, u: User)
    ensures u in Selected(rows, q) <==> u in rows && Matches(q, u)
    decreases |rows|
  {
    if rows != [] {
      SelectedIff(rows[1..], q, u);
      assert rows == [rows[0]] + rows[1..];
    }
  }

  /** The result keeps table order: selecting from two consecutive stretches of the
      table is selecting from each in turn. */
  lemma {:induction false} SelectedAppend(a: seq<User>, b: seq<User>, q: SearchQuery)
    ensures Selected(a + b, q) == Selected(a, q) + Selected(b, q)
    decreases |a|
  {
    if a != [] {
      assert (a + b)[0] == a[0] && (a + b)[1..] == a[1..] + b;
      SelectedAppend(a[1..], b, q);
    } else {
      assert a + b == b;
    }
  }

  /** With no argument given (or only empty ones) every stored user is returned. */
  lemma {:induction false} SelectedUnfiltered(rows: seq<User>, q: SearchQuery)
    requires !Present(q.name) && !Present(q.usn) && !Present(q.department)
    requires !Present(q.designation) && !Present(q.role)
    ensures Selected(rows, q) == rows
    decreases |rows|
  {
    if rows != [] {
      SelectedUnfiltered(rows[1..], q);
      assert rows == [rows[0]] + rows[1..];
    }
  }

  /** The query the route builds, one `filter` per given argument, before `.all()`
    runs it: exactly the users the search rule selects, in table order. */
  method Filter(rows: seq<User>, q: SearchQuery) returns (query: seq<User>)
    ensures query == Selected(rows, q)
  {
    query := rows;
    ghost var applied: seq<Criterion> := [];
    if Present(q.name) {
      NarrowedSnoc(rows, applied, NameLike(q.name.value));
      query, applied := Refine(query, NameLike(q.name.value)), applied + [NameLike(q.name.value)];
    }
    assert query == Narrowed(rows, applied);
    if Present(q.usn) {
      NarrowedSnoc(rows, applied, UsnLike(q.usn.value));
      query, applied := Refine(query, UsnLike(q.usn.value)), applied + [UsnLike(q.usn.value)];
    }
    assert query == Narrowed(rows, applied);
    if Present(q.department) {
      NarrowedSnoc(rows, applied, DepartmentLike(q.department.value));
      query, applied := Refine(query, DepartmentLike(q.department.value)),
                        applied + [DepartmentLike(q.department.value)];
    }
    assert query == Narrowed(rows, applied);
    if Present(q.designation) {
      NarrowedSnoc(rows, applied, DesignationLike(q.designation.value));
      query, applied := Refine(query, DesignationLike(q.designation.value)),
                        applied + [DesignationLike(q.designation.value)];
    }
    assert query == Narrowed(rows, applied);
    if Present(q.role) {
      NarrowedSnoc(rows, applied, RoleIs(q.role.value));
      query, applied := Refine(query, RoleIs(q.role.value)), applied + [RoleIs(q.role.value)];
    }
    assert query == Narrowed(rows, applied);
    assert applied == Criteria(q);
    NarrowedIsSelected(rows, q);
  }


  /** One entry of the `users` list: all eight columns, the id included. */
  datatype Listing = Listing(
    id: string,
    name: string,
    role: string,
    dob: Option<string>,
    usn: Option<string>,
    cgpa: Option<string>,
    department: Option<string>,
    designation: Option<string>)

  function ListingOf(u: User): Listing {
    Listing(u.id, u.name, u.role, u.dob, u.usn, u.cgpa, u.department, u.designation)
  }

  /** The loop that turns `query.all()` into the `users` list. */
  method ListUsers(results: seq<User>) returns (users: seq<Listing>)
    ensures |users| == |results|
    ensures forall k :: 0 <= k < |results| ==>
              && users[k].id == results[k].id && users[k].name == results[k].name
              && users[k].role == results[k].role
              && users[k].dob == results[k].dob && users[k].usn == results[k].usn
              && users[k].cgpa == results[k].cgpa
              && users[k].department == results[k].department
              && users[k].designation == results[k].designation
  {
    users := [];
    for i := 0 to |results|
      invariant |users| == i
      invariant forall k :: 0 <= k < i ==> users[k] == ListingOf(results[k])
    {
      users := users + [ListingOf(results[i])];
    }
  }

  datatype SearchResult = Listed(users: seq<Listing>) | SearchFailed(failure: Failure)

  /** The text of the AttributeError raised by `User.query2`. */
  const NoQuery2Text: string := "type object 'User' has no attribute 'query2'"

  /** The route as written: its first statement reads `User.query2`, an attribute the
      model class does not have, so the catch-all handler answers every request with
      `success: False`, whatever the arguments and the stored users. */
  function SearchRouteAsWritten(rows: seq<User>, q: SearchQuery): (r: SearchResult)
    ensures r.SearchFailed? && Message(r.failure) == NoQuery2Text
  {
    SearchFailed(Internal(NoQuery2Text))
  }

  /** A store holding one staff member and a search by role staff: the rule selects
      that member, the route as written lists nobody. */
  lemma StaffSearchAsWrittenFails(rows: seq<User>, q: SearchQuery)
    requires rows == [User("s1", "Asha", Staff, None, None, None, Some("CSE"), Some("HOD"), [])]
    requires q == SearchQuery(None, None, None, None, Some(Staff))
    ensures Selected(rows, q) == rows
    ensures !SearchRouteAsWritten(rows, q).Listed?
  {
  }
}
