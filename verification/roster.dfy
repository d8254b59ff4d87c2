/** Group rosters of a course: automatic group numbering, the membership
    checks of `Group.clean` and `Group.can_add_member`, adding and removing
    members, and the `join_group` view, which bypasses part of those checks. */
module Roster {
  import opened Wrappers
  import opened Text

  type StudentId = nat
  type GroupId = nat

  /** A saved group: its number (nullable in the database) and its members. */
  datatype Group = Group(number: Option<nat>, members: set<StudentId>)

  /** The rosters of one course: the group size limit, the enrolled students
      and the saved groups by primary key. */
  datatype Course = Course(maxMembers: nat, enrolled: set<StudentId>, groups: map<GroupId, Group>)

  datatype RosterError =
    | TooManyMembers(limit: nat)
    | InOtherGroup(student: StudentId)
    | NotEnrolled(student: StudentId)
    | DuplicateNumber(number: nat)
    | GroupFull
    | AlreadyInGroup
    | NotEnrolledToAdd
    | NotAMember

  /** The message the source raises; the two per-student messages of `clean`
      name the student, whose full name is not modelled. */
  function Message(e: RosterError): string
  {
    match e
    case TooManyMembers(limit) => "Group cannot have more than " + NatToString(limit) + " members"
    case InOtherGroup(_) => "Student is already in another group for this course"
    case NotEnrolled(_) => "Student is not enrolled in the course"
    case DuplicateNumber(_) => "Group with this Course and Group number already exists."
    case GroupFull => "Group is full"
    case AlreadyInGroup => "Student is already in another group"
    case NotEnrolledToAdd => "Student is not enrolled in the course"
    case NotAMember => "Student is not a member of this group"
  }

  // ---------------------------------------------------------------------
  // Group numbers

  /** The smallest number at or above `n` that is not in `used`. */
  function FirstFree(used: set<nat>, n: nat): (r: nat)
    ensures r >= n && r !in used
    ensures forall k :: n <= k < r ==> k in used
    decreases |used|
  {
    if n in used then
      var r := FirstFree(used - {n}, n + 1);
      assert forall k :: n <= k < r ==> k in used by {
        forall k | n <= k < r
          ensures k in used
        {
          if k > n {
            assert k in used - {n};
          }
        }
      }
      r
    else n
  }

  /** `_get_next_group_number`: counts up from 1 while the number is taken. */
  method NextGroupNumber(existing: set<nat>) returns (number: nat)
    ensures number >= 1 && number !in existing
    ensures forall k :: 1 <= k < number ==> k in existing
  {
    number := 1;
    ghost var ahead := set k | k in existing && k >= 1;
    while number in existing
      invariant number >= 1
      invariant forall k :: 1 <= k < number ==> k in existing
      invariant forall k :: k in ahead <==> k in existing && k >= number
      decreases |ahead|
    {
      ahead := ahead - {number};
      number := number + 1;
    }
  }

  /** The smallest unused positive number is unique: any number with the
      two properties `NextGroupNumber` guarantees is `FirstFree(used, 1)`. */
  lemma NextNumberIsFirstFree(used: set<nat>, n: nat)
    requires n >= 1 && n !in used && forall k :: 1 <= k < n ==> k in used
    ensures n == FirstFree(used, 1)
  {
    var f := FirstFree(used, 1);
    assert n >= f;
    assert f >= n;
  }

  /** The numbers of the course's other numbered groups. */
  function OtherNumbers(c: Course, gid: GroupId): (r: set<nat>)
    ensures forall n :: n in r <==>
      exists h :: h in c.groups && h != gid && c.groups[h].number == Some(n)
  {
    set h | h in c.groups && h != gid && c.groups[h].number.Some? :: c.groups[h].number.value
  }

  // ---------------------------------------------------------------------
  // Membership checks

  /** `s` is a member of some group of the course. */
  predicate InSomeGroup(c: Course, s: StudentId)
  {
    exists h :: h in c.groups && s in c.groups[h].members
  }

  /** `s` is a member of a group of the course other than `gid`. */
  predicate InOtherGroupThan(c: Course, gid: GroupId, s: StudentId)
  {
    exists h :: h in c.groups && h != gid && s in c.groups[h].members
  }

  /** The per-member part of `Group.clean`, visiting members in the order the
      database returns them: the first member in another group or not
      enrolled fails the check. */
  function CheckMembers(c: Course, gid: GroupId, order: seq<StudentId>): (r: Outcome<RosterError>)
    ensures r.Pass? <==> forall i :: 0 <= i < |order| ==>
      !InOtherGroupThan(c, gid, order[i]) && order[i] in c.enrolled
    ensures r.Fail? ==> exists i :: (0 <= i < |order| &&
      (r.error == InOtherGroup(order[i]) || r.error == NotEnrolled(order[i])))
  {
    if order == [] then Pass
    else if InOtherGroupThan(c, gid, order[0]) then Fail(InOtherGroup(order[0]))
    else if order[0] !in c.enrolled then Fail(NotEnrolled(order[0]))
    else
      var rest := CheckMembers(c, gid, order[1..]);
      assert forall i :: 1 <= i < |order| ==> order[i] == order[1..][i - 1];
      if rest.Fail? then
        assert exists i :: (0 <= i < |order| - 1 &&
          (rest.error == InOtherGroup(order[1..][i]) || rest.error == NotEnrolled(order[1..][i])));
        rest
      else rest
  }

  /** `order` lists exactly the members of group `gid`. */
  ghost predicate ListsMembers(c: Course, gid: GroupId, order: seq<StudentId>)
    requires gid in c.groups
  {
    forall s :: s in order <==> s in c.groups[gid].members
  }

  /** `Group.clean` for a saved group: the size limit first, then the
      members. */
  function Clean(c: Course, gid: GroupId, order: seq<StudentId>): (r: Outcome<RosterError>)
    requires gid in c.groups
    ensures |c.groups[gid].members| > c.maxMembers ==> r == Fail(TooManyMembers(c.maxMembers))
    ensures ListsMembers(c, gid, order) ==>
      (r.Pass? <==> (|c.groups[gid].members| <= c.maxMembers
        && forall s :: s in c.groups[gid].members ==> !InOtherGroupThan(c, gid, s) && s in c.enrolled))
  {
    if |c.groups[gid].members| > c.maxMembers then Fail(TooManyMembers(c.maxMembers))
    else CheckMembers(c, gid, order)
  }

  /** `Group.save` of a saved group: number it if it has no number, run
      `clean`, then the per-course uniqueness of numbers. */
  function Save(c: Course, gid: GroupId, order: seq<StudentId>): (r: Result<Course, RosterError>)
    requires gid in c.groups
    ensures r.Ok? <==> (Clean(c, gid, order).Pass?
      && (c.groups[gid].number.Some? ==> c.groups[gid].number.value !in OtherNumbers(c, gid)))
    ensures r.Ok? ==> (r.value.maxMembers == c.maxMembers && r.value.enrolled == c.enrolled
      && r.value.groups.Keys == c.groups.Keys
      && r.value.groups[gid].members == c.groups[gid].members
      && forall h :: h in c.groups && h != gid ==> r.value.groups[h] == c.groups[h])
    ensures r.Ok? && c.groups[gid].number.Some? ==> r.value.groups[gid].number == c.groups[gid].number
    ensures r.Ok? && c.groups[gid].number.None? ==>
      r.value.groups[gid].number == Some(FirstFree(OtherNumbers(c, gid), 1))
    ensures r.Ok? ==> (r.value.groups[gid].number.Some?
      && r.value.groups[gid].number.value !in OtherNumbers(c, gid))
  {
    var g := c.groups[gid];
    var number := if g.number.None? then FirstFree(OtherNumbers(c, gid), 1) else g.number.value;
    match Clean(c, gid, order)
    case Fail(e) => Err(e)
    case Pass =>
      if number in OtherNumbers(c, gid) then Err(DuplicateNumber(number))
      else Ok(c.(groups := c.groups[gid := g.(number := Some(number))]))
  }

  /** All group numbers in use in the course. */
  function AllNumbers(c: Course): set<nat>
  {
    set h | h in c.groups && c.groups[h].number.Some? :: c.groups[h].number.value
  }

  /** `Group.save` of a new group: it has no primary key yet, so `clean`
      skips every member check, and it has no members. */
  function SaveNew(c: Course, gid: GroupId, number: Option<nat>): (r: Result<Course, RosterError>)
    requires gid !in c.groups
    ensures r.Ok? <==> number.None? || number.value !in AllNumbers(c)
    ensures r.Ok? ==> (r.value.groups.Keys == c.groups.Keys + {gid}
      && r.value.groups[gid].members == {}
      && r.value.groups[gid].number == Some(number.GetOr(FirstFree(AllNumbers(c), 1)))
      && forall h :: h in c.groups ==> r.value.groups[h] == c.groups[h])
  {
    var n := if number.None? then FirstFree(AllNumbers(c), 1) else number.value;
    if n in AllNumbers(c) then Err(DuplicateNumber(n))
    else Ok(c.(groups := c.groups[gid := Group(Some(n), {})]))
  }

  /** `Group.can_add_member`: full, then already in a group of the course
      (this one included), then not enrolled. */
  function CanAddMember(c: Course, gid: GroupId, s: StudentId): (r: Outcome<RosterError>)
    requires gid in c.groups
    ensures |c.groups[gid].members| >= c.maxMembers ==> r == Fail(GroupFull)
    ensures |c.groups[gid].members| < c.maxMembers && InSomeGroup(c, s) ==> r == Fail(AlreadyInGroup)
    ensures |c.groups[gid].members| < c.maxMembers && !InSomeGroup(c, s) && s !in c.enrolled ==>
      r == Fail(NotEnrolledToAdd)
    ensures r.Pass? <==> |c.groups[gid].members| < c.maxMembers && !InSomeGroup(c, s) && s in c.enrolled
  {
    if |c.groups[gid].members| >= c.maxMembers then Fail(GroupFull)
    else if InSomeGroup(c, s) then Fail(AlreadyInGroup)
    else if s !in c.enrolled then Fail(NotEnrolledToAdd)
    else Pass
  }

  /** The state after an operation, and the exception it raised, if any;
      the membership change of `members.add`/`remove` is committed before
      `save` runs, so it stays even when `save` raises. */
  datatype RosterEffect = RosterEffect(course: Course, raised: Option<RosterError>)

  function WithMembers(c: Course, gid: GroupId, members: set<StudentId>): (r: Course)
    requires gid in c.groups
    ensures r.groups.Keys == c.groups.Keys && r.groups[gid].members == members
    ensures r.groups[gid].number == c.groups[gid].number
    ensures r.maxMembers == c.maxMembers && r.enrolled == c.enrolled
    ensures forall h :: h in c.groups && h != gid ==> r.groups[h] == c.groups[h]
  {
    c.(groups := c.groups[gid := c.groups[gid].(members := members)])
  }

  /** `Group.add_member`; `order` is the order in which `save` will list the
      members. */
  function AddMember(c: Course, gid: GroupId, s: StudentId, order: seq<StudentId>): (r: RosterEffect)
    requires gid in c.groups
    ensures CanAddMember(c, gid, s).Fail? ==> r == RosterEffect(c, Some(CanAddMember(c, gid, s).error))
    ensures CanAddMember(c, gid, s).Pass? ==> (gid in r.course.groups
      && r.course.groups[gid].members == c.groups[gid].members + {s})
  {
    match CanAddMember(c, gid, s)
    case Fail(e) => RosterEffect(c, Some(e))
    case Pass =>
      var added := WithMembers(c, gid, c.groups[gid].members + {s});
      match Save(added, gid, order)
      case Err(e) => RosterEffect(added, Some(e))
      case Ok(saved) => RosterEffect(saved, None)
  }

  /** `Group.remove_member`. */
  function RemoveMember(c: Course, gid: GroupId, s: StudentId, order: seq<StudentId>): (r: RosterEffect)
    requires gid in c.groups
    ensures s !in c.groups[gid].members ==> r == RosterEffect(c, Some(NotAMember))
    ensures s in c.groups[gid].members ==> (gid in r.course.groups
      && r.course.groups[gid].members == c.groups[gid].members - {s})
  {
    if s !in c.groups[gid].members then RosterEffect(c, Some(NotAMember))
    else
      var removed := WithMembers(c, gid, c.groups[gid].members - {s});
      match Save(removed, gid, order)
      case Err(e) => RosterEffect(removed, Some(e))
      case Ok(saved) => RosterEffect(saved, None)
  }

  // ---------------------------------------------------------------------
  // Invariants

  /** What `Group.clean` demands of every saved group, plus the per-course
      uniqueness of group numbers. */
  ghost predicate RosterOk(c: Course)
  {
    (forall g :: g in c.groups ==> |c.groups[g].members| <= c.maxMembers)
    && (forall g, h :: g in c.groups && h in c.groups && g != h ==>
          c.groups[g].members !! c.groups[h].members)
    && (forall g, s :: g in c.groups && s in c.groups[g].members ==> s in c.enrolled)
    && (forall g, h :: g in c.groups && h in c.groups && g != h && c.groups[g].number.Some? ==>
          c.groups[g].number != c.groups[h].number)
  }

  /** Saving a group of a roster in order succeeds. */
  lemma SaveSucceeds(c: Course, gid: GroupId, order: seq<StudentId>)
    requires RosterOk(c) && gid in c.groups && ListsMembers(c, gid, order)
    ensures Save(c, gid, order).Ok?
  {
    var g := c.groups[gid];
    forall s | s in g.members
      ensures !InOtherGroupThan(c, gid, s)
    {
      forall h | h in c.groups && h != gid
        ensures s !in c.groups[h].members
      {
        assert g.members !! c.groups[h].members;
      }
    }
    if g.number.Some? {
      forall h | h in c.groups && h != gid
        ensures c.groups[h].number != g.number
      {
      }
    }
  }

  /** Saving keeps a roster in order. */
  lemma SavePreserves(c: Course, gid: GroupId, order: seq<StudentId>)
    requires RosterOk(c) && gid in c.groups && Save(c, gid, order).Ok?
    ensures RosterOk(Save(c, gid, order).value)
  {
    var d := Save(c, gid, order).value;
    forall g, h | g in d.groups && h in d.groups && g != h && d.groups[g].number.Some?
      ensures d.groups[g].number != d.groups[h].number
    {
      if g == gid {
        assert d.groups[h] == c.groups[h];
      } else if h == gid {
        assert d.groups[g] == c.groups[g];
        assert d.groups[g].number.value in OtherNumbers(c, gid);
      }
    }
  }

  /** Adding a member through `add_member` keeps the roster in order and
      succeeds exactly when `can_add_member` agrees: the group grows by the
      student and nothing else changes. */
  lemma AddMemberPreserves(c: Course, gid: GroupId, s: StudentId, order: seq<StudentId>)
    requires RosterOk(c) && gid in c.groups
    requires forall x :: x in order <==> x in c.groups[gid].members + {s}
    ensures var r := AddMember(c, gid, s, order);
      RosterOk(r.course) && (r.raised.None? <==> CanAddMember(c, gid, s).Pass?)
    ensures var r := AddMember(c, gid, s, order);
      r.raised.None? ==> (r.course.groups.Keys == c.groups.Keys
        && forall h :: h in c.groups && h != gid ==> r.course.groups[h] == c.groups[h])
  {
    if CanAddMember(c, gid, s).Pass? {
      var added := WithMembers(c, gid, c.groups[gid].members + {s});
      assert RosterOk(added) by {
        forall g, h | g in added.groups && h in added.groups && g != h
          ensures added.groups[g].members !! added.groups[h].members
        {
          assert s !in c.groups[g].members && s !in c.groups[h].members;
        }
      }
      SaveSucceeds(added, gid, order);
      SavePreserves(added, gid, order);
    }
  }

  /** Removing a member keeps the roster in order; only a non-member is
      refused. */
  lemma RemoveMemberPreserves(c: Course, gid: GroupId, s: StudentId, order: seq<StudentId>)
    requires RosterOk(c) && gid in c.groups
    requires forall x :: x in order <==> x in c.groups[gid].members - {s}
    ensures var r := RemoveMember(c, gid, s, order);
      RosterOk(r.course) && (r.raised.None? <==> s in c.groups[gid].members)
    ensures var r := RemoveMember(c, gid, s, order);
      r.raised.None? ==> (r.course.groups.Keys == c.groups.Keys
        && forall h :: h in c.groups && h != gid ==> r.course.groups[h] == c.groups[h])
  {
    if s in c.groups[gid].members {
      var removed := WithMembers(c, gid, c.groups[gid].members - {s});
      assert |removed.groups[gid].members| <= |c.groups[gid].members|;
      SaveSucceeds(removed, gid, order);
      SavePreserves(removed, gid, order);
    }
  }

  /** Creating a group keeps the roster in order. */
  lemma SaveNewPreserves(c: Course, gid: GroupId, number: Option<nat>)
    requires RosterOk(c) && gid !in c.groups && SaveNew(c, gid, number).Ok?
    ensures RosterOk(SaveNew(c, gid, number).value)
  {
    var d := SaveNew(c, gid, number).value;
    forall g, h | g in d.groups && h in d.groups && g != h && d.groups[g].number.Some?
      ensures d.groups[g].number != d.groups[h].number
    {
      if h == gid {
        assert d.groups[g].number.value in AllNumbers(c);
      }
    }
  }

  // ---------------------------------------------------------------------
  // The join_group view

  datatype JoinError = GroupIdRequired | GroupNotFound | AlreadyJoined | JoinGroupFull | JoinNotEnrolled

  /** The error text of the JSON answer. An unknown group raises `Http404`
      inside the view's `try`, so the generic handler answers with status
      500 and the exception's text. */
  function JoinMessage(e: JoinError): string
  {
    match e
    case GroupIdRequired => "Group ID is required"
    case GroupNotFound => "No Group matches the given query."
    case AlreadyJoined => "You are already in a group for this course"
    case JoinGroupFull => "This group is full"
    case JoinNotEnrolled => "Student is not enrolled in the course"
  }

  /** `join_group` as written: a missing (or zero) group id, an unknown
      group, a user already in a group of the course and a full group are
      refused; otherwise the user is added directly, without `save`, so
      neither enrollment nor `clean` is checked. */
  function JoinGroup(c: Course, groupId: Option<GroupId>, user: StudentId): (r: Result<Course, JoinError>)
    ensures groupId.None? || groupId == Some(0) ==> r == Err(GroupIdRequired)
    ensures r.Ok? ==> (groupId.Some? && groupId.value in c.groups
      && r.value == WithMembers(c, groupId.value, c.groups[groupId.value].members + {user}))
    ensures r.Ok? <==> (groupId.Some? && groupId.value != 0 && groupId.value in c.groups
      && !InSomeGroup(c, user) && |c.groups[groupId.value].members| < c.maxMembers)
  {
    if groupId.None? || groupId.value == 0 then Err(GroupIdRequired)
    else if groupId.value !in c.groups then Err(GroupNotFound)
    else if InSomeGroup(c, user) then Err(AlreadyJoined)
    else if |c.groups[groupId.value].members| >= c.maxMembers then Err(JoinGroupFull)
    else Ok(WithMembers(c, groupId.value, c.groups[groupId.value].members + {user}))
  }

  /** `join_group` with the enrollment check of `can_add_member` restored. */
  function JoinGroupChecked(c: Course, groupId: Option<GroupId>, user: StudentId): (r: Result<Course, JoinError>)
    ensures r.Ok? <==> JoinGroup(c, groupId, user).Ok? && user in c.enrolled
    ensures r.Ok? ==> r == JoinGroup(c, groupId, user)
  {
    var joined := JoinGroup(c, groupId, user);
    if joined.Ok? && user !in c.enrolled then Err(JoinNotEnrolled) else joined
  }

  /** Joining keeps every group within its size and every student in at most
      one group. */
  lemma JoinGroupKeepsSizeAndUniqueness(c: Course, groupId: Option<GroupId>, user: StudentId)
    requires RosterOk(c) && JoinGroup(c, groupId, user).Ok?
    ensures var d := JoinGroup(c, groupId, user).value;
      (forall g :: g in d.groups ==> |d.groups[g].members| <= d.maxMembers)
      && forall g, h :: g in d.groups && h in d.groups && g != h ==> d.groups[g].members !! d.groups[h].members
  {
    var gid := groupId.value;
    var d := JoinGroup(c, groupId, user).value;
    forall g, h | g in d.groups && h in d.groups && g != h
      ensures d.groups[g].members !! d.groups[h].members
    {
      assert user !in c.groups[g].members && user !in c.groups[h].members;
    }
  }

  /** With the enrollment check restored, joining keeps the whole roster in
      order. */
  lemma JoinGroupCheckedPreserves(c: Course, groupId: Option<GroupId>, user: StudentId)
    requires RosterOk(c) && JoinGroupChecked(c, groupId, user).Ok?
    ensures RosterOk(JoinGroupChecked(c, groupId, user).value)
  {
    JoinGroupKeepsSizeAndUniqueness(c, groupId, user);
  }

  /** As written, a student who is not enrolled can join a group, which
      `add_member` refuses, and the roster leaves the state `clean` demands.
      A later `add_member` on that group then adds its student and still
      raises, because `save` now fails on the unenrolled member. */
  lemma JoinGroupSkipsEnrollment()
    ensures var c := Course(2, {1}, map[7 := Group(Some(1), {})]);
      RosterOk(c)
      && CanAddMember(c, 7, 2) == Fail(NotEnrolledToAdd)
      && JoinGroup(c, Some(7), 2).Ok?
      && !RosterOk(JoinGroup(c, Some(7), 2).value)
      && JoinGroupChecked(c, Some(7), 2).Err?
  {
    var c := Course(2, {1}, map[7 := Group(Some(1), {})]);
    assert !InSomeGroup(c, 2);
    var d := JoinGroup(c, Some(7), 2).value;
    assert 2 in d.groups[7].members;
  }

  lemma AddAfterUnenrolledJoin()
    ensures var d := JoinGroup(Course(2, {1}, map[7 := Group(Some(1), {})]), Some(7), 2).value;
      var r := AddMember(d, 7, 1, [2, 1]);
      r.raised == Some(NotEnrolled(2)) && r.course.groups[7].members == {1, 2}
  {
    var c := Course(2, {1}, map[7 := Group(Some(1), {})]);
    assert !InSomeGroup(c, 2);
    var d := JoinGroup(c, Some(7), 2).value;
    assert d.groups[7].members == {2};
    assert !InSomeGroup(d, 1);
    var added := WithMembers(d, 7, {2, 1});
    assert !InOtherGroupThan(added, 7, 2);
    assert |added.groups[7].members| == 2;
  }
}
