/** Invitation presets (internal/tokenpreset): what Validate accepts when a token is minted, and what
    Apply does with it when somebody registers. */
module Presets {
  import opened Prelude

  // ---- the directory of centers ----

  /** Groups, centers, and the active term of the centers that have one. */
  datatype Directory = Directory(groups: map<nat, Group>, centers: set<nat>, active: map<nat, nat>)
  {
    /** A term belongs to one center, and its groups with it. */
    ghost predicate Valid() {
      (forall g :: g in groups ==> groups[g].center in centers)
      && forall g, h :: g in groups && h in groups && groups[g].term == groups[h].term ==>
           groups[g].center == groups[h].center
    }

    predicate IsActive(g: Group) {
      g.center in active && active[g.center] == g.term
    }
  }

  // ---- presets ----

  datatype Teacher = Teacher(center: nat, head: bool)

  datatype Preset = Preset(
    admin: bool,
    student: Option<nat>,
    students: Option<seq<nat>>,
    claim: Option<int>,
    teacher: Option<Teacher>,
    teachers: Option<seq<Teacher>>)

  /** The student groups a preset grants, in the order they are applied. */
  function StudentGrants(p: Preset): seq<nat> {
    (if p.student.Some? then [p.student.value] else []) + (if p.students.Some? then p.students.value else [])
  }

  function TeacherGrants(p: Preset): seq<Teacher> {
    (if p.teacher.Some? then [p.teacher.value] else []) + (if p.teachers.Some? then p.teachers.value else [])
  }

  /** Existing groups of different terms. */
  predicate GoodGroups(d: Directory, groups: seq<nat>) {
    (forall i :: 0 <= i < |groups| ==> groups[i] in d.groups)
    && forall i, j :: 0 <= i < j < |groups| ==> d.groups[groups[i]].term != d.groups[groups[j]].term
  }

  /** Existing, different centers. */
  predicate GoodCenters(d: Directory, teachers: seq<Teacher>) {
    (forall i :: 0 <= i < |teachers| ==> teachers[i].center in d.centers)
    && forall i, j :: 0 <= i < j < |teachers| ==> teachers[i].center != teachers[j].center
  }

  /** No center on both sides. */
  predicate Apart(d: Directory, groups: seq<nat>, teachers: seq<Teacher>)
    requires forall i :: 0 <= i < |groups| ==> groups[i] in d.groups
  {
    forall i, j :: 0 <= i < |groups| && 0 <= j < |teachers| ==> d.groups[groups[i]].center != teachers[j].center
  }

  predicate WellFormed(p: Preset) {
    !(p.student.Some? && p.students.Some?) && !(p.teacher.Some? && p.teachers.Some?)
    && p.students != Some([]) && p.teachers != Some([])
    && (p.claim.Some? ==> p.claim.value > 0 && !p.admin && StudentGrants(p) == [] && TeacherGrants(p) == [])
  }

  /** What a valid preset is: one form per grant, a claim alone, and grants that do not contradict each
      other. */
  predicate Accepted(d: Directory, p: Preset) {
    WellFormed(p) && GoodGroups(d, StudentGrants(p)) && GoodCenters(d, TeacherGrants(p))
    && Apart(d, StudentGrants(p), TeacherGrants(p))
  }

  /** A claim is accepted exactly when it is positive and the preset grants nothing else; a preset without a claim
      exactly when no grant has two forms, no list is empty, all groups and centers exist, and no term, no center
      and no side of a center is granted twice. */
  lemma AcceptedExactly(d: Directory, p: Preset)
    ensures p.claim.Some? ==>
      (Accepted(d, p) <==> p.claim.value > 0 && p == Preset(false, None, None, p.claim, None, None))
    ensures p.claim.None? ==>
      (Accepted(d, p) <==>
        (p.student.None? || p.students.None?) && (p.teacher.None? || p.teachers.None?)
        && p.students != Some([]) && p.teachers != Some([])
        && Separate(d, StudentGrants(p), TeacherGrants(p)))
  {
    if p.claim.Some? {
      NoGrants(p);
    } else {
      hide StudentGrants, TeacherGrants;
    }
  }

  lemma NoGrants(p: Preset)
    ensures StudentGrants(p) == [] && TeacherGrants(p) == [] <==>
      p.student.None? && p.teacher.None? && p.students in {None, Some([])} && p.teachers in {None, Some([])}
  {
  }

  /** All groups and centers exist; groups are of different terms, centers are different, and on one side only. */
  predicate Separate(d: Directory, groups: seq<nat>, teachers: seq<Teacher>) {
    (forall g :: g in groups ==> g in d.groups) && (forall t :: t in teachers ==> t.center in d.centers)
    && (forall i, j :: 0 <= i < j < |groups| ==> d.groups[groups[i]].term != d.groups[groups[j]].term)
    && (forall i, j :: 0 <= i < j < |teachers| ==> teachers[i].center != teachers[j].center)
    && forall g, t :: g in groups && t in teachers ==> d.groups[g].center != t.center
  }

  /** The checks on the shape of a preset. */
  method CheckForms(p: Preset) returns (ok: bool)
    ensures ok <==> WellFormed(p)
  {
    if p.student.Some? && p.students.Some? {
      return false;
    }
    if p.teacher.Some? && p.teachers.Some? {
      return false;
    }
    if p.teachers.Some? && |p.teachers.value| == 0 {
      return false;
    }
    if p.students.Some? && |p.students.value| == 0 {
      return false;
    }
    if p.claim.Some? && p.students.Some? && |p.students.value| > 0 {
      return false;
    }
    if p.claim.Some? {
      if p.claim.value <= 0 {
        return false;
      }
      if p.admin || p.student.Some? || p.teacher.Some? || (p.teachers.Some? && |p.teachers.value| > 0) {
        return false;
      }
    }
    return true;
  }

  function CentersOf(d: Directory, groups: seq<nat>): set<nat>
    requires forall i :: 0 <= i < |groups| ==> groups[i] in d.groups
  {
    set i | 0 <= i < |groups| :: d.groups[groups[i]].center
  }

  /** The loop over the student groups, with its seen groups and seen terms. */
  method CheckGroups(d: Directory, groups: seq<nat>) returns (ok: bool, centers: set<nat>)
    ensures ok <==> GoodGroups(d, groups)
    ensures ok ==> centers == CentersOf(d, groups)
  {
    centers := {};
    var seenGroups: set<nat> := {};
    var seenTerms: set<nat> := {};
    for i := 0 to |groups|
      invariant GoodGroups(d, groups[..i]) && centers == CentersOf(d, groups[..i])
      invariant seenGroups == set k | 0 <= k < i :: groups[k]
      invariant seenTerms == set k | 0 <= k < i :: d.groups[groups[..i][k]].term
    {
      assert groups[..i + 1] == groups[..i] + [groups[i]];
      if groups[i] in seenGroups {
        return false, centers;
      }
      if groups[i] !in d.groups {
        return false, centers;
      }
      var group := d.groups[groups[i]];
      if group.term in seenTerms {
        var k :| 0 <= k < i && d.groups[groups[..i][k]].term == group.term;
        assert groups[k] == groups[..i][k];
        return false, centers;
      }
      seenGroups, seenTerms := seenGroups + {groups[i]}, seenTerms + {group.term};
      centers := centers + {group.center};
    }
    assert groups[..|groups|] == groups;
    ok := true;
  }

  /** The loop over the teacher centers. */
  method CheckCenters(d: Directory, teachers: seq<Teacher>, studentCenters: set<nat>) returns (ok: bool)
    ensures ok <==> GoodCenters(d, teachers) && forall i :: 0 <= i < |teachers| ==> teachers[i].center !in studentCenters
  {
    var seenCenters: set<nat> := {};
    for i := 0 to |teachers|
      invariant GoodCenters(d, teachers[..i])
      invariant forall k :: 0 <= k < i ==> teachers[k].center !in studentCenters
      invariant seenCenters == set k | 0 <= k < i :: teachers[k].center
    {
      assert teachers[..i + 1] == teachers[..i] + [teachers[i]];
      if teachers[i].center in seenCenters {
        return false;
      }
      seenCenters := seenCenters + {teachers[i].center};
      if teachers[i].center !in d.centers {
        return false;
      }
      if teachers[i].center in studentCenters {
        return false;
      }
    }
    assert teachers[..|teachers|] == teachers;
    ok := true;
  }

  /** Validate. */
  method Validate(d: Directory, p: Preset) returns (ok: bool)
    ensures ok <==> Accepted(d, p)
  {
    ok := CheckForms(p);
    if !ok {
      return;
    }
    var good, studentCenters := CheckGroups(d, StudentGrants(p));
    if !good {
      return false;
    }
    ok := CheckCenters(d, TeacherGrants(p), studentCenters);
    var groups, teachers := StudentGrants(p), TeacherGrants(p);
    if ok {
      forall i, j | 0 <= i < |groups| && 0 <= j < |teachers|
        ensures d.groups[groups[i]].center != teachers[j].center
      {
        assert d.groups[groups[i]].center in studentCenters;
      }
    }
  }

  // ---- memberships ----

  /** Enrollments by (user, term), teaching by (user, center), and administrators. */
  datatype Members = Members(students: map<(UserId, nat), nat>, teachers: map<(UserId, nat), bool>, admins: set<UserId>)

  datatype Error = InvalidPreset | Conflict | Duplicate

  datatype Result = Ok(members: Members) | Err(error: Error)

  predicate IsTeacherInCenter(m: Members, user: UserId, center: nat) {
    (user, center) in m.teachers
  }

  /** A student of the center, in its active term if it has one. */
  predicate IsStudentInCenter(d: Directory, m: Members, user: UserId, center: nat) {
    exists k :: k in m.students && CountsAsStudent(d, m, user, center, k)
  }

  predicate CountsAsStudent(d: Directory, m: Members, user: UserId, center: nat, k: (UserId, nat))
    requires k in m.students
  {
    k.0 == user && m.students[k] in d.groups
    && Visible(d, d.groups[m.students[k]], center)
  }

  /** Membership in this group shows when asking for the students of a center. */
  predicate Visible(d: Directory, g: Group, center: nat) {
    g.center == center && (d.IsActive(g) || center !in d.active)
  }

  /** applyStudent. */
  function StudentApplied(d: Directory, m: Members, user: UserId, group: nat): Result {
    if group !in d.groups then Err(InvalidPreset)
    else if IsTeacherInCenter(m, user, d.groups[group].center) then Err(Conflict)
    else if (user, d.groups[group].term) in m.students then Err(Duplicate)
    else Ok(m.(students := m.students[(user, d.groups[group].term) := group]))
  }

  /** applyTeacher. */
  function TeacherApplied(d: Directory, m: Members, user: UserId, t: Teacher): Result {
    if t.center !in d.centers then Err(InvalidPreset)
    else if IsStudentInCenter(d, m, user, t.center) then Err(Conflict)
    else if IsTeacherInCenter(m, user, t.center) then Err(Duplicate)
    else Ok(m.(teachers := m.teachers[(user, t.center) := t.head]))
  }

  function StudentsApplied(d: Directory, m: Members, user: UserId, groups: seq<nat>): Result {
    if groups == [] then Ok(m)
    else
      var before := StudentsApplied(d, m, user, groups[..|groups| - 1]);
      if before.Err? then before else StudentApplied(d, before.members, user, groups[|groups| - 1])
  }

  function TeachersApplied(d: Directory, m: Members, user: UserId, teachers: seq<Teacher>): Result {
    if teachers == [] then Ok(m)
    else
      var before := TeachersApplied(d, m, user, teachers[..|teachers| - 1]);
      if before.Err? then before else TeacherApplied(d, before.members, user, teachers[|teachers| - 1])
  }

  function Applied(d: Directory, m: Members, user: UserId, p: Preset): Result {
    if p.claim.Some? then Err(InvalidPreset)
    else
      var students := StudentsApplied(d, if p.admin then m.(admins := m.admins + {user}) else m, user, StudentGrants(p));
      if students.Err? then students else TeachersApplied(d, students.members, user, TeacherGrants(p))
  }

  // ---- what applying does to a fresh user ----

  /** A user without any membership. */
  predicate Fresh(m: Members, user: UserId) {
    (forall k :: k in m.students ==> k.0 != user) && forall k :: k in m.teachers ==> k.0 != user
  }

  /** Exactly these enrollments added. */
  ghost predicate Enrolled(d: Directory, m: Members, after: Members, user: UserId, groups: seq<nat>) {
    (forall g :: g in groups ==> g in d.groups)
    && (forall k :: k in after.students <==> k in m.students || exists g :: g in groups && k == (user, d.groups[g].term))
    && (forall k :: k in m.students ==> after.students[k] == m.students[k])
    && (forall g :: g in groups ==> after.students[(user, d.groups[g].term)] == g)
  }

  /** Exactly these centers taught. */
  ghost predicate Teaching(m: Members, after: Members, user: UserId, teachers: seq<Teacher>) {
    (forall k :: k in after.teachers <==> k in m.teachers || exists t :: t in teachers && k == (user, t.center))
    && (forall k :: k in m.teachers ==> after.teachers[k] == m.teachers[k])
    && (forall t :: t in teachers ==> after.teachers[(user, t.center)] == t.head)
  }

  lemma GoodGroupsFront(d: Directory, groups: seq<nat>)
    requires groups != []
    ensures var front, last := groups[..|groups| - 1], groups[|groups| - 1];
            GoodGroups(d, groups) <==>
            GoodGroups(d, front) && last in d.groups && forall g :: g in front ==> d.groups[g].term != d.groups[last].term
  {
    var front, last := groups[..|groups| - 1], groups[|groups| - 1];
    assert groups == front + [last];
  }

  /** Enrolling a fresh user succeeds exactly when the groups exist and their terms differ. */
  lemma {:induction false} EnrollFresh(d: Directory, m: Members, user: UserId, groups: seq<nat>)
    requires Fresh(m, user)
    ensures var r := StudentsApplied(d, m, user, groups);
            (r.Ok? <==> GoodGroups(d, groups))
            && (r.Ok? ==> Enrolled(d, m, r.members, user, groups) && r.members.teachers == m.teachers
                          && r.members.admins == m.admins)
    decreases |groups|
  {
    if groups != [] {
      var front, last := groups[..|groups| - 1], groups[|groups| - 1];
      assert groups == front + [last];
      EnrollFresh(d, m, user, front);
      GoodGroupsFront(d, groups);
    }
  }

  lemma GoodCentersFront(d: Directory, teachers: seq<Teacher>)
    requires teachers != []
    ensures var front, last := teachers[..|teachers| - 1], teachers[|teachers| - 1];
            GoodCenters(d, teachers) <==>
            GoodCenters(d, front) && last.center in d.centers && forall t :: t in front ==> t.center != last.center
  {
    var front, last := teachers[..|teachers| - 1], teachers[|teachers| - 1];
    assert teachers == front + [last];
  }

  predicate NoStudentThere(d: Directory, m: Members, user: UserId, teachers: seq<Teacher>) {
    forall i :: 0 <= i < |teachers| ==> !IsStudentInCenter(d, m, user, teachers[i].center)
  }

  /** Appointing a user who teaches nowhere succeeds exactly when the centers exist, differ, and do not see
      the user as their student. */
  lemma {:induction false} AppointFresh(d: Directory, m: Members, user: UserId, teachers: seq<Teacher>)
    requires forall k :: k in m.teachers ==> k.0 != user
    ensures var r := TeachersApplied(d, m, user, teachers);
            (r.Ok? <==> GoodCenters(d, teachers) && NoStudentThere(d, m, user, teachers))
            && (r.Ok? ==> Teaching(m, r.members, user, teachers) && r.members.students == m.students
                          && r.members.admins == m.admins)
    decreases |teachers|
  {
    if teachers != [] {
      var front, last := teachers[..|teachers| - 1], teachers[|teachers| - 1];
      assert teachers == front + [last];
      AppointFresh(d, m, user, front);
      GoodCentersFront(d, teachers);
      SameStudents(d, m, user, front, last.center);
    }
  }

  lemma SameStudents(d: Directory, m: Members, user: UserId, teachers: seq<Teacher>, center: nat)
    ensures var r := TeachersApplied(d, m, user, teachers);
            r.Ok? && r.members.students == m.students ==>
              IsStudentInCenter(d, r.members, user, center) == IsStudentInCenter(d, m, user, center)
  {
    var r := TeachersApplied(d, m, user, teachers);
    if r.Ok? && r.members.students == m.students {
      assert forall k :: k in m.students ==>
        CountsAsStudent(d, r.members, user, center, k) == CountsAsStudent(d, m, user, center, k);
    }
  }

  /** After enrolling a fresh user, a center sees them as a student when one of the groups is visible there. */
  lemma SeenAsStudent(d: Directory, m: Members, after: Members, user: UserId, groups: seq<nat>, center: nat)
    requires Fresh(m, user) && Enrolled(d, m, after, user, groups)
    ensures IsStudentInCenter(d, after, user, center) <==> exists g :: g in groups && Visible(d, d.groups[g], center)
  {
    if IsStudentInCenter(d, after, user, center) {
      var k :| k in after.students && CountsAsStudent(d, after, user, center, k);
      assert k !in m.students;
      var g :| g in groups && k == (user, d.groups[g].term);
      assert after.students[k] == g;
    }
    if exists g :: g in groups && Visible(d, d.groups[g], center) {
      var g :| g in groups && Visible(d, d.groups[g], center);
      var k := (user, d.groups[g].term);
      assert k in after.students && after.students[k] == g;
      assert CountsAsStudent(d, after, user, center, k);
    }
  }

  /** No center the preset would have the user teach sees one of its student groups. */
  predicate NoneVisible(d: Directory, groups: seq<nat>, teachers: seq<Teacher>)
    requires forall i :: 0 <= i < |groups| ==> groups[i] in d.groups
  {
    forall i, j :: 0 <= i < |groups| && 0 <= j < |teachers| ==> !Visible(d, d.groups[groups[i]], teachers[j].center)
  }

  ghost predicate Granted(d: Directory, m: Members, after: Members, user: UserId, p: Preset) {
    Enrolled(d, m, after, user, StudentGrants(p)) && Teaching(m, after, user, TeacherGrants(p))
    && after.admins == if p.admin then m.admins + {user} else m.admins
  }

  lemma NoStudentsSeen(d: Directory, m: Members, after: Members, user: UserId, groups: seq<nat>, teachers: seq<Teacher>)
    requires Fresh(m, user) && Enrolled(d, m, after, user, groups)
    ensures NoStudentThere(d, after, user, teachers) <==> NoneVisible(d, groups, teachers)
  {
    assert forall i :: 0 <= i < |groups| ==> groups[i] in groups && groups[i] in d.groups;
    hide Visible, IsStudentInCenter, Enrolled;
    forall j | 0 <= j < |teachers|
      ensures IsStudentInCenter(d, after, user, teachers[j].center) <==>
        exists i :: 0 <= i < |groups| && Visible(d, d.groups[groups[i]], teachers[j].center)
    {
      SeenAsStudent(d, m, after, user, groups, teachers[j].center);
    }
  }

  /** Applying a preset without a claim to a fresh user succeeds exactly when its groups and centers exist, no
      term and no center repeats, and no center sees its future teacher among its students; and then it grants
      exactly what the preset lists. */
  lemma AppliesExactly(d: Directory, m: Members, user: UserId, p: Preset)
    requires Fresh(m, user) && p.claim.None?
    ensures var r := Applied(d, m, user, p);
            (r.Ok? <==> GoodGroups(d, StudentGrants(p)) && GoodCenters(d, TeacherGrants(p))
                        && NoneVisible(d, StudentGrants(p), TeacherGrants(p)))
            && (r.Ok? ==> Granted(d, m, r.members, user, p))
  {
    hide NoStudentThere, NoneVisible, StudentsApplied, TeachersApplied, StudentGrants, TeacherGrants;
    var start := if p.admin then m.(admins := m.admins + {user}) else m;
    EnrollFresh(d, start, user, StudentGrants(p));
    var enrolled := StudentsApplied(d, start, user, StudentGrants(p));
    if enrolled.Ok? {
      AppointFresh(d, enrolled.members, user, TeacherGrants(p));
      NoStudentsSeen(d, start, enrolled.members, user, StudentGrants(p), TeacherGrants(p));
    }
  }

  // ---- students and teachers of one center ----

  /** The user is enrolled in some term of the center, active or not. */
  ghost predicate EverStudent(d: Directory, m: Members, user: UserId, center: nat) {
    exists k :: k in m.students && EnrolledBy(d, m, user, center, k)
  }

  predicate EnrolledBy(d: Directory, m: Members, user: UserId, center: nat, k: (UserId, nat))
    requires k in m.students
  {
    k.0 == user && m.students[k] in d.groups && d.groups[m.students[k]].center == center
  }

  /** The user is enrolled in some term of the center and teaches it. */
  ghost predicate InBoth(d: Directory, m: Members, user: UserId, center: nat) {
    (user, center) in m.teachers && EverStudent(d, m, user, center)
  }

  /** A successful enrollment puts nobody on both sides of a center. */
  lemma EnrollingSeparates(d: Directory, m: Members, user: UserId, group: nat, u: UserId, center: nat)
    requires StudentApplied(d, m, user, group).Ok?
    ensures InBoth(d, StudentApplied(d, m, user, group).members, u, center) <==> InBoth(d, m, u, center)
  {
    var after := StudentApplied(d, m, user, group).members;
    assert forall k :: k in m.students ==> EnrolledBy(d, after, u, center, k) == EnrolledBy(d, m, u, center, k);
  }

  /** A successful appointment puts its user on both sides exactly when they have an enrollment in that center,
      which is then one of an inactive term; everybody else stays as they were. */
  lemma AppointingSeparates(d: Directory, m: Members, user: UserId, t: Teacher, u: UserId, center: nat)
    requires TeacherApplied(d, m, user, t).Ok?
    ensures InBoth(d, TeacherApplied(d, m, user, t).members, u, center) <==>
      InBoth(d, m, u, center) || ((u, center) == (user, t.center) && EverStudent(d, m, user, t.center))
    ensures EverStudent(d, m, user, t.center) ==>
      t.center in d.active
      && forall k :: k in m.students && EnrolledBy(d, m, user, t.center, k) ==> !d.IsActive(d.groups[m.students[k]])
  {
    var after := TeacherApplied(d, m, user, t).members;
    assert forall k :: k in m.students ==> EnrolledBy(d, after, u, center, k) == EnrolledBy(d, m, u, center, k);
    forall k | k in m.students && EnrolledBy(d, m, user, t.center, k)
      ensures t.center in d.active && !d.IsActive(d.groups[m.students[k]])
    {
      assert !CountsAsStudent(d, m, user, t.center, k);
    }
  }

  /** A successful application leaves a fresh user on both sides of a center exactly when the preset named
      the center on both sides. */
  lemma BothExactly(d: Directory, m: Members, user: UserId, p: Preset, center: nat)
    requires Fresh(m, user) && Applied(d, m, user, p).Ok?
    ensures InBoth(d, Applied(d, m, user, p).members, user, center) <==>
      (exists g :: g in StudentGrants(p) && g in d.groups && d.groups[g].center == center)
      && exists t :: t in TeacherGrants(p) && t.center == center
  {
    AppliesExactly(d, m, user, p);
    hide Applied, StudentGrants, TeacherGrants, GoodGroups, GoodCenters, NoneVisible;
    var after := Applied(d, m, user, p).members;
    if (user, center) in after.teachers {
      assert (user, center) !in m.teachers;
      var t :| t in TeacherGrants(p) && (user, center) == (user, t.center);
      assert t.center == center;
    }
    forall g | g in StudentGrants(p) ensures (user, d.groups[g].term) in after.students {}
    forall k | k in after.students && k.0 == user
      ensures exists g :: g in StudentGrants(p) && k == (user, d.groups[g].term) && after.students[k] == g
    {
      assert k !in m.students;
    }
  }

  /** The promise of Validate: on the same directory, an accepted preset without a claim applies to every fresh
      user, grants exactly its memberships, and never makes the user student and teacher of one center. */
  lemma ValidatedPresetsApply(d: Directory, m: Members, user: UserId, p: Preset)
    requires Accepted(d, p) && p.claim.None? && Fresh(m, user)
    ensures var r := Applied(d, m, user, p);
            r.Ok? && Granted(d, m, r.members, user, p) && forall center :: !InBoth(d, r.members, user, center)
  {
    AppliesExactly(d, m, user, p);
    hide Applied, StudentGrants, TeacherGrants, InBoth, Granted;
    var groups, teachers := StudentGrants(p), TeacherGrants(p);
    assert NoneVisible(d, groups, teachers);
    forall g, t | g in groups && t in teachers ensures g in d.groups && d.groups[g].center != t.center {
      ApartSides(d, groups, teachers, g, t);
    }
    forall center ensures !InBoth(d, Applied(d, m, user, p).members, user, center) {
      BothExactly(d, m, user, p, center);
    }
  }

  lemma ApartSides(d: Directory, groups: seq<nat>, teachers: seq<Teacher>, g: nat, t: Teacher)
    requires GoodGroups(d, groups) && Apart(d, groups, teachers) && g in groups && t in teachers
    ensures g in d.groups && d.groups[g].center != t.center
  {
    var i :| 0 <= i < |groups| && groups[i] == g;
    var j :| 0 <= j < |teachers| && teachers[j] == t;
  }

  /** Applying alone does not promise that: a group of an inactive term is not seen, so a preset that was never
      validated can leave its user on both sides. */
  lemma UnvalidatedPresetsCanContradict(user: UserId) returns (d: Directory, p: Preset)
    ensures d.Valid() && !Accepted(d, p)
    ensures var r := Applied(d, Members(map[], map[], {}), user, p); r.Ok? && InBoth(d, r.members, user, 1)
  {
    d := Directory(map[10 := Group(1, 100)], {1}, map[1 := 101]);
    p := Preset(false, Some(10), None, None, Some(Teacher(1, false)), None);
    var m := Members(map[], map[], {});
    assert StudentGrants(p) == [10] && TeacherGrants(p) == [Teacher(1, false)];
    AppliesExactly(d, m, user, p);
    assert NoneVisible(d, [10], [Teacher(1, false)]);
    BothExactly(d, m, user, p, 1);
    assert 10 in StudentGrants(p) && Teacher(1, false) in TeacherGrants(p);
    assert !Apart(d, [10], [Teacher(1, false)]);
  }

  // ---- the tables ----

  class MemberTables {
    var members: Members

    constructor (members: Members)
      ensures this.members == members
    {
      this.members := members;
    }

    /** applyStudent: refuses an unknown group, a teacher of the group's center, and a second group of one term,
        in this order; otherwise adds one row, and nobody newly is on both sides of a center. */
    method ApplyStudent(d: Directory, user: UserId, group: nat) returns (error: Option<Error>)
      modifies this
      ensures error == Some(InvalidPreset) <==> group !in d.groups
      ensures error == Some(Conflict) <==> group in d.groups && (user, d.groups[group].center) in old(members).teachers
      ensures error == Some(Duplicate) <==>
        group in d.groups && (user, d.groups[group].center) !in old(members).teachers
        && (user, d.groups[group].term) in old(members).students
      ensures error.None? ==>
        members.students == old(members).students[(user, d.groups[group].term) := group]
        && members.teachers == old(members).teachers && members.admins == old(members).admins
      ensures forall u, center :: InBoth(d, members, u, center) <==> InBoth(d, old(members), u, center)
      ensures (if error.Some? then Err(error.value) else Ok(members)) == StudentApplied(d, old(members), user, group)
      ensures error.Some? ==> members == old(members)
    {
      if group !in d.groups {
        return Some(InvalidPreset);
      }
      if IsTeacherInCenter(members, user, d.groups[group].center) {
        return Some(Conflict);
      }
      var key := (user, d.groups[group].term);
      if key in members.students {
        return Some(Duplicate);
      }
      forall u, center: nat
        ensures InBoth(d, StudentApplied(d, members, user, group).members, u, center) <==> InBoth(d, members, u, center)
      {
        EnrollingSeparates(d, members, user, group, u, center);
      }
      members := members.(students := members.students[key := group]);
      return None;
    }

    /** applyTeacher: refuses an unknown center, one that sees the user among its students, and a repeated
        center, in this order; otherwise adds one row. The user comes to both sides of the center exactly when
        they have an enrollment in a term of it that the check does not look at. */
    method ApplyTeacher(d: Directory, user: UserId, t: Teacher) returns (error: Option<Error>)
      modifies this
      ensures error == Some(InvalidPreset) <==> t.center !in d.centers
      ensures error == Some(Conflict) <==> t.center in d.centers && IsStudentInCenter(d, old(members), user, t.center)
      ensures error == Some(Duplicate) <==>
        t.center in d.centers && !IsStudentInCenter(d, old(members), user, t.center)
        && (user, t.center) in old(members).teachers
      ensures error.None? ==>
        members.teachers == old(members).teachers[(user, t.center) := t.head]
        && members.students == old(members).students && members.admins == old(members).admins
      ensures error.None? ==>
        forall u, center: nat :: InBoth(d, members, u, center) <==>
          InBoth(d, old(members), u, center) || ((u, center) == (user, t.center) && EverStudent(d, old(members), user, t.center))
      ensures (if error.Some? then Err(error.value) else Ok(members)) == TeacherApplied(d, old(members), user, t)
      ensures error.Some? ==> members == old(members)
    {
      if t.center !in d.centers {
        return Some(InvalidPreset);
      }
      if IsStudentInCenter(d, members, user, t.center) {
        return Some(Conflict);
      }
      if (user, t.center) in members.teachers {
        return Some(Duplicate);
      }
      forall u, center: nat
        ensures InBoth(d, TeacherApplied(d, members, user, t).members, u, center) <==>
          InBoth(d, members, u, center) || ((u, center) == (user, t.center) && EverStudent(d, members, user, t.center))
      {
        AppointingSeparates(d, members, user, t, u, center);
      }
      members := members.(teachers := members.teachers[(user, t.center) := t.head]);
      return None;
    }

    /** The loop of Apply over the student groups. */
    method ApplyStudents(d: Directory, user: UserId, groups: seq<nat>) returns (error: Option<Error>)
      modifies this
      ensures (if error.Some? then Err(error.value) else Ok(members)) == StudentsApplied(d, old(members), user, groups)
    {
      hide StudentApplied, InBoth, IsTeacherInCenter;
      for i := 0 to |groups|
        invariant StudentsApplied(d, old(members), user, groups[..i]) == Ok(members)
      {
        assert groups[..i + 1][..i] == groups[..i];
        error := ApplyStudent(d, user, groups[i]);
        if error.Some? {
          StudentsFail(d, old(members), user, groups, i + 1);
          return;
        }
      }
      assert groups[..|groups|] == groups;
      return None;
    }

    /** The loop of Apply over the teacher centers. */
    method ApplyTeachers(d: Directory, user: UserId, teachers: seq<Teacher>) returns (error: Option<Error>)
      modifies this
      ensures (if error.Some? then Err(error.value) else Ok(members)) == TeachersApplied(d, old(members), user, teachers)
    {
      hide TeacherApplied, InBoth, EverStudent, IsStudentInCenter;
      for i := 0 to |teachers|
        invariant TeachersApplied(d, old(members), user, teachers[..i]) == Ok(members)
      {
        assert teachers[..i + 1][..i] == teachers[..i];
        error := ApplyTeacher(d, user, teachers[i]);
        if error.Some? {
          TeachersFail(d, old(members), user, teachers, i + 1);
          return;
        }
      }
      assert teachers[..|teachers|] == teachers;
      return None;
    }

    /** Apply, inside the registration transaction: an error makes the caller roll back. */
    method Apply(d: Directory, user: UserId, p: Preset) returns (error: Option<Error>)
      modifies this
      ensures (if error.Some? then Err(error.value) else Ok(members)) == Applied(d, old(members), user, p)
    {
      hide StudentsApplied, TeachersApplied;
      if p.claim.Some? {
        return Some(InvalidPreset);
      }
      if p.admin {
        members := members.(admins := members.admins + {user});
      }
      error := ApplyStudents(d, user, StudentGrants(p));
      if error.Some? {
        return;
      }
      error := ApplyTeachers(d, user, TeacherGrants(p));
    }
  }

  /** An error ends the loop with that error. */
  lemma {:induction false} StudentsFail(d: Directory, m: Members, user: UserId, groups: seq<nat>, i: nat)
    requires i <= |groups| && StudentsApplied(d, m, user, groups[..i]).Err?
    ensures StudentsApplied(d, m, user, groups) == StudentsApplied(d, m, user, groups[..i])
    decreases |groups|
  {
    hide StudentApplied;
    if i == |groups| {
      assert groups[..i] == groups;
    } else {
      var front := groups[..|groups| - 1];
      assert front[..i] == groups[..i];
      StudentsFail(d, m, user, front, i);
    }
  }

  lemma {:induction false} TeachersFail(d: Directory, m: Members, user: UserId, teachers: seq<Teacher>, i: nat)
    requires i <= |teachers| && TeachersApplied(d, m, user, teachers[..i]).Err?
    ensures TeachersApplied(d, m, user, teachers) == TeachersApplied(d, m, user, teachers[..i])
    decreases |teachers|
  {
    hide TeacherApplied;
    if i == |teachers| {
      assert teachers[..i] == teachers;
    } else {
      var front := teachers[..|teachers| - 1];
      assert front[..i] == teachers[..i];
      TeachersFail(d, m, user, front, i);
    }
  }
}
