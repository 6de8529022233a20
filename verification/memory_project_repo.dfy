/**
 The in-memory project store: projects keyed by id in creation order, plus the
 list of project memberships. A (project, user) pair is a member at most once;
 deleting a project deletes its memberships.
 */
module MemoryProjectRepo {
  import opened Common
  import Stores

  datatype ProjectStatus = Planned | Active | OnHold | Done | Cancelled

  datatype ProjectMemberRole = Owner | Manager | Contributor

  datatype Project = Project(
    id: Id,
    clientId: Id,
    name: string,
    description: Option<string>,
    status: ProjectStatus,
    budget: Option<real>,
    startDate: Option<Timestamp>,
    dueDate: Option<Timestamp>,
    createdAt: Timestamp)

  datatype ProjectMember = ProjectMember(projectId: Id, userId: Id, memberRole: ProjectMemberRole)

  /** The fields of a new project; the store adds the id and the creation time. */
  datatype ProjectInput = ProjectInput(
    clientId: Id,
    name: string,
    description: Option<string>,
    status: ProjectStatus,
    budget: Option<real>,
    startDate: Option<Timestamp>,
    dueDate: Option<Timestamp>)

  /** A partial update: `Some` for every supplied field. */
  datatype ProjectPatch = ProjectPatch(
    clientId: Option<Id>,
    name: Option<string>,
    description: Option<string>,
    status: Option<ProjectStatus>,
    budget: Option<real>,
    startDate: Option<Timestamp>,
    dueDate: Option<Timestamp>)

  datatype Repo = Repo(projects: Stores.Store<Project>, members: seq<ProjectMember>)

  /** The project a membership belongs to. */
  function MemberProject(m: ProjectMember): Id {
    m.projectId
  }

  /** The key of a membership: its (project, user) pair. */
  function MemberPair(m: ProjectMember): (Id, Id) {
    (m.projectId, m.userId)
  }

  /** No (project, user) pair is a member twice. */
  ghost predicate UniquePairs(ms: seq<ProjectMember>) {
    forall i, j :: 0 <= i < j < |ms| ==> MemberPair(ms[i]) != MemberPair(ms[j])
  }

  /** The store invariant, every project stored under its own id, and unique memberships. */
  ghost predicate Valid(r: Repo) {
    && Stores.Valid(r.projects)
    && (forall id :: id in r.projects.items ==> r.projects.items[id].id == id)
    && UniquePairs(r.members)
  }

  function Empty(): (r: Repo)
    ensures Valid(r)
    ensures List(r) == [] && r.members == []
  {
    Repo(Stores.Empty(), [])
  }

  /** All projects in creation order. */
  function List(r: Repo): seq<Project> {
    Stores.List(r.projects)
  }

  function GetById(r: Repo, id: Id): Option<Project> {
    Stores.Get(r.projects, id)
  }

  /** The memberships of one project, in the order they were added. */
  function ListMembers(r: Repo, projectId: Id): seq<ProjectMember> {
    Filter(r.members, KeyIs(MemberProject, projectId))
  }

  /** `p` holds exactly the input's fields. */
  ghost predicate FromInput(p: Project, input: ProjectInput) {
    && p.clientId == input.clientId
    && p.name == input.name
    && p.description == input.description
    && p.status == input.status
    && p.budget == input.budget
    && p.startDate == input.startDate
    && p.dueDate == input.dueDate
  }

  /** `now` is `was` with the patch's supplied fields written over it; id and creation time are kept. */
  ghost predicate Patched(was: Project, patch: ProjectPatch, now: Project) {
    && now.id == was.id
    && now.createdAt == was.createdAt
    && Overlaid(patch.clientId, was.clientId, now.clientId)
    && Overlaid(patch.name, was.name, now.name)
    && OverlaidOptional(patch.description, was.description, now.description)
    && Overlaid(patch.status, was.status, now.status)
    && OverlaidOptional(patch.budget, was.budget, now.budget)
    && OverlaidOptional(patch.startDate, was.startDate, now.startDate)
    && OverlaidOptional(patch.dueDate, was.dueDate, now.dueDate)
  }

  /** Creates a project under the fresh id `id` at time `now`; it is listed last. */
  function Create(r: Repo, input: ProjectInput, id: Id, now: Timestamp): (s: Step<Repo, Project>)
    requires id !in r.projects.items
    ensures s.result.id == id && s.result.createdAt == now
    ensures FromInput(s.result, input)
    ensures GetById(s.repo, id) == Some(s.result)
    ensures forall k :: k != id ==> GetById(s.repo, k) == GetById(r, k)
    ensures Valid(r) ==> Valid(s.repo) && List(s.repo) == List(r) + [s.result]
    ensures s.repo.members == r.members
  {
    var p := Project(id, input.clientId, input.name, input.description, input.status,
                     input.budget, input.startDate, input.dueDate, now);
    Step(Repo(Stores.Insert(r.projects, id, p), r.members), p)
  }

  /** Applies a partial update; `None` and no change when there is no project `id`. */
  function Update(r: Repo, id: Id, patch: ProjectPatch): (s: Step<Repo, Option<Project>>)
    ensures id !in r.projects.items ==> s.result == None && s.repo == r
    ensures id in r.projects.items ==>
      && s.result.Some?
      && Patched(r.projects.items[id], patch, s.result.value)
      && GetById(s.repo, id) == s.result
    ensures forall k :: k != id ==> GetById(s.repo, k) == GetById(r, k)
    ensures s.repo.projects.order == r.projects.order
    ensures s.repo.members == r.members
    ensures Valid(r) ==> Valid(s.repo)
  {
    if id !in r.projects.items then Step(r, None)
    else
      var p := r.projects.items[id];
      var updated := p.(
        clientId := patch.clientId.GetOr(p.clientId),
        name := patch.name.GetOr(p.name),
        description := patch.description.Or(p.description),
        status := patch.status.GetOr(p.status),
        budget := patch.budget.Or(p.budget),
        startDate := patch.startDate.Or(p.startDate),
        dueDate := patch.dueDate.Or(p.dueDate));
      Step(Repo(Stores.Put(r.projects, id, updated), r.members), Some(updated))
  }

  /** Deletes project `id` and all its memberships; `false` and no change when there is no such project. */
  function Delete(r: Repo, id: Id): (s: Step<Repo, bool>)
    ensures s.result <==> id in r.projects.items
    ensures !s.result ==> s.repo == r
    ensures GetById(s.repo, id) == None
    ensures forall k :: k != id ==> GetById(s.repo, k) == GetById(r, k)
    ensures s.result ==> ListMembers(s.repo, id) == []
    ensures forall q :: q != id ==> ListMembers(s.repo, q) == ListMembers(r, q)
    ensures Valid(r) ==> Valid(s.repo)
  {
    if id !in r.projects.items then Step(r, false)
    else
      var kept := Filter(r.members, KeyIsNot(MemberProject, id));
      DroppingKey(r.members, MemberProject, id);
      FilteredPairsStayUnique(r.members, KeyIsNot(MemberProject, id));
      Step(Repo(Stores.Remove(r.projects, id), kept), true)
  }

  /**
   Adds user `userId` to project `projectId` with role `memberRole`. When the
   pair is already a member the existing membership is returned as it is
   (whatever its role) and nothing changes; otherwise the new membership is
   appended. The project is not required to exist.
   */
  function AddMember(r: Repo, projectId: Id, userId: Id, memberRole: ProjectMemberRole): (s: Step<Repo, ProjectMember>)
    ensures (exists i :: 0 <= i < |r.members| && MemberPair(r.members[i]) == (projectId, userId)) ==>
      && s.repo == r
      && s.result in r.members
      && MemberPair(s.result) == (projectId, userId)
    ensures (forall i :: 0 <= i < |r.members| ==> MemberPair(r.members[i]) != (projectId, userId)) ==>
      && s.result == ProjectMember(projectId, userId, memberRole)
      && s.repo.members == r.members + [s.result]
    ensures s.repo.projects == r.projects
    ensures Valid(r) ==> Valid(s.repo)
  {
    match Find(r.members, KeyIs(MemberPair, (projectId, userId)))
    case Some(existing) => Step(r, existing)
    case None =>
      var m := ProjectMember(projectId, userId, memberRole);
      AppendingFreshPair(r.members, m);
      Step(r.(members := r.members + [m]), m)
  }

  /**
   Removes the membership of `userId` in `projectId`; `true` exactly when there
   was one. Every other membership stays, in order.
   */
  function RemoveMember(r: Repo, projectId: Id, userId: Id): (s: Step<Repo, bool>)
    ensures s.result <==> exists i :: 0 <= i < |r.members| && MemberPair(r.members[i]) == (projectId, userId)
    ensures forall i :: 0 <= i < |s.repo.members| ==> MemberPair(s.repo.members[i]) != (projectId, userId)
    ensures s.repo.members == Filter(r.members, KeyIsNot(MemberPair, (projectId, userId)))
    ensures s.repo.projects == r.projects
    ensures Valid(r) ==> Valid(s.repo)
  {
    var kept := Filter(r.members, KeyIsNot(MemberPair, (projectId, userId)));
    FilterKeepsAll(r.members, KeyIsNot(MemberPair, (projectId, userId)));
    FilteredPairsStayUnique(r.members, KeyIsNot(MemberPair, (projectId, userId)));
    Step(r.(members := kept), |kept| != |r.members|)
  }

  /** Filtering memberships never creates a duplicate pair. */
  lemma {:induction false} FilteredPairsStayUnique(ms: seq<ProjectMember>, keep: ProjectMember -> bool)
    ensures UniquePairs(ms) ==> UniquePairs(Filter(ms, keep))
  {
    if |ms| > 0 && UniquePairs(ms) {
      var rest := ms[1..];
      assert UniquePairs(rest) by {
        forall i, j | 0 <= i < j < |rest| ensures MemberPair(rest[i]) != MemberPair(rest[j]) {
          assert rest[i] == ms[i + 1] && rest[j] == ms[j + 1];
        }
      }
      FilteredPairsStayUnique(rest, keep);
      FilterMembers(rest, keep);
      var f := Filter(rest, keep);
      forall j | 0 <= j < |f| ensures MemberPair(f[j]) != MemberPair(ms[0]) {
        var k :| 0 <= k < |rest| && rest[k] == f[j];
        assert rest[k] == ms[k + 1];
      }
    }
  }

  /** Appending a membership whose pair is not yet present keeps pairs unique. */
  lemma AppendingFreshPair(ms: seq<ProjectMember>, m: ProjectMember)
    requires forall i :: 0 <= i < |ms| ==> !KeyIs(MemberPair, MemberPair(m))(ms[i])
    ensures UniquePairs(ms) ==> UniquePairs(ms + [m])
  {
    var ms' := ms + [m];
    forall i | 0 <= i < |ms| ensures MemberPair(ms'[i]) != MemberPair(m) {
      assert ms'[i] == ms[i];
      assert !KeyIs(MemberPair, MemberPair(m))(ms[i]);
    }
  }

  /** Creating a project lists it after every earlier project; getById then returns it with the input's fields. */
  lemma CreateThenGet(r: Repo, input: ProjectInput, id: Id, now: Timestamp)
    requires Valid(r)
    requires id !in r.projects.items
    ensures var s := Create(r, input, id, now);
      && |List(s.repo)| == |List(r)| + 1
      && List(s.repo)[|List(r)|] == s.result
      && GetById(s.repo, id).Some?
      && FromInput(GetById(s.repo, id).value, input)
      && GetById(s.repo, id).value.id == id
  {
  }

  /** A project's membership listing holds exactly the memberships with that project id. */
  lemma ListMembersExactly(r: Repo, projectId: Id)
    ensures forall i :: 0 <= i < |r.members| && r.members[i].projectId == projectId ==>
      r.members[i] in ListMembers(r, projectId)
    ensures forall m :: m in ListMembers(r, projectId) ==> m in r.members && m.projectId == projectId
  {
    var keep := KeyIs(MemberProject, projectId);
    FilterMembers(r.members, keep);
    forall i | 0 <= i < |r.members| && r.members[i].projectId == projectId
      ensures r.members[i] in ListMembers(r, projectId)
    {
      assert keep(r.members[i]);
    }
    forall m | m in ListMembers(r, projectId) ensures m in r.members && m.projectId == projectId {
      var j :| 0 <= j < |ListMembers(r, projectId)| && ListMembers(r, projectId)[j] == m;
      assert keep(m);
    }
  }

  /** Adding a pair that is already a member, under any role, leaves the membership list as it was. */
  lemma {:induction false} AddMemberIdempotent(r: Repo, projectId: Id, userId: Id,
                                               role: ProjectMemberRole, role': ProjectMemberRole)
    ensures var s := AddMember(r, projectId, userId, role);
      var s' := AddMember(s.repo, projectId, userId, role');
      s'.repo == s.repo && s'.result == s.result
  {
    var s := AddMember(r, projectId, userId, role);
    if Find(r.members, KeyIs(MemberPair, (projectId, userId))).None? {
      var m := ProjectMember(projectId, userId, role);
      assert s.repo.members == r.members + [m];
      var ms := s.repo.members;
      FindFirstMatch(ms, m, |r.members|);
    }
  }

  /** `Find` on pair keys returns the only element with that pair when pairs are unique, or the first one otherwise. */
  lemma {:induction false} FindFirstMatch(ms: seq<ProjectMember>, m: ProjectMember, k: nat)
    requires k < |ms| && ms[k] == m
    requires forall i :: 0 <= i < k ==> MemberPair(ms[i]) != MemberPair(m)
    ensures Find(ms, KeyIs(MemberPair, MemberPair(m))) == Some(m)
  {
    if k > 0 {
      assert !KeyIs(MemberPair, MemberPair(m))(ms[0]);
      assert ms[1..][k - 1] == m;
      FindFirstMatch(ms[1..], m, k - 1);
    }
  }
}
