/**
 The in-memory user store: users keyed by id in creation order. Only the role
 and the active flag of a user can change after creation.
 */
module MemoryUserRepo {
  import opened Common
  import Stores

  datatype UserRole = Admin | Manager | Member

  datatype User = User(id: Id, name: string, email: string, role: UserRole, isActive: bool, createdAt: Timestamp)

  /** The fields of a new user; the store adds the id and the creation time. */
  datatype UserInput = UserInput(name: string, email: string, role: UserRole, isActive: bool)

  datatype Repo = Repo(users: Stores.Store<User>)

  /** The store invariant, and every user is stored under its own id. */
  ghost predicate Valid(r: Repo) {
    && Stores.Valid(r.users)
    && forall id :: id in r.users.items ==> r.users.items[id].id == id
  }

  function Empty(): (r: Repo)
    ensures Valid(r)
    ensures List(r) == [] && GetFirst(r) == None
  {
    Repo(Stores.Empty())
  }

  /** All users in creation order. */
  function List(r: Repo): seq<User> {
    Stores.List(r.users)
  }

  function GetById(r: Repo, id: Id): Option<User> {
    Stores.Get(r.users, id)
  }

  /** The earliest-created user, or `None` when there are no users. */
  function GetFirst(r: Repo): (u: Option<User>)
    ensures |r.users.order| == 0 ==> u == None
    ensures Valid(r) && |r.users.order| > 0 ==> |List(r)| > 0 && u == Some(List(r)[0])
  {
    if |r.users.order| == 0 then None
    else
      Stores.FirstListed(r.users);
      GetById(r, r.users.order[0])
  }

  /** Creates a user under the fresh id `id` at time `now`; it is listed last. */
  function Create(r: Repo, input: UserInput, id: Id, now: Timestamp): (s: Step<Repo, User>)
    requires id !in r.users.items
    ensures s.result == User(id, input.name, input.email, input.role, input.isActive, now)
    ensures GetById(s.repo, id) == Some(s.result)
    ensures forall k :: k != id ==> GetById(s.repo, k) == GetById(r, k)
    ensures Valid(r) ==> Valid(s.repo) && List(s.repo) == List(r) + [s.result]
  {
    var u := User(id, input.name, input.email, input.role, input.isActive, now);
    Step(Repo(Stores.Insert(r.users, id, u)), u)
  }

  /**
   Sets the role and the active flag of user `id`, each only when supplied;
   `None` and no change when there is no such user.
   */
  function UpdateRoleActive(r: Repo, id: Id, role: Option<UserRole>, isActive: Option<bool>): (s: Step<Repo, Option<User>>)
    ensures id !in r.users.items ==> s.result == None && s.repo == r
    ensures id in r.users.items ==>
      var was := r.users.items[id];
      && s.result.Some?
      && Overlaid(role, was.role, s.result.value.role)
      && Overlaid(isActive, was.isActive, s.result.value.isActive)
      && s.result.value.id == was.id
      && s.result.value.name == was.name
      && s.result.value.email == was.email
      && s.result.value.createdAt == was.createdAt
      && GetById(s.repo, id) == s.result
    ensures forall k :: k != id ==> GetById(s.repo, k) == GetById(r, k)
    ensures s.repo.users.order == r.users.order
    ensures Valid(r) ==> Valid(s.repo)
  {
    if id !in r.users.items then Step(r, None)
    else
      var was := r.users.items[id];
      var updated := was.(role := role.GetOr(was.role), isActive := isActive.GetOr(was.isActive));
      Step(Repo(Stores.Put(r.users, id, updated)), Some(updated))
  }

  /** Creating a user grows the list by one and getById returns the user with the given fields. */
  lemma CreateThenGet(r: Repo, input: UserInput, id: Id, now: Timestamp)
    requires Valid(r)
    requires id !in r.users.items
    ensures var s := Create(r, input, id, now);
      && |List(s.repo)| == |List(r)| + 1
      && GetById(s.repo, id).Some?
      && var u := GetById(s.repo, id).value;
         u.name == input.name && u.email == input.email && u.role == input.role && u.isActive == input.isActive
  {
  }

  /** Creating more users never changes which user is first, once there is one. */
  lemma CreateKeepsFirst(r: Repo, input: UserInput, id: Id, now: Timestamp)
    requires Valid(r)
    requires id !in r.users.items
    ensures var s := Create(r, input, id, now);
      GetFirst(s.repo) == if |List(r)| == 0 then Some(s.result) else GetFirst(r)
  {
    var s := Create(r, input, id, now);
    Stores.ListHoldsOnlyRecords(r.users);
    Stores.ListHoldsOnlyRecords(s.repo.users);
  }
}
