/**
 The user service: fills in the defaults for a new user's role and active flag
 and hands role/active updates straight to the user store.
 */
module UsersService {
  import opened Common
  import MemoryUserRepo

  /** A create request: role and active flag may be left out. */
  datatype CreateRequest = CreateRequest(name: string, email: string, role: Option<MemoryUserRepo.UserRole>, isActive: Option<bool>)

  /** Role given to a user created without one. */
  const DefaultRole: MemoryUserRepo.UserRole := MemoryUserRepo.Member

  /** The store input a create request becomes. */
  function StoreInput(req: CreateRequest): (input: MemoryUserRepo.UserInput)
    ensures input.name == req.name && input.email == req.email
    ensures input.role == if req.role.Some? then req.role.value else MemoryUserRepo.Member
    ensures input.isActive == (req.isActive != Some(false))
  {
    MemoryUserRepo.UserInput(req.name, req.email, req.role.GetOr(DefaultRole), req.isActive.GetOr(true))
  }

  /** Creates a user: MEMBER when no role is given, active unless `isActive` is given as false. */
  function Create(r: MemoryUserRepo.Repo, req: CreateRequest, id: Id, now: Timestamp): (s: Step<MemoryUserRepo.Repo, MemoryUserRepo.User>)
    requires id !in r.users.items
    ensures s.result.id == id && s.result.createdAt == now
    ensures s.result.name == req.name && s.result.email == req.email
    ensures req.role.None? ==> s.result.role == MemoryUserRepo.Member
    ensures req.role.Some? ==> s.result.role == req.role.value
    ensures req.isActive.None? ==> s.result.isActive
    ensures req.isActive.Some? ==> s.result.isActive == req.isActive.value
    ensures MemoryUserRepo.GetById(s.repo, id) == Some(s.result)
    ensures MemoryUserRepo.Valid(r) ==> MemoryUserRepo.Valid(s.repo) && MemoryUserRepo.List(s.repo) == MemoryUserRepo.List(r) + [s.result]
  {
    MemoryUserRepo.Create(r, StoreInput(req), id, now)
  }

  /** Changes role and active flag exactly as the store does. */
  function UpdateRoleActive(r: MemoryUserRepo.Repo, id: Id, role: Option<MemoryUserRepo.UserRole>, isActive: Option<bool>): (s: Step<MemoryUserRepo.Repo, Option<MemoryUserRepo.User>>)
    ensures s == MemoryUserRepo.UpdateRoleActive(r, id, role, isActive)
    ensures id !in r.users.items ==> s.result == None && s.repo == r
    ensures id in r.users.items ==>
      var was := r.users.items[id];
      && s.result.Some?
      && Overlaid(role, was.role, s.result.value.role)
      && Overlaid(isActive, was.isActive, s.result.value.isActive)
      && s.result.value.(role := was.role, isActive := was.isActive) == was
      && MemoryUserRepo.GetById(s.repo, id) == s.result
    ensures forall k :: k != id ==> MemoryUserRepo.GetById(s.repo, k) == MemoryUserRepo.GetById(r, k)
    ensures s.repo.users.order == r.users.order
  {
    MemoryUserRepo.UpdateRoleActive(r, id, role, isActive)
  }
}
