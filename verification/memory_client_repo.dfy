/**
 The in-memory client store: clients keyed by id in creation order, with
 create, partial update and delete.
 */
module MemoryClientRepo {
  import opened Common
  import Stores

  datatype Client = Client(
    id: Id,
    name: string,
    email: Option<string>,
    phone: Option<string>,
    notes: Option<string>,
    createdAt: Timestamp)

  /** The fields of a new client; the store adds the id and the creation time. */
  datatype ClientInput = ClientInput(name: string, email: Option<string>, phone: Option<string>, notes: Option<string>)

  /** A partial update: `Some` for every supplied field. */
  datatype ClientPatch = ClientPatch(name: Option<string>, email: Option<string>, phone: Option<string>, notes: Option<string>)

  datatype Repo = Repo(clients: Stores.Store<Client>)

  /** The store invariant, and every client is stored under its own id. */
  ghost predicate Valid(r: Repo) {
    && Stores.Valid(r.clients)
    && forall id :: id in r.clients.items ==> r.clients.items[id].id == id
  }

  function Empty(): (r: Repo)
    ensures Valid(r)
    ensures List(r) == []
  {
    Repo(Stores.Empty())
  }

  /** All clients in creation order. */
  function List(r: Repo): seq<Client> {
    Stores.List(r.clients)
  }

  function GetById(r: Repo, id: Id): Option<Client> {
    Stores.Get(r.clients, id)
  }

  /** `now` is `was` with the patch's supplied fields written over it; id and creation time are kept. */
  ghost predicate Patched(was: Client, patch: ClientPatch, now: Client) {
    && now.id == was.id
    && now.createdAt == was.createdAt
    && Overlaid(patch.name, was.name, now.name)
    && OverlaidOptional(patch.email, was.email, now.email)
    && OverlaidOptional(patch.phone, was.phone, now.phone)
    && OverlaidOptional(patch.notes, was.notes, now.notes)
  }

  /** Creates a client under the fresh id `id` at time `now`; it is listed last. */
  function Create(r: Repo, input: ClientInput, id: Id, now: Timestamp): (s: Step<Repo, Client>)
    requires id !in r.clients.items
    ensures s.result == Client(id, input.name, input.email, input.phone, input.notes, now)
    ensures GetById(s.repo, id) == Some(s.result)
    ensures forall k :: k != id ==> GetById(s.repo, k) == GetById(r, k)
    ensures Valid(r) ==> Valid(s.repo) && List(s.repo) == List(r) + [s.result]
  {
    var c := Client(id, input.name, input.email, input.phone, input.notes, now);
    Step(Repo(Stores.Insert(r.clients, id, c)), c)
  }

  /** Applies a partial update; `None` and no change when there is no client `id`. */
  function Update(r: Repo, id: Id, patch: ClientPatch): (s: Step<Repo, Option<Client>>)
    ensures id !in r.clients.items ==> s.result == None && s.repo == r
    ensures id in r.clients.items ==>
      && s.result.Some?
      && Patched(r.clients.items[id], patch, s.result.value)
      && GetById(s.repo, id) == s.result
    ensures forall k :: k != id ==> GetById(s.repo, k) == GetById(r, k)
    ensures s.repo.clients.order == r.clients.order
    ensures Valid(r) ==> Valid(s.repo)
  {
    if id !in r.clients.items then Step(r, None)
    else
      var c := r.clients.items[id];
      var updated := c.(
        name := patch.name.GetOr(c.name),
        email := patch.email.Or(c.email),
        phone := patch.phone.Or(c.phone),
        notes := patch.notes.Or(c.notes));
      Step(Repo(Stores.Put(r.clients, id, updated)), Some(updated))
  }

  /** Deletes client `id`; `false` and no change when there is no such client. */
  function Delete(r: Repo, id: Id): (s: Step<Repo, bool>)
    ensures s.result <==> id in r.clients.items
    ensures !s.result ==> s.repo == r
    ensures GetById(s.repo, id) == None
    ensures forall k :: k != id ==> GetById(s.repo, k) == GetById(r, k)
    ensures Valid(r) ==> Valid(s.repo)
  {
    if id !in r.clients.items then Step(r, false)
    else Step(Repo(Stores.Remove(r.clients, id)), true)
  }

  /** Creating a client lists it after every earlier client; getById then returns it with the input's fields. */
  lemma CreateThenGet(r: Repo, input: ClientInput, id: Id, now: Timestamp)
    requires Valid(r)
    requires id !in r.clients.items
    ensures var s := Create(r, input, id, now);
      && |List(s.repo)| == |List(r)| + 1
      && List(s.repo)[|List(r)|] == s.result
      && GetById(s.repo, id) == Some(Client(id, input.name, input.email, input.phone, input.notes, now))
  {
  }

  /**
   Deleting a client cuts exactly that client out of the list: it is no longer
   listed, and the other clients stay in their relative order.
   */
  lemma DeleteKeepsOthersInOrder(r: Repo, id: Id)
    requires Valid(r)
    requires id in r.clients.items
    ensures var k := Stores.IndexOf(r.clients.order, id);
      && k < |List(r)|
      && List(r)[k].id == id
      && List(Delete(r, id).repo) == List(r)[..k] + List(r)[k + 1..]
    ensures forall c :: c in List(Delete(r, id).repo) ==> c.id != id
  {
    var k := Stores.IndexOf(r.clients.order, id);
    Stores.RemoveCutsOutOfList(r.clients, id);
    Stores.ListHoldsOnlyRecords(r.clients);
    var after := Delete(r, id).repo;
    assert Valid(after);
    Stores.ListHoldsOnlyRecords(after.clients);
    forall c | c in List(after) ensures c.id != id {
      var j :| 0 <= j < |List(after)| && List(after)[j] == c;
      assert after.clients.order[j] in after.clients.items;
    }
  }
}
