/** The user directory the service reads and extends through `UserModel`:
    `findOne({email})`, `findById(id)` and `create({name, email, password})`,
    as lookups and updates of a map keyed by id with an index keyed by email. */
module Directory {
  import opened Types

  /** `users` holds every record by id, `emails` indexes them by address and
      `nextId` is the first identifier the store has not handed out. */
  datatype Directory = Directory(users: map<Id, User>, emails: map<string, Id>, nextId: nat)

  /** Every record sits under its own id, below `nextId`, and the email index
      is a bijection between the addresses and the records (emails are unique). */
  ghost predicate Valid(d: Directory) {
    && (forall id :: id in d.users ==>
          && d.users[id].id == id
          && id < d.nextId
          && d.users[id].email in d.emails
          && d.emails[d.users[id].email] == id)
    && (forall e :: e in d.emails ==> d.emails[e] in d.users && d.users[d.emails[e]].email == e)
  }

  /** The directory before any user registered. */
  function Empty(): (d: Directory)
    ensures Valid(d) && d.users == map[]
  {
    Directory(map[], map[], 0)
  }

  /** `UserModel.findOne({email})`. */
  function FindOne(d: Directory, email: string): (r: Option<User>)
    ensures r.Some? ==> email in d.emails && d.emails[email] in d.users && r.value == d.users[d.emails[email]]
    ensures Valid(d) ==> (r.Some? <==> email in d.emails)
    ensures Valid(d) && r.Some? ==> r.value.email == email && r.value.id in d.users
  {
    if email in d.emails && d.emails[email] in d.users then Some(d.users[d.emails[email]]) else None
  }

  /** `UserModel.findById(id)`. */
  function FindById(d: Directory, id: Id): (r: Option<User>)
    ensures r.Some? <==> id in d.users
    ensures r.Some? ==> r.value == d.users[id]
    ensures Valid(d) && r.Some? ==> r.value.id == id
  {
    if id in d.users then Some(d.users[id]) else None
  }

  /** `UserModel.create({name, email, password})`: a record under a fresh id.
      The service only calls it for an address `findOne` did not find. */
  function Create(d: Directory, name: string, email: string, password: string): (r: (User, Directory))
    ensures r.0 == User(d.nextId, name, email, password)
    ensures Valid(d) ==> r.0.id !in d.users
    ensures r.1.users == d.users[r.0.id := r.0] && r.1.nextId == d.nextId + 1
    ensures r.1.emails == d.emails[email := r.0.id]
  {
    var user := User(d.nextId, name, email, password);
    (user, Directory(d.users[user.id := user], d.emails[email := user.id], d.nextId + 1))
  }

  /** Creating a user for a new address keeps the directory consistent, and
      the new record is what `findOne` and `findById` then return. */
  lemma CreateValid(d: Directory, name: string, email: string, password: string)
    requires Valid(d) && email !in d.emails
    ensures var (u, d') := Create(d, name, email, password);
      && Valid(d')
      && FindOne(d', email) == Some(u)
      && FindById(d', u.id) == Some(u)
      && (forall e :: e != email ==> FindOne(d', e) == FindOne(d, e))
  {
    var (u, d') := Create(d, name, email, password);
    forall id | id in d'.users
      ensures d'.users[id].id == id && id < d'.nextId
      ensures d'.users[id].email in d'.emails && d'.emails[d'.users[id].email] == id
    {
      if id != u.id {
        assert d'.users[id] == d.users[id];
        assert d.users[id].email != email;
      }
    }
    forall e | e in d'.emails
      ensures d'.emails[e] in d'.users && d'.users[d'.emails[e]].email == e
    {
      if e != email {
        assert d.emails[e] != u.id;
      }
    }
  }
}
