/**
 * The user record the repository stores, the `UserDTO` projection returned
 * by the paged search, and the repository's table viewed as a map from id
 * to record.
 */
module Users {

  /** A persisted user: the `id` is the primary key, assigned by the store. */
  datatype User = User(id: int, name: string, email: string)

  /** The projection `new UserDTO(user.getId(), user.getName(), user.getEmail())`. */
  datatype UserDTO = UserDTO(id: int, name: string, email: string)

  /** The user table: each row is stored under its own primary key. */
  type Store = map<int, User>

  ghost predicate StoreValid(store: Store)
  {
    forall id :: id in store ==> store[id].id == id
  }

  function ToDto(u: User): UserDTO
  {
    UserDTO(u.id, u.name, u.email)
  }

  /** The stream `map` to `UserDTO` collected into a list. */
  function ToDtos(users: seq<User>): (dtos: seq<UserDTO>)
    ensures |dtos| == |users|
    ensures forall i :: 0 <= i < |users| ==>
      dtos[i].id == users[i].id && dtos[i].name == users[i].name && dtos[i].email == users[i].email
  {
    if users == [] then [] else [ToDto(users[0])] + ToDtos(users[1..])
  }
}
