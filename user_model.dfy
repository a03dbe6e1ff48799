/** The User record: the schema's fields, setters and validators. The password is an opaque credential. */
module UserModel {
  import opened Text

  type UserId = nat

  const MinUsernameLength: nat := 3
  const MaxUsernameLength: nat := 30
  const MinFullNameLength: nat := 2
  const MaxFullNameLength: nat := 50
  const MinAge: int := 13
  const MaxAge: int := 120

  /** A stored user; `following` lists the ids this user follows (followers are never stored). */
  datatype User = User(
    userId: UserId,
    username: string,
    fullName: string,
    passwordHash: string,
    age: int,
    interests: seq<string>,
    following: seq<UserId>,
    createdAt: nat)

  /** Every interest is stored trimmed. */
  predicate InterestsTrimmed(interests: seq<string>) {
    forall i :: 0 <= i < |interests| ==> Trimmed(interests[i])
  }

  /** The `trim` setter applied to each interest. */
  function TrimEach(interests: seq<string>): (r: seq<string>)
    ensures |r| == |interests|
    ensures forall i :: 0 <= i < |r| ==> r[i] == Trim(interests[i])
    ensures InterestsTrimmed(r)
  {
    seq(|interests|, i requires 0 <= i < |interests| => Trim(interests[i]))
  }

  predicate UsernameValid(name: string) {
    Trimmed(name) && MinUsernameLength <= JsLength(name) <= MaxUsernameLength
  }

  predicate FullNameValid(name: string) {
    Trimmed(name) && MinFullNameLength <= JsLength(name) <= MaxFullNameLength
  }

  predicate AgeValid(age: int) {
    MinAge <= age <= MaxAge
  }

  /** The validators a user must pass to be saved (`required` rejects an empty credential). */
  predicate SchemaValid(u: User) {
    && UsernameValid(u.username)
    && FullNameValid(u.fullName)
    && u.passwordHash != []
    && AgeValid(u.age)
    && InterestsTrimmed(u.interests)
  }

  /**
   * `new User({...})` with an empty `following` list: setters trim the username, full name and interests.
   * The document passes validation exactly when the trimmed values are within the schema's bounds.
   */
  function NewUser(userId: UserId, username: string, fullName: string, password: string,
                   age: int, interests: seq<string>, now: nat): (u: User)
    ensures u.userId == userId && u.following == [] && u.createdAt == now
    ensures u.username == Trim(username) && u.fullName == Trim(fullName) && u.passwordHash == password && u.age == age
    ensures u.interests == TrimEach(interests)
    ensures SchemaValid(u) <==>
      && MinUsernameLength <= JsLength(Trim(username)) <= MaxUsernameLength
      && MinFullNameLength <= JsLength(Trim(fullName)) <= MaxFullNameLength
      && password != [] && AgeValid(age)
  {
    User(userId, Trim(username), Trim(fullName), password, age, TrimEach(interests), [], now)
  }
}
