/** Session records of the planning-poker service, as the key-value store holds them,
    and the pure lookups the request handlers perform on them. */
module SessionModel {

  datatype Option<T> = None | Some(value: T)

  /** One entry of a session's `users` list. `point` is the number text the store keeps
      under the participant's `point` attribute. */
  datatype Participant = Participant(userId: string, name: string, online: bool, point: string)

  /** A session record. The store keeps a record as a bag of attributes, so every attribute
      other than the key `guid` may be missing (None). `hideColon` is the attribute whose
      name is literally `hide:`, which only session creation writes. */
  datatype Session = Session(
    guid: string,
    name: Option<string>,
    votingSystem: Option<string>,
    users: Option<seq<Participant>>,
    hide: Option<bool>,
    hideColon: Option<bool>)

  /** The validation failures, one per distinct message the handlers return. */
  datatype Validation =
    | BodyRequired
    | NameAndVotingSystemRequired
    | SessionIdRequired
    | SessionIdAndUserIdRequired
    | NameRequired
    | PointRequired

  datatype Failure =
    | ValidationError(reason: Validation)
    | SessionNotFound
    | UserAlreadyJoined
    | UserNotFound
    | SessionEmpty
    | DbError

  datatype Result<T> = Ok(value: T) | Err(error: Failure)

  /** Parsed request bodies; a field the body lacks is the empty string (both are falsy). */
  datatype CreateBody = CreateBody(name: string, votingSystem: string)
  datatype JoinBody = JoinBody(name: string)
  datatype PointBody = PointBody(point: string)

  /** The `error` text of the response body for each failure. */
  function ErrorMessage(e: Failure): string {
    match e
    case ValidationError(BodyRequired) => "[validation error]: body required"
    case ValidationError(NameAndVotingSystemRequired) => "[validation error]: name and votingSystem required"
    case ValidationError(SessionIdRequired) => "[validation error]: sessionId required"
    case ValidationError(SessionIdAndUserIdRequired) => "[validation error]: sessionId and userId required"
    case ValidationError(NameRequired) => "[validation error]: name required"
    case ValidationError(PointRequired) => "[validation error]: point required"
    case SessionNotFound => "session not found!"
    case UserAlreadyJoined => "user already joined!"
    case UserNotFound => "user not found!"
    case SessionEmpty => "session empty!"
    case DbError => "dberror!"
  }

  /** The record that session creation puts: the visibility flag goes under `hide:`. */
  function NewSession(guid: string, name: string, votingSystem: string): Session {
    Session(guid, Some(name), Some(votingSystem), Some([]), None, Some(true))
  }

  /** The record an unconditional attribute update creates for a key that has no record. */
  function StubSession(guid: string): Session {
    Session(guid, None, None, None, None, None)
  }

  /** The participant a join appends. */
  function Joiner(userId: string, name: string): Participant {
    Participant(userId, name, true, "0")
  }

  predicate UniqueUserIds(users: seq<Participant>) {
    forall i, j :: 0 <= i < j < |users| ==> users[i].userId != users[j].userId
  }

  /** The invariant of every stored record: it sits under its own guid and no userId
      appears twice in its roster. */
  predicate WellFormed(key: string, s: Session) {
    s.guid == key && (s.users.Some? ==> UniqueUserIds(s.users.value))
  }

  /** `users.find(...)` on the userId: the first participant with that userId, if any. */
  function Find(users: seq<Participant>, userId: string): (r: Option<Participant>)
    ensures r.None? <==> forall i :: 0 <= i < |users| ==> users[i].userId != userId
    ensures r.Some? ==> exists i :: 0 <= i < |users| && users[i] == r.value && r.value.userId == userId
  {
    if |users| == 0 then None
    else if users[0].userId == userId then Some(users[0])
    else Find(users[1..], userId)
  }

  /** `users.findIndex(...)` on the userId: the first index holding that userId, or -1. */
  function FindIndex(users: seq<Participant>, userId: string): (r: int)
    ensures -1 <= r < |users|
    ensures r == -1 <==> forall i :: 0 <= i < |users| ==> users[i].userId != userId
    ensures r >= 0 ==> users[r].userId == userId && forall i :: 0 <= i < r ==> users[i].userId != userId
  {
    if |users| == 0 then -1
    else if users[0].userId == userId then 0
    else
      var k := FindIndex(users[1..], userId);
      if k == -1 then -1 else k + 1
  }

  /** Every participant's vote back to "0"; nothing else of theirs changes. */
  function ResetPoints(users: seq<Participant>): (r: seq<Participant>)
    ensures |r| == |users|
    ensures forall i :: 0 <= i < |users| ==> r[i] == users[i].(point := "0")
  {
    if |users| == 0 then [] else [users[0].(point := "0")] + ResetPoints(users[1..])
  }

  /** A session after a new round starts: votes cleared and hidden. */
  function ResetRound(s: Session): Session
    requires s.users.Some?
  {
    s.(users := Some(ResetPoints(s.users.value)), hide := Some(true))
  }

  /** The two lookups a vote performs agree: `find` succeeds exactly when `findIndex` is not -1,
      and then both name the same participant. */
  lemma FindAgreesWithFindIndex(users: seq<Participant>, userId: string)
    ensures Find(users, userId).Some? <==> FindIndex(users, userId) != -1
    ensures Find(users, userId).Some? ==> Find(users, userId).value == users[FindIndex(users, userId)]
  {
  }

  /** A participant appended to a roster that did not hold their userId keeps the roster
      free of duplicates and is found at the end. */
  lemma JoinAppendsAtEnd(users: seq<Participant>, p: Participant)
    requires UniqueUserIds(users)
    requires Find(users, p.userId).None?
    ensures UniqueUserIds(users + [p])
    ensures FindIndex(users + [p], p.userId) == |users|
  {
    assert (users + [p])[|users|].userId == p.userId;
  }

  /** Resetting the votes keeps every userId at its index, so each lookup gives the same index. */
  lemma ResetKeepsUserIds(users: seq<Participant>, userId: string)
    ensures FindIndex(ResetPoints(users), userId) == FindIndex(users, userId)
  {
  }

  /** Resetting the votes keeps a duplicate-free roster duplicate-free. */
  lemma ResetKeepsUnique(users: seq<Participant>)
    requires UniqueUserIds(users)
    ensures UniqueUserIds(ResetPoints(users))
  {
  }

  /** Each failure has its own response text, so a client can tell every failure apart
      from the `error` string alone. */
  lemma ErrorMessageInjective(a: Failure, b: Failure)
    ensures ErrorMessage(a) == ErrorMessage(b) ==> a == b
  {
  }

  /** Starting a second round right after the first changes nothing further. */
  lemma ResetRoundIdempotent(s: Session)
    requires s.users.Some?
    ensures ResetRound(ResetRound(s)) == ResetRound(s)
  {
    var once := ResetPoints(s.users.value);
    assert ResetPoints(once) == once;
  }
}
