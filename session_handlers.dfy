/** The six request handlers of the sessions service, as methods of the table of session
    records they read and write. Each handler is one atomic step on the table. A store call
    that fails (`readFails` for the record read, `writeFails` for the put or update) is
    caught by the handler and becomes `Err(DbError)`; no failure leaves a handler. */
module SessionHandlers {
  import opened SessionModel
  import opened UpdateExpression

  class SessionTable {
    /** The store's records, keyed by `guid`. */
    var items: map<string, Session>

    ghost predicate Valid()
      reads this
    {
      forall key :: key in items ==> WellFormed(key, items[key])
    }

    constructor ()
      ensures Valid() && items == map[]
    {
      items := map[];
    }

    /** POST /sessions. `freshId` is the identifier uuidv4 generates. */
    method CreateSession(body: Option<CreateBody>, freshId: string, writeFails: bool) returns (r: Result<string>)
      requires Valid()
      requires freshId != "" && freshId !in items
      modifies this
      ensures Valid()
      ensures body.None? ==> r == Err(ValidationError(BodyRequired))
      ensures body.Some? && (body.value.name == "" || body.value.votingSystem == "") ==>
        r == Err(ValidationError(NameAndVotingSystemRequired))
      ensures body.Some? && body.value.name != "" && body.value.votingSystem != "" ==>
        r == if writeFails then Err(DbError) else Ok(freshId)
      ensures r.Ok? ==> items == old(items)[freshId := NewSession(freshId, body.value.name, body.value.votingSystem)]
      ensures r.Err? ==> items == old(items)
    {
      if body.None? {
        return Err(ValidationError(BodyRequired));
      }
      var payload := body.value;
      if payload.name == "" || payload.votingSystem == "" {
        return Err(ValidationError(NameAndVotingSystemRequired));
      }
      var record := NewSession(freshId, payload.name, payload.votingSystem);
      if writeFails {
        return Err(DbError);
      }
      items := items[freshId := record];
      r := Ok(freshId);
    }

    /** GET /sessions/{sessionId}: reads and returns the record, changing nothing. */
    method GetSession(sessionId: string, readFails: bool) returns (r: Result<Session>)
      ensures sessionId == "" ==> r == Err(ValidationError(SessionIdRequired))
      ensures sessionId != "" && readFails ==> r == Err(DbError)
      ensures sessionId != "" && !readFails && sessionId !in items ==> r == Err(SessionNotFound)
      ensures sessionId != "" && !readFails && sessionId in items ==> r == Ok(items[sessionId])
    {
      if sessionId == "" {
        return Err(ValidationError(SessionIdRequired));
      }
      if readFails {
        return Err(DbError);
      }
      if sessionId !in items {
        return Err(SessionNotFound);
      }
      r := Ok(items[sessionId]);
    }

    /** POST /sessions/{sessionId}/{userId}: appends the caller to the roster unless their
        userId is already in it. A record without a roster fails when its `users` is read;
        a missing record fails in the store, whose list append needs an existing list. */
    method JoinSession(sessionId: string, userId: string, body: Option<JoinBody>, readFails: bool, writeFails: bool)
      returns (r: Result<string>)
      requires Valid()
      modifies this
      ensures Valid()
      ensures sessionId == "" || userId == "" ==> r == Err(ValidationError(SessionIdAndUserIdRequired))
      ensures sessionId != "" && userId != "" && body.None? ==> r == Err(ValidationError(BodyRequired))
      ensures sessionId != "" && userId != "" && body.Some? && body.value.name == "" ==>
        r == Err(ValidationError(NameRequired))
      ensures sessionId != "" && userId != "" && body.Some? && body.value.name != "" ==>
        if readFails || sessionId !in old(items) || old(items)[sessionId].users.None? then r == Err(DbError)
        else if Find(old(items)[sessionId].users.value, userId).Some? then r == Err(UserAlreadyJoined)
        else r == if writeFails then Err(DbError) else Ok("user joined!")
      ensures r.Ok? ==> sessionId in old(items) && old(items)[sessionId].users.Some?
      ensures r.Ok? ==>
        var record := old(items)[sessionId];
        items == old(items)[sessionId := record.(users := Some(record.users.value + [Joiner(userId, body.value.name)]))]
      ensures r.Err? ==> items == old(items)
    {
      if sessionId == "" || userId == "" {
        return Err(ValidationError(SessionIdAndUserIdRequired));
      }
      if body.None? {
        return Err(ValidationError(BodyRequired));
      }
      var name := body.value.name;
      if name == "" {
        return Err(ValidationError(NameRequired));
      }
      // getItem, then the duplicate check
      if readFails {
        return Err(DbError);
      }
      if sessionId in items {
        var found := items[sessionId];
        if found.users.None? {
          return Err(DbError);
        }
        if Find(found.users.value, userId).Some? {
          return Err(UserAlreadyJoined);
        }
      }
      // updateItem: SET users = list_append(users, [participant])
      if writeFails || sessionId !in items {
        return Err(DbError);
      }
      var record := items[sessionId];
      var users := record.users.value;
      JoinAppendsAtEnd(users, Joiner(userId, name));
      items := items[sessionId := record.(users := Some(users + [Joiner(userId, name)]))];
      r := Ok("user joined!");
    }

    /** PUT /sessions/{sessionId}/{userId}: records the caller's vote at the first roster
        index holding their userId. The index is tested for being unset or zero, so the
        participant at index 0 is answered "user not found!" and cannot vote. */
    method UpdateStoryPoint(sessionId: string, userId: string, body: Option<PointBody>, readFails: bool, writeFails: bool)
      returns (r: Result<string>)
      requires Valid()
      modifies this
      ensures Valid()
      ensures sessionId == "" || userId == "" ==> r == Err(ValidationError(SessionIdAndUserIdRequired))
      ensures sessionId != "" && userId != "" && body.None? ==> r == Err(ValidationError(BodyRequired))
      ensures sessionId != "" && userId != "" && body.Some? && body.value.point == "" ==>
        r == Err(ValidationError(PointRequired))
      ensures sessionId != "" && userId != "" && body.Some? && body.value.point != "" ==>
        if readFails then r == Err(DbError)
        else if sessionId !in old(items) then r == Err(UserNotFound)
        else if old(items)[sessionId].users.None? then r == Err(DbError)
        else if FindIndex(old(items)[sessionId].users.value, userId) <= 0 then r == Err(UserNotFound)
        else r == if writeFails then Err(DbError) else Ok("story point updated!")
      ensures r.Ok? ==> sessionId in old(items) && old(items)[sessionId].users.Some?
      ensures r.Ok? ==>
        var record := old(items)[sessionId];
        var users := record.users.value;
        var i := FindIndex(users, userId);
        0 < i < |users| &&
        items == old(items)[sessionId := record.(users := Some(users[i := users[i].(point := body.value.point)]))]
      ensures r.Err? ==> items == old(items)
    {
      if sessionId == "" || userId == "" {
        return Err(ValidationError(SessionIdAndUserIdRequired));
      }
      if body.None? {
        return Err(ValidationError(BodyRequired));
      }
      var point := body.value.point;
      if point == "" {
        return Err(ValidationError(PointRequired));
      }
      // getItem, then find and findIndex on the roster; None stands for an unset index
      if readFails {
        return Err(DbError);
      }
      var index: Option<int> := None;
      if sessionId in items {
        var found := items[sessionId];
        if found.users.None? {
          return Err(DbError);
        }
        if Find(found.users.value, userId).Some? {
          FindAgreesWithFindIndex(found.users.value, userId);
          index := Some(FindIndex(found.users.value, userId));
        }
      }
      if index.None? || index.value == 0 || index.value == -1 {
        return Err(UserNotFound);
      }
      // updateItem: SET users[index].point = :attrValue
      if writeFails {
        return Err(DbError);
      }
      var record := items[sessionId];
      var users := record.users.value;
      var i := index.value;
      items := items[sessionId := record.(users := Some(users[i := users[i].(point := point)]))];
      r := Ok("story point updated!");
    }

    /** PUT /sessions/{sessionId}/reset: starts a new round. The update expression is built
        from the roster size just read and is then executed by the store. */
    method StartVoting(sessionId: string, readFails: bool, writeFails: bool) returns (r: Result<string>)
      requires Valid()
      modifies this
      ensures Valid()
      ensures sessionId == "" ==> r == Err(ValidationError(SessionIdRequired))
      ensures sessionId != "" ==>
        if readFails then r == Err(DbError)
        else if sessionId !in old(items) then r == Err(SessionEmpty)
        else if old(items)[sessionId].users.None? then r == Err(DbError)
        else if old(items)[sessionId].users.value == [] then r == Err(SessionEmpty)
        else r == if writeFails then Err(DbError) else Ok("story points updated!")
      ensures r.Ok? ==> sessionId in old(items) && old(items)[sessionId].users.Some?
      ensures r.Ok? ==> items == old(items)[sessionId := ResetRound(old(items)[sessionId])]
      ensures r.Err? ==> items == old(items)
    {
      if sessionId == "" {
        return Err(ValidationError(SessionIdRequired));
      }
      // getItem; zero stands for an unset count
      if readFails {
        return Err(DbError);
      }
      var usersCount: nat := 0;
      if sessionId in items {
        var found := items[sessionId];
        if found.users.None? {
          return Err(DbError);
        }
        if |found.users.value| > 0 {
          usersCount := |found.users.value|;
        }
      }
      if usersCount == 0 {
        return Err(SessionEmpty);
      }
      var expression := BuildResetExpression(usersCount);
      // updateItem with the built expression, :attrValue = 0 and :hide = true
      if writeFails {
        return Err(DbError);
      }
      var record := items[sessionId];
      ResetExpressionResets(record);
      ResetKeepsUnique(record.users.value);
      items := items[sessionId := ApplyUpdate(record, expression, "0", true).value];
      r := Ok("story points updated!");
    }

    /** PUT /sessions/{sessionId}/show: reveals the votes. The update does not require the
        record to exist, so for an unknown key it creates a record holding only the key and
        the flag. */
    method ShowStoryPoints(sessionId: string, writeFails: bool) returns (r: Result<string>)
      requires Valid()
      modifies this
      ensures Valid()
      ensures sessionId == "" ==> r == Err(ValidationError(SessionIdRequired))
      ensures sessionId != "" ==> r == if writeFails then Err(DbError) else Ok("session updated!")
      ensures r.Ok? ==>
        var record := if sessionId in old(items) then old(items)[sessionId] else StubSession(sessionId);
        items == old(items)[sessionId := record.(hide := Some(false))]
      ensures r.Err? ==> items == old(items)
    {
      if sessionId == "" {
        return Err(ValidationError(SessionIdRequired));
      }
      // updateItem: SET hide = false
      if writeFails {
        return Err(DbError);
      }
      var record := if sessionId in items then items[sessionId] else StubSession(sessionId);
      items := items[sessionId := record.(hide := Some(false))];
      r := Ok("session updated!");
    }
  }

  /** A fresh session: the first participant to join is refused when voting. */
  method FirstJoinerCannotVote(sessionId: string, userId: string, name: string, point: string)
    returns (joined: Result<string>, voted: Result<string>)
    requires sessionId != "" && userId != "" && name != "" && point != ""
    ensures joined == Ok("user joined!")
    ensures voted == Err(UserNotFound)
  {
    var table := new SessionTable();
    var created := table.CreateSession(Some(CreateBody("team", "fibonacci")), sessionId, false);
    joined := table.JoinSession(sessionId, userId, Some(JoinBody(name)), false, false);
    voted := table.UpdateStoryPoint(sessionId, userId, Some(PointBody(point)), false, false);
  }

  /** The two joins of `VotingRound`, into a session just created. */
  method JoinTwo(table: SessionTable, sessionId: string, first: string, second: string)
    requires table.Valid()
    requires sessionId != "" && first != "" && second != "" && first != second
    requires table.items == map[sessionId := NewSession(sessionId, "team", "fibonacci")]
    modifies table
    ensures table.Valid()
    ensures table.items == map[sessionId := NewSession(sessionId, "team", "fibonacci").(
      users := Some([Joiner(first, "ann"), Joiner(second, "bob")]))]
  {
    var ann, bob := Joiner(first, "ann"), Joiner(second, "bob");
    var r := table.JoinSession(sessionId, first, Some(JoinBody("ann")), false, false);
    assert [] + [ann] == [ann];
    r := table.JoinSession(sessionId, second, Some(JoinBody("bob")), false, false);
    assert [ann] + [bob] == [ann, bob];
  }

  /** A whole round with two participants: the second one votes, a new round clears the
      vote and hides, and the reveal shows. A freshly created record has no `hide` at all. */
  method VotingRound(sessionId: string, first: string, second: string, point: string)
    returns (created: Result<Session>, voted: Result<Session>, hidden: Result<Session>, revealed: Result<Session>)
    requires sessionId != "" && first != "" && second != "" && first != second
    requires point != "" && AllDigits(point)
    ensures created == Ok(Session(sessionId, Some("team"), Some("fibonacci"), Some([]), None, Some(true)))
    ensures voted == Ok(Session(sessionId, Some("team"), Some("fibonacci"),
      Some([Joiner(first, "ann"), Joiner(second, "bob").(point := point)]), None, Some(true)))
    ensures hidden == Ok(Session(sessionId, Some("team"), Some("fibonacci"),
      Some([Joiner(first, "ann"), Joiner(second, "bob")]), Some(true), Some(true)))
    ensures revealed == Ok(Session(sessionId, Some("team"), Some("fibonacci"),
      Some([Joiner(first, "ann"), Joiner(second, "bob")]), Some(false), Some(true)))
  {
    var table := new SessionTable();
    var ann, bob := Joiner(first, "ann"), Joiner(second, "bob");
    var id := table.CreateSession(Some(CreateBody("team", "fibonacci")), sessionId, false);
    created := table.GetSession(sessionId, false);
    JoinTwo(table, sessionId, first, second);
    assert FindIndex([ann, bob], second) == 1;
    var r := table.UpdateStoryPoint(sessionId, second, Some(PointBody(point)), false, false);
    assert [ann, bob][1 := bob.(point := point)] == [ann, bob.(point := point)];
    voted := table.GetSession(sessionId, false);
    assert ResetPoints([ann, bob.(point := point)]) == [ann, bob];
    r := table.StartVoting(sessionId, false, false);
    hidden := table.GetSession(sessionId, false);
    r := table.ShowStoryPoints(sessionId, false);
    revealed := table.GetSession(sessionId, false);
  }
}
