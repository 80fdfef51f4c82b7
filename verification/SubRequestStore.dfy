/** The sub_requests table: one function per SQL statement, and the repository whose methods issue them. */
module SubRequestStore {
  import opened Basics
  import opened Domain

  /** The table and its AUTOINCREMENT counter. */
  datatype Store = Store(rows: map<int, SubRequest>, nextId: int)

  const EMPTY := Store(map[], 1)

  /** A write statement's effect: the new table and whether a row was affected. */
  datatype Written = Written(store: Store, affected: bool)

  function InsertRow(s: Store, sr: SubRequest): Store {
    Store(s.rows[s.nextId := sr.(id := s.nextId)], s.nextId + 1)
  }

  function DeleteRow(s: Store, id: int): Written {
    Written(s.(rows := s.rows - {id}), id in s.rows)
  }

  /** UPDATE ... SET taken_by_user_id = user, updated_at = now WHERE id = id AND taken_by_user_id IS NULL */
  function TakeRow(s: Store, id: int, user: int, now: int): Written {
    if id in s.rows && s.rows[id].takenBy.None?
    then Written(s.(rows := s.rows[id := s.rows[id].(takenBy := Some(user), updatedAt := now)]), true)
    else Written(s, false)
  }

  /** UPDATE ... SET taken_by_user_id = NULL, updated_at = now WHERE id = id AND taken_by_user_id = user */
  function UntakeRow(s: Store, id: int, user: int, now: int): Written {
    if id in s.rows && s.rows[id].takenBy == Some(user)
    then Written(s.(rows := s.rows[id := s.rows[id].(takenBy := None, updatedAt := now)]), true)
    else Written(s, false)
  }

  /** What a write that affected no row reports, given the table found by the re-read. */
  function MissedWrite(s: Store, id: int): AppError {
    if id in s.rows then Conflict else NotFound
  }

  class Repository {
    var rows: map<int, SubRequest>
    var nextId: int

    constructor ()
      ensures State() == EMPTY
    {
      rows, nextId := map[], 1;
    }

    function State(): Store
      reads this
    {
      Store(rows, nextId)
    }

    method CreateSubRequest(sr: SubRequest) returns (id: int)
      modifies this
      ensures State() == InsertRow(old(State()), sr)
      ensures id == old(nextId)
    {
      id := nextId;
      rows, nextId := rows[id := sr.(id := id)], nextId + 1;
    }

    method GetSubRequestByID(id: int) returns (r: Outcome<SubRequest>)
      ensures r.Ok? <==> id in rows
      ensures r.Ok? ==> r.value == rows[id]
      ensures r.Err? ==> r.error == NotFound
    {
      if id in rows {
        r := Ok(rows[id]);
      } else {
        r := Err(NotFound);
      }
    }

    method DeleteSubRequest(id: int) returns (r: Outcome<Unit>)
      modifies this`rows
      ensures rows == old(rows) - {id}
      ensures r == if id in old(rows) then Ok(Unit) else Err(NotFound)
    {
      var affected := id in rows;
      rows := rows - {id};
      r := if affected then Ok(Unit) else Err(NotFound);
    }

    method ExecTake(id: int, userId: int, now: int) returns (affected: bool)
      modifies this`rows
      ensures Written(State(), affected) == TakeRow(old(State()), id, userId, now)
    {
      affected := id in rows && rows[id].takenBy.None?;
      if affected {
        rows := rows[id := rows[id].(takenBy := Some(userId), updatedAt := now)];
      }
    }

    method ExecUntake(id: int, userId: int, now: int) returns (affected: bool)
      modifies this`rows
      ensures Written(State(), affected) == UntakeRow(old(State()), id, userId, now)
    {
      affected := id in rows && rows[id].takenBy == Some(userId);
      if affected {
        rows := rows[id := rows[id].(takenBy := None, updatedAt := now)];
      }
    }

    /** Takes an open request for the user; a request that is filled or gone is reported as such and untouched. */
    method TakeSubRequest(id: int, userId: int, now: int) returns (r: Outcome<Unit>)
      modifies this`rows
      ensures r == if id !in old(rows) then Err(NotFound)
                   else if old(rows)[id].takenBy.Some? then Err(Conflict)
                   else Ok(Unit)
      ensures r.Ok? ==> rows == old(rows)[id := old(rows)[id].(takenBy := Some(userId), updatedAt := now)]
      ensures r.Err? ==> rows == old(rows) && r.error == MissedWrite(State(), id)
    {
      var affected := ExecTake(id, userId, now);
      if !affected {
        var found := GetSubRequestByID(id);
        if found.Err? {
          return Err(found.error);
        }
        return Err(Conflict);
      }
      r := Ok(Unit);
    }

    /** Releases a request that this user holds; one held by someone else, open or gone is untouched. */
    method UntakeSubRequest(id: int, userId: int, now: int) returns (r: Outcome<Unit>)
      modifies this`rows
      ensures r == if id !in old(rows) then Err(NotFound)
                   else if old(rows)[id].takenBy != Some(userId) then Err(Conflict)
                   else Ok(Unit)
      ensures r.Ok? ==> rows == old(rows)[id := old(rows)[id].(takenBy := None, updatedAt := now)]
      ensures r.Err? ==> rows == old(rows) && r.error == MissedWrite(State(), id)
    {
      var affected := ExecUntake(id, userId, now);
      if !affected {
        var found := GetSubRequestByID(id);
        if found.Err? {
          return Err(found.error);
        }
        return Err(Conflict);
      }
      r := Ok(Unit);
    }
  }
}
