/** The earlier version of the notifier, functions.js: a `users` table with
    a `location` column (a time-zone name) and a single `message_sent`
    flag, the same table operations, a fixed hour-9 minute-0 gate, and the
    periodic pass only (there is no recovery pass). */
module Functions {
  import opened Common
  import opened Calendar
  import opened Schema

  /** One row of the `users` table. */
  datatype User = User(
    id: int,
    firstName: string,
    lastName: string,
    email: string,
    birthday: Date,
    location: string,
    status: Status,
    messageSent: bool,   // falsy until the row is marked
    createdAt: Stamp)

  /** The six fields createUser inserts. */
  datatype UserData = UserData(
    firstName: string,
    lastName: string,
    email: string,
    birthday: Date,
    location: string,
    status: Status)

  function DataOf(u: User): UserData {
    UserData(u.firstName, u.lastName, u.email, u.birthday, u.location, u.status)
  }

  /** The row an INSERT creates: a fresh id, no mail sent yet. */
  function NewRow(id: int, d: UserData, at: Stamp): (u: User)
    ensures u.id == id && DataOf(u) == d && u.createdAt == at && !u.messageSent
  {
    User(id, d.firstName, d.lastName, d.email, d.birthday, d.location, d.status, false, at)
  }

  predicate HasId(rows: seq<User>, id: int) {
    exists i :: 0 <= i < |rows| && rows[i].id == id
  }

  function IdOf(u: User): int {
    u.id
  }

  ghost predicate UniqueIds(rows: seq<User>) {
    DistinctBy(rows, IdOf)
  }

  /** `WHERE status = 'active'` */
  predicate IsActive(u: User) {
    u.status == Active
  }

  function ActiveRows(rows: seq<User>): (r: seq<User>)
    ensures forall u :: u in r <==> u in rows && u.status == Active
  {
    Filter(rows, IsActive)
  }

  /** updateUserMessageStatus: `SET message_sent = true` on the rows with `id`. */
  function MarkSent(rows: seq<User>, id: int): (r: seq<User>)
    ensures |r| == |rows| && forall i :: 0 <= i < |r| ==> r[i].id == rows[i].id
  {
    seq(|rows|, i requires 0 <= i < |rows| => if rows[i].id == id then rows[i].(messageSent := true) else rows[i])
  }

  /** deleteUser: `DELETE FROM users WHERE id = ?`. */
  function Deleted(rows: seq<User>, id: int): (r: seq<User>)
    ensures forall u :: u in r <==> u in rows && u.id != id
  {
    Filter(rows, (u: User) => u.id != id)
  }

  /** The value in column `key` of a row; `None` when there is no such column. */
  function Get(u: User, key: string): Option<Value> {
    if key == "id" then Some(Num(u.id))
    else if key == "first_name" then Some(Text(u.firstName))
    else if key == "last_name" then Some(Text(u.lastName))
    else if key == "email" then Some(Text(u.email))
    else if key == "birthday" then Some(Day(u.birthday))
    else if key == "location" then Some(Text(u.location))
    else if key == "status" then Some(State(u.status))
    else if key == "message_sent" then Some(Flag(u.messageSent))
    else if key == "created_at" then Some(Time(Some(u.createdAt)))
    else None
  }

  /** Whether `key = value` is an assignment an edit carries out. */
  predicate Accepts(key: string, v: Value) {
    || (key == "first_name" && v.Text?)
    || (key == "last_name" && v.Text?)
    || (key == "email" && v.Text?)
    || (key == "birthday" && v.Day?)
    || (key == "location" && v.Text?)
    || (key == "status" && v.State?)
    || (key == "message_sent" && v.Flag?)
    || (key == "created_at" && v.Time? && v.t.Some?)
  }

  predicate AllAccepted(fields: map<string, Value>) {
    forall k | k in fields :: Accepts(k, fields[k])
  }

  /** Whether editUser's UPDATE fails, and why. */
  function EditCheck(fields: map<string, Value>): (e: Option<EditError>)
    ensures e.None? <==> fields != map[] && AllAccepted(fields)
    ensures e != Some(Unavailable)
  {
    if |fields| == 0 then
      assert fields == map[] by { assert fields.Keys == {}; }
      Some(EmptyFieldMap)
    else if !AllAccepted(fields) then Some(BadAssignment)
    else None
  }

  function ApplyFields(u: User, fields: map<string, Value>): User
    requires AllAccepted(fields)
  {
    u.(
      firstName := if "first_name" in fields then fields["first_name"].s else u.firstName,
      lastName := if "last_name" in fields then fields["last_name"].s else u.lastName,
      email := if "email" in fields then fields["email"].s else u.email,
      birthday := if "birthday" in fields then fields["birthday"].d else u.birthday,
      location := if "location" in fields then fields["location"].s else u.location,
      status := if "status" in fields then fields["status"].st else u.status,
      messageSent := if "message_sent" in fields then fields["message_sent"].b else u.messageSent,
      createdAt := if "created_at" in fields then fields["created_at"].t.value else u.createdAt)
  }

  /** editUser: the UPDATE applied to the rows with `id`. */
  function Edited(rows: seq<User>, id: int, fields: map<string, Value>): (r: seq<User>)
    requires AllAccepted(fields)
    ensures |r| == |rows| && forall i :: 0 <= i < |r| ==> r[i].id == rows[i].id
  {
    seq(|rows|, i requires 0 <= i < |rows| => if rows[i].id == id then ApplyFields(rows[i], fields) else rows[i])
  }

  // ---------------------------------------------------------------------
  // sendBirthdayMessage

  /** What one pass knows of the world outside the table. */
  datatype World = World(
    now: Moment,            // moment(), in the process zone
    mailOk: int -> bool,    // whether sendMail resolves, by user id
    markOk: int -> bool,    // whether the UPDATE succeeds, by user id
    fetchOk: bool,          // whether the pass's SELECT succeeds
    dayRule: DayRule)       // WholeDate: the day check as written

  /** The hour the earlier version sends at. */
  const SendHour := 9

  /** The condition at functions.js:127-132 as written: the birthday and
      `now` are read in the same zone, and `isSame(…, 'day')` compares the
      whole date, year included. */
  predicate DueAsWritten(u: User, now: Moment) {
    && SameDay(now.date, u.birthday)
    && now.hour == SendHour
    && now.minute == 0
    && !u.messageSent
  }

  /** The condition with the day check the notifier is meant to make. */
  predicate Due(u: User, now: Moment) {
    && SameMonthAndDay(now.date, u.birthday)
    && now.hour == SendHour
    && now.minute == 0
    && !u.messageSent
  }

  /** The gate a call runs: the condition as written under `WholeDate`,
      the corrected one under `MonthAndDay`. */
  predicate Gate(u: User, w: World) {
    match w.dayRule
    case WholeDate => DueAsWritten(u, w.now)
    case MonthAndDay => Due(u, w.now)
  }

  /** How one call of sendBirthdayMessage ends. */
  datatype Attempt =
    | NotDue
    | SendFailed          // sendMail rejected; caught, nothing marked
    | Sent(marked: bool)  // mailed; `marked` is false when the UPDATE failed (caught)

  function AttemptOf(u: User, w: World): Attempt {
    if !Gate(u, w) then NotDue
    else if !w.mailOk(u.id) then SendFailed
    else Sent(w.markOk(u.id))
  }

  function AfterAttempt(rows: seq<User>, u: User, w: World): (r: seq<User>)
    ensures |r| == |rows|
  {
    if AttemptOf(u, w) == Sent(true) then MarkSent(rows, u.id) else rows
  }

  function Mails(w: World): User -> bool {
    (u: User) => AttemptOf(u, w).Sent?
  }

  /** The table after the loop has called sendBirthdayMessage on `users`. */
  function PassTable(rows: seq<User>, users: seq<User>, w: World): (r: seq<User>)
    ensures |r| == |rows|
    decreases |users|
  {
    if users == [] then rows
    else AfterAttempt(PassTable(rows, users[..|users| - 1], w), users[|users| - 1], w)
  }

  function PassMails(users: seq<User>, w: World): seq<User> {
    Filter(users, Mails(w))
  }

  lemma PassStep(rows: seq<User>, users: seq<User>, i: int, w: World)
    requires 0 <= i < |users|
    ensures PassTable(rows, users[..i + 1], w) == AfterAttempt(PassTable(rows, users[..i], w), users[i], w)
    ensures PassMails(users[..i + 1], w) ==
            PassMails(users[..i], w) + (if AttemptOf(users[i], w).Sent? then [users[i]] else [])
  {
    assert users[..i + 1] == users[..i] + [users[i]];
    assert users[..i + 1][..i] == users[..i];
    FilterSnoc(users[..i], users[i], Mails(w));
  }

  /** checkAndSendBirthdayMessages; a failed fetch ends the pass. */
  function TickTable(rows: seq<User>, w: World): (r: seq<User>)
    ensures |r| == |rows|
  {
    if w.fetchOk then PassTable(rows, ActiveRows(rows), w) else rows
  }

  function TickMails(rows: seq<User>, w: World): (r: seq<User>)
    ensures forall u :: u in r <==> w.fetchOk && u in rows && IsActive(u) && AttemptOf(u, w).Sent?
  {
    if w.fetchOk then PassMails(ActiveRows(rows), w) else []
  }

  // ---------------------------------------------------------------------

  /** The `users` table; `nextId` is its AUTO_INCREMENT counter. */
  class Store {
    var rows: seq<User>
    var nextId: int

    ghost predicate Valid()
      reads this
    {
      && 1 <= nextId
      && UniqueIds(rows)
      && forall i :: 0 <= i < |rows| ==> rows[i].id < nextId
    }

    constructor ()
      ensures Valid() && rows == [] && nextId == 1
    {
      rows := [];
      nextId := 1;
    }

    /** createUser: one INSERT of the six fields (with `location`) under a
        fresh id; `None` when the statement fails. */
    method CreateUser(data: UserData, at: Stamp, ok: bool) returns (id: Option<int>)
      requires Valid()
      modifies this
      ensures Valid()
      ensures !ok ==> id == None && rows == old(rows) && nextId == old(nextId)
      ensures ok ==> id == Some(old(nextId)) && !HasId(old(rows), id.value)
      ensures ok ==> rows == old(rows) + [NewRow(id.value, data, at)]
      ensures ok ==> nextId == old(nextId) + 1
    {
      if !ok {
        return None;
      }
      id := Some(nextId);
      rows := rows + [NewRow(nextId, data, at)];
      nextId := nextId + 1;
    }

    /** checkUserExists; `None` when the query fails. */
    method CheckUserExists(id: int, ok: bool) returns (found: Option<bool>)
      ensures !ok ==> found == None
      ensures ok ==> found.Some? && (found.value <==> exists u :: u in rows && u.id == id)
    {
      if !ok {
        return None;
      }
      found := Some(HasId(rows, id));
    }

    /** getAllUsers; `None` when the query fails. */
    method GetAllUsers(ok: bool) returns (all: Option<seq<User>>)
      ensures all == if ok then Some(rows) else None
    {
      all := if ok then Some(rows) else None;
    }

    /** editUser: one UPDATE of the listed columns on the rows with `id`. */
    method EditUser(id: int, fields: map<string, Value>, ok: bool) returns (err: Option<EditError>)
      requires Valid()
      modifies this
      ensures Valid() && nextId == old(nextId)
      ensures err == if ok then EditCheck(fields) else Some(Unavailable)
      ensures err.None? ==> rows == Edited(old(rows), id, fields)
      ensures err.Some? ==> rows == old(rows)
    {
      if !ok {
        return Some(Unavailable);
      }
      err := EditCheck(fields);
      if err.None? {
        rows := Edited(rows, id, fields);
      }
    }

    /** deleteUser: not async here; a failure is only logged, so the caller
        learns nothing either way. */
    method DeleteUser(id: int, ok: bool)
      requires Valid()
      modifies this
      ensures Valid() && nextId == old(nextId)
      ensures rows == if ok then Deleted(old(rows), id) else old(rows)
    {
      if ok {
        FilterDistinctBy(rows, (u: User) => u.id != id, IdOf);
        rows := Deleted(rows, id);
      }
    }

    /** fetchActiveUsers; `None` when the SELECT fails. */
    method FetchActiveUsers(ok: bool) returns (r: Option<seq<User>>)
      ensures r == if ok then Some(ActiveRows(rows)) else None
    {
      r := if ok then Some(ActiveRows(rows)) else None;
    }

    /** updateUserMessageStatus: a failure of the statement is caught. */
    method UpdateUserMessageStatus(id: int, ok: bool)
      requires Valid()
      modifies this
      ensures Valid() && nextId == old(nextId)
      ensures rows == if ok then MarkSent(old(rows), id) else old(rows)
    {
      if ok {
        rows := MarkSent(rows, id);
      }
    }

    /** sendBirthdayMessage for the fetched row `user`. */
    method SendBirthdayMessage(user: User, w: World) returns (outcome: Attempt)
      requires Valid()
      modifies this
      ensures Valid() && nextId == old(nextId)
      ensures outcome == AttemptOf(user, w)
      ensures rows == AfterAttempt(old(rows), user, w)
    {
      if !Gate(user, w) {
        return NotDue;
      }
      if !w.mailOk(user.id) {
        return SendFailed;
      }
      UpdateUserMessageStatus(user.id, w.markOk(user.id));
      outcome := Sent(w.markOk(user.id));
    }

    /** The loop at functions.js:179-181 over the fetched rows; `mailed`
        lists the rows a mail went to, in order. */
    method SendToEach(users: seq<User>, w: World) returns (mailed: seq<User>)
      requires Valid()
      modifies this
      ensures Valid() && nextId == old(nextId)
      ensures rows == PassTable(old(rows), users, w)
      ensures mailed == PassMails(users, w)
    {
      mailed := [];
      ghost var start := rows;
      for i := 0 to |users|
        invariant Valid() && nextId == old(nextId)
        invariant rows == PassTable(start, users[..i], w)
        invariant mailed == PassMails(users[..i], w)
      {
        var outcome := SendBirthdayMessage(users[i], w);
        PassStep(start, users, i, w);
        if outcome.Sent? {
          mailed := mailed + [users[i]];
        }
      }
      assert users[..|users|] == users;
    }

    /** checkAndSendBirthdayMessages: fetch the active rows, then call
        sendBirthdayMessage on each, in order; a failed fetch ends the pass. */
    method CheckAndSendBirthdayMessages(w: World) returns (mailed: seq<User>)
      requires Valid()
      modifies this
      ensures Valid() && nextId == old(nextId)
      ensures rows == TickTable(old(rows), w)
      ensures mailed == TickMails(old(rows), w)
    {
      var users := FetchActiveUsers(w.fetchOk);
      if users.None? {
        return [];
      }
      mailed := SendToEach(users.value, w);
    }
  }
}
