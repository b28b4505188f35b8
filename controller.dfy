/** The current version of the notifier, controller.js: the `users` table
    held in memory, its SQL statements as table operations, the gate of
    sendBirthdayMessage, and the periodic and the recovery pass. */
module Controller {
  import opened Common
  import opened Calendar
  import opened Schema
  import JsNumber

  /** One row of the `users` table. */
  datatype User = User(
    id: int,
    firstName: string,
    lastName: string,
    email: string,
    birthday: Date,
    city: string,
    status: Status,
    messageSentStatus: bool,     // the TINYINT flag: false is 0, true is 1
    messageSent: Option<Stamp>,  // NULL until the row is marked
    createdAt: Stamp)

  /** The six fields createUser inserts. */
  datatype UserData = UserData(
    firstName: string,
    lastName: string,
    email: string,
    birthday: Date,
    city: string,
    status: Status)

  /** The six inserted fields of a row. */
  function DataOf(u: User): UserData {
    UserData(u.firstName, u.lastName, u.email, u.birthday, u.city, u.status)
  }

  /** The row an INSERT creates: the database supplies the id, a clear flag,
      a NULL timestamp and the creation time. */
  function NewRow(id: int, d: UserData, at: Stamp): (u: User)
    ensures u.id == id && DataOf(u) == d && u.createdAt == at
    ensures !u.messageSentStatus && u.messageSent == None
  {
    User(id, d.firstName, d.lastName, d.email, d.birthday, d.city, d.status, false, None, at)
  }

  predicate HasId(rows: seq<User>, id: int) {
    exists i :: 0 <= i < |rows| && rows[i].id == id
  }

  function IdOf(u: User): int {
    u.id
  }

  /** `id` is the table's key. */
  ghost predicate UniqueIds(rows: seq<User>) {
    DistinctBy(rows, IdOf)
  }

  // ---------------------------------------------------------------------
  // The SELECT statements

  /** `WHERE status = 'active'` */
  predicate IsActive(u: User) {
    u.status == Active
  }

  /** `WHERE message_sent_status = false` */
  predicate IsUnsent(u: User) {
    !u.messageSentStatus
  }

  function ActiveRows(rows: seq<User>): seq<User> {
    Filter(rows, IsActive)
  }

  function UnsentRows(rows: seq<User>): seq<User> {
    Filter(rows, IsUnsent)
  }

  // ---------------------------------------------------------------------
  // The UPDATE and DELETE statements

  /** A row after `SET message_sent_status = true, message_sent = NOW()`. */
  function Marked(u: User, at: Stamp): User {
    u.(messageSentStatus := true, messageSent := Some(at))
  }

  /** updateUserMessageStatus: the mark-sent UPDATE on the rows with `id`. */
  function MarkSent(rows: seq<User>, id: int, at: Stamp): (r: seq<User>)
    ensures |r| == |rows| && forall i :: 0 <= i < |r| ==> r[i].id == rows[i].id
  {
    seq(|rows|, i requires 0 <= i < |rows| => if rows[i].id == id then Marked(rows[i], at) else rows[i])
  }

  /** deleteUser: `DELETE FROM users WHERE id = ?`. */
  function Deleted(rows: seq<User>, id: int): (r: seq<User>)
    ensures forall u :: u in r <==> u in rows && u.id != id
  {
    Filter(rows, (u: User) => u.id != id)
  }

  /** The value in column `key` of a row; `None` when there is no such column. */
  function Get(u: User, key: string): Option<Value> {
    if key == "id" then Some(Num(u.id))
    else if key == "first_name" then Some(Text(u.firstName))
    else if key == "last_name" then Some(Text(u.lastName))
    else if key == "email" then Some(Text(u.email))
    else if key == "birthday" then Some(Day(u.birthday))
    else if key == "city" then Some(Text(u.city))
    else if key == "status" then Some(State(u.status))
    else if key == "message_sent_status" then Some(Flag(u.messageSentStatus))
    else if key == "message_sent" then Some(Time(u.messageSent))
    else if key == "created_at" then Some(Time(Some(u.createdAt)))
    else None
  }

  /** Whether `key = value` is an assignment an edit carries out: a column
      other than the key `id`, and a value of that column's kind
      (`created_at` is never NULL). */
  predicate Accepts(key: string, v: Value) {
    || (key == "first_name" && v.Text?)
    || (key == "last_name" && v.Text?)
    || (key == "email" && v.Text?)
    || (key == "birthday" && v.Day?)
    || (key == "city" && v.Text?)
    || (key == "status" && v.State?)
    || (key == "message_sent_status" && v.Flag?)
    || (key == "message_sent" && v.Time?)
    || (key == "created_at" && v.Time? && v.t.Some?)
  }

  predicate AllAccepted(fields: map<string, Value>) {
    forall k | k in fields :: Accepts(k, fields[k])
  }

  /** Whether editUser's UPDATE fails, and why. */
  function EditCheck(fields: map<string, Value>): (e: Option<EditError>)
    ensures e.None? <==> fields != map[] && AllAccepted(fields)
    ensures e != Some(Unavailable)
  {
    if |fields| == 0 then
      assert fields == map[] by { assert fields.Keys == {}; }
      Some(EmptyFieldMap)
    else if !AllAccepted(fields) then Some(BadAssignment)
    else None
  }

  /** One row after `SET k1 = v1, k2 = v2, …`: each listed column takes its
      value (the keys of a JavaScript object are distinct, so the order of
      the assignments does not matter). */
  function ApplyFields(u: User, fields: map<string, Value>): User
    requires AllAccepted(fields)
  {
    u.(
      firstName := if "first_name" in fields then fields["first_name"].s else u.firstName,
      lastName := if "last_name" in fields then fields["last_name"].s else u.lastName,
      email := if "email" in fields then fields["email"].s else u.email,
      birthday := if "birthday" in fields then fields["birthday"].d else u.birthday,
      city := if "city" in fields then fields["city"].s else u.city,
      status := if "status" in fields then fields["status"].st else u.status,
      messageSentStatus := if "message_sent_status" in fields then fields["message_sent_status"].b else u.messageSentStatus,
      messageSent := if "message_sent" in fields then fields["message_sent"].t else u.messageSent,
      createdAt := if "created_at" in fields then fields["created_at"].t.value else u.createdAt)
  }

  /** editUser: the UPDATE applied to the rows with `id`. */
  function Edited(rows: seq<User>, id: int, fields: map<string, Value>): (r: seq<User>)
    requires AllAccepted(fields)
    ensures |r| == |rows| && forall i :: 0 <= i < |r| ==> r[i].id == rows[i].id
  {
    seq(|rows|, i requires 0 <= i < |rows| => if rows[i].id == id then ApplyFields(rows[i], fields) else rows[i])
  }

  // ---------------------------------------------------------------------
  // sendBirthdayMessage

  /** What one pass knows of the world outside the table: the clock, the
      configuration, and the outcome of each call into a collaborator. */
  datatype World = World(
    now: Moment,                       // moment.tz('Asia/Jakarta')
    hourSend: Option<string>,          // process.env.HOUR_SEND; None when unset
    timezones: string -> seq<string>,  // cityTimezones.lookupViaCity, as zone names
    mailOk: int -> bool,               // whether sendMail resolves, by user id
    markOk: int -> bool,               // whether the mark-sent UPDATE succeeds, by id
    fetchOk: bool,                     // whether the pass's SELECT succeeds
    stamp: Stamp,                      // what NOW() yields
    dayRule: DayRule)                  // WholeDate: the day check as written

  /** `parseInt(HourSend, 10)`; an unset variable is the text "undefined". */
  function HourSetting(hourSend: Option<string>): Option<int> {
    JsNumber.ParseInt10(if hourSend.Some? then hourSend.value else "undefined")
  }

  /** The condition at controller.js:139-143 as written. The driver reads
      the stored birthday as midnight of its date in the host's zone; for a
      host zone between UTC-12 and UTC+7 that instant lies on the stored
      date in Asia/Jakarta too, where `now` is read, and `isSame(…, 'day')`
      compares that whole date, year included. */
  predicate DueAsWritten(u: User, now: Moment, hourSend: Option<string>) {
    && SameDay(now.date, u.birthday)
    && HourSetting(hourSend) == Some(now.hour)
    && !u.messageSentStatus
  }

  /** The condition with the day check the notifier is meant to make: this
      year's birthday, that is the same month and day. */
  predicate Due(u: User, now: Moment, hourSend: Option<string>) {
    && SameMonthAndDay(now.date, u.birthday)
    && HourSetting(hourSend) == Some(now.hour)
    && !u.messageSentStatus
  }

  /** The gate a call runs: the condition as written under `WholeDate`,
      the corrected one under `MonthAndDay`. */
  predicate Gate(u: User, w: World) {
    match w.dayRule
    case WholeDate => DueAsWritten(u, w.now, w.hourSend)
    case MonthAndDay => Due(u, w.now, w.hourSend)
  }

  /** How one call of sendBirthdayMessage ends. */
  datatype Attempt =
    | LookupFailed   // no time zone for the city: `userTimezone[0]` is undefined and throws
    | NotDue         // the condition does not hold
    | SendFailed     // sendMail rejected; caught, nothing marked
    | Sent(marked: bool)  // mailed; `marked` is false when the UPDATE failed (caught)

  function AttemptOf(u: User, w: World): Attempt {
    if w.timezones(u.city) == [] then LookupFailed
    else if !Gate(u, w) then NotDue
    else if !w.mailOk(u.id) then SendFailed
    else Sent(w.markOk(u.id))
  }

  /** The table after one call of sendBirthdayMessage for the fetched row `u`. */
  function AfterAttempt(rows: seq<User>, u: User, w: World): (r: seq<User>)
    ensures |r| == |rows|
  {
    if AttemptOf(u, w) == Sent(true) then MarkSent(rows, u.id, w.stamp) else rows
  }

  /** Whether the call for `u` delivered a mail. */
  function Mails(w: World): User -> bool {
    (u: User) => AttemptOf(u, w).Sent?
  }

  // ---------------------------------------------------------------------
  // The two passes: each fetches rows once and calls sendBirthdayMessage on
  // them in order, with the fetched copy of each row.

  function PassTable(rows: seq<User>, users: seq<User>, w: World): (r: seq<User>)
    ensures |r| == |rows|
    decreases |users|
  {
    if users == [] then rows
    else AfterAttempt(PassTable(rows, users[..|users| - 1], w), users[|users| - 1], w)
  }

  function PassMails(users: seq<User>, w: World): seq<User> {
    Filter(users, Mails(w))
  }

  /** One more call of the loop, in terms of the two functions above. */
  lemma PassStep(rows: seq<User>, users: seq<User>, i: int, w: World)
    requires 0 <= i < |users|
    ensures PassTable(rows, users[..i + 1], w) == AfterAttempt(PassTable(rows, users[..i], w), users[i], w)
    ensures PassMails(users[..i + 1], w) ==
            PassMails(users[..i], w) + (if AttemptOf(users[i], w).Sent? then [users[i]] else [])
  {
    assert users[..i + 1] == users[..i] + [users[i]];
    assert users[..i + 1][..i] == users[..i];
    FilterSnoc(users[..i], users[i], Mails(w));
  }

  /** checkAndSendBirthdayMessages; a failed fetch ends the pass. */
  function TickTable(rows: seq<User>, w: World): (r: seq<User>)
    ensures |r| == |rows|
  {
    if w.fetchOk then PassTable(rows, ActiveRows(rows), w) else rows
  }

  function TickMails(rows: seq<User>, w: World): (r: seq<User>)
    ensures forall u :: u in r <==> w.fetchOk && u in rows && IsActive(u) && AttemptOf(u, w).Sent?
  {
    if w.fetchOk then PassMails(ActiveRows(rows), w) else []
  }

  /** recoverAndResendMessages; a failed fetch ends the pass. */
  function RecoveryTable(rows: seq<User>, w: World): (r: seq<User>)
    ensures |r| == |rows|
  {
    if w.fetchOk then PassTable(rows, UnsentRows(rows), w) else rows
  }

  function RecoveryMails(rows: seq<User>, w: World): (r: seq<User>)
    ensures forall u :: u in r <==> w.fetchOk && u in rows && IsUnsent(u) && AttemptOf(u, w).Sent?
  {
    if w.fetchOk then PassMails(UnsentRows(rows), w) else []
  }

  // ---------------------------------------------------------------------

  /** The `users` table; `nextId` is its AUTO_INCREMENT counter. */
  class Store {
    var rows: seq<User>
    var nextId: int

    ghost predicate Valid()
      reads this
    {
      && 1 <= nextId
      && UniqueIds(rows)
      && forall i :: 0 <= i < |rows| ==> rows[i].id < nextId
    }

    constructor ()
      ensures Valid() && rows == [] && nextId == 1
    {
      rows := [];
      nextId := 1;
    }

    /** createUser: one INSERT of the six fields under a fresh id; `ok`
        says whether the database carries out the statement, and the
        promise rejects (`None`) when it does not. */
    method CreateUser(data: UserData, at: Stamp, ok: bool) returns (id: Option<int>)
      requires Valid()
      modifies this
      ensures Valid()
      ensures !ok ==> id == None && rows == old(rows) && nextId == old(nextId)
      ensures ok ==> id == Some(old(nextId)) && !HasId(old(rows), id.value)
      ensures ok ==> rows == old(rows) + [NewRow(id.value, data, at)]
      ensures ok ==> nextId == old(nextId) + 1
    {
      if !ok {
        return None;
      }
      id := Some(nextId);
      rows := rows + [NewRow(nextId, data, at)];
      nextId := nextId + 1;
    }

    /** checkUserExists: whether `SELECT id … WHERE id = ?` finds a row;
        `None` when the query fails. */
    method CheckUserExists(id: int, ok: bool) returns (found: Option<bool>)
      ensures !ok ==> found == None
      ensures ok ==> found.Some? && (found.value <==> exists u :: u in rows && u.id == id)
    {
      if !ok {
        return None;
      }
      found := Some(HasId(rows, id));
    }

    /** getAllUsers: every row with every column, in table order; `None`
        when the query fails. */
    method GetAllUsers(ok: bool) returns (all: Option<seq<User>>)
      ensures all == if ok then Some(rows) else None
    {
      all := if ok then Some(rows) else None;
    }

    /** editUser: one UPDATE of the listed columns on the rows with `id`;
        the statement either fails as a whole or is carried out. */
    method EditUser(id: int, fields: map<string, Value>, ok: bool) returns (err: Option<EditError>)
      requires Valid()
      modifies this
      ensures Valid() && nextId == old(nextId)
      ensures err == if ok then EditCheck(fields) else Some(Unavailable)
      ensures err.None? ==> rows == Edited(old(rows), id, fields)
      ensures err.Some? ==> rows == old(rows)
    {
      if !ok {
        return Some(Unavailable);
      }
      err := EditCheck(fields);
      if err.None? {
        rows := Edited(rows, id, fields);
      }
    }

    /** deleteUser: `deleted` is false when the statement fails and the
        promise rejects. */
    method DeleteUser(id: int, ok: bool) returns (deleted: bool)
      requires Valid()
      modifies this
      ensures Valid() && nextId == old(nextId)
      ensures deleted == ok
      ensures rows == if ok then Deleted(old(rows), id) else old(rows)
    {
      if !ok {
        return false;
      }
      FilterDistinctBy(rows, (u: User) => u.id != id, IdOf);
      rows := Deleted(rows, id);
      deleted := true;
    }

    /** fetchActiveUsers; `None` when the SELECT fails. */
    method FetchActiveUsers(ok: bool) returns (r: Option<seq<User>>)
      ensures !ok ==> r == None
      ensures ok ==> r == Some(ActiveRows(rows))
      ensures ok ==> forall u :: u in r.value <==> u in rows && u.status == Active
    {
      if ok {
        r := Some(ActiveRows(rows));
      } else {
        r := None;
      }
    }

    /** fetchUsersWithUnsentMessages; `None` when the SELECT fails. */
    method FetchUsersWithUnsentMessages(ok: bool) returns (r: Option<seq<User>>)
      ensures !ok ==> r == None
      ensures ok ==> r == Some(UnsentRows(rows))
      ensures ok ==> forall u :: u in r.value <==> u in rows && !u.messageSentStatus
    {
      if ok {
        r := Some(UnsentRows(rows));
      } else {
        r := None;
      }
    }

    /** updateUserMessageStatus: the mark-sent UPDATE; a failure of the
        statement is caught and changes nothing. */
    method UpdateUserMessageStatus(id: int, ok: bool, at: Stamp)
      requires Valid()
      modifies this
      ensures Valid() && nextId == old(nextId)
      ensures rows == if ok then MarkSent(old(rows), id, at) else old(rows)
    {
      if ok {
        rows := MarkSent(rows, id, at);
      }
    }

    /** sendBirthdayMessage for the fetched row `user`. */
    method SendBirthdayMessage(user: User, w: World) returns (outcome: Attempt)
      requires Valid()
      modifies this
      ensures Valid() && nextId == old(nextId)
      ensures outcome == AttemptOf(user, w)
      ensures rows == AfterAttempt(old(rows), user, w)
    {
      var zones := w.timezones(user.city);
      if zones == [] {
        return LookupFailed;
      }
      if !Gate(user, w) {
        return NotDue;
      }
      if !w.mailOk(user.id) {
        return SendFailed;
      }
      UpdateUserMessageStatus(user.id, w.markOk(user.id), w.stamp);
      outcome := Sent(w.markOk(user.id));
    }

    /** The loop both passes run over the rows they fetched; `mailed` lists
        the rows a mail went to, in order. */
    method SendToEach(users: seq<User>, w: World) returns (mailed: seq<User>)
      requires Valid()
      modifies this
      ensures Valid() && nextId == old(nextId)
      ensures rows == PassTable(old(rows), users, w)
      ensures mailed == PassMails(users, w)
    {
      mailed := [];
      ghost var start := rows;
      for i := 0 to |users|
        invariant Valid() && nextId == old(nextId)
        invariant rows == PassTable(start, users[..i], w)
        invariant mailed == PassMails(users[..i], w)
      {
        var outcome := SendBirthdayMessage(users[i], w);
        PassStep(start, users, i, w);
        if outcome.Sent? {
          mailed := mailed + [users[i]];
        }
      }
      assert users[..|users|] == users;
    }

    /** checkAndSendBirthdayMessages: one tick of the periodic pass. */
    method CheckAndSendBirthdayMessages(w: World) returns (mailed: seq<User>)
      requires Valid()
      modifies this
      ensures Valid() && nextId == old(nextId)
      ensures rows == TickTable(old(rows), w)
      ensures mailed == TickMails(old(rows), w)
    {
      var users := FetchActiveUsers(w.fetchOk);
      if users.None? {
        return [];
      }
      mailed := SendToEach(users.value, w);
    }

    /** recoverAndResendMessages: the pass over every row whose flag is
        still clear. The repository's code never calls it; it is meant to run
        when the service starts. */
    method RecoverAndResendMessages(w: World) returns (mailed: seq<User>)
      requires Valid()
      modifies this
      ensures Valid() && nextId == old(nextId)
      ensures rows == RecoveryTable(old(rows), w)
      ensures mailed == RecoveryMails(old(rows), w)
    {
      var users := FetchUsersWithUnsentMessages(w.fetchOk);
      if users.None? {
        return [];
      }
      mailed := SendToEach(users.value, w);
    }
  }
}
