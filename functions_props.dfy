/** What the table operations and the periodic pass of functions.js
    guarantee about the `users` table and about who is mailed. */
module FunctionsProperties {
  import opened Common
  import opened Calendar
  import opened Schema
  import opened Functions

  // ---------------------------------------------------------------------
  // The mark-sent UPDATE

  /** Marking touches only the rows with the id, and in them only the
      `message_sent` column, which becomes true. */
  lemma MarkSentFrame(rows: seq<User>, id: int, i: int)
    requires 0 <= i < |rows|
    ensures rows[i].id != id ==> MarkSent(rows, id)[i] == rows[i]
    ensures rows[i].id == id ==> Get(MarkSent(rows, id)[i], "message_sent") == Some(Flag(true))
    ensures forall key :: key != "message_sent" ==> Get(MarkSent(rows, id)[i], key) == Get(rows[i], key)
  {
  }

  /** The rows of `rows` whose id is in `ids`, marked. */
  function MarkAll(rows: seq<User>, ids: set<int>): (r: seq<User>)
    ensures |r| == |rows|
  {
    seq(|rows|, i requires 0 <= i < |rows| => if rows[i].id in ids then rows[i].(messageSent := true) else rows[i])
  }

  /** The ids whose call in a pass over `users` both mailed and marked. */
  ghost function MarkedIds(users: seq<User>, w: World): set<int> {
    set u | u in users && AttemptOf(u, w) == Sent(true) :: u.id
  }

  lemma MarkedIdsAppend(a: seq<User>, b: seq<User>, w: World)
    ensures MarkedIds(a + b, w) == MarkedIds(a, w) + MarkedIds(b, w)
  {
    forall k | k in MarkedIds(a + b, w)
      ensures k in MarkedIds(a, w) + MarkedIds(b, w)
    {
      var v :| v in a + b && AttemptOf(v, w) == Sent(true) && v.id == k;
      if v in a {
        assert k in MarkedIds(a, w);
      } else {
        assert k in MarkedIds(b, w);
      }
    }
    forall k | k in MarkedIds(a, w) + MarkedIds(b, w)
      ensures k in MarkedIds(a + b, w)
    {
      if k in MarkedIds(a, w) {
        var v :| v in a && AttemptOf(v, w) == Sent(true) && v.id == k;
        assert v in a + b;
      } else {
        var v :| v in b && AttemptOf(v, w) == Sent(true) && v.id == k;
        assert v in a + b;
      }
    }
  }

  lemma MarkedIdsSnoc(users: seq<User>, u: User, w: World)
    ensures MarkedIds(users + [u], w) ==
            MarkedIds(users, w) + (if AttemptOf(u, w) == Sent(true) then {u.id} else {})
  {
    MarkedIdsAppend(users, [u], w);
    if AttemptOf(u, w) == Sent(true) {
      assert u in [u];
    }
  }

  lemma MarkSentOnMarkAll(rows: seq<User>, ids: set<int>, id: int)
    ensures MarkSent(MarkAll(rows, ids), id) == MarkAll(rows, ids + {id})
  {
  }

  /** The effect of a pass is one mark per id whose call mailed and marked. */
  lemma {:induction false} PassTableClosedForm(rows: seq<User>, users: seq<User>, w: World)
    ensures PassTable(rows, users, w) == MarkAll(rows, MarkedIds(users, w))
    decreases |users|
  {
    if users == [] {
      assert MarkedIds(users, w) == {};
      assert MarkAll(rows, {}) == rows;
    } else {
      var init, last := users[..|users| - 1], users[|users| - 1];
      assert users == init + [last];
      PassTableClosedForm(rows, init, w);
      MarkedIdsSnoc(init, last, w);
      if AttemptOf(last, w) == Sent(true) {
        MarkSentOnMarkAll(rows, MarkedIds(init, w), last.id);
      }
    }
  }

  /** One tick: a row is marked exactly when it is active, the gate holds,
      the mail went out and the UPDATE took; every other row, inactive ones
      included, is left as it was, and a failed fetch leaves the whole
      table as it was. */
  lemma TickRow(rows: seq<User>, w: World, i: int)
    requires UniqueIds(rows)
    requires 0 <= i < |rows|
    ensures TickTable(rows, w)[i] ==
            if w.fetchOk && IsActive(rows[i]) && AttemptOf(rows[i], w) == Sent(true)
            then rows[i].(messageSent := true) else rows[i]
  {
    if w.fetchOk {
      var snap := ActiveRows(rows);
      PassTableClosedForm(rows, snap, w);
      if rows[i].id in MarkedIds(snap, w) {
        var v :| v in snap && AttemptOf(v, w) == Sent(true) && v.id == rows[i].id;
        var j :| 0 <= j < |rows| && rows[j] == v;
        assert IdOf(rows[j]) == IdOf(rows[i]);
        assert j == i;
      }
    }
  }

  /** A tick keeps every row in place with its id, so the key stays a key,
      and it never clears a mark. */
  lemma TickKeepsKeysAndMarks(rows: seq<User>, w: World)
    requires UniqueIds(rows)
    ensures UniqueIds(TickTable(rows, w))
    ensures forall i :: 0 <= i < |rows| ==> TickTable(rows, w)[i].id == rows[i].id
    ensures forall i :: 0 <= i < |rows| && rows[i].messageSent ==> TickTable(rows, w)[i].messageSent
  {
    PassTableClosedForm(rows, ActiveRows(rows), w);
    var r := TickTable(rows, w);
    forall a, b | 0 <= a < b < |r| ensures IdOf(r[a]) != IdOf(r[b]) {
      assert IdOf(rows[a]) != IdOf(rows[b]);
    }
  }

  // ---------------------------------------------------------------------
  // The loop goes on past a failure

  lemma MarkAllTwice(rows: seq<User>, a: set<int>, b: set<int>)
    ensures MarkAll(MarkAll(rows, a), b) == MarkAll(rows, a + b)
  {
  }

  /** A pass over `a + b` is a pass over `a` followed by a pass over `b`. */
  lemma PassTableAppend(rows: seq<User>, a: seq<User>, b: seq<User>, w: World)
    ensures PassTable(rows, a + b, w) == PassTable(PassTable(rows, a, w), b, w)
  {
    PassTableClosedForm(rows, a + b, w);
    PassTableClosedForm(rows, a, w);
    PassTableClosedForm(PassTable(rows, a, w), b, w);
    MarkedIdsAppend(a, b, w);
    MarkAllTwice(rows, MarkedIds(a, w), MarkedIds(b, w));
  }

  /** A user whose call fails (not due, or a rejected mail) is passed
      over: the users after it are processed as if it were not listed. */
  lemma FailingUserIsSkipped(rows: seq<User>, pre: seq<User>, u: User, post: seq<User>, w: World)
    requires !AttemptOf(u, w).Sent?
    ensures PassTable(rows, pre + [u] + post, w) == PassTable(rows, pre + post, w)
  {
    PassTableAppend(rows, pre + [u], post, w);
    assert (pre + [u])[..|pre|] == pre;
    assert PassTable(rows, pre + [u], w) == PassTable(rows, pre, w);
    PassTableAppend(rows, pre, post, w);
  }

  /** ... and no mail is counted for it. */
  lemma FailingUserGetsNoMail(pre: seq<User>, u: User, post: seq<User>, w: World)
    requires !AttemptOf(u, w).Sent?
    ensures PassMails(pre + [u] + post, w) == PassMails(pre, w) + PassMails(post, w)
  {
    FilterAppend(pre + [u], post, Mails(w));
    FilterSnoc(pre, u, Mails(w));
  }

  // ---------------------------------------------------------------------
  // A marked user is never mailed again

  lemma MarkedRowIsNotMailed(rows: seq<User>, w: World, i: int)
    requires UniqueIds(rows)
    requires 0 <= i < |rows| && rows[i].messageSent
    ensures forall v :: v in TickMails(rows, w) ==> v.id != rows[i].id
  {
    forall v | v in rows && v.id == rows[i].id
      ensures v == rows[i]
    {
      var j :| 0 <= j < |rows| && rows[j] == v;
      assert IdOf(rows[j]) == IdOf(rows[i]);
    }
  }

  /** The table after a sequence of ticks. */
  function Run(rows: seq<User>, ws: seq<World>): seq<User>
    decreases |ws|
  {
    if ws == [] then rows else Run(TickTable(rows, ws[0]), ws[1..])
  }

  /** Every mail a sequence of ticks sends, in order. */
  function RunMails(rows: seq<User>, ws: seq<World>): seq<User>
    decreases |ws|
  {
    if ws == [] then [] else TickMails(rows, ws[0]) + RunMails(TickTable(rows, ws[0]), ws[1..])
  }

  /** Idempotence: once `message_sent` is true, no later run of ticks mails
      that user again. The run has no edit in it: `EditCanClearMark` shows
      that an edit of `message_sent` undoes the mark. */
  lemma {:induction false} MarkedUserIsNeverMailedAgain(rows: seq<User>, ws: seq<World>, i: int)
    requires UniqueIds(rows)
    requires 0 <= i < |rows| && rows[i].messageSent
    ensures forall v :: v in RunMails(rows, ws) ==> v.id != rows[i].id
    decreases |ws|
  {
    if ws != [] {
      MarkedRowIsNotMailed(rows, ws[0], i);
      TickKeepsKeysAndMarks(rows, ws[0]);
      MarkedUserIsNeverMailedAgain(TickTable(rows, ws[0]), ws[1..], i);
    }
  }

  /** A tick that mails and marks a user is followed by no other mail to
      that user, whatever ticks come after it. */
  lemma MailedOnceThenNeverAgain(rows: seq<User>, w: World, ws: seq<World>, i: int)
    requires UniqueIds(rows)
    requires 0 <= i < |rows|
    requires w.fetchOk && IsActive(rows[i]) && AttemptOf(rows[i], w) == Sent(true)
    ensures rows[i] in TickMails(rows, w)
    ensures forall v :: v in RunMails(TickTable(rows, w), ws) ==> v.id != rows[i].id
  {
    TickRow(rows, w, i);
    TickKeepsKeysAndMarks(rows, w);
    MarkedUserIsNeverMailedAgain(TickTable(rows, w), ws, i);
  }

  /** No tick clears the flag, but editUser may: an edit that sets
      `message_sent` to false leaves the row unmarked, and the next tick
      whose call sends for it mails the user once more. */
  lemma EditCanClearMark(rows: seq<User>, i: int, w: World)
    requires 0 <= i < |rows| && rows[i].messageSent
    ensures Edited(rows, rows[i].id, map["message_sent" := Flag(false)])[i]
            == rows[i].(messageSent := false)
    ensures var r := Edited(rows, rows[i].id, map["message_sent" := Flag(false)]);
            w.fetchOk && IsActive(r[i]) && AttemptOf(r[i], w).Sent? ==> r[i] in TickMails(r, w)
  {
    var fields := map["message_sent" := Flag(false)];
    assert AllAccepted(fields);
    var r := Edited(rows, rows[i].id, fields);
    assert r[i] == ApplyFields(rows[i], fields);
  }

  // ---------------------------------------------------------------------
  // The gate

  /** What one call of sendBirthdayMessage does to the table: it marks only
      at 09:00 exactly, on the birthday (under the day check as written, on
      the whole date of birth), for a row whose flag is falsy, when the mail
      was delivered and the UPDATE succeeded; any other ending leaves the
      table as it was. */
  lemma AttemptEffect(rows: seq<User>, u: User, w: World)
    ensures AfterAttempt(rows, u, w) != rows ==>
              && (w.dayRule == WholeDate ==> w.now.date == u.birthday)
              && SameMonthAndDay(w.now.date, u.birthday)
              && w.now.hour == 9 && w.now.minute == 0
              && !u.messageSent
              && w.mailOk(u.id) && w.markOk(u.id)
    ensures AttemptOf(u, w) in {NotDue, SendFailed, Sent(false)} ==> AfterAttempt(rows, u, w) == rows
    ensures AttemptOf(u, w).Sent? <==> Gate(u, w) && w.mailOk(u.id)
  {
  }

  /** On any one day the gate, as written or corrected, opens for a single
      reading of the clock, 09:00. The timer starts one tick a minute, so two
      ticks of one day read the clock differently, and they never both mail
      the same fetched row: a row whose mark failed is not mailed a second
      time that day. */
  lemma OneOpeningPerDay(rows1: seq<User>, rows2: seq<User>, u: User, w1: World, w2: World)
    requires w1.now.date == w2.now.date && w1.now != w2.now
    ensures !(AttemptOf(u, w1).Sent? && AttemptOf(u, w2).Sent?)
    ensures !(u in TickMails(rows1, w1) && u in TickMails(rows2, w2))
  {
  }

  /** The corrected gate opens every year at 09:00 on the birthday for a
      user not yet marked. */
  lemma DueOnEveryBirthday(u: User, y: int)
    requires !u.messageSent
    ensures Due(u, Moment(u.birthday.(year := y), 9, 0))
  {
  }

  /** A birthday on February 29 is due only in leap years. */
  lemma LeapDayBirthdayDueOnlyInLeapYears(u: User, now: Moment)
    requires ValidDate(now.date)
    requires u.birthday.month == 2 && u.birthday.day == 29
    requires Due(u, now)
    ensures IsLeapYear(now.date.year)
  {
    LeapDayExistsOnlyInLeapYears(now.date.year);
  }

  /** The condition as written holds only in the year the user was born,
      and only when the corrected one holds too. */
  lemma AsWrittenFiresOnlyInBirthYear(u: User, now: Moment)
    requires DueAsWritten(u, now)
    ensures now.date.year == u.birthday.year
    ensures Due(u, now)
  {
  }

  /** A user born on 1990-05-17, checked at 09:00 on 2024-05-17, mail and
      UPDATE both succeeding: the call as written turns the user away and
      leaves the table as it was; the corrected call mails and marks. */
  lemma AsWrittenMissesLaterBirthdays(rows: seq<User>, u: User, w: World)
    requires u.birthday == Date(1990, 5, 17) && !u.messageSent
    requires w.now == Moment(Date(2024, 5, 17), 9, 0) && w.mailOk(u.id) && w.markOk(u.id)
    requires w.dayRule == WholeDate
    ensures !DueAsWritten(u, w.now) && Due(u, w.now)
    ensures AttemptOf(u, w) == NotDue && AfterAttempt(rows, u, w) == rows
    ensures AttemptOf(u, w.(dayRule := MonthAndDay)) == Sent(true)
    ensures AfterAttempt(rows, u, w.(dayRule := MonthAndDay)) == MarkSent(rows, u.id)
  {
    assert w.now.date != u.birthday;
    assert AttemptOf(u, w) == NotDue;
    AttemptEffect(rows, u, w);
    var w2 := w.(dayRule := MonthAndDay);
    assert w2.now == w.now;
    assert Gate(u, w2);
  }

  /** Under the day check as written a tick mails only users whose stored
      birthday is today's whole date, so nobody is ever mailed after the
      year of their birth; and it mails nobody the corrected check would
      turn away. */
  lemma AsWrittenTickMailsOnlyInBirthYear(rows: seq<User>, w: World)
    requires w.dayRule == WholeDate
    ensures forall u :: u in TickMails(rows, w) ==> u.birthday == w.now.date
    ensures forall u :: u in TickMails(rows, w) ==> u in TickMails(rows, w.(dayRule := MonthAndDay))
  {
  }

  // ---------------------------------------------------------------------
  // The table operations

  /** In an edited row each listed column reads back its new value. */
  lemma ApplyFieldsWrites(u: User, fields: map<string, Value>)
    requires AllAccepted(fields)
    ensures forall k :: k in fields ==> Get(ApplyFields(u, fields), k) == Some(fields[k])
  {
    forall k | k in fields
      ensures Get(ApplyFields(u, fields), k) == Some(fields[k])
    {
      assert Accepts(k, fields[k]);
    }
  }

  /** In an edited row every column not listed keeps its value. */
  lemma ApplyFieldsKeeps(u: User, fields: map<string, Value>)
    requires AllAccepted(fields)
    ensures forall k :: k !in fields ==> Get(ApplyFields(u, fields), k) == Get(u, k)
  {
    var e := ApplyFields(u, fields);
    forall k | k !in fields
      ensures Get(e, k) == Get(u, k)
    {
      if k == "id" {
        assert e.id == u.id;
      }
    }
  }

  /** editUser on one row: a row with another id is untouched; in the rows
      with the id, each listed column reads back its new value and every
      other column keeps its old one. */
  lemma EditedRow(rows: seq<User>, id: int, fields: map<string, Value>, i: int)
    requires AllAccepted(fields)
    requires 0 <= i < |rows|
    ensures rows[i].id != id ==> Edited(rows, id, fields)[i] == rows[i]
    ensures rows[i].id == id ==> forall k :: k in fields ==> Get(Edited(rows, id, fields)[i], k) == Some(fields[k])
    ensures forall k :: k !in fields ==> Get(Edited(rows, id, fields)[i], k) == Get(rows[i], k)
  {
    ApplyFieldsWrites(rows[i], fields);
    ApplyFieldsKeeps(rows[i], fields);
  }

  /** editUser for an id no row has changes nothing. */
  lemma EditAbsentIdIsNoOp(rows: seq<User>, id: int, fields: map<string, Value>)
    requires AllAccepted(fields)
    requires !HasId(rows, id)
    ensures Edited(rows, id, fields) == rows
  {
    assert forall i :: 0 <= i < |rows| ==> rows[i].id != id;
  }

  /** deleteUser for an id no row has changes nothing. */
  lemma {:induction false} DeleteAbsentIdIsNoOp(rows: seq<User>, id: int)
    requires !HasId(rows, id)
    ensures Deleted(rows, id) == rows
  {
    if rows != [] {
      assert rows == [rows[0]] + rows[1..];
      assert !HasId(rows[1..], id) by {
        forall i | 0 <= i < |rows[1..]| ensures rows[1..][i].id != id {
          assert rows[1..][i] == rows[i + 1];
        }
      }
      DeleteAbsentIdIsNoOp(rows[1..], id);
    }
  }

  /** deleteUser keeps the other rows in their order. */
  lemma DeleteKeepsOrder(a: seq<User>, b: seq<User>, id: int)
    ensures Deleted(a + b, id) == Deleted(a, id) + Deleted(b, id)
  {
    FilterAppend(a, b, (u: User) => u.id != id);
  }

  /** Round trip: deleting a freshly created user gives back the table as
      it was before the INSERT. */
  lemma CreateThenDeleteRestores(rows: seq<User>, id: int, d: UserData, at: Stamp)
    requires !HasId(rows, id)
    ensures HasId(rows + [NewRow(id, d, at)], id)
    ensures Deleted(rows + [NewRow(id, d, at)], id) == rows
  {
    var r := rows + [NewRow(id, d, at)];
    assert r[|rows|].id == id;
    DeleteKeepsOrder(rows, [NewRow(id, d, at)], id);
    DeleteAbsentIdIsNoOp(rows, id);
    assert Deleted([NewRow(id, d, at)], id) == [];
  }
}
