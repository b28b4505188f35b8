/** What the table operations and the two passes of controller.js
    guarantee about the `users` table and about who is mailed. */
module ControllerProperties {
  import opened Common
  import opened Calendar
  import opened Schema
  import opened Controller
  import JsNumber

  // ---------------------------------------------------------------------
  // The mark-sent UPDATE

  /** Marking touches only the rows with the id, and in them only the two
      message columns, which it sets to "sent now". */
  lemma MarkSentFrame(rows: seq<User>, id: int, at: Stamp, i: int)
    requires 0 <= i < |rows|
    ensures rows[i].id != id ==> MarkSent(rows, id, at)[i] == rows[i]
    ensures rows[i].id == id ==>
              && Get(MarkSent(rows, id, at)[i], "message_sent_status") == Some(Flag(true))
              && Get(MarkSent(rows, id, at)[i], "message_sent") == Some(Time(Some(at)))
    ensures forall key :: key != "message_sent_status" && key != "message_sent" ==>
              Get(MarkSent(rows, id, at)[i], key) == Get(rows[i], key)
  {
  }

  /** The rows of `rows` whose id is in `ids`, marked. */
  function MarkAll(rows: seq<User>, ids: set<int>, at: Stamp): (r: seq<User>)
    ensures |r| == |rows|
  {
    seq(|rows|, i requires 0 <= i < |rows| => if rows[i].id in ids then Marked(rows[i], at) else rows[i])
  }

  /** The ids whose call in a pass over `users` both mailed and marked. */
  ghost function MarkedIds(users: seq<User>, w: World): set<int> {
    set u | u in users && AttemptOf(u, w) == Sent(true) :: u.id
  }

  lemma MarkedIdsAppend(a: seq<User>, b: seq<User>, w: World)
    ensures MarkedIds(a + b, w) == MarkedIds(a, w) + MarkedIds(b, w)
  {
    forall k | k in MarkedIds(a + b, w)
      ensures k in MarkedIds(a, w) + MarkedIds(b, w)
    {
      var v :| v in a + b && AttemptOf(v, w) == Sent(true) && v.id == k;
      if v in a {
        assert k in MarkedIds(a, w);
      } else {
        assert k in MarkedIds(b, w);
      }
    }
    forall k | k in MarkedIds(a, w) + MarkedIds(b, w)
      ensures k in MarkedIds(a + b, w)
    {
      if k in MarkedIds(a, w) {
        var v :| v in a && AttemptOf(v, w) == Sent(true) && v.id == k;
        assert v in a + b;
      } else {
        var v :| v in b && AttemptOf(v, w) == Sent(true) && v.id == k;
        assert v in a + b;
      }
    }
  }

  lemma MarkedIdsSnoc(users: seq<User>, u: User, w: World)
    ensures MarkedIds(users + [u], w) ==
            MarkedIds(users, w) + (if AttemptOf(u, w) == Sent(true) then {u.id} else {})
  {
    MarkedIdsAppend(users, [u], w);
    if AttemptOf(u, w) == Sent(true) {
      assert u in [u];
    }
  }

  /** Marking one more id on top of a set of marked ids; marking a row
      twice with the same stamp marks it once. */
  lemma MarkSentOnMarkAll(rows: seq<User>, ids: set<int>, id: int, at: Stamp)
    ensures MarkSent(MarkAll(rows, ids, at), id, at) == MarkAll(rows, ids + {id}, at)
  {
  }

  /** However many rows a pass visits, its effect is one mark per id whose
      call mailed and marked: the calls do not interfere with each other. */
  lemma {:induction false} PassTableClosedForm(rows: seq<User>, users: seq<User>, w: World)
    ensures PassTable(rows, users, w) == MarkAll(rows, MarkedIds(users, w), w.stamp)
    decreases |users|
  {
    if users == [] {
      assert MarkedIds(users, w) == {};
      assert MarkAll(rows, {}, w.stamp) == rows;
    } else {
      var init, last := users[..|users| - 1], users[|users| - 1];
      assert users == init + [last];
      PassTableClosedForm(rows, init, w);
      MarkedIdsSnoc(init, last, w);
      if AttemptOf(last, w) == Sent(true) {
        MarkSentOnMarkAll(rows, MarkedIds(init, w), last.id, w.stamp);
      }
    }
  }

  /** A pass keeps every row in place with its id and never clears a mark. */
  lemma PassKeepsIdsAndMarks(rows: seq<User>, users: seq<User>, w: World)
    ensures |PassTable(rows, users, w)| == |rows|
    ensures forall i :: 0 <= i < |rows| ==> PassTable(rows, users, w)[i].id == rows[i].id
    ensures forall i :: 0 <= i < |rows| && rows[i].messageSentStatus ==> PassTable(rows, users, w)[i].messageSentStatus
  {
    PassTableClosedForm(rows, users, w);
  }

  /** The row with index i after a pass over a snapshot `Filter(rows, p)` of
      the table: marked exactly when the snapshot holds it and its call
      mailed and marked; otherwise untouched. */
  lemma SnapshotPassRow(rows: seq<User>, p: User -> bool, w: World, i: int)
    requires UniqueIds(rows)
    requires 0 <= i < |rows|
    ensures |PassTable(rows, Filter(rows, p), w)| == |rows|
    ensures PassTable(rows, Filter(rows, p), w)[i] ==
            if p(rows[i]) && AttemptOf(rows[i], w) == Sent(true) then Marked(rows[i], w.stamp) else rows[i]
  {
    var snap := Filter(rows, p);
    PassTableClosedForm(rows, snap, w);
    if rows[i].id in MarkedIds(snap, w) {
      var v :| v in snap && AttemptOf(v, w) == Sent(true) && v.id == rows[i].id;
      var j :| 0 <= j < |rows| && rows[j] == v;
      assert IdOf(rows[j]) == IdOf(rows[i]);
      assert j == i;
    }
  }

  /** One tick: a row is marked exactly when it is active, its city has a
      time zone, the gate holds, the mail went out and the UPDATE took;
      every other row, inactive ones included, is left as it was, and a
      failed fetch leaves the whole table as it was. */
  lemma TickRow(rows: seq<User>, w: World, i: int)
    requires UniqueIds(rows)
    requires 0 <= i < |rows|
    ensures |TickTable(rows, w)| == |rows|
    ensures TickTable(rows, w)[i] ==
            if w.fetchOk && IsActive(rows[i]) && AttemptOf(rows[i], w) == Sent(true)
            then Marked(rows[i], w.stamp) else rows[i]
  {
    if w.fetchOk {
      SnapshotPassRow(rows, IsActive, w, i);
    }
  }

  /** The recovery pass: the same, for the rows not yet marked, whatever
      their status. */
  lemma RecoveryRow(rows: seq<User>, w: World, i: int)
    requires UniqueIds(rows)
    requires 0 <= i < |rows|
    ensures |RecoveryTable(rows, w)| == |rows|
    ensures RecoveryTable(rows, w)[i] ==
            if w.fetchOk && IsUnsent(rows[i]) && AttemptOf(rows[i], w) == Sent(true)
            then Marked(rows[i], w.stamp) else rows[i]
  {
    if w.fetchOk {
      SnapshotPassRow(rows, IsUnsent, w, i);
    }
  }

  /** What one call of sendBirthdayMessage does to the table: it marks only
      when the lookup found a zone, the three-part gate holds, the mail
      was delivered and the UPDATE succeeded; any other ending leaves the
      table as it was. Under the day check as written the mark also needs
      the whole date, year included, to be the birthday. */
  lemma AttemptEffect(rows: seq<User>, u: User, w: World)
    ensures AfterAttempt(rows, u, w) != rows ==>
              && w.timezones(u.city) != []
              && (w.dayRule == WholeDate ==> w.now.date == u.birthday)
              && SameMonthAndDay(w.now.date, u.birthday)
              && HourSetting(w.hourSend) == Some(w.now.hour)
              && !u.messageSentStatus
              && w.mailOk(u.id) && w.markOk(u.id)
    ensures AttemptOf(u, w) in {LookupFailed, NotDue, SendFailed, Sent(false)} ==> AfterAttempt(rows, u, w) == rows
    ensures AttemptOf(u, w).Sent? <==> w.timezones(u.city) != [] && Gate(u, w) && w.mailOk(u.id)
  {
  }

  // ---------------------------------------------------------------------
  // The loop goes on past a failure

  lemma MarkAllTwice(rows: seq<User>, a: set<int>, b: set<int>, at: Stamp)
    ensures MarkAll(MarkAll(rows, a, at), b, at) == MarkAll(rows, a + b, at)
  {
  }

  /** A pass over `a + b` is a pass over `a` followed by a pass over `b`. */
  lemma PassTableAppend(rows: seq<User>, a: seq<User>, b: seq<User>, w: World)
    ensures PassTable(rows, a + b, w) == PassTable(PassTable(rows, a, w), b, w)
  {
    PassTableClosedForm(rows, a + b, w);
    PassTableClosedForm(rows, a, w);
    PassTableClosedForm(PassTable(rows, a, w), b, w);
    MarkedIdsAppend(a, b, w);
    MarkAllTwice(rows, MarkedIds(a, w), MarkedIds(b, w), w.stamp);
  }

  /** A user whose call fails (no time zone, not due, or a rejected mail)
      is passed over: the users after it are processed exactly as if it
      were not in the list. */
  lemma FailingUserIsSkipped(rows: seq<User>, pre: seq<User>, u: User, post: seq<User>, w: World)
    requires !AttemptOf(u, w).Sent?
    ensures PassTable(rows, pre + [u] + post, w) == PassTable(rows, pre + post, w)
  {
    PassTableAppend(rows, pre + [u], post, w);
    assert (pre + [u])[..|pre|] == pre;
    assert PassTable(rows, pre + [u], w) == PassTable(rows, pre, w);
    PassTableAppend(rows, pre, post, w);
  }

  /** ... and no mail is counted for it. */
  lemma FailingUserGetsNoMail(pre: seq<User>, u: User, post: seq<User>, w: World)
    requires !AttemptOf(u, w).Sent?
    ensures PassMails(pre + [u] + post, w) == PassMails(pre, w) + PassMails(post, w)
  {
    FilterAppend(pre + [u], post, Mails(w));
    FilterSnoc(pre, u, Mails(w));
  }

  // ---------------------------------------------------------------------
  // A marked user is never mailed again

  /** Neither pass mails a user whose row carries the mark. */
  lemma MarkedRowIsNotMailed(rows: seq<User>, w: World, i: int)
    requires UniqueIds(rows)
    requires 0 <= i < |rows| && rows[i].messageSentStatus
    ensures forall v :: v in TickMails(rows, w) ==> v.id != rows[i].id
    ensures forall v :: v in RecoveryMails(rows, w) ==> v.id != rows[i].id
  {
    forall v | v in rows && v.id == rows[i].id
      ensures v == rows[i]
    {
      var j :| 0 <= j < |rows| && rows[j] == v;
      assert IdOf(rows[j]) == IdOf(rows[i]);
    }
  }

  datatype PassKind = Tick | Recovery

  /** One run of either pass, with what the world holds during it. */
  datatype Pass = Pass(kind: PassKind, world: World)

  function TableAfter(rows: seq<User>, p: Pass): seq<User> {
    if p.kind == Tick then TickTable(rows, p.world) else RecoveryTable(rows, p.world)
  }

  function MailsOf(rows: seq<User>, p: Pass): seq<User> {
    if p.kind == Tick then TickMails(rows, p.world) else RecoveryMails(rows, p.world)
  }

  /** The table after a sequence of passes. */
  function Run(rows: seq<User>, ps: seq<Pass>): seq<User>
    decreases |ps|
  {
    if ps == [] then rows else Run(TableAfter(rows, ps[0]), ps[1..])
  }

  /** Every mail a sequence of passes sends, in order. */
  function RunMails(rows: seq<User>, ps: seq<Pass>): seq<User>
    decreases |ps|
  {
    if ps == [] then [] else MailsOf(rows, ps[0]) + RunMails(TableAfter(rows, ps[0]), ps[1..])
  }

  /** Either pass keeps every row in place with its id, so the key stays
      a key, and it never clears a mark. */
  lemma PassKeepsKeysAndMarks(rows: seq<User>, p: Pass)
    requires UniqueIds(rows)
    ensures UniqueIds(TableAfter(rows, p))
    ensures |TableAfter(rows, p)| == |rows|
    ensures forall i :: 0 <= i < |rows| ==> TableAfter(rows, p)[i].id == rows[i].id
    ensures forall i :: 0 <= i < |rows| && rows[i].messageSentStatus ==> TableAfter(rows, p)[i].messageSentStatus
  {
    var users := if p.kind == Tick then ActiveRows(rows) else UnsentRows(rows);
    PassKeepsIdsAndMarks(rows, users, p.world);
    var r := TableAfter(rows, p);
    assert r == if p.world.fetchOk then PassTable(rows, users, p.world) else rows;
    forall a, b | 0 <= a < b < |r| ensures IdOf(r[a]) != IdOf(r[b]) {
      assert IdOf(rows[a]) != IdOf(rows[b]);
    }
  }

  /** Idempotence: once a user's row is marked, no later run of periodic
      and recovery passes, in any order and whatever happens in them, mails
      that user again. The run has no edit in it: `EditCanClearMark` shows
      that an edit of `message_sent_status` undoes the mark. */
  lemma {:induction false} MarkedUserIsNeverMailedAgain(rows: seq<User>, ps: seq<Pass>, i: int)
    requires UniqueIds(rows)
    requires 0 <= i < |rows| && rows[i].messageSentStatus
    ensures forall v :: v in RunMails(rows, ps) ==> v.id != rows[i].id
    decreases |ps|
  {
    if ps != [] {
      MarkedRowIsNotMailed(rows, ps[0].world, i);
      PassKeepsKeysAndMarks(rows, ps[0]);
      MarkedUserIsNeverMailedAgain(TableAfter(rows, ps[0]), ps[1..], i);
    }
  }

  /** A birthday mail goes out at most once: a tick that mails and marks a
      user is followed by no other mail to that user, whatever passes come
      after it. */
  lemma MailedOnceThenNeverAgain(rows: seq<User>, w: World, ps: seq<Pass>, i: int)
    requires UniqueIds(rows)
    requires 0 <= i < |rows|
    requires w.fetchOk && IsActive(rows[i]) && AttemptOf(rows[i], w) == Sent(true)
    ensures rows[i] in TickMails(rows, w)
    ensures forall v :: v in RunMails(TickTable(rows, w), ps) ==> v.id != rows[i].id
  {
    TickRow(rows, w, i);
    PassKeepsKeysAndMarks(rows, Pass(Tick, w));
    var r := TableAfter(rows, Pass(Tick, w));
    assert r[i] == Marked(rows[i], w.stamp);
    MarkedUserIsNeverMailedAgain(r, ps, i);
  }

  /** No pass clears the flag, but editUser may: an edit that sets
      `message_sent_status` to false leaves the row unmarked, and the next
      tick whose call sends for it mails the user once more. */
  lemma EditCanClearMark(rows: seq<User>, i: int, w: World)
    requires 0 <= i < |rows| && rows[i].messageSentStatus
    ensures Edited(rows, rows[i].id, map["message_sent_status" := Flag(false)])[i]
            == rows[i].(messageSentStatus := false)
    ensures var r := Edited(rows, rows[i].id, map["message_sent_status" := Flag(false)]);
            w.fetchOk && IsActive(r[i]) && AttemptOf(r[i], w).Sent? ==> r[i] in TickMails(r, w)
  {
    var fields := map["message_sent_status" := Flag(false)];
    assert AllAccepted(fields);
    var r := Edited(rows, rows[i].id, fields);
    assert r[i] == ApplyFields(rows[i], fields);
  }

  /** A mark that was not confirmed (the UPDATE failed after the mail went
      out) leaves the row unmarked, so the next tick with the same clock
      mails the user a second time. */
  lemma UnconfirmedMarkMeansResend(rows: seq<User>, w: World, i: int)
    requires UniqueIds(rows)
    requires 0 <= i < |rows|
    requires w.fetchOk && IsActive(rows[i]) && AttemptOf(rows[i], w) == Sent(false)
    ensures TickTable(rows, w)[i] == rows[i]
    ensures rows[i] in TickMails(rows, w) && rows[i] in TickMails(TickTable(rows, w), w)
  {
    TickRow(rows, w, i);
    var r := TickTable(rows, w);
    assert r[i] == rows[i];
    assert rows[i] in r && rows[i] in rows;
  }

  /** The recovery pass selects on the flag alone: it mails an inactive
      user whom no tick would mail. */
  lemma RecoveryReachesInactiveUsers(u: User, w: World)
    requires w.fetchOk && u.status == Inactive && AttemptOf(u, w).Sent?
    ensures u in RecoveryMails([u], w)
    ensures u !in TickMails([u], w)
  {
  }

  // ---------------------------------------------------------------------
  // The gate

  /** `parseInt("9", 10)` is 9. */
  lemma NineParses()
    ensures HourSetting(Some("9")) == Some(9)
  {
    JsNumber.ParseIntRoundTrip(9);
    assert JsNumber.IntToString(9) == "9";
  }

  /** With HOUR_SEND set to the numeral of an hour, the hour part of the
      gate is equality with that hour: neither an earlier nor a later hour
      of the day passes. */
  lemma HourCheckIsEquality(u: User, now: Moment, h: int)
    ensures DueAsWritten(u, now, Some(JsNumber.IntToString(h))) <==>
              now.date == u.birthday && now.hour == h && !u.messageSentStatus
    ensures Due(u, now, Some(JsNumber.IntToString(h))) <==>
              SameMonthAndDay(now.date, u.birthday) && now.hour == h && !u.messageSentStatus
  {
    JsNumber.ParseIntRoundTrip(h);
  }

  /** With HOUR_SEND unset nobody is ever due. */
  lemma UnsetHourNeverDue(u: User, now: Moment)
    ensures !Due(u, now, None) && !DueAsWritten(u, now, None)
  {
    JsNumber.UndefinedIsNaN();
  }

  /** The corrected gate fires every year on the birthday at the configured
      hour, for every user not yet marked. */
  lemma DueOnEveryBirthday(u: User, y: int, h: int, minute: int)
    requires !u.messageSentStatus
    ensures Due(u, Moment(u.birthday.(year := y), h, minute), Some(JsNumber.IntToString(h)))
  {
    HourCheckIsEquality(u, Moment(u.birthday.(year := y), h, minute), h);
  }

  /** A birthday on February 29 is due only in leap years. */
  lemma LeapDayBirthdayDueOnlyInLeapYears(u: User, now: Moment, hourSend: Option<string>)
    requires ValidDate(now.date)
    requires u.birthday.month == 2 && u.birthday.day == 29
    requires Due(u, now, hourSend)
    ensures IsLeapYear(now.date.year)
  {
    LeapDayExistsOnlyInLeapYears(now.date.year);
  }

  /** The condition as written compares the whole date, year included, so
      it holds only in the year the user was born, and only when the
      corrected one holds too. */
  lemma AsWrittenFiresOnlyInBirthYear(u: User, now: Moment, hourSend: Option<string>)
    requires DueAsWritten(u, now, hourSend)
    ensures now.date.year == u.birthday.year
    ensures Due(u, now, hourSend)
  {
  }

  /** A user born on 1990-05-17, checked at 09:00 on 2024-05-17 in Jakarta
      with HOUR_SEND "9", mail and UPDATE both succeeding: the call as
      written turns the user away and leaves the table as it was; the
      corrected call mails and marks. */
  lemma AsWrittenMissesLaterBirthdays(rows: seq<User>, u: User, w: World)
    requires u.birthday == Date(1990, 5, 17) && !u.messageSentStatus
    requires w.now == Moment(Date(2024, 5, 17), 9, 0) && w.hourSend == Some("9")
    requires w.timezones(u.city) != [] && w.mailOk(u.id) && w.markOk(u.id)
    requires w.dayRule == WholeDate
    ensures !DueAsWritten(u, w.now, w.hourSend) && Due(u, w.now, w.hourSend)
    ensures AttemptOf(u, w) == NotDue && AfterAttempt(rows, u, w) == rows
    ensures AttemptOf(u, w.(dayRule := MonthAndDay)) == Sent(true)
    ensures AfterAttempt(rows, u, w.(dayRule := MonthAndDay)) == MarkSent(rows, u.id, w.stamp)
  {
    NineParses();
    assert w.now.date != u.birthday;
    assert !Gate(u, w);
    assert AttemptOf(u, w) == NotDue;
    AttemptEffect(rows, u, w);
    var w2 := w.(dayRule := MonthAndDay);
    assert w2.now == w.now && w2.hourSend == w.hourSend && w2.stamp == w.stamp;
    assert Gate(u, w2);
  }

  /** Under the day check as written a pass mails only users whose stored
      birthday is today's whole date, so nobody is ever mailed after the
      year of their birth; and it mails nobody the corrected check would
      turn away. */
  lemma AsWrittenPassesMailOnlyInBirthYear(rows: seq<User>, w: World)
    requires w.dayRule == WholeDate
    ensures forall u :: u in TickMails(rows, w) ==> u.birthday == w.now.date
    ensures forall u :: u in RecoveryMails(rows, w) ==> u.birthday == w.now.date
    ensures forall u :: u in TickMails(rows, w) ==> u in TickMails(rows, w.(dayRule := MonthAndDay))
    ensures forall u :: u in RecoveryMails(rows, w) ==> u in RecoveryMails(rows, w.(dayRule := MonthAndDay))
  {
    forall u | u in TickMails(rows, w)
      ensures u.birthday == w.now.date && u in TickMails(rows, w.(dayRule := MonthAndDay))
    {
      AsWrittenSendsOnlyWhenCorrectedDoes(u, w);
    }
    forall u | u in RecoveryMails(rows, w)
      ensures u.birthday == w.now.date && u in RecoveryMails(rows, w.(dayRule := MonthAndDay))
    {
      AsWrittenSendsOnlyWhenCorrectedDoes(u, w);
    }
  }

  /** One call as written sends only on the whole date of birth, and only
      when the corrected call sends too. */
  lemma AsWrittenSendsOnlyWhenCorrectedDoes(u: User, w: World)
    requires w.dayRule == WholeDate
    ensures AttemptOf(u, w).Sent? ==> u.birthday == w.now.date && AttemptOf(u, w.(dayRule := MonthAndDay)).Sent?
  {
    var w2 := w.(dayRule := MonthAndDay);
    assert w2.now == w.now && w2.hourSend == w.hourSend && w2.timezones == w.timezones && w2.mailOk == w.mailOk;
  }

  /** Once the first mail is out and marked, every later tick turns the
      user away, those within the same hour included (the gate looks only
      at the hour, so a timer ticking every minute meets it sixty times). */
  lemma SameHourRecheckSendsNothing(rows: seq<User>, w: World, w2: World, i: int)
    requires UniqueIds(rows)
    requires 0 <= i < |rows|
    requires w.fetchOk && IsActive(rows[i]) && AttemptOf(rows[i], w) == Sent(true)
    ensures TickTable(rows, w)[i].messageSentStatus
    ensures forall v :: v in TickMails(TickTable(rows, w), w2) ==> v.id != rows[i].id
  {
    TickRow(rows, w, i);
    PassKeepsKeysAndMarks(rows, Pass(Tick, w));
    var r := TableAfter(rows, Pass(Tick, w));
    assert r == TickTable(rows, w);
    assert r[i] == Marked(rows[i], w.stamp);
    MarkedRowIsNotMailed(r, w2, i);
  }

  // ---------------------------------------------------------------------
  // The table operations

  /** In an edited row each listed column reads back its new value. */
  lemma ApplyFieldsWrites(u: User, fields: map<string, Value>)
    requires AllAccepted(fields)
    ensures forall k :: k in fields ==> Get(ApplyFields(u, fields), k) == Some(fields[k])
  {
    forall k | k in fields
      ensures Get(ApplyFields(u, fields), k) == Some(fields[k])
    {
      assert Accepts(k, fields[k]);
    }
  }

  /** In an edited row every column not listed keeps its value. */
  lemma ApplyFieldsKeeps(u: User, fields: map<string, Value>)
    requires AllAccepted(fields)
    ensures forall k :: k !in fields ==> Get(ApplyFields(u, fields), k) == Get(u, k)
  {
    var e := ApplyFields(u, fields);
    forall k | k !in fields
      ensures Get(e, k) == Get(u, k)
    {
      if k == "id" {
        assert e.id == u.id;
      }
    }
  }

  /** editUser on one row: a row with another id is untouched; in the rows
      with the id, each listed column reads back its new value and every
      other column keeps its old one. */
  lemma EditedRow(rows: seq<User>, id: int, fields: map<string, Value>, i: int)
    requires AllAccepted(fields)
    requires 0 <= i < |rows|
    ensures rows[i].id != id ==> Edited(rows, id, fields)[i] == rows[i]
    ensures rows[i].id == id ==> forall k :: k in fields ==> Get(Edited(rows, id, fields)[i], k) == Some(fields[k])
    ensures forall k :: k !in fields ==> Get(Edited(rows, id, fields)[i], k) == Get(rows[i], k)
  {
    ApplyFieldsWrites(rows[i], fields);
    ApplyFieldsKeeps(rows[i], fields);
  }

  /** editUser for an id no row has changes nothing. */
  lemma EditAbsentIdIsNoOp(rows: seq<User>, id: int, fields: map<string, Value>)
    requires AllAccepted(fields)
    requires !HasId(rows, id)
    ensures Edited(rows, id, fields) == rows
  {
    assert forall i :: 0 <= i < |rows| ==> rows[i].id != id;
  }

  /** deleteUser for an id no row has changes nothing. */
  lemma {:induction false} DeleteAbsentIdIsNoOp(rows: seq<User>, id: int)
    requires !HasId(rows, id)
    ensures Deleted(rows, id) == rows
  {
    if rows != [] {
      assert rows == [rows[0]] + rows[1..];
      assert !HasId(rows[1..], id) by {
        forall i | 0 <= i < |rows[1..]| ensures rows[1..][i].id != id {
          assert rows[1..][i] == rows[i + 1];
        }
      }
      DeleteAbsentIdIsNoOp(rows[1..], id);
    }
  }

  /** deleteUser keeps the other rows in their order: deleting from two
      halves of a table is deleting from each half. */
  lemma DeleteKeepsOrder(a: seq<User>, b: seq<User>, id: int)
    ensures Deleted(a + b, id) == Deleted(a, id) + Deleted(b, id)
  {
    FilterAppend(a, b, (u: User) => u.id != id);
  }

  /** Round trip: deleting a freshly created user gives back the table as
      it was before the INSERT, and that user is then no longer found. */
  lemma CreateThenDeleteRestores(rows: seq<User>, id: int, d: UserData, at: Stamp)
    requires !HasId(rows, id)
    ensures HasId(rows + [NewRow(id, d, at)], id)
    ensures Deleted(rows + [NewRow(id, d, at)], id) == rows
    ensures !HasId(Deleted(rows + [NewRow(id, d, at)], id), id)
  {
    var r := rows + [NewRow(id, d, at)];
    assert r[|rows|].id == id;
    DeleteKeepsOrder(rows, [NewRow(id, d, at)], id);
    DeleteAbsentIdIsNoOp(rows, id);
    assert Deleted([NewRow(id, d, at)], id) == [];
  }
}
