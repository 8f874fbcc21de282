/** The periodic reminder scan (`task_send_notification` in habits/tasks.py).
    The clock is read once for the storage query (the parameter `now`) and
    again by the due check of every candidate (the parameter `checks`, one
    reading per candidate, in candidate order); the storage query is a
    snapshot of habits in storage order; each outgoing Telegram message is
    returned as a `Notification` instead of being sent. */
module Tasks {
  import opened Optional
  import opened Models
  import opened Schedule
  import opened HabitSerializer
  import opened Reminder

  /** The lookahead of the storage query: two hours. */
  const WindowSeconds: int := 2 * SecondsPerHour

  /** One message handed to the messaging gateway. */
  datatype Notification = Notification(recipient: Option<nat>, text: string)

  /** The storage query: anchor within `[now, now + 2 h]` and a positive frequency. */
  predicate InWindow(h: Habit, now: Instant)
  {
    now <= h.executionTime <= now + WindowSeconds && h.frequency > 0
  }

  /** A habit the scan messages: a candidate of the query at `now` whose due
      check, reading the clock at `check`, finds it due. */
  predicate Selected(h: Habit, now: Instant, check: Instant)
  {
    InWindow(h, now) && ShouldExecuteToday(h, check)
  }

  /** Every owner and every award the snapshot refers to can be looked up
      (the foreign keys of a stored habit always resolve). */
  predicate Resolves(snapshot: seq<Habit>, awards: Awards, users: Users)
  {
    forall h :: h in snapshot ==> h.owner in users && (h.award.Some? ==> h.award.value in awards)
  }

  /** The candidates of the storage query, in storage order. */
  function Candidates(now: Instant, snapshot: seq<Habit>): (r: seq<Habit>)
    ensures forall h :: h in r <==> h in snapshot && InWindow(h, now)
    ensures |r| <= |snapshot|
  {
    if snapshot == [] then []
    else
      assert snapshot == [snapshot[0]] + snapshot[1..];
      (if InWindow(snapshot[0], now) then [snapshot[0]] else []) + Candidates(now, snapshot[1..])
  }

  /** The candidates whose due check passes, in candidate order;
      `checks[i]` is the clock reading of the due check of `candidates[i]`. */
  function DueAmong(candidates: seq<Habit>, checks: seq<Instant>): (r: seq<Habit>)
    requires |checks| == |candidates|
    requires forall h :: h in candidates ==> h.frequency > 0
    ensures |r| <= |candidates|
    ensures forall h :: h in r ==> h in candidates
  {
    if candidates == [] then []
    else
      assert candidates == [candidates[0]] + candidates[1..];
      (if ShouldExecuteToday(candidates[0], checks[0]) then [candidates[0]] else [])
      + DueAmong(candidates[1..], checks[1..])
  }

  /** A habit is kept exactly when the due check of one of its positions passes. */
  lemma {:induction false} DueAmongMembers(candidates: seq<Habit>, checks: seq<Instant>)
    requires |checks| == |candidates|
    requires forall h :: h in candidates ==> h.frequency > 0
    ensures forall h :: h in DueAmong(candidates, checks) ==>
              exists i :: 0 <= i < |candidates| && candidates[i] == h && ShouldExecuteToday(h, checks[i])
    ensures forall i :: 0 <= i < |candidates| && ShouldExecuteToday(candidates[i], checks[i]) ==>
              candidates[i] in DueAmong(candidates, checks)
  {
    if candidates != [] {
      var tail, tailChecks := candidates[1..], checks[1..];
      assert forall h :: h in tail ==> h in candidates;
      DueAmongMembers(tail, tailChecks);
      var rest := DueAmong(tail, tailChecks);
      forall h | h in DueAmong(candidates, checks)
        ensures exists i :: 0 <= i < |candidates| && candidates[i] == h && ShouldExecuteToday(h, checks[i])
      {
        if h !in rest {
          assert h == candidates[0] && ShouldExecuteToday(h, checks[0]);
        } else {
          var j :| 0 <= j < |tail| && tail[j] == h && ShouldExecuteToday(h, tailChecks[j]);
          assert candidates[j + 1] == h && checks[j + 1] == tailChecks[j];
        }
      }
      forall i | 0 <= i < |candidates| && ShouldExecuteToday(candidates[i], checks[i])
        ensures candidates[i] in DueAmong(candidates, checks)
      {
        if i > 0 {
          assert candidates[i] == tail[i - 1] && checks[i] == tailChecks[i - 1];
        }
      }
    }
  }

  lemma {:induction false} DueAmongConcat(a: seq<Habit>, ca: seq<Instant>, b: seq<Habit>, cb: seq<Instant>)
    requires |ca| == |a| && |cb| == |b|
    requires forall h :: h in a + b ==> h.frequency > 0
    ensures forall h :: h in a ==> h.frequency > 0
    ensures forall h :: h in b ==> h.frequency > 0
    ensures DueAmong(a + b, ca + cb) == DueAmong(a, ca) + DueAmong(b, cb)
  {
    assert forall h :: h in a ==> h in a + b;
    assert forall h :: h in b ==> h in a + b;
    if a != [] {
      assert (a + b)[1..] == a[1..] + b;
      assert (ca + cb)[1..] == ca[1..] + cb;
      assert forall h :: h in a[1..] + b ==> h in a + b;
      DueAmongConcat(a[1..], ca[1..], b, cb);
    } else {
      assert a + b == b && ca + cb == cb;
    }
  }

  lemma {:induction false} CandidatesConcat(now: Instant, a: seq<Habit>, b: seq<Habit>)
    ensures Candidates(now, a + b) == Candidates(now, a) + Candidates(now, b)
  {
    if a != [] {
      assert (a + b)[1..] == a[1..] + b;
      CandidatesConcat(now, a[1..], b);
    } else {
      assert a + b == b;
    }
  }

  /** The reward a habit's reminder names: its award's, if it has one. */
  function RewardOf(h: Habit, awards: Awards): Option<string>
    requires h.award.Some? ==> h.award.value in awards
  {
    if h.award.Some? then Some(awards[h.award.value].reward) else None
  }

  /** The message for one due habit, addressed to its owner's Telegram id.
      `render` is the text form of an instant. */
  function NotificationFor(h: Habit, awards: Awards, users: Users, render: Instant -> string): (n: Notification)
    requires h.owner in users && (h.award.Some? ==> h.award.value in awards)
    ensures n.recipient == users[h.owner].telegramId
    ensures n.recipient == GetTelegramId(h, users)
    ensures n.text == ReminderText(h.action, render(h.executionTime), h.place, h.timeToComplete, RewardOf(h, awards))
    ensures EndsWith(n.text, " sec.") <==> h.award.None?
    ensures h.award.Some? ==> EndsWith(n.text, RewardLine(awards[h.award.value].reward))
  {
    Notification(users[h.owner].telegramId,
                 ReminderText(h.action, render(h.executionTime), h.place, h.timeToComplete, RewardOf(h, awards)))
  }

  /** Read back line by line, the message names the habit's action, its
      rendered anchor, its place and its time to complete, and, when the habit
      has an award, the award's reward. */
  lemma NotificationLines(h: Habit, awards: Awards, users: Users, render: Instant -> string)
    requires h.owner in users && (h.award.Some? ==> h.award.value in awards)
    requires '\n' !in h.action && '\n' !in render(h.executionTime) && '\n' !in h.place
    requires h.award.Some? ==> '\n' !in awards[h.award.value].reward
    ensures Lines(NotificationFor(h, awards, users, render).text)
            == ["Reminder", "To Do: " + h.action, "At: " + render(h.executionTime), "Place: " + h.place,
                DurationLine(h.timeToComplete)]
               + (if h.award.Some? then ["You can get " + awards[h.award.value].reward + " as a reward."] else [])
  {
    ReminderLines(h.action, render(h.executionTime), h.place, h.timeToComplete, RewardOf(h, awards));
  }

  /** The messages for a sequence of due habits, one each, in order. */
  function NotificationsFor(due: seq<Habit>, awards: Awards, users: Users, render: Instant -> string)
    : (ns: seq<Notification>)
    requires Resolves(due, awards, users)
    ensures |ns| == |due|
    ensures forall i :: 0 <= i < |due| ==> ns[i] == NotificationFor(due[i], awards, users, render)
  {
    seq(|due|, i requires 0 <= i < |due| => NotificationFor(due[i], awards, users, render))
  }

  lemma NotificationsForConcat(a: seq<Habit>, b: seq<Habit>, awards: Awards, users: Users, render: Instant -> string)
    requires Resolves(a + b, awards, users)
    ensures NotificationsFor(a + b, awards, users, render)
            == NotificationsFor(a, awards, users, render) + NotificationsFor(b, awards, users, render)
  {
    var l := NotificationsFor(a + b, awards, users, render);
    var r := NotificationsFor(a, awards, users, render) + NotificationsFor(b, awards, users, render);
    assert |l| == |r|;
    forall i | 0 <= i < |l|
      ensures l[i] == r[i]
    {
      if i < |a| {
        assert (a + b)[i] == a[i];
      } else {
        assert (a + b)[i] == b[i - |a|];
      }
    }
  }

  /** What one scan sends: the messages for the candidates whose due check
      passes. */
  function Scan(now: Instant, snapshot: seq<Habit>, checks: seq<Instant>, awards: Awards, users: Users,
                render: Instant -> string): (ns: seq<Notification>)
    requires Resolves(snapshot, awards, users)
    requires |checks| == |Candidates(now, snapshot)|
  {
    NotificationsFor(DueAmong(Candidates(now, snapshot), checks), awards, users, render)
  }

  /** Extending the candidates examined by one habit extends the messages by
      that habit's message exactly when its due check passes. */
  lemma ScanStep(candidates: seq<Habit>, checks: seq<Instant>, i: nat, awards: Awards, users: Users,
                 render: Instant -> string)
    requires i < |candidates| == |checks|
    requires forall h :: h in candidates ==> h.frequency > 0
    requires Resolves(candidates, awards, users)
    ensures NotificationsFor(DueAmong(candidates[..i + 1], checks[..i + 1]), awards, users, render)
            == NotificationsFor(DueAmong(candidates[..i], checks[..i]), awards, users, render)
               + (if ShouldExecuteToday(candidates[i], checks[i])
                  then [NotificationFor(candidates[i], awards, users, render)] else [])
  {
    var h := candidates[i];
    assert candidates[..i + 1] == candidates[..i] + [h];
    assert checks[..i + 1] == checks[..i] + [checks[i]];
    DueAmongConcat(candidates[..i], checks[..i], [h], [checks[i]]);
    var dueSoFar := DueAmong(candidates[..i], checks[..i]);
    if ShouldExecuteToday(h, checks[i]) {
      assert DueAmong([h], [checks[i]]) == [h];
      NotificationsForConcat(dueSoFar, [h], awards, users, render);
    } else {
      assert DueAmong([h], [checks[i]]) == [];
      assert dueSoFar + [] == dueSoFar;
    }
  }

  lemma CandidatesResolve(now: Instant, snapshot: seq<Habit>, awards: Awards, users: Users)
    requires Resolves(snapshot, awards, users)
    ensures Resolves(Candidates(now, snapshot), awards, users)
    ensures forall h :: h in Candidates(now, snapshot) ==> h.frequency > 0
  {
  }

  /** The scan as a loop over the candidates, returning the messages it
      sends and their number. */
  method RunScan(now: Instant, snapshot: seq<Habit>, checks: seq<Instant>, awards: Awards, users: Users,
                 render: Instant -> string)
    returns (sent: seq<Notification>, count: nat)
    requires Resolves(snapshot, awards, users)
    requires |checks| == |Candidates(now, snapshot)|
    ensures sent == Scan(now, snapshot, checks, awards, users, render)
    ensures count == |sent| == |DueAmong(Candidates(now, snapshot), checks)|
  {
    var candidates := Candidates(now, snapshot);
    CandidatesResolve(now, snapshot, awards, users);
    sent := [];
    count := 0;
    var i := 0;
    while i < |candidates|
      invariant 0 <= i <= |candidates|
      invariant sent == NotificationsFor(DueAmong(candidates[..i], checks[..i]), awards, users, render)
      invariant count == |sent|
    {
      var h := candidates[i];
      ScanStep(candidates, checks, i, awards, users, render);
      if ShouldExecuteToday(h, checks[i]) {
        sent := sent + [NotificationFor(h, awards, users, render)];
        count := count + 1;
      }
      i := i + 1;
    }
    assert candidates[..i] == candidates && checks[..i] == checks;
  }

  /** The scan keeps no state across habits: scanning two parts of a
      snapshot sends what scanning each part sends, nothing de-duplicated. */
  lemma ScanDistributes(now: Instant, a: seq<Habit>, ca: seq<Instant>, b: seq<Habit>, cb: seq<Instant>,
                        awards: Awards, users: Users, render: Instant -> string)
    requires Resolves(a + b, awards, users)
    requires |ca| == |Candidates(now, a)| && |cb| == |Candidates(now, b)|
    ensures Resolves(a, awards, users) && Resolves(b, awards, users)
    ensures |ca + cb| == |Candidates(now, a + b)|
    ensures Scan(now, a + b, ca + cb, awards, users, render)
            == Scan(now, a, ca, awards, users, render) + Scan(now, b, cb, awards, users, render)
  {
    assert forall h :: h in a ==> h in a + b;
    assert forall h :: h in b ==> h in a + b;
    CandidatesConcat(now, a, b);
    var qa := Candidates(now, a);
    var qb := Candidates(now, b);
    assert forall h :: h in qa + qb ==> h in qa || h in qb;
    DueAmongConcat(qa, ca, qb, cb);
    NotificationsForConcat(DueAmong(qa, ca), DueAmong(qb, cb), awards, users, render);
  }

  /** The due-check readings of a one-habit snapshot: `t` when the habit is a
      candidate, none otherwise. */
  function CheckFor(h: Habit, now: Instant, t: Instant): seq<Instant>
  {
    if InWindow(h, now) then [t] else []
  }

  /** A single habit is messaged exactly when it is selected. */
  lemma ScanOfOne(now: Instant, h: Habit, t: Instant, awards: Awards, users: Users, render: Instant -> string)
    requires Resolves([h], awards, users)
    ensures |CheckFor(h, now, t)| == |Candidates(now, [h])|
    ensures Selected(h, now, t) ==>
              Scan(now, [h], CheckFor(h, now, t), awards, users, render) == [NotificationFor(h, awards, users, render)]
    ensures !Selected(h, now, t) ==> Scan(now, [h], CheckFor(h, now, t), awards, users, render) == []
  {
    assert [h][1..] == [];
    if InWindow(h, now) {
      assert Candidates(now, [h]) == [h];
      assert DueAmong([h], [t]) == (if ShouldExecuteToday(h, t) then [h] else []);
    } else {
      assert Candidates(now, [h]) == [];
    }
  }

  /** One message per selected habit, in snapshot order: a selected habit
      contributes its message between those of the habits around it, and any
      other habit contributes nothing. */
  lemma ScanMessagesExactlySelected(now: Instant, a: seq<Habit>, ca: seq<Instant>, h: Habit, t: Instant,
                                    b: seq<Habit>, cb: seq<Instant>,
                                    awards: Awards, users: Users, render: Instant -> string)
    requires Resolves(a + [h] + b, awards, users)
    requires |ca| == |Candidates(now, a)| && |cb| == |Candidates(now, b)|
    ensures Resolves(a, awards, users) && Resolves([h], awards, users) && Resolves(b, awards, users)
    ensures |ca + CheckFor(h, now, t) + cb| == |Candidates(now, a + [h] + b)|
    ensures Scan(now, a + [h] + b, ca + CheckFor(h, now, t) + cb, awards, users, render)
            == Scan(now, a, ca, awards, users, render)
               + (if Selected(h, now, t) then [NotificationFor(h, awards, users, render)] else [])
               + Scan(now, b, cb, awards, users, render)
  {
    ScanOfOne(now, h, t, awards, users, render);
    ScanDistributes(now, a, ca, [h], CheckFor(h, now, t), awards, users, render);
    ScanDistributes(now, a + [h], ca + CheckFor(h, now, t), b, cb, awards, users, render);
  }

  /** Combining the window with whole-day counting: a habit is only ever
      messaged by a scan whose query runs at most two hours before its anchor.
      While the due check's reading is still before the anchor, only a daily
      habit on the anchor's date passes; when both readings coincide, a longer
      cycle passes only at the anchor instant. */
  lemma SelectedOnlyNearAnchor(h: Habit, now: Instant, t: Instant)
    requires now <= t
    requires Selected(h, now, t)
    ensures h.executionTime - WindowSeconds <= now <= h.executionTime
    ensures h.executionTime > t ==> h.frequency == 1 && DateOf(h.executionTime) == DateOf(t)
    ensures t == now ==> DateOf(h.executionTime) == DateOf(now)
    ensures t == now && h.frequency > 1 ==> now == h.executionTime
  {
    if h.executionTime > t {
      DueWithinNextDay(h, t);
    }
  }

  /** Conversely, a candidate whose due check reads the clock within a day
      after its anchor is always selected, and one whose check reads the clock
      before its anchor is selected exactly when it is daily and the reading
      falls on the anchor's date. */
  lemma SelectedCandidates(h: Habit, now: Instant, t: Instant)
    requires InWindow(h, now)
    requires now <= t
    ensures h.executionTime <= t < h.executionTime + SecondsPerDay ==> Selected(h, now, t)
    ensures h.executionTime > t ==>
              (Selected(h, now, t) <==> h.frequency == 1 && DateOf(h.executionTime) == DateOf(t))
  {
    if h.executionTime > t {
      DueWithinNextDay(h, t);
    } else if t < h.executionTime + SecondsPerDay {
      DueOnFirstDayAfterAnchor(h, t);
    }
  }

  /** The two clock readings can disagree: a three-day habit anchored a
      minute after the query is not due by the query's reading, but is due
      when its own check reads the clock two minutes after the query. */
  lemma SecondClockReading(h: Habit, now: Instant)
    requires h.frequency == 3 && h.executionTime == now + 60
    ensures !Selected(h, now, now)
    ensures Selected(h, now, now + 120)
  {
    SelectedCandidates(h, now, now);
    SelectedCandidates(h, now, now + 120);
  }

  /** A habit anchored three hours ahead is outside the window and never
      messaged, whatever its due check reads. */
  lemma NoMessageThreeHoursAhead(now: Instant, h: Habit, t: Instant, awards: Awards, users: Users,
                                 render: Instant -> string)
    requires Resolves([h], awards, users)
    requires h.executionTime == now + 3 * SecondsPerHour
    ensures CheckFor(h, now, t) == []
    ensures Scan(now, [h], [], awards, users, render) == []
  {
    ScanOfOne(now, h, t, awards, users, render);
  }

  /** A daily habit with the reward "ice cream", anchored half an hour ahead
      and checked before the anchor: when the check's reading falls on the
      anchor's date it gets exactly one message, ending in the reward line;
      when midnight UTC lies between them it gets none. */
  lemma HalfHourAheadWithReward(now: Instant, h: Habit, t: Instant, awards: Awards, users: Users,
                                render: Instant -> string)
    requires Resolves([h], awards, users)
    requires h.executionTime == now + 30 * 60 && h.frequency == 1
    requires now <= t < h.executionTime
    requires h.award.Some? && awards[h.award.value].reward == "ice cream"
    ensures CheckFor(h, now, t) == [t]
    ensures DateOf(h.executionTime) == DateOf(t) ==>
              |Scan(now, [h], [t], awards, users, render)| == 1
              && EndsWith(Scan(now, [h], [t], awards, users, render)[0].text, "\nYou can get ice cream as a reward.")
    ensures DateOf(h.executionTime) != DateOf(t) ==> Scan(now, [h], [t], awards, users, render) == []
  {
    ScanOfOne(now, h, t, awards, users, render);
    SelectedCandidates(h, now, t);
    if DateOf(h.executionTime) == DateOf(t) {
      var n := NotificationFor(h, awards, users, render);
      assert Scan(now, [h], [t], awards, users, render) == [n];
      RewardLineIceCream();
    }
  }

  lemma RewardLineIceCream()
    ensures RewardLine("ice cream") == "\nYou can get ice cream as a reward."
  {
  }

  /** Nothing records that a message went out: two scans five minutes apart
      both message a daily habit anchored at the later scan's instant, when
      the first check reads the clock on the anchor's date and the second
      within a day after the anchor. */
  lemma ConsecutiveScansBothNotify(now: Instant, h: Habit, t1: Instant, t2: Instant, awards: Awards, users: Users,
                                   render: Instant -> string)
    requires Resolves([h], awards, users)
    requires h.executionTime == now + 300 && h.frequency == 1
    requires now <= t1 && DateOf(t1) == DateOf(h.executionTime)
    requires now + 300 <= t2 < now + 300 + SecondsPerDay
    ensures CheckFor(h, now, t1) == [t1] && CheckFor(h, now + 300, t2) == [t2]
    ensures Scan(now, [h], [t1], awards, users, render) == [NotificationFor(h, awards, users, render)]
    ensures Scan(now + 300, [h], [t2], awards, users, render) == [NotificationFor(h, awards, users, render)]
  {
    ScanOfOne(now, h, t1, awards, users, render);
    ScanOfOne(now + 300, h, t2, awards, users, render);
    SelectedCandidates(h, now, t1);
    SelectedCandidates(h, now + 300, t2);
  }

  /** The sends a scan actually attempts when the gateway call may raise:
      the loop has no handler, so the first raising send ends the scan.
      `raises` says which sends raise. */
  function Attempted(ns: seq<Notification>, raises: Notification -> bool): (r: seq<Notification>)
    ensures r <= ns
    ensures (forall i :: 0 <= i < |ns| ==> !raises(ns[i])) ==> r == ns
    ensures forall i :: 0 <= i < |r| - 1 ==> !raises(r[i])
    ensures r != ns ==> r != [] && raises(r[|r| - 1])
  {
    if ns == [] then []
    else if raises(ns[0]) then [ns[0]]
    else
      var rest := Attempted(ns[1..], raises);
      assert ns == [ns[0]] + ns[1..];
      [ns[0]] + rest
  }
}
