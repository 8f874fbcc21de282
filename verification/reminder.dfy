/** The reminder text the scan sends (habits/tasks.py): five lines, and a
    sixth naming the reward when the habit has an award. */
module Reminder {
  import opened Optional
  import opened Decimal

  /** `s` ends with `suffix`. */
  predicate EndsWith(s: string, suffix: string)
  {
    |suffix| <= |s| && s[|s| - |suffix|..] == suffix
  }

  /** The line naming the reward. */
  function RewardText(reward: string): string
  {
    "You can get " + reward + " as a reward."
  }

  /** The reward line of a reminder, with the newline that opens it. */
  function RewardLine(reward: string): string
  {
    "\n" + RewardText(reward)
  }

  /** The last line of the reward-free text. */
  function DurationLine(timeToComplete: int): string
  {
    "Time to Complete: " + IntToDecimal(timeToComplete) + " sec."
  }

  /** Lines joined with a newline between each two. */
  function Join(ls: seq<string>): string
    requires |ls| >= 1
    decreases |ls|
  {
    if |ls| == 1 then ls[0] else ls[0] + "\n" + Join(ls[1..])
  }

  /** The lines of a text, split at each newline. */
  function Lines(s: string): (ls: seq<string>)
    ensures |ls| >= 1
    decreases |s|
  {
    if s == [] then [""]
    else
      var rest := Lines(s[1..]);
      if s[0] == '\n' then [""] + rest else [[s[0]] + rest[0]] + rest[1..]
  }

  lemma EndsWithAppended(a: string, b: string, suffix: string)
    requires EndsWith(b, suffix)
    ensures EndsWith(a + b, suffix)
  {
    assert (a + b)[|a + b| - |suffix|..] == b[|b| - |suffix|..];
  }

  lemma EndsWithTransitive(s: string, t: string, u: string)
    requires EndsWith(s, t) && EndsWith(t, u)
    ensures EndsWith(s, u)
  {
    assert s[|s| - |u|..] == s[|s| - |t|..][|t| - |u|..];
  }

  lemma {:induction false} JoinEndsWithLast(ls: seq<string>)
    requires |ls| >= 1
    ensures EndsWith(Join(ls), ls[|ls| - 1])
    decreases |ls|
  {
    if |ls| == 1 {
      assert Join(ls)[|Join(ls)| - |ls[0]|..] == ls[0];
    } else {
      JoinEndsWithLast(ls[1..]);
      EndsWithAppended(ls[0] + "\n", Join(ls[1..]), ls[|ls| - 1]);
    }
  }

  lemma {:induction false} JoinSnoc(ls: seq<string>, x: string)
    requires |ls| >= 1
    ensures Join(ls + [x]) == Join(ls) + ("\n" + x)
    decreases |ls|
  {
    assert (ls + [x])[0] == ls[0];
    assert (ls + [x])[1..] == ls[1..] + [x];
    if |ls| > 1 {
      JoinSnoc(ls[1..], x);
    }
  }

  /** The five lines of every reminder. */
  function BaseLines(action: string, at: string, place: string, timeToComplete: int): seq<string>
  {
    ["Reminder", "To Do: " + action, "At: " + at, "Place: " + place, DurationLine(timeToComplete)]
  }

  lemma JoinStartsWithFirst(ls: seq<string>)
    requires |ls| >= 1
    ensures ls[0] <= Join(ls)
  {
  }

  /** The first two lines of every reminder, and its last line. */
  lemma BaseTextShape(action: string, at: string, place: string, timeToComplete: int)
    ensures "Reminder\nTo Do: " + action <= Join(BaseLines(action, at, place, timeToComplete))
    ensures EndsWith(Join(BaseLines(action, at, place, timeToComplete)), " sec.")
  {
    var lines := BaseLines(action, at, place, timeToComplete);
    JoinStartsWithFirst(lines[1..]);
    assert "Reminder\nTo Do: " + action == lines[0] + "\n" + lines[1];
    JoinEndsWithLast(lines);
    assert EndsWith(DurationLine(timeToComplete), " sec.");
    EndsWithTransitive(Join(lines), DurationLine(timeToComplete), " sec.");
  }

  lemma EndsWithOwnTail(a: string, b: string)
    ensures EndsWith(a + b, b)
  {
    assert (a + b)[|a + b| - |b|..] == b;
  }

  lemma EndsWithAt(s: string, t: string, k: int)
    requires EndsWith(s, t) && 0 <= k < |t|
    ensures s[|s| - |t| + k] == t[k]
  {
    assert s[|s| - |t|..][k] == t[k];
  }

  lemma RewardKeepsStart(base: string, reward: string)
    ensures base <= base + RewardLine(reward)
  {
  }

  lemma RewardEndsText(base: string, reward: string)
    ensures EndsWith(base + RewardLine(reward), RewardLine(reward))
  {
    EndsWithOwnTail(base, RewardLine(reward));
  }

  /** A text with a reward line appended does not end in " sec.". */
  lemma RewardHidesDuration(base: string, reward: string)
    ensures !EndsWith(base + RewardLine(reward), " sec.")
  {
    var text := base + RewardLine(reward);
    var tail := " as a reward.";
    assert RewardLine(reward) == ("\n" + "You can get " + reward) + tail;
    EndsWithOwnTail("\n" + "You can get " + reward, tail);
    EndsWithOwnTail(base, RewardLine(reward));
    EndsWithTransitive(text, RewardLine(reward), tail);
    EndsWithAt(text, tail, 8);
    if EndsWith(text, " sec.") {
      EndsWithAt(text, " sec.", 0);
      assert false;
    }
  }

  /** The reminder text: action, execution time, place and time to complete,
      in that order, and a reward line when the habit has an award. */
  function ReminderText(action: string, at: string, place: string, timeToComplete: int, reward: Option<string>)
    : (text: string)
    ensures "Reminder\nTo Do: " + action <= text
    ensures EndsWith(text, " sec.") <==> reward.None?
    ensures reward.Some? ==> EndsWith(text, RewardLine(reward.value))
  {
    var lines := BaseLines(action, at, place, timeToComplete);
    BaseTextShape(action, at, place, timeToComplete);
    match reward
    case None => Join(lines)
    case Some(rw) =>
      JoinSnoc(lines, RewardText(rw));
      RewardKeepsStart(Join(lines), rw);
      RewardEndsText(Join(lines), rw);
      RewardHidesDuration(Join(lines), rw);
      Join(lines + [RewardText(rw)])
  }

  lemma {:induction false} LinesOfLine(s: string)
    requires '\n' !in s
    ensures Lines(s) == [s]
    decreases |s|
  {
    if s != [] {
      assert '\n' !in s[1..];
      LinesOfLine(s[1..]);
      assert [s[0]] + s[1..] == s;
    }
  }

  lemma {:induction false} LinesJoin(a: string, b: string)
    requires '\n' !in a
    ensures Lines(a + "\n" + b) == [a] + Lines(b)
    decreases |a|
  {
    if a == [] {
      assert a + "\n" + b == "\n" + b;
      assert ("\n" + b)[1..] == b;
    } else {
      assert (a + "\n" + b)[1..] == a[1..] + "\n" + b;
      assert '\n' !in a[1..];
      LinesJoin(a[1..], b);
      assert [a[0]] + a[1..] == a;
    }
  }

  /** Splitting joined lines, none holding a newline, gives the lines back. */
  lemma {:induction false} LinesOfJoin(ls: seq<string>)
    requires |ls| >= 1
    requires forall i :: 0 <= i < |ls| ==> '\n' !in ls[i]
    ensures Lines(Join(ls)) == ls
    decreases |ls|
  {
    if |ls| == 1 {
      LinesOfLine(ls[0]);
    } else {
      assert forall i :: 0 <= i < |ls[1..]| ==> ls[1..][i] == ls[i + 1];
      LinesOfJoin(ls[1..]);
      LinesJoin(ls[0], Join(ls[1..]));
      assert [ls[0]] + ls[1..] == ls;
    }
  }

  lemma NoNewlineInNumber(n: int)
    ensures '\n' !in IntToDecimal(n)
  {
    var s := IntToDecimal(n);
    forall i | 0 <= i < |s|
      ensures s[i] != '\n'
    {
      if n < 0 && i > 0 {
        assert s[i] == s[1..][i - 1];
      }
    }
  }

  /** Read back line by line, a reminder whose fields hold no newline has
      exactly its five lines in order, and the reward line exactly when there
      is a reward. */
  lemma ReminderLines(action: string, at: string, place: string, timeToComplete: int, reward: Option<string>)
    requires '\n' !in action && '\n' !in at && '\n' !in place
    requires reward.Some? ==> '\n' !in reward.value
    ensures Lines(ReminderText(action, at, place, timeToComplete, reward))
            == ["Reminder", "To Do: " + action, "At: " + at, "Place: " + place, DurationLine(timeToComplete)]
               + (if reward.Some? then ["You can get " + reward.value + " as a reward."] else [])
  {
    var lines := BaseLines(action, at, place, timeToComplete);
    NoNewlineInNumber(timeToComplete);
    assert '\n' !in DurationLine(timeToComplete);
    assert forall i :: 0 <= i < |lines| ==> '\n' !in lines[i];
    if reward.Some? {
      var all := lines + [RewardText(reward.value)];
      assert '\n' !in RewardText(reward.value);
      assert forall i :: 0 <= i < |all| ==> all[i] == if i < 5 then lines[i] else RewardText(reward.value);
      LinesOfJoin(all);
    } else {
      LinesOfJoin(lines);
    }
  }

  /** The time to complete is read back from its line of the reminder. */
  lemma ReminderDurationReadBack(action: string, at: string, place: string, timeToComplete: int, reward: Option<string>)
    requires '\n' !in action && '\n' !in at && '\n' !in place
    requires reward.Some? ==> '\n' !in reward.value
    ensures |Lines(ReminderText(action, at, place, timeToComplete, reward))| >= 5
    ensures var line := Lines(ReminderText(action, at, place, timeToComplete, reward))[4];
            23 <= |line| && line[18..|line| - 5] == IntToDecimal(timeToComplete)
            && IntValue(line[18..|line| - 5]) == timeToComplete
  {
    ReminderLines(action, at, place, timeToComplete, reward);
    var line := DurationLine(timeToComplete);
    assert line[18..|line| - 5] == IntToDecimal(timeToComplete);
    IntDecimalRoundTrip(timeToComplete);
  }
}
