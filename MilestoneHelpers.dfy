/**
 * `getMilestoneMessage`: the title, message and emoji the milestone modal
 * shows for a milestone identifier.  The identifier is recognised by its
 * `weekly_` or `monthly_` prefix; the number shown is the second piece of
 * the identifier split at underscores.
 */
module MilestoneHelpers {
  import StreakEngine
  import Calendar

  datatype MilestoneData = MilestoneData(title: string, message: string, emoji: string)

  const PARTY: string := "\U{1F389}"
  const TROPHY: string := "\U{1F3C6}"
  const CROWN: string := "\U{1F451}"

  /** What any identifier without a known prefix gets. */
  const FALLBACK: MilestoneData := MilestoneData("Milestone Achieved!", "Great job on your progress!", PARTY)

  predicate StartsWith(s: string, prefix: string) {
    |prefix| <= |s| && s[..|prefix|] == prefix
  }

  /** `s.split('_')`: the pieces between underscores, empty pieces included. */
  function Split(s: string): (parts: seq<string>)
    ensures |parts| >= 1
    ensures forall i :: 0 <= i < |parts| ==> '_' !in parts[i]
    decreases |s|
  {
    if s == [] then [""]
    else
      var rest := Split(s[1..]);
      if s[0] == '_' then [""] + rest
      else [[s[0]] + rest[0]] + rest[1..]
  }

  /** The pieces glued back together with underscores. */
  function Join(parts: seq<string>): string
    requires |parts| >= 1
    decreases |parts|
  {
    if |parts| == 1 then parts[0] else parts[0] + "_" + Join(parts[1..])
  }

  /** `field` is the text of `s` up to its first underscore, or all of `s` when it has none. */
  predicate FirstField(field: string, s: string) {
    && |field| <= |s| && s[..|field|] == field && '_' !in field
    && (|field| < |s| ==> s[|field|] == '_')
  }

  /** `s.split('_')[1]`, for an `s` with an underscore (otherwise there is no second piece). */
  function SecondField(s: string): string
    requires '_' in s
  {
    SplitHasTwo(s);
    Split(s)[1]
  }

  function Plural(n: string): string {
    if n != "1" then "s" else ""
  }

  /** `getMilestoneMessage(milestone)`. */
  function GetMilestoneMessage(milestone: string): (r: MilestoneData)
    ensures r == FALLBACK <==> !StartsWith(milestone, "weekly_") && !StartsWith(milestone, "monthly_")
  {
    if StartsWith(milestone, "weekly_") then
      assert milestone[6] == '_' && milestone[6] in milestone;
      var week := SecondField(milestone);
      MilestoneData(week + " Week Streak! " + PARTY,
                    "Amazing! You've maintained your hydration goal for " + week + " week" + Plural(week) + " in a row!",
                    TROPHY)
    else if StartsWith(milestone, "monthly_") then
      assert milestone[7] == '_' && milestone[7] in milestone;
      var month := SecondField(milestone);
      MilestoneData(month + " Month Streak! " + TROPHY,
                    "Incredible! You've maintained your hydration goal for " + month + " month" + Plural(month) + " in a row!",
                    CROWN)
    else
      FALLBACK
  }

  // ---- split ----

  /** Splitting and joining again gives back the string. */
  lemma {:induction false} SplitJoin(s: string)
    ensures Join(Split(s)) == s
    decreases |s|
  {
    if s != [] {
      var rest := Split(s[1..]);
      SplitJoin(s[1..]);
      if s[0] != '_' && |rest| > 1 {
        assert Split(s)[1..] == rest[1..];
      }
    }
  }

  /** The first piece is the text before the first underscore. */
  lemma {:induction false} SplitHead(s: string)
    ensures FirstField(Split(s)[0], s)
    decreases |s|
  {
    if s != [] && s[0] != '_' {
      SplitHead(s[1..]);
    }
  }

  /** Only one text is the first field of `s`. */
  lemma FirstFieldUnique(f: string, g: string, s: string)
    requires FirstField(f, s) && FirstField(g, s)
    ensures f == g
  {
    assert forall i :: 0 <= i < |f| ==> f[i] == s[i] && f[i] in f;
    assert forall i :: 0 <= i < |g| ==> g[i] == s[i] && g[i] in g;
  }

  /** An underscore gives at least two pieces. */
  lemma {:induction false} SplitHasTwo(s: string)
    requires '_' in s
    ensures |Split(s)| >= 2
    decreases |s|
  {
    if s[0] != '_' {
      assert '_' in s[1..] by {
        var i :| 0 <= i < |s| && s[i] == '_';
        assert s[1..][i - 1] == '_';
      }
      SplitHasTwo(s[1..]);
    }
  }

  /** An underscore-free prefix followed by an underscore is the first piece, and the rest splits on its own. */
  lemma {:induction false} SplitAfterPrefix(p: string, s: string)
    requires '_' !in p
    ensures Split(p + "_" + s) == [p] + Split(s)
    decreases |p|
  {
    if p != [] {
      assert (p + "_" + s)[1..] == p[1..] + "_" + s;
      assert p[0] in p;
      SplitAfterPrefix(p[1..], s);
      assert [p[0]] + p[1..] == p;
    }
  }

  /** The number a prefixed identifier shows is the text after the prefix, up to the next underscore. */
  lemma SecondFieldAfterPrefix(milestone: string, prefix: string, field: string)
    requires '_' !in prefix && StartsWith(milestone, prefix + "_")
    requires FirstField(field, milestone[|prefix| + 1..])
    ensures '_' in milestone && SecondField(milestone) == field
  {
    var rest := milestone[|prefix| + 1..];
    assert milestone == prefix + "_" + rest;
    assert milestone[|prefix|] == '_' && milestone[|prefix|] in milestone;
    SplitAfterPrefix(prefix, rest);
    SplitHead(rest);
    FirstFieldUnique(Split(rest)[0], field, rest);
  }

  // ---- messages ----

  /**
   * A `weekly_` identifier gets the week title with the party emoji, the
   * week message (with "weeks" unless the number is exactly "1") and the
   * trophy.
   */
  lemma WeeklyMessage(milestone: string, week: string)
    requires StartsWith(milestone, "weekly_") && FirstField(week, milestone[7..])
    ensures var r := GetMilestoneMessage(milestone);
      && r.title == week + " Week Streak! " + PARTY
      && r.message == "Amazing! You've maintained your hydration goal for " + week
                      + (if week == "1" then " week" else " weeks") + " in a row!"
      && r.emoji == TROPHY
  {
    SecondFieldAfterPrefix(milestone, "weekly", week);
  }

  /** A `monthly_` identifier gets the month title with the trophy, the month message and the crown. */
  lemma MonthlyMessage(milestone: string, month: string)
    requires StartsWith(milestone, "monthly_") && FirstField(month, milestone[8..])
    ensures var r := GetMilestoneMessage(milestone);
      && r.title == month + " Month Streak! " + TROPHY
      && r.message == "Incredible! You've maintained your hydration goal for " + month
                      + (if month == "1" then " month" else " months") + " in a row!"
      && r.emoji == CROWN
  {
    assert !StartsWith(milestone, "weekly_") by {
      assert milestone[0] == 'm';
    }
    SecondFieldAfterPrefix(milestone, "monthly", month);
  }

  /**
   * Every identifier the streak engine appends has its own message: the
   * title names the number of weeks (`t / 7`) or months (`t / 30`) of the
   * threshold, never the generic fallback.
   */
  lemma EngineIdentifiersHaveMessages(t: int)
    requires t in StreakEngine.ALL_MILESTONES
    ensures var r := GetMilestoneMessage(StreakEngine.MilestoneId(t));
      && r != FALLBACK
      && r.title == if t in StreakEngine.WEEKLY_MILESTONES
                    then StreakEngine.NatToString(t / 7) + " Week Streak! " + PARTY
                    else StreakEngine.NatToString(t / 30) + " Month Streak! " + TROPHY
  {
    var id := StreakEngine.MilestoneId(t);
    if t in StreakEngine.WEEKLY_MILESTONES {
      var n := StreakEngine.NatToString(t / 7);
      assert id == "weekly_" + n && id[7..] == n;
      DigitsHaveNoUnderscore(n);
      WeeklyMessage(id, n);
    } else {
      var n := StreakEngine.NatToString(t / 30);
      assert id == "monthly_" + n && id[8..] == n;
      DigitsHaveNoUnderscore(n);
      MonthlyMessage(id, n);
    }
  }

  lemma DigitsHaveNoUnderscore(n: string)
    requires forall i :: 0 <= i < |n| ==> Calendar.IsDigit(n[i])
    ensures FirstField(n, n)
  {
  }

  /** So every identifier in a streak update's `newMilestones` gets a non-fallback message. */
  lemma NewMilestonesHaveMessages(newStreak: int, oldStreak: int, i: int)
    requires 0 <= i < |StreakEngine.NewMilestones(newStreak, oldStreak)|
    ensures GetMilestoneMessage(StreakEngine.NewMilestones(newStreak, oldStreak)[i]) != FALLBACK
  {
    StreakEngine.MilestonesCrossedSpec(newStreak, oldStreak);
    var c := StreakEngine.Crossed(StreakEngine.ALL_MILESTONES, newStreak, oldStreak);
    assert c[i] in c;
    EngineIdentifiersHaveMessages(c[i]);
  }

  /** One week is singular. */
  lemma OneWeekExample(m: string)
    requires m == "weekly_1"
    ensures GetMilestoneMessage(m).message == "Amazing! You've maintained your hydration goal for 1 week in a row!"
  {
    assert m[7..] == "1";
    WeeklyMessage(m, "1");
  }

  /** Two weeks are plural, and the week title carries the party emoji. */
  lemma TwoWeeksExample(m: string)
    requires m == "weekly_2"
    ensures GetMilestoneMessage(m).message == "Amazing! You've maintained your hydration goal for 2 weeks in a row!"
    ensures GetMilestoneMessage(m).title == "2 Week Streak! " + PARTY
  {
    assert m[7..] == "2";
    WeeklyMessage(m, "2");
  }

  /** The month title carries the trophy. */
  lemma ThreeMonthsExample(m: string)
    requires m == "monthly_3"
    ensures GetMilestoneMessage(m).title == "3 Month Streak! " + TROPHY
  {
    assert m[..8] == "monthly_" && m[8..] == "3";
    assert StartsWith(m, "monthly_") && FirstField("3", m[8..]);
    MonthlyMessage(m, "3");
  }

  /** Text after a second underscore is not part of the number. */
  lemma ExtraPieceExample(m: string)
    requires m == "weekly_2_x"
    ensures GetMilestoneMessage(m).title == "2 Week Streak! " + PARTY
  {
    assert m[7..] == "2_x" && FirstField("2", m[7..]);
    WeeklyMessage(m, "2");
  }

  /** The prefixes are case-sensitive. */
  lemma CapitalisedExample(m: string)
    requires m == "Weekly_1"
    ensures GetMilestoneMessage(m) == FALLBACK
  {
    assert !StartsWith(m, "weekly_") && !StartsWith(m, "monthly_") by {
      assert m[0] == 'W';
    }
  }
}
