/** The operators of the wallet simulation: staking, or waiting in the schedule for the day they leave. */
module OperatorSchedule {
  import opened Sequences

  ghost predicate Pending(schedule: map<int, seq<nat>>, operator: nat) {
    exists d :: d in schedule && operator in schedule[d]
  }

  /** No operator is twice in the schedule. */
  predicate OnceEach(schedule: map<int, seq<nat>>) {
    && (forall d :: d in schedule ==> Distinct(schedule[d]))
    && (forall d, e, o :: d in schedule && e in schedule && o in schedule[d] && o in schedule[e] ==> d == e)
  }

  /** Live operators are the staking ones and, apart from them, those that wait in the schedule. */
  ghost predicate OperatorsSplit(live: set<nat>, staking: set<nat>, schedule: map<int, seq<nat>>) {
    && OnceEach(schedule)
    && staking <= live
    && (forall o :: o in live <==> o in staking || Pending(schedule, o))
    && (forall o :: o in staking ==> !Pending(schedule, o))
  }

  lemma StakingAreLive(live: set<nat>, staking: set<nat>, schedule: map<int, seq<nat>>)
    requires OperatorsSplit(live, staking, schedule)
    ensures staking <= live
  {
  }

  lemma QuittersMoveToSchedule(live: set<nat>, staking: set<nat>, schedule: map<int, seq<nat>>, key: int,
                               today: seq<nat>)
    requires OperatorsSplit(live, staking, schedule)
    requires key !in schedule && Distinct(today) && Elements(today) <= staking
    ensures OperatorsSplit(live, staking - Elements(today), schedule[key := today])
  {
    var after := schedule[key := today];
    forall o ensures Pending(after, o) <==> Pending(schedule, o) || o in today {
      if Pending(schedule, o) {
        var d :| d in schedule && o in schedule[d];
        assert o in after[d];
      }
      if o in today {
        assert o in after[key];
      }
    }
    forall o | o in today ensures !Pending(schedule, o) && o in staking {
      assert o in Elements(today);
    }
    forall d, e, o | d in after && e in after && o in after[d] && o in after[e] ensures d == e {
      assert d != key ==> Pending(schedule, o);
      assert e != key ==> Pending(schedule, o);
    }
  }

  lemma ScheduledDayLeaves(live: set<nat>, staking: set<nat>, schedule: map<int, seq<nat>>, day: int)
    requires OperatorsSplit(live, staking, schedule) && day in schedule
    ensures OperatorsSplit(live - Elements(schedule[day]), staking, schedule - {day})
  {
    var after := schedule - {day};
    forall o ensures Pending(after, o) <==> Pending(schedule, o) && o !in schedule[day] {
      if Pending(schedule, o) && o !in schedule[day] {
        var d :| d in schedule && o in schedule[d];
        assert o in after[d];
      }
      if Pending(after, o) {
        var d :| d in after && o in after[d];
        assert d in schedule && o in schedule[d];
      }
    }
    forall o | o in schedule[day] ensures o !in staking {
      assert Pending(schedule, o);
    }
  }

  lemma NewcomersStake(live: set<nat>, staking: set<nat>, schedule: map<int, seq<nat>>, newcomers: set<nat>)
    requires OperatorsSplit(live, staking, schedule) && newcomers !! live
    ensures OperatorsSplit(live + newcomers, staking + newcomers, schedule)
  {
  }

  /** Those that quit on a day leave 60 days later, in ascending order; the schedule of the day itself is done. */
  ghost predicate Rescheduled(before: map<int, seq<nat>>, after: map<int, seq<nat>>, day: nat, quitters: set<nat>) {
    && day + 60 in after
    && Ascending(after[day + 60]) && Elements(after[day + 60]) == quitters
    && after == (before - {day})[day + 60 := after[day + 60]]
  }

  lemma ReschedulingInSteps(before: map<int, seq<nat>>, day: nat, today: seq<nat>)
    requires Ascending(today)
    ensures Rescheduled(before, before[day + 60 := today] - {day}, day, Elements(today))
  {
  }

  function NewIds(first: nat, count: nat): (ids: set<nat>)
    ensures forall o :: o in ids <==> first <= o < first + count
  {
    if count == 0 then {} else NewIds(first, count - 1) + {first + count - 1}
  }
}
