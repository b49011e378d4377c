/** Whether the key's device may exist: who is active on its seat. */
module Seat {
  import opened Bytes
  import opened Framing

  datatype Active = Nobody | Session(id: string, uid: u32) | Unknown
  datatype Record = Absent(number: nat) | File(dev: nat, ino: nat)

  /** A state of the seat: its record, or one that cannot be read. */
  datatype State = Unreadable | State(active: Active, record: Record)

  /** What the source says when asked whether the record was replaced since the
      last look: certainly not, perhaps, or an error. */
  datatype Poll = Unchanged | Perhaps | PollFailed

  /** logind writes each state to a new file. */
  ghost predicate Distinct(history: seq<State>) {
    forall i, j :: 0 <= i < j < |history| && history[i].State? && history[j].State? ==>
      history[i].record != history[j].record
  }

  predicate Allows(active: Active, owner: u32) {
    active.Nobody? || (active.Session? && active.uid == owner)
  }

  /** One turn of the wait: what `on_hold`, the shutdown flag, the wait and the
      source do, and the states the seat goes through meanwhile. */
  datatype Round = Round(holdFails: bool, shutdown: bool, waitFails: bool,
    states: seq<State>, poll: Poll, lookFails: bool)

  /** A report that passed the device: how many states the seat had gone
      through when the record was read that the device was created under, and
      when the report passed. */
  datatype Pass = Pass(born: nat, at: nat)

  /** Every report passed in the very state the device was created under. */
  ghost predicate Honest(passed: seq<Pass>, history: seq<State>, owner: u32) {
    forall p :: p in passed ==>
      && p.born == p.at < |history| && history[p.at].State? && Allows(history[p.at].active, owner)
  }

  class Watcher {
    const owner: u32

    /** The states the seat has gone through, the current one last. */
    var history: seq<State>
    /** Which of them the last look found: what the source goes by. */
    var lookedAt: nat

    var active: Option<Active>
    var record: Option<Record>
    var under: Option<Record>
    var retired: bool
    var held: bool

    /** A device exists. */
    var serving: bool
    /** The state the last look had found when it was created. */
    ghost var bornAt: nat
    ghost var passed: seq<Pass>

    ghost predicate Valid()
      reads this
    {
      && history != [] && Distinct(history)
      && (active.Some? ==> lookedAt < |history|)
      && (record.Some? ==> active.Some? && history[lookedAt] == State(active.value, record.value))
      && (record.None? && active.Some? ==> active.value.Unknown?)
      && (serving && !retired ==> bornAt == lookedAt && record == under && Allowed())
      && Honest(passed, history, owner)
    }

    constructor (owner: u32, first: State)
      ensures Valid() && this.owner == owner && history == [first] && !serving && passed == []
    {
      this.owner := owner;
      history, lookedAt, bornAt, passed := [first], 0, 0, [];
      active, record, under, retired, held, serving := None, None, None, false, false, false;
    }

    predicate Allowed()
      reads this
    {
      active.Some? && Allows(active.value, owner)
    }

    /** A "not changed" is certain. */
    predicate Certain(poll: Poll)
      reads this
    {
      poll.Unchanged? ==> active.Some? && lookedAt == |history| - 1
    }

    // -------------------------------------------------------------- the seat

    /** logind replaces the record, or it goes, or becomes unreadable. */
    method Replace(s: State)
      requires Valid() && Distinct(history + [s])
      modifies this`history
      ensures Valid() && history == old(history) + [s]
    {
      history := history + [s];
    }

    method ReplaceAll(states: seq<State>)
      requires Valid() && Distinct(history + states)
      modifies this`history
      ensures Valid() && history == old(history) + states
    {
      for i := 0 to |states|
        invariant Valid() && history == old(history) + states[..i]
      {
        assert old(history) + states[..i] + [states[i]] == (old(history) + states)[..|old(history)| + i + 1];
        Replace(states[i]);
        assert states[..i] + [states[i]] == states[..i + 1];
      }
      assert states[..|states|] == states;
    }

    // -------------------------------------------------------------- `Seat`

    /** `look`: a failed look is a state that may be anyone's. */
    method Look(fails: bool)
      requires Valid()
      modifies this`active, this`record, this`held, this`lookedAt, this`serving
      ensures Valid() && !serving && active.Some? && lookedAt == |history| - 1
      ensures var s := history[|history| - 1];
              if fails || s.Unreadable? then active == Some(Unknown) && record == None
              else active == Some(s.active) && record == Some(s.record)
      ensures held == (old(held) || (active == Some(Unknown) && old(active) != Some(Unknown)))
    {
      var s := history[|history| - 1];
      var found := if fails || s.Unreadable? then Unknown else s.active;
      if found.Unknown? && active != Some(Unknown) {
        held := true;
      }
      active := Some(found);
      record := if fails || s.Unreadable? then None else Some(s.record);
      lookedAt, serving := |history| - 1, false;
    }

    /** `wait_for_turn`: returns once a look allows a device, or with an error
        of `on_hold`, the wait or a shutdown. */
    method WaitForTurn(poll: Poll, lookFails: bool, rounds: seq<Round>, ghost later: seq<State>)
      returns (ok: bool, holds: nat)
      requires Valid() && Certain(poll)
      requires Distinct(history + States(rounds) + later)
      requires forall r :: r in rounds ==> r.poll.Unchanged? ==> r.states == []
      modifies this
      ensures Valid() && !serving && passed == old(passed)
      ensures Distinct(history + later)
      ensures ok <==> Allowed()
      ensures ok ==> record.Some? && !held
      ensures active.Some? && lookedAt == |history| - 1
      ensures holds <= 1 && (ok && holds == 0 ==> history == old(history))
      ensures |history| >= |old(history)| && history[..|old(history)|] == old(history)
    {
      hide Distinct, States, Honest;
      assert rounds[0..] == rounds;
      serving := false;
      if active.None? || !poll.Unchanged? {
        Look(lookFails);
      }
      holds := 0;
      var i := 0;
      while true
        invariant i <= |rounds| && Valid() && !serving && passed == old(passed)
                  && active.Some? && lookedAt == |history| - 1
        invariant Distinct(history + States(rounds[i..]) + later)
        invariant holds <= 1 && (holds == 0 ==> history == old(history))
        invariant |history| >= |old(history)| && history[..|old(history)|] == old(history)
        decreases |rounds| - i
      {
        Skip(history, States(rounds[i..]), later);
        if Allowed() {
          held := false;
          return true, holds;
        }
        held := true;
        if i == |rounds| {
          return false, holds;
        }
        var round := rounds[i];
        if holds == 0 {
          if round.holdFails {
            return false, 1;
          }
          holds := 1;
        }
        if round.shutdown || round.waitFails {
          return false, holds;
        }
        NextRound(history, rounds, i, later);
        ReplaceAll(round.states);
        if !round.poll.Unchanged? || active == Some(Unknown) {
          Look(round.lookFails);
        }
        i := i + 1;
      }
    }

    /** `plugged`: a device has been created, after a wait that succeeded. */
    method Plugged()
      requires Valid() && Allowed() && record.Some?
      modifies this`under, this`retired, this`serving, this`bornAt
      ensures Valid() && serving && !retired && under == record && bornAt == lookedAt
    {
      under, retired := record, false;
      serving, bornAt := true, lookedAt;
    }

    /** `check`: a device goes on serving exactly while the seat is in the state
        it was created under, and a look, if one is needed, can see that. */
    method Check(poll: Poll, lookFails: bool) returns (ok: bool)
      requires Valid() && serving && Certain(poll)
      modifies this`active, this`record, this`held, this`lookedAt, this`retired, this`serving
      ensures Valid() && serving
      ensures ok <==> && !old(retired) && bornAt == |history| - 1 && (poll.Unchanged? || !lookFails)
      ensures ok ==> && history[|history| - 1].State? && Some(history[|history| - 1].record) == under
                     && Allows(history[|history| - 1].active, owner)
      ensures retired == !ok
    {
      if !retired && !poll.Unchanged? {
        Look(lookFails);
        if !Allowed() {
          retired, held := true, true;
        } else if record != under {
          retired := true;
        }
        serving := true;
      }
      ok := !retired;
    }

    // -------------------------------------------------------------- `SeatDevice`

    /** `try_read_frame`: a report that has arrived is handed on only if the
        check after it passes. */
    method TryRead(arrived: Option<Frame>, fails: bool, poll: Poll, lookFails: bool) returns (r: Option<Option<Frame>>)
      requires Valid() && serving && Certain(poll)
      modifies this`active, this`record, this`held, this`lookedAt, this`retired, this`serving, this`passed
      ensures Valid() && serving
      ensures r == if fails || retired then None else Some(arrived)
      ensures passed == if r.Some? && r.value.Some? then old(passed) + [Pass(bornAt, |history| - 1)] else old(passed)
    {
      if fails {
        return None;
      }
      var ok := Check(poll, lookFails);
      if !ok {
        return None;
      }
      if arrived.Some? {
        passed := passed + [Pass(bornAt, |history| - 1)];
      }
      r := Some(arrived);
    }

    /** `write_frame`: a report is sent only if the check before it passes. */
    method Write(fails: bool, poll: Poll, lookFails: bool) returns (ok: bool)
      requires Valid() && serving && Certain(poll)
      modifies this`active, this`record, this`held, this`lookedAt, this`retired, this`serving, this`passed
      ensures Valid() && serving && ok == (!retired && !fails)
      ensures passed == if ok then old(passed) + [Pass(bornAt, |history| - 1)] else old(passed)
    {
      ok := Check(poll, lookFails);
      if ok && !fails {
        passed := passed + [Pass(bornAt, |history| - 1)];
      }
      ok := ok && !fails;
    }

    // -------------------------------------------------------------- runs

    /** Whatever logind and the daemon do, every report that passed did so while
        the seat was in the state its device was created under, and that state
        let the owner have the device. */
    method Run(actions: seq<Action>)
      requires Valid() && Distinct(history + AllStates(actions))
      requires forall a :: a in actions && a.Waits? ==>
                 forall r :: r in a.rounds ==> r.poll.Unchanged? ==> r.states == []
      modifies this
      ensures Valid() && Honest(passed, history, owner)
    {
      for i := 0 to |actions|
        invariant Valid() && Distinct(history + AllStates(actions[i..]))
      {
        var a := actions[i];
        ghost var rest := AllStates(actions[i + 1..]);
        assert actions[i..][1..] == actions[i + 1..];
        Split(history, StatesOf(a), rest);
        Step(a, rest);
      }
    }

    method Step(a: Action, ghost rest: seq<State>)
      requires Valid() && Distinct(history + StatesOf(a)) && Distinct(history + StatesOf(a) + rest)
      requires a.Waits? ==> forall r :: r in a.rounds ==> r.poll.Unchanged? ==> r.states == []
      modifies this
      ensures Valid() && Distinct(history + rest)
    {
      assert history + [] == history;
      match a
      case Changes(s) => Replace(s);
      case Waits(poll, lookFails, rounds) =>
        var honest := if Certain(poll) then poll else Perhaps;
        var ok, holds := WaitForTurn(honest, lookFails, rounds, rest);
        if ok {
          Plugged();
        }
      case Reads(arrived, fails, poll, lookFails) =>
        if serving {
          var r := TryRead(arrived, fails, if Certain(poll) then poll else Perhaps, lookFails);
        }
      case Writes(fails, poll, lookFails) =>
        if serving {
          var ok := Write(fails, if Certain(poll) then poll else Perhaps, lookFails);
        }
    }
  }

  function States(rounds: seq<Round>): seq<State> {
    if rounds == [] then [] else rounds[0].states + States(rounds[1..])
  }

  datatype Action =
    | Changes(s: State)
    | Waits(poll: Poll, lookFails: bool, rounds: seq<Round>)
    | Reads(arrived: Option<Frame>, fails: bool, poll: Poll, lookFails: bool)
    | Writes(fails: bool, poll: Poll, lookFails: bool)

  function StatesOf(a: Action): seq<State> {
    match a
    case Changes(s) => [s]
    case Waits(_, _, rounds) => States(rounds)
    case _ => []
  }

  function AllStates(actions: seq<Action>): seq<State> {
    if actions == [] then [] else StatesOf(actions[0]) + AllStates(actions[1..])
  }

  lemma Split(history: seq<State>, first: seq<State>, rest: seq<State>)
    requires Distinct(history + (first + rest))
    ensures Distinct(history + first) && Distinct(history + first + rest)
  {
    assert history + (first + rest) == history + first + rest;
    assert history + first == (history + first + rest)[..|history + first|];
  }

  lemma NextRound(history: seq<State>, rounds: seq<Round>, i: nat, later: seq<State>)
    requires i < |rounds| && Distinct(history + States(rounds[i..]) + later)
    ensures Distinct(history + rounds[i].states)
    ensures Distinct(history + rounds[i].states + States(rounds[i + 1..]) + later)
  {
    var first, rest := rounds[i].states, States(rounds[i + 1..]);
    assert rounds[i..][1..] == rounds[i + 1..];
    assert history + States(rounds[i..]) + later == history + (first + (rest + later));
    Split(history, first, rest + later);
    assert history + first + (rest + later) == history + first + rest + later;
  }

  /** Leaving out states leaves the others distinct. */
  lemma Skip(history: seq<State>, skipped: seq<State>, rest: seq<State>)
    requires Distinct(history + skipped + rest)
    ensures Distinct(history + rest)
  {
    var all, some := history + skipped + rest, history + rest;
    forall i, j | 0 <= i < j < |some| && some[i].State? && some[j].State?
      ensures some[i].record != some[j].record
    {
      var i' := if i < |history| then i else i + |skipped|;
      var j' := if j < |history| then j else j + |skipped|;
      assert all[i'] == some[i] && all[j'] == some[j];
    }
  }
}
