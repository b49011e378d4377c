/** The engine's PIN state over a store that may reject a write, publish it
    without confirming it, lose what it has not confirmed, or fail to read. */
module PinEngine {
  import opened Bytes

  type Hash = seq<byte>
  type RpId = seq<byte>

  const MAX_PIN_RETRIES := 8
  const MAX_MISMATCHES := 3
  const DEFAULT_MIN_PIN_LENGTH := 4
  const MAX_PIN_LENGTH := 63
  const MAX_RP_IDS := 8
  const MAX_RP_ID_LENGTH := 253

  datatype Token = Token(secret: seq<byte>, granted: bool)

  datatype Record = Record(
    pinHash: Option<Hash>, retries: nat, minLength: nat, rpIds: seq<RpId>, forceChange: bool,
    codePoints: nat, alwaysUv: bool, complexity: bool, token1: Option<Token>, token2: Option<Token>)

  const DEFAULT := Record(None, MAX_PIN_RETRIES, DEFAULT_MIN_PIN_LENGTH, [], false, DEFAULT_MIN_PIN_LENGTH,
                          false, false, None, None)

  /** What the store holds. */
  datatype Stored = Missing | Holds(record: Record) | Damaged
  /** What the engine has read of it. */
  datatype Authority = Read | Unread | Unreadable
  /** How a read of the store goes wrong, if it does. */
  datatype Fault = NoFault | Io | Corrupt
  datatype Write = Rejected | Unconfirmed | Confirmed
  /** A reset clears the store, or fails and leaves one of these behind. */
  datatype Clear = Cleared(confirmed: bool) | Failed(after: Stored)

  datatype Status =
    | Success | PinNotSet | PinBlocked | PinAuthBlocked | PinInvalid | PolicyViolation | AuthInvalid
    | InvalidParameter | UnexpectedType | KeyStoreFull | Processing

  function Effective(s: Stored): Record {
    if s.Holds? then s.record else DEFAULT
  }

  /** The checks of the store's `validate_pin_state`. */
  predicate Storable(r: Record) {
    && DEFAULT_MIN_PIN_LENGTH <= r.minLength <= MAX_PIN_LENGTH
    && DEFAULT_MIN_PIN_LENGTH <= r.codePoints <= MAX_PIN_LENGTH
    && |r.rpIds| <= MAX_RP_IDS && (forall rp :: rp in r.rpIds ==> |rp| <= MAX_RP_ID_LENGTH)
    && TokenOk(r.token1, r) && TokenOk(r.token2, r)
  }

  predicate NonZero(secret: seq<byte>) {
    exists i :: 0 <= i < |secret| && secret[i] != 0
  }

  /** Two new token secrets, if the random source gave them. */
  type Secrets = Option<(seq<byte>, seq<byte>)>

  predicate SecretsOk(s: Secrets) {
    s.Some? ==> NonZero(s.value.0) && NonZero(s.value.1)
  }

  /** Both tokens are new and grant nothing. */
  predicate Rotated(r: Record, s: Secrets) {
    && s.Some?
    && r.token1 == Some(Token(s.value.0, false)) && r.token2 == Some(Token(s.value.1, false))
  }

  predicate TokenOk(t: Option<Token>, r: Record) {
    t.Some? ==> NonZero(t.value.secret) && (t.value.granted ==> r.pinHash.Some? && !r.forceChange)
  }

  lemma KeepsStorable(r: Record, s: Record)
    requires Storable(r) && s == r.(retries := s.retries, alwaysUv := s.alwaysUv)
    ensures Storable(s) && (PolicyHolds(r) ==> PolicyHolds(s))
  {
  }

  /** A PIN shorter than the minimum must be changed before it is used. */
  predicate PolicyHolds(r: Record) {
    r.pinHash.Some? && r.codePoints < r.minLength ==> r.forceChange
  }

  lemma DefaultPolicy()
    ensures PolicyHolds(DEFAULT)
  {
  }

  /** The policy only ever gets stricter. */
  predicate Rises(before: Record, after: Record) {
    before.minLength <= after.minLength && (before.complexity ==> after.complexity)
  }

  ghost predicate AllRise(base: Record, states: set<Stored>) {
    forall s :: s in states && !s.Damaged? ==> Rises(base, Effective(s))
  }

  /** `PinRetryState::check_attempt_allowed`. */
  function AttemptAllowed(r: Record, mismatches: nat): Status {
    if r.pinHash.None? then PinNotSet
    else if r.retries == 0 then PinBlocked
    else if mismatches >= MAX_MISMATCHES then PinAuthBlocked
    else Success
  }

  /** `finish_attempt` on a mismatch, once the attempt has cost a retry. */
  function MismatchStatus(retries: nat, mismatches: nat): Status {
    if retries == 0 then PinBlocked else if mismatches >= MAX_MISMATCHES then PinAuthBlocked else PinInvalid
  }

  datatype Verdict = Verdict(retries: nat, mismatches: nat, compared: bool, status: Status)

  /** What a PIN check of `r` must come to, by the outcomes of its two writes:
      the debit before the comparison and the write that settles it. */
  function VerdictOf(r: Record, mismatches: nat, candidate: Option<Hash>, debit: Write, settle: Write): Verdict {
    var allowed := AttemptAllowed(r, mismatches);
    if allowed != Success then Verdict(r.retries, mismatches, false, allowed)
    else match debit
      case Rejected => Verdict(r.retries, mismatches, false, Processing)
      case Unconfirmed => Verdict(r.retries - 1, mismatches, false, Processing)
      case Confirmed =>
        if candidate == r.pinHash then
          match settle
          case Rejected => Verdict(r.retries - 1, mismatches, true, Processing)
          case Unconfirmed => Verdict(MAX_PIN_RETRIES, 0, true, Processing)
          case Confirmed => Verdict(MAX_PIN_RETRIES, 0, true, Success)
        else
          Verdict(r.retries - 1, mismatches + 1, true,
                  if settle.Confirmed? then MismatchStatus(r.retries - 1, mismatches + 1) else Processing)
  }

  /** A verdict on the PIN, right or wrong, follows a confirmed debit and only
      the right PIN succeeds; nothing but the right PIN adds retries. */
  lemma VerdictNeedsDebit(r: Record, mismatches: nat, candidate: Option<Hash>, debit: Write, settle: Write)
    ensures var v := VerdictOf(r, mismatches, candidate, debit, settle);
            && (v.status in {Success, PinInvalid} ==> v.compared)
            && (v.compared ==> debit.Confirmed? && r.retries > 0)
            && (v.status == Success ==> candidate == r.pinHash && settle.Confirmed?)
            && (v.retries > r.retries ==> v.compared && candidate == r.pinHash)
            && (v.compared && candidate != r.pinHash ==> v.retries == r.retries - 1)
  {
  }

  lemma {:induction false} TextIdsExact(ids: seq<Option<RpId>>)
    ensures TextIds(ids).None? <==> None in ids
    ensures TextIds(ids).Some? ==>
              && |TextIds(ids).value| == |ids|
              && forall i :: 0 <= i < |ids| ==> ids[i] == Some(TextIds(ids).value[i])
    ensures TextIds(ids).Some? ==> forall rp :: rp in TextIds(ids).value <==> Some(rp) in ids
  {
    if ids != [] {
      TextIdsExact(ids[1..]);
      assert ids == [ids[0]] + ids[1..];
    }
  }

  /** What has happened to each PIN: a candidate compared and found wrong, or
      the retries of the PIN with this hash set back to 8. */
  datatype Event = WrongVerdict(hash: Hash) | Restored(hash: Hash)
  datatype History = Start | Then(before: History, event: Event)

  /** Wrong verdicts on the PIN with hash `h` since its retries were last 8. */
  function Streak(history: History, h: Hash): nat {
    match history
    case Start => 0
    case Then(before, event) =>
      if event.hash != h then Streak(before, h)
      else if event.Restored? then 0
      else Streak(before, h) + 1
  }

  /** No PIN has been judged wrong more often than it has retries. */
  ghost predicate Bounded(history: History) {
    forall h :: Streak(history, h) <= MAX_PIN_RETRIES
  }

  lemma BoundedThen(history: History, event: Event)
    requires Bounded(history) && (event.Restored? || Streak(history, event.hash) < MAX_PIN_RETRIES)
    ensures Bounded(Then(history, event))
  {
    forall h ensures Streak(Then(history, event), h) <= MAX_PIN_RETRIES {
      assert Streak(history, h) <= MAX_PIN_RETRIES;
    }
  }

  /** What a PIN check adds to the history. */
  function Checked(history: History, r: Record, v: Verdict, candidate: Option<Hash>, settle: Write): History {
    if r.pinHash.None? || !v.compared then history
    else if candidate != r.pinHash then Then(history, WrongVerdict(r.pinHash.value))
    else if settle.Rejected? then history
    else Then(history, Restored(r.pinHash.value))
  }

  datatype MinPinLength = MinPinLength(
    minimum: Param<int>, rpIds: Param<seq<Option<RpId>>>, force: Param<bool>, complexity: Param<bool>)

  function TextIds(ids: seq<Option<RpId>>): Option<seq<RpId>> {
    if ids == [] then Some([])
    else if ids[0].None? || TextIds(ids[1..]).None? then None
    else Some([ids[0].value] + TextIds(ids[1..]).value)
  }

  /** A command, and how the store and the random source serve it. */
  datatype Command =
    | Verifies(candidate: Option<Hash>, fault: Fault, random: Hash, noFlush: bool, debit: Write, settle: Write)
    | Sets(hash: Hash, length: nat, complex: bool, fault: Fault, random: Hash, noFlush: bool,
           secrets: Secrets, w: Write)
    | Changes(candidate: Option<Hash>, hash: Hash, length: nat, complex: bool, fault: Fault,
              random: Hash, noFlush: bool,
              debit: Write, settle: Write, secrets: Secrets, w: Write)
    | Grants(candidate: Option<Hash>, fault: Fault, random: Hash, noFlush: bool, debit: Write, settle: Write,
             secret: Option<seq<byte>>, first: bool, w: Write)
    | Toggles(token: bool, fault: Fault, random: Hash, w: Write)
    | Configures(token: bool, params: MinPinLength, fault: Fault, random: Hash, secrets: Secrets, w: Write)
    | Clears(clear: Clear, fault: Fault, random: Hash)
    /** A restart, after a power loss that left `lost` or of the process only. */
    | Restarts(lost: Option<Stored>, fault: Fault, random: Hash)
  {
    /** A PIN of at most 63 bytes; random secrets are never all zero. */
    predicate WellFormed() {
      && (Sets? || Changes? ==> length <= MAX_PIN_LENGTH)
      && (Sets? || Changes? || Configures? ==> SecretsOk(secrets))
      && (Grants? && secret.Some? ==> NonZero(secret.value))
    }

    predicate LosesPower() {
      Restarts? && lost.Some?
    }
  }

  class Engine {
    var live: Record
    var mismatches: nat
    var authority: Authority
    var visible: Stored
    /** What a power loss may leave in the store. */
    var candidates: set<Stored>
    ghost var history: History

    /** A record that may be found after a power loss: storable, within policy,
        and with no more guesses left than 8 less the wrong ones made. */
    ghost predicate Sound(s: Stored)
      reads this
    {
      s.Holds? ==>
        && Storable(s.record) && PolicyHolds(s.record) && s.record.retries <= MAX_PIN_RETRIES
        && (s.record.pinHash.None? ==> s.record.retries == MAX_PIN_RETRIES)
        && (s.record.pinHash.Some? ==> Streak(history, s.record.pinHash.value) + s.record.retries <= MAX_PIN_RETRIES)
    }

    ghost predicate StoreSound()
      reads this
    {
      Bounded(history) && visible in candidates && forall c :: c in candidates ==> Sound(c)
    }

    /** The live state is the stored one once it has been read, else closed. */
    ghost predicate Valid()
      reads this
    {
      && StoreSound()
      && (authority.Read? ==> !visible.Damaged? && live == Effective(visible))
      && (!authority.Read? ==> Closed())
    }

    /** No state a power loss may leave has a laxer policy than `base`. */
    ghost predicate Floor(base: Record)
      reads this
    {
      AllRise(base, candidates)
    }

    /** What is written has a policy no laxer than what was there. */
    twostate predicate Raises()
      reads this
    {
      forall s :: s in candidates ==>
        s in old(candidates) || (!old(visible).Damaged? && Rises(Effective(old(visible)), Effective(s)))
    }

    /** What is written differs from the live state in its retries only. */
    twostate predicate OnlyRetries()
      reads this
    {
      forall s :: s in candidates ==>
        s in old(candidates) || (s.Holds? && s.record == old(live).(retries := s.record.retries))
    }

    /** As after a failed reset: the store may have changed under the engine. */
    ghost predicate Reconcilable()
      reads this
    {
      && StoreSound() && (!authority.Read? ==> Closed())
      && (authority.Read? ==>
            && (live.pinHash.None? ==> live.retries == MAX_PIN_RETRIES)
            && ((!visible.Damaged? && live == Effective(visible)) || visible in {Holds(DEFAULT), Damaged}))
    }

    /** Blocked, with user verification always required. */
    ghost predicate Closed()
      reads this
    {
      live.retries == 0 && live.alwaysUv
    }

    constructor ()
      ensures Valid() && visible == Missing && authority.Read? && live == DEFAULT && candidates == {Missing}
    {
      live, mismatches, authority, visible := DEFAULT, 0, Read, Missing;
      candidates, history := {Missing}, Start;
    }

    // -------------------------------------------------------------- the store

    method WriteStore(r: Record, w: Write)
      modifies this`visible, this`candidates
      ensures w.Rejected? ==> visible == old(visible) && candidates == old(candidates)
      ensures w.Unconfirmed? ==> visible == Holds(r) && candidates == old(candidates) + {Holds(r)}
      ensures w.Confirmed? ==> visible == Holds(r) && candidates == {Holds(r)}
    {
      if w.Rejected? {
        return;
      }
      visible := Holds(r);
      candidates := if w.Confirmed? then {visible} else candidates + {visible};
    }

    /** Nothing is written over a state the engine has not read. */
    method SavePinState(r: Record, w: Write) returns (saved: Write)
      requires Storable(r)
      modifies this`visible, this`candidates
      ensures saved == if authority.Read? then w else Rejected
      ensures saved.Rejected? ==> visible == old(visible) && candidates == old(candidates)
      ensures saved.Unconfirmed? ==> visible == Holds(r) && candidates == old(candidates) + {Holds(r)}
      ensures saved.Confirmed? ==> visible == Holds(r) && candidates == {Holds(r)}
    {
      if !authority.Read? {
        return Rejected;
      }
      WriteStore(r, w);
      saved := w;
    }

    /** `load_pin_state`: a state that cannot be read is set and blocked, with
        a hash nobody knows. */
    method Load(fault: Fault, random: Hash)
      requires StoreSound()
      modifies this`live, this`authority
      ensures Valid()
      ensures authority == (if fault.Io? then Unread
                            else if fault.Corrupt? || visible.Damaged? then Unreadable else Read)
      ensures !authority.Read? ==> live == DEFAULT.(pinHash := Some(random), retries := 0, alwaysUv := true)
    {
      if fault.NoFault? && !visible.Damaged? {
        live := if visible.Holds? then visible.record else DEFAULT;
        live := live.(retries := Min(live.retries, MAX_PIN_RETRIES));
        authority := Read;
      } else {
        live := DEFAULT.(pinHash := Some(random), retries := 0, alwaysUv := true);
        authority := if fault.Io? then Unread else Unreadable;
      }
    }

    /** `refresh_persistent_authority`. An I/O error changes nothing of a state
        that was read; a damaged record closes it until reset. */
    method Refresh(fault: Fault, random: Hash) returns (ok: bool)
      requires Reconcilable()
      modifies this`live, this`authority
      ensures ok || !authority.Read? || old(Valid()) ==> Valid()
      ensures old(authority).Unreadable? ==> ok && authority.Unreadable? && live == old(live)
      ensures old(authority).Read? && fault.Io? ==> !ok && authority.Read? && live == old(live)
      ensures old(authority).Read? && !fault.Io? ==>
                ok == authority.Read? && (ok <==> fault.NoFault? && !visible.Damaged?) && !authority.Unread?
      ensures old(Valid() && authority.Read?) && ok ==> live == old(live)
      ensures old(authority).Read? && authority.Unreadable? ==>
                live == old(live).(token1 := None, token2 := None, retries := 0, alwaysUv := true)
      ensures old(authority).Unread? ==>
                ok == authority.Read? && (authority.Unread? <==> fault.Io?) && (!ok ==> live == old(live))
    {
      if authority.Unreadable? {
        return true;
      }
      if authority.Unread? {
        if fault.NoFault? && !visible.Damaged? {
          Load(fault, random);
        } else {
          authority := if fault.Io? then Unread else Unreadable;
        }
        return authority.Read?;
      }
      if fault.Io? {
        return false;
      }
      if || fault.Corrupt? || visible.Damaged?
         || (visible.Missing? && (live.pinHash.Some? || live.token1.Some? || live.token2.Some?)) {
        live := live.(token1 := None, token2 := None, retries := 0, alwaysUv := true);
        authority := Unreadable;
        return false;
      }
      if visible.Holds? && visible.record.(retries := live.retries) != live {
        live := visible.record;
      }
      ok := true;
    }

    /** `read_pin_state_if_unread`. */
    method ReadIfUnread(fault: Fault, random: Hash) returns (ok: bool)
      requires Valid()
      modifies this`live, this`authority
      ensures Valid()
      ensures !old(authority).Unread? ==> ok && authority == old(authority) && live == old(live)
      ensures old(authority).Unread? ==> ok == authority.Read?
    {
      ok := true;
      if authority.Unread? {
        ok := Refresh(fault, random);
      }
    }

    // -------------------------------------------------------------- PIN checks

    /** `begin_attempt`: the retry is spent in the store first. */
    method Debit(w: Write) returns (saved: Write)
      requires Valid() && authority.Read? && AttemptAllowed(live, mismatches) == Success
      modifies this`live, this`visible, this`candidates
      ensures Valid() && saved == w && OnlyRetries()
      ensures live == if w.Rejected? then old(live) else old(live).(retries := old(live).retries - 1)
      ensures w.Confirmed? ==> visible == Holds(live) && candidates == {visible}
    {
      hide Storable, PolicyHolds;
      var debited := live.(retries := live.retries - 1);
      KeepsStorable(live, debited);
      saved := SavePinState(debited, w);
      if !saved.Rejected? {
        live := debited;
      }
    }

    /** `finish_attempt` on the right PIN, the debit confirmed. */
    method Restore(w: Write) returns (saved: Write)
      requires Valid() && authority.Read? && live.pinHash.Some? && candidates == {Holds(live)}
      modifies this
      ensures Valid() && authority.Read? && saved == w && OnlyRetries()
      ensures live == if w.Rejected? then old(live) else old(live).(retries := MAX_PIN_RETRIES)
      ensures mismatches == if w.Rejected? then old(mismatches) else 0
      ensures w.Confirmed? ==> visible == Holds(live)
      ensures history == if w.Rejected? then old(history) else Then(old(history), Restored(old(live).pinHash.value))
    {
      hide Storable, PolicyHolds;
      var restored := live.(retries := MAX_PIN_RETRIES);
      KeepsStorable(live, restored);
      saved := SavePinState(restored, w);
      if !saved.Rejected? {
        BoundedThen(history, Restored(live.pinHash.value));
        history := Then(history, Restored(live.pinHash.value));
        live, mismatches := restored, 0;
      }
    }

    /** `finish_attempt` on a wrong PIN, the debit confirmed. */
    method Mismatch(w: Write) returns (saved: Write)
      requires Valid() && authority.Read? && live.pinHash.Some? && candidates == {Holds(live)}
      requires Streak(history, live.pinHash.value) + live.retries < MAX_PIN_RETRIES
      modifies this
      ensures Valid() && authority.Read? && saved == w && OnlyRetries()
      ensures live == old(live) && mismatches == old(mismatches) + 1
      ensures history == Then(old(history), WrongVerdict(live.pinHash.value))
    {
      hide Storable, PolicyHolds;
      mismatches := mismatches + 1;
      BoundedThen(history, WrongVerdict(live.pinHash.value));
      history := Then(history, WrongVerdict(live.pinHash.value));
      saved := SavePinState(live, w);
    }

    /** The check itself, on a state that has been read: the debit is stored
        and confirmed before the candidate is compared. */
    method CheckPin(candidate: Option<Hash>, debit: Write, settle: Write) returns (status: Status, ghost compared: bool)
      requires Valid() && authority.Read?
      modifies this
      ensures Valid() && authority.Read? && OnlyRetries()
      ensures var v := VerdictOf(old(live), old(mismatches), candidate, debit, settle);
              && live == old(live).(retries := v.retries) && mismatches == v.mismatches
              && status == v.status && compared == v.compared
              && history == Checked(old(history), old(live), v, candidate, settle)
      ensures status == Success ==> visible == Holds(live)
    {
      hide Storable, PolicyHolds;
      compared := false;
      var allowed := AttemptAllowed(live, mismatches);
      if allowed != Success {
        return allowed, false;
      }
      var saved := Debit(debit);
      if !saved.Confirmed? {
        return Processing, false;
      }
      compared := true;
      if candidate == live.pinHash {
        saved := Restore(settle);
        status := if saved.Confirmed? then Success else Processing;
      } else {
        saved := Mismatch(settle);
        status := if saved.Confirmed? then MismatchStatus(live.retries, mismatches) else Processing;
      }
    }

    /** `verify_pin_hash_enc`. `noFlush` says the store cannot confirm a write,
        so that the check is refused before it costs a retry. */
    method VerifyPin(candidate: Option<Hash>, fault: Fault, random: Hash, noFlush: bool, debit: Write, settle: Write)
      returns (status: Status, ghost compared: bool)
      requires Valid()
      modifies this
      ensures Valid()
      ensures old(authority).Read? && fault.NoFault? && !noFlush ==>
                var v := VerdictOf(old(live), old(mismatches), candidate, debit, settle);
                && live == old(live).(retries := v.retries) && mismatches == v.mismatches
                && status == v.status && compared == v.compared
                && history == Checked(old(history), old(live), v, candidate, settle)
      ensures old(authority).Unreadable? ==>
                status == (if old(live).pinHash.Some? then PinBlocked else PinNotSet)
      ensures status in {Success, PinInvalid} ==> compared
      ensures compared ==> authority.Read? && debit.Confirmed? && !noFlush
      ensures status == Success ==>
                && settle.Confirmed? && candidate == live.pinHash && candidate.Some? && visible == Holds(live)
      ensures old(authority).Read? && authority.Read? ==> live == old(live).(retries := live.retries)
      ensures !compared ==> history == old(history)
      ensures old(authority).Unreadable? ==> authority.Unreadable?
      ensures !authority.Read? ==> !compared && visible == old(visible) && candidates == old(candidates)
      ensures Rises(Effective(old(visible)), Effective(visible)) && Raises()
    {
      hide Storable, PolicyHolds, Bounded, VerdictOf, Checked;
      var ok := Refresh(fault, random);
      if !ok {
        return Processing, false;
      }
      status, compared := Attempt(candidate, noFlush, debit, settle);
    }

    /** The attempt once the state is up to date, or known not to be readable. */
    method Attempt(candidate: Option<Hash>, noFlush: bool, debit: Write, settle: Write)
      returns (status: Status, ghost compared: bool)
      requires Valid() && !authority.Unread?
      modifies this
      ensures Valid() && authority == old(authority)
      ensures authority.Read? && !noFlush ==>
                var v := VerdictOf(old(live), old(mismatches), candidate, debit, settle);
                && live == old(live).(retries := v.retries) && mismatches == v.mismatches
                && status == v.status && compared == v.compared
                && history == Checked(old(history), old(live), v, candidate, settle)
      ensures !authority.Read? ==>
                && !compared && unchanged(this)
                && status == (if live.pinHash.Some? then PinBlocked else PinNotSet)
      ensures status in {Success, PinInvalid} ==> compared
      ensures compared ==> debit.Confirmed? && !noFlush
      ensures status == Success ==>
                && settle.Confirmed? && candidate == live.pinHash && candidate.Some? && visible == Holds(live)
      ensures live == old(live).(retries := live.retries)
      ensures !compared ==> history == old(history)
      ensures Rises(Effective(old(visible)), Effective(visible)) && Raises()
    {
      hide Storable, PolicyHolds, Bounded;
      var allowed := AttemptAllowed(live, mismatches);
      if allowed != Success {
        return allowed, false;
      }
      if noFlush {
        return Processing, false;
      }
      status, compared := CheckPin(candidate, debit, settle);
    }

    /** `store_new_pin`: any publication commits the new PIN. */
    method StoreNewPin(hash: Hash, length: nat, secrets: Secrets, w: Write) returns (status: Status)
      requires Valid() && authority.Read? && live.minLength <= length <= MAX_PIN_LENGTH
               && DEFAULT_MIN_PIN_LENGTH <= length
      requires SecretsOk(secrets)
      requires Storable(live)
      modifies this
      ensures Valid() && authority.Read?
      ensures Rises(Effective(old(visible)), Effective(visible)) && Raises()
      ensures status == Success ==>
                && live.pinHash == Some(hash) && live.retries == MAX_PIN_RETRIES && !live.forceChange
                && live.codePoints == length && visible == Holds(live)
      ensures status == Success && old(live).pinHash.Some? ==> Rotated(live, secrets)
      ensures status == Success && old(live).pinHash.None? ==>
                live.token1 == old(live).token1 && live.token2 == old(live).token2
      ensures status != Success ==> live == old(live) && visible == old(visible)
      ensures history == if status == Success then Then(old(history), Restored(hash)) else old(history)
      ensures status == Success <==> (old(live).pinHash.Some? ==> secrets.Some?) && !w.Rejected?
    {
      var r := live.(pinHash := Some(hash), retries := MAX_PIN_RETRIES, codePoints := length, forceChange := false);
      if live.pinHash.Some? {
        if secrets.None? {
          return Processing;
        }
        r := r.(token1 := Some(Token(secrets.value.0, false)), token2 := Some(Token(secrets.value.1, false)));
      }
      assert Storable(r);
      var saved := SavePinState(r, w);
      if saved.Rejected? {
        return Processing;
      }
      BoundedThen(history, Restored(hash));
      history := Then(history, Restored(hash));
      live, mismatches := r, 0;
      status := Success;
    }

    /** setPIN: only while no PIN is set. `complex` says the new PIN has a letter
        and a digit. */
    method SetPin(hash: Hash, length: nat, complex: bool, fault: Fault, random: Hash, noFlush: bool,
                  secrets: Secrets, w: Write) returns (status: Status)
      requires Valid() && length <= MAX_PIN_LENGTH
      requires SecretsOk(secrets)
      modifies this
      ensures Valid()
      ensures old(authority).Unreadable? ==> authority.Unreadable?
      ensures !authority.Read? ==> visible == old(visible) && candidates == old(candidates)
      ensures Rises(Effective(old(visible)), Effective(visible)) && Raises()
      ensures old(authority).Read? ==>
                (status == Success <==>
                   && old(live).pinHash.None? && old(live).minLength <= length && (old(live).complexity ==> complex)
                   && !noFlush && !w.Rejected?)
      ensures status == Success ==> live.pinHash == Some(hash) && live.codePoints == length
      ensures status != Success ==> visible == old(visible)
    {
      var ok := ReadIfUnread(fault, random);
      if !ok {
        return Processing;
      }
      if live.pinHash.Some? {
        return AuthInvalid;
      }
      if length < live.minLength || (live.complexity && !complex) {
        return PolicyViolation;
      }
      if noFlush || !authority.Read? {
        return Processing;
      }
      status := StoreNewPin(hash, length, secrets, w);
    }

    /** changePIN: the old PIN is checked first, at the price of a retry. */
    method ChangePin(candidate: Option<Hash>, hash: Hash, length: nat, complex: bool, fault: Fault, random: Hash,
                     noFlush: bool, debit: Write, settle: Write, secrets: Secrets, w: Write)
      returns (status: Status)
      requires Valid() && length <= MAX_PIN_LENGTH
      requires SecretsOk(secrets)
      modifies this
      ensures Valid()
      ensures old(authority).Unreadable? ==> authority.Unreadable?
      ensures !authority.Read? ==> visible == old(visible) && candidates == old(candidates)
      ensures Rises(Effective(old(visible)), Effective(visible)) && Raises()
      ensures status == Success ==>
                && live.pinHash == Some(hash) && !live.forceChange && live.minLength <= length && Rotated(live, secrets)
      ensures status == Success && old(authority).Read? ==>
                && candidate == old(live).pinHash && candidate.Some? && debit.Confirmed? && settle.Confirmed?
                && (old(live).forceChange ==> hash != candidate.value)
      ensures old(authority).Read? && fault.NoFault? && !noFlush ==>
                (status == Success <==>
                   && VerdictOf(old(live), old(mismatches), candidate, debit, settle).status == Success
                   && old(live).minLength <= length && (old(live).complexity ==> complex)
                   && (old(live).forceChange ==> hash != candidate.value) && secrets.Some? && !w.Rejected?)
    {
      var ok := ReadIfUnread(fault, random);
      if !ok {
        return Processing;
      }
      var allowed := AttemptAllowed(live, mismatches);
      if allowed != Success {
        return allowed;
      }
      ghost var compared;
      status, compared := VerifyPin(candidate, fault, random, noFlush, debit, settle);
      if status != Success {
        return;
      }
      if length < live.minLength || (live.complexity && !complex) {
        return PolicyViolation;
      }
      if live.forceChange && live.pinHash == Some(hash) {
        return PolicyViolation;
      }
      status := StoreNewPin(hash, length, secrets, w);
    }

    /** Publish a grant of the persistent token of one protocol. */
    method PublishGrant(secret: Option<seq<byte>>, first: bool, w: Write) returns (status: Status)
      requires Valid() && authority.Read? && live.pinHash.Some? && !live.forceChange && visible == Holds(live)
      requires secret.Some? ==> NonZero(secret.value)
      modifies this
      ensures Valid() && authority.Read?
      ensures live == old(live).(token1 := live.token1, token2 := live.token2) && visible == Holds(live)
      ensures Raises()
      ensures status == Success <==>
                w.Confirmed? && (secret.Some? || (if first then old(live).token1 else old(live).token2).Some?)
      ensures status == Success ==>
                w.Confirmed? && var t := if first then live.token1 else live.token2; t.Some? && t.value.granted
    {
      var held := if first then live.token1 else live.token2;
      if held.None? && secret.None? {
        return Processing;
      }
      var granted := Token(if held.Some? then held.value.secret else secret.value, true);
      var r := if first then live.(token1 := Some(granted)) else live.(token2 := Some(granted));
      assert Storable(r);
      var saved := SavePinState(r, w);
      if saved.Rejected? {
        return Processing;
      }
      live := r;
      status := if saved.Confirmed? then Success else Processing;
    }

    /** getPinUvAuthTokenUsingPinWithPermissions for pcmr: the persistent token
        is granted once its publication is confirmed, and never while the PIN
        must be changed. */
    method GrantPersistentToken(candidate: Option<Hash>, fault: Fault, random: Hash, noFlush: bool,
                                debit: Write, settle: Write, secret: Option<seq<byte>>, first: bool, w: Write)
      returns (status: Status)
      requires Valid() && (secret.Some? ==> NonZero(secret.value))
      modifies this
      ensures Valid()
      ensures old(authority).Unreadable? ==> authority.Unreadable?
      ensures !authority.Read? ==> visible == old(visible) && candidates == old(candidates)
      ensures Rises(Effective(old(visible)), Effective(visible)) && Raises()
      ensures status == Success ==>
                && candidate == live.pinHash && live.pinHash.Some? && !live.forceChange
                && w.Confirmed? && visible == Holds(live)
                && var t := if first then live.token1 else live.token2; t.Some? && t.value.granted
      ensures old(authority).Read? && fault.NoFault? && !noFlush ==>
                (status == Success <==>
                   && VerdictOf(old(live), old(mismatches), candidate, debit, settle).status == Success
                   && !old(live).forceChange && w.Confirmed?
                   && (secret.Some? || (if first then old(live).token1 else old(live).token2).Some?))
    {
      hide Storable, PolicyHolds;
      var ok := ReadIfUnread(fault, random);
      if !ok {
        return Processing;
      }
      var allowed := AttemptAllowed(live, mismatches);
      if allowed != Success {
        return allowed;
      }
      ghost var compared;
      status, compared := VerifyPin(candidate, fault, random, noFlush, debit, settle);
      if status != Success {
        return;
      }
      if live.forceChange {
        return PolicyViolation;
      }
      status := PublishGrant(secret, first, w);
    }

    // -------------------------------------------------------------- authenticatorConfig

    /** Whether the request needs a pinUvAuthParam: always once a PIN is set or
        user verification is required, but for turning alwaysUv off again
        without a PIN. */
    function NeedsToken(toggle: bool): bool
      reads this
    {
      (live.pinHash.Some? || live.alwaysUv) && !(toggle && live.pinHash.None? && live.alwaysUv)
    }

    lemma LiveStorable()
      requires Valid() && authority.Read?
      ensures Storable(live) && PolicyHolds(live)
    {
      assert Sound(visible);
    }

    method ToggleAlwaysUv(token: bool, fault: Fault, random: Hash, w: Write) returns (status: Status)
      requires Valid()
      modifies this
      ensures Valid()
      ensures old(authority).Unreadable? ==> authority.Unreadable?
      ensures !authority.Read? ==> visible == old(visible) && candidates == old(candidates)
      ensures Rises(Effective(old(visible)), Effective(visible)) && Raises()
      ensures status == Success && old(authority).Read? ==>
                && live == old(live).(alwaysUv := !old(live).alwaysUv) && visible == Holds(live)
                && (old(NeedsToken(true)) ==> token)
      ensures old(authority).Read? && fault.NoFault? ==>
                (status == Success <==> (old(NeedsToken(true)) ==> token) && !w.Rejected?)
      ensures status != Success ==> visible == old(visible)
      ensures status != Success && old(authority).Read? && !fault.Corrupt? ==> live == old(live)
    {
      hide Storable, PolicyHolds, Bounded;
      var ok := Refresh(fault, random);
      if !ok {
        return Processing;
      }
      if NeedsToken(true) && !token {
        return AuthInvalid;
      }
      if !authority.Read? {
        return Processing;
      }
      var r := live.(alwaysUv := !live.alwaysUv);
      LiveStorable();
      KeepsStorable(live, r);
      var saved := SavePinState(r, w);
      if saved.Rejected? {
        return Processing;
      }
      live := r;
      status := Success;
    }

    /** The request, or the policy it asks for, forces a change of the PIN. */
    static ghost predicate Forces(live: Record, params: MinPinLength)
    {
      || live.forceChange || params.force == Given(true)
      || (live.pinHash.Some? && params.complexity == Given(true) && !live.complexity)
      || (live.pinHash.Some? &&
          live.codePoints < if params.minimum.Given? then params.minimum.value else live.minLength)
    }

    /** The record a valid setMinPINLength request asks for. */
    static ghost predicate Requested(live: Record, params: MinPinLength, r: Record)
    {
      && r.minLength == (if params.minimum.Given? then params.minimum.value else live.minLength)
      && r.complexity == (live.complexity || params.complexity == Given(true))
      && r.forceChange == Forces(live, params)
      && r.rpIds == (if params.rpIds.Given? && params.rpIds.value != [] && TextIds(params.rpIds.value).Some?
                     then TextIds(params.rpIds.value).value else live.rpIds)
      && r == live.(minLength := r.minLength, complexity := r.complexity, forceChange := r.forceChange,
                    rpIds := r.rpIds)
    }

    /** At most 8 texts of at most 253 bytes. */
    static ghost predicate IdsFit(ids: seq<Option<RpId>>)
    {
      None !in ids && |ids| <= MAX_RP_IDS && forall rp :: Some(rp) in ids ==> |rp| <= MAX_RP_ID_LENGTH
    }

    /** The RP IDs that may learn the policy: at most 8 of at most 253 bytes; an
        empty list changes nothing. */
    method NewRpIds(arg: Param<seq<Option<RpId>>>) returns (status: Status, rpIds: seq<RpId>)
      ensures status == Success ==>
                && rpIds == (if arg.Given? && arg.value != [] && TextIds(arg.value).Some?
                             then TextIds(arg.value).value else live.rpIds)
                && (|live.rpIds| <= MAX_RP_IDS ==> |rpIds| <= MAX_RP_IDS)
                && forall rp :: rp in rpIds ==> rp in live.rpIds || |rp| <= MAX_RP_ID_LENGTH
      ensures status == UnexpectedType <==> arg.WrongType? || (arg.Given? && None in arg.value)
      ensures status == KeyStoreFull <==>
                && arg.Given? && None !in arg.value
                && (|arg.value| > MAX_RP_IDS || exists rp :: Some(rp) in arg.value && |rp| > MAX_RP_ID_LENGTH)
      ensures status == Success <==> arg.Absent? || (arg.Given? && IdsFit(arg.value))
      ensures status in {Success, UnexpectedType, KeyStoreFull}
    {
      rpIds := live.rpIds;
      if arg.WrongType? {
        return UnexpectedType, rpIds;
      }
      if arg.Absent? {
        return Success, rpIds;
      }
      TextIdsExact(arg.value);
      var ids := TextIds(arg.value);
      if ids.None? {
        return UnexpectedType, rpIds;
      }
      if |ids.value| > MAX_RP_IDS || exists rp :: rp in ids.value && |rp| > MAX_RP_ID_LENGTH {
        return KeyStoreFull, rpIds;
      }
      if ids.value != [] {
        rpIds := ids.value;
      }
      status := Success;
    }

    /** The requests that are accepted: the minimum does not fall, a change is
        forced only on a PIN that is set, and the RP IDs fit. */
    static ghost predicate Acceptable(live: Record, params: MinPinLength)
    {
      && !params.minimum.WrongType? && !params.force.WrongType?
      && !params.complexity.WrongType? && !params.rpIds.WrongType?
      && (params.minimum.Given? ==> live.minLength <= params.minimum.value)
      && (params.minimum.Given? ==> params.minimum.value <= MAX_PIN_LENGTH)
      && (params.force == Given(true) ==> live.pinHash.Some?)
      && (params.rpIds.Given? ==> IdsFit(params.rpIds.value))
    }

    /** Validate the minimum, the forced change and the complexity, in the
        order of the source. */
    method NewPolicy(params: MinPinLength) returns (status: Status, r: Record)
      ensures status == Success ==>
                && Requested(live, params.(rpIds := Absent), r) && live.minLength <= r.minLength <= MAX_PIN_LENGTH
                && (params.force == Given(true) ==> live.pinHash.Some?)
      ensures live.minLength <= MAX_PIN_LENGTH ==> (status == Success <==> Acceptable(live, params.(rpIds := Absent)))
      ensures status == PolicyViolation ==> params.minimum.Given? && 0 <= params.minimum.value < live.minLength
      ensures status == PinNotSet ==> params.force == Given(true) && live.pinHash.None?
    {
      r := live;
      if params.minimum.WrongType? {
        return UnexpectedType, r;
      }
      var minimum: int := if params.minimum.Given? then params.minimum.value else live.minLength;
      if minimum < 0 {
        return InvalidParameter, r;
      }
      if minimum < live.minLength {
        return PolicyViolation, r;
      }
      if minimum > MAX_PIN_LENGTH {
        return InvalidParameter, r;
      }
      if params.force.WrongType? {
        return UnexpectedType, r;
      }
      if params.force == Given(true) {
        if live.pinHash.None? {
          return PinNotSet, r;
        }
        r := r.(forceChange := true);
      }
      if params.complexity.WrongType? {
        return UnexpectedType, r;
      }
      if params.complexity == Given(true) && !r.complexity {
        r := r.(complexity := true);
        if live.pinHash.Some? {
          r := r.(forceChange := true);
        }
      }
      if live.pinHash.Some? && r.codePoints < minimum {
        r := r.(forceChange := true);
      }
      r := r.(minLength := minimum);
      status := Success;
    }

    /** Validate every requested change, the RP IDs last. */
    method Validate(params: MinPinLength) returns (status: Status, r: Record)
      ensures status == Success ==>
                && Requested(live, params, r) && live.minLength <= r.minLength <= MAX_PIN_LENGTH
                && (params.force == Given(true) ==> live.pinHash.Some?)
                && (|live.rpIds| <= MAX_RP_IDS ==> |r.rpIds| <= MAX_RP_IDS)
                && forall rp :: rp in r.rpIds ==> rp in live.rpIds || |rp| <= MAX_RP_ID_LENGTH
      ensures live.minLength <= MAX_PIN_LENGTH ==> (status == Success <==> Acceptable(live, params))
      ensures status == PolicyViolation ==> params.minimum.Given? && 0 <= params.minimum.value < live.minLength
      ensures status == PinNotSet ==> params.force == Given(true) && live.pinHash.None?
    {
      hide TextIds, IdsFit;
      status, r := NewPolicy(params);
      if status != Success {
        return;
      }
      var ids;
      status, ids := NewRpIds(params.rpIds);
      if status != Success {
        return;
      }
      r := r.(rpIds := ids);
    }

    /** setMinPINLength: one write of a policy that only gets stricter; a forced
        change takes every persistent grant away. */
    method SetMinPinLength(token: bool, params: MinPinLength, fault: Fault, random: Hash,
                           secrets: Secrets, w: Write) returns (status: Status)
      requires Valid()
      requires SecretsOk(secrets)
      modifies this
      ensures Valid()
      ensures old(authority).Unreadable? ==> authority.Unreadable?
      ensures !authority.Read? ==> visible == old(visible) && candidates == old(candidates)
      ensures Rises(Effective(old(visible)), Effective(visible)) && Raises()
      ensures status == Success && old(authority).Read? ==>
                && visible == Holds(live) && (old(NeedsToken(false)) ==> token)
                && Requested(old(live), params, live.(token1 := old(live).token1, token2 := old(live).token2))
                && (if live.forceChange then Rotated(live, secrets)
                    else live.token1 == old(live).token1 && live.token2 == old(live).token2)
      ensures status == Success ==> candidates == if w.Confirmed? then {visible} else old(candidates) + {visible}
      ensures status == Success ==> (Floor(live) <==> w.Confirmed? || AllRise(live, old(candidates)))
      ensures old(authority).Read? && fault.NoFault? ==>
                (status == Success <==>
                   && (old(NeedsToken(false)) ==> token) && Acceptable(old(live), params)
                   && (Forces(old(live), params) ==> secrets.Some?) && !w.Rejected?)
      ensures status != Success ==> visible == old(visible)
      ensures status != Success && old(authority).Read? && !fault.Corrupt? ==> live == old(live)
    {
      hide Storable, PolicyHolds, Requested, Forces, Acceptable, Rotated;
      var ok := Refresh(fault, random);
      if !ok {
        return Processing;
      }
      if NeedsToken(false) && !token {
        return AuthInvalid;
      }
      status := ApplyPolicy(params, secrets, w);
    }

    /** The request once it is authorized: validated, then adopted whole. */
    method ApplyPolicy(params: MinPinLength, secrets: Secrets, w: Write) returns (status: Status)
      requires Valid()
      requires SecretsOk(secrets)
      modifies this
      ensures Valid() && authority == old(authority)
      ensures !authority.Read? ==> candidates == old(candidates)
      ensures Rises(Effective(old(visible)), Effective(visible)) && Raises()
      ensures status == Success ==>
                && authority.Read? && visible == Holds(live)
                && Requested(old(live), params, live.(token1 := old(live).token1, token2 := old(live).token2))
                && (if live.forceChange then Rotated(live, secrets)
                    else live.token1 == old(live).token1 && live.token2 == old(live).token2)
      ensures status == Success ==> candidates == if w.Confirmed? then {visible} else old(candidates) + {visible}
      ensures authority.Read? ==>
                (status == Success <==>
                   && Acceptable(old(live), params) && (Forces(old(live), params) ==> secrets.Some?) && !w.Rejected?)
      ensures status != Success ==> live == old(live) && visible == old(visible)
    {
      var r;
      status, r := Validate(params);
      if status != Success {
        return;
      }
      if r.forceChange {
        if secrets.None? {
          return Processing;
        }
        r := r.(token1 := Some(Token(secrets.value.0, false)), token2 := Some(Token(secrets.value.1, false)));
      }
      status := AdoptPolicy(r, w);
    }

    /** The one write of a validated policy; it is adopted once published. */
    method AdoptPolicy(r: Record, w: Write) returns (status: Status)
      requires Valid() && (authority.Read? ==> Storable(r) && PolicyHolds(r) && Rises(live, r))
      requires r.pinHash == live.pinHash && r.retries == live.retries
      modifies this
      ensures Valid() && authority == old(authority)
      ensures !authority.Read? ==> candidates == old(candidates)
      ensures Rises(Effective(old(visible)), Effective(visible)) && Raises()
      ensures status == Success <==> authority.Read? && !w.Rejected?
      ensures status == Success ==> live == r && visible == Holds(r)
      ensures status == Success ==> candidates == if w.Confirmed? then {visible} else old(candidates) + {visible}
      ensures status != Success ==> live == old(live) && visible == old(visible)
    {
      if !authority.Read? {
        return Processing;
      }
      var saved := SavePinState(r, w);
      if saved.Rejected? {
        return Processing;
      }
      live := r;
      status := Success;
    }

    // -------------------------------------------------------------- reset and power

    /** authenticatorReset, user presence given. A failed clear may have changed
        the store: the engine rereads it, and closes if it cannot. */
    method Reset(clear: Clear, fault: Fault, random: Hash) returns (status: Status)
      requires Valid()
      requires clear.Failed? ==> clear.after in {visible, Holds(DEFAULT), Damaged}
      modifies this
      ensures Valid()
      ensures status == Success <==> clear.Cleared?
      ensures status == Success ==> authority.Read? && live == DEFAULT && visible == Holds(DEFAULT) && mismatches == 0
      ensures status != Success && old(authority).Unreadable? ==> authority.Unreadable?
      ensures status != Success && fault.Io? && !old(authority).Unreadable? ==> authority.Unread?
    {
      match clear
      case Cleared(confirmed) =>
        WriteStore(DEFAULT, if confirmed then Confirmed else Unconfirmed);
        live, mismatches, authority := DEFAULT, 0, Read;
        status := Success;
      case Failed(after) =>
        visible := after;
        candidates := candidates + {after};
        Reconcile(fault, random);
        status := Processing;
    }

    /** `reconcile_persistent_authority`: what the engine holds may now be wider
        than what is stored, so an I/O error does not keep it. */
    method Reconcile(fault: Fault, random: Hash)
      requires Reconcilable()
      modifies this`live, this`authority
      ensures Valid()
      ensures old(authority).Unreadable? ==> authority.Unreadable?
      ensures fault.Io? && !old(authority).Unreadable? ==> authority.Unread?
    {
      var ok := Refresh(fault, random);
      if !ok && authority.Read? {
        live := DEFAULT.(pinHash := Some(random), retries := 0, alwaysUv := true);
        authority := Unread;
      }
    }

    /** A restart reads the store again; a power loss may first roll it back to
        anything not ruled out by a confirmed write. */
    method Restart(found: Stored, fault: Fault, random: Hash)
      requires Valid() && found in candidates
      modifies this
      ensures Valid() && visible == found && mismatches == 0 && history == old(history) && candidates == old(candidates)
      ensures authority.Read? <==> fault.NoFault? && !found.Damaged?
    {
      visible, mismatches := found, 0;
      Load(fault, random);
    }

    // -------------------------------------------------------------- runs

    /** One command. Only a reset, or a power loss that leaves an earlier state
        of the store, may take the policy back; only a reset or a restart ends
        an unreadable state. */
    method Step(c: Command)
      requires Valid() && c.WellFormed()
      modifies this
      ensures Valid()
      ensures !c.Clears? ==> Raises()
      ensures !c.Clears? && !c.LosesPower() ==> Rises(Effective(old(visible)), Effective(visible))
      ensures !c.Clears? && !c.Restarts? ==>
                && (old(authority).Unreadable? ==> authority.Unreadable?)
                && (!authority.Read? ==> visible == old(visible) && candidates == old(candidates))
    {
      var status;
      ghost var compared;
      match c
      case Verifies(candidate, fault, random, noFlush, debit, settle) =>
        status, compared := VerifyPin(candidate, fault, random, noFlush, debit, settle);
      case Sets(hash, length, complex, fault, random, noFlush, secrets, w) =>
        status := SetPin(hash, length, complex, fault, random, noFlush, secrets, w);
      case Changes(candidate, hash, length, complex, fault, random, noFlush, debit, settle, secrets, w) =>
        status := ChangePin(candidate, hash, length, complex, fault, random, noFlush, debit, settle, secrets, w);
      case Grants(candidate, fault, random, noFlush, debit, settle, secret, first, w) =>
        status := GrantPersistentToken(candidate, fault, random, noFlush, debit, settle, secret, first, w);
      case Toggles(token, fault, random, w) => status := ToggleAlwaysUv(token, fault, random, w);
      case Configures(token, params, fault, random, secrets, w) =>
        status := SetMinPinLength(token, params, fault, random, secrets, w);
      case Clears(clear, fault, random) =>
        if clear.Cleared? || clear.after in {visible, Holds(DEFAULT), Damaged} {
          status := Reset(clear, fault, random);
        }
      case Restarts(lost, fault, random) =>
        if lost.None? || lost.value in candidates {
          Restart(if lost.Some? then lost.value else visible, fault, random);
        }
    }

    /** Any commands, over any outcomes of the store: the live state is always
        the stored one or closed, and no PIN is ever guessed wrong more than 8
        times between two restorations of its retries. Without a reset, a policy
        that every state the store may hold has reached is never lost again. */
    method Run(commands: seq<Command>, ghost base: Record)
      requires Valid() && forall c :: c in commands ==> c.WellFormed()
      modifies this
      ensures Valid()
      ensures forall h :: Streak(history, h) <= MAX_PIN_RETRIES
      ensures forall c: Stored :: c in candidates && c.Holds? && c.record.pinHash.Some? ==>
                Streak(history, c.record.pinHash.value) + c.record.retries <= MAX_PIN_RETRIES
      ensures authority.Read? ==> PolicyHolds(live)
      ensures (forall c :: c in commands ==> !c.Clears?) && old(Floor(base)) ==>
                Floor(base) && (authority.Read? ==> Rises(base, live))
      ensures (forall c :: c in commands ==> !c.Clears? && !c.LosesPower()) ==>
                Rises(Effective(old(visible)), Effective(visible))
      ensures (forall c :: c in commands ==> !c.Clears? && !c.Restarts?) ==>
                (old(authority).Unreadable? ==> authority.Unreadable? && visible == old(visible))
    {
      hide Storable, PolicyHolds;
      ghost var kept := forall c :: c in commands ==> !c.Clears?;
      ghost var powered := forall c :: c in commands ==> !c.Clears? && !c.LosesPower();
      ghost var steady := forall c :: c in commands ==> !c.Clears? && !c.Restarts?;
      for i := 0 to |commands|
        invariant Valid()
        invariant kept && old(Floor(base)) ==> Floor(base)
        invariant powered ==> Rises(Effective(old(visible)), Effective(visible))
        invariant steady && old(authority).Unreadable? ==> authority.Unreadable? && visible == old(visible)
      {
        assert commands[i] in commands;
        Step(commands[i]);
      }
      assert Bounded(history);
      DefaultPolicy();
    }

    /** A policy whose write was confirmed stands until a reset, through every
        failing write, restart and power loss. */
    method ConfirmedPolicyStands(token: bool, params: MinPinLength, fault: Fault, random: Hash,
                                 secrets: Secrets, w: Write,
                                 commands: seq<Command>) returns (status: Status, policy: Record)
      requires Valid() && SecretsOk(secrets)
      requires forall c :: c in commands ==> c.WellFormed() && !c.Clears?
      modifies this
      ensures Valid()
      ensures status == Success && old(authority).Read? ==>
                Requested(old(live), params, policy.(token1 := old(live).token1, token2 := old(live).token2))
      ensures status == Success && w.Confirmed? && authority.Read? ==> Rises(policy, live)
    {
      status := SetMinPinLength(token, params, fault, random, secrets, w);
      policy := live;
      Run(commands, policy);
    }

    /** And any other may fall: a power loss that leaves a laxer state, if the
        store may hold one, is all it takes. */
    method LaxerPolicyFound(s: Stored, random: Hash, ghost base: Record)
      requires Valid() && s in candidates && !s.Damaged? && !Rises(base, Effective(s))
      modifies this
      ensures Valid() && authority.Read? && !Rises(base, live)
    {
      Restart(s, NoFault, random);
    }
  }

  /** A power loss can take a policy back that was published without
      confirmation: a minimum of 6 set on a new engine is 4 again. Once the
      write is confirmed, what the store shows is all a power loss can leave. */
  method UnconfirmedPolicyLost() returns (engine: Engine, raised: nat)
    ensures fresh(engine) && engine.Valid() && raised == 6 && engine.live.minLength == 4
  {
    engine := new Engine();
    var request := MinPinLength(Given(6), Absent, Absent, Absent);
    var status := engine.SetMinPinLength(true, request, NoFault, [], None, Unconfirmed);
    raised := engine.live.minLength;
    engine.Restart(Missing, NoFault, []);
  }
}
