/** authenticatorCredentialManagement (section 6.8 of CTAP 2.3): who may
    enumerate credentials, and what an enumeration returns. */
module Management {
  import opened Bytes
  import opened Order
  import opened Tokens

  type Id = seq<byte>

  datatype Family = Standard | Preview
  datatype Mode = CmPermission | PersistentReadOnly | LegacyPreview
  /** What authenticated the begin of an enumeration: an issuance of a
      transient token, or a generation of the persistent ones. */
  datatype Auth = Auth(family: Family, token: nat, protocol: nat, mode: Mode)

  datatype Persistent = Persistent(secret: seq<byte>, granted: bool)
  datatype Credential = Credential(id: Id, rp: RpId, user: seq<byte>, name: seq<byte>)

  datatype Status =
    | Success | NotAllowed | NoCredentials | AuthInvalid | PuatRequired | MissingParameter | InvalidParameter
    | Processing | InvalidCbor

  datatype Sub = Metadata | RpsBegin | RpsNext | CredsBegin | CredsNext | Delete | Update
  datatype Request =
    | Malformed
    | Request(sub: Sub, raw: seq<byte>, rpHash: Option<seq<byte>>, target: Option<Id>, param: Option<seq<byte>>,
              protocol: Option<nat>, user: seq<byte>, name: seq<byte>)
  datatype Answer = Nothing | Rp(rp: RpId) | Cred(id: Id)

  /** How the PIN state rereads before an authenticated step. */
  datatype Refresh = Fine | Fails | Closes | Adopts(persistent: map<nat, Persistent>, changedPin: bool)
  /** Which store calls fail. */
  datatype Faults = Faults(list: bool, get: set<Id>, write: Write)
  /** A write may fail before or after it was published. */
  datatype Write = Works | Before | After

  /** What the engine held when an enumeration began. */
  datatype Began = Began(
    token: Option<InUse>, issued: nat, persistent: map<nat, Persistent>, generation: nat, missed: set<Id>)

  /** The store's listing: without the records it finds corrupt. */
  function Listing(credentials: seq<Credential>, discoverable: Id -> bool, corrupt: set<Id>): seq<Credential> {
    if credentials == [] then []
    else (if discoverable(credentials[0].id) && credentials[0].id !in corrupt then [credentials[0]] else [])
         + Listing(credentials[1..], discoverable, corrupt)
  }

  function Rps(credentials: seq<Credential>): (r: seq<RpId>)
    ensures |r| == |credentials| && forall i :: 0 <= i < |r| ==> r[i] == credentials[i].rp
  {
    seq(|credentials|, i requires 0 <= i < |credentials| => credentials[i].rp)
  }

  function Matching(credentials: seq<Credential>, hash: RpId -> seq<byte>, rpHash: seq<byte>): seq<Id> {
    if credentials == [] then []
    else (if hash(credentials[0].rp) == rpHash then [credentials[0].id] else [])
         + Matching(credentials[1..], hash, rpHash)
  }

  ghost predicate DistinctIds(credentials: seq<Credential>) {
    forall i, j :: 0 <= i < j < |credentials| ==> credentials[i].id != credentials[j].id
  }

  ghost predicate Distinct<T>(s: seq<T>) {
    forall i, j :: 0 <= i < j < |s| ==> s[i] != s[j]
  }

  lemma {:induction false} ListingExact(credentials: seq<Credential>, discoverable: Id -> bool, corrupt: set<Id>)
    ensures forall c :: c in Listing(credentials, discoverable, corrupt) <==>
              c in credentials && discoverable(c.id) && c.id !in corrupt
    ensures DistinctIds(credentials) ==> DistinctIds(Listing(credentials, discoverable, corrupt))
  {
    if credentials != [] {
      ListingExact(credentials[1..], discoverable, corrupt);
      assert credentials == [credentials[0]] + credentials[1..];
    }
  }

  lemma {:induction false} MatchingExact(credentials: seq<Credential>, hash: RpId -> seq<byte>, rpHash: seq<byte>)
    ensures forall id :: id in Matching(credentials, hash, rpHash) <==>
              exists c :: c in credentials && c.id == id && hash(c.rp) == rpHash
    ensures DistinctIds(credentials) ==> Distinct(Matching(credentials, hash, rpHash))
  {
    if credentials != [] {
      MatchingExact(credentials[1..], hash, rpHash);
      assert credentials == [credentials[0]] + credentials[1..];
      if DistinctIds(credentials) {
        assert forall c :: c in credentials[1..] ==> c.id != credentials[0].id;
        assert credentials[0].id !in Matching(credentials[1..], hash, rpHash);
      }
    }
  }

  lemma {:induction false} FindExact(credentials: seq<Credential>, id: Id)
    ensures Find(credentials, id).Some? <==> exists c :: c in credentials && c.id == id
    ensures Find(credentials, id).Some? ==>
              Find(credentials, id).value in credentials && Find(credentials, id).value.id == id
  {
    if credentials != [] {
      FindExact(credentials[1..], id);
      assert credentials == [credentials[0]] + credentials[1..];
    }
  }

  function Remove(credentials: seq<Credential>, id: Id): seq<Credential> {
    if credentials == [] then []
    else (if credentials[0].id == id then [] else [credentials[0]]) + Remove(credentials[1..], id)
  }

  lemma {:induction false} RemoveExact(credentials: seq<Credential>, id: Id)
    ensures forall c :: c in Remove(credentials, id) <==> c in credentials && c.id != id
    ensures DistinctIds(credentials) ==> DistinctIds(Remove(credentials, id))
  {
    if credentials != [] {
      RemoveExact(credentials[1..], id);
      assert credentials == [credentials[0]] + credentials[1..];
    }
  }

  function Find(credentials: seq<Credential>, id: Id): Option<Credential> {
    if credentials == [] then None
    else if credentials[0].id == id then Some(credentials[0])
    else Find(credentials[1..], id)
  }

  /** `CredentialManagementState`. */
  datatype Cursors = Cursors(
    rpList: seq<RpId>, rpIndex: nat, rpAuth: Option<Auth>, family: Option<Family>, context: Option<Auth>,
    credList: seq<Id>, credIndex: nat, credAuth: Option<Auth>, credRpHash: seq<byte>)
  {
    function ResetRps(): Cursors {
      this.(rpList := [], rpIndex := 0, rpAuth := None)
    }

    function ResetCredentials(): Cursors {
      this.(credList := [], credIndex := 0, credAuth := None, credRpHash := [])
    }
  }

  const NEW := Cursors([], 0, None, None, None, [], 0, None, [])

  /** What each enumeration has returned since its begin, by value or by
      position, and what it began under. */
  datatype Trace = Trace(
    rps: seq<RpId>, rpBegan: Began, positions: seq<nat>, skipped: set<nat>, credBegan: Began)

  /** The grant an enumeration began under can only have been lost since: a
      generation stands for the same persistent tokens, and the token with the
      same number is the same issuance with no wider powers. */
  ghost predicate Kept(auth: Auth, began: Began, now: Began)
  {
    if auth.mode.PersistentReadOnly? then
      && auth.token == began.generation <= now.generation
      && (now.generation == began.generation ==> now.persistent == began.persistent)
      && auth.protocol in began.persistent && began.persistent[auth.protocol].granted
    else
      && began.token.Some? && began.token.value.id == auth.token <= began.issued <= now.issued
      && Narrows(began.token, began.issued, now.token)
  }

  /** The RPs of the snapshot in order, and the first of them returned. */
  ghost predicate RpCursor(list: seq<RpId>, index: nat, yielded: seq<RpId>, listing: seq<Credential>) {
    list == SortDedup(Rps(listing)) && 1 <= index <= |list| && yielded == list[..index]
  }

  /** The positions that were returned: each once, in order, none past the
      next one, and every one before it that was not skipped. */
  ghost predicate CredCursor(index: nat, positions: seq<nat>, skipped: set<nat>) {
    && (forall i, j :: 0 <= i < j < |positions| ==> positions[i] < positions[j])
    && (forall i :: 0 <= i < |positions| ==> positions[i] < index)
    && forall k :: 0 <= k < index ==> k in positions || k in skipped
  }

  lemma CredCursorAdvances(index: nat, positions: seq<nat>, skipped: set<nat>)
    requires CredCursor(index, positions, skipped)
    ensures CredCursor(index + 1, positions + [index], skipped)
    ensures CredCursor(index + 1, positions, skipped + {index})
  {
  }

  /** An RP enumeration is of the RPs there are. */
  ghost predicate RpsOk(c: Cursors, t: Trace, credentials: seq<Credential>, discoverable: Id -> bool, now: Began) {
    c.rpAuth.Some? ==>
      && RpCursor(c.rpList, c.rpIndex, t.rps, Listing(credentials, discoverable, t.rpBegan.missed))
      && Kept(c.rpAuth.value, t.rpBegan, now)
  }

  /** A credential enumeration is of the credentials there are. */
  ghost predicate CredsOk(c: Cursors, t: Trace, credentials: seq<Credential>, discoverable: Id -> bool,
                          hash: RpId -> seq<byte>, now: Began)
  {
    c.credAuth.Some? ==>
      && c.credList == Matching(Listing(credentials, discoverable, t.credBegan.missed), hash, c.credRpHash)
      && 1 <= c.credIndex <= |c.credList| && CredCursor(c.credIndex, t.positions, t.skipped)
      && Kept(c.credAuth.value, t.credBegan, now)
  }

  /** A credential enumeration went on to `id`. */
  predicate Advanced(c: Cursors, t: Trace, c': Cursors, t': Trace, id: Id) {
    && c' == c.(credIndex := c'.credIndex) && c.credIndex < c'.credIndex <= |c.credList|
    && id == c.credList[c'.credIndex - 1]
    && t' == t.(positions := t.positions + [c'.credIndex - 1], skipped := t'.skipped)
  }

  /** A next request carries no MAC: the grant that authenticated its begin
      must still be there, in full. */
  predicate Continues(auth: Auth, family: Family, rpHash: Option<seq<byte>>,
                      hash: RpId -> seq<byte>, now: Began, time: nat) {
    && auth.family == family
    && if auth.mode.PersistentReadOnly? then
         && family.Standard? && now.generation == auth.token
         && auth.protocol in now.persistent && now.persistent[auth.protocol].granted
       else
         && now.token.Some? && var t := now.token.value;
         && t.id == auth.token && Live(t, time) && t.verified
         && if auth.mode.LegacyPreview? then
              family.Preview? && t.origin == Some(LegacyGetPinToken) && t.rpId.None?
            else
              Cm in t.permissions && (t.rpId.Some? ==> rpHash == Some(hash(t.rpId.value)))
  }

  /** What lets an enumeration go on is then the very grant it began under:
      the same issuance, whose powers it had from the start. */
  lemma ContinuesUnderItsGrant(auth: Auth, began: Began, family: Family, rpHash: Option<seq<byte>>,
                               hash: RpId -> seq<byte>, now: Began, time: nat)
    requires Kept(auth, began, now) && Continues(auth, family, rpHash, hash, now, time)
    ensures if auth.mode.PersistentReadOnly? then now.persistent == began.persistent
            else && began.token.Some? && began.token.value.id == now.token.value.id
                 && began.token.value.value == now.token.value.value && began.token.value.verified
                 && now.token.value.permissions <= began.token.value.permissions
                 && Since(time, began.token.value.startedAt) < MAX_USAGE_TIME_PERIOD
  {
  }

  /** The same token, but for its userPresent flag. */
  predicate SameToken(a: Option<InUse>, b: Option<InUse>) {
    a.Some? && b.Some? && b.value == a.value.(present := b.value.present)
  }

  class Manager {
    const hash: RpId -> seq<byte>
    const discoverable: Id -> bool
    const mac: (nat, seq<byte>, seq<byte>) -> seq<byte>
    /** How many credentials the store takes. */
    const maximum: nat

    // The PIN/UV auth state.
    const tokens: TokenState
    var now: nat
    var persistent: map<nat, Persistent>
    var generation: nat

    // The store, most recent first, and the records it finds corrupt.
    var credentials: seq<Credential>
    var corrupt: set<Id>

    var cursors: Cursors
    ghost var trace: Trace

    ghost function Now(): Began
      reads this, tokens
    {
      Began(tokens.inUse, tokens.issued, persistent, generation, corrupt)
    }

    ghost predicate Valid()
      reads this, tokens
    {
      && tokens.Valid() && DistinctIds(credentials)
      && RpsOk(cursors, trace, credentials, discoverable, Now())
      && CredsOk(cursors, trace, credentials, discoverable, hash, Now())
    }

    constructor (hash: RpId -> seq<byte>, discoverable: Id -> bool, mac: (nat, seq<byte>, seq<byte>) -> seq<byte>,
                 maximum: nat)
      ensures Valid() && fresh(tokens) && cursors == NEW
    {
      this.hash, this.discoverable, this.mac, this.maximum := hash, discoverable, mac, maximum;
      this.tokens := new TokenState();
      now, persistent, generation, credentials, corrupt := 0, map[], 0, [], {};
      cursors := NEW;
    }

    /** `cm_continuation_authorized`. */
    method ContinuationAuthorized(auth: Option<Auth>, family: Family, rpHash: Option<seq<byte>>) returns (ok: bool)
      requires Valid()
      modifies tokens`inUse
      ensures Valid()
      ensures ok <==> auth.Some? && Continues(auth.value, family, rpHash, hash, Now(), now)
      ensures Narrows(old(tokens.inUse), tokens.issued, tokens.inUse)
      ensures old(tokens.inUse).Some? && Live(old(tokens.inUse).value, now) ==>
                SameToken(old(tokens.inUse), tokens.inUse)
    {
      if auth.None? {
        return false;
      }
      var a := auth.value;
      if a.mode.PersistentReadOnly? {
        return family.Standard? && a.family == family && generation == a.token
            && a.protocol in persistent && persistent[a.protocol].granted;
      }
      Observe();
      if a.family != family || tokens.inUse.None? || tokens.inUse.value.id != a.token || !tokens.inUse.value.verified {
        return false;
      }
      var t := tokens.inUse.value;
      if a.mode.LegacyPreview? {
        return family.Preview? && t.origin == Some(LegacyGetPinToken) && t.rpId.None?;
      }
      ok := Cm in t.permissions && (t.rpId.None? || rpHash == Some(hash(t.rpId.value)));
    }

    method Observe()
      requires Valid()
      modifies tokens`inUse
      ensures Valid() && Narrows(old(tokens.inUse), tokens.issued, tokens.inUse)
      ensures tokens.inUse.Some? <==> old(tokens.inUse).Some? && Live(old(tokens.inUse).value, now)
      ensures tokens.inUse.Some? ==> SameToken(old(tokens.inUse), tokens.inUse)
    {
      hide RpCursor, CredCursor, Kept, Listing, Matching, DistinctIds;
      ghost var before := Now();
      tokens.Observe(now);
      CursorsKept(before);
    }

    /** A token that only narrows leaves the enumerations as they were. */
    lemma CursorsKept(before: Began)
      requires before.issued <= tokens.issued && before.generation <= generation
      requires before.generation == generation ==> before.persistent == persistent
      requires Narrows(before.token, before.issued, tokens.inUse)
      requires RpsOk(cursors, trace, credentials, discoverable, before)
      requires CredsOk(cursors, trace, credentials, discoverable, hash, before)
      ensures RpsOk(cursors, trace, credentials, discoverable, Now())
      ensures CredsOk(cursors, trace, credentials, discoverable, hash, Now())
    {
      hide RpCursor, CredCursor, Listing, Matching;
      if cursors.rpAuth.Some? {
        KeptKept(cursors.rpAuth.value, trace.rpBegan, before, Now());
      }
      if cursors.credAuth.Some? {
        KeptKept(cursors.credAuth.value, trace.credBegan, before, Now());
      }
    }

    /** enumerateRPsGetNextRP. */
    method NextRp(family: Family) returns (status: Status, rp: RpId)
      requires Valid()
      modifies this`cursors, this`trace, tokens`inUse
      ensures Valid() && status in {Success, NotAllowed}
      ensures Narrows(old(tokens.inUse), tokens.issued, tokens.inUse)
      ensures status == Success <==>
                && old(cursors).rpAuth.Some? && Continues(old(cursors).rpAuth.value, family, None, hash, Now(), now)
                && old(cursors).rpIndex < |old(cursors).rpList|
      ensures status == Success ==>
                && rp == old(cursors).rpList[old(cursors).rpIndex] && trace == old(trace).(rps := old(trace).rps + [rp])
                && cursors == old(cursors).(rpIndex := old(cursors).rpIndex + 1)
      ensures status != Success ==> cursors == old(cursors).ResetRps() && trace == old(trace)
      ensures old(tokens.inUse).Some? && Live(old(tokens.inUse).value, now) ==>
                SameToken(old(tokens.inUse), tokens.inUse)
    {
      hide CredCursor, Kept, Listing, Matching, DistinctIds, Continues, SortDedup, Narrows;
      rp := [];
      var ok := ContinuationAuthorized(cursors.rpAuth, family, None);
      if !ok || cursors.rpIndex >= |cursors.rpList| {
        cursors := cursors.ResetRps();
        return NotAllowed, rp;
      }
      rp := cursors.rpList[cursors.rpIndex];
      cursors := cursors.(rpIndex := cursors.rpIndex + 1);
      trace := trace.(rps := trace.rps + [rp]);
      status := Success;
    }

    /** enumerateCredentialsGetNextCredential: a corrupt credential is skipped. */
    method NextCredential(family: Family, faults: Faults) returns (status: Status, id: Id)
      requires Valid()
      modifies this`cursors, this`trace, tokens`inUse
      ensures Valid() && status in {Success, NotAllowed, Processing}
      ensures Narrows(old(tokens.inUse), tokens.issued, tokens.inUse)
      ensures status == Success ==>
                && old(cursors).credAuth.Some?
                && Continues(old(cursors).credAuth.value, family, Some(old(cursors).credRpHash), hash, Now(), now)
                && Advanced(old(cursors), old(trace), cursors, trace, id)
                && Find(credentials, id).Some? && id !in corrupt && id !in faults.get
                && Corrupted(cursors.credList[old(cursors).credIndex..cursors.credIndex - 1])
      ensures status == NotAllowed ==> cursors == old(cursors).ResetCredentials()
      ensures status == Processing ==>
                && old(cursors).credAuth.Some? && cursors == old(cursors).(credIndex := cursors.credIndex)
                && id in faults.get && id in cursors.credList
      ensures old(tokens.inUse).Some? && Live(old(tokens.inUse).value, now) ==>
                SameToken(old(tokens.inUse), tokens.inUse)
      ensures (&& old(cursors).credAuth.Some? && status == NotAllowed
               && Continues(old(cursors).credAuth.value, family, Some(old(cursors).credRpHash), hash, Now(), now)) ==>
                Corrupted(old(cursors).credList[old(cursors).credIndex..])
    {
      hide RpCursor, CredCursor, Kept, Listing, Matching, DistinctIds, Continues, Narrows, Find;
      id := [];
      var ok := ContinuationAuthorized(cursors.credAuth, family, Some(cursors.credRpHash));
      if !ok {
        cursors := cursors.ResetCredentials();
        return NotAllowed, id;
      }
      status, id := ReadNext(faults);
      if status == NotAllowed {
        cursors := cursors.ResetCredentials();
      }
    }

    /** There, but corrupt. */
    ghost predicate Corrupted(ids: seq<Id>)
      reads this`credentials, this`corrupt
    {
      forall id :: id in ids ==> Find(credentials, id).Some? && id in corrupt
    }

    ghost predicate Skipped(ids: seq<Id>)
      reads this`credentials, this`corrupt
    {
      forall id :: id in ids ==> Find(credentials, id).None? || id in corrupt
    }

    /** Nothing on a list has been deleted since, as a deletion ends the
        enumeration: what is skipped is corrupt. */
    lemma OnlyCorrupt(ids: seq<Id>)
      requires CredsOk(cursors, trace, credentials, discoverable, hash, Now()) && cursors.credAuth.Some?
      requires Skipped(ids) && forall id :: id in ids ==> id in cursors.credList
      ensures Corrupted(ids)
    {
      hide RpCursor, CredCursor, Kept, DistinctIds, Listing, Matching, Find;
      var listing := Listing(credentials, discoverable, trace.credBegan.missed);
      ListingExact(credentials, discoverable, trace.credBegan.missed);
      MatchingExact(listing, hash, cursors.credRpHash);
      forall id | id in ids ensures Find(credentials, id).Some? {
        FindExact(credentials, id);
      }
    }

    lemma SliceCorrupt(from: nat, next: nat)
      requires Valid() && cursors.credAuth.Some? && from <= next <= |cursors.credList|
      requires Skipped(cursors.credList[from..next])
      ensures Corrupted(cursors.credList[from..next])
    {
      hide RpCursor, CredCursor, Kept, DistinctIds, Listing, Matching, Find, Skipped, Corrupted;
      OnlyCorrupt(cursors.credList[from..next]);
    }

    lemma NothingSkipped()
      requires Valid() && cursors.credAuth.Some?
      ensures cursors.credIndex <= |cursors.credList|
      ensures Skipped(cursors.credList[cursors.credIndex..cursors.credIndex])
    {
      hide RpCursor, CredCursor, Kept, DistinctIds, Listing, Matching, Find;
    }

    lemma SkippedMore(ids: seq<Id>, from: nat, next: nat)
      requires from <= next < |ids| && Skipped(ids[from..next])
      requires Find(credentials, ids[next]).None? || ids[next] in corrupt
      ensures Skipped(ids[from..next + 1])
    {
      hide Find;
      assert ids[from..next + 1] == ids[from..next] + [ids[next]];
    }

    /** Read the credential at the cursor and move on. */
    method ReadOne(faults: Faults) returns (status: Status, id: Id)
      requires Valid() && cursors.credAuth.Some? && cursors.credIndex < |cursors.credList|
      modifies this`cursors, this`trace
      ensures Valid() && cursors == old(cursors).(credIndex := old(cursors).credIndex + 1)
      ensures id == cursors.credList[old(cursors).credIndex]
      ensures status == (if id in faults.get then Processing
                         else if Find(credentials, id).Some? && id !in corrupt then Success else NotAllowed)
      ensures trace == if status == Success
                       then old(trace).(positions := old(trace).positions + [old(cursors).credIndex])
                       else old(trace).(skipped := old(trace).skipped + {old(cursors).credIndex})
    {
      hide RpCursor, CredCursor, Kept, Listing, Matching, DistinctIds, Find;
      var index := cursors.credIndex;
      CredCursorAdvances(index, trace.positions, trace.skipped);
      id := cursors.credList[index];
      cursors := cursors.(credIndex := index + 1);
      if id !in faults.get && Find(credentials, id).Some? && id !in corrupt {
        trace := trace.(positions := trace.positions + [index]);
        return Success, id;
      }
      trace := trace.(skipped := trace.skipped + {index});
      status := if id in faults.get then Processing else NotAllowed;
    }

    /** Read on to the next credential that is there. */
    method ReadNext(faults: Faults) returns (status: Status, id: Id)
      requires Valid() && cursors.credAuth.Some?
      modifies this`cursors, this`trace
      ensures Valid() && status in {Success, NotAllowed, Processing}
      ensures cursors == old(cursors).(credIndex := cursors.credIndex)
      ensures status == Success ==>
                && Advanced(old(cursors), old(trace), cursors, trace, id)
                && Find(credentials, id).Some? && id !in corrupt && id !in faults.get
                && Corrupted(cursors.credList[old(cursors).credIndex..cursors.credIndex - 1])
      ensures status == Processing ==> id in faults.get && id in cursors.credList
      ensures status == NotAllowed ==> Corrupted(cursors.credList[old(cursors).credIndex..])
    {
      hide Valid, Find, Skipped, Corrupted;
      id := [];
      NothingSkipped();
      while cursors.credIndex < |cursors.credList|
        invariant Valid() && cursors == old(cursors).(credIndex := cursors.credIndex)
        invariant trace == old(trace).(skipped := trace.skipped)
        invariant old(cursors).credIndex <= cursors.credIndex <= |cursors.credList|
        invariant Skipped(cursors.credList[old(cursors).credIndex..cursors.credIndex])
        decreases |cursors.credList| - cursors.credIndex
      {
        var index := cursors.credIndex;
        status, id := ReadOne(faults);
        if status == Success {
          SliceCorrupt(old(cursors).credIndex, index);
        }
        if status != NotAllowed {
          return;
        }
        SkippedMore(cursors.credList, old(cursors).credIndex, index);
      }
      SliceCorrupt(old(cursors).credIndex, cursors.credIndex);
      assert cursors.credList[old(cursors).credIndex..] == cursors.credList[old(cursors).credIndex..cursors.credIndex];
      status := NotAllowed;
    }

    /** enumerateRPsBegin: every RP with a credential, once, in order. */
    method BeginRps(auth: Auth, faults: Faults) returns (status: Status, rp: RpId, total: nat)
      requires Valid() && Kept(auth, Now(), Now())
      modifies this`cursors, this`trace
      ensures Valid()
      ensures var rps := SortDedup(Rps(Listing(credentials, discoverable, corrupt)));
              && (status == Success <==> !faults.list && rps != [])
              && (status == Success ==>
                    && cursors == old(cursors).(rpList := rps, rpIndex := 1, rpAuth := Some(auth))
                    && rp == rps[0] && total == |rps| && trace == old(trace).(rps := [rp], rpBegan := Now()))
      ensures status != Success ==> cursors == old(cursors) && trace == old(trace)
    {
      hide CredCursor, Kept, Listing, Matching, DistinctIds, SortDedup;
      if faults.list {
        return Processing, [], 0;
      }
      var rps := SortDedup(Rps(Listing(credentials, discoverable, corrupt)));
      if rps == [] {
        return NoCredentials, [], 0;
      }
      cursors := cursors.(rpList := rps, rpIndex := 1, rpAuth := Some(auth));
      trace := trace.(rps := [rps[0]], rpBegan := Now());
      return Success, rps[0], |rps|;
    }

    /** enumerateCredentialsBegin: every credential of one RP, once, the most
        recent first. */
    method BeginCredentials(rpHash: seq<byte>, auth: Auth, faults: Faults) returns (status: Status, id: Id, total: nat)
      requires Valid() && Kept(auth, Now(), Now())
      modifies this`cursors, this`trace
      ensures Valid()
      ensures var ids := Matching(Listing(credentials, discoverable, corrupt), hash, rpHash);
              && (status == Success <==> !faults.list && ids != [])
              && (status == Success ==>
                    && cursors == old(cursors).(credList := ids, credIndex := 1,
                                                credAuth := Some(auth), credRpHash := rpHash)
                    && id == ids[0] && total == |ids|
                    && trace == old(trace).(positions := [0], skipped := {}, credBegan := Now()))
      ensures status != Success ==> cursors == old(cursors) && trace == old(trace)
    {
      hide RpCursor, Kept, Listing, Matching, DistinctIds;
      if faults.list {
        return Processing, [], 0;
      }
      var ids := Matching(Listing(credentials, discoverable, corrupt), hash, rpHash);
      if ids == [] {
        return NoCredentials, [], 0;
      }
      cursors := cursors.(credList := ids, credIndex := 1, credAuth := Some(auth), credRpHash := rpHash);
      trace := trace.(positions := [0], skipped := {}, credBegan := Now());
      return Success, ids[0], |ids|;
    }

    // -------------------------------------------------------------- the rest of the engine

    /** Adopting other persistent tokens starts a new generation. */
    method Adopt(p: map<nat, Persistent>)
      requires Valid()
      modifies this`persistent, this`generation
      ensures Valid() && persistent == p
    {
      hide RpCursor, CredCursor, Kept, Listing, Matching, DistinctIds, Narrows;
      ghost var before := Now();
      if p != persistent {
        generation := generation + 1;
      }
      persistent := p;
      NarrowsSelf(tokens.inUse, tokens.issued);
      CursorsKept(before);
    }

    lemma NarrowsSelf(t: Option<InUse>, issued: nat)
      ensures Narrows(t, issued, t) && Narrows(t, issued, None)
    {
    }

    method StopUsing()
      requires Valid()
      modifies tokens`inUse
      ensures Valid() && tokens.inUse == None
    {
      hide RpCursor, CredCursor, Kept, Listing, Matching, DistinctIds, Narrows;
      ghost var before := Now();
      tokens.StopUsing();
      NarrowsSelf(before.token, before.issued);
      CursorsKept(before);
    }

    /** A new transient token ends the one before it. */
    method Issue(protocol: nat, value: seq<byte>, grant: Grant)
      requires Valid()
      modifies this`cursors, tokens
      ensures Valid() && tokens.issued == old(tokens.issued) + 1 && cursors == NEW
      ensures Narrows(old(tokens.inUse), old(tokens.issued), tokens.inUse)
    {
      tokens.BeginUsing(now, protocol, value, false, grant);
      cursors := NEW;
    }

    /** makeCredential and getAssertion, as far as they concern the token. */
    method RpOperation(permission: Permission, rpId: RpId, present: bool) returns (ok: bool)
      requires Valid()
      modifies tokens`inUse
      ensures Valid() && Narrows(old(tokens.inUse), tokens.issued, tokens.inUse)
      ensures ok <==> old(tokens.inUse).Some? && Authorizes(old(tokens.inUse).value, now, permission, rpId)
      ensures ok && present && tokens.inUse.Some? ==> tokens.inUse.value.permissions <= {Lbw}
    {
      hide RpCursor, CredCursor, Kept, Listing, Matching, DistinctIds, Narrows;
      ghost var before := Now();
      ok := tokens.AuthorizeRpOperation(now, permission, rpId);
      ghost var between := tokens.inUse;
      NarrowsSelf(between, tokens.issued);
      if ok && present {
        tokens.Consume(now);
      }
      NarrowsTransitive(before.token, before.issued, between, tokens.issued, tokens.inUse);
      CursorsKept(before);
    }

    /** Any change of the credentials themselves ends the enumerations. */
    method Store(credentials: seq<Credential>)
      requires Valid() && DistinctIds(credentials)
      requires cursors.rpAuth.None? && cursors.credAuth.None?
      modifies this`credentials
      ensures Valid() && this.credentials == credentials
    {
      this.credentials := credentials;
    }

    /** A discoverable credential of this account. */
    predicate SameAccount(c: Credential)
      reads this`credentials
    {
      exists d :: d in credentials && discoverable(d.id) && d.rp == c.rp && d.user == c.user
    }

    /** `store_new_credential`: a discoverable credential replaces those of its
        account, which ends the enumerations; another one is only added, and
        leaves them as they are. */
    method Insert(c: Credential, faults: Faults) returns (ok: bool)
      requires Valid()
      modifies this`credentials, this`cursors
      ensures Valid()
      ensures discoverable(c.id) ==>
                && (ok <==> && !faults.write.Before? && old(Find(credentials, c.id)).None?
                            && (old(SameAccount(c)) || |old(credentials)| < maximum))
                && (ok ==> cursors == NEW && credentials == [c] + Without(old(credentials), discoverable, c.rp, c.user))
                && (!ok ==> cursors == old(cursors) && credentials == old(credentials))
      ensures !discoverable(c.id) ==>
                && cursors == old(cursors)
                && (ok <==> && c.id !in faults.get && faults.write.Works?
                            && (old(Find(credentials, c.id)).None? ==> |old(credentials)| < maximum)
                            && (old(Find(credentials, c.id)).Some? ==> c.id in corrupt))
                && (ok ==> credentials == [c] + Remove(old(credentials), c.id))
                && Listing(credentials, discoverable, corrupt) == old(Listing(credentials, discoverable, corrupt))
                && (credentials == old(credentials) || credentials == [c] + Remove(old(credentials), c.id))
    {
      if discoverable(c.id) {
        ok := Replace(c, faults);
        if ok {
          cursors := NEW;
        }
        return;
      }
      NotListed(c);
      if c.id in faults.get || (c.id !in corrupt && Find(credentials, c.id).Some?) {
        return false;
      }
      if faults.write.Before? || (Find(credentials, c.id).None? && |credentials| >= maximum) {
        return false;
      }
      Add(c);
      ok := faults.write.Works?;
    }

    /** `insert_or_replace_discoverable`: an error leaves the store as it was. */
    method Replace(c: Credential, faults: Faults) returns (ok: bool)
      requires Valid() && discoverable(c.id)
      modifies this`credentials, this`cursors
      ensures Valid()
      ensures ok <==> && !faults.write.Before? && old(Find(credentials, c.id)).None?
                      && (old(SameAccount(c)) || |old(credentials)| < maximum)
      ensures ok ==> credentials == [c] + Without(old(credentials), discoverable, c.rp, c.user)
      ensures !ok ==> cursors == old(cursors) && credentials == old(credentials)
    {
      if faults.write.Before? || Find(credentials, c.id).Some? {
        return false;
      }
      if !SameAccount(c) && |credentials| >= maximum {
        return false;
      }
      cursors := NEW;
      FindExact(credentials, c.id);
      WithoutExact(credentials, discoverable, c.rp, c.user);
      Store([c] + Without(credentials, discoverable, c.rp, c.user));
      ok := true;
    }

    /** Put a credential that is not discoverable, in place of any with its ID. */
    method Add(c: Credential)
      requires Valid() && !discoverable(c.id)
      modifies this`credentials
      ensures Valid() && credentials == [c] + Remove(old(credentials), c.id)
    {
      hide RpCursor, CredCursor, Kept, Listing, Matching, SortDedup;
      RemoveExact(credentials, c.id);
      AddedUnlisted(c, credentials, trace.rpBegan.missed);
      AddedUnlisted(c, credentials, trace.credBegan.missed);
      credentials := [c] + Remove(credentials, c.id);
    }

    lemma AddedUnlisted(c: Credential, stored: seq<Credential>, missed: set<Id>)
      requires !discoverable(c.id)
      ensures Listing([c] + Remove(stored, c.id), discoverable, missed) == Listing(stored, discoverable, missed)
    {
      RemovedUnlisted(c.id, stored, missed);
      assert ([c] + Remove(stored, c.id))[1..] == Remove(stored, c.id);
    }

    lemma {:induction false} RemovedUnlisted(id: Id, stored: seq<Credential>, missed: set<Id>)
      requires !discoverable(id)
      ensures Listing(Remove(stored, id), discoverable, missed) == Listing(stored, discoverable, missed)
      decreases |stored|
    {
      if stored != [] {
        RemovedUnlisted(id, stored[1..], missed);
        if stored[0].id == id {
          assert Remove(stored, id) == Remove(stored[1..], id);
          assert Listing(stored, discoverable, missed) == Listing(stored[1..], discoverable, missed);
        } else {
          assert ([stored[0]] + Remove(stored[1..], id))[1..] == Remove(stored[1..], id);
        }
      }
    }

    lemma NotListed(c: Credential)
      requires !discoverable(c.id)
      ensures Listing([c] + Remove(credentials, c.id), discoverable, corrupt)
           == Listing(credentials, discoverable, corrupt)
    {
      AddedUnlisted(c, credentials, corrupt);
    }

    /** `refresh_persistent_authority`, as far as it concerns this command. */
    method RefreshAuthority(r: Refresh) returns (ok: bool)
      requires Valid()
      modifies this`persistent, this`generation, this`cursors, tokens`inUse
      ensures Valid() && ok == (r.Fine? || r.Adopts?) && (cursors == old(cursors) || cursors == NEW)
      ensures Narrows(old(tokens.inUse), tokens.issued, tokens.inUse)
      ensures r.Fine? || r.Fails? ==>
                persistent == old(persistent) && cursors == old(cursors) && tokens.inUse == old(tokens.inUse)
                                      && generation == old(generation)
      ensures r.Closes? ==> persistent == map[] && tokens.inUse == None && cursors == NEW
    {
      NarrowsSelf(tokens.inUse, tokens.issued);
      match r
      case Fine => ok := true;
      case Fails => ok := false;
      case Closes =>
        cursors := NEW;
        StopUsing();
        Adopt(map[]);
        ok := false;
      case Adopts(p, changedPin) =>
        if changedPin || p != persistent {
          cursors := NEW;
          if changedPin {
            StopUsing();
          }
          Adopt(p);
        }
        ok := true;
    }

    // -------------------------------------------------------------- the command

    /** `ensure_pin_token_permission_for_cm`. */
    function Permission(t: InUse, r: Request, faults: Faults): Status
      requires r.Request?
      reads this`credentials, this`corrupt
    {
      if Cm !in t.permissions then AuthInvalid
      else if t.rpId.None? then Success
      else match r.sub
        case CredsBegin => if r.rpHash == Some(hash(t.rpId.value)) then Success else AuthInvalid
        case Delete => ForTarget(t.rpId.value, r.target, faults)
        case Update => ForTarget(t.rpId.value, r.target, faults)
        case _ => AuthInvalid
    }

    function ForTarget(rp: RpId, target: Option<Id>, faults: Faults): Status
      reads this`credentials, this`corrupt
    {
      if target.None? then NoCredentials
      else
        var c := Managed(target.value);
        if target.value in faults.get && discoverable(target.value) then Processing
        else if c.None? then NoCredentials
        else if c.value.rp == rp then Success
        else AuthInvalid
    }

    function Managed(id: Id): Option<Credential>
      reads this`credentials, this`corrupt
    {
      if discoverable(id) && id !in corrupt then Find(credentials, id) else None
    }

    /** The parameter was made with the persistent token of its protocol. */
    predicate ByPersistent(family: Family, r: Request)
      requires r.Request? && r.param.Some? && r.protocol.Some?
      reads this
    {
      && family.Standard? && r.sub in {Metadata, RpsBegin, CredsBegin} && r.protocol.value in persistent
      && r.param.value == mac(r.protocol.value, persistent[r.protocol.value].secret, Message(r))
    }

    /** A legacy token serves the preview command while it is unbound; any other
        use takes the permission. */
    predicate Entitled(family: Family, t: InUse, r: Request, faults: Faults)
      requires r.Request?
      reads this`credentials, this`corrupt
    {
      if family.Preview? && (!t.verified || t.origin.None?) then false
      else if family.Preview? && t.origin.value.LegacyGetPinToken? then t.rpId.None?
      else Permission(t, r, faults) == Success
    }

    /** Who the pinUvAuthParam of a begin or a change proves to be asking. */
    method Authenticate(family: Family, r: Request, faults: Faults) returns (status: Status, auth: Auth)
      requires Valid() && r.Request? && r.param.Some? && r.protocol.Some?
      modifies tokens`inUse
      ensures Valid() && Narrows(old(tokens.inUse), tokens.issued, tokens.inUse)
      ensures status == Success ==>
                && auth.family == family && auth.protocol == r.protocol.value && Kept(auth, Now(), Now())
                && Proved(r, auth)
                && (!auth.mode.PersistentReadOnly? ==> Live(tokens.inUse.value, now))
                && (!auth.mode.PersistentReadOnly? ==> Entitled(family, tokens.inUse.value, r, faults))
      ensures status == Success && r.sub in {Delete, Update} ==> !auth.mode.PersistentReadOnly?
      ensures ByPersistent(family, r) ==> (status == Success <==> persistent[r.protocol.value].granted)
      ensures !ByPersistent(family, r) ==>
                (status == Success <==>
                   && tokens.inUse.Some? && tokens.inUse.value.protocol == r.protocol.value
                   && r.param.value == mac(r.protocol.value, tokens.inUse.value.value, Message(r))
                   && Entitled(family, tokens.inUse.value, r, faults))
    {
      hide RpCursor, CredCursor, Listing, Matching, DistinctIds, Find, Permission;
      auth := Auth(family, generation, r.protocol.value, PersistentReadOnly);
      NarrowsSelf(tokens.inUse, tokens.issued);
      if ByPersistent(family, r) {
        status := if persistent[r.protocol.value].granted then Success else AuthInvalid;
        return;
      }
      var ok := VerifyTransient(r);
      if !ok {
        return AuthInvalid, auth;
      }
      var t := tokens.inUse.value;
      NarrowsSelf(tokens.inUse, tokens.issued);
      auth := Auth(family, t.id, r.protocol.value, CmPermission);
      if family.Preview? {
        if !t.verified || t.origin.None? || (t.origin.value.LegacyGetPinToken? && t.rpId.Some?) {
          return AuthInvalid, auth;
        }
        if t.origin.value.LegacyGetPinToken? {
          return Success, auth.(mode := LegacyPreview);
        }
      }
      status := Permission(t, r, faults);
    }

    method VerifyTransient(r: Request) returns (ok: bool)
      requires Valid() && r.Request? && r.param.Some? && r.protocol.Some?
      modifies tokens`inUse
      ensures Valid() && Narrows(old(tokens.inUse), tokens.issued, tokens.inUse)
      ensures ok <==> && tokens.inUse.Some? && tokens.inUse.value.protocol == r.protocol.value
                      && r.param.value == mac(r.protocol.value, tokens.inUse.value.value, Message(r))
      ensures tokens.inUse.Some? <==> old(tokens.inUse).Some? && Live(old(tokens.inUse).value, now)
      ensures tokens.inUse.Some? ==> Live(tokens.inUse.value, now)
    {
      hide RpCursor, CredCursor, Kept, Listing, Matching, DistinctIds;
      ghost var before := Now();
      var authentic := tokens.inUse.Some? &&
        r.param.value == mac(r.protocol.value, tokens.inUse.value.value, Message(r));
      ok := tokens.Verify(now, r.protocol.value, authentic);
      CursorsKept(before);
    }

    /** The parameter was made with the secret of the grant it is taken for. */
    ghost predicate Proved(r: Request, auth: Auth)
      requires r.Request? && r.param.Some?
      reads this, tokens
    {
      if auth.mode.PersistentReadOnly? then
        && auth.protocol in persistent && persistent[auth.protocol].granted
        && r.param.value == mac(auth.protocol, persistent[auth.protocol].secret, Message(r))
      else
        && tokens.inUse.Some? && tokens.inUse.value.id == auth.token && tokens.inUse.value.protocol == auth.protocol
        && r.param.value == mac(auth.protocol, tokens.inUse.value.value, Message(r))
    }

    /** So a begin or a change is made: a change never by a persistent token. */
    ghost predicate Authentic(r: Request, auth: Auth)
      reads this, tokens
    {
      && r.Request? && r.param.Some? && Proved(r, auth)
      && (r.sub in {Delete, Update} ==> !auth.mode.PersistentReadOnly?)
    }

    /** The credentials change only once no enumeration is left. */
    ghost predicate Reset(before: Cursors, stored: seq<Credential>)
      reads this`cursors, this`credentials
    {
      && (cursors == before || cursors == before.ResetRps().ResetCredentials())
      && (credentials != stored ==> cursors == before.ResetRps().ResetCredentials())
    }

    method DeleteCredential(id: Id, faults: Faults) returns (status: Status)
      requires Valid()
      modifies this`credentials, this`cursors
      ensures Valid()
      ensures status == Success <==> discoverable(id) && faults.write.Works? && old(Find(credentials, id)).Some?
      ensures status == Success ==> credentials == Remove(old(credentials), id)
      ensures credentials == old(credentials) || credentials == Remove(old(credentials), id)
      ensures status == Success ==> forall c :: c in credentials ==> c.id != id
      ensures Reset(old(cursors), old(credentials))
      ensures forall c :: c in old(credentials) && c.id != id ==> c in credentials
    {
      if !discoverable(id) {
        return NoCredentials;
      }
      cursors := cursors.ResetRps().ResetCredentials();
      FindExact(credentials, id);
      if faults.write.Before? {
        return Processing;
      }
      var present := Find(credentials, id).Some?;
      RemoveExact(credentials, id);
      Store(Remove(credentials, id));
      if faults.write.After? {
        return Processing;
      }
      status := if present then Success else NoCredentials;
    }

    /** The credential with this ID has this name, and nothing else changed. */
    static ghost predicate Renamed(before: seq<Credential>, after: seq<Credential>, id: Id, name: seq<byte>)
    {
      && |after| == |before|
      && forall i :: 0 <= i < |before| ==>
           after[i] == if before[i].id == id then before[i].(name := name) else before[i]
    }

    method UpdateUser(id: Id, user: seq<byte>, name: seq<byte>, faults: Faults) returns (status: Status)
      requires Valid()
      modifies this`credentials, this`cursors
      ensures Valid()
      ensures status == Success <==>
                && id !in faults.get && faults.write.Works?
                && old(Managed(id)).Some? && old(Managed(id)).value.user == user
      ensures credentials == old(credentials) || Renamed(old(credentials), credentials, id, name)
      ensures status == Success ==> Renamed(old(credentials), credentials, id, name)
      ensures Reset(old(cursors), old(credentials))
    {
      if discoverable(id) && id in faults.get {
        return Processing;
      }
      var c := Managed(id);
      if c.None? {
        return NoCredentials;
      }
      FindExact(credentials, id);
      if c.value.user != user {
        return InvalidParameter;
      }
      cursors := cursors.ResetRps().ResetCredentials();
      if faults.write.Before? {
        return Processing;
      }
      Store(seq(|credentials|, i requires 0 <= i < |credentials| reads this =>
        if credentials[i].id == id then credentials[i].(name := name) else credentials[i]));
      status := if faults.write.After? then Processing else Success;
    }

    /** `handle_credential_management_family`. */
    method Handle(family: Family, r: Request, refresh: Refresh, faults: Faults) returns (status: Status, answer: Answer)
      requires Valid()
      modifies this`persistent, this`generation, this`credentials, this`cursors, this`trace, tokens`inUse
      ensures Valid()
      ensures Narrows(old(tokens.inUse), tokens.issued, tokens.inUse)
      ensures credentials != old(credentials) ==> cursors.rpAuth == None && cursors.credAuth == None
      ensures old(cursors).family != Some(family) && status != Success ==>
                cursors.rpAuth == None && cursors.credAuth == None
      ensures status == Success && r.Request? && !r.sub.RpsNext? && !r.sub.CredsNext? ==>
                cursors.context.Some? && Authentic(r, cursors.context.value)
      ensures (&& status == Success && r.Request? && !r.sub.RpsNext? && !r.sub.CredsNext?
               && !cursors.context.value.mode.PersistentReadOnly?) ==>
                var t := tokens.inUse.value; Live(t, now) && old(Entitled(family, t, r, faults))
      ensures status == Success && r.Request? && r.sub.RpsNext? ==>
                && old(cursors).rpAuth.Some? && Continues(old(cursors).rpAuth.value, family, None, hash, Now(), now)
                && Kept(old(cursors).rpAuth.value, old(trace).rpBegan, Now())
                && old(cursors).rpIndex < |old(cursors).rpList|
                && answer == Rp(old(cursors).rpList[old(cursors).rpIndex])
      ensures status == Success && r.Request? && r.sub.CredsNext? ==>
                && old(cursors).credAuth.Some? && Kept(old(cursors).credAuth.value, old(trace).credBegan, Now())
                && Continues(old(cursors).credAuth.value, family, Some(old(cursors).credRpHash), hash, Now(), now)
                && answer.Cred? && Advanced(old(cursors), old(trace), cursors, trace, answer.id)
                && Find(credentials, answer.id).Some? && answer.id !in corrupt && answer.id !in faults.get
                && Corrupted(cursors.credList[old(cursors).credIndex..cursors.credIndex - 1])
    {
      hide RpCursor, CredCursor, Kept, Listing, Matching, DistinctIds, Find, Narrows, Continues;
      answer := Nothing;
      NarrowsSelf(tokens.inUse, tokens.issued);
      if cursors.family != Some(family) {
        cursors := cursors.ResetRps().ResetCredentials().(family := Some(family));
      }
      if r.Malformed? {
        return InvalidCbor, answer;
      }
      if r.sub.RpsNext? || r.sub.CredsNext? {
        status, answer := Continue(family, r.sub.RpsNext?, refresh, faults);
        return;
      }
      status, answer := Authenticated(family, r, refresh, faults);
    }

    /** The subcommands that go on with an enumeration. */
    method Continue(family: Family, rps: bool, refresh: Refresh, faults: Faults)
      returns (status: Status, answer: Answer)
      requires Valid()
      modifies this`persistent, this`generation, this`cursors, this`trace, tokens`inUse
      ensures Valid()
      ensures Narrows(old(tokens.inUse), tokens.issued, tokens.inUse)
      ensures status != Success && old(cursors).rpAuth.None? && old(cursors).credAuth.None? ==>
                cursors.rpAuth == None && cursors.credAuth == None
      ensures status == Success && rps ==>
                && old(cursors).rpAuth.Some? && Continues(old(cursors).rpAuth.value, family, None, hash, Now(), now)
                && Kept(old(cursors).rpAuth.value, old(trace).rpBegan, Now())
                && old(cursors).rpIndex < |old(cursors).rpList|
                && answer == Rp(old(cursors).rpList[old(cursors).rpIndex])
      ensures status == Success && !rps ==>
                && old(cursors).credAuth.Some? && Kept(old(cursors).credAuth.value, old(trace).credBegan, Now())
                && Continues(old(cursors).credAuth.value, family, Some(old(cursors).credRpHash), hash, Now(), now)
                && answer.Cred? && Advanced(old(cursors), old(trace), cursors, trace, answer.id)
                && Find(credentials, answer.id).Some? && answer.id !in corrupt && answer.id !in faults.get
                && Corrupted(cursors.credList[old(cursors).credIndex..cursors.credIndex - 1])
    {
      hide RpCursor, CredCursor, Kept, Listing, Matching, DistinctIds, Find, Narrows, Continues;
      answer := Nothing;
      NarrowsSelf(tokens.inUse, tokens.issued);
      var ok := RefreshAuthority(refresh);
      if !ok {
        return NotAllowed, answer;
      }
      ghost var refreshed := tokens.inUse;
      if rps {
        var rp;
        status, rp := NextRp(family);
        answer := Rp(rp);
      } else {
        var id;
        status, id := NextCredential(family, faults);
        answer := Cred(id);
      }
      NarrowsTransitive(old(tokens.inUse), tokens.issued, refreshed, tokens.issued, tokens.inUse);
    }

    /** The subcommands that carry a pinUvAuthParam. */
    method Authenticated(family: Family, r: Request, refresh: Refresh, faults: Faults)
      returns (status: Status, answer: Answer)
      requires Valid() && r.Request? && !r.sub.RpsNext? && !r.sub.CredsNext?
      modifies this`persistent, this`generation, this`credentials, this`cursors, this`trace, tokens`inUse
      ensures Valid()
      ensures Narrows(old(tokens.inUse), tokens.issued, tokens.inUse)
      ensures status == Success ==> cursors.context.Some? && Authentic(r, cursors.context.value)
      ensures status == Success && !cursors.context.value.mode.PersistentReadOnly? ==>
                var t := tokens.inUse.value; Live(t, now) && old(Entitled(family, t, r, faults))
      ensures credentials != old(credentials) ==> cursors.rpAuth == None && cursors.credAuth == None
      ensures status != Success && old(cursors).rpAuth.None? && old(cursors).credAuth.None? ==>
                cursors.rpAuth == None && cursors.credAuth == None
    {
      hide RpCursor, CredCursor, Kept, Listing, Matching, DistinctIds, Find, Narrows;
      answer := Nothing;
      NarrowsSelf(tokens.inUse, tokens.issued);
      if r.param.None? {
        return PuatRequired, answer;
      }
      if (r.sub.CredsBegin? && r.rpHash.None?) || (r.sub in {Delete, Update} && r.target.None?) || r.protocol.None? {
        return MissingParameter, answer;
      }
      if r.protocol.value != 1 && r.protocol.value != 2 {
        return InvalidParameter, answer;
      }
      var ok := RefreshAuthority(refresh);
      if !ok {
        return Processing, answer;
      }
      ghost var refreshed := tokens.inUse;
      status, answer := Proceed(family, r, faults);
      NarrowsTransitive(old(tokens.inUse), tokens.issued, refreshed, tokens.issued, tokens.inUse);
    }

    /** Authenticate, then do what was asked. */
    method Proceed(family: Family, r: Request, faults: Faults) returns (status: Status, answer: Answer)
      requires Valid() && r.Request? && r.param.Some? && r.protocol.Some?
      requires r.sub.CredsBegin? ==> r.rpHash.Some?
      requires r.sub in {Delete, Update} ==> r.target.Some?
      modifies this`credentials, this`cursors, this`trace, tokens`inUse
      ensures Valid()
      ensures Narrows(old(tokens.inUse), tokens.issued, tokens.inUse)
      ensures status == Success ==> cursors.context.Some? && Authentic(r, cursors.context.value)
      ensures status == Success && !cursors.context.value.mode.PersistentReadOnly? ==>
                var t := tokens.inUse.value; Live(t, now) && old(Entitled(family, t, r, faults))
      ensures credentials != old(credentials) ==> cursors.rpAuth == None && cursors.credAuth == None
      ensures status != Success && old(cursors).rpAuth.None? && old(cursors).credAuth.None? ==>
                cursors.rpAuth == None && cursors.credAuth == None
    {
      hide RpCursor, CredCursor, Kept, Listing, Matching, DistinctIds, Find, Narrows,
           ByPersistent, Entitled, Permission;
      answer := Nothing;
      var auth;
      status, auth := Authenticate(family, r, faults);
      if status != Success {
        return;
      }
      if cursors.context != Some(auth) {
        cursors := cursors.ResetRps().ResetCredentials().(context := Some(auth));
      }
      status, answer := Dispatch(r, auth, faults);
    }

    method Dispatch(r: Request, auth: Auth, faults: Faults) returns (status: Status, answer: Answer)
      requires Valid() && Kept(auth, Now(), Now()) && r.Request?
      requires r.sub.CredsBegin? ==> r.rpHash.Some?
      requires r.sub in {Delete, Update} ==> r.target.Some?
      modifies this`credentials, this`cursors, this`trace
      ensures Valid() && cursors.context == old(cursors).context
      ensures credentials != old(credentials) ==> cursors.rpAuth == None && cursors.credAuth == None
      ensures status != Success ==>
                cursors == old(cursors) || cursors == old(cursors).ResetRps().ResetCredentials()
    {
      hide RpCursor, CredCursor, Kept, Listing, Matching, DistinctIds, Find, Narrows;
      answer := Nothing;
      match r.sub {
        case RpsBegin =>
          var rp, total;
          status, rp, total := BeginRps(auth, faults);
          answer := Rp(rp);
        case CredsBegin =>
          var id, total;
          status, id, total := BeginCredentials(r.rpHash.value, auth, faults);
          answer := Cred(id);
        case Delete => status := DeleteCredential(r.target.value, faults);
        case Update => status := UpdateUser(r.target.value, r.user, r.name, faults);
        case _ => status := if faults.list then Processing else Success;
      }
    }

    // -------------------------------------------------------------- a platform

    /** Begin and next until the end: every RP with a credential that can be
        read, each once, in order. */
    method ListRps(family: Family, auth: Auth) returns (rps: seq<RpId>)
      requires Valid() && Kept(auth, Now(), Now()) && Continues(auth, family, None, hash, Now(), now)
      modifies this`cursors, this`trace, tokens`inUse
      ensures Valid() && Increasing(rps)
      ensures forall rp :: rp in rps <==>
                exists c :: c in credentials && discoverable(c.id) && c.id !in corrupt && c.rp == rp
    {
      hide RpCursor, CredCursor, Kept, Listing, Matching, DistinctIds, Narrows, SortDedup;
      ghost var listing := Listing(credentials, discoverable, corrupt);
      ghost var all := SortDedup(Rps(listing));
      var status, rp, total := BeginRps(auth, Faults(false, {}, Works));
      rps := [];
      if status == Success {
        rps := [rp];
        while |rps| < total
          invariant Valid() && Continues(auth, family, None, hash, Now(), now)
          invariant 1 <= |rps| <= total == |all| && rps == all[..|rps|]
          invariant cursors.rpAuth == Some(auth) && cursors.rpList == all && cursors.rpIndex == |rps|
        {
          status, rp := NextRp(family);
          rps := rps + [rp];
        }
      }
      assert rps == all;
      ListingExact(credentials, discoverable, corrupt);
      SortDedupExact(Rps(listing));
      forall rp
        ensures rp in all <==> exists c :: c in credentials && discoverable(c.id) && c.id !in corrupt && c.rp == rp {
        RpListed(listing, rp);
      }
    }

    lemma RpListed(listing: seq<Credential>, r: RpId)
      ensures r in Rps(listing) <==> exists c :: c in listing && c.rp == r
    {
      if r in Rps(listing) {
        var i :| 0 <= i < |listing| && Rps(listing)[i] == r;
        assert listing[i] in listing && listing[i].rp == r;
      }
      if c :| c in listing && c.rp == r {
        var i :| 0 <= i < |listing| && listing[i] == c;
        assert Rps(listing)[i] == r;
      }
    }

    /** Begin and next until the end: every credential of one RP that can be
        read, each once. */
    method ListCredentials(family: Family, auth: Auth, rpHash: seq<byte>) returns (ids: seq<Id>)
      requires Valid() && Kept(auth, Now(), Now()) && Continues(auth, family, Some(rpHash), hash, Now(), now)
      modifies this`cursors, this`trace, tokens`inUse
      ensures Valid() && Distinct(ids)
      ensures forall id :: id in ids <==>
                exists c :: c in credentials && discoverable(c.id) && c.id !in corrupt
                  && c.id == id && hash(c.rp) == rpHash
    {
      hide RpCursor, CredCursor, Kept, Listing, Matching, DistinctIds, Narrows, Find, Distinct;
      ghost var listing := Listing(credentials, discoverable, corrupt);
      ghost var all := Matching(listing, hash, rpHash);
      ListingExact(credentials, discoverable, corrupt);
      MatchingExact(listing, hash, rpHash);
      NoneAbsent(all);
      var status, id, total := BeginCredentials(rpHash, auth, Faults(false, {}, Works));
      ids := [];
      if status == Success {
        ids := [id];
        while |ids| < total
          invariant Valid() && Continues(auth, family, Some(rpHash), hash, Now(), now)
          invariant 1 <= |ids| <= total == |all| && ids == all[..|ids|]
          invariant cursors.credAuth == Some(auth) && cursors.credList == all && cursors.credIndex == |ids|
          invariant cursors.credRpHash == rpHash
        {
          id := NextListed(family, auth, all, |ids|);
          ids := ids + [id];
        }
      }
      assert ids == all;
    }

    method NextListed(family: Family, auth: Auth, ghost all: seq<Id>, ghost k: nat) returns (id: Id)
      requires Valid() && Continues(auth, family, Some(cursors.credRpHash), hash, Now(), now)
      requires cursors.credAuth == Some(auth) && cursors.credList == all && cursors.credIndex == k < |all|
      requires forall id :: id in all ==> Find(credentials, id).Some? && id !in corrupt
      modifies this`cursors, this`trace, tokens`inUse
      ensures Valid() && Continues(auth, family, Some(cursors.credRpHash), hash, Now(), now)
      ensures cursors == old(cursors).(credIndex := k + 1) && id == all[k]
    {
      hide RpCursor, CredCursor, Kept, Listing, Matching, DistinctIds, Narrows, Find;
      var status;
      assert all[k] in all;
      assert forall e :: k < e <= |all| ==> all[k..e][0] == all[k];
      assert all[k..|all|] == all[k..];
      status, id := NextCredential(family, Faults(false, {}, Works));
    }

    lemma NoneAbsent(all: seq<Id>)
      requires forall id :: id in all ==> exists c :: c in Listing(credentials, discoverable, corrupt) && c.id == id
      ensures forall id :: id in all ==> Find(credentials, id).Some? && id !in corrupt
    {
      ListingExact(credentials, discoverable, corrupt);
      forall id | id in all ensures Find(credentials, id).Some? && id !in corrupt {
        FindExact(credentials, id);
      }
    }

    // -------------------------------------------------------------- runs

    /** Whatever is asked of the engine, every enumeration is under way on a
        grant that has only narrowed, over the credentials there are. */
    method Run(actions: seq<Action>)
      requires Valid()
      modifies this`now, this`persistent, this`generation, this`credentials,
               this`corrupt, this`cursors, this`trace, tokens
      ensures Valid() && tokens.issued >= old(tokens.issued)
      ensures Narrows(old(tokens.inUse), old(tokens.issued), tokens.inUse)
    {
      hide RpCursor, CredCursor, Kept, Listing, Matching, DistinctIds, Narrows;
      NarrowsSelf(tokens.inUse, tokens.issued);
      for i := 0 to |actions|
        invariant Valid() && tokens.issued >= old(tokens.issued)
        invariant Narrows(old(tokens.inUse), old(tokens.issued), tokens.inUse)
      {
        ghost var before, issued := tokens.inUse, tokens.issued;
        Step(actions[i]);
        NarrowsTransitive(old(tokens.inUse), old(tokens.issued), before, issued, tokens.inUse);
      }
    }

    method Step(a: Action)
      requires Valid()
      modifies this`now, this`persistent, this`generation, this`credentials,
               this`corrupt, this`cursors, this`trace, tokens
      ensures Valid() && tokens.issued >= old(tokens.issued)
      ensures Narrows(old(tokens.inUse), old(tokens.issued), tokens.inUse)
    {
      hide RpCursor, CredCursor, Listing, Matching, Find;
      match a
      case Ticks(time) => now := now + time;
      case Corrupts(ids) => corrupt := ids;
      case Issues(protocol, value, grant) => Issue(protocol, value, grant);
      case Operates(permission, rpId, present) =>
        var ok := RpOperation(permission, rpId, present);
      case Inserts(c, faults) =>
        var ok := Insert(c, faults);
      case Refreshes(refresh) =>
        var ok := RefreshAuthority(refresh);
      case Manages(family, r, refresh, faults) =>
        var status, answer := Handle(family, r, refresh, faults);
    }
  }

  lemma KeptKept(auth: Auth, began: Began, before: Began, now: Began)
    requires Kept(auth, began, before)
    requires before.issued <= now.issued && before.generation <= now.generation
    requires before.generation == now.generation ==> before.persistent == now.persistent
    requires Narrows(before.token, before.issued, now.token)
    ensures Kept(auth, began, now)
  {
    if !auth.mode.PersistentReadOnly? {
      NarrowsTransitive(began.token, began.issued, before.token, before.issued, now.token);
    }
  }

  function Code(sub: Sub): byte {
    match sub
    case Metadata => 1
    case RpsBegin => 2
    case RpsNext => 3
    case CredsBegin => 4
    case CredsNext => 5
    case Delete => 6
    case Update => 7
  }

  /** What the pinUvAuthParam authenticates: the subcommand and, unless it is
      one that takes none, its parameters as they were sent. */
  function Message(r: Request): seq<byte>
    requires r.Request?
  {
    [Code(r.sub)] + if r.sub in {Metadata, RpsBegin} then [] else r.raw
  }

  /** The credentials but the discoverable ones of an account. */
  function Without(credentials: seq<Credential>, discoverable: Id -> bool, rp: RpId, user: seq<byte>): seq<Credential> {
    if credentials == [] then []
    else (if discoverable(credentials[0].id) && credentials[0].rp == rp && credentials[0].user == user then []
          else [credentials[0]])
         + Without(credentials[1..], discoverable, rp, user)
  }

  lemma {:induction false} WithoutExact(credentials: seq<Credential>, discoverable: Id -> bool,
                                        rp: RpId, user: seq<byte>)
    ensures forall c :: c in Without(credentials, discoverable, rp, user) <==>
              c in credentials && (!discoverable(c.id) || c.rp != rp || c.user != user)
    ensures DistinctIds(credentials) ==> DistinctIds(Without(credentials, discoverable, rp, user))
  {
    if credentials != [] {
      WithoutExact(credentials[1..], discoverable, rp, user);
      assert credentials == [credentials[0]] + credentials[1..];
    }
  }

  datatype Action =
    | Ticks(time: nat)
    | Corrupts(ids: set<Id>)
    | Issues(protocol: nat, value: seq<byte>, grant: Grant)
    | Operates(permission: Permission, rpId: RpId, present: bool)
    | Inserts(c: Credential, faults: Faults)
    | Refreshes(refresh: Refresh)
    | Manages(family: Family, r: Request, refresh: Refresh, faults: Faults)
}
