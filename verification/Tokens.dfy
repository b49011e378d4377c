/** The pinUvAuthToken and its state variables (section 6.5.2.1 of CTAP 2.3). */
module Tokens {
  import opened Bytes

  const INITIAL_USAGE_TIME_LIMIT := 30_000
  const USER_PRESENT_TIME_LIMIT := 30_000
  const MAX_USAGE_TIME_PERIOD := 600_000

  type RpId = seq<byte>
  datatype Permission = Mc | Ga | Cm | Be | Lbw | Acfg | Pcmr
  datatype Origin = LegacyGetPinToken | PermissionBearing

  datatype InUse = InUse(
    value: seq<byte>, protocol: nat, origin: Option<Origin>, permissions: set<Permission>, rpId: Option<RpId>,
    startedAt: nat, id: nat, used: bool, present: bool, verified: bool)

  datatype Grant = Grant(origin: Origin, permissions: set<Permission>, rpId: Option<RpId>)

  /** Within its time limits. */
  predicate Live(t: InUse, now: nat) {
    var elapsed := Since(now, t.startedAt);
    elapsed < MAX_USAGE_TIME_PERIOD && (t.used || elapsed < INITIAL_USAGE_TIME_LIMIT)
  }

  /** The later state of a token is what its issuance granted or less: with
      `issued` tokens given out at `a`, a token in use at `b` that is not newer
      than those is the one in use at `a`, unchanged but for what it lost. */
  predicate Narrows(a: Option<InUse>, issued: nat, b: Option<InUse>) {
    b.Some? && b.value.id <= issued ==>
      && a.Some? && a.value.id == b.value.id
      && b.value.value == a.value.value && b.value.protocol == a.value.protocol
      && b.value.startedAt == a.value.startedAt
      && b.value.permissions <= a.value.permissions
      && (a.value.rpId.Some? ==> b.value.rpId == a.value.rpId)
      && (b.value.origin.Some? ==> b.value.origin == a.value.origin)
      && (b.value.verified ==> a.value.verified) && (b.value.present ==> a.value.present)
      && (a.value.used ==> b.value.used)
  }

  /** Such steps compose: over a run permissions only shrink, and a binding is
      set once. */
  lemma NarrowsTransitive(a: Option<InUse>, m: nat, b: Option<InUse>, n: nat, c: Option<InUse>)
    requires Narrows(a, m, b) && Narrows(b, n, c) && m <= n
    ensures Narrows(a, m, c)
  {
  }

  /** A live, verified token with the permission, for this RP or for none yet. */
  predicate Authorizes(t: InUse, now: nat, permission: Permission, rpId: RpId) {
    Live(t, now) && permission in t.permissions && (t.rpId.Some? ==> t.rpId.value == rpId) && t.verified
  }

  class TokenState {
    var inUse: Option<InUse>
    var issued: nat

    /** A token that still has a permission other than lbw is verified. */
    ghost predicate Valid()
      reads this
    {
      inUse.Some? ==>
        && 1 <= inUse.value.id <= issued
        && (inUse.value.verified || inUse.value.permissions <= {Lbw})
    }

    constructor ()
      ensures Valid() && inUse == None && issued == 0
    {
      inUse, issued := None, 0;
    }

    /** Only the newest token is ever in use. */
    method BeginUsing(now: nat, protocol: nat, value: seq<byte>, present: bool, grant: Grant)
      requires Valid()
      modifies this
      ensures Valid() && issued == old(issued) + 1 && Narrows(old(inUse), old(issued), inUse)
      ensures inUse == Some(InUse(value, protocol, Some(grant.origin), grant.permissions, grant.rpId, now, issued,
                                  false, present, true))
    {
      issued := issued + 1;
      inUse := Some(InUse(value, protocol, Some(grant.origin), grant.permissions, grant.rpId, now, issued, false,
                          present, true));
    }

    method StopUsing()
      modifies this`inUse
      ensures inUse == None
    {
      inUse := None;
    }

    /** The usage timer: a token past a limit is no longer in use. */
    method Observe(now: nat)
      requires Valid()
      modifies this`inUse
      ensures Valid() && Narrows(old(inUse), issued, inUse)
      ensures inUse.Some? <==> old(inUse).Some? && Live(old(inUse).value, now)
      ensures inUse.Some? ==>
                && inUse.value == old(inUse).value.(present := inUse.value.present)
                && inUse.value.present == (old(inUse).value.present
                                           && Since(now, inUse.value.startedAt) < USER_PRESENT_TIME_LIMIT)
    {
      if inUse.None? {
        return;
      }
      var elapsed := Since(now, inUse.value.startedAt);
      if elapsed >= MAX_USAGE_TIME_PERIOD || (!inUse.value.used && elapsed >= INITIAL_USAGE_TIME_LIMIT) {
        StopUsing();
        return;
      }
      if elapsed >= USER_PRESENT_TIME_LIMIT {
        inUse := Some(inUse.value.(present := false));
      }
    }

    /** `verify`: `authentic` says the signature is the token's own under the
        given protocol. */
    method Verify(now: nat, protocol: nat, authentic: bool) returns (ok: bool)
      requires Valid()
      modifies this`inUse
      ensures Valid() && Narrows(old(inUse), issued, inUse)
      ensures inUse.Some? <==> old(inUse).Some? && Live(old(inUse).value, now)
      ensures ok <==> inUse.Some? && inUse.value.protocol == protocol && authentic
      ensures inUse.Some? ==>
                inUse.value == old(inUse).value.(present := inUse.value.present, used := old(inUse).value.used || ok)
    {
      Observe(now);
      if inUse.None? || inUse.value.protocol != protocol || !authentic {
        return false;
      }
      inUse := Some(inUse.value.(used := true));
      ok := true;
    }

    /** `consume_after_user_presence`: only lbw outlives it. */
    method Consume(now: nat)
      requires Valid()
      modifies this`inUse
      ensures Valid() && Narrows(old(inUse), issued, inUse)
      ensures inUse.Some? <==> old(inUse).Some? && Live(old(inUse).value, now)
      ensures inUse.Some? ==>
                && inUse.value.permissions == old(inUse).value.permissions * {Lbw} && inUse.value.origin == None
                && !inUse.value.verified && !inUse.value.present && inUse.value.rpId == old(inUse).value.rpId
    {
      Observe(now);
      if inUse.Some? {
        inUse := Some(inUse.value.(origin := None, present := false, verified := false,
                                   permissions := inUse.value.permissions * {Lbw}));
      }
    }

    /** `bind_permissions_rp_id`: the first RP ID stays. */
    method Bind(now: nat, rpId: RpId)
      requires Valid()
      modifies this`inUse
      ensures Valid() && Narrows(old(inUse), issued, inUse)
      ensures inUse.Some? <==> old(inUse).Some? && Live(old(inUse).value, now)
      ensures inUse.Some? ==>
                && inUse.value == old(inUse).value.(present := inUse.value.present, rpId := inUse.value.rpId)
                && inUse.value.rpId == Some(if old(inUse).value.rpId.Some? then old(inUse).value.rpId.value else rpId)
    {
      Observe(now);
      if inUse.Some? && inUse.value.rpId.None? {
        inUse := Some(inUse.value.(rpId := Some(rpId)));
      }
    }

    /** `authorize_rp_operation`. */
    method AuthorizeRpOperation(now: nat, permission: Permission, rpId: RpId) returns (ok: bool)
      requires Valid()
      modifies this`inUse
      ensures Valid() && Narrows(old(inUse), issued, inUse)
      ensures ok <==> old(inUse).Some? && Authorizes(old(inUse).value, now, permission, rpId)
      ensures ok ==>
                && inUse.Some? && Live(inUse.value, now)
                && inUse.value == old(inUse).value.(present := inUse.value.present, rpId := Some(rpId))
      ensures !ok && inUse.Some? ==> inUse.value == old(inUse).value.(present := inUse.value.present)
    {
      Observe(now);
      if inUse.None? || permission !in inUse.value.permissions {
        return false;
      }
      if inUse.value.rpId.Some? && inUse.value.rpId.value != rpId {
        return false;
      }
      if !inUse.value.verified {
        return false;
      }
      Bind(now, rpId);
      ok := true;
    }
  }
}
