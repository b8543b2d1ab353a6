/** Changing an organization's host: requested through the API, held as pending, promoted
    once DNS agrees. */
module HostChange {
  import opened Wrappers
  import opened Text
  import Json
  import ExtendedData

  /** `pending` is extended data's "unconfirmed_host". */
  datatype Organization = Organization(host: string, pending: Option<string>)

  type Organizations = map<int, Organization>

  datatype Error = FormInvalid | SameHost | DoesNotResolve | MissingAddress | RecordInvalid

  /** host_taken?: some other organization answers to this host now. */
  ghost predicate Taken(s: Organizations, id: int, host: string) {
    exists other :: other in s && other != id && s[other].host == host
  }

  // Requesting

  /** with_unconfirmed_host: the submitted host, else the pending one, else the current one. */
  function FormHost(o: Organization, submitted: Option<string>): string {
    submitted.GetOr(o.pending.GetOr(o.host))
  }

  /** save_organization. */
  function SaveOrganization(o: Organization, formHost: string): Organization {
    if BlankText(formHost) then o
    else o.(pending := if formHost == o.host then None else Some(formHost))
  }

  /** organizations_update!: `valid` stands for every other validation of the two forms and commands. */
  ghost function RequestHost(
    s: Organizations, id: int, submitted: Option<string>, valid: bool
  ): Result<Organizations, Error>
    requires id in s
  {
    var formHost := FormHost(s[id], submitted);
    if BlankText(formHost) || (formHost != s[id].host && Taken(s, id, formHost)) || !valid then Failure(FormInvalid)
    else Success(s[id := SaveOrganization(s[id], formHost)])
  }

  // Promoting

  /** The lookup lists every configured address. */
  predicate Agrees(addresses: seq<string>, dns: seq<string>) {
    forall a | a in addresses :: a in dns
  }

  /** SyncronizeUnconfirmedHost#call: `dns` is what the lookup of the pending host returns, and
      `saved` whether the organization record accepts it. */
  function Synchronize(
    o: Organization, addresses: seq<string>, dns: seq<string>, saved: bool
  ): Result<Organization, Error> {
    if o.pending.None? || BlankText(o.pending.value) then Success(o)
    else if o.host == o.pending.value then Failure(SameHost)
    else if addresses != [] && dns == [] then Failure(DoesNotResolve)
    else if addresses != [] && !Agrees(addresses, dns) then Failure(MissingAddress)
    else if !saved then Failure(RecordInvalid)
    else Success(Organization(o.pending.value, None))
  }

  // What a request and a sync come to

  /** A request goes through exactly if all else is valid and the host asked for (or still pending, or current) is
      not blank and is either the current one or no other organization's. It then waits as pending, or ends the
      waiting when it is the current one; nothing else changes. */
  lemma RequestOutcome(s: Organizations, id: int, submitted: Option<string>, valid: bool)
    requires id in s
    ensures var o := s[id];
            var asked := if submitted.Some? then submitted.value
                         else if o.pending.Some? then o.pending.value else o.host;
            var free := asked == o.host || forall other | other in s && other != id :: s[other].host != asked;
            var r := RequestHost(s, id, submitted, valid);
            && (r.Success? <==> valid && free && exists i :: 0 <= i < |asked| && !IsSpace(asked[i]))
            && (r.Success? ==>
                  r.value == s[id := Organization(o.host, if asked == o.host then None else Some(asked))])
            && (r.Failure? ==> r.error == FormInvalid)
  {
  }

  /** A sync does nothing without a pending host that is not blank. Otherwise the pending host becomes the current one,
      if it differs, every configured address is in a lookup that found something, or none is configured,
      and the record accepts it. */
  lemma SyncOutcome(o: Organization, addresses: seq<string>, dns: seq<string>, saved: bool)
    ensures var waiting := o.pending.Some? && exists i :: 0 <= i < |o.pending.value| && !IsSpace(o.pending.value[i]);
            var r := Synchronize(o, addresses, dns, saved);
            && (!waiting ==> r == Success(o))
            && (waiting ==>
                  var listed := forall a | a in addresses :: a in dns;
                  && (r == Failure(SameHost) <==> o.host == o.pending.value)
                  && (r == Failure(DoesNotResolve) <==> o.host != o.pending.value && |addresses| > 0 && |dns| == 0)
                  && (r == Failure(MissingAddress) <==> o.host != o.pending.value && |dns| > 0 && !listed)
                  && (r == Failure(RecordInvalid) <==>
                        o.host != o.pending.value && (|addresses| == 0 || |dns| > 0) && listed && !saved)
                  && (r.Success? ==> r.value == Organization(o.pending.value, None))
                  && r != Failure(FormInvalid))
  {
  }

  // Writing the extended data directly

  const KEY: string := "unconfirmed_host"

  /** The pending host an organization's extended data hold. */
  function PendingIn(h: Json.Hash): Option<string> {
    var v := ExtendedData.Fetch(Json.Obj(h), [KEY]);
    if v.Str? then Some(v.s) else None
  }

  lemma PendingKey(h: Json.Hash)
    ensures PendingIn(h) == if "unconfirmed_host" in h && h["unconfirmed_host"].Str?
                            then Some(h["unconfirmed_host"].s) else None
  {
    ExtendedData.FindAtKey(h, KEY);
  }

  /** Compaction drops blank text. */
  function Present(text: Option<string>): Option<string> {
    if text.Some? && BlankText(text.value) then None else text
  }

  /** An extended-data update that puts a text under the key, or takes it away; no check is made. */
  function WriteDirectly(o: Organization, value: Option<string>): Organization {
    o.(pending := Present(value))
  }

  /** Every update is such a write: it leaves whatever text it merged under the key, unless that is blank. At
      the root or at the key that is the text it puts there; paths elsewhere keep the pending host. */
  lemma UpdateWritesPending(h: Json.Hash, p: ExtendedData.Path, x: Json.Value)
    requires ExtendedData.Update(h, p, x).Success?
    ensures var before, after := PendingIn(h), PendingIn(ExtendedData.Update(h, p, x).value);
            && after == Present(PendingIn(ExtendedData.Merge(h, p, x).value))
            && (p == [] ==> after == Present(if KEY in x.fields then PendingIn(x.fields) else before))
            && (p == [KEY] && x.Str? ==> after == Present(Some(x.s)))
            && (p != [] && p[0] != KEY ==> after == Present(before))
  {
    var m := ExtendedData.Merge(h, p, x).value;
    hide ExtendedData.Compact, ExtendedData.CompactHash, ExtendedData.Find, ExtendedData.Cleared;
    CompactedPending(m);
    if p != [] && p[0] != KEY {
      ExtendedData.MergeFrame(h, p, x, [KEY]);
    }
    ExtendedData.FindAtKey(h, KEY);
    ExtendedData.FindAtKey(m, KEY);
    if x.Obj? {
      ExtendedData.FindAtKey(x.fields, KEY);
    }
  }

  lemma CompactedPending(h: Json.Hash)
    ensures PendingIn(ExtendedData.CompactHash(h)) == Present(PendingIn(h))
  {
    var v := ExtendedData.Fetch(Json.Obj(h), [KEY]);
    ExtendedData.FetchCompact(Json.Obj(h), [KEY]);
    ExtendedData.CompactOfHash(h);
    if v.Str? {
      ExtendedData.ClearedText(v.s);
    }
  }

  // Runs

  datatype Op =
    | RequestOp(id: int, submitted: Option<string>, valid: bool)
    | SyncOp(id: int, addresses: seq<string>, dns: seq<string>, saved: bool)
    | WriteOp(id: int, value: Option<string>)

  ghost function Step(s: Organizations, op: Op): Organizations
    requires op.id in s
  {
    match op
    case RequestOp(id, submitted, valid) =>
      (match RequestHost(s, id, submitted, valid) case Success(s') => s' case Failure(_) => s)
    case SyncOp(id, addresses, dns, saved) =>
      (match Synchronize(s[id], addresses, dns, saved) case Success(o) => s[id := o] case Failure(_) => s)
    case WriteOp(id, value) => s[id := WriteDirectly(s[id], value)]
  }

  /** No host is pending that is blank or already current. */
  ghost predicate Inv(s: Organizations) {
    forall id | id in s :: s[id].pending.Some? ==> s[id].pending.value != s[id].host && !BlankText(s[id].pending.value)
  }

  ghost predicate Run(states: seq<Organizations>, ops: seq<Op>) {
    && |states| == |ops| + 1
    && forall i | 0 <= i < |ops| :: ops[i].id in states[i] && states[i + 1] == Step(states[i], ops[i])
  }

  lemma {:induction false} RunKeepsKeys(states: seq<Organizations>, ops: seq<Op>, k: nat)
    requires Run(states, ops) && k <= |ops|
    ensures states[k].Keys == states[0].Keys
  {
    if k > 0 {
      RunKeepsKeys(states, ops, k - 1);
      assert states[k] == Step(states[k - 1], ops[k - 1]);
    }
  }

  /** A direct write that puts no current host under the key. */
  ghost predicate Harmless(s: Organizations, op: Op)
    requires op.id in s
  {
    op.WriteOp? ==> Present(op.value) != Some(s[op.id].host)
  }

  /** Requests and syncs keep the invariant, and a direct write does exactly when it does not put the
      current host there; else every sync fails on equal hosts. */
  lemma StepKeepsInvIff(s: Organizations, op: Op)
    requires Inv(s) && op.id in s
    ensures Inv(Step(s, op)) <==> Harmless(s, op)
    ensures !Harmless(s, op) ==>
              forall addresses, dns, saved ::
                Synchronize(Step(s, op)[op.id], addresses, dns, saved) == Failure(SameHost)
  {
    if !Harmless(s, op) {
      assert Step(s, op)[op.id].pending == Some(s[op.id].host);
    }
  }

  ghost predicate AllInv(states: seq<Organizations>, k: nat)
    requires k < |states|
  {
    forall i | 0 <= i <= k :: Inv(states[i])
  }

  ghost predicate AllHarmless(states: seq<Organizations>, ops: seq<Op>, k: nat)
    requires k <= |ops| && k < |states| && forall i | 0 <= i < k :: ops[i].id in states[i]
  {
    forall i | 0 <= i < k :: Harmless(states[i], ops[i])
  }

  /** Over every run the pending host stays absent or different from the current one exactly when no
      direct write puts the current host there. */
  lemma {:induction false} RunKeepsInvIff(states: seq<Organizations>, ops: seq<Op>, k: nat)
    requires Run(states, ops) && Inv(states[0]) && k <= |ops|
    ensures AllInv(states, k) <==> AllHarmless(states, ops, k)
  {
    hide Step, Inv, Harmless;
    if k > 0 {
      RunKeepsInvIff(states, ops, k - 1);
      assert AllInv(states, k) <==> AllInv(states, k - 1) && Inv(states[k]);
      assert AllHarmless(states, ops, k) <==> AllHarmless(states, ops, k - 1) && Harmless(states[k - 1], ops[k - 1]);
      if AllInv(states, k - 1) {
        StepKeepsInvIff(states[k - 1], ops[k - 1]);
      }
    }
  }

  /** So in runs without such writes the check for equal hosts never fires. */
  lemma SameHostNeverFires(
    states: seq<Organizations>, ops: seq<Op>, k: nat, id: int, addresses: seq<string>, dns: seq<string>, saved: bool
  )
    requires Run(states, ops) && Inv(states[0]) && k <= |ops| && id in states[k]
    requires AllHarmless(states, ops, k)
    ensures Synchronize(states[k][id], addresses, dns, saved) != Failure(SameHost)
  {
    RunKeepsInvIff(states, ops, k);
  }

  /** The failing input: the current host written under the key. */
  lemma CurrentHostWritten()
    ensures var s: Organizations := map[1 := Organization("a", None)];
            var s' := Step(s, WriteOp(1, Some("a")));
            Inv(s) && !Inv(s') && Synchronize(s'[1], [], [], true) == Failure(SameHost)
  {
    var s: Organizations := map[1 := Organization("a", None)];
    assert !BlankText("a") by { assert "a"[0] == 'a'; }
    StepKeepsInvIff(s, WriteOp(1, Some("a")));
  }

  /** A host changes only to the pending one, in a sync step whose lookup lists every configured address. */
  ghost predicate HostStep(s: Organizations, op: Op, s': Organizations, id: int)
    requires id in s && id in s'
  {
    s'[id].host != s[id].host ==>
      && op.SyncOp? && op.id == id
      && s[id].pending == Some(s'[id].host) && s'[id].pending == None
      && (op.addresses == [] || (op.dns != [] && Agrees(op.addresses, op.dns)))
  }

  lemma HostChangesOnlyByPromotion(states: seq<Organizations>, ops: seq<Op>, k: nat, id: int)
    requires Run(states, ops) && k < |ops| && id in states[0]
    ensures id in states[k] && id in states[k + 1] && HostStep(states[k], ops[k], states[k + 1], id)
  {
    RunKeepsKeys(states, ops, k);
    RunKeepsKeys(states, ops, k + 1);
  }

  /** The operation asks for a host of the organization: a request of that very host, or a direct write. */
  ghost predicate Asks(op: Op, id: int, host: string) {
    op.id == id && ((op.RequestOp? && op.submitted == Some(host)) || (op.WriteOp? && op.value == Some(host)))
  }

  ghost predicate Requested(ops: seq<Op>, id: int, host: string) {
    exists j :: 0 <= j < |ops| && Asks(ops[j], id, host)
  }

  lemma RequestedGrows(ops: seq<Op>, k: nat, id: int)
    requires 0 < k <= |ops|
    ensures forall h :: Requested(ops[..k - 1], id, h) ==> Requested(ops[..k], id, h)
  {
    forall h | Requested(ops[..k - 1], id, h) ensures Requested(ops[..k], id, h) {
      var j :| 0 <= j < k - 1 && Asks(ops[..k - 1][j], id, h);
      assert ops[..k][j] == ops[..k - 1][j];
    }
  }

  /** Where one step takes an organization's hosts from. */
  lemma StepOnOrganization(s: Organizations, op: Op, id: int)
    requires op.id in s && id in s
    ensures id in Step(s, op)
    ensures var o, o' := s[id], Step(s, op)[id];
            && (o'.pending == o.pending || o'.pending == None
                || (o'.pending.Some? && Asks(op, id, o'.pending.value)))
            && (o'.host == o.host || Some(o'.host) == o.pending)
  {
  }

  lemma {:induction false} PendingWasRequested(states: seq<Organizations>, ops: seq<Op>, k: nat, id: int)
    requires Run(states, ops) && k <= |ops| && id in states[0]
    ensures id in states[k]
    ensures states[k][id].pending.Some? ==>
              states[k][id].pending == states[0][id].pending || Requested(ops[..k], id, states[k][id].pending.value)
    ensures states[k][id].host == states[0][id].host || Some(states[k][id].host) == states[0][id].pending
            || Requested(ops[..k], id, states[k][id].host)
  {
    if k > 0 {
      PendingWasRequested(states, ops, k - 1, id);
      StepOnOrganization(states[k - 1], ops[k - 1], id);
      hide Step, Requested, Asks;
      RequestedGrows(ops, k, id);
      LastRequested(ops, k, id);
    }
  }

  lemma LastRequested(ops: seq<Op>, k: nat, id: int)
    requires 0 < k <= |ops|
    ensures forall h :: Asks(ops[k - 1], id, h) ==> Requested(ops[..k], id, h)
  {
    assert ops[..k][k - 1] == ops[k - 1];
  }

  /** After a promotion, or with nothing pending, no sync changes the organization or fails until the
      next request or direct write for it, whatever DNS says and whatever happens to the others. */
  lemma {:induction false} SyncSettles(states: seq<Organizations>, ops: seq<Op>, j: nat, k: nat, id: int)
    requires Run(states, ops) && j < k <= |ops| && id in states[0]
    requires ops[j].SyncOp? && ops[j].id == id
    requires forall i | j < i < k :: ops[i].id == id ==> ops[i].SyncOp?
    ensures id in states[j] && id in states[k]
    ensures states[j][id].pending.None? || Promotes(states[j][id], ops[j]) ==>
              && states[k][id] == Organization(states[j][id].pending.GetOr(states[j][id].host), None)
              && forall addresses, dns, saved ::
                  Synchronize(states[k][id], addresses, dns, saved) == Success(states[k][id])
  {
    RunKeepsKeys(states, ops, j);
    RunKeepsKeys(states, ops, k - 1);
    RunKeepsKeys(states, ops, k);
    if j + 1 < k {
      SyncSettles(states, ops, j, k - 1, id);
    }
  }

  // Distinct hosts

  ghost predicate DistinctHosts(s: Organizations) {
    forall a, b | a in s && b in s && a != b :: s[a].host != s[b].host
  }

  /** A sync that gets as far as writing the host, which the record then accepts. */
  predicate Promotes(o: Organization, op: Op) {
    && op.SyncOp? && op.saved
    && o.pending.Some? && o.pending.value != o.host && !BlankText(o.pending.value)
    && (op.addresses == [] || (op.dns != [] && Agrees(op.addresses, op.dns)))
  }

  /** A promotion onto a host that another organization answers to by now. */
  ghost predicate TakesOver(s: Organizations, op: Op)
    requires op.id in s
  {
    Promotes(s[op.id], op) && Taken(s, op.id, s[op.id].pending.value)
  }

  lemma StepHosts(s: Organizations, op: Op)
    requires op.id in s
    ensures Step(s, op).Keys == s.Keys
    ensures forall a | a in s && a != op.id :: Step(s, op)[a] == s[a]
    ensures Step(s, op)[op.id].host == if Promotes(s[op.id], op) then s[op.id].pending.value else s[op.id].host
  {
  }

  /** Requests check that a host is free, promotions do not: a step keeps hosts distinct exactly
      when it is no promotion onto a host that has been taken since. */
  lemma DistinctHostsIffFree(s: Organizations, op: Op)
    requires DistinctHosts(s) && op.id in s
    ensures DistinctHosts(Step(s, op)) <==> !TakesOver(s, op)
  {
    hide Step;
    var s', id := Step(s, op), op.id;
    StepHosts(s, op);
    if TakesOver(s, op) {
      var other :| other in s && other != id && s[other].host == s[id].pending.value;
      assert s'[other].host == s'[id].host;
    } else {
      forall a, b | a in s' && b in s' && a != b ensures s'[a].host != s'[b].host {
        assert a == id || s'[a] == s[a];
        assert b == id || s'[b] == s[b];
      }
    }
  }

  ghost predicate AllDistinct(states: seq<Organizations>, k: nat)
    requires k < |states|
  {
    forall i | 0 <= i <= k :: DistinctHosts(states[i])
  }

  ghost predicate NoTakeover(states: seq<Organizations>, ops: seq<Op>, k: nat)
    requires k <= |ops| && k < |states| && forall i | 0 <= i < k :: ops[i].id in states[i]
  {
    forall i | 0 <= i < k :: !TakesOver(states[i], ops[i])
  }

  /** Over every run hosts stay distinct exactly when the record refuses each host that is taken. */
  lemma {:induction false} RunKeepsHostsDistinctIff(states: seq<Organizations>, ops: seq<Op>, k: nat)
    requires Run(states, ops) && DistinctHosts(states[0]) && k <= |ops|
    ensures forall i | 0 <= i < k :: ops[i].id in states[i]
    ensures AllDistinct(states, k) <==> NoTakeover(states, ops, k)
  {
    hide Step, DistinctHosts, TakesOver;
    if k > 0 {
      RunKeepsHostsDistinctIff(states, ops, k - 1);
      assert AllDistinct(states, k) <==> AllDistinct(states, k - 1) && DistinctHosts(states[k]);
      assert NoTakeover(states, ops, k) <==> NoTakeover(states, ops, k - 1) && !TakesOver(states[k - 1], ops[k - 1]);
      if AllDistinct(states, k - 1) {
        DistinctHostsIffFree(states[k - 1], ops[k - 1]);
      }
    }
  }

  /** The failing input, if the record accepts it: two organizations wait for one host, which was
      free when each asked for it, and both are promoted. */
  lemma TwoPromotionsOneHost()
    ensures var s: Organizations := map[1 := Organization("a", None), 2 := Organization("b", None)];
            var s1 := Step(s, RequestOp(1, Some("c"), true));
            var s2 := Step(s1, RequestOp(2, Some("c"), true));
            var s3 := Step(s2, SyncOp(1, [], [], true));
            var s4 := Step(s3, SyncOp(2, [], [], true));
            && Inv(s) && DistinctHosts(s) && DistinctHosts(s3) && TakesOver(s3, SyncOp(2, [], [], true))
            && s4[1].host == "c" && s4[2].host == "c"
  {
    var s: Organizations := map[1 := Organization("a", None), 2 := Organization("b", None)];
    assert "a"[0] == 'a' && "b"[0] == 'b' && "c"[0] == 'c';
    assert !BlankText("c");
    var s1 := Step(s, RequestOp(1, Some("c"), true));
    assert s1 == s[1 := Organization("a", Some("c"))];
    var s2 := Step(s1, RequestOp(2, Some("c"), true));
    assert s2 == s1[2 := Organization("b", Some("c"))];
    var s3 := Step(s2, SyncOp(1, [], [], true));
    assert s3 == s2[1 := Organization("c", None)];
    assert 1 in s3 && s3[1].host == "c";
  }

  // The records

  class OrganizationRecord {
    var host: string
    var pending: Option<string>

    constructor (host: string)
      ensures this.host == host && pending == None
    {
      this.host := host;
      pending := None;
    }

    ghost function Snapshot(): Organization
      reads this
    {
      Organization(host, pending)
    }

    /** The API form's submitted host, saved by the command override. */
    method Save(submitted: Option<string>)
      modifies `pending
      ensures Snapshot() == SaveOrganization(old(Snapshot()), FormHost(old(Snapshot()), submitted))
    {
      var formHost := if submitted.Some? then submitted.value else if pending.Some? then pending.value else host;
      if !BlankText(formHost) {
        pending := if formHost == host then None else Some(formHost);
      }
    }

    method UpdateHost()
      requires pending.Some?
      modifies this
      ensures host == old(pending).value && pending == None
    {
      host := pending.value;
      pending := None;
    }

    method Call(addresses: seq<string>, dns: seq<string>, saved: bool) returns (r: Result<(), Error>)
      modifies this
      ensures match Synchronize(old(Snapshot()), addresses, dns, saved)
              case Success(o) => r.Success? && Snapshot() == o
              case Failure(e) => r == Failure(e) && Snapshot() == old(Snapshot())
    {
      if pending.None? || BlankText(pending.value) {
        return Success(());
      }
      if host == pending.value {
        return Failure(SameHost);
      }
      if addresses != [] {
        if dns == [] {
          return Failure(DoesNotResolve);
        }
        var i := 0;
        while i < |addresses|
          invariant 0 <= i <= |addresses|
          invariant forall j | 0 <= j < i :: addresses[j] in dns
        {
          if addresses[i] !in dns {
            return Failure(MissingAddress);
          }
          i := i + 1;
        }
      }
      if !saved {
        return Failure(RecordInvalid);
      }
      UpdateHost();
      r := Success(());
    }
  }
}
