/** Fanning an event out to the webhook registrations of permitted clients. */
module Webhooks {

  datatype Permission = Permission(client: int, name: string)

  datatype Registration = Registration(id: int, client: int, subscriptions: set<string>)

  datatype World = World(clients: map<int, int>, permissions: seq<Permission>, registrations: set<Registration>)

  /** permissions_for. */
  predicate Permits(w: World, p: Permission, event: string, organization: int) {
    p.name == event && p.client in w.clients && w.clients[p.client] == organization
  }

  /** webhook_registrations_for. */
  function RegistrationsFor(w: World, client: int, event: string): set<Registration> {
    set r | r in w.registrations && r.client == client && event in r.subscriptions
  }

  /** How many permission rows let a client receive the event. */
  function Grants(w: World, ps: seq<Permission>, client: int, event: string, organization: int): nat {
    if ps == [] then 0
    else
      (if ps[0].client == client && Permits(w, ps[0], event, organization) then 1 else 0)
      + Grants(w, ps[1..], client, event, organization)
  }

  /** The registrations that should hear of the event: `valid` is the payload form's verdict for a client. */
  function Targets(w: World, event: string, organization: int, valid: int -> bool): set<Registration> {
    set r | r in w.registrations && event in r.subscriptions && valid(r.client)
            && Permission(r.client, event) in w.permissions
            && r.client in w.clients && w.clients[r.client] == organization
  }

  /** The unique index on (client, permission). */
  ghost predicate UniquePermissions(w: World) {
    forall i, j | 0 <= i < j < |w.permissions| :: w.permissions[i] != w.permissions[j]
  }

  /** How often a registration is enqueued for the given permission rows. */
  function Deliveries(
    w: World, ps: seq<Permission>, event: string, organization: int, valid: int -> bool, r: Registration
  ): nat {
    if r in w.registrations && event in r.subscriptions && valid(r.client)
        then Grants(w, ps, r.client, event, organization) else 0
  }

  lemma {:induction false} GrantsOfUnique(w: World, ps: seq<Permission>, client: int, event: string, organization: int)
    requires forall i, j | 0 <= i < j < |ps| :: ps[i] != ps[j]
    ensures var p := Permission(client, event);
            Grants(w, ps, client, event, organization) == if p in ps && Permits(w, p, event, organization) then 1 else 0
  {
    if ps != [] {
      GrantsOfUnique(w, ps[1..], client, event, organization);
      assert ps == [ps[0]] + ps[1..];
      assert ps[0] !in ps[1..];
      assert ps[0].client == client && ps[0].name == event ==> ps[0] == Permission(client, event);
    }
  }

  lemma {:induction false} GrantsAppend(
    w: World, ps: seq<Permission>, p: Permission, client: int, event: string, organization: int
  )
    ensures Grants(w, ps + [p], client, event, organization)
         == Grants(w, ps, client, event, organization) + if p.client == client && Permits(w, p, event, organization)
             then 1 else 0
    decreases |ps|
  {
    if ps == [] {
      assert ps + [p] == [p];
    } else {
      assert (ps + [p])[1..] == ps[1..] + [p];
      GrantsAppend(w, ps[1..], p, client, event, organization);
    }
  }

  /** With unique permissions each target is due once and every other registration never. */
  lemma DeliveriesAreTargets(w: World, event: string, organization: int, valid: int -> bool, r: Registration)
    requires UniquePermissions(w)
    ensures Deliveries(w, w.permissions, event, organization, valid, r)
         == multiset(Targets(w, event, organization, valid))[r]
  {
    GrantsOfUnique(w, w.permissions, r.client, event, organization);
  }

  lemma {:induction false} GrantsCountRows(w: World, ps: seq<Permission>, client: int, event: string, organization: int)
    ensures var p := Permission(client, event);
            Grants(w, ps, client, event, organization) == if Permits(w, p, event, organization) then multiset(ps)[p]
                else 0
  {
    if ps != [] {
      GrantsCountRows(w, ps[1..], client, event, organization);
      assert ps == [ps[0]] + ps[1..];
      assert ps[0].client == client && ps[0].name == event ==> ps[0] == Permission(client, event);
    }
  }

  /** The deliveries are the targets, each once, exactly when no permission a target relies on has two rows. */
  lemma ExactlyOnceIffUnique(w: World, event: string, organization: int, valid: int -> bool)
    ensures (forall r :: Deliveries(w, w.permissions, event, organization, valid, r)
                           == multiset(Targets(w, event, organization, valid))[r])
       <==> forall r | r in Targets(w, event, organization, valid) ::
              multiset(w.permissions)[Permission(r.client, event)] == 1
  {
    var targets := Targets(w, event, organization, valid);
    forall r: Registration
      ensures Deliveries(w, w.permissions, event, organization, valid, r)
           == if r in targets then multiset(w.permissions)[Permission(r.client, event)] else 0
    {
      GrantsCountRows(w, w.permissions, r.client, event, organization);
    }
  }

  /** A second row for the same permission enqueues its registrations again. */
  lemma DuplicatePermissionDeliversTwice()
    ensures var r := Registration(1, 7, {"e"});
            var w := World(map[7 := 1], [Permission(7, "e"), Permission(7, "e")], {r});
            Deliveries(w, w.permissions, "e", 1, _ => true, r) == 2
  {
  }

  class WebhookJobs {
    const world: World
    var enqueued: seq<Registration>

    constructor (world: World)
      ensures this.world == world && enqueued == []
    {
      this.world := world;
      enqueued := [];
    }

    method DispatchForPermission(client: int, event: string, valid: bool)
      modifies this
      ensures multiset(enqueued) == multiset(old(enqueued))
                + if valid then multiset(RegistrationsFor(world, client, event)) else multiset{}
    {
      if !valid {
        return;
      }
      var all := RegistrationsFor(world, client, event);
      var left := all;
      while left != {}
        invariant left <= all
        invariant multiset(enqueued) == multiset(old(enqueued)) + multiset(all - left)
        decreases left
      {
        var registration :| registration in left;
        enqueued := enqueued + [registration];
        left := left - {registration};
        assert all - left == (all - (left + {registration})) + {registration};
      }
      assert all - {} == all;
    }

    /** The nested loops: every registration is enqueued as often as its deliveries say. */
    method DispatchAll(event: string, organization: int, valid: int -> bool)
      modifies this
      ensures forall r :: multiset(enqueued)[r]
                == multiset(old(enqueued))[r] + Deliveries(world, world.permissions, event, organization, valid, r)
    {
      var i := 0;
      while i < |world.permissions|
        invariant 0 <= i <= |world.permissions|
        invariant forall r :: multiset(enqueued)[r]
                    == multiset(old(enqueued))[r] + Deliveries(world, world.permissions[..i], event, organization,
                        valid, r)
      {
        var p := world.permissions[i];
        assert world.permissions[..i + 1] == world.permissions[..i] + [p];
        forall r: Registration
          ensures Grants(world, world.permissions[..i + 1], r.client, event, organization)
               == Grants(world, world.permissions[..i], r.client, event, organization)
                  + if p.client == r.client && Permits(world, p, event, organization) then 1 else 0
        {
          GrantsAppend(world, world.permissions[..i], p, r.client, event, organization);
        }
        if Permits(world, p, event, organization) {
          DispatchForPermission(p.client, event, valid(p.client));
        }
        i := i + 1;
      }
      assert world.permissions[..i] == world.permissions;
    }

    /** SpaceWebhookJob#perform. */
    method PerformSpace(event: string, organization: int, valid: int -> bool)
      requires UniquePermissions(world)
      modifies this
      ensures multiset(enqueued) == multiset(old(enqueued)) + multiset(Targets(world, event, organization, valid))
    {
      DispatchAll(event, organization, valid);
      forall r
        ensures multiset(enqueued)[r]
          == multiset(old(enqueued))[r] + multiset(Targets(world, event, organization, valid))[r]
      {
        DeliveriesAreTargets(world, event, organization, valid, r);
      }
    }

    /** ProposalWebhookJob#perform: nothing when the proposals module is disabled. */
    method PerformProposal(event: string, organization: int, moduleEnabled: bool, valid: int -> bool)
      requires UniquePermissions(world)
      modifies this
      ensures multiset(enqueued) == multiset(old(enqueued))
                + if moduleEnabled then multiset(Targets(world, event, organization, valid)) else multiset{}
    {
      if moduleEnabled {
        PerformSpace(event, organization, valid);
      }
    }
  }
}
