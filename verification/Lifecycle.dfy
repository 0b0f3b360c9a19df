/**
  The process-wide registry of background loops (poll loops of sni_tls, advertisers of
  radnr): both plugins share this start/stop protocol, driven by hooks that a restart may
  call twice, out of order, or not at all.
*/
module Lifecycle {

  /** One running loop, and the server instance that started it. */
  class Handle {
    const owner: nat
    var cancelled: bool

    constructor (owner: nat)
      ensures this.owner == owner && !cancelled
    {
      this.owner, cancelled := owner, false;
    }
  }

  /** A plugin object set up for one server instance. */
  class Plugin {
    const owner: nat
    var running: Handle?

    constructor (owner: nat)
      ensures this.owner == owner && running == null
    {
      this.owner, running := owner, null;
    }
  }

  datatype Call = Start(p: Plugin, ready: bool) | Stop(p: Plugin)

  class Registry {
    var live: set<Handle>
    ghost var handles: set<Handle>  // every loop ever started
    ghost var plugins: set<Plugin>  // every object that ever called in

    ghost predicate Valid()
      reads this, handles, plugins
    {
      // The registry is exactly the loops still running, all of one instance.
      && live <= handles
      && (forall h :: h in handles ==> (h in live <==> !h.cancelled))
      && (forall h, k :: h in live && k in live ==> h.owner == k.owner)
      // Each of them is the running loop of one object, and of no other.
      && (forall h :: h in live ==> exists p :: p in plugins && p.running == h)
      && (forall p :: p in plugins && p.running != null ==> p.running in handles && p.running.owner == p.owner)
      && (forall p, q :: p in plugins && q in plugins && p.running != null && p.running == q.running ==> p == q)
    }

    ghost predicate Knows(p: Plugin)
      reads this, p
    {
      p in plugins || p.running == null
    }

    constructor ()
      ensures Valid() && live == {} && handles == {} && plugins == {}
    {
      live, handles, plugins := {}, {}, {};
    }

    /** Cancels p's previous loop and every loop some other instance left running. */
    method Sweep(p: Plugin)
      requires Valid() && Knows(p)
      modifies this`live, handles
      ensures live == set h | h in old(live) && h != p.running && h.owner == p.owner
      ensures forall h :: h in handles ==> h.cancelled == (h !in live)
    {
      ghost var before := live;
      var todo := live;
      while todo != {}
        invariant todo <= before
        invariant live == set h | h in before && (h in todo || (h != p.running && h.owner == p.owner))
        invariant forall h :: h in handles ==> h.cancelled == (h !in live)
        decreases |todo|
      {
        var h :| h in todo;
        if h == p.running || h.owner != p.owner {
          h.cancelled := true;
          live := live - {h};
        }
        todo := todo - {h};
      }
    }

    /** Registers a new loop for p, after the sweep. */
    method Adopt(p: Plugin)
      requires Valid() && Knows(p)
      modifies this, p, handles
      ensures Valid() && plugins == old(plugins) + {p}
      ensures p.running != null && fresh(p.running) && p.running.owner == p.owner && !p.running.cancelled
      ensures live == (set h | h in old(live) && h != old(p.running) && h.owner == p.owner) + {p.running}
      ensures handles == old(handles) + {p.running}
    {
      Sweep(p);
      ghost var rest := live;
      var h := new Handle(p.owner);
      p.running := h;
      live := live + {h};
      handles := handles + {h};
      plugins := plugins + {p};
      assert p.running == h;
      forall k | k in live
        ensures exists q :: q in plugins && q.running == k
      {
        if k != h {
          assert k in rest && k in old(live) && k != old(p.running);
          var q :| q in old(plugins) && old(q.running) == k;
          assert q != p && q.running == k;
        }
      }
    }

    /** A start whose configuration or socket fails changes nothing and keeps the old loop. */
    method OnStartup(p: Plugin, ready: bool) returns (ok: bool)
      requires Valid() && Knows(p)
      modifies this, p, handles
      ensures Valid() && plugins == old(plugins) + (if ready then {p} else {})
      ensures ok == ready
      ensures !ok ==> unchanged(this) && unchanged(p) && unchanged(old(handles))
      ensures ok ==> p.running != null && p.running in live && fresh(p.running)
      ensures ok ==> forall h :: h in live ==> h.owner == p.owner
      ensures ok ==> forall h :: h in old(live) && h.owner == p.owner && h != old(p.running) ==> h in live
      ensures old(handles) <= handles && fresh(handles - old(handles))
    {
      if !ready {
        return false;
      }
      Adopt(p);
      return true;
    }

    /** Safe to call on an object that never started, or whose loop was already swept. */
    method OnShutdown(p: Plugin)
      requires Valid() && Knows(p)
      modifies this`live, p, handles
      ensures Valid() && p.running == null
      ensures live == old(live) - (if old(p.running) == null then {} else {old(p.running)})
    {
      if p.running != null {
        ghost var gone := p.running;
        p.running.cancelled := true;
        live := live - {p.running};
        p.running := null;
        forall k | k in live
          ensures exists q :: q in plugins && q.running == k
        {
          assert k in old(live) && k != gone;
          var q :| q in plugins && old(q.running) == k;
          assert q != p;
        }
      }
    }

    /** Any sequence of hooks on any objects of any instances. */
    method Drive(calls: seq<Call>)
      requires Valid()
      requires forall i :: 0 <= i < |calls| ==> Knows(calls[i].p)
      modifies this, handles, set i | 0 <= i < |calls| :: calls[i].p
      ensures Valid()
      ensures forall i :: 0 <= i < |calls| ==> Knows(calls[i].p)
    {
      var i := 0;
      while i < |calls|
        invariant 0 <= i <= |calls|
        invariant Valid() && old(handles) <= handles && fresh(handles - old(handles))
        invariant forall j :: 0 <= j < |calls| ==> Knows(calls[j].p)
      {
        match calls[i] {
          case Start(p, ready) =>
            var _ := OnStartup(p, ready);
          case Stop(p) =>
            OnShutdown(p);
        }
        i := i + 1;
      }
    }

    /** Stopping every object of the instance that is live leaves no loop running at all. */
    method StopAll(ps: set<Plugin>, owner: nat)
      requires Valid() && ps <= plugins
      requires forall h :: h in live ==> h.owner == owner
      requires forall p :: p in plugins && p.owner == owner ==> p in ps
      modifies this`live, ps, handles
      ensures Valid() && live == {}
      ensures forall h :: h in handles ==> h.cancelled
    {
      var todo := ps;
      while todo != {}
        invariant todo <= ps && Valid()
        invariant live <= old(live)
        invariant forall p :: p in ps - todo ==> p.running == null
        invariant forall p :: p in plugins - ps ==> p.running == old(p.running)
        decreases |todo|
      {
        var p :| p in todo;
        OnShutdown(p);
        todo := todo - {p};
      }
    }
  }
}
