/** OML and RSL links of BTSs that depend on each other (src/osmo-bsc/bts_ipaccess_nanobts.c,
    bts_depend_* in src/osmo-bsc/gsm_data.c). A BTS is its number. */
module BtsLinks {

  // ----- dependency chains -----

  /** deps[b] are the BTSs that b depends on. */
  predicate DependsOn(deps: seq<set<nat>>, base: nat, other: nat) {
    base < |deps| && other in deps[base]
  }

  /** BTSs of s, each depending on the one before. */
  predicate Chain(deps: seq<set<nat>>, s: set<nat>, path: seq<nat>) {
    && path != [] && path[|path| - 1] in s
    && (|path| == 1 || (DependsOn(deps, path[|path| - 1], path[|path| - 2]) && Chain(deps, s, path[..|path| - 1])))
  }

  /** to is from, or depends on it through BTSs of s. */
  ghost predicate Reaches(deps: seq<set<nat>>, s: set<nat>, from: nat, to: nat) {
    exists path :: Chain(deps, s, path) && path[0] == from && path[|path| - 1] == to
  }

  lemma ReachesSelf(deps: seq<set<nat>>, s: set<nat>, b: nat)
    requires b in s
    ensures Reaches(deps, s, b, b)
  {
    assert Chain(deps, s, [b]);
  }

  lemma ReachesNext(deps: seq<set<nat>>, s: set<nat>, b: nat, x: nat, y: nat)
    requires Reaches(deps, s, b, x) && y in s && DependsOn(deps, y, x)
    ensures Reaches(deps, s, b, y)
  {
    var path :| Chain(deps, s, path) && path[0] == b && path[|path| - 1] == x;
    assert (path + [y])[..|path|] == path;
    assert Chain(deps, s, path + [y]);
  }

  /** A chain inside a smaller set, prolonged at its start. */
  lemma {:induction false} ChainFrom(deps: seq<set<nat>>, s: set<nat>, s': set<nat>, b: nat, path: seq<nat>)
    requires Chain(deps, s', path) && s' <= s && b in s && DependsOn(deps, path[0], b)
    ensures Reaches(deps, s, b, path[|path| - 1])
    decreases |path|
  {
    if |path| == 1 {
      ReachesSelf(deps, s, b);
      ReachesNext(deps, s, b, b, path[0]);
    } else {
      ChainFrom(deps, s, s', b, path[..|path| - 1]);
      ReachesNext(deps, s, b, path[|path| - 2], path[|path| - 1]);
    }
  }

  lemma ReachesVia(deps: seq<set<nat>>, s: set<nat>, s': set<nat>, b: nat, r: nat, x: nat)
    requires Reaches(deps, s', r, x) && s' <= s && b in s && DependsOn(deps, r, b)
    ensures Reaches(deps, s, b, x)
  {
    var path :| Chain(deps, s', path) && path[0] == r && path[|path| - 1] == x;
    ChainFrom(deps, s, s', b, path);
  }

  /** Whatever was taken down has taken its dependents down. */
  ghost predicate ClosedDown(deps: seq<set<nat>>, was: set<nat>, now: set<nat>) {
    forall x, y :: x in was && x !in now && DependsOn(deps, y, x) ==> y !in now
  }

  lemma {:induction false} ChainDown(deps: seq<set<nat>>, was: set<nat>, now: set<nat>, path: seq<nat>)
    requires Chain(deps, was, path) && ClosedDown(deps, was, now) && path[0] !in now
    ensures path[|path| - 1] !in now
    decreases |path|
  {
    if |path| > 1 {
      ChainDown(deps, was, now, path[..|path| - 1]);
      ChainInside(deps, was, path[..|path| - 1]);
    }
  }

  lemma ChainInside(deps: seq<set<nat>>, s: set<nat>, path: seq<nat>)
    requires Chain(deps, s, path)
    ensures path[|path| - 1] in s
  {
  }

  /** The result of a drop: exactly the chains from b are down. */
  ghost predicate DropsChains(deps: seq<set<nat>>, was: set<nat>, now: set<nat>, b: nat) {
    now <= was && forall x :: x in was ==> (x !in now <==> Reaches(deps, was, b, x))
  }

  lemma DropsChainsClosed(deps: seq<set<nat>>, was: set<nat>, now: set<nat>, b: nat)
    requires DropsChains(deps, was, now, b)
    ensures ClosedDown(deps, was, now)
  {
    forall x, y | x in was && x !in now && DependsOn(deps, y, x) ensures y !in now {
      if y in was {
        ReachesNext(deps, was, b, x, y);
      }
    }
  }

  // ----- the recursion of ipaccess_drop_oml -----

  /** Where the loop over the reverse dependencies of b stands before BTS r. */
  ghost predicate Dropping(deps: seq<set<nat>>, was: set<nat>, now: set<nat>, b: nat, r: nat) {
    && now <= was - {b} && b in was
    && (forall x :: x in was && x !in now ==> Reaches(deps, was, b, x))
    && (forall x, y :: x in was && x !in now && x != b && DependsOn(deps, y, x) ==> y !in now)
    && (forall y :: 0 <= y < r && DependsOn(deps, y, b) ==> y !in now)
  }

  lemma DroppingStarts(deps: seq<set<nat>>, was: set<nat>, b: nat)
    requires b in was
    ensures Dropping(deps, was, was - {b}, b, 0)
  {
    ReachesSelf(deps, was, b);
  }

  lemma DroppingStep(deps: seq<set<nat>>, was: set<nat>, mid: set<nat>, now: set<nat>, b: nat, r: nat)
    requires Dropping(deps, was, mid, b, r) && DropsChains(deps, mid, now, r) && DependsOn(deps, r, b)
    ensures Dropping(deps, was, now, b, r + 1)
  {
    forall x | x in was && x !in now ensures Reaches(deps, was, b, x) {
      if x in mid {
        ReachesVia(deps, was, mid, b, r, x);
      }
    }
    DropsChainsClosed(deps, mid, now, r);
    if r in mid {
      ReachesSelf(deps, mid, r);
    }
  }

  lemma DroppingEnds(deps: seq<set<nat>>, was: set<nat>, now: set<nat>, b: nat)
    requires Dropping(deps, was, now, b, |deps|)
    ensures DropsChains(deps, was, now, b)
  {
    forall x | x in was && Reaches(deps, was, b, x) ensures x !in now {
      var path :| Chain(deps, was, path) && path[0] == b && path[|path| - 1] == x;
      ChainDown(deps, was, now, path);
    }
  }

  // ----- consequences for a consistent network -----

  /** OML up implies all dependencies up. */
  ghost predicate Supported(deps: seq<set<nat>>, up: set<nat>) {
    forall b, d :: b in up && DependsOn(deps, b, d) ==> d in up
  }

  lemma DropKeepsSupported(deps: seq<set<nat>>, was: set<nat>, now: set<nat>, b: nat)
    requires DropsChains(deps, was, now, b) && Supported(deps, was)
    ensures Supported(deps, now)
  {
    DropsChainsClosed(deps, was, now, b);
  }

  lemma {:induction false} ChainOfUp(deps: seq<set<nat>>, all: set<nat>, up: set<nat>, path: seq<nat>)
    requires Chain(deps, all, path) && Supported(deps, up) && path[|path| - 1] in up
    ensures Chain(deps, up, path)
    decreases |path|
  {
    if |path| > 1 {
      ChainOfUp(deps, all, up, path[..|path| - 1]);
    }
  }

  /** From a consistent state a drop takes down exactly the BTS and every up BTS that
      transitively depends on it, whatever lies in between. */
  lemma DropsTransitiveDependents(deps: seq<set<nat>>, all: set<nat>, was: set<nat>, now: set<nat>, b: nat)
    requires DropsChains(deps, was, now, b) && Supported(deps, was) && was <= all
    ensures forall x :: x in was ==> (x !in now <==> Reaches(deps, all, b, x))
  {
    forall x | x in was ensures x !in now <==> Reaches(deps, all, b, x) {
      if x !in now {
        var path :| Chain(deps, was, path) && path[0] == b && path[|path| - 1] == x;
        ChainGrows(deps, was, all, path);
      }
      if Reaches(deps, all, b, x) {
        var path :| Chain(deps, all, path) && path[0] == b && path[|path| - 1] == x;
        ChainOfUp(deps, all, was, path);
      }
    }
  }

  lemma {:induction false} ChainGrows(deps: seq<set<nat>>, s: set<nat>, s': set<nat>, path: seq<nat>)
    requires Chain(deps, s, path) && s <= s'
    ensures Chain(deps, s', path)
    decreases |path|
  {
    if |path| > 1 {
      ChainGrows(deps, s, s', path[..|path| - 1]);
    }
  }

  // ----- the network -----

  datatype Link = Oml | Rsl(trx: nat)

  /** Which BTS numbers went down, given the sets before and after. */
  function Gone(was: set<nat>, now: set<nat>): set<nat> {
    was - now
  }

  class Network {
    const deps: seq<set<nat>>       // depends_on of each BTS
    const trxs: seq<nat>            // TRXs of each BTS
    const ipaccess: set<nat>        // is_ipaccess_bts
    var oml: set<nat>               // BTSs whose oml_link is set
    var rsl: set<(nat, nat)>        // (BTS, TRX) whose rsl_link is set
    var flags: set<(nat, Link)>     // ip_access.flags
    var operational: set<nat>       // NM operational state "enabled"
    var pending: set<nat>           // armed oml_drop_link_timer
    var teiUp: seq<(nat, Link)>     // S_L_INP_TEI_UP events

    /** The VTY only accepts dependencies on declared ip.access BTSs. */
    ghost predicate Valid()
      reads this
    {
      && |trxs| == |deps|
      && (forall b: nat, d: nat :: DependsOn(deps, b, d) ==> d < |deps| && d in ipaccess)
    }

    /** What every operation keeps. */
    ghost predicate Consistent()
      reads this
    {
      && Valid()
      && (forall b :: b in oml ==> b < |deps|)
      && Supported(deps, oml)
      && (forall p :: p in rsl ==> p.0 in oml && p.1 < trxs[p.0])
      && (forall p :: p in flags ==> p.0 in oml)
      && (forall b :: b in oml ==> (b, Oml) in flags)
    }

    constructor (deps: seq<set<nat>>, trxs: seq<nat>, ipaccess: set<nat>)
      requires |trxs| == |deps|
      requires forall b: nat, d: nat :: DependsOn(deps, b, d) ==> d < |deps| && d in ipaccess
      ensures Consistent() && oml == {} && rsl == {} && this.deps == deps && teiUp == []
    {
      this.deps, this.trxs, this.ipaccess := deps, trxs, ipaccess;
      oml, rsl, flags, operational, pending, teiUp := {}, {}, {}, {}, {}, [];
    }

    /** ipaccess_drop_rsl */
    method DropRsl(bts: nat, trx: nat)
      modifies this`rsl
      ensures rsl == old(rsl) - {(bts, trx)}
    {
      if (bts, trx) !in rsl {
        return;
      }
      rsl := rsl - {(bts, trx)};
    }

    /** ipaccess_drop_oml, from any state: the links of exactly the BTSs on a chain of up
        dependents of bts go, with their RSL links and flags. */
    method DropOml(bts: nat)
      requires Valid() && (forall p :: p in rsl ==> p.0 < |trxs| && p.1 < trxs[p.0])
      modifies this`oml, this`rsl, this`flags, this`pending
      ensures DropsChains(deps, old(oml), oml, bts)
      ensures rsl == set p | p in old(rsl) && p.0 !in Gone(old(oml), oml)
      ensures flags == set p | p in old(flags) && p.0 !in Gone(old(oml), oml)
      ensures pending <= old(pending) - {bts} - Gone(old(oml), oml)
      decreases oml
    {
      pending := pending - {bts};
      if bts !in oml {
        NothingDropped(deps, oml, bts);
        return;
      }
      oml := oml - {bts};
      DropAllRsl(bts);
      flags := set p | p in flags && p.0 != bts;
      DroppingStarts(deps, old(oml), bts);
      var r := 0;
      while r < |deps|
        invariant r <= |deps| && Dropping(deps, old(oml), oml, bts, r)
        invariant rsl == set p | p in old(rsl) && p.0 !in Gone(old(oml), oml)
        invariant flags == set p | p in old(flags) && p.0 !in Gone(old(oml), oml)
        invariant pending <= old(pending) - {bts} - Gone(old(oml), oml)
      {
        if bts in deps[r] {
          ghost var mid := oml;
          DropOml(r);
          DroppingStep(deps, old(oml), mid, oml, bts, r);
        }
        r := r + 1;
      }
      DroppingEnds(deps, old(oml), oml, bts);
    }

    method DropAllRsl(bts: nat)
      requires forall p :: p in rsl ==> p.0 < |trxs| && p.1 < trxs[p.0]
      modifies this`rsl
      ensures rsl == set p | p in old(rsl) && p.0 != bts
    {
      if bts < |trxs| {
        for t := 0 to trxs[bts]
          invariant rsl == set p | p in old(rsl) && !(p.0 == bts && p.1 < t)
        {
          DropRsl(bts, t);
        }
      }
    }

    /** bts_depend_check */
    method DependCheck(bts: nat) returns (ok: bool)
      requires Valid() && bts < |deps|
      ensures ok <==> forall d :: d in deps[bts] ==> d !in ipaccess || (d in oml && d in operational)
    {
      var other := 0;
      while other < |deps|
        invariant other <= |deps|
        invariant forall d :: 0 <= d < other && d in deps[bts] ==> d !in ipaccess || (d in oml && d in operational)
      {
        if other in deps[bts] && other in ipaccess && !(other in oml && other in operational) {
          return false;
        }
        other := other + 1;
      }
      assert forall d :: d in deps[bts] ==> DependsOn(deps, bts, d);
      return true;
    }

    /** ipaccess_sign_link_up for the OML link of a known BTS */
    method OmlLinkUp(bts: nat) returns (ok: bool)
      requires Consistent() && bts < |deps|
      modifies this`oml, this`rsl, this`flags, this`pending, this`teiUp
      ensures Consistent() && (ok <==> bts in oml)
      ensures DropsChains(deps, old(oml), oml - {bts}, bts)
      ensures ok <==> forall d :: d in deps[bts] ==> d in oml - {bts} && d in operational
      ensures teiUp == if ok then old(teiUp) + [(bts, Oml)] else old(teiUp)
      ensures forall p :: p in rsl ==> p in old(rsl)
    {
      DropOml(bts);
      ghost var down := oml;
      DropKeepsSupported(deps, old(oml), oml, bts);
      DroppedItself(deps, old(oml), oml, bts);
      var fulfilled := DependCheck(bts);
      assert forall d :: d in deps[bts] ==> DependsOn(deps, bts, d);
      if !fulfilled {
        return false;
      }
      NoDependentsLeft(deps, old(oml), oml, bts);
      oml := oml + {bts};
      if (bts, Oml) !in flags {
        teiUp := teiUp + [(bts, Oml)];
        flags := flags + {(bts, Oml)};
      }
      return true;
    }

    /** ipaccess_sign_link_up for an RSL link */
    method RslLinkUp(bts: nat, trx: nat) returns (ok: bool)
      requires Consistent() && bts < |deps|
      modifies this`rsl, this`flags, this`teiUp
      ensures Consistent()
      ensures ok <==> bts in oml && trx < trxs[bts]
      ensures rsl == if ok then old(rsl) + {(bts, trx)} else old(rsl)
      ensures teiUp == if ok && (bts, Rsl(trx)) !in old(flags) then old(teiUp) + [(bts, Rsl(trx))] else old(teiUp)
    {
      if bts !in oml || trx >= trxs[bts] {
        return false;
      }
      DropRsl(bts, trx);
      rsl := rsl + {(bts, trx)};
      if (bts, Rsl(trx)) !in flags {
        teiUp := teiUp + [(bts, Rsl(trx))];
        flags := flags + {(bts, Rsl(trx))};
      }
      return true;
    }

    /** ipaccess_sign_link_down and the deferred drop */
    method LinkDown(bts: nat)
      requires Consistent()
      modifies this`oml, this`rsl, this`flags, this`pending
      ensures Consistent() && DropsChains(deps, old(oml), oml, bts)
    {
      DropOml(bts);
      DropKeepsSupported(deps, old(oml), oml, bts);
    }

    /** ipaccess_drop_oml_deferred */
    method DropOmlDeferred(bts: nat)
      modifies this`pending
      ensures pending == if bts in oml then old(pending) + {bts} else old(pending)
    {
      if bts !in pending && bts in oml {
        pending := pending + {bts};
      }
    }
  }

  datatype Event =
    | OmlComesUp(bts: nat) | RslComesUp(bts: nat, trx: nat) | LineDown(bts: nat)
    | DeferDrop(bts: nat) | TimerFires(bts: nat) | SetOperational(bts: nat, enabled: bool)

  /** Over any run of link events every BTS with OML up has all its dependencies up, and
      no RSL link outlives its OML link. */
  method Run(net: Network, events: seq<Event>)
    requires net.Consistent()
    requires forall e :: e in events ==> e.bts < |net.deps|
    modifies net
    ensures net.Consistent()
  {
    for i := 0 to |events|
      invariant net.Consistent()
    {
      assert events[i] in events;
      match events[i] {
        case OmlComesUp(b) => var _ := net.OmlLinkUp(b);
        case RslComesUp(b, t) => var _ := net.RslLinkUp(b, t);
        case LineDown(b) => net.LinkDown(b);
        case DeferDrop(b) => net.DropOmlDeferred(b);
        case TimerFires(b) => if b in net.pending { net.LinkDown(b); }
        case SetOperational(b, on) => net.operational := if on then net.operational + {b} else net.operational - {b};
      }
    }
  }

  lemma NothingDropped(deps: seq<set<nat>>, up: set<nat>, b: nat)
    requires b !in up
    ensures DropsChains(deps, up, up, b)
  {
    forall x | x in up && Reaches(deps, up, b, x) ensures false {
      var path :| Chain(deps, up, path) && path[0] == b && path[|path| - 1] == x;
      ChainStart(deps, up, path);
    }
  }

  lemma {:induction false} ChainStart(deps: seq<set<nat>>, s: set<nat>, path: seq<nat>)
    requires Chain(deps, s, path)
    ensures path[0] in s
    decreases |path|
  {
    if |path| > 1 {
      ChainStart(deps, s, path[..|path| - 1]);
    }
  }

  lemma DroppedItself(deps: seq<set<nat>>, was: set<nat>, now: set<nat>, b: nat)
    requires DropsChains(deps, was, now, b)
    ensures b !in now
  {
    if b in was {
      ReachesSelf(deps, was, b);
    }
  }

  /** After a drop nothing that is still up depends on the dropped BTS. */
  lemma NoDependentsLeft(deps: seq<set<nat>>, was: set<nat>, now: set<nat>, b: nat)
    requires DropsChains(deps, was, now, b) && Supported(deps, was)
    ensures forall y :: y in now ==> !DependsOn(deps, y, b)
  {
    forall y | y in now ensures !DependsOn(deps, y, b) {
      if DependsOn(deps, y, b) {
        ReachesSelf(deps, was, b);
        ReachesNext(deps, was, b, b, y);
      }
    }
  }
}
