/** Following the server list: snapshots become changes, and the changes maintain the router's services. */
module Discovery {
  import opened Prelude

  datatype LiteServer<K, A> = LiteServer(id: K, addr: A)

  datatype Change<K, A> = Remove(id: K) | Insert(id: K, addr: A)

  /** An item of the config stream. */
  datatype Item<K, A> = Config(servers: seq<LiteServer<K, A>>) | LoadError

  ghost predicate UniqueIds<K, A>(servers: set<LiteServer<K, A>>) {
    forall a, b :: a in servers && b in servers && a.id == b.id ==> a == b
  }

  function AsSet<K(==), A(==)>(servers: seq<LiteServer<K, A>>): set<LiteServer<K, A>> {
    set ls | ls in servers
  }

  // ----------------------------------------------------------------- router

  function Apply<K(==), A>(m: map<K, A>, c: Change<K, A>): map<K, A> {
    match c
    case Remove(id) => m - {id}
    case Insert(id, addr) => m[id := addr]
  }

  function ApplyAll<K(==), A>(m: map<K, A>, cs: seq<Change<K, A>>): map<K, A> {
    if cs == [] then m else Apply(ApplyAll(m, cs[..|cs| - 1]), cs[|cs| - 1])
  }

  lemma {:induction false} ApplyLast<K, A>(m: map<K, A>, cs: seq<Change<K, A>>, c: Change<K, A>)
    ensures ApplyAll(m, cs + [c]) == Apply(ApplyAll(m, cs), c)
  {
    assert (cs + [c])[..|cs|] == cs;
  }

  /** Applying changes in batches is applying them all. */
  lemma {:induction false} ApplySplit<K, A>(m: map<K, A>, a: seq<Change<K, A>>, b: seq<Change<K, A>>)
    ensures ApplyAll(m, a + b) == ApplyAll(ApplyAll(m, a), b)
  {
    if b == [] {
      assert a + b == a;
    } else {
      ApplySplit(m, a, b[..|b| - 1]);
      assert (a + b)[..|a + b| - 1] == a + b[..|b| - 1];
    }
  }

  class Router<K(==), A> {
    var services: map<K, A>

    constructor ()
      ensures services == map[]
    {
      services := map[];
    }

    /** `update_pending_from_discover`: takes the changes that are ready, up to an error. */
    method Update(ready: seq<Option<Change<K, A>>>) returns (taken: seq<Change<K, A>>, failed: bool)
      modifies this
      ensures services == ApplyAll(old(services), taken)
      ensures |taken| <= |ready| && forall i :: 0 <= i < |taken| ==> ready[i] == Some(taken[i])
      ensures if failed then |taken| < |ready| && ready[|taken|].None? else |taken| == |ready|
    {
      taken, failed := [], false;
      while |taken| < |ready|
        invariant |taken| <= |ready| && forall i :: 0 <= i < |taken| ==> ready[i] == Some(taken[i])
        invariant services == ApplyAll(old(services), taken)
      {
        match ready[|taken|] {
          case None =>
            failed := true;
            return;
          case Some(c) =>
            ApplyLast(old(services), taken, c);
            match c {
              case Remove(key) => services := services - {key};
              case Insert(key, addr) => services := services[key := addr];
            }
            taken := taken + [c];
        }
      }
    }
  }

  // -------------------------------------------------------------- discovery

  /** The map holds exactly these servers, each at its address. */
  ghost predicate Agrees<K(!new), A>(m: map<K, A>, servers: set<LiteServer<K, A>>) {
    && (forall ls :: ls in servers ==> ls.id in m && m[ls.id] == ls.addr)
    && (forall k :: k in m ==> LiteServer(k, m[k]) in servers)
  }

  lemma {:induction false} RemoveAgrees<K(!new), A>(m: map<K, A>, servers: set<LiteServer<K, A>>, ls: LiteServer<K, A>)
    requires Agrees(m, servers) && ls in servers
    ensures Agrees(Apply(m, Remove(ls.id)), servers - {ls})
  {
  }

  lemma {:induction false} InsertAgrees<K(!new), A>(m: map<K, A>, servers: set<LiteServer<K, A>>, ls: LiteServer<K, A>)
    requires Agrees(m, servers) && forall x :: x in servers ==> x.id != ls.id
    ensures Agrees(Apply(m, Insert(ls.id, ls.addr)), servers + {ls})
  {
  }

  datatype Outcome = Finished | InitialError | ChannelClosed

  class DiscoverActor<K(==,!new), A(==,!new)> {
    var state: Option<set<LiteServer<K, A>>>
    var sent: seq<Change<K, A>>
    /** How many changes the receiver still takes before it goes away; `None` if it stays. */
    var room: Option<nat>

    constructor (room: Option<nat>)
      ensures state == None && sent == [] && this.room == room
    {
      state, sent, this.room := None, [], room;
    }

    ghost function Current(): set<LiteServer<K, A>>
      reads this
    {
      if state.Some? then state.value else {}
    }

    /** Whoever applies all the changes sent so far holds exactly the current servers. */
    ghost predicate InStep()
      reads this
    {
      Agrees(ApplyAll(map[], sent), Current())
    }

    /** `tx.send`, which fails once the receiver is gone. */
    method Send(c: Change<K, A>) returns (ok: bool)
      modifies this`sent, this`room
      ensures ok <==> old(room) != Some(0)
      ensures sent == if ok then old(sent) + [c] else old(sent)
      ensures room == if ok && old(room).Some? then Some(old(room).value - 1) else old(room)
    {
      ok := room != Some(0);
      if ok {
        sent := sent + [c];
        room := if room.Some? then Some(room.value - 1) else None;
      }
    }

    /** Sends a removal for each server that has gone, in any order. */
    method SendRemovals(gone: set<LiteServer<K, A>>, ghost have: set<LiteServer<K, A>>) returns (ok: bool)
      requires gone <= have && Agrees(ApplyAll(map[], sent), have)
      modifies this`sent, this`room
      ensures if ok then Agrees(ApplyAll(map[], sent), have - gone) else room == Some(0)
      ensures old(room).None? ==> room.None?
      ensures old(sent) <= sent
      ensures forall i :: |old(sent)| <= i < |sent| ==> exists ls :: ls in gone && sent[i] == Remove(ls.id)
    {
      var todo := gone;
      while todo != {}
        invariant todo <= gone && Agrees(ApplyAll(map[], sent), have - gone + todo)
        invariant old(room).None? ==> room.None?
        invariant old(sent) <= sent
        invariant forall i :: |old(sent)| <= i < |sent| ==> exists ls :: ls in gone && sent[i] == Remove(ls.id)
        decreases todo
      {
        var ls :| ls in todo;
        RemoveAgrees(ApplyAll(map[], sent), have - gone + todo, ls);
        ApplyLast(map[], sent, Remove(ls.id));
        assert have - gone + todo - {ls} == have - gone + (todo - {ls});
        ok := Send(Remove(ls.id));
        if !ok {
          return;
        }
        todo := todo - {ls};
      }
      assert have - gone + todo == have - gone;
      return true;
    }

    /** Sends an insertion for each new server, in any order. */
    method SendInsertions(added: set<LiteServer<K, A>>, ghost have: set<LiteServer<K, A>>) returns (ok: bool)
      requires added !! have && UniqueIds(have + added) && Agrees(ApplyAll(map[], sent), have)
      modifies this`sent, this`room
      ensures if ok then Agrees(ApplyAll(map[], sent), have + added) else room == Some(0)
      ensures old(room).None? ==> room.None?
      ensures old(sent) <= sent
      ensures forall i :: |old(sent)| <= i < |sent| ==> exists ls :: ls in added && sent[i] == Insert(ls.id, ls.addr)
    {
      var todo := added;
      assert have + (added - todo) == have;
      while todo != {}
        invariant todo <= added && Agrees(ApplyAll(map[], sent), have + (added - todo))
        invariant old(room).None? ==> room.None?
        invariant old(sent) <= sent
        invariant forall i :: |old(sent)| <= i < |sent| ==>
                  exists ls :: ls in added && sent[i] == Insert(ls.id, ls.addr)
        decreases todo
      {
        var ls :| ls in todo;
        InsertAgrees(ApplyAll(map[], sent), have + (added - todo), ls);
        ApplyLast(map[], sent, Insert(ls.id, ls.addr));
        assert have + (added - todo) + {ls} == have + (added - (todo - {ls}));
        ok := Send(Insert(ls.id, ls.addr));
        if !ok {
          return;
        }
        todo := todo - {ls};
      }
      assert have + (added - todo) == have + added;
      return true;
    }

    /**
      * One good config: the changes sent bring whoever follows to the new servers and touch no server that
      * stays. Only a receiver that has gone cuts this short.
      */
    method Tick(config: seq<LiteServer<K, A>>) returns (ok: bool)
      requires InStep() && UniqueIds(AsSet(config))
      modifies this
      ensures if ok then state == Some(AsSet(config)) && InStep() else room == Some(0)
      ensures old(room).None? ==> room.None?
      ensures old(sent) <= sent
      ensures forall i, ls :: |old(sent)| <= i < |sent| && ls in old(Current()) && ls in AsSet(config) ==>
                sent[i].id != ls.id
    {
      var next := AsSet(config);
      var was := if state.Some? then state.value else {};
      ok := SendRemovals(was - next, was);
      if !ok {
        return;
      }
      assert was - (was - next) == was * next;
      assert was * next + (next - was) == next;
      ok := SendInsertions(next - was, was * next);
      if ok {
        state := Some(next);
      }
    }

    /**
      * The actor loop: an error before the first good config ends it, later ones are skipped. At the end whoever
      * applied all changes holds the servers of the last good config, unless the receiver went away.
      */
    method Run(items: seq<Item<K, A>>) returns (r: Outcome)
      requires state == None && sent == []
      requires forall i :: 0 <= i < |items| && items[i].Config? ==> UniqueIds(AsSet(items[i].servers))
      modifies this
      ensures r == InitialError <==> items != [] && items[0].LoadError?
      ensures r == InitialError ==> sent == []
      ensures r == Finished ==> Agrees(ApplyAll(map[], sent), Latest(items))
      ensures r == ChannelClosed ==> room == Some(0)
      ensures old(room).None? ==> room.None?
    {
      for k := 0 to |items|
        invariant InStep() && Current() == Latest(items[..k])
        invariant if k == 0 then state.None? && sent == [] else state.Some? && items[0].Config?
        invariant old(room).None? ==> room.None?
      {
        assert items[..k + 1][..k] == items[..k];
        match items[k] {
          case LoadError =>
            if state.None? {
              return InitialError;
            }
          case Config(servers) =>
            var ok := Tick(servers);
            if !ok {
              return ChannelClosed;
            }
        }
      }
      assert items[..|items|] == items;
      return Finished;
    }
  }

  /** The servers of the last good config. */
  function Latest<K(==), A(==)>(items: seq<Item<K, A>>): set<LiteServer<K, A>> {
    if items == [] then {}
    else if items[|items| - 1].Config? then AsSet(items[|items| - 1].servers)
    else Latest(items[..|items| - 1])
  }

  // ------------------------------------------------------- actor and router

  function Flat<T>(batches: seq<seq<T>>): seq<T> {
    if batches == [] then [] else Flat(batches[..|batches| - 1]) + batches[|batches| - 1]
  }

  function Ready<K, A>(cs: seq<Change<K, A>>): (r: seq<Option<Change<K, A>>>)
    ensures |r| == |cs| && forall i :: 0 <= i < |cs| ==> r[i] == Some(cs[i])
  {
    seq(|cs|, i requires 0 <= i < |cs| => Some(cs[i]))
  }

  /** The router polls as often as it likes and takes whatever changes are ready then. */
  method UpdateAll<K(==), A>(router: Router<K, A>, batches: seq<seq<Change<K, A>>>)
    modifies router
    ensures router.services == ApplyAll(old(router.services), Flat(batches))
  {
    for k := 0 to |batches|
      invariant router.services == ApplyAll(old(router.services), Flat(batches[..k]))
    {
      assert batches[..k + 1][..k] == batches[..k];
      ApplySplit(old(router.services), Flat(batches[..k]), batches[k]);
      var taken, _ := router.Update(Ready(batches[k]));
      assert taken == batches[k];
    }
    assert batches[..|batches|] == batches;
  }

  /**
    * Actor and router together: whatever configs and errors come, and in whatever batches the changes reach
    * the router, it ends with exactly the servers of the last good config, each at its address.
    */
  method Follow<K(==,!new), A(==,!new)>(items: seq<Item<K, A>>, cut: seq<Change<K, A>> -> seq<seq<Change<K, A>>>)
    returns (router: Router<K, A>, failed: bool)
    requires forall i :: 0 <= i < |items| && items[i].Config? ==> UniqueIds(AsSet(items[i].servers))
    requires forall cs :: Flat(cut(cs)) == cs
    ensures failed <==> items != [] && items[0].LoadError?
    ensures if failed then router.services == map[] else Agrees(router.services, Latest(items))
  {
    var actor := new DiscoverActor<K, A>(None);
    var outcome := actor.Run(items);
    failed := outcome == InitialError;
    router := new Router<K, A>();
    ghost var sent := actor.sent;
    UpdateAll(router, cut(actor.sent));
    assert router.services == ApplyAll(map[], sent);
  }
}
