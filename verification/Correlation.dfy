/** The client actor that hands each answer to the caller whose query it answers. */
module Correlation {
  /** What the actor waits for; `caller` stands for the one-shot channel made for one call. */
  datatype Event<A> = Query(id: nat, caller: nat) | Answer(id: nat, answer: A) | Pong | Tick | Stop

  datatype Packet = QueryPacket(id: nat) | PingPacket

  datatype Delivery<A> = Delivery(caller: nat, answer: A)

  /** Pending queries, the answers handed to callers, and the packets that went out. */
  datatype State<A> = State(responses: map<nat, nat>, delivered: seq<Delivery<A>>, out: seq<Packet>)

  function Step<A>(s: State<A>, e: Event<A>): State<A> {
    match e
    case Query(id, caller) => s.(responses := s.responses[id := caller], out := s.out + [QueryPacket(id)])
    case Answer(id, answer) =>
      if id !in s.responses then s
      else s.(responses := s.responses - {id}, delivered := s.delivered + [Delivery(s.responses[id], answer)])
    case Pong => s
    case Tick => s.(out := s.out + [PingPacket])
    case Stop => s
  }

  function Run<A>(es: seq<Event<A>>): State<A> {
    if es == [] then State(map[], [], []) else Step(Run(es[..|es| - 1]), es[|es| - 1])
  }

  /** All that one caller was handed, in order. */
  function Received<A>(ds: seq<Delivery<A>>, caller: nat): seq<A> {
    if ds == [] then []
    else
      var d := ds[|ds| - 1];
      Received(ds[..|ds| - 1], caller) + if d.caller == caller then [d.answer] else []
  }

  class ClientActor<A> {
    var responses: map<nat, nat>
    var delivered: seq<Delivery<A>>
    var out: seq<Packet>

    function View(): State<A>
      reads this
    {
      State(responses, delivered, out)
    }

    constructor ()
      ensures View() == Run<A>([])
    {
      responses, delivered, out := map[], [], [];
    }

    method OnAnswer(id: nat, answer: A)
      modifies this
      ensures View() == Step(old(View()), Answer(id, answer))
    {
      if id in responses {
        delivered := delivered + [Delivery(responses[id], answer)];
        responses := responses - {id};
      }
    }

    /** The loop over whatever arrives next, until a read error or cancellation. */
    method Loop(es: seq<Event<A>>) returns (n: nat)
      requires View() == Run<A>([])
      modifies this
      ensures n <= |es| && View() == Run(es[..n]) && Stop !in es[..n] && (n < |es| ==> es[n].Stop?)
    {
      n := 0;
      while n < |es|
        invariant n <= |es| && View() == Run(es[..n]) && Stop !in es[..n]
      {
        assert es[..n + 1][..n] == es[..n];
        match es[n] {
          case Query(id, caller) =>
            responses := responses[id := caller];
            out := out + [QueryPacket(id)];
          case Answer(id, answer) => OnAnswer(id, answer);
          case Pong =>
          case Tick => out := out + [PingPacket];
          case Stop => return;
        }
        n := n + 1;
      }
    }
  }

  /** An answer nobody waits for, unknown or a second one, changes nothing. */
  lemma {:induction false} StrayAnswerIgnored<A>(s: State<A>, id: nat, answer: A, again: A)
    ensures id !in s.responses ==> Step(s, Answer(id, answer)) == s
    ensures Step(Step(s, Answer(id, answer)), Answer(id, again)) == Step(s, Answer(id, answer))
  {
  }

  // -------------------------------------------------------- fate of a query

  /** What becomes of the query at position `i`: the first later event with its id decides. */
  datatype Fate<A> = Waiting | Got(answer: A) | Replaced

  function FateOf<A>(es: seq<Event<A>>, i: nat): Fate<A>
    requires i < |es| && es[i].Query?
    decreases |es|
  {
    if i == |es| - 1 then Waiting
    else NextFate(FateOf(es[..|es| - 1], i), es[|es| - 1], es[i].id)
  }

  function NextFate<A>(f: Fate<A>, e: Event<A>, id: nat): Fate<A> {
    if !f.Waiting? then f
    else if e.Answer? && e.id == id then Got(e.answer)
    else if e.Query? && e.id == id then Replaced
    else Waiting
  }

  predicate Mentions<A>(e: Event<A>, id: nat) {
    (e.Query? || e.Answer?) && e.id == id
  }

  /** Each call has its own channel. */
  predicate FreshCallers<A>(es: seq<Event<A>>) {
    forall i, j :: 0 <= i < j < |es| && es[i].Query? && es[j].Query? ==> es[i].caller != es[j].caller
  }

  ghost predicate Called<A>(es: seq<Event<A>>, caller: nat) {
    exists i :: 0 <= i < |es| && es[i].Query? && es[i].caller == caller
  }

  lemma {:induction false} ReceivedCalled<A>(es: seq<Event<A>>, caller: nat)
    ensures Received(Run(es).delivered, caller) != [] ==> Called(es, caller)
    ensures forall id :: id in Run(es).responses && Run(es).responses[id] == caller ==>
              exists i :: 0 <= i < |es| && es[i] == Query(id, caller)
  {
    if es != [] {
      var init := es[..|es| - 1];
      ReceivedCalled(init, caller);
      forall id | id in Run(es).responses && Run(es).responses[id] == caller
        ensures exists i :: 0 <= i < |es| && es[i] == Query(id, caller)
      {
        if es[|es| - 1] != Query(id, caller) {
          var i :| 0 <= i < |init| && init[i] == Query(id, caller);
          assert es[i] == Query(id, caller);
        }
      }
    }
  }

  /** The state tells the fate of one query. */
  predicate Tells<A(==)>(s: State<A>, id: nat, caller: nat, f: Fate<A>) {
    && (f.Waiting? <==> id in s.responses && s.responses[id] == caller)
    && Received(s.delivered, caller) == if f.Got? then [f.answer] else []
  }

  /** One event changes what the state tells of a query as it changes the fate. */
  lemma {:induction false} StepTells<A>(s: State<A>, e: Event<A>, id: nat, caller: nat, f: Fate<A>)
    requires Tells(s, id, caller, f) && (e.Query? ==> e.caller != caller)
    requires e.Answer? && e.id in s.responses && s.responses[e.id] == caller ==> e.id == id
    ensures Tells(Step(s, e), id, caller, NextFate(f, e, id))
  {
    if e.Answer? && e.id in s.responses {
      var ds := s.delivered;
      assert (ds + [Delivery(s.responses[e.id], e.answer)])[..|ds|] == ds;
    }
  }

  /** Whatever happens, in any order: each caller has received exactly what the fate of its query says. */
  lemma {:induction false} FateExact<A>(es: seq<Event<A>>, i: nat)
    requires FreshCallers(es) && i < |es| && es[i].Query?
    ensures Tells(Run(es), es[i].id, es[i].caller, FateOf(es, i))
    decreases |es|
  {
    var init, e := es[..|es| - 1], es[|es| - 1];
    ReceivedCalled(init, es[i].caller);
    if i < |es| - 1 {
      hide Tells, Step;
      FateExact(init, i);
      var responses := Run(init).responses;
      if e.Answer? && e.id in responses && responses[e.id] == es[i].caller {
        var k :| 0 <= k < |init| && init[k] == Query(e.id, es[i].caller);
        assert es[k].caller == es[i].caller;
      }
      StepTells(Run(init), e, es[i].id, es[i].caller, FateOf(init, i));
    }
  }

  /** No caller is ever handed a second answer. */
  lemma {:induction false} AtMostOneAnswer<A>(es: seq<Event<A>>, caller: nat)
    requires FreshCallers(es)
    ensures |Received(Run(es).delivered, caller)| <= 1
  {
    ReceivedCalled(es, caller);
    if Called(es, caller) {
      var i :| 0 <= i < |es| && es[i].Query? && es[i].caller == caller;
      FateExact(es, i);
    }
  }

  /** Nothing between positions `i` and `j` mentions the id of the query at `i`. */
  predicate Silent<A>(es: seq<Event<A>>, i: nat, j: nat)
    requires i < |es| && es[i].Query? && j <= |es|
  {
    forall k :: i < k < j ==> !Mentions(es[k], es[i].id)
  }

  /** The fate, spelled out: an answer is received exactly when it is the first later event with the query's id. */
  lemma {:induction false} FateMeans<A>(es: seq<Event<A>>, i: nat, a: A)
    requires i < |es| && es[i].Query?
    ensures FateOf(es, i) == Got(a) <==>
            exists j :: i < j < |es| && es[j] == Answer(es[i].id, a) && Silent(es, i, j)
    decreases |es|
  {
    if i < |es| - 1 {
      var init := es[..|es| - 1];
      FateMeans(init, i, a);
      WaitingMeans(init, i);
      assert forall k :: 0 <= k < |init| ==> init[k] == es[k];
      if j :| i < j < |init| && init[j] == Answer(es[i].id, a) && Silent(init, i, j) {
        assert es[j] == Answer(es[i].id, a) && Silent(es, i, j);
      }
      if j :| i < j < |es| && es[j] == Answer(es[i].id, a) && Silent(es, i, j) {
        if j < |init| {
          assert init[j] == Answer(es[i].id, a) && Silent(init, i, j);
        } else {
          assert Silent(init, i, |init|);
        }
      }
    }
  }

  predicate DistinctIds<A>(es: seq<Event<A>>) {
    forall i, j :: 0 <= i < j < |es| && es[i].Query? && es[j].Query? ==> es[i].id != es[j].id
  }

  /** The query at `i` has this id, and no answer to it came since. */
  predicate Unanswered<A>(es: seq<Event<A>>, i: nat, id: nat)
    requires i < |es|
  {
    es[i].Query? && es[i].id == id && forall k :: i < k < |es| && es[k].Answer? ==> es[k].id != id
  }

  /** With distinct ids the pending map holds exactly the queries sent and not answered since. */
  lemma {:induction false} PendingIsUnanswered<A>(es: seq<Event<A>>, id: nat)
    requires FreshCallers(es) && DistinctIds(es)
    ensures id in Run(es).responses <==> exists i :: 0 <= i < |es| && Unanswered(es, i, id)
  {
    if id in Run(es).responses {
      ReceivedCalled(es, Run(es).responses[id]);
      var i :| 0 <= i < |es| && es[i] == Query(id, Run(es).responses[id]);
      FateExact(es, i);
      WaitingMeans(es, i);
      assert Unanswered(es, i, id);
    }
    if i :| 0 <= i < |es| && Unanswered(es, i, id) {
      FateExact(es, i);
      WaitingMeans(es, i);
    }
  }

  lemma {:induction false} WaitingMeans<A>(es: seq<Event<A>>, i: nat)
    requires i < |es| && es[i].Query?
    ensures FateOf(es, i).Waiting? <==> Silent(es, i, |es|)
    decreases |es|
  {
    if i < |es| - 1 {
      WaitingMeans(es[..|es| - 1], i);
    }
  }

  /** With distinct ids no caller is ever displaced: it waits or has the first answer to its own id. */
  lemma {:induction false} NeverReplaced<A>(es: seq<Event<A>>, i: nat)
    requires DistinctIds(es) && i < |es| && es[i].Query?
    ensures !FateOf(es, i).Replaced?
    decreases |es|
  {
    if i < |es| - 1 {
      NeverReplaced(es[..|es| - 1], i);
    }
  }
}
