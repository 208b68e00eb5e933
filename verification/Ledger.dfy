/** The prepaid play ledger: `AccountManager` (`core-master/components/account-manager.js`) and the
    charge-then-pay flow of `/ppp/:address` (`core-master/rest-api/license.js`), with any number of requests in
    flight. Amounts are in wei. */
module Ledger {

  datatype Option<T> = None | Some(value: T)
  type Balances = map<string, int>

  // ---------- the two atomic database updates ----------

  /** `findOneAndUpdate` with the balance in the query: either the whole amount is taken or nothing happens. */
  predicate CanPay(balances: Balances, client: string, amount: int) {
    client in balances && balances[client] >= amount
  }

  function Paid(balances: Balances, client: string, amount: int): Balances {
    if CanPay(balances, client, amount) then balances[client := balances[client] - amount] else balances
  }

  /** The client id is unique: creating an existing account fails and changes nothing. */
  function Created(balances: Balances, client: string): Balances {
    if client in balances then balances else balances[client := 0]
  }

  class AccountManager {
    var balances: Balances

    method Pay(clientID: string, amount: int) returns (resolved: bool)
      modifies this
      ensures balances == Paid(old(balances), clientID, amount)
      ensures resolved <==> CanPay(old(balances), clientID, amount)
      ensures amount >= 0 && (forall c :: c in old(balances) ==> old(balances)[c] >= 0) ==>
                forall c :: c in balances ==> balances[c] >= 0
    {
      resolved := clientID in balances && balances[clientID] >= amount;
      if resolved {
        balances := balances[clientID := balances[clientID] - amount];
      }
    }

    method CreateAccount(clientID: string) returns (resolved: bool)
      modifies this
      ensures balances == Created(old(balances), clientID)
      ensures resolved <==> clientID !in old(balances)
      ensures forall c :: c in balances <==> c in old(balances) || c == clientID
      ensures forall c :: c in old(balances) ==> balances[c] == old(balances)[c]
      ensures (forall c :: c in old(balances) ==> old(balances)[c] >= 0) ==>
                forall c :: c in balances ==> balances[c] >= 0
    {
      resolved := clientID !in balances;
      if resolved {
        balances := balances[clientID := 0];
      }
    }
  }

  // ---------- requests in flight ----------

  datatype Offer = Offer(price: nat, key: string)

  /** A request waits for its lookups, then for its payment, then for the play transaction. */
  datatype Phase = LookingUp | Paying | Playing | Answered(key: string, tx: string) | Refused
  datatype Request = Request(client: string, offer: Option<Offer>, phase: Phase)
  datatype Charge = Charge(request: nat, client: string, price: nat)

  datatype State = State(balances: Balances, credited: Balances, requests: map<nat, Request>, charges: seq<Charge>)

  const INITIAL := State(map[], map[], map[], [])

  datatype Event =
    | Create(client: string)
    | Credit(client: string, amount: nat)
    | Arrive(request: nat, sender: string)
    | LookedUp(request: nat, found: Option<Offer>)  // license and key, or one of them is missing
    | PayStep(request: nat)
    | Played(request: nat, tx: Option<string>)      // the transaction hash, or an error

  function Step(s: State, e: Event): State {
    match e
    case Create(c) =>
      if c in s.balances then s else s.(balances := Created(s.balances, c), credited := s.credited[c := 0])
    case Credit(c, amount) =>
      if c !in s.balances || c !in s.credited then s
      else s.(balances := s.balances[c := s.balances[c] + amount], credited := s.credited[c := s.credited[c] + amount])
    case Arrive(r, c) =>
      if r in s.requests then s else s.(requests := s.requests[r := Request(c, None, LookingUp)])
    case LookedUp(r, found) =>
      if r !in s.requests || s.requests[r].phase != LookingUp then s
      else
        var q := s.requests[r].(offer := found, phase := if found.Some? then Paying else Refused);
        s.(requests := s.requests[r := q])
    case PayStep(r) =>
      if r !in s.requests || s.requests[r].phase != Paying || s.requests[r].offer.None? then s
      else
        var q := s.requests[r];
        var price := q.offer.value.price;
        if CanPay(s.balances, q.client, price) then
          State(Paid(s.balances, q.client, price), s.credited, s.requests[r := q.(phase := Playing)],
                s.charges + [Charge(r, q.client, price)])
        else s.(requests := s.requests[r := q.(phase := Refused)])
    case Played(r, tx) =>
      if r !in s.requests || s.requests[r].phase != Playing || s.requests[r].offer.None? then s
      else
        var q := s.requests[r];
        var phase := if tx.Some? then Answered(q.offer.value.key, tx.value) else Refused;
        s.(requests := s.requests[r := q.(phase := phase)])
  }

  function Run(events: seq<Event>): State {
    if events == [] then INITIAL else Step(Run(events[..|events| - 1]), events[|events| - 1])
  }

  // ---------- accounting ----------

  ghost function ChargedTo(charges: seq<Charge>, client: string): int {
    if charges == [] then 0
    else
      var last := charges[|charges| - 1];
      ChargedTo(charges[..|charges| - 1], client) + if last.client == client then last.price else 0
  }

  ghost function ChargesOf(charges: seq<Charge>, r: nat): nat {
    if charges == [] then 0
    else ChargesOf(charges[..|charges| - 1], r) + if charges[|charges| - 1].request == r then 1 else 0
  }

  lemma ChargeAppended(charges: seq<Charge>, c: Charge, client: string, r: nat)
    ensures ChargedTo(charges + [c], client) == ChargedTo(charges, client) + if c.client == client then c.price else 0
    ensures ChargesOf(charges + [c], r) == ChargesOf(charges, r) + if c.request == r then 1 else 0
  {
    assert (charges + [c])[..|charges|] == charges;
  }

  /** The balance of a client is not negative, and what the client was credited minus what is left is what the client
      was charged. */
  ghost predicate BalancedFor(s: State, c: string) {
    && (c in s.balances <==> c in s.credited)
    && (c in s.balances ==> s.balances[c] >= 0 && s.credited[c] - s.balances[c] == ChargedTo(s.charges, c))
    && (c !in s.balances ==> ChargedTo(s.charges, c) == 0)
  }

  ghost predicate Balanced(s: State) { forall c :: BalancedFor(s, c) }

  /** The event takes a payment. */
  ghost predicate Pays(s: State, e: Event) {
    && e.PayStep? && e.request in s.requests && s.requests[e.request].phase == Paying
    && s.requests[e.request].offer.Some?
    && CanPay(s.balances, s.requests[e.request].client, s.requests[e.request].offer.value.price)
  }

  ghost function ChargeFor(s: State, r: nat): Charge
    requires r in s.requests && s.requests[r].offer.Some?
  {
    Charge(r, s.requests[r].client, s.requests[r].offer.value.price)
  }

  /** The charge log changes by a payment only. */
  lemma StepCharges(s: State, e: Event, client: string, r: nat)
    ensures Pays(s, e) ==>
              var c := ChargeFor(s, e.request);
              && Step(s, e).charges == s.charges + [c]
              && ChargedTo(Step(s, e).charges, client) ==
                 ChargedTo(s.charges, client) + (if c.client == client then c.price else 0)
              && ChargesOf(Step(s, e).charges, r) == ChargesOf(s.charges, r) + (if c.request == r then 1 else 0)
    ensures !Pays(s, e) ==> Step(s, e).charges == s.charges
  {
    if Pays(s, e) {
      ChargeAppended(s.charges, ChargeFor(s, e.request), client, r);
      hide ChargedTo, ChargesOf;
    }
  }

  lemma StepKeepsBalancedFor(s: State, e: Event, client: string)
    requires BalancedFor(s, client)
    ensures BalancedFor(Step(s, e), client)
  {
    StepCharges(s, e, client, 0);
    hide ChargedTo, ChargesOf;
  }

  lemma StepKeepsBalanced(s: State, e: Event)
    requires Balanced(s)
    ensures Balanced(Step(s, e))
  {
    forall client ensures BalancedFor(Step(s, e), client) {
      assert BalancedFor(s, client);
      hide *;
      StepKeepsBalancedFor(s, e, client);
    }
  }

  /** A request was charged once if it got past its payment and never otherwise, at its own looked-up price; an
      answer carries the key of that same lookup. `Refused` requests may or may not have been charged. */
  ghost predicate Accounted(s: State, r: nat) {
    && (r !in s.requests ==> ChargesOf(s.charges, r) == 0)
    && (r in s.requests ==>
        var q := s.requests[r];
        && ChargesOf(s.charges, r) <= 1
        && (q.phase.LookingUp? || q.phase.Paying? ==> ChargesOf(s.charges, r) == 0)
        && (q.phase.Playing? || q.phase.Answered? ==> ChargesOf(s.charges, r) == 1)
        && (q.phase.LookingUp? ==> q.offer.None?)
        && (q.phase.Paying? || ChargesOf(s.charges, r) == 1 ==> q.offer.Some?)
        && (q.phase.Answered? ==> q.offer.Some? && q.phase.key == q.offer.value.key)
        && (ChargesOf(s.charges, r) == 1 ==> Charge(r, q.client, q.offer.value.price) in s.charges))
  }

  lemma StepKeepsAccounted(s: State, e: Event, r: nat)
    requires Accounted(s, r)
    ensures Accounted(Step(s, e), r)
  {
    StepCharges(s, e, "", r);
    hide ChargesOf, ChargedTo;
    if Pays(s, e) && e.request == r {
      assert ChargeFor(s, r) in Step(s, e).charges;
    }
  }

  /** Over every interleaving of requests, credits and account creations the ledger balances and every key that is
      handed out follows exactly one charge of its own price to its own client. */
  lemma {:induction false} LedgerIsSafe(events: seq<Event>, r: nat)
    ensures Balanced(Run(events)) && Accounted(Run(events), r)
  {
    if events != [] {
      var front, e := events[..|events| - 1], events[|events| - 1];
      LedgerIsSafe(front, r);
      assert Run(events) == Step(Run(front), e);
      hide Run, Step, Balanced, Accounted;
      StepKeepsBalanced(Run(front), e);
      StepKeepsAccounted(Run(front), e, r);
    }
  }

  /** An answered request stays answered with the same key, and no request is ever charged again: the log only grows,
      and a step adds a charge exactly when it moves a paying request on. */
  lemma ChargesOnlyGrow(s: State, e: Event)
    ensures s.charges <= Step(s, e).charges && |Step(s, e).charges| <= |s.charges| + 1
    ensures forall r :: r in s.requests && s.requests[r].phase.Answered? ==>
              r in Step(s, e).requests && Step(s, e).requests[r] == s.requests[r]
    ensures Step(s, e).charges != s.charges <==> Pays(s, e)
  {
    StepCharges(s, e, "", 0);
    if Pays(s, e) {
      assert |Step(s, e).charges| == |s.charges| + 1;
    }
  }

  /** Over every continuation of a history the charge log only grows at its end, and an answered request keeps its
      answer and its single charge. */
  lemma {:induction false} AnswersAndChargesAreFinal(events: seq<Event>, more: seq<Event>, r: nat)
    ensures Run(events).charges <= Run(events + more).charges
    ensures r in Run(events).requests && Run(events).requests[r].phase.Answered? ==>
              && r in Run(events + more).requests && Run(events + more).requests[r] == Run(events).requests[r]
              && ChargesOf(Run(events + more).charges, r) == 1
    decreases |more|
  {
    LedgerIsSafe(events + more, r);
    hide Step, Run, Balanced;
    if more == [] {
      assert events + more == events;
    } else {
      var front, e := more[..|more| - 1], more[|more| - 1];
      AnswersAndChargesAreFinal(events, front, r);
      assert events + more == events + front + [e];
      Then(events + front, e, Step(Run(events + front), e));
      ChargesOnlyGrow(Run(events + front), e);
    }
  }

  // ---------- no refund ----------

  ghost predicate IsRefused(s: State, r: nat) {
    r in s.requests && s.requests[r].phase.Refused?
  }

  /** The event tells a request that was charged and waits for its play transaction that the transaction failed. */
  ghost predicate FailsPlay(s: State, e: Event, r: nat) {
    e == Played(r, None) && r in s.requests && s.requests[r].phase.Playing?
  }

  lemma RefusalStep(s: State, e: Event, r: nat)
    requires Accounted(s, r)
    ensures IsRefused(s, r) ==>
              && IsRefused(Step(s, e), r) && !FailsPlay(s, e, r)
              && ChargesOf(Step(s, e).charges, r) == ChargesOf(s.charges, r)
    ensures !IsRefused(s, r) && IsRefused(Step(s, e), r) ==>
              (ChargesOf(Step(s, e).charges, r) == 1 <==> FailsPlay(s, e, r))
    ensures FailsPlay(s, e, r) ==> IsRefused(Step(s, e), r)
  {
    StepCharges(s, e, "", r);
    hide ChargesOf, ChargedTo;
  }

  ghost predicate FailsPlayAt(events: seq<Event>, i: nat, r: nat)
    requires i < |events|
  {
    FailsPlay(Run(events[..i]), events[i], r)
  }

  ghost predicate SomePlayFails(events: seq<Event>, r: nat) {
    exists i :: 0 <= i < |events| && FailsPlayAt(events, i, r)
  }

  lemma FailuresExtend(front: seq<Event>, e: Event, r: nat)
    ensures SomePlayFails(front + [e], r) <==> SomePlayFails(front, r) || FailsPlay(Run(front), e, r)
  {
    hide Run, FailsPlay;
    var events := front + [e];
    assert events[..|front|] == front;
    assert FailsPlayAt(events, |front|, r) <==> FailsPlay(Run(front), e, r);
    forall i | 0 <= i < |front| ensures FailsPlayAt(events, i, r) <==> FailsPlayAt(front, i, r) {
      assert front[..i] == events[..i];
    }
    hide FailsPlayAt;
  }

  lemma {:induction false} RefusalHistory(events: seq<Event>, r: nat)
    ensures !IsRefused(Run(events), r) ==> !SomePlayFails(events, r)
    ensures IsRefused(Run(events), r) ==> (ChargesOf(Run(events).charges, r) == 1 <==> SomePlayFails(events, r))
  {
    if events != [] {
      var front, e := events[..|events| - 1], events[|events| - 1];
      LedgerIsSafe(front, r);
      RefusalHistory(front, r);
      RefusalStep(Run(front), e, r);
      assert events == front + [e];
      FailuresExtend(front, e, r);
      hide Step, Run, IsRefused, FailsPlay, Accounted, Balanced, ChargesOf, SomePlayFails;
      Then(front, e, Step(Run(front), e));
    }
  }

  /** There is no refund. Over every interleaving a refused request was charged, once and for good, exactly when its
      play transaction failed. */
  lemma {:induction false} RefusedButCharged(events: seq<Event>, r: nat)
    requires r in Run(events).requests && Run(events).requests[r].phase.Refused?
    ensures ChargesOf(Run(events).charges, r) <= 1
    ensures ChargesOf(Run(events).charges, r) == 1 <==>
            exists i :: 0 <= i < |events| && FailsPlayAt(events, i, r)
  {
    LedgerIsSafe(events, r);
    hide Run, ChargesOf, FailsPlayAt, Balanced;
    RefusalHistory(events, r);
  }

  // ---------- why a request is answered or refused ----------

  /** Some event of the history meets the condition in the state before it. */
  ghost predicate Happens(events: seq<Event>, meets: (State, Event) -> bool) {
    exists i :: 0 <= i < |events| && HappensAt(events, i, meets)
  }

  ghost predicate HappensAt(events: seq<Event>, i: nat, meets: (State, Event) -> bool)
    requires i < |events|
  {
    meets(Run(events[..i]), events[i])
  }

  lemma HappensNext(front: seq<Event>, e: Event, meets: (State, Event) -> bool)
    ensures Happens(front + [e], meets) <==> Happens(front, meets) || meets(Run(front), e)
  {
    hide Run;
    var events := front + [e];
    assert events[..|front|] == front;
    assert HappensAt(events, |front|, meets) <==> meets(Run(front), e);
    forall i | 0 <= i < |front| ensures HappensAt(events, i, meets) <==> HappensAt(front, i, meets) {
      assert front[..i] == events[..i];
    }
    hide HappensAt;
  }

  ghost predicate InPhase(s: State, r: nat, phase: Phase) {
    r in s.requests && s.requests[r].phase == phase
  }

  /** The play transaction of a waiting request is reported with its hash. */
  ghost function PlaySucceeds(r: nat, key: string, tx: string): (State, Event) -> bool {
    (s: State, e: Event) =>
      e == Played(r, Some(tx)) && InPhase(s, r, Playing) && s.requests[r].offer.Some? &&
      s.requests[r].offer.value.key == key
  }

  /** The license or its key is missing, the client has no account or too little on it, or the play transaction
      fails. */
  ghost function GoesWrong(r: nat): (State, Event) -> bool {
    (s: State, e: Event) =>
      || (e == LookedUp(r, None) && InPhase(s, r, LookingUp))
      || (e == PayStep(r) && InPhase(s, r, Paying) && s.requests[r].offer.Some? &&
          (s.requests[r].client !in s.balances ||
           s.balances[s.requests[r].client] < s.requests[r].offer.value.price))
      || (e == Played(r, None) && InPhase(s, r, Playing))
  }

  /** The offer of a request is looked up. */
  ghost function IsOffered(r: nat, offer: Offer): (State, Event) -> bool {
    (s: State, e: Event) => e == LookedUp(r, Some(offer)) && InPhase(s, r, LookingUp)
  }

  /** A client without this request sends it. */
  ghost function IsSent(r: nat, client: string): (State, Event) -> bool {
    (s: State, e: Event) => e == Arrive(r, client) && r !in s.requests
  }

  ghost predicate IsAnswered(s: State, r: nat, key: string, tx: string) {
    r in s.requests && s.requests[r].phase == Answered(key, tx)
  }

  lemma OneStep(s: State, e: Event, r: nat, key: string, tx: string, offer: Offer, client: string)
    requires Accounted(s, r)
    ensures var t := Step(s, e);
            && (IsAnswered(t, r, key, tx) <==> IsAnswered(s, r, key, tx) || PlaySucceeds(r, key, tx)(s, e))
            && (IsRefused(t, r) <==> IsRefused(s, r) || GoesWrong(r)(s, e))
            && (HasOffer(t, r, offer) <==> HasOffer(s, r, offer) || IsOffered(r, offer)(s, e))
            && (IsFrom(t, r, client) <==> IsFrom(s, r, client) || IsSent(r, client)(s, e))
  {
    hide ChargesOf;
  }

  ghost predicate HasOffer(s: State, r: nat, offer: Offer) { r in s.requests && s.requests[r].offer == Some(offer) }

  ghost predicate IsFrom(s: State, r: nat, client: string) { r in s.requests && s.requests[r].client == client }

  /** Over every interleaving: a request is answered with a key and a transaction exactly when that transaction was
      reported while it waited for it, the key being that of its offer; it is refused exactly when something went wrong
      at its turn; its offer is the one that was looked up for it; and its client is the one who sent it. */
  lemma {:induction false} AnswersHaveCauses(events: seq<Event>, r: nat, key: string, tx: string, offer: Offer,
                                            client: string)
    ensures var s := Run(events);
            && (IsAnswered(s, r, key, tx) <==> Happens(events, PlaySucceeds(r, key, tx)))
            && (IsRefused(s, r) <==> Happens(events, GoesWrong(r)))
            && (HasOffer(s, r, offer) <==> Happens(events, IsOffered(r, offer)))
            && (IsFrom(s, r, client) <==> Happens(events, IsSent(r, client)))
  {
    if events != [] {
      var front, e := events[..|events| - 1], events[|events| - 1];
      assert events == front + [e];
      LedgerIsSafe(front, r);
      OneStep(Run(front), e, r, key, tx, offer, client);
      hide *;
      AnswersHaveCauses(front, r, key, tx, offer, client);
      Then(front, e, Step(Run(front), e));
      HappensNext(front, e, PlaySucceeds(r, key, tx));
      HappensNext(front, e, GoesWrong(r));
      HappensNext(front, e, IsOffered(r, offer));
      HappensNext(front, e, IsSent(r, client));
    }
  }

  // ---------- what the credits are ----------

  /** The amounts that were credited to a client after its account was created. */
  ghost function CreditsTo(events: seq<Event>, client: string): int {
    if events == [] then 0
    else
      var front, e := events[..|events| - 1], events[|events| - 1];
      CreditsTo(front, client) +
      if e.Credit? && e.client == client && HasAccount(front, client) then e.amount else 0
  }

  ghost predicate HasAccount(events: seq<Event>, client: string) {
    exists i :: 0 <= i < |events| && events[i] == Create(client)
  }

  lemma AccountStep(front: seq<Event>, e: Event, client: string)
    ensures HasAccount(front + [e], client) <==> HasAccount(front, client) || e == Create(client)
  {
    var events := front + [e];
    if e == Create(client) { assert events[|front|] == e; }
    assert forall i :: 0 <= i < |front| ==> events[i] == front[i];
  }

  /** A client has an account once it was created, and its balance is what was credited less what was charged. */
  lemma {:induction false} BalanceIsCreditsLessCharges(events: seq<Event>, client: string)
    ensures client in Run(events).balances <==> HasAccount(events, client)
    ensures client in Run(events).credited <==> HasAccount(events, client)
    ensures client in Run(events).credited ==> Run(events).credited[client] == CreditsTo(events, client)
    ensures client !in Run(events).credited ==> CreditsTo(events, client) == 0
    ensures client in Run(events).balances ==>
              Run(events).balances[client] == CreditsTo(events, client) - ChargedTo(Run(events).charges, client)
  {
    if events != [] {
      var front, e := events[..|events| - 1], events[|events| - 1];
      assert events == front + [e];
      BalanceIsCreditsLessCharges(front, client);
      AccountStep(front, e, client);
      assert Run(events) == Step(Run(front), e);
      assert CreditsTo(events, client) == CreditsTo(front, client) +
             if e.Credit? && e.client == client && HasAccount(front, client) then e.amount else 0;
      LedgerIsSafe(events, 0);
      assert BalancedFor(Run(events), client);
      hide Run, CreditsTo, HasAccount, Accounted, ChargedTo, ChargesOf, Balanced;
    }
  }

  const OFFER: Option<Offer> := Some(Offer(5, "key"))

  /** A reachable refusal that costs the client the whole balance. */
  lemma FailedPlayIsNotRefunded()
    ensures var events :=
              [Create("a"), Credit("a", 5), Arrive(0, "a"), LookedUp(0, OFFER), PayStep(0), Played(0, None)];
            Run(events) ==
            State(map["a" := 0], map["a" := 5], map[0 := Request("a", OFFER, Refused)], [Charge(0, "a", 5)])
  {
    BalanceOfFive();
    hide Run;
    var e2 := [Create("a"), Credit("a", 5)];
    var e3 := e2 + [Arrive(0, "a")];
    var e4 := e3 + [LookedUp(0, OFFER)];
    var e5 := e4 + [PayStep(0)];
    var five := map["a" := 5];
    Then(e2, Arrive(0, "a"), State(five, five, map[0 := Request("a", None, LookingUp)], []));
    Then(e3, LookedUp(0, OFFER), State(five, five, map[0 := Request("a", OFFER, Paying)], []));
    FiveIsTaken(five, e4);
    hide Step;
    assert e5 + [Played(0, None)] ==
           [Create("a"), Credit("a", 5), Arrive(0, "a"), LookedUp(0, OFFER), PayStep(0), Played(0, None)];
  }

  lemma BalanceOfFive()
    ensures Run([Create("a"), Credit("a", 5)]) == State(map["a" := 5], map["a" := 5], map[], [])
  {
    var e0: seq<Event> := [];
    assert Run(e0) == INITIAL;
    hide Run;
    Then(e0, Create("a"), State(map["a" := 0], map["a" := 0], map[], []));
    Then(e0 + [Create("a")], Credit("a", 5), State(map["a" := 5], map["a" := 5], map[], []));
    assert e0 + [Create("a")] + [Credit("a", 5)] == [Create("a"), Credit("a", 5)];
  }

  lemma FiveIsTaken(five: Balances, front: seq<Event>)
    requires five == map["a" := 5] && Run(front) == State(five, five, map[0 := Request("a", OFFER, Paying)], [])
    ensures Run(front + [PayStep(0)] + [Played(0, None)]) ==
            State(map["a" := 0], five, map[0 := Request("a", OFFER, Refused)], [Charge(0, "a", 5)])
  {
    hide Run;
    var charges := [Charge(0, "a", 5)];
    Then(front, PayStep(0), State(map["a" := 0], five, map[0 := Request("a", OFFER, Playing)], charges));
    Then(front + [PayStep(0)], Played(0, None),
         State(map["a" := 0], five, map[0 := Request("a", OFFER, Refused)], charges));
  }

  lemma Then(front: seq<Event>, e: Event, t: State)
    requires Step(Run(front), e) == t
    ensures Run(front + [e]) == t
  {
    hide Step;
    assert (front + [e])[..|front|] == front;
  }
}
