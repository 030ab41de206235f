/**
 The credit workflow of the service: requesting a credit for an existing
 client, approving a pending credit, and the reads over the store (all credits
 with their client, one client by id, the number of credits per client).

 The database is modelled as a value: a map from credit id to credit record and
 a map from client id to client record. The client record's attributes are
 opaque to this workflow, so its type is a parameter `C`. Every operation that
 writes returns the store as it is afterwards.
 */
module CreditService {
  import opened Results
  import Installment
  import MapSum

  /** The two values of a credit's status this workflow writes. */
  const Pending: string := "Pendiente"
  const Approved: string := "Aprobado"

  /** One row of the credits table. */
  datatype Credit = Credit(
    id: int,
    clientId: int,             // the client the credit belongs to
    amount: real,              // the amount lent
    annualRate: real,          // the annual interest rate, in percent
    termMonths: int,           // the term, in months
    monthlyInstallment: real,  // computed by the service, never by the caller
    outstandingBalance: real,  // set to the amount when the credit is requested
    status: string,            // "Pendiente" or "Aprobado"
    requestedAt: int)          // the request time, as supplied by the clock

  /** The database: credits by id, clients by id. */
  datatype Store<C> = Store(credits: map<int, Credit>, clients: map<int, C>)

  /** The fields of a credit that the service derives from the ones the caller gave. */
  predicate WellFormed(c: Credit)
  {
    && Installment.MonthlyInstallment(c.amount, c.annualRate, c.termMonths) == Success(c.monthlyInstallment)
    && c.outstandingBalance == c.amount
    && (c.status == Pending || c.status == Approved)
  }

  /**
   A store as this workflow leaves it: every credit is filed under its own id,
   belongs to a client that exists, and is well formed.
   */
  predicate Valid<C>(s: Store<C>)
  {
    forall id | id in s.credits ::
      && s.credits[id].id == id
      && s.credits[id].clientId in s.clients
      && WellFormed(s.credits[id])
  }

  /** b is a with, at most, a different status. */
  predicate SameExceptStatus(a: Credit, b: Credit)
  {
    a.(status := b.status) == b
  }

  /** Looking a credit up by id. */
  function FindCredit<C>(s: Store<C>, id: int): (r: Option<Credit>)
    ensures r.Some? <==> id in s.credits
    ensures r.Some? ==> r.value == s.credits[id]
  {
    if id in s.credits then Some(s.credits[id]) else None
  }

  /** Looking a client up by id; absent when no client has that id. */
  function FindClient<C>(s: Store<C>, id: int): (r: Option<C>)
    ensures r.Some? <==> id in s.clients
    ensures r.Some? ==> r.value == s.clients[id]
  {
    if id in s.clients then Some(s.clients[id]) else None
  }

  /**
   All credits, each with its client attached (absent only if the client is
   missing), keyed by credit id.
   */
  function AllCredits<C>(s: Store<C>): (r: map<int, (Credit, Option<C>)>)
    ensures r.Keys == s.credits.Keys
    ensures forall id | id in r :: r[id].0 == s.credits[id]
    ensures forall id | id in r :: r[id].1.Some? <==> s.credits[id].clientId in s.clients
    ensures forall id | id in r && r[id].1.Some? :: r[id].1.value == s.clients[s.credits[id].clientId]
  {
    map id | id in s.credits :: (s.credits[id], FindClient(s, s.credits[id].clientId))
  }

  /**
   Approving a credit. Only a credit that exists and is pending is approved,
   and then only its status changes; in every other case the answer is false
   and the store is left as it was.
   */
  function Approve<C>(s: Store<C>, id: int): (r: (bool, Store<C>))
    ensures r.0 <==> id in s.credits && s.credits[id].status == Pending
    ensures !r.0 ==> r.1 == s
    ensures r.0 ==>
      && r.1.clients == s.clients
      && r.1.credits.Keys == s.credits.Keys
      && r.1.credits[id].status == Approved
      && SameExceptStatus(s.credits[id], r.1.credits[id])
      && (forall k | k in s.credits && k != id :: r.1.credits[k] == s.credits[k])
  {
    match FindCredit(s, id)
    case None => (false, s)
    case Some(c) =>
      if c.status != Pending then (false, s)
      else (true, s.(credits := s.credits[id := c.(status := Approved)]))
  }

  /**
   Requesting a credit. The client must exist; then the status is forced to
   pending, the request time and the outstanding balance are set, and the
   installment is computed, which refuses a non-positive amount, rate or term.
   Only a request that passes both checks is stored, under the id `newId`
   that the database assigns. Whatever the caller put in the installment,
   balance, status, time and id fields is ignored.
   */
  function Request<C>(s: Store<C>, draft: Credit, newId: int, now: int): (r: (Result<Credit>, Store<C>))
    requires newId !in s.credits
    ensures r.0.Failure? ==> r.1 == s
    ensures r.0 == Failure(ClientNotFound) <==> draft.clientId !in s.clients
    ensures r.0 == Failure(InvalidInput) <==>
      draft.clientId in s.clients && !Installment.ValidTerms(draft.amount, draft.annualRate, draft.termMonths)
    ensures r.0.Success? ==>
      var c := r.0.value;
      && r.1.clients == s.clients
      && r.1.credits.Keys == s.credits.Keys + {newId}
      && r.1.credits[newId] == c
      && (forall k | k in s.credits :: r.1.credits[k] == s.credits[k])
      && c.id == newId
      && c.clientId == draft.clientId
      && c.amount == draft.amount
      && c.annualRate == draft.annualRate
      && c.termMonths == draft.termMonths
      && c.status == Pending
      && c.outstandingBalance == draft.amount
      && c.requestedAt == now
      && Installment.MonthlyInstallment(draft.amount, draft.annualRate, draft.termMonths) == Success(c.monthlyInstallment)
  {
    if FindClient(s, draft.clientId).None? then
      (Failure(ClientNotFound), s)
    else
      var pending := draft.(id := newId, status := Pending, requestedAt := now, outstandingBalance := draft.amount);
      match Installment.MonthlyInstallment(pending.amount, pending.annualRate, pending.termMonths)
      case Failure(e) => (Failure(e), s)
      case Success(q) =>
        var c := pending.(monthlyInstallment := q);
        (Success(c), s.(credits := s.credits[newId := c]))
  }

  /** Approval keeps a consistent store consistent. */
  lemma ApprovePreservesValid<C>(s: Store<C>, id: int)
    requires Valid(s)
    ensures Valid(Approve(s, id).1)
  {
    var s' := Approve(s, id).1;
    forall k | k in s'.credits
      ensures s'.credits[k].id == k && s'.credits[k].clientId in s'.clients && WellFormed(s'.credits[k])
    {
      assert k in s.credits;
    }
  }

  /** A request keeps a consistent store consistent. */
  lemma RequestPreservesValid<C>(s: Store<C>, draft: Credit, newId: int, now: int)
    requires Valid(s) && newId !in s.credits
    ensures Valid(Request(s, draft, newId, now).1)
  {
  }

  /** Approving the same credit a second time answers false and changes nothing. */
  lemma SecondApprovalIsNoOp<C>(s: Store<C>, id: int)
    ensures var s1 := Approve(s, id).1;
            Approve(s1, id) == (false, s1)
  {
  }

  /**
   On a consistent store, approval is refused only for an id that is missing
   or a credit that is already approved.
   */
  lemma ApprovalRefusedOnlyWhenMissingOrApproved<C>(s: Store<C>, id: int)
    requires Valid(s)
    ensures !Approve(s, id).0 <==> id !in s.credits || s.credits[id].status == Approved
  {
  }

  /**
   Reading back a credit just requested gives exactly the record that was
   stored, listed with its client, and the credit can then be approved.
   */
  lemma RequestThenRead<C>(s: Store<C>, draft: Credit, newId: int, now: int)
    requires newId !in s.credits
    requires Request(s, draft, newId, now).0.Success?
    ensures var (r, s') := Request(s, draft, newId, now);
            && FindCredit(s', newId) == Some(r.value)
            && AllCredits(s')[newId] == (r.value, Some(s.clients[draft.clientId]))
            && Approve(s', newId).0
  {
  }

  /** On a consistent store every credit is listed with its own client. */
  lemma AllCreditsHaveClients<C>(s: Store<C>)
    requires Valid(s)
    ensures forall id | id in AllCredits(s) :: AllCredits(s)[id].1 == Some(s.clients[s.credits[id].clientId])
  {
  }

  // ---------------------------------------------------------------------
  // Counting credits per client
  // ---------------------------------------------------------------------

  /** The clients that have at least one credit. */
  function ClientsWithCredits(credits: map<int, Credit>): set<int>
  {
    set id | id in credits :: credits[id].clientId
  }

  /** The ids of the credits of client c. */
  function CreditsOf(credits: map<int, Credit>, c: int): set<int>
  {
    set id | id in credits && credits[id].clientId == c
  }

  /** The clients that have a credit among the ids `ids`. */
  function ClientsAmong(credits: map<int, Credit>, ids: set<int>): set<int>
  {
    set id | id in ids && id in credits :: credits[id].clientId
  }

  /** The ids among `ids` of the credits of client c. */
  function CreditsAmong(credits: map<int, Credit>, ids: set<int>, c: int): set<int>
  {
    set id | id in ids && id in credits && credits[id].clientId == c
  }

  /** The counts are right for the credits `ids` visited so far. */
  predicate CountsSoFar(credits: map<int, Credit>, ids: set<int>, counts: map<int, nat>)
  {
    && counts.Keys == ClientsAmong(credits, ids)
    && (forall c | c in counts :: counts[c] == |CreditsAmong(credits, ids, c)|)
  }

  /** counts with one more credit for client c. */
  function AddOne(counts: map<int, nat>, c: int): map<int, nat>
  {
    counts[c := (if c in counts then counts[c] else 0) + 1]
  }

  lemma ClientsAmongAdd(credits: map<int, Credit>, ids: set<int>, id: int)
    requires id in credits
    ensures ClientsAmong(credits, ids + {id}) == ClientsAmong(credits, ids) + {credits[id].clientId}
  {
  }

  lemma CreditsAmongAdd(credits: map<int, Credit>, ids: set<int>, id: int, c: int)
    requires id in credits
    ensures CreditsAmong(credits, ids + {id}, c)
         == CreditsAmong(credits, ids, c) + (if credits[id].clientId == c then {id} else {})
  {
  }

  lemma CreditsAmongEmpty(credits: map<int, Credit>, ids: set<int>, c: int)
    ensures c !in ClientsAmong(credits, ids) ==> CreditsAmong(credits, ids, c) == {}
  {
    forall d | d in CreditsAmong(credits, ids, c)
      ensures c in ClientsAmong(credits, ids)
    {
    }
  }

  /** Counting one more item adds one to the sum of the counts. */
  lemma AddOneTotal(counts: map<int, nat>, c: int, n: nat)
    requires MapSum.Total(counts) == n
    ensures MapSum.Total(AddOne(counts, c)) == n + 1
  {
    MapSum.TotalUpdate(counts, c, (if c in counts then counts[c] else 0) + 1);
  }

  /** Visiting one more credit adds one to its client's count and leaves the others. */
  lemma AddOneValues(credits: map<int, Credit>, ids: set<int>, counts: map<int, nat>, id: int)
    requires id in credits && id !in ids
    requires counts.Keys == ClientsAmong(credits, ids)
    requires forall c | c in counts :: counts[c] == |CreditsAmong(credits, ids, c)|
    ensures var counts' := AddOne(counts, credits[id].clientId);
            forall c | c in counts' :: counts'[c] == |CreditsAmong(credits, ids + {id}, c)|
  {
    var c := credits[id].clientId;
    var counts' := AddOne(counts, c);
    CreditsAmongAdd(credits, ids, id, c);
    CreditsAmongEmpty(credits, ids, c);
    assert counts'[c] == |CreditsAmong(credits, ids + {id}, c)|;
    forall c' | c' in counts' && c' != c
      ensures counts'[c'] == |CreditsAmong(credits, ids + {id}, c')|
    {
      CreditsAmongAdd(credits, ids, id, c');
    }
  }

  /** Visiting one more credit keeps the counts right. */
  lemma CountStep(credits: map<int, Credit>, ids: set<int>, counts: map<int, nat>, id: int)
    requires id in credits && id !in ids
    requires CountsSoFar(credits, ids, counts)
    ensures CountsSoFar(credits, ids + {id}, AddOne(counts, credits[id].clientId))
  {
    var c := credits[id].clientId;
    var counts' := AddOne(counts, c);
    assert counts'.Keys == ClientsAmong(credits, ids + {id}) by {
      ClientsAmongAdd(credits, ids, id);
    }
    assert forall c' | c' in counts' :: counts'[c'] == |CreditsAmong(credits, ids + {id}, c')| by {
      AddOneValues(credits, ids, counts, id);
    }
  }

  /** Before any credit is visited there are no counts. */
  lemma CountsStart(credits: map<int, Credit>)
    ensures CountsSoFar(credits, {}, map[])
  {
  }

  /** Once every credit has been visited, the counts are those of the whole table. */
  lemma CountsComplete(credits: map<int, Credit>, done: set<int>, counts: map<int, nat>)
    requires done == credits.Keys
    requires CountsSoFar(credits, done, counts)
    requires MapSum.Total(counts) == |done|
    ensures counts.Keys == ClientsWithCredits(credits)
    ensures forall c | c in counts :: counts[c] == |CreditsOf(credits, c)|
    ensures MapSum.Total(counts) == |credits|
  {
    assert |credits| == |credits.Keys|;
    forall c | c in counts
      ensures counts[c] == |CreditsOf(credits, c)|
    {
      assert CreditsOf(credits, c) == CreditsAmong(credits, credits.Keys, c);
    }
  }

  /**
   The number of credits of each client. The keys are exactly the clients that
   have a credit, each value is how many credits that client has, and the
   values add up to the number of credits.
   */
  method CountByClient(credits: map<int, Credit>) returns (counts: map<int, nat>)
    ensures counts.Keys == ClientsWithCredits(credits)
    ensures forall c | c in counts :: counts[c] == |CreditsOf(credits, c)|
    ensures MapSum.Total(counts) == |credits|
  {
    counts := map[];
    var todo := credits.Keys;
    ghost var done: set<int> := {};
    CountsStart(credits);
    while todo != {}
      invariant todo <= credits.Keys && done == credits.Keys - todo
      invariant CountsSoFar(credits, done, counts)
      invariant MapSum.Total(counts) == |done|
      decreases todo
    {
      MapSum.NonEmpty(todo);
      var id :| id in todo;
      VisitOne(credits, todo, done, counts, id);
      counts := AddOne(counts, credits[id].clientId);
      todo := todo - {id};
      done := done + {id};
    }
    CountsComplete(credits, done, counts);
  }

  /** One turn of the loop of CountByClient: credit `id` moves from `todo` to `done`. */
  lemma VisitOne(credits: map<int, Credit>, todo: set<int>, done: set<int>, counts: map<int, nat>, id: int)
    requires todo <= credits.Keys && done == credits.Keys - todo && id in todo
    requires CountsSoFar(credits, done, counts)
    requires MapSum.Total(counts) == |done|
    ensures todo - {id} <= credits.Keys && done + {id} == credits.Keys - (todo - {id})
    ensures CountsSoFar(credits, done + {id}, AddOne(counts, credits[id].clientId))
    ensures MapSum.Total(AddOne(counts, credits[id].clientId)) == |done + {id}|
  {
    CountStep(credits, done, counts, id);
    AddOneTotal(counts, credits[id].clientId, |done|);
    assert |done + {id}| == |done| + 1;
  }

  /** A successful request adds one credit to its client's count and no other. */
  lemma RequestCountsOneMore<C>(s: Store<C>, draft: Credit, newId: int, now: int, c: int)
    requires newId !in s.credits
    requires Request(s, draft, newId, now).0.Success?
    ensures var s' := Request(s, draft, newId, now).1;
            |CreditsOf(s'.credits, c)|
              == |CreditsOf(s.credits, c)| + (if c == draft.clientId then 1 else 0)
  {
    var s' := Request(s, draft, newId, now).1;
    if c == draft.clientId {
      assert CreditsOf(s'.credits, c) == CreditsOf(s.credits, c) + {newId};
    } else {
      assert CreditsOf(s'.credits, c) == CreditsOf(s.credits, c);
    }
  }

  /** Approval moves no credit from one client to another. */
  lemma ApproveKeepsCounts<C>(s: Store<C>, id: int, c: int)
    ensures CreditsOf(Approve(s, id).1.credits, c) == CreditsOf(s.credits, c)
  {
  }
}
