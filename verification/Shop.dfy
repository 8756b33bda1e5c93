/** The threaded shop: five shelves with a mutex each, three customers who empty shelves until
    their need is met, and a loader who restocks until a shared counter says all are done. */
module Shop {
  import opened Types

  const SHELVES: nat := 5
  const CUSTOMERS: nat := 3
  const LOADER: nat := 3  // as the owner of a mutex, after the customers 0, 1, 2

  // ---------- One customer alone ----------

  function Sum(xs: seq<int>): int {
    if xs == [] then 0 else xs[0] + Sum(xs[1..])
  }

  lemma {:induction false} SumAfter(xs: seq<int>, j: nat, x: int)
    requires j < |xs|
    ensures Sum(xs[j := x]) == Sum(xs) - xs[j] + x
  {
    if j == 0 {
      assert xs[j := x][1..] == xs[1..];
    } else {
      assert xs[j := x][1..] == xs[1..][j - 1 := x];
      SumAfter(xs[1..], j - 1, x);
    }
  }

  /** The stock on the shelves visited, each counted once. */
  function Offered(store: seq<int>, picks: seq<nat>): int {
    if picks == [] then 0
    else
      var front, j := picks[..|picks| - 1], picks[|picks| - 1];
      Offered(store, front) + if j in front || j >= |store| then 0 else store[j]
  }

  lemma {:induction false} OfferedGrows(store: seq<int>, picks: seq<nat>, k: nat)
    requires k <= |picks| && forall j :: 0 <= j < |store| ==> store[j] >= 0
    ensures 0 <= Offered(store, picks[..k]) <= Offered(store, picks)
    decreases |picks|
  {
    if k == |picks| {
      assert picks[..k] == picks;
      if k > 0 {
        OfferedGrows(store, picks[..k - 1], 0);
        assert picks[..k - 1][..0] == picks[..0];
      }
    } else {
      OfferedGrows(store, picks[..|picks| - 1], k);
      assert picks[..|picks| - 1][..k] == picks[..k];
    }
  }

  /** The purchases loop with nobody else about, on the shelves it happens to pick: the need is met
      exactly when those shelves held enough, and what is taken is what the need went down by. Of the
      used picks all shelves end up empty, except that the one that meets the need keeps the rest. */
  method PurchaseAlone(store: array<int>, need0: int, picks: seq<nat>) returns (need: int, ghost used: nat)
    requires store.Length == SHELVES && need0 > 0 && forall j :: 0 <= j < SHELVES ==> store[j] >= 0
    requires forall k :: 0 <= k < |picks| ==> picks[k] < SHELVES
    modifies store
    ensures need == 0 <==> Offered(old(store[..]), picks) >= need0
    ensures need > 0 ==> need == need0 - Offered(old(store[..]), picks)
    ensures need >= 0 && Sum(store[..]) + (need0 - need) == Sum(old(store[..]))
    ensures forall j :: 0 <= j < SHELVES ==> 0 <= store[j] <= old(store[j])
    ensures used <= |picks| && forall j: nat :: j < SHELVES && j !in picks[..used] ==> store[j] == old(store[j])
    ensures need > 0 ==> used == |picks| && forall j: nat :: j < SHELVES && j in picks ==> store[j] == 0
    ensures need == 0 ==>
              && used > 0 && picks[used - 1] !in picks[..used - 1]
              && (forall j: nat :: j < SHELVES && j in picks[..used - 1] ==> store[j] == 0)
              && var last, rest := picks[used - 1], need0 - Offered(old(store[..]), picks[..used - 1]);
                 0 < rest <= old(store[last]) && store[last] == old(store[last]) - rest
  {
    hide Sum, Offered;
    ghost var stock := store[..];
    need := need0;
    var k := 0;
    assert picks[..0] == [];
    OfferedNone(stock);
    while k < |picks|
      invariant 0 <= k <= |picks| && need > 0
      invariant need == need0 - Offered(stock, picks[..k])
      invariant Sum(store[..]) + (need0 - need) == Sum(stock)
      invariant forall j :: 0 <= j < SHELVES ==> store[j] == if j in picks[..k] then 0 else stock[j]
    {
      var j := picks[k];
      OfferedNext(stock, picks, k);
      SumAfter(store[..], j, if need >= store[j] then 0 else store[j] - need);
      ghost var next := store[..][j := if need >= store[j] then 0 else store[j] - need];
      k := k + 1;
      if store[j] == 0 {
        assert store[..] == next;
        continue;
      }
      if need >= store[j] {
        need := need - store[j];
        store[j] := 0;
      } else {
        store[j] := store[j] - need;
        need := 0;
      }
      assert store[..] == next;
      if need == 0 {
        OfferedGrows(stock, picks, k);
        used := k;
        return;
      }
    }
    used := k;
    assert picks[..k] == picks;
  }

  lemma {:induction false} OfferedNone(store: seq<int>)
    ensures Offered(store, []) == 0
  {
  }

  lemma {:induction false} OfferedNext(store: seq<int>, picks: seq<nat>, k: nat)
    requires k < |picks| && picks[k] < |store|
    ensures Offered(store, picks[..k + 1]) == Offered(store, picks[..k]) + if picks[k] in picks[..k] then 0 else store[picks[k]]
    ensures forall j :: j in picks[..k + 1] <==> j in picks[..k] || j == picks[k]
  {
    assert picks[..k + 1] == picks[..k] + [picks[k]];
    assert picks[..k + 1][..k] == picks[..k];
  }

  function Visited(store: seq<int>, picks: seq<nat>): seq<int> {
    seq(|store|, j requires 0 <= j < |store| => if j in picks then store[j] else 0)
  }

  lemma {:induction false} OfferedIsSum(store: seq<int>, picks: seq<nat>)
    requires forall k :: 0 <= k < |picks| ==> picks[k] < |store|
    ensures Offered(store, picks) == Sum(Visited(store, picks))
    decreases |picks|
  {
    if picks == [] {
      SumZero(Visited(store, picks));
    } else {
      var front, j := picks[..|picks| - 1], picks[|picks| - 1];
      OfferedIsSum(store, front);
      assert picks == front + [j];
      assert Visited(store, picks) == Visited(store, front)[j := store[j]];
      SumAfter(Visited(store, front), j, store[j]);
    }
  }

  lemma {:induction false} SumZero(xs: seq<int>)
    requires forall j :: 0 <= j < |xs| ==> xs[j] == 0
    ensures Sum(xs) == 0
  {
    if xs != [] {
      SumZero(xs[1..]);
    }
  }

  /** Visiting every shelf offers the whole stock. */
  lemma {:induction false} FullRound(store: seq<int>, picks: seq<nat>)
    requires forall k :: 0 <= k < |picks| ==> picks[k] < |store|
    requires forall j: nat :: j < |store| ==> j in picks
    ensures Offered(store, picks) == Sum(store)
  {
    OfferedIsSum(store, picks);
    assert Visited(store, picks) == store;
  }

  // ---------- All threads, one access to shared memory at a time ----------

  datatype CustomerPc =
    | Top
    | Check(j: nat)
    | Want(j: nat)
    | Compare(j: nat)
    | TakeAll(j: nat)
    | Empty(j: nat)
    | TakePart(j: nat)
    | Satisfy(j: nat)
    | Unlock(j: nat)
    | After
    | LoadSum
    | StoreSum(tmp: int)
    | Done

  datatype LoaderPc = LTop | LPick | LWant(j: nat) | LAdd(j: nat) | LUnlock(j: nat) | LDone

  datatype Customer = Customer(need: int, pc: CustomerPc)

  datatype State = State(
    store: seq<int>,
    mutex: seq<Option<nat>>,
    customers: seq<Customer>,
    loader: LoaderPc,
    sum: int,
    delivered: int)  // what the loader has brought so far; the C code does not keep it

  /** Thread to move, with the random numbers it draws if it draws any. */
  datatype Action = Buy(i: nat, j: nat) | Load(j: nat, amount: int)

  function SetCustomer(s: State, i: nat, c: Customer): State
    requires i < |s.customers|
  {
    s.(customers := s.customers[i := c])
  }

  function CustomerStep(s: State, i: nat, pick: nat): State
    requires i < |s.customers|
  {
    var c := s.customers[i];
    match c.pc
    case Top => if pick < SHELVES then SetCustomer(s, i, c.(pc := Check(pick))) else s
    case Check(j) =>
      if j >= |s.store| then s
      else SetCustomer(s, i, c.(pc := if s.store[j] == 0 then Top else Want(j)))
    case Want(j) =>
      if j >= |s.mutex| || s.mutex[j].Some? then s
      else SetCustomer(s, i, c.(pc := Compare(j))).(mutex := s.mutex[j := Some(i)])
    case Compare(j) =>
      if j >= |s.store| then s
      else SetCustomer(s, i, c.(pc := if c.need >= s.store[j] then TakeAll(j) else TakePart(j)))
    case TakeAll(j) => if j >= |s.store| then s else SetCustomer(s, i, Customer(c.need - s.store[j], Empty(j)))
    case Empty(j) => if j >= |s.store| then s else SetCustomer(s, i, c.(pc := Unlock(j))).(store := s.store[j := 0])
    case TakePart(j) =>
      if j >= |s.store| then s else SetCustomer(s, i, c.(pc := Satisfy(j))).(store := s.store[j := s.store[j] - c.need])
    case Satisfy(j) => SetCustomer(s, i, Customer(0, Unlock(j)))
    case Unlock(j) => if j >= |s.mutex| then s else SetCustomer(s, i, c.(pc := After)).(mutex := s.mutex[j := None])
    case After => SetCustomer(s, i, c.(pc := if c.need == 0 then LoadSum else Top))
    case LoadSum => SetCustomer(s, i, c.(pc := StoreSum(s.sum)))
    case StoreSum(tmp) => SetCustomer(s, i, c.(pc := Done)).(sum := tmp + 1)
    case Done => s
  }

  function LoaderStep(s: State, pick: nat, amount: int): State {
    match s.loader
    case LTop => s.(loader := if s.sum < 3 then LPick else LDone)
    case LPick => if pick < SHELVES then s.(loader := LWant(pick)) else s
    case LWant(j) =>
      if j >= |s.mutex| || s.mutex[j].Some? then s else s.(loader := LAdd(j), mutex := s.mutex[j := Some(LOADER)])
    case LAdd(j) =>
      if j >= |s.store| || !(300 <= amount <= 500) then s
      else s.(loader := LUnlock(j), store := s.store[j := s.store[j] + amount], delivered := s.delivered + amount)
    case LUnlock(j) => if j >= |s.mutex| then s else s.(loader := LTop, mutex := s.mutex[j := None])
    case LDone => s
  }

  function Step(s: State, a: Action): State {
    match a
    case Buy(i, j) => if i < |s.customers| then CustomerStep(s, i, j) else s
    case Load(j, amount) => LoaderStep(s, j, amount)
  }

  function Run(s: State, actions: seq<Action>): State
    decreases |actions|
  {
    if actions == [] then s else Step(Run(s, actions[..|actions| - 1]), actions[|actions| - 1])
  }

  function Begin(stock: seq<int>, needs: seq<int>): State {
    State(stock, seq(SHELVES, _ => None), seq(|needs|, i requires 0 <= i < |needs| => Customer(needs[i], Top)), LTop, 0, 0)
  }

  /** The numbers main and the customers may draw. */
  predicate Opening(stock: seq<int>, needs: seq<int>) {
    && |stock| == SHELVES && |needs| == CUSTOMERS
    && (forall j :: 0 <= j < SHELVES ==> 1000 <= stock[j] <= 1200)
    && (forall i :: 0 <= i < CUSTOMERS ==> 3000 <= needs[i] <= 3500)
  }

  // ---------- Locks and bounds ----------

  /** The shelf whose mutex a customer at pc holds. */
  function Holds(pc: CustomerPc): Option<nat> {
    match pc
    case Compare(j) => Some(j)
    case TakeAll(j) => Some(j)
    case Empty(j) => Some(j)
    case TakePart(j) => Some(j)
    case Satisfy(j) => Some(j)
    case Unlock(j) => Some(j)
    case _ => None
  }

  function LoaderHolds(pc: LoaderPc): Option<nat> {
    match pc
    case LAdd(j) => Some(j)
    case LUnlock(j) => Some(j)
    case _ => None
  }

  function Held(s: State, t: nat): Option<nat> {
    if t < |s.customers| then Holds(s.customers[t].pc)
    else if t == LOADER then LoaderHolds(s.loader)
    else None
  }

  predicate OnShelf(pc: CustomerPc) {
    match pc
    case Check(j) => j < SHELVES
    case Want(j) => j < SHELVES
    case _ => Holds(pc).Some? ==> Holds(pc).value < SHELVES
  }

  /** A mutex is owned by the thread whose code is between lock and unlock, and by no other. */
  ghost predicate Locks(s: State) {
    && |s.store| == |s.mutex| == SHELVES && |s.customers| == CUSTOMERS
    && (forall i :: 0 <= i < CUSTOMERS ==> OnShelf(s.customers[i].pc))
    && (s.loader.LWant? || s.loader.LAdd? || s.loader.LUnlock? ==> s.loader.j < SHELVES)
    && (forall j: nat, t: nat :: j < SHELVES ==> (s.mutex[j] == Some(t) <==> Held(s, t) == Some(j)))
  }

  /** Nothing is negative, and what a customer has found out about its shelf still holds. */
  ghost predicate Bounds(s: State) {
    && (forall j :: 0 <= j < |s.store| ==> s.store[j] >= 0)
    && (forall i :: 0 <= i < |s.customers| ==> CustomerBounds(s, s.customers[i]))
  }

  predicate CustomerBounds(s: State, c: Customer) {
    && c.need >= 0
    && match c.pc
       case TakeAll(j) => j < |s.store| && c.need >= s.store[j]
       case TakePart(j) => j < |s.store| && 0 < c.need < s.store[j]
       case Unlock(_) => true
       case Empty(_) => true
       case After => true
       case LoadSum => c.need == 0
       case StoreSum(_) => c.need == 0
       case Done => c.need == 0
       case _ => c.need > 0
  }

  /** What one move of thread t does to the mutexes: nothing, lock a free one, or unlock its own. */
  predicate MutexMove(s: State, s': State, t: nat) {
    && |s'.mutex| == |s.mutex| && |s'.store| == |s.store| && |s'.customers| == |s.customers|
    && match (Held(s, t), Held(s', t))
       case (None, Some(j)) => j < |s.mutex| && s.mutex[j] == None && s'.mutex == s.mutex[j := Some(t)]
       case (Some(j), None) => j < |s.mutex| && s'.mutex == s.mutex[j := None]
       case (h, h') => h' == h && s'.mutex == s.mutex
  }

  lemma {:induction false} MoveKeepsOwners(s: State, s': State, t: nat)
    requires Locks(s) && MutexMove(s, s', t)
    requires forall u: nat :: u != t ==> Held(s', u) == Held(s, u)
    ensures forall j: nat, u: nat :: j < SHELVES ==> (s'.mutex[j] == Some(u) <==> Held(s', u) == Some(j))
  {
    hide Held;
    forall j: nat, u: nat | j < SHELVES
      ensures s'.mutex[j] == Some(u) <==> Held(s', u) == Some(j)
    {
      assert s.mutex[j] == Some(u) <==> Held(s, u) == Some(j);
      assert s.mutex[j] == Some(t) <==> Held(s, t) == Some(j);
    }
  }

  lemma {:induction false} BuyLocks(s: State, i: nat, pick: nat)
    requires Locks(s) && i < |s.customers|
    ensures Locks(CustomerStep(s, i, pick))
  {
    BuyMutex(s, i, pick);
    MoveKeepsOwners(s, CustomerStep(s, i, pick), i);
  }

  lemma {:induction false} BuyMutex(s: State, i: nat, pick: nat)
    requires Locks(s) && i < |s.customers|
    ensures var s' := CustomerStep(s, i, pick);
            && MutexMove(s, s', i) && s'.loader == s.loader && OnShelf(s'.customers[i].pc)
            && (forall k :: 0 <= k < |s.customers| && k != i ==> s'.customers[k] == s.customers[k])
  {
  }

  lemma {:induction false} LoadLocks(s: State, pick: nat, amount: int)
    requires Locks(s)
    ensures Locks(LoaderStep(s, pick, amount))
  {
    MoveKeepsOwners(s, LoaderStep(s, pick, amount), LOADER);
  }

  /** Only the thread that holds a shelf's mutex changes the shelf. */
  lemma {:induction false} ShelfGuarded(s: State, a: Action, t: nat, j: nat)
    requires Locks(s) && j < SHELVES && Held(s, t) == Some(j)
    requires match a case Buy(i, _) => i != t case Load(_, _) => t != LOADER
    ensures Step(s, a).store[j] == s.store[j]
  {
    assert s.mutex[j] == Some(t);
    match a
    case Buy(i, _) => assert i < |s.customers| ==> Held(s, i) != Some(j);
    case Load(_, _) => assert Held(s, LOADER) != Some(j);
  }

  lemma {:induction false} BoundsKept(s: State, a: Action)
    requires Locks(s) && Bounds(s)
    ensures Bounds(Step(s, a))
  {
    hide Step, Locks, CustomerBounds;
    StoreBounds(s, a);
    forall k | 0 <= k < |s.customers|
      ensures CustomerBounds(Step(s, a), Step(s, a).customers[k])
    {
      if a.Buy? && a.i == k {
        OwnBounds(s, a);
      } else {
        OtherBounds(s, a, k);
      }
    }
  }

  lemma {:induction false} StoreBounds(s: State, a: Action)
    requires Locks(s) && Bounds(s)
    ensures |Step(s, a).customers| == |s.customers|
    ensures forall j :: 0 <= j < |Step(s, a).store| ==> Step(s, a).store[j] >= 0
  {
    if a.Buy? && a.i < |s.customers| {
      assert CustomerBounds(s, s.customers[a.i]);
    }
  }

  lemma {:induction false} OwnBounds(s: State, a: Action)
    requires Locks(s) && Bounds(s) && a.Buy? && a.i < |s.customers|
    ensures |Step(s, a).customers| == |s.customers| && CustomerBounds(Step(s, a), Step(s, a).customers[a.i])
  {
    assert CustomerBounds(s, s.customers[a.i]) && OnShelf(s.customers[a.i].pc);
  }

  lemma {:induction false} OtherBounds(s: State, a: Action, k: nat)
    requires Locks(s) && Bounds(s) && k < |s.customers| && !(a.Buy? && a.i == k)
    ensures |Step(s, a).customers| == |s.customers| && CustomerBounds(Step(s, a), Step(s, a).customers[k])
  {
    assert CustomerBounds(s, s.customers[k]);
    if Holds(s.customers[k].pc).Some? {
      ShelfGuarded(s, a, k, Holds(s.customers[k].pc).value);
    }
  }

  // ---------- Goods are conserved ----------

  /** Goods a customer has counted off its need and not yet off the shelf, or the reverse. */
  function Adrift(store: seq<int>, c: Customer): int {
    match c.pc
    case Empty(j) => if j < |store| then store[j] else 0
    case Satisfy(_) => -c.need
    case _ => 0
  }

  function TotalAdrift(store: seq<int>, cs: seq<Customer>): int {
    if cs == [] then 0 else Adrift(store, cs[0]) + TotalAdrift(store, cs[1..])
  }

  function TotalNeed(cs: seq<Customer>): int {
    if cs == [] then 0 else cs[0].need + TotalNeed(cs[1..])
  }

  lemma {:induction false} TotalsAfter(store: seq<int>, store': seq<int>, cs: seq<Customer>, i: nat, c: Customer)
    requires i < |cs|
    requires forall k :: 0 <= k < |cs| && k != i ==> Adrift(store', cs[k]) == Adrift(store, cs[k])
    ensures TotalNeed(cs[i := c]) == TotalNeed(cs) - cs[i].need + c.need
    ensures TotalAdrift(store', cs[i := c]) == TotalAdrift(store, cs) - Adrift(store, cs[i]) + Adrift(store', c)
  {
    if i == 0 {
      assert cs[i := c][1..] == cs[1..];
      AdriftSame(store, store', cs[1..]);
    } else {
      assert cs[i := c][1..] == cs[1..][i - 1 := c];
      TotalsAfter(store, store', cs[1..], i - 1, c);
    }
  }

  lemma {:induction false} AdriftSame(store: seq<int>, store': seq<int>, cs: seq<Customer>)
    requires forall k :: 0 <= k < |cs| ==> Adrift(store', cs[k]) == Adrift(store, cs[k])
    ensures TotalAdrift(store', cs) == TotalAdrift(store, cs)
  {
    if cs != [] {
      AdriftSame(store, store', cs[1..]);
    }
  }

  /** Stock on the shelves and needs met, against what there was, what came, and what is between two assignments. */
  ghost predicate Balanced(s: State, stock: seq<int>, needs: seq<int>) {
    Sum(s.store) + (Sum(needs) - TotalNeed(s.customers)) == Sum(stock) + s.delivered + TotalAdrift(s.store, s.customers)
  }

  /** A move of customer i touches at most the shelf it holds, and conserves shelf, need and adrift together. */
  lemma {:induction false} BuyEffect(s: State, i: nat, pick: nat)
    requires Locks(s) && Bounds(s) && i < |s.customers|
    ensures var s', c := CustomerStep(s, i, pick), s.customers[i];
            && s'.customers == s.customers[i := s'.customers[i]] && s'.delivered == s.delivered
            && var j := match Holds(c.pc) case Some(h) => h case None => 0;
               && j < |s.store| && |s'.store| == |s.store| && s'.store == s.store[j := s'.store[j]]
               && s'.store[j] - s'.customers[i].need - Adrift(s'.store, s'.customers[i]) == s.store[j] - c.need - Adrift(s.store, c)
  {
    assert OnShelf(s.customers[i].pc) && CustomerBounds(s, s.customers[i]);
  }

  lemma {:induction false} OthersAdrift(s: State, a: Action, k: nat)
    requires Locks(s) && k < |s.customers| && match a case Buy(i, _) => i != k case Load(_, _) => true
    ensures Adrift(Step(s, a).store, s.customers[k]) == Adrift(s.store, s.customers[k])
  {
    if s.customers[k].pc.Empty? {
      assert Held(s, k) == Some(s.customers[k].pc.j);
      ShelfGuarded(s, a, k, s.customers[k].pc.j);
    }
  }

  lemma {:induction false} BalanceKept(s: State, a: Action, stock: seq<int>, needs: seq<int>)
    requires Locks(s) && Bounds(s) && Balanced(s, stock, needs)
    ensures Balanced(Step(s, a), stock, needs)
  {
    hide Held, Locks, Bounds, CustomerStep, Adrift;
    var s' := Step(s, a);
    forall k | 0 <= k < |s.customers| && !(a.Buy? && a.i == k)
      ensures Adrift(s'.store, s.customers[k]) == Adrift(s.store, s.customers[k])
    {
      OthersAdrift(s, a, k);
    }
    match a {
      case Buy(i, pick) =>
        if i < |s.customers| {
          BuyEffect(s, i, pick);
          TotalsAfter(s.store, s'.store, s.customers, i, s'.customers[i]);
          var j := match Holds(s.customers[i].pc) case Some(h) => h case None => 0;
          SumAfter(s.store, j, s'.store[j]);
        }
      case Load(_, amount) =>
        AdriftSame(s.store, s'.store, s.customers);
        if s.loader.LAdd? && s.loader.j < |s.store| {
          SumAfter(s.store, s.loader.j, s.store[s.loader.j] + amount);
        }
    }
  }

  // ---------- The counter of finished customers ----------

  /** How many customers have stored their increment. */
  function Stored(cs: seq<Customer>): nat {
    if cs == [] then 0 else (if cs[0].pc.Done? then 1 else 0) + Stored(cs[1..])
  }

  lemma {:induction false} StoredAfter(cs: seq<Customer>, i: nat, c: Customer)
    requires i < |cs|
    ensures Stored(cs[i := c]) == Stored(cs) - (if cs[i].pc.Done? then 1 else 0) + (if c.pc.Done? then 1 else 0)
    ensures cs[i].pc.Done? ==> Stored(cs) > 0
  {
    if i == 0 {
      assert cs[i := c][1..] == cs[1..];
    } else {
      assert cs[i := c][1..] == cs[1..][i - 1 := c];
      StoredAfter(cs[1..], i - 1, c);
    }
  }

  lemma {:induction false} StoredAll(cs: seq<Customer>)
    ensures Stored(cs) <= |cs|
    ensures Stored(cs) == |cs| <==> forall i :: 0 <= i < |cs| ==> cs[i].pc.Done?
  {
    if cs != [] {
      StoredAll(cs[1..]);
      assert forall i :: 1 <= i < |cs| ==> cs[i] == cs[1..][i - 1];
      assert forall i :: 0 <= i < |cs| - 1 ==> cs[1..][i] == cs[i + 1];
    }
  }

  /** The counter may fall behind and never runs ahead; nor does a value loaded and not yet stored. */
  ghost predicate Counter(s: State) {
    && |s.customers| == CUSTOMERS
    && s.sum <= Stored(s.customers)
    && (forall i :: 0 <= i < |s.customers| && s.customers[i].pc.StoreSum? ==> Loaded(s, s.customers[i].pc.tmp))
    && (s.loader.LDone? ==> Stored(s.customers) == CUSTOMERS)
  }

  predicate Loaded(s: State, tmp: int) {
    tmp <= Stored(s.customers) && (tmp == Stored(s.customers) ==> s.sum == tmp)
  }

  /** What one move of a customer does to the counter. */
  lemma {:induction false} BuyCounter(s: State, i: nat, pick: nat)
    requires i < |s.customers|
    ensures CounterMove(s, CustomerStep(s, i, pick), i)
  {
  }

  predicate CounterMove(s: State, s': State, i: nat) {
    && i < |s.customers| == |s'.customers| && s'.customers == s.customers[i := s'.customers[i]] && s'.loader == s.loader
    && var pc, pc' := s.customers[i].pc, s'.customers[i].pc;
       && (pc.LoadSum? ==> pc' == StoreSum(s.sum) && s'.sum == s.sum)
       && (pc.StoreSum? ==> pc' == Done && s'.sum == pc.tmp + 1)
       && (!pc.LoadSum? && !pc.StoreSum? ==> !pc'.StoreSum? && (pc'.Done? <==> pc.Done?) && s'.sum == s.sum)
  }

  lemma {:induction false} CounterKept(s: State, a: Action)
    requires Counter(s)
    ensures Counter(Step(s, a))
  {
    hide CustomerStep, Stored;
    StoredAll(s.customers);
    if a.Buy? && a.i < |s.customers| {
      var s' := Step(s, a);
      BuyCounter(s, a.i, a.j);
      StoredAfter(s.customers, a.i, s'.customers[a.i]);
      StoredAll(s'.customers);
      forall k | 0 <= k < |s'.customers| && s'.customers[k].pc.StoreSum?
        ensures Loaded(s', s'.customers[k].pc.tmp)
      {
        assert k != a.i ==> Loaded(s, s.customers[k].pc.tmp);
      }
      assert s.customers[a.i].pc.StoreSum? ==> Loaded(s, s.customers[a.i].pc.tmp);
    }
  }

  ghost predicate Inv(s: State, stock: seq<int>, needs: seq<int>) {
    Locks(s) && Bounds(s) && Balanced(s, stock, needs) && Counter(s)
  }

  lemma {:induction false} BeginInv(stock: seq<int>, needs: seq<int>)
    requires Opening(stock, needs)
    ensures Inv(Begin(stock, needs), stock, needs)
  {
    var s := Begin(stock, needs);
    TotalsAtStart(stock, needs);
  }

  lemma {:induction false} TotalsAtStart(store: seq<int>, needs: seq<int>)
    ensures var cs := Begin([], needs).customers;
            TotalNeed(cs) == Sum(needs) && TotalAdrift(store, cs) == 0 && Stored(cs) == 0
  {
    if needs != [] {
      assert Begin([], needs).customers[1..] == Begin([], needs[1..]).customers;
      TotalsAtStart(store, needs[1..]);
    }
  }

  lemma {:induction false} RunInv(stock: seq<int>, needs: seq<int>, actions: seq<Action>)
    requires Opening(stock, needs)
    ensures Inv(Run(Begin(stock, needs), actions), stock, needs)
    decreases |actions|
  {
    hide Locks, Bounds, Balanced, Counter, Step;
    if actions == [] {
      BeginInv(stock, needs);
    } else {
      var front, a := actions[..|actions| - 1], actions[|actions| - 1];
      RunInv(stock, needs, front);
      var s := Run(Begin(stock, needs), front);
      LocksKept(s, a);
      BoundsKept(s, a);
      BalanceKept(s, a, stock, needs);
      CounterKept(s, a);
    }
  }

  lemma {:induction false} LocksKept(s: State, a: Action)
    requires Locks(s)
    ensures Locks(Step(s, a))
  {
    hide Locks, CustomerStep, LoaderStep;
    match a
    case Buy(i, j) => if i < |s.customers| { BuyLocks(s, i, j); }
    case Load(j, amount) => LoadLocks(s, j, amount);
  }

  predicate AllDone(s: State) {
    forall i :: 0 <= i < |s.customers| ==> s.customers[i].pc.Done?
  }

  /** What the loader adds to the shelves in a run: the amounts drawn when it is about to add. */
  function Delivered(s: State, actions: seq<Action>): int
    decreases |actions|
  {
    if actions == [] then 0
    else
      var front, a := actions[..|actions| - 1], actions[|actions| - 1];
      Delivered(s, front) + if a.Load? && Run(s, front).loader.LAdd? && 300 <= a.amount <= 500 then a.amount else 0
  }

  lemma {:induction false} DeliveredCounts(stock: seq<int>, needs: seq<int>, actions: seq<Action>)
    requires Opening(stock, needs)
    ensures Run(Begin(stock, needs), actions).delivered == Delivered(Begin(stock, needs), actions)
    decreases |actions|
  {
    hide Bounds, Balanced, Counter;
    if actions != [] {
      var front := actions[..|actions| - 1];
      DeliveredCounts(stock, needs, front);
      RunInv(stock, needs, front);
      DeliveredStep(Run(Begin(stock, needs), front), actions[|actions| - 1]);
    }
  }

  lemma {:induction false} DeliveredStep(s: State, a: Action)
    requires Locks(s)
    ensures Step(s, a).delivered == s.delivered + if a.Load? && s.loader.LAdd? && 300 <= a.amount <= 500 then a.amount else 0
  {
  }

  /** In every interleaving goods are conserved, up to the customers caught between their two
      assignments, and neither a shelf nor a need is ever negative. */
  lemma {:induction false} Conservation(stock: seq<int>, needs: seq<int>, actions: seq<Action>)
    requires Opening(stock, needs)
    ensures var s := Run(Begin(stock, needs), actions);
            && Sum(s.store) + (Sum(needs) - TotalNeed(s.customers)) ==
               Sum(stock) + Delivered(Begin(stock, needs), actions) + TotalAdrift(s.store, s.customers)
            && (forall j :: 0 <= j < |s.store| ==> s.store[j] >= 0)
            && (forall i :: 0 <= i < |s.customers| ==> s.customers[i].need >= 0)
  {
    hide Run, Delivered;
    DeliveredCounts(stock, needs, actions);
    RunInv(stock, needs, actions);
    var s := Run(Begin(stock, needs), actions);
    assert forall i :: 0 <= i < |s.customers| ==> CustomerBounds(s, s.customers[i]);
  }

  /** When all threads are joined, every need is met and the leftovers are the opening stock and the
      deliveries less the three needs; the loader never finishes before the customers. */
  lemma {:induction false} Leftovers(stock: seq<int>, needs: seq<int>, actions: seq<Action>)
    requires Opening(stock, needs)
    ensures var s := Run(Begin(stock, needs), actions);
            && (s.loader.LDone? ==> AllDone(s))
            && (AllDone(s) ==> TotalNeed(s.customers) == 0 && Sum(s.store) == Sum(stock) + Delivered(Begin(stock, needs), actions) - Sum(needs))
  {
    hide Run, Locks, Delivered;
    DeliveredCounts(stock, needs, actions);
    RunInv(stock, needs, actions);
    var s := Run(Begin(stock, needs), actions);
    StoredAll(s.customers);
    if AllDone(s) {
      assert forall i :: 0 <= i < |s.customers| ==> CustomerBounds(s, s.customers[i]);
      DoneTotals(s.store, s.customers);
    }
  }

  lemma {:induction false} DoneTotals(store: seq<int>, cs: seq<Customer>)
    requires forall i :: 0 <= i < |cs| ==> cs[i].pc.Done? && cs[i].need == 0
    ensures TotalNeed(cs) == 0 && TotalAdrift(store, cs) == 0
  {
    if cs != [] {
      DoneTotals(store, cs[1..]);
    }
  }

  // ---------- When the counter is exact ----------

  /** Customer a.i is about to load the counter while another is between its load and its store. */
  ghost predicate Overlap(s: State, a: Action) {
    a.Buy? && a.i < |s.customers| && s.customers[a.i].pc.LoadSum? &&
    exists k :: 0 <= k < |s.customers| && s.customers[k].pc.StoreSum?
  }

  /** No two increments overlap in the run. */
  ghost predicate Serialized(s: State, actions: seq<Action>)
    decreases |actions|
  {
    actions == [] ||
    (var front := actions[..|actions| - 1]; Serialized(s, front) && !Overlap(Run(s, front), actions[|actions| - 1]))
  }

  /** No increment is lost, nor about to be. */
  ghost predicate Exact(s: State) {
    && s.sum == Stored(s.customers)
    && (forall i :: 0 <= i < |s.customers| && s.customers[i].pc.StoreSum? ==> s.customers[i].pc.tmp == s.sum)
    && (forall i, k :: 0 <= i < k < |s.customers| ==> !(s.customers[i].pc.StoreSum? && s.customers[k].pc.StoreSum?))
  }

  lemma {:induction false} ExactStep(s: State, a: Action)
    requires Counter(s)
    ensures Exact(Step(s, a)) <==> Exact(s) && !Overlap(s, a)
  {
    hide LoaderStep;
    if a.Buy? && a.i < |s.customers| {
      BuyCounter(s, a.i, a.j);
      hide CustomerStep;
      StoredAfter(s.customers, a.i, Step(s, a).customers[a.i]);
      ExactBuy(s, Step(s, a), a.i);
    } else {
      LoadCounter(s, a);
    }
  }

  lemma {:induction false} LoadCounter(s: State, a: Action)
    requires !(a.Buy? && a.i < |s.customers|)
    ensures Step(s, a).customers == s.customers && Step(s, a).sum == s.sum
  {
  }

  lemma {:induction false} ExactBuy(s: State, s': State, i: nat)
    requires Counter(s) && CounterMove(s, s', i)
    requires Stored(s'.customers) == Stored(s.customers) - (if s.customers[i].pc.Done? then 1 else 0) + (if s'.customers[i].pc.Done? then 1 else 0)
    ensures Exact(s') <==> Exact(s) && !Overlap(s, Buy(i, 0))
  {
    hide Stored;
    var cs, cs' := s.customers, s'.customers;
    assert forall k :: 0 <= k < |cs| && k != i ==> cs'[k] == cs[k];
    if !Exact(s) {
      if s.sum == Stored(cs) {
        if j, k :| 0 <= j < k < |cs| && cs[j].pc.StoreSum? && cs[k].pc.StoreSum? {
          var other := if j == i then k else j;
          assert cs'[other].pc.StoreSum? && Loaded(s, cs[other].pc.tmp);
        } else {
          var j :| 0 <= j < |cs| && cs[j].pc.StoreSum? && cs[j].pc.tmp != s.sum;
          assert Loaded(s, cs[j].pc.tmp);
          assert j != i ==> cs'[j].pc.StoreSum?;
        }
      } else if cs[i].pc.StoreSum? {
        assert Loaded(s, cs[i].pc.tmp);
      }
    } else if Overlap(s, Buy(i, 0)) {
      var k :| 0 <= k < |cs| && cs[k].pc.StoreSum?;
      assert cs'[k].pc.StoreSum? && cs'[i].pc.StoreSum? && k != i;
      assert !Exact(s');
    }
  }

  lemma {:induction false} CounterRun(stock: seq<int>, needs: seq<int>, actions: seq<Action>)
    requires Opening(stock, needs)
    ensures Exact(Run(Begin(stock, needs), actions)) <==> Serialized(Begin(stock, needs), actions)
    decreases |actions|
  {
    hide Step, Exact, Overlap;
    if actions == [] {
      ExactAtStart(stock, needs);
    } else {
      var front := actions[..|actions| - 1];
      CounterRun(stock, needs, front);
      RunInv(stock, needs, front);
      ExactStep(Run(Begin(stock, needs), front), actions[|actions| - 1]);
    }
  }

  lemma {:induction false} ExactAtStart(stock: seq<int>, needs: seq<int>)
    ensures Exact(Begin(stock, needs))
  {
    TotalsAtStart(stock, needs);
  }

  /** With all customers done the counter has reached three exactly when no two increments overlapped. */
  lemma {:induction false} CounterExact(stock: seq<int>, needs: seq<int>, actions: seq<Action>)
    requires Opening(stock, needs) && AllDone(Run(Begin(stock, needs), actions))
    ensures Run(Begin(stock, needs), actions).sum == 3 <==> Serialized(Begin(stock, needs), actions)
  {
    hide Run, Serialized;
    CounterRun(stock, needs, actions);
    RunInv(stock, needs, actions);
    StoredAll(Run(Begin(stock, needs), actions).customers);
  }

  // ---------- When the program ends ----------

  lemma {:induction false} RunConcat(s: State, a: seq<Action>, b: seq<Action>)
    ensures Run(s, a + b) == Run(Run(s, a), b)
    decreases |b|
  {
    if b == [] {
      assert a + b == a;
    } else {
      assert (a + b)[..|a + b| - 1] == a + b[..|b| - 1];
      RunConcat(s, a, b[..|b| - 1]);
    }
  }

  /** A loader with nobody in its way and the counter at three is done within six moves. */
  lemma {:induction false} LoaderFinishes(s: State) returns (actions: seq<Action>)
    requires Locks(s) && AllDone(s) && s.sum >= 3
    ensures Run(s, actions).loader == LDone
    decreases match s.loader case LDone => 0 case LTop => 1 case LUnlock(_) => 2 case LAdd(_) => 3 case LWant(_) => 4 case LPick => 5
  {
    if s.loader.LDone? {
      actions := [];
    } else {
      var a := Load(0, 300);
      if s.loader.LWant? {
        FreeShelf(s, s.loader.j);
      }
      LocksKept(s, a);
      assert AllDone(Step(s, a));
      var rest := LoaderFinishes(Step(s, a));
      actions := [a] + rest;
      RunConcat(s, [a], rest);
      assert Run(s, [a]) == Step(Run(s, [a][..0]), a) == Step(s, a);
    }
  }

  lemma {:induction false} FreeShelf(s: State, j: nat)
    requires Locks(s) && j < SHELVES && LoaderHolds(s.loader).None?
    requires forall i :: 0 <= i < |s.customers| ==> Holds(s.customers[i].pc).None?
    ensures s.mutex[j] == None
  {
    if s.mutex[j].Some? {
      assert false;
    }
  }

  /** The loader stopped because it read three, and the counter never comes down again after that. */
  lemma {:induction false} LDoneMeansThree(stock: seq<int>, needs: seq<int>, actions: seq<Action>)
    requires Opening(stock, needs)
    ensures Run(Begin(stock, needs), actions).loader.LDone? ==> Run(Begin(stock, needs), actions).sum >= 3
    decreases |actions|
  {
    hide Step, Locks, Bounds, Balanced, Counter;
    if actions != [] {
      var front := actions[..|actions| - 1];
      LDoneMeansThree(stock, needs, front);
      RunInv(stock, needs, front);
      LDoneStep(Run(Begin(stock, needs), front), actions[|actions| - 1]);
    }
  }

  lemma {:induction false} LDoneStep(s: State, a: Action)
    requires Counter(s) && (s.loader.LDone? ==> s.sum >= 3)
    ensures Step(s, a).loader.LDone? ==> Step(s, a).sum >= 3
  {
    hide CustomerStep, Stored;
    StoredAll(s.customers);
    if a.Buy? && a.i < |s.customers| {
      BuyCounter(s, a.i, a.j);
    }
  }

  /** The opening stock and needs of a run in which an increment is lost. */
  const LOST_STOCK: seq<int> := [1200, 1200, 1200, 1200, 1200]
  const LOST_NEEDS: seq<int> := [3000, 3000, 3000]

  function Repeat(a: Action, n: nat): seq<Action> {
    if n == 0 then [] else Repeat(a, n - 1) + [a]
  }

  /** The locked transfer, as one assignment to need and one to the shelf. */
  function Transfer(need: int, stock: int): (int, int) {
    if need >= stock then (need - stock, 0) else (0, stock - need)
  }

  function AfterVisit(s: State, i: nat, j: nat): State
    requires i < |s.customers| && j < |s.store|
  {
    var (need, stock) := Transfer(s.customers[i].need, s.store[j]);
    s.(store := s.store[j := stock], customers := s.customers[i := Customer(need, if need == 0 then LoadSum else Top)])
  }

  /** The locked part of a customer's loop, undisturbed. */
  lemma {:induction false} ThreeMoves(s: State, i: nat, j: nat, pick: nat)
    requires i < |s.customers| && j < |s.store| && s.customers[i].pc == Compare(j)
    ensures var a, t := Buy(i, pick), Transfer(s.customers[i].need, s.store[j]);
            Step(Step(Step(s, a), a), a) == s.(store := s.store[j := t.1], customers := s.customers[i := Customer(t.0, Unlock(j))])
  {
  }

  /** Eight undisturbed moves of a customer are one pass of its loop over a stocked, unlocked shelf. */
  lemma {:induction false} Visit(s: State, i: nat, j: nat)
    requires i < |s.customers| && s.customers[i].pc == Top
    requires j < SHELVES == |s.store| == |s.mutex| && s.mutex[j] == None && s.store[j] != 0
    ensures Run(s, Repeat(Buy(i, j), 8)) == AfterVisit(s, i, j)
  {
    hide Step, Run, Repeat;
    var a := Buy(i, j);
    EightMoves(s, a);
    Approach(s, i, j);
    var s3 := Step(Step(Step(s, a), a), a);
    ThreeMoves(s3, i, j, j);
    var s6 := Step(Step(Step(s3, a), a), a);
    Depart(s6, i, j, j);
    assert s3.mutex[j := None] == s.mutex;
    assert Step(Step(s6, a), a).customers == AfterVisit(s, i, j).customers;
  }

  /** Pick a shelf, look at it, and lock it. */
  lemma {:induction false} Approach(s: State, i: nat, j: nat)
    requires i < |s.customers| && s.customers[i].pc == Top
    requires j < SHELVES == |s.store| == |s.mutex| && s.mutex[j] == None && s.store[j] != 0
    ensures var a := Buy(i, j);
            Step(Step(Step(s, a), a), a) == s.(mutex := s.mutex[j := Some(i)], customers := s.customers[i := s.customers[i].(pc := Compare(j))])
  {
  }

  /** Unlock the shelf and test the need. */
  lemma {:induction false} Depart(s: State, i: nat, j: nat, pick: nat)
    requires i < |s.customers| && s.customers[i].pc == Unlock(j) && j < |s.mutex|
    ensures var a, c := Buy(i, pick), s.customers[i];
            Step(Step(s, a), a) == s.(mutex := s.mutex[j := None], customers := s.customers[i := c.(pc := if c.need == 0 then LoadSum else Top)])
  {
  }

  lemma {:induction false} EightMoves(s: State, a: Action)
    ensures Run(s, Repeat(a, 8)) == Step(Step(Step(Step(Step(Step(Step(Step(s, a), a), a), a), a), a), a), a)
  {
    hide Run, Step;
    FourMoves(s, a);
    OneMove(s, a, 4);
    OneMove(s, a, 5);
    OneMove(s, a, 6);
    OneMove(s, a, 7);
  }

  lemma {:induction false} OneMove(s: State, a: Action, n: nat)
    ensures Run(s, Repeat(a, n + 1)) == Step(Run(s, Repeat(a, n)), a)
  {
  }

  lemma {:induction false} FourMoves(s: State, a: Action)
    ensures Run(s, Repeat(a, 4)) == Step(Step(Step(Step(s, a), a), a), a)
  {
    hide Run, Step;
    OneMove(s, a, 0);
    OneMove(s, a, 1);
    OneMove(s, a, 2);
    OneMove(s, a, 3);
    NoMove(s, a);
  }

  lemma {:induction false} NoMove(s: State, a: Action)
    ensures Run(s, Repeat(a, 0)) == s
  {
  }

  /** Five undisturbed moves of the loader bring one delivery. */
  lemma {:induction false} Deliver(s: State, j: nat, amount: int)
    requires s.loader == LTop && s.sum < 3 && 300 <= amount <= 500
    requires j < SHELVES == |s.store| == |s.mutex| && s.mutex[j] == None
    ensures Run(s, Repeat(Load(j, amount), 5)) ==
            s.(store := s.store[j := s.store[j] + amount], delivered := s.delivered + amount)
  {
    hide Run, Repeat;
    FourMoves(s, Load(j, amount));
    OneMove(s, Load(j, amount), 4);
    assert s.mutex[j := Some(LOADER)][j := None] == s.mutex;
  }

  function Brought(s: State, amount: int): State
    requires |s.store| > 0
  {
    s.(store := s.store[0 := s.store[0] + amount], delivered := s.delivered + amount)
  }

  lemma {:induction false} BroughtTwice(s: State, x: int, y: int)
    requires |s.store| > 0
    ensures Brought(Brought(s, x), y) == Brought(s, x + y)
  {
    assert Brought(Brought(s, x), y).store == Brought(s, x + y).store;
  }

  lemma {:induction false} Deliveries(s: State, n: nat) returns (actions: seq<Action>)
    requires s.loader == LTop && s.sum < 3
    requires SHELVES == |s.store| == |s.mutex| && s.mutex[0] == None
    ensures Run(s, actions) == Brought(s, 500 * n)
  {
    hide Run, Step, Repeat;
    if n == 0 {
      actions := [];
      Nothing(s);
      assert s.store[0 := s.store[0]] == s.store;
    } else {
      var front := Deliveries(s, n - 1);
      var s' := Brought(s, 500 * (n - 1));
      Deliver(s', 0, 500);
      BroughtTwice(s, 500 * (n - 1), 500);
      assert 500 * (n - 1) + 500 == 500 * n;
      Then(s, front, s', Repeat(Load(0, 500), 5), Brought(s, 500 * n));
      actions := front + Repeat(Load(0, 500), 5);
    }
  }

  lemma {:induction false} Then(s: State, front: seq<Action>, s1: State, back: seq<Action>, s2: State)
    requires Run(s, front) == s1 && Run(s1, back) == s2
    ensures Run(s, front + back) == s2
  {
    RunConcat(s, front, back);
  }

  /** Three visits that leave the customer ready to increment. */
  lemma {:induction false} ThreeVisits(s: State, i: nat, j: nat, k: nat, l: nat) returns (actions: seq<Action>)
    requires i < |s.customers| && s.customers[i].pc == Top
    requires |s.store| == |s.mutex| == SHELVES && j < k < l < SHELVES
    requires s.mutex[j] == s.mutex[k] == s.mutex[l] == None
    requires 0 < s.store[j] && 0 < s.store[k] && 0 < s.store[l]
    requires s.store[j] + s.store[k] < s.customers[i].need <= s.store[j] + s.store[k] + s.store[l]
    ensures Run(s, actions) ==
            s.(store := s.store[j := 0][k := 0][l := s.store[j] + s.store[k] + s.store[l] - s.customers[i].need],
               customers := s.customers[i := Customer(0, LoadSum)])
  {
    hide Run, Step, Repeat;
    Visit(s, i, j);
    var s1 := AfterVisit(s, i, j);
    Visit(s1, i, k);
    var s2 := AfterVisit(s1, i, k);
    Visit(s2, i, l);
    var s3 := AfterVisit(s2, i, l);
    Then(s, Repeat(Buy(i, j), 8), s1, Repeat(Buy(i, k), 8), s2);
    Then(s, Repeat(Buy(i, j), 8) + Repeat(Buy(i, k), 8), s2, Repeat(Buy(i, l), 8), s3);
    actions := Repeat(Buy(i, j), 8) + Repeat(Buy(i, k), 8) + Repeat(Buy(i, l), 8);
  }

  /** An admissible opening and an interleaving after which every need is met and the counter is two. */
  lemma {:induction false} LostUpdate() returns (actions: seq<Action>)
    ensures Opening(LOST_STOCK, LOST_NEEDS)
    ensures var s := Run(Begin(LOST_STOCK, LOST_NEEDS), actions); AllDone(s) && s.sum == 2
  {
    var s0 := Begin(LOST_STOCK, LOST_NEEDS);
    hide Run, Step, Repeat;
    var b1 := ThreeVisits(s0, 0, 0, 1, 2);
    var s1 := s0.(store := [0, 0, 600, 1200, 1200], customers := s0.customers[0 := Customer(0, LoadSum)]);
    assert Run(s0, b1) == s1;
    var b2 := ThreeVisits(s1, 1, 2, 3, 4);
    var s2 := s1.(store := [0, 0, 0, 0, 0], customers := s1.customers[1 := Customer(0, LoadSum)]);
    assert Run(s1, b2) == s2;
    var b3 := Deliveries(s2, 6);
    var s3 := s2.(store := [3000, 0, 0, 0, 0], delivered := 3000);
    assert Run(s2, b3) == s3;
    Visit(s3, 2, 0);
    var s4 := s3.(store := [0, 0, 0, 0, 0], customers := [Customer(0, LoadSum), Customer(0, LoadSum), Customer(0, LoadSum)]);
    assert AfterVisit(s3, 2, 0) == s4;
    var b5 := Race(s4);
    Then(s0, b1, s1, b2, s2);
    Then(s0, b1 + b2, s2, b3, s3);
    Then(s0, b1 + b2 + b3, s3, Repeat(Buy(2, 0), 8), s4);
    Then(s0, b1 + b2 + b3 + Repeat(Buy(2, 0), 8), s4, b5, Run(s4, b5));
    actions := b1 + b2 + b3 + Repeat(Buy(2, 0), 8) + b5;
  }

  /** Two customers load the counter before either stores it. */
  lemma {:induction false} Race(s: State) returns (actions: seq<Action>)
    requires s.sum == 0 && s.customers == [Customer(0, LoadSum), Customer(0, LoadSum), Customer(0, LoadSum)]
    ensures AllDone(Run(s, actions)) && Run(s, actions).sum == 2
  {
    var two := [Buy(0, 0), Buy(1, 0)];
    var one := [Buy(2, 0)];
    actions := two + two + one + one;
    PairRuns(s, two[0], two[1]);
    var s2 := Run(s, two);
    assert s2.customers == [Customer(0, StoreSum(0)), Customer(0, StoreSum(0)), Customer(0, LoadSum)];
    PairRuns(s2, two[0], two[1]);
    var s4 := Run(s2, two);
    assert s4.customers == [Customer(0, Done), Customer(0, Done), Customer(0, LoadSum)] && s4.sum == 1;
    PairRuns(s4, one[0], one[0]);
    RunConcat(s, two, two);
    RunConcat(s, two + two, one + one);
    assert actions == two + two + (one + one) && one + one == [one[0], one[0]];
  }

  lemma {:induction false} PairRuns(s: State, a: Action, b: Action)
    ensures Run(s, [a, b]) == Step(Step(s, a), b)
  {
    assert [a, b] == [a] + [b];
    RunConcat(s, [a], [b]);
    assert [a][..0] == [] && [b][..0] == [];
  }

  // ---------- Every transfer, among the moves of the others ----------

  /** How many of the moves are customer i's. */
  function Moves(i: nat, actions: seq<Action>): nat {
    if actions == [] then 0
    else
      var a := actions[|actions| - 1];
      Moves(i, actions[..|actions| - 1]) + if a.Buy? && a.i == i then 1 else 0
  }

  /** Customer i had need and found stock when it locked shelf j, and has made m moves since. */
  predicate Transferring(s: State, i: nat, j: nat, need: int, stock: int, m: nat)
    requires i < |s.customers| && j < |s.store|
  {
    var (need', stock') := Transfer(need, stock);
    match m
    case 0 => s.customers[i] == Customer(need, Compare(j)) && s.store[j] == stock
    case 1 => s.customers[i] == Customer(need, if need >= stock then TakeAll(j) else TakePart(j)) && s.store[j] == stock
    case 2 =>
      if need >= stock then s.customers[i] == Customer(need', Empty(j)) && s.store[j] == stock
      else s.customers[i] == Customer(need, Satisfy(j)) && s.store[j] == stock'
    case _ => s.customers[i] == Customer(need', Unlock(j)) && s.store[j] == stock'
  }

  lemma {:induction false} TransferStep(s: State, a: Action, i: nat, j: nat, need: int, stock: int, m: nat)
    requires Locks(s) && i < |s.customers| && j < SHELVES && m + Moves(i, [a]) <= 3
    requires Transferring(s, i, j, need, stock, m)
    ensures |Step(s, a).customers| == |s.customers| && |Step(s, a).store| == |s.store|
    ensures Transferring(Step(s, a), i, j, need, stock, m + Moves(i, [a]))
  {
    assert [a][..0] == [];
    if !(a.Buy? && a.i == i) {
      ShelfGuarded(s, a, i, j);
    }
  }

  /** Whatever the other threads do between its moves, a customer that has locked a shelf moves the smaller
      of its need and the stock it found from the one to the other by the time it unlocks: both go down by
      that much, and on an emptied shelf neither ever changes. */
  lemma {:induction false} LockedTransfer(s: State, i: nat, j: nat, actions: seq<Action>)
    requires Locks(s) && i < |s.customers| && s.customers[i].pc == Compare(j) && Moves(i, actions) <= 3
    ensures var s', need, stock := Run(s, actions), s.customers[i].need, s.store[j];
            && Locks(s') && |s'.customers| == |s.customers|
            && Transferring(s', i, j, need, stock, Moves(i, actions))
            && (stock == 0 <= need ==> s'.customers[i].need == need && s'.store[j] == 0)
            && (Moves(i, actions) == 3 ==>
                  var moved := if need <= stock then need else stock;
                  s'.customers[i] == Customer(need - moved, Unlock(j)) && s'.store[j] == stock - moved)
    decreases |actions|
  {
    hide Step;
    if actions != [] {
      var front, a := actions[..|actions| - 1], actions[|actions| - 1];
      assert Moves(i, [a]) == if a.Buy? && a.i == i then 1 else 0 by {
        assert [a][..0] == [];
      }
      LockedTransfer(s, i, j, front);
      LocksKept(Run(s, front), a);
      TransferStep(Run(s, front), a, i, j, s.customers[i].need, s.store[j], Moves(i, front));
    }
  }

  /** Move k of the run is customer i's look, without the lock, at shelf j, which is then stocked, and the
      customer has done nothing since but lock that shelf. */
  ghost predicate Looked(s: State, i: nat, j: nat, actions: seq<Action>, k: nat)
    requires k < |actions|
  {
    && Looking(Run(s, actions[..k]), i, j) && actions[k].Buy? && actions[k].i == i
    && forall n :: k < n <= |actions| ==> Locking(Run(s, actions[..n]), i, j)
  }

  predicate Looking(s: State, i: nat, j: nat) {
    i < |s.customers| && j < |s.store| && s.customers[i].pc == Check(j) && s.store[j] > 0
  }

  predicate Locking(s: State, i: nat, j: nat) {
    i < |s.customers| && (s.customers[i].pc == Want(j) || s.customers[i].pc == Compare(j))
  }

  lemma {:induction false} LookedLater(s: State, i: nat, j: nat, front: seq<Action>, a: Action, k: nat)
    requires k < |front| && Looked(s, i, j, front, k) && Locking(Run(s, front + [a]), i, j)
    ensures Looked(s, i, j, front + [a], k)
  {
    hide Run, Locking;
    var all := front + [a];
    assert all[..k] == front[..k] && all[..|all|] == all;
    assert forall n :: k < n <= |front| ==> all[..n] == front[..n];
  }

  lemma {:induction false} JustLooked(s: State, i: nat, j: nat, front: seq<Action>, a: Action)
    requires a.Buy? && a.i == i && Looking(Run(s, front), i, j) && Locking(Run(s, front + [a]), i, j)
    ensures Looked(s, i, j, front + [a], |front|)
  {
    hide Run, Locking, Looking;
    var all := front + [a];
    assert all[..|front|] == front && all[..|all|] == all;
  }

  /** In every interleaving a customer locks only a shelf that was stocked when it looked, whatever has
      become of the shelf while it waited. */
  lemma {:induction false} LooksBeforeLocking(stock: seq<int>, needs: seq<int>, actions: seq<Action>, i: nat, j: nat)
    requires Opening(stock, needs) && Locking(Run(Begin(stock, needs), actions), i, j)
    ensures exists k :: 0 <= k < |actions| && Looked(Begin(stock, needs), i, j, actions, k)
    decreases |actions|
  {
    hide Run, Step, Looked, Looking, Locking, Balanced, Counter, Locks, Bounds;
    var s0 := Begin(stock, needs);
    if actions == [] {
      Nothing(s0);
      NoneLocking(stock, needs, i, j);
    } else {
      var front, a := actions[..|actions| - 1], actions[|actions| - 1];
      assert actions == front + [a];
      RunInv(stock, needs, front);
      LastStep(s0, front, a);
      LockStep(Run(s0, front), a, i, j);
      if Locking(Run(s0, front), i, j) {
        LooksBeforeLocking(stock, needs, front, i, j);
        var k :| 0 <= k < |front| && Looked(s0, i, j, front, k);
        LookedLater(s0, i, j, front, a, k);
      } else {
        JustLooked(s0, i, j, front, a);
      }
    }
  }

  lemma {:induction false} NoneLocking(stock: seq<int>, needs: seq<int>, i: nat, j: nat)
    ensures !Locking(Begin(stock, needs), i, j)
  {
  }

  lemma {:induction false} LastStep(s: State, front: seq<Action>, a: Action)
    ensures Run(s, front + [a]) == Step(Run(s, front), a)
  {
    assert (front + [a])[..|front|] == front;
  }

  lemma {:induction false} LockStep(s: State, a: Action, i: nat, j: nat)
    requires Locks(s) && Bounds(s) && Locking(Step(s, a), i, j)
    ensures Locking(s, i, j) || (a.Buy? && a.i == i && Looking(s, i, j))
  {
    if i < |s.customers| {
      assert OnShelf(s.customers[i].pc);
    }
  }

  /** The move finds, under the lock, a shelf with something on it. */
  predicate Takes(s: State, a: Action) {
    && a.Buy? && a.i < |s.customers| && s.customers[a.i].pc.Compare?
    && s.customers[a.i].pc.j < |s.store| && s.store[s.customers[a.i].pc.j] > 0
  }

  /** How many transfers from a stocked shelf the run begins. */
  function Transfers(s: State, actions: seq<Action>): nat
    decreases |actions|
  {
    if actions == [] then 0
    else
      var front := actions[..|actions| - 1];
      Transfers(s, front) + if Takes(Run(s, front), actions[|actions| - 1]) then 1 else 0
  }

  /** The need less one for a transfer begun and not yet taken off it. */
  function Owed(store: seq<int>, c: Customer): int {
    match c.pc
    case TakeAll(j) => if j < |store| && store[j] > 0 then c.need - 1 else c.need
    case TakePart(_) => c.need - 1
    case Satisfy(_) => c.need - 1
    case _ => c.need
  }

  function TotalOwed(store: seq<int>, cs: seq<Customer>): int {
    if cs == [] then 0 else Owed(store, cs[0]) + TotalOwed(store, cs[1..])
  }

  lemma {:induction false} OwedAfter(store: seq<int>, store': seq<int>, cs: seq<Customer>, cs': seq<Customer>, i: nat)
    requires |cs'| == |cs|
    requires forall k :: 0 <= k < |cs| && k != i ==> Owed(store', cs'[k]) == Owed(store, cs[k])
    ensures TotalOwed(store', cs') == TotalOwed(store, cs) + if i < |cs| then Owed(store', cs'[i]) - Owed(store, cs[i]) else 0
  {
    if cs != [] {
      if i == 0 {
        OwedAfter(store, store', cs[1..], cs'[1..], |cs|);
      } else {
        OwedAfter(store, store', cs[1..], cs'[1..], i - 1);
      }
    }
  }

  lemma {:induction false} OwedAtLeast(s: State, cs: seq<Customer>)
    requires forall i :: 0 <= i < |cs| ==> CustomerBounds(s, cs[i])
    ensures TotalOwed(s.store, cs) >= 0
  {
    if cs != [] {
      OwedAtLeast(s, cs[1..]);
    }
  }

  /** A transfer begun is owed one less, and no other move raises what is owed. */
  lemma {:induction false} OwedFalls(s: State, a: Action)
    requires Locks(s) && Bounds(s)
    ensures TotalOwed(Step(s, a).store, Step(s, a).customers) + (if Takes(s, a) then 1 else 0) <= TotalOwed(s.store, s.customers)
  {
    var s' := Step(s, a);
    var i := if a.Buy? then a.i else CUSTOMERS;
    SameSize(s, a);
    forall k | 0 <= k < |s.customers| && k != i
      ensures Owed(s'.store, s'.customers[k]) == Owed(s.store, s.customers[k])
    {
      OwedOther(s, a, k);
    }
    if i < |s.customers| {
      OwedOwn(s, a);
    }
    hide Step, Owed, Takes, Locks, Bounds;
    OwedAfter(s.store, s'.store, s.customers, s'.customers, i);
  }

  lemma {:induction false} SameSize(s: State, a: Action)
    ensures |Step(s, a).customers| == |s.customers|
  {
  }

  lemma {:induction false} OwedOther(s: State, a: Action, k: nat)
    requires Locks(s) && k < |s.customers| && !(a.Buy? && a.i == k)
    ensures |Step(s, a).customers| == |s.customers|
    ensures Owed(Step(s, a).store, Step(s, a).customers[k]) == Owed(s.store, s.customers[k])
  {
    if s.customers[k].pc.TakeAll? {
      assert Held(s, k) == Some(s.customers[k].pc.j);
      ShelfGuarded(s, a, k, s.customers[k].pc.j);
    }
  }

  lemma {:induction false} OwedOwn(s: State, a: Action)
    requires Locks(s) && Bounds(s) && a.Buy? && a.i < |s.customers|
    ensures |Step(s, a).customers| == |s.customers|
    ensures Owed(Step(s, a).store, Step(s, a).customers[a.i]) + (if Takes(s, a) then 1 else 0) <= Owed(s.store, s.customers[a.i])
  {
    assert OnShelf(s.customers[a.i].pc) && CustomerBounds(s, s.customers[a.i]);
  }

  lemma {:induction false} OwedAtStart(store: seq<int>, needs: seq<int>)
    ensures TotalOwed(store, Begin([], needs).customers) == Sum(needs)
  {
    if needs != [] {
      assert Begin([], needs).customers[1..] == Begin([], needs[1..]).customers;
      OwedAtStart(store, needs[1..]);
    }
  }

  lemma {:induction false} SumThree(xs: seq<int>)
    requires |xs| == 3
    ensures Sum(xs) == xs[0] + xs[1] + xs[2]
  {
    assert Sum(xs[1..]) == xs[1] + Sum(xs[1..][1..]);
    assert Sum(xs[1..][1..]) == xs[2] + Sum(xs[1..][1..][1..]);
  }

  /** In a run of any length at most 10500 customers' turns at a shelf find anything on it. */
  lemma {:induction false} TransfersBounded(stock: seq<int>, needs: seq<int>, actions: seq<Action>)
    requires Opening(stock, needs)
    ensures Transfers(Begin(stock, needs), actions) <= Sum(needs) <= 10500
  {
    hide Run, Locks, Balanced, Counter;
    TransfersOwed(stock, needs, actions);
    RunInv(stock, needs, actions);
    var s := Run(Begin(stock, needs), actions);
    OwedAtLeast(s, s.customers);
    SumThree(needs);
  }

  lemma {:induction false} TransfersOwed(stock: seq<int>, needs: seq<int>, actions: seq<Action>)
    requires Opening(stock, needs)
    ensures var s := Run(Begin(stock, needs), actions);
            Transfers(Begin(stock, needs), actions) + TotalOwed(s.store, s.customers) <= Sum(needs)
    decreases |actions|
  {
    hide Step, Takes, Locks, Bounds, Balanced, Counter;
    if actions == [] {
      OwedAtStart(stock, needs);
    } else {
      var front := actions[..|actions| - 1];
      TransfersOwed(stock, needs, front);
      RunInv(stock, needs, front);
      OwedFalls(Run(Begin(stock, needs), front), actions[|actions| - 1]);
    }
  }

  // ---------- Whether the program can end ----------

  /** The invariants that do not mention the opening. */
  ghost predicate Sound(s: State) {
    Locks(s) && Bounds(s) && Counter(s)
  }

  lemma {:induction false} NeedFalls(s: State, a: Action)
    requires Locks(s) && Bounds(s)
    ensures TotalNeed(Step(s, a).customers) <= TotalNeed(s.customers)
  {
    if a.Buy? && a.i < |s.customers| {
      var c := s.customers[a.i];
      assert CustomerBounds(s, c) && OnShelf(c.pc);
      TotalsAfter([], [], s.customers, a.i, CustomerStep(s, a.i, a.j).customers[a.i]);
    }
  }

  lemma {:induction false} SoundRun(s: State, actions: seq<Action>)
    requires Sound(s)
    ensures Sound(Run(s, actions)) && TotalNeed(Run(s, actions).customers) <= TotalNeed(s.customers)
    decreases |actions|
  {
    hide Step, Locks, Bounds, Counter;
    if actions != [] {
      var front, a := actions[..|actions| - 1], actions[|actions| - 1];
      SoundRun(s, front);
      LocksKept(Run(s, front), a);
      BoundsKept(Run(s, front), a);
      CounterKept(Run(s, front), a);
      NeedFalls(Run(s, front), a);
    }
  }

  lemma {:induction false} NeedAtLeast(cs: seq<Customer>)
    requires forall i :: 0 <= i < |cs| ==> cs[i].need >= 0
    ensures TotalNeed(cs) >= 0
  {
    if cs != [] {
      NeedAtLeast(cs[1..]);
    }
  }

  lemma {:induction false} SoundNeed(s: State)
    requires Sound(s)
    ensures TotalNeed(s.customers) >= 0
  {
    assert forall i :: 0 <= i < |s.customers| ==> CustomerBounds(s, s.customers[i]);
    NeedAtLeast(s.customers);
  }

  /** Moves of its own that a customer is from the top of its loop or its end, at most. */
  function CustomerAway(pc: CustomerPc): nat {
    match pc
    case Top => 0
    case Check(_) => 9
    case Want(_) => 8
    case Compare(_) => 7
    case TakeAll(_) => 6
    case Empty(_) => 5
    case TakePart(_) => 6
    case Satisfy(_) => 5
    case Unlock(_) => 4
    case After => 3
    case LoadSum => 2
    case StoreSum(_) => 1
    case Done => 0
  }

  function LoaderAway(pc: LoaderPc): nat {
    match pc
    case LTop => 0
    case LPick => 4
    case LWant(_) => 3
    case LAdd(_) => 2
    case LUnlock(_) => 1
    case LDone => 0
  }

  function Away(s: State): nat
    requires |s.customers| == CUSTOMERS
  {
    CustomerAway(s.customers[0].pc) + CustomerAway(s.customers[1].pc) + CustomerAway(s.customers[2].pc) + LoaderAway(s.loader)
  }

  /** Everybody is at the top of a loop or has ended. */
  predicate Calm(s: State) {
    && (forall i :: 0 <= i < |s.customers| ==> s.customers[i].pc.Top? || s.customers[i].pc.Done?)
    && (s.loader.LTop? || s.loader.LDone?)
  }

  lemma {:induction false} BuyNearer(s: State, i: nat)
    requires Sound(s) && i < CUSTOMERS && !s.customers[i].pc.Top? && !s.customers[i].pc.Done?
    requires s.customers[i].pc.Want? ==> s.mutex[s.customers[i].pc.j] == None
    ensures |Step(s, Buy(i, 0)).customers| == CUSTOMERS && Away(Step(s, Buy(i, 0))) < Away(s)
  {
    BuyMutex(s, i, 0);
    var s' := Step(s, Buy(i, 0));
    assert CustomerAway(s'.customers[i].pc) < CustomerAway(s.customers[i].pc) by {
      assert OnShelf(s.customers[i].pc);
    }
  }

  lemma {:induction false} LoadNearer(s: State)
    requires Sound(s) && !s.loader.LTop? && !s.loader.LDone?
    requires s.loader.LWant? ==> s.mutex[s.loader.j] == None
    ensures |Step(s, Load(0, 300)).customers| == CUSTOMERS && Away(Step(s, Load(0, 300))) < Away(s)
  {
  }

  /** If somebody is inside a loop, somebody can move on without loading the counter before another has stored it. */
  lemma {:induction false} SomeoneNearer(s: State) returns (a: Action)
    requires Sound(s) && !Calm(s)
    ensures !Overlap(s, a)
    ensures |Step(s, a).customers| == CUSTOMERS && Away(Step(s, a)) < Away(s)
  {
    hide Away, Step, Bounds, Counter;
    var busy: Option<nat> := None;
    if i :| 0 <= i < |s.customers| && s.customers[i].pc.StoreSum? {
      a := Buy(i, 0);
      BuyNearer(s, i);
      return;
    } else if i :| 0 <= i < |s.customers| && !s.customers[i].pc.Top? && !s.customers[i].pc.Done? {
      if s.customers[i].pc.Want? {
        assert OnShelf(s.customers[i].pc);
        busy := s.mutex[s.customers[i].pc.j];
      }
      if busy == None {
        a := Buy(i, 0);
        BuyNearer(s, i);
        return;
      }
    } else {
      if s.loader.LWant? {
        busy := s.mutex[s.loader.j];
      }
      if busy == None {
        a := Load(0, 300);
        LoadNearer(s);
        return;
      }
    }
    var u := busy.value;
    assert Held(s, u).Some?;
    if u == LOADER {
      a := Load(0, 300);
      LoadNearer(s);
    } else {
      a := Buy(u, 0);
      BuyNearer(s, u);
    }
  }

  lemma {:induction false} OneStep(s: State, a: Action)
    ensures Run(s, [a]) == Step(s, a)
  {
    assert [a][..0] == [];
  }

  /** From any state all threads can come to the top of their loops, and no increment is lost on the way. */
  lemma {:induction false} CalmDown(s: State) returns (actions: seq<Action>)
    requires Sound(s)
    ensures Sound(Run(s, actions)) && Calm(Run(s, actions)) && TotalNeed(Run(s, actions).customers) <= TotalNeed(s.customers)
    ensures Exact(s) ==> Exact(Run(s, actions))
    decreases Away(s)
  {
    hide Run, Step, Locks, Bounds, Exact, Overlap, Calm, Away;
    if Calm(s) {
      actions := [];
      Nothing(s);
    } else {
      var a := SomeoneNearer(s);
      OneStep(s, a);
      SoundRun(s, [a]);
      ExactStep(s, a);
      var rest := CalmDown(Step(s, a));
      actions := [a] + rest;
      RunConcat(s, [a], rest);
    }
  }

  lemma {:induction false} Nothing(s: State)
    ensures Run(s, []) == s
  {
  }

  lemma {:induction false} CalmIsFree(s: State)
    requires Sound(s) && Calm(s)
    ensures forall j :: 0 <= j < SHELVES ==> s.mutex[j] == None
    ensures !AllDone(s) ==> s.loader.LTop? && s.sum < 3
    ensures forall i :: 0 <= i < |s.customers| && s.customers[i].pc.Top? ==> s.customers[i].need > 0
  {
    StoredAll(s.customers);
    forall j: nat | j < SHELVES
      ensures s.mutex[j] == None
    {
      FreeShelf(s, j);
    }
    forall i | 0 <= i < |s.customers| && s.customers[i].pc.Top?
      ensures s.customers[i].need > 0
    {
      assert CustomerBounds(s, s.customers[i]);
    }
  }

  /** A calm state with something on the first shelf. */
  lemma {:induction false} Stocked(s: State) returns (actions: seq<Action>, s': State)
    requires Sound(s) && Calm(s) && !AllDone(s)
    ensures s' == Run(s, actions) && Sound(s') && s'.store[0] > 0
    ensures s'.customers == s.customers && s'.sum == s.sum && s'.mutex == s.mutex
  {
    CalmIsFree(s);
    hide Run, Repeat, Step, Calm;
    if s.store[0] > 0 {
      actions := [];
      Nothing(s);
    } else {
      actions := Repeat(Load(0, 300), 5);
      Deliver(s, 0, 300);
    }
    s' := Run(s, actions);
    SoundRun(s, actions);
  }

  /** In a calm state a customer who still needs something gets some of it. */
  lemma {:induction false} Shops(s: State, i: nat) returns (actions: seq<Action>)
    requires Sound(s) && Calm(s) && i < CUSTOMERS && s.customers[i].pc.Top?
    ensures Sound(Run(s, actions)) && TotalNeed(Run(s, actions).customers) < TotalNeed(s.customers)
    ensures Exact(s) ==> Exact(Run(s, actions))
  {
    hide Run, Repeat, Step, Locks, Bounds;
    CalmIsFree(s);
    var first, s1 := Stocked(s);
    MutexCount(s);
    MutexCount(s1);
    Visit(s1, i, 0);
    var s2 := AfterVisit(s1, i, 0);
    Then(s, first, s1, Repeat(Buy(i, 0), 8), s2);
    actions := first + Repeat(Buy(i, 0), 8);
    SoundRun(s, actions);
    TotalsAfter([], [], s.customers, i, s2.customers[i]);
    StoredAfter(s.customers, i, s2.customers[i]);
    ExactAfter(s, s2, i);
  }

  lemma {:induction false} MutexCount(s: State)
    requires Sound(s)
    ensures |s.mutex| == |s.store| == SHELVES && |s.customers| == CUSTOMERS
  {
  }

  lemma {:induction false} ExactAfter(s: State, s': State, i: nat)
    requires Calm(s) && i < |s.customers| == |s'.customers| && s'.customers == s.customers[i := s'.customers[i]] && s'.sum == s.sum
    requires Stored(s'.customers) == Stored(s.customers) && !s'.customers[i].pc.StoreSum?
    ensures Exact(s) ==> Exact(s')
  {
  }

  /** From any state the customers can all get done, and no increment is lost on the way. */
  lemma {:induction false} Finish(s: State) returns (actions: seq<Action>)
    requires Sound(s)
    ensures Sound(Run(s, actions)) && AllDone(Run(s, actions))
    ensures Exact(s) ==> Exact(Run(s, actions))
    decreases TotalNeed(s.customers)
  {
    hide Run, Locks, Bounds, Counter, Exact, Calm;
    actions := CalmDown(s);
    var s1 := Run(s, actions);
    if i :| 0 <= i < |s1.customers| && !s1.customers[i].pc.Done? {
      MutexCount(s1);
      assert s1.customers[i].pc.Top? by {
        TopOrDone(s1, i);
      }
      var shop := Shops(s1, i);
      SoundNeed(s);
      var rest := Finish(Run(s1, shop));
      RunConcat(s, actions, shop);
      RunConcat(s, actions + shop, rest);
      actions := actions + shop + rest;
    }
  }

  lemma TopOrDone(s: State, i: nat)
    requires Calm(s) && i < |s.customers|
    ensures s.customers[i].pc.Top? || s.customers[i].pc.Done?
  {
  }

  /** From every state that any interleaving can reach, some continuation meets every need and gets every
      customer done. */
  lemma {:induction false} NoDeadlock(stock: seq<int>, needs: seq<int>, actions: seq<Action>) returns (more: seq<Action>)
    requires Opening(stock, needs)
    ensures AllDone(Run(Begin(stock, needs), actions + more))
    ensures Serialized(Begin(stock, needs), actions) ==> Serialized(Begin(stock, needs), actions + more)
  {
    hide Run, Locks, Bounds, Counter, Balanced, Serialized, Exact;
    RunInv(stock, needs, actions);
    more := Finish(Run(Begin(stock, needs), actions));
    RunConcat(Begin(stock, needs), actions, more);
    CounterRun(stock, needs, actions);
    CounterRun(stock, needs, actions + more);
  }

  lemma {:induction false} SerializedBefore(s: State, actions: seq<Action>, more: seq<Action>)
    requires Serialized(s, actions + more)
    ensures Serialized(s, actions)
    decreases |more|
  {
    hide Overlap, Run;
    if more == [] {
      assert actions + more == actions;
    } else {
      assert (actions + more)[..|actions + more| - 1] == actions + more[..|more| - 1];
      SerializedBefore(s, actions, more[..|more| - 1]);
    }
  }

  /** After any run whatever, main's joins can still return exactly when no two increments have
      overlapped; if two have, no continuation ends the loader. */
  lemma {:induction false} EndsExactly(stock: seq<int>, needs: seq<int>, actions: seq<Action>)
    requires Opening(stock, needs)
    ensures (exists more :: Run(Begin(stock, needs), actions + more).loader.LDone?) <==> Serialized(Begin(stock, needs), actions)
  {
    hide Run, Serialized, Locks, Bounds, Balanced, Exact;
    var s0 := Begin(stock, needs);
    if Serialized(s0, actions) {
      var more := NoDeadlock(stock, needs, actions);
      CounterExact(stock, needs, actions + more);
      RunInv(stock, needs, actions + more);
      var last := LoaderFinishes(Run(s0, actions + more));
      RunConcat(s0, actions + more, last);
      assert actions + (more + last) == actions + more + last;
    }
    if more :| Run(s0, actions + more).loader.LDone? {
      LDoneMeansThree(stock, needs, actions + more);
      RunInv(stock, needs, actions + more);
      StoredAll(Run(s0, actions + more).customers);
      CounterExact(stock, needs, actions + more);
      SerializedBefore(s0, actions, more);
    }
  }
}
