/** The queue-fed server: one thread accepts connections and passes their descriptors, each
    squeezed into a char, through a bounded message queue to a fixed crew of workers. */
module QueueServer {
  import opened Types

  const SIZE: nat := 128
  const BASE: nat := 5  // standard input, output and error, the message queue, the listening socket

  /** Queue slots, workers, and whether char is signed. */
  datatype Config = Config(slots: nat, workers: nat, signedChar: bool)

  /** The sizes the server is written with. */
  function Ours(signedChar: bool): Config {
    Config(10, 10, signedChar)
  }

  function CharMax(c: Config): nat {
    if c.signedChar then 127 else 255
  }

  /** (char) x, read back as an int. */
  function Narrow(c: Config, x: nat): int {
    if c.signedChar then (x + 128) % 256 - 128 else x % 256
  }

  // ---------- What a worker does with one request ----------

  function ToUpper(b: byte): byte {
    if 97 <= b <= 122 then b - 32 else b
  }

  /** Each small letter becomes its capital, and every other byte stays what it is. */
  lemma {:induction false} Capitals(b: byte)
    ensures var small, capital := "abcdefghijklmnopqrstuvwxyz", "ABCDEFGHIJKLMNOPQRSTUVWXYZ";
            && (forall i :: 0 <= i < 26 && b == small[i] as int ==> ToUpper(b) == capital[i] as int)
            && (b as char !in small ==> ToUpper(b) == b)
  {
    var small, capital := "abcdefghijklmnopqrstuvwxyz", "ABCDEFGHIJKLMNOPQRSTUVWXYZ";
    assert forall i :: 0 <= i < 26 ==> small[i] as int == 97 + i && capital[i] as int == 65 + i;
    if 97 <= b <= 122 {
      assert small[b - 97] == b as char;
    }
  }

  function Upper(s: seq<byte>): (r: seq<byte>)
    ensures |r| == |s|
    ensures forall i :: 0 <= i < |s| ==> r[i] == ToUpper(s[i])
  {
    seq(|s|, i requires 0 <= i < |s| => ToUpper(s[i]))
  }

  function Zeros(n: nat): seq<byte> {
    seq(n, _ => 0)
  }

  /** 128 bytes: the request with its letters a to z in capitals, and zeros. */
  predicate IsReply(reply: seq<byte>, data: seq<byte>) {
    && |reply| == 128 && |data| <= 128
    && forall i :: 0 <= i < 128 ==>
         reply[i] == if i >= |data| then 0
                     else if 'a' as int <= data[i] <= 'z' as int then data[i] - 'a' as int + 'A' as int
                     else data[i]
  }

  function ReplyTo(data: seq<byte>): (r: seq<byte>)
    requires |data| <= SIZE
    ensures IsReply(r, data)
  {
    Upper(data) + Zeros(SIZE - |data|)
  }

  /** recv, toupper loop, send, memset: the reply owes nothing to earlier requests, and neither will the next. */
  method Serve(buf: array<byte>, data: seq<byte>) returns (reply: seq<byte>)
    requires buf.Length == SIZE && |data| <= SIZE && buf[..] == Zeros(SIZE)
    modifies buf
    ensures reply == ReplyTo(data) && IsReply(reply, data) && buf[..] == Zeros(SIZE)
  {
    var numBytes := |data|;
    for i := 0 to numBytes
      invariant forall k :: 0 <= k < i ==> buf[k] == data[k]
      invariant forall k :: i <= k < SIZE ==> buf[k] == 0
    {
      buf[i] := data[i];
    }
    for i := 0 to numBytes
      invariant forall k :: 0 <= k < i ==> buf[k] == ToUpper(data[k])
      invariant forall k :: i <= k < numBytes ==> buf[k] == data[k]
      invariant forall k :: numBytes <= k < SIZE ==> buf[k] == 0
    {
      buf[i] := ToUpper(buf[i]);
    }
    reply := buf[..];
    assert reply == ReplyTo(data);
    for i := 0 to SIZE
      invariant forall k :: 0 <= k < i ==> buf[k] == 0
    {
      buf[i] := 0;
    }
  }

  // ---------- The threads ----------

  /** What an open descriptor refers to; clients are numbered as they are accepted. */
  datatype Peer = Fixed | Client(id: nat)

  /** Between two system calls of customer_service. The ticket counts dequeues; the C code has none. */
  datatype Pc =
    | Waiting
    | Taken(cfd: int, ticket: nat)
    | Received(cfd: int, ticket: nat, numBytes: nat)
    | Raised(cfd: int, ticket: nat)
    | Replied(cfd: int, ticket: nat)
    | Cleared(cfd: int, ticket: nat)

  datatype Worker = Worker(pc: Pc, buf: seq<byte>)

  datatype Answer = Answer(id: nat, data: seq<byte>)

  datatype State = State(
    table: map<int, Peer>,        // open descriptors
    hand: Option<nat>,            // accepted, and not yet in the queue
    queue: seq<int>,              // first chars of the queued messages
    workers: seq<Worker>,
    accepted: nat, taken: nat,    // how many accepts and dequeues so far
    heard: map<nat, seq<byte>>,   // what recv gave for each client
    answers: seq<Answer>)         // what was sent, in order

  datatype Action =
    | Accept
    | Send
    | Dequeue(w: nat)
    | Recv(w: nat, data: seq<byte>)
    | Raise(w: nat)
    | Reply(w: nat)
    | Clear(w: nat)
    | Close(w: nat)

  /** The least number that is not an open descriptor. */
  function LowestFree(open: set<int>, from: nat): (r: nat)
    requires forall k :: 0 <= k < from ==> k in open
    ensures r !in open && r <= |open|
    ensures forall k :: 0 <= k < r ==> k in open
    decreases |open| - from
  {
    SegmentFits(open, from);
    if from in open then
      SegmentFits(open, from + 1);
      LowestFree(open, from + 1)
    else from
  }

  /** The numbers from 0 up to n. */
  function Below(n: nat): (r: set<int>)
    ensures |r| == n
    ensures forall k :: k in r <==> 0 <= k < n
  {
    if n == 0 then {} else Below(n - 1) + {n - 1}
  }

  /** Pigeonhole: n descriptors in use from 0 up are at most all there are. */
  lemma {:induction false} SegmentFits(open: set<int>, n: nat)
    requires forall k :: 0 <= k < n ==> k in open
    ensures n <= |open|
  {
    assert open == Below(n) + (open - Below(n));
  }

  /** The client behind a descriptor, if there is one. */
  predicate Serves(s: State, cfd: int, id: nat) {
    cfd in s.table && s.table[cfd] == Client(id)
  }

  predicate IsClient(s: State, cfd: int) {
    cfd in s.table && s.table[cfd].Client?
  }

  function SetWorker(s: State, w: nat, worker: Worker): State
    requires w < |s.workers|
  {
    s.(workers := s.workers[w := worker])
  }

  /** One system call or private loop of a worker; calls on a descriptor that is not a client's fail. */
  function WorkerStep(s: State, w: nat, a: Action): State
    requires w < |s.workers|
  {
    var me := s.workers[w];
    match (a, me.pc)
    case (Dequeue(_), Waiting) =>
      if s.queue == [] then s
      else SetWorker(s, w, me.(pc := Taken(s.queue[0], s.taken))).(queue := s.queue[1..], taken := s.taken + 1)
    case (Recv(_, data), Taken(cfd, t)) =>
      if |data| > SIZE || |me.buf| != SIZE then s
      else if IsClient(s, cfd) then
        SetWorker(s, w, Worker(Received(cfd, t, |data|), data + me.buf[|data|..])).(heard := s.heard[s.table[cfd].id := data])
      else SetWorker(s, w, me.(pc := Received(cfd, t, 0)))
    case (Raise(_), Received(cfd, t, n)) =>
      if n > |me.buf| then s
      else SetWorker(s, w, Worker(Raised(cfd, t), Upper(me.buf[..n]) + me.buf[n..]))
    case (Reply(_), Raised(cfd, t)) =>
      var s' := SetWorker(s, w, me.(pc := Replied(cfd, t)));
      if IsClient(s, cfd) then s'.(answers := s.answers + [Answer(s.table[cfd].id, me.buf)]) else s'
    case (Clear(_), Replied(cfd, t)) => SetWorker(s, w, Worker(Cleared(cfd, t), Zeros(SIZE)))
    case (Close(_), Cleared(cfd, t)) => SetWorker(s, w, me.(pc := Waiting)).(table := s.table - {cfd})
    case _ => s
  }

  /** One action of some thread; an action that has to wait changes nothing. */
  function Step(c: Config, s: State, a: Action): State {
    match a
    case Accept =>
      if s.hand.Some? then s
      else
        var fd := LowestFree(s.table.Keys, 0);
        s.(table := s.table[fd := Client(s.accepted)], hand := Some(fd), accepted := s.accepted + 1)
    case Send =>
      if s.hand.None? || |s.queue| >= c.slots then s
      else s.(queue := s.queue + [Narrow(c, s.hand.value)], hand := None)
    case _ => if a.w < |s.workers| then WorkerStep(s, a.w, a) else s
  }

  function Begin(c: Config): State {
    State(map k | k in Below(BASE) :: Fixed, None, [], seq(c.workers, _ => Worker(Waiting, Zeros(SIZE))), 0, 0, map[], [])
  }

  /** Every interleaving of the threads, with any data from the clients, is a sequence of actions. */
  function Run(c: Config, actions: seq<Action>): State {
    if actions == [] then Begin(c)
    else Step(c, Run(c, actions[..|actions| - 1]), actions[|actions| - 1])
  }

  // ---------- The invariant ----------

  function Busy(ws: seq<Worker>): nat {
    if ws == [] then 0 else (if ws[0].pc.Waiting? then 0 else 1) + Busy(ws[1..])
  }

  lemma {:induction false} BusyAfter(ws: seq<Worker>, w: nat, worker: Worker)
    requires w < |ws|
    ensures Busy(ws[w := worker]) == Busy(ws) - (if ws[w].pc.Waiting? then 0 else 1) + (if worker.pc.Waiting? then 0 else 1)
    ensures Busy(ws) <= |ws|
    ensures !ws[w].pc.Waiting? ==> Busy(ws) >= 1
  {
    if w == 0 {
      BusyAtMost(ws);
      assert ws[w := worker][1..] == ws[1..];
    } else {
      assert ws[w := worker][1..] == ws[1..][w - 1 := worker];
      BusyAfter(ws[1..], w - 1, worker);
    }
  }

  lemma {:induction false} BusyAtMost(ws: seq<Worker>)
    ensures Busy(ws) <= |ws|
  {
    if ws != [] {
      BusyAtMost(ws[1..]);
    }
  }

  function InHand(s: State): nat {
    if s.hand.Some? then 1 else 0
  }

  /** How many connections are open and where the numbering of clients stands. */
  ghost predicate Counts(c: Config, s: State) {
    && |s.workers| == c.workers && |s.queue| <= c.slots
    && |s.table| == BASE + InHand(s) + |s.queue| + Busy(s.workers)
    && s.accepted == s.taken + |s.queue| + InHand(s)
    && (forall f :: f in s.table ==> 0 <= f <= BASE + c.slots + c.workers)
    && (forall f :: f in s.table ==> (s.table[f] == Fixed <==> f < BASE))
    && (forall f :: 0 <= f < BASE ==> f in s.table)
  }

  /** Each connection still open is where its number says, under its own descriptor. */
  ghost predicate Places(s: State) {
    && (s.hand.Some? ==> s.accepted > 0 && Serves(s, s.hand.value, s.accepted - 1))
    && (forall k :: 0 <= k < |s.queue| ==> Serves(s, s.queue[k], s.taken + k))
    && (forall w :: 0 <= w < |s.workers| && !s.workers[w].pc.Waiting? ==>
          Serves(s, s.workers[w].pc.cfd, s.workers[w].pc.ticket) && s.workers[w].pc.ticket < s.taken)
    && (forall v, w :: 0 <= v < w < |s.workers| && !s.workers[v].pc.Waiting? && !s.workers[w].pc.Waiting? ==>
          s.workers[v].pc.ticket != s.workers[w].pc.ticket)
    && (forall f, g :: IsClient(s, f) && IsClient(s, g) && s.table[f] == s.table[g] ==> f == g)
    && (forall f :: IsClient(s, f) ==> s.table[f].id < s.accepted)
    && (forall f :: IsClient(s, f) && s.table[f].id < s.taken ==> AtWorker(s, s.table[f].id))
  }

  ghost predicate AtWorker(s: State, id: nat) {
    exists w :: 0 <= w < |s.workers| && !s.workers[w].pc.Waiting? && s.workers[w].pc.ticket == id
  }

  /** What a worker's private buffer holds, by where the worker is. */
  ghost predicate BufferRight(s: State, me: Worker) {
    && |me.buf| == SIZE
    && match me.pc
       case Waiting => me.buf == Zeros(SIZE)
       case Taken(_, _) => me.buf == Zeros(SIZE)
       case Received(_, t, n) => t in s.heard && n == |s.heard[t]| <= SIZE && me.buf == s.heard[t] + Zeros(SIZE - n)
       case Raised(_, t) => t in s.heard && |s.heard[t]| <= SIZE && me.buf == ReplyTo(s.heard[t])
       case Replied(_, t) => true
       case Cleared(_, t) => me.buf == Zeros(SIZE)
  }

  ghost predicate Answered(s: State, id: nat) {
    exists k :: 0 <= k < |s.answers| && s.answers[k].id == id
  }

  ghost predicate Open(s: State, id: nat) {
    exists f :: Serves(s, f, id)
  }

  /** Each client is answered once, with its own request in capitals, before its descriptor is closed. */
  ghost predicate Answers(s: State) {
    && (forall w :: 0 <= w < |s.workers| ==> BufferRight(s, s.workers[w]))
    && (forall k :: 0 <= k < |s.answers| ==>
          var a := s.answers[k]; a.id < s.taken && a.id in s.heard && |s.heard[a.id]| <= SIZE && a.data == ReplyTo(s.heard[a.id]))
    && (forall j, k :: 0 <= j < k < |s.answers| ==> s.answers[j].id != s.answers[k].id)
    && (forall w :: 0 <= w < |s.workers| && !s.workers[w].pc.Waiting? ==>
          (Answered(s, s.workers[w].pc.ticket) <==> s.workers[w].pc.Replied? || s.workers[w].pc.Cleared?))
    && (forall id :: 0 <= id < s.taken ==> Answered(s, id) || AtWorker(s, id))
  }

  /** Every descriptor that can occur fits a char. */
  predicate Lossless(c: Config) {
    BASE + c.slots + c.workers <= CharMax(c)
  }

  ghost predicate Inv(c: Config, s: State) {
    Counts(c, s) && Places(s) && Answers(s)
  }

  lemma {:induction false} BeginInv(c: Config)
    ensures Inv(c, Begin(c))
  {
    hide Counts, Places, Answers;
    NoneBusy(c.workers);
    BeginCounts(c);
    BeginPlaces(c);
    BeginAnswers(c);
  }

  lemma {:induction false} BeginPlaces(c: Config)
    ensures Places(Begin(c))
  {
  }

  lemma {:induction false} BeginAnswers(c: Config)
    ensures Answers(Begin(c))
  {
  }

  lemma {:induction false} BeginCounts(c: Config)
    requires Busy(Begin(c).workers) == 0
    ensures Counts(c, Begin(c))
  {
    var table := Begin(c).table;
    assert table.Keys == Below(BASE);
    assert |table| == |table.Keys|;
  }

  lemma {:induction false} NoneBusy(n: nat)
    ensures Busy(seq(n, _ => Worker(Waiting, Zeros(SIZE)))) == 0
  {
    if n > 0 {
      var ws := seq(n, _ => Worker(Waiting, Zeros(SIZE)));
      assert ws[1..] == seq(n - 1, _ => Worker(Waiting, Zeros(SIZE)));
      NoneBusy(n - 1);
    }
  }

  // ---------- What does not touch the answers ----------

  lemma {:induction false} AnswersFrame(s: State, s': State)
    requires Answers(s)
    requires s'.workers == s.workers && s'.heard == s.heard && s'.answers == s.answers && s'.taken == s.taken
    ensures Answers(s')
  {
    forall id | 0 <= id < s'.taken
      ensures Answered(s', id) || AtWorker(s', id)
    {
      assert Answered(s, id) || AtWorker(s, id);
    }
    forall w | 0 <= w < |s'.workers| && !s'.workers[w].pc.Waiting?
      ensures Answered(s', s'.workers[w].pc.ticket) <==> s'.workers[w].pc.Replied? || s'.workers[w].pc.Cleared?
    {
      assert Answered(s, s.workers[w].pc.ticket) <==> Answered(s', s.workers[w].pc.ticket);
    }
  }

  // ---------- The acceptor ----------

  lemma {:induction false} AcceptCounts(c: Config, s: State)
    requires Counts(c, s) && s.hand.None?
    ensures Counts(c, Step(c, s, Accept))
  {
    BusyAtMost(s.workers);
    var fd, s' := LowestFree(s.table.Keys, 0), Step(c, s, Accept);
    assert s'.table.Keys == s.table.Keys + {fd};
    assert |s'.table| == |s'.table.Keys| && |s.table| == |s.table.Keys|;
    assert fd >= BASE;
  }

  lemma {:induction false} AcceptPlaces(c: Config, s: State)
    requires Counts(c, s) && Places(s) && s.hand.None?
    ensures Places(Step(c, s, Accept))
  {
    var fd, s' := LowestFree(s.table.Keys, 0), Step(c, s, Accept);
    assert fd !in s.table;
    forall f | IsClient(s', f) && s'.table[f].id < s'.taken
      ensures AtWorker(s', s'.table[f].id)
    {
      assert IsClient(s, f) && AtWorker(s, s.table[f].id);
    }
    forall k | 0 <= k < |s'.queue|
      ensures Serves(s', s'.queue[k], s'.taken + k)
    {
      assert Serves(s, s.queue[k], s.taken + k);
    }
    forall f, g | IsClient(s', f) && IsClient(s', g) && s'.table[f] == s'.table[g]
      ensures f == g
    {
      assert f != fd ==> IsClient(s, f);
      assert g != fd ==> IsClient(s, g);
    }
    forall f | IsClient(s', f)
      ensures s'.table[f].id < s'.accepted
    {
      assert f != fd ==> IsClient(s, f);
    }
  }

  /** A descriptor in the table comes through the char unchanged. */
  lemma {:induction false} HandFits(c: Config, s: State)
    requires Counts(c, s) && Places(s) && Lossless(c) && s.hand.Some?
    ensures Narrow(c, s.hand.value) == s.hand.value
  {
    assert Serves(s, s.hand.value, s.accepted - 1);
  }

  lemma {:induction false} SendKeeps(c: Config, s: State)
    requires Counts(c, s) && Places(s) && Lossless(c)
    ensures Counts(c, Step(c, s, Send)) && Places(Step(c, s, Send))
  {
    hide Narrow, Busy;
    if s.hand.Some? && |s.queue| < c.slots {
      HandFits(c, s);
      SendPlaces(s, Step(c, s, Send));
      hide Places;
    }
  }

  lemma {:induction false} SendPlaces(s: State, s': State)
    requires Places(s) && s.hand.Some? && s.accepted == s.taken + |s.queue| + 1
    requires s' == s.(queue := s.queue + [s.hand.value], hand := None)
    ensures Places(s')
  {
    assert Serves(s, s.hand.value, s.accepted - 1);
    forall f | IsClient(s', f)
      ensures IsClient(s, f) && (AtWorker(s, s.table[f].id) ==> AtWorker(s', s.table[f].id))
    {
    }
    forall k | 0 <= k < |s'.queue|
      ensures Serves(s', s'.queue[k], s'.taken + k)
    {
      assert k < |s.queue| ==> Serves(s, s.queue[k], s.taken + k);
    }
  }

  // ---------- A worker that goes on with the connection it has ----------

  predicate SameJob(a: Pc, b: Pc) {
    !a.Waiting? && !b.Waiting? && a.cfd == b.cfd && a.ticket == b.ticket
  }

  /** Only worker w changed, and neither its descriptor nor its ticket. */
  predicate JobMove(s: State, s': State, w: nat) {
    && w < |s.workers| == |s'.workers|
    && s'.workers == s.workers[w := s'.workers[w]] && SameJob(s.workers[w].pc, s'.workers[w].pc)
    && s'.table == s.table && s'.hand == s.hand && s'.queue == s.queue && s'.accepted == s.accepted && s'.taken == s.taken
  }

  lemma {:induction false} JobKeeps(c: Config, s: State, s': State, w: nat)
    requires Counts(c, s) && Places(s) && JobMove(s, s', w)
    ensures Counts(c, s') && Places(s')
  {
    hide Places;
    BusyAfter(s.workers, w, s'.workers[w]);
    JobPlaces(s, s', w);
  }

  lemma {:induction false} JobPlaces(s: State, s': State, w: nat)
    requires Places(s) && JobMove(s, s', w)
    ensures Places(s')
  {
    forall id | AtWorker(s, id)
      ensures AtWorker(s', id)
    {
      AtWorkerKept(s, s', w, id);
    }
    assert forall f :: IsClient(s, f) == IsClient(s', f);
    assert forall f, id :: Serves(s, f, id) == Serves(s', f, id);
  }

  lemma {:induction false} DequeueCounts(c: Config, s: State, w: nat)
    requires Counts(c, s) && w < |s.workers| && s.workers[w].pc.Waiting?
    ensures Counts(c, Step(c, s, Dequeue(w)))
  {
    BusyAfter(s.workers, w, if s.queue == [] then s.workers[w] else s.workers[w].(pc := Taken(s.queue[0], s.taken)));
  }

  lemma {:induction false} DequeuePlaces(c: Config, s: State, w: nat)
    requires Places(s) && w < |s.workers| && s.workers[w].pc.Waiting? && s.queue != []
    requires s.accepted == s.taken + |s.queue| + InHand(s)
    ensures Places(Step(c, s, Dequeue(w)))
  {
    var s' := Step(c, s, Dequeue(w));
    assert Serves(s, s.queue[0], s.taken + 0);
    forall k | 0 <= k < |s'.queue|
      ensures Serves(s', s'.queue[k], s'.taken + k)
    {
      assert Serves(s, s.queue[k + 1], s.taken + (k + 1));
    }
    forall f | IsClient(s', f) && s'.table[f].id < s'.taken
      ensures AtWorker(s', s'.table[f].id)
    {
      assert IsClient(s, f);
      if s.table[f].id < s.taken {
        AtWorkerKept(s, s', w, s.table[f].id);
      } else {
        assert s'.workers[w].pc.ticket == s.taken;
      }
    }
    assert forall f :: IsClient(s', f) ==> IsClient(s, f);
    assert forall f, id :: Serves(s, f, id) == Serves(s', f, id);
  }

  /** Another worker, or one that had nothing, does not lose a connection. */
  lemma {:induction false} AtWorkerKept(s: State, s': State, w: nat, id: nat)
    requires w < |s.workers| == |s'.workers| && s'.workers == s.workers[w := s'.workers[w]]
    requires AtWorker(s, id)
    requires s.workers[w].pc.Waiting? || s.workers[w].pc.ticket != id
          || (!s'.workers[w].pc.Waiting? && s'.workers[w].pc.ticket == id)
    ensures AtWorker(s', id)
  {
    var v :| 0 <= v < |s.workers| && !s.workers[v].pc.Waiting? && s.workers[v].pc.ticket == id;
    assert !s'.workers[v].pc.Waiting? && s'.workers[v].pc.ticket == id;
  }

  lemma {:induction false} CloseCounts(c: Config, s: State, w: nat)
    requires Counts(c, s) && Places(s) && w < |s.workers| && s.workers[w].pc.Cleared?
    ensures Counts(c, Step(c, s, Close(w)))
  {
    var s', cfd := Step(c, s, Close(w)), s.workers[w].pc.cfd;
    BusyAfter(s.workers, w, s'.workers[w]);
    assert Serves(s, cfd, s.workers[w].pc.ticket);
    assert s'.table.Keys == s.table.Keys - {cfd};
    assert |s'.table| == |s'.table.Keys| && |s.table| == |s.table.Keys|;
  }

  lemma {:induction false} ClosePlaces(c: Config, s: State, w: nat)
    requires Counts(c, s) && Places(s) && w < |s.workers| && s.workers[w].pc.Cleared?
    ensures Places(Step(c, s, Close(w)))
  {
    var s', cfd, t := Step(c, s, Close(w)), s.workers[w].pc.cfd, s.workers[w].pc.ticket;
    assert s' == s.(workers := s.workers[w := s.workers[w].(pc := Waiting)], table := s.table - {cfd});
    hide Step;
    assert Serves(s, cfd, t) && t < s.taken;
    forall f, id | Serves(s, f, id) && id != t
      ensures Serves(s', f, id)
    {
    }
    forall f | IsClient(s', f)
      ensures IsClient(s, f) && f != cfd && s'.table[f] == s.table[f] && s.table[f].id != t
    {
      assert IsClient(s, f) && IsClient(s, cfd);
    }
    forall f | IsClient(s', f) && s'.table[f].id < s'.taken
      ensures AtWorker(s', s'.table[f].id)
    {
      AtWorkerKept(s, s', w, s.table[f].id);
    }
    forall v | 0 <= v < |s'.workers| && !s'.workers[v].pc.Waiting?
      ensures Serves(s', s'.workers[v].pc.cfd, s'.workers[v].pc.ticket) && s'.workers[v].pc.ticket < s'.taken
    {
      assert v != w && s'.workers[v] == s.workers[v];
      assert Serves(s, s.workers[v].pc.cfd, s.workers[v].pc.ticket);
    }
    forall k | 0 <= k < |s'.queue|
      ensures Serves(s', s'.queue[k], s'.taken + k)
    {
      assert Serves(s, s.queue[k], s.taken + k);
    }
  }

  // ---------- What is heard and answered ----------

  /** Answers after a change to one worker and perhaps to what was heard or sent for its client alone. */
  lemma {:induction false} AnswersMove(s: State, s': State, w: nat)
    requires Answers(s) && Places(s) && w < |s.workers| == |s'.workers|
    requires s'.workers == s.workers[w := s'.workers[w]] && SameJob(s.workers[w].pc, s'.workers[w].pc)
    requires s'.taken == s.taken && BufferRight(s', s'.workers[w])
    requires forall id :: id != s.workers[w].pc.ticket && id in s.heard ==> id in s'.heard && s'.heard[id] == s.heard[id]
    requires
      var t := s.workers[w].pc.ticket;
      || (&& s'.answers == s.answers
          && (s.workers[w].pc.Replied? || s.workers[w].pc.Cleared? ==> s'.heard == s.heard)
          && (s.workers[w].pc.Replied? || s.workers[w].pc.Cleared? <==> s'.workers[w].pc.Replied? || s'.workers[w].pc.Cleared?))
      || (&& s.workers[w].pc.Raised? && s'.workers[w].pc.Replied? && s'.heard == s.heard
          && t in s.heard && |s.heard[t]| <= SIZE && s'.answers == s.answers + [Answer(t, ReplyTo(s.heard[t]))])
    ensures Answers(s')
  {
    var t := s.workers[w].pc.ticket;
    assert Answered(s, t) <==> s.workers[w].pc.Replied? || s.workers[w].pc.Cleared?;
    forall id | id != t
      ensures Answered(s', id) <==> Answered(s, id)
    {
      AnsweredSame(s, s', t, id);
    }
    forall v | 0 <= v < |s'.workers|
      ensures BufferRight(s', s'.workers[v])
    {
      if v != w {
        assert BufferRight(s, s.workers[v]);
      }
    }
    assert s'.answers != s.answers ==> s'.answers[|s.answers|].id == t;
    assert s'.answers == s.answers && Answered(s, t) ==> Answered(s', t);
    assert s'.answers == s.answers && Answered(s', t) ==> Answered(s, t);
    forall id | 0 <= id < s'.taken
      ensures Answered(s', id) || AtWorker(s', id)
    {
      assert Answered(s, id) || AtWorker(s, id);
      if AtWorker(s, id) {
        AtWorkerKept(s, s', w, id);
      }
    }
  }

  lemma {:induction false} AnsweredSame(s: State, s': State, t: nat, id: nat)
    requires id != t
    requires s'.answers == s.answers
          || (|s'.answers| > 0 && s'.answers[..|s'.answers| - 1] == s.answers && s'.answers[|s'.answers| - 1].id == t)
    ensures Answered(s', id) <==> Answered(s, id)
  {
    if Answered(s, id) {
      var k :| 0 <= k < |s.answers| && s.answers[k].id == id;
      assert s'.answers[k] == s.answers[k];
    }
    if Answered(s', id) {
      var k :| 0 <= k < |s'.answers| && s'.answers[k].id == id;
      assert k < |s.answers| ==> s'.answers[k] == s.answers[k];
    }
  }

  lemma {:induction false} DequeueAnswers(c: Config, s: State, w: nat)
    requires Answers(s) && w < |s.workers| && s.workers[w].pc.Waiting? && s.queue != []
    ensures Answers(Step(c, s, Dequeue(w)))
  {
    var s' := Step(c, s, Dequeue(w));
    assert BufferRight(s, s.workers[w]);
    assert forall id :: Answered(s', id) <==> Answered(s, id);
    assert !Answered(s', s.taken);
    forall v | 0 <= v < |s'.workers|
      ensures BufferRight(s', s'.workers[v])
    {
      assert BufferRight(s, s.workers[v]);
    }
    forall id | 0 <= id < s'.taken
      ensures Answered(s', id) || AtWorker(s', id)
    {
      if id < s.taken {
        assert Answered(s, id) || AtWorker(s, id);
        if AtWorker(s, id) {
          AtWorkerKept(s, s', w, id);
        }
      } else {
        assert s'.workers[w].pc.ticket == id;
      }
    }
  }

  lemma {:induction false} CloseAnswers(c: Config, s: State, w: nat)
    requires Answers(s) && w < |s.workers| && s.workers[w].pc.Cleared?
    ensures Answers(Step(c, s, Close(w)))
  {
    var s', t := Step(c, s, Close(w)), s.workers[w].pc.ticket;
    assert forall id :: Answered(s', id) <==> Answered(s, id);
    forall v | 0 <= v < |s'.workers|
      ensures BufferRight(s', s'.workers[v])
    {
      assert BufferRight(s, s.workers[v]);
    }
    forall id | 0 <= id < s'.taken
      ensures Answered(s', id) || AtWorker(s', id)
    {
      assert Answered(s, id) || AtWorker(s, id);
      if id != t && AtWorker(s, id) {
        AtWorkerKept(s, s', w, id);
      }
    }
  }

  lemma {:induction false} DequeueKeeps(c: Config, s: State, w: nat)
    requires Inv(c, s) && w < |s.workers| && s.workers[w].pc.Waiting?
    ensures Inv(c, Step(c, s, Dequeue(w)))
  {
    DequeueCounts(c, s, w);
    if s.queue != [] {
      DequeuePlaces(c, s, w);
      DequeueAnswers(c, s, w);
    }
  }

  lemma {:induction false} RecvKeeps(c: Config, s: State, w: nat, data: seq<byte>)
    requires Inv(c, s) && w < |s.workers| && s.workers[w].pc.Taken?
    ensures Inv(c, Step(c, s, Recv(w, data)))
  {
    var s', me := Step(c, s, Recv(w, data)), s.workers[w];
    assert BufferRight(s, me) && Serves(s, me.pc.cfd, me.pc.ticket);
    if s' != s {
      assert data + me.buf[|data|..] == data + Zeros(SIZE - |data|);
      JobKeeps(c, s, s', w);
      AnswersMove(s, s', w);
    }
  }

  lemma {:induction false} RaiseKeeps(c: Config, s: State, w: nat)
    requires Inv(c, s) && w < |s.workers| && s.workers[w].pc.Received?
    ensures Inv(c, Step(c, s, Raise(w)))
  {
    var s', me := Step(c, s, Raise(w)), s.workers[w];
    assert BufferRight(s, me);
    var n, data := me.pc.numBytes, s.heard[me.pc.ticket];
    assert me.buf[..n] == data && me.buf[n..] == Zeros(SIZE - n);
    JobKeeps(c, s, s', w);
    AnswersMove(s, s', w);
  }

  lemma {:induction false} ReplyKeeps(c: Config, s: State, w: nat)
    requires Inv(c, s) && w < |s.workers| && s.workers[w].pc.Raised?
    ensures Inv(c, Step(c, s, Reply(w)))
  {
    var s', me := Step(c, s, Reply(w)), s.workers[w];
    assert BufferRight(s, me) && Serves(s, me.pc.cfd, me.pc.ticket);
    JobKeeps(c, s, s', w);
    AnswersMove(s, s', w);
  }

  lemma {:induction false} ClearKeeps(c: Config, s: State, w: nat)
    requires Inv(c, s) && w < |s.workers| && s.workers[w].pc.Replied?
    ensures Inv(c, Step(c, s, Clear(w)))
  {
    JobKeeps(c, s, Step(c, s, Clear(w)), w);
    AnswersMove(s, Step(c, s, Clear(w)), w);
  }

  /** The action that lets worker w go on, with the given data if it is about to receive. */
  function Turn(s: State, w: nat, data: seq<byte>): Action
    requires w < |s.workers|
  {
    match s.workers[w].pc
    case Waiting => Dequeue(w)
    case Taken(_, _) => Recv(w, data)
    case Received(_, _, _) => Raise(w)
    case Raised(_, _) => Reply(w)
    case Replied(_, _) => Clear(w)
    case Cleared(_, _) => Close(w)
  }

  lemma {:induction false} TurnKeeps(c: Config, s: State, w: nat, data: seq<byte>)
    requires Inv(c, s) && w < |s.workers|
    ensures Inv(c, Step(c, s, Turn(s, w, data)))
  {
    match s.workers[w].pc
    case Waiting => DequeueKeeps(c, s, w);
    case Taken(_, _) => RecvKeeps(c, s, w, data);
    case Received(_, _, _) => RaiseKeeps(c, s, w);
    case Raised(_, _) => ReplyKeeps(c, s, w);
    case Replied(_, _) => ClearKeeps(c, s, w);
    case Cleared(_, _) =>
      CloseCounts(c, s, w);
      ClosePlaces(c, s, w);
      CloseAnswers(c, s, w);
  }

  /** Any other action of worker w has to wait. */
  lemma {:induction false} OutOfTurn(c: Config, s: State, a: Action)
    requires !a.Accept? && !a.Send?
    ensures Step(c, s, a) == s || (a.w < |s.workers| && a == Turn(s, a.w, if a.Recv? then a.data else []))
  {
  }

  lemma {:induction false} StepKeeps(c: Config, s: State, a: Action)
    requires Inv(c, s) && Lossless(c)
    ensures Inv(c, Step(c, s, a))
  {
    hide Counts, Places, Answers;
    if a.Accept? {
      if s.hand.None? {
        AcceptCounts(c, s);
        AcceptPlaces(c, s);
        AnswersFrame(s, Step(c, s, a));
      }
    } else if a.Send? {
      SendKeeps(c, s);
      AnswersFrame(s, Step(c, s, a));
    } else {
      OutOfTurn(c, s, a);
      if Step(c, s, a) != s {
        TurnKeeps(c, s, a.w, if a.Recv? then a.data else []);
      }
    }
  }

  lemma {:induction false} RunInv(c: Config, actions: seq<Action>)
    requires Lossless(c)
    ensures Inv(c, Run(c, actions))
  {
    if actions == [] {
      BeginInv(c);
    } else {
      RunInv(c, actions[..|actions| - 1]);
      StepKeeps(c, Run(c, actions[..|actions| - 1]), actions[|actions| - 1]);
    }
  }

  // ---------- Where every connection is ----------

  predicate Handed(s: State, id: nat) {
    s.hand.Some? && Serves(s, s.hand.value, id)
  }

  predicate Queued(s: State, id: nat) {
    exists k :: 0 <= k < |s.queue| && Serves(s, s.queue[k], id)
  }

  /** The descriptor that travelled as a char is the one accepted: the k-th message stands for the
      k-th client not yet taken, and each worker's descriptor for the client whose turn it took,
      and never for one another worker has. */
  ghost predicate Survived(c: Config, s: State) {
    && (s.hand.Some? ==> Narrow(c, s.hand.value) == s.hand.value && s.accepted > 0 && Serves(s, s.hand.value, s.accepted - 1))
    && (forall k :: 0 <= k < |s.queue| ==> Serves(s, s.queue[k], s.taken + k))
    && (forall w :: 0 <= w < |s.workers| && !s.workers[w].pc.Waiting? ==> Serves(s, s.workers[w].pc.cfd, s.workers[w].pc.ticket))
    && (forall v, w :: 0 <= v < w < |s.workers| && !s.workers[v].pc.Waiting? && !s.workers[w].pc.Waiting? ==>
          s.workers[v].pc.cfd != s.workers[w].pc.cfd)
  }

  lemma {:induction false} InvSurvived(c: Config, s: State)
    requires Counts(c, s) && Places(s) && Lossless(c)
    ensures Survived(c, s)
  {
    if s.hand.Some? {
      assert Serves(s, s.hand.value, s.accepted - 1);
    }
    forall v, w | 0 <= v < w < |s.workers| && !s.workers[v].pc.Waiting? && !s.workers[w].pc.Waiting?
      ensures s.workers[v].pc.cfd != s.workers[w].pc.cfd
    {
      assert Serves(s, s.workers[v].pc.cfd, s.workers[v].pc.ticket);
      assert Serves(s, s.workers[w].pc.cfd, s.workers[w].pc.ticket);
    }
  }

  lemma {:induction false} DescriptorsSurvive(c: Config, actions: seq<Action>)
    requires Lossless(c)
    ensures Survived(c, Run(c, actions))
  {
    hide Run, Survived, Counts, Places, Answers;
    RunInv(c, actions);
    InvSurvived(c, Run(c, actions));
  }

  function One(b: bool): nat {
    if b then 1 else 0
  }

  lemma {:induction false} QueuedWhen(s: State, id: nat)
    requires Places(s)
    ensures Queued(s, id) <==> s.taken <= id < s.taken + |s.queue|
  {
    if s.taken <= id < s.taken + |s.queue| {
      assert Serves(s, s.queue[id - s.taken], s.taken + (id - s.taken));
    }
    forall k | 0 <= k < |s.queue|
      ensures Serves(s, s.queue[k], id) <==> id == s.taken + k
    {
      assert Serves(s, s.queue[k], s.taken + k);
    }
  }

  lemma {:induction false} HandedWhen(s: State, id: nat)
    requires Places(s)
    ensures Handed(s, id) <==> s.hand.Some? && id == s.accepted - 1
  {
  }

  lemma {:induction false} AtWorkerWhen(s: State, id: nat)
    requires Places(s)
    ensures AtWorker(s, id) <==> id < s.taken && Open(s, id)
  {
    if AtWorker(s, id) {
      var w :| 0 <= w < |s.workers| && !s.workers[w].pc.Waiting? && s.workers[w].pc.ticket == id;
      assert Serves(s, s.workers[w].pc.cfd, id);
    }
    if id < s.taken && Open(s, id) {
      var f :| Serves(s, f, id);
      assert IsClient(s, f);
    }
  }

  /** Every accepted connection is in main's hand, in the queue, with a worker, or closed: one of
      the four; and no more are in flight than there is room for. */
  lemma {:induction false} ExactlyOnePlace(c: Config, actions: seq<Action>, id: nat)
    requires Lossless(c) && id < Run(c, actions).accepted
    ensures var s := Run(c, actions);
            && |s.queue| <= c.slots && |s.table| - BASE <= c.slots + c.workers + 1
            && One(Handed(s, id)) + One(Queued(s, id)) + One(AtWorker(s, id)) + One(!Open(s, id)) == 1
  {
    hide Run, Places, Answers, AtWorker, Queued, Handed;
    RunInv(c, actions);
    var s := Run(c, actions);
    BusyAtMost(s.workers);
    HandedWhen(s, id);
    QueuedWhen(s, id);
    AtWorkerWhen(s, id);
    if id >= s.taken {
      WaitingIsOpen(s, id);
    }
  }

  lemma {:induction false} WaitingIsOpen(s: State, id: nat)
    requires Places(s) && s.taken <= id < s.accepted == s.taken + |s.queue| + InHand(s)
    ensures Open(s, id)
  {
    if id < s.taken + |s.queue| {
      assert Serves(s, s.queue[id - s.taken], s.taken + (id - s.taken));
    }
  }

  /** In state s the action is a recv of up to 128 bytes on a descriptor of client id. */
  predicate Receiving(s: State, a: Action, id: nat) {
    && a.Recv? && |a.data| <= 128 && a.w < |s.workers| && s.workers[a.w].pc.Taken?
    && Serves(s, s.workers[a.w].pc.cfd, id)
  }

  /** Action number k of the run is such a recv. */
  predicate Receives(c: Config, actions: seq<Action>, k: nat, id: nat)
    requires k < |actions|
    ensures Receives(c, actions, k, id) ==> actions[k].Recv?
  {
    Receiving(Run(c, actions[..k]), actions[k], id)
  }

  /** What is heard from a client is the data of its one receive, and comes after its turn is taken. */
  ghost predicate HeardRight(c: Config, actions: seq<Action>) {
    var s := Run(c, actions);
    && (forall id :: id in s.heard ==> id < s.taken)
    && (forall w :: 0 <= w < |s.workers| && s.workers[w].pc.Taken? ==> s.workers[w].pc.ticket !in s.heard)
    && (forall id :: id in s.heard ==> exists k :: 0 <= k < |actions| && Receives(c, actions, k, id))
    && (forall k: nat, id: nat :: k < |actions| && Receives(c, actions, k, id) ==> id in s.heard && s.heard[id] == actions[k].data)
  }

  lemma {:induction false} ReceivesFront(c: Config, front: seq<Action>, a: Action, k: nat, id: nat)
    requires k < |front|
    ensures Receives(c, front + [a], k, id) <==> Receives(c, front, k, id)
  {
    assert (front + [a])[..k] == front[..k];
  }

  /** A client is heard by the worker that has its ticket. */
  lemma {:induction false} ReceivingHears(c: Config, s: State, a: Action, id: nat)
    requires Places(s) && Answers(s) && Receiving(s, a, id)
    ensures s.workers[a.w].pc.ticket == id && Step(c, s, a).heard == s.heard[id := a.data]
  {
    assert Serves(s, s.workers[a.w].pc.cfd, s.workers[a.w].pc.ticket);
    assert BufferRight(s, s.workers[a.w]);
  }

  /** A step hears nothing, or it is the receive of a client that was taken and not heard before. */
  lemma {:induction false} HeardStep(c: Config, s: State, a: Action)
    requires Places(s)
    ensures var s' := Step(c, s, a);
            || s'.heard == s.heard
            || (&& a.Recv? && a.w < |s.workers| && s.workers[a.w].pc.Taken? && Receiving(s, a, s.workers[a.w].pc.ticket)
                && s'.heard == s.heard[s.workers[a.w].pc.ticket := a.data] && !s'.workers[a.w].pc.Taken?)
    ensures Step(c, s, a).taken >= s.taken && |Step(c, s, a).workers| == |s.workers|
    ensures forall w :: 0 <= w < |s.workers| && Step(c, s, a).workers[w].pc.Taken? ==>
              Step(c, s, a).workers[w].pc == s.workers[w].pc || Step(c, s, a).workers[w].pc.ticket == s.taken
  {
    if a.Recv? && a.w < |s.workers| && s.workers[a.w].pc.Taken? {
      assert Serves(s, s.workers[a.w].pc.cfd, s.workers[a.w].pc.ticket);
    }
  }

  lemma {:induction false} RunHeard(c: Config, actions: seq<Action>)
    requires Lossless(c)
    ensures HeardRight(c, actions)
  {
    hide Run, Step, Counts, Places, Answers, Receives;
    if actions == [] {
      NothingHeard(c);
    } else {
      var front, a := actions[..|actions| - 1], actions[|actions| - 1];
      assert actions == front + [a];
      RunHeard(c, front);
      RunInv(c, front);
      RunOne(c, front, a);
      HeardMore(c, front, a);
    }
  }

  lemma {:induction false} NothingHeard(c: Config)
    ensures HeardRight(c, [])
  {
  }

  lemma {:induction false} HeardMore(c: Config, front: seq<Action>, a: Action)
    requires HeardRight(c, front) && Inv(c, Run(c, front)) && Run(c, front + [a]) == Step(c, Run(c, front), a)
    ensures HeardRight(c, front + [a])
  {
    hide Run, Step, Counts, Answers, Places, Receives;
    var s, actions := Run(c, front), front + [a];
    var s' := Step(c, s, a);
    HeardStep(c, s, a);
    TakenUnheard(c, s, a);
    forall k: nat, id: nat | k < |actions| && Receives(c, actions, k, id)
      ensures id in s'.heard && s'.heard[id] == actions[k].data
    {
      if k < |front| {
        ReceivesFront(c, front, a, k, id);
      } else {
        ReceivesLast(c, front, a, id);
        ReceivingHears(c, s, a, id);
      }
    }
    forall id | id in s'.heard
      ensures exists k :: 0 <= k < |actions| && Receives(c, actions, k, id)
    {
      if id in s.heard {
        var k :| 0 <= k < |front| && Receives(c, front, k, id);
        ReceivesFront(c, front, a, k, id);
      } else {
        ReceivesLast(c, front, a, id);
      }
    }
  }

  lemma {:induction false} ReceivesLast(c: Config, front: seq<Action>, a: Action, id: nat)
    ensures Receives(c, front + [a], |front|, id) <==> Receiving(Run(c, front), a, id)
  {
    assert (front + [a])[..|front|] == front;
  }

  lemma {:induction false} TakenUnheard(c: Config, s: State, a: Action)
    requires Places(s)
    requires forall id :: id in s.heard ==> id < s.taken
    requires forall w :: 0 <= w < |s.workers| && s.workers[w].pc.Taken? ==> s.workers[w].pc.ticket !in s.heard
    ensures var s' := Step(c, s, a);
            && (forall id :: id in s'.heard ==> id < s'.taken)
            && (forall w :: 0 <= w < |s'.workers| && s'.workers[w].pc.Taken? ==> s'.workers[w].pc.ticket !in s'.heard)
  {
    HeardStep(c, s, a);
    hide Step;
    var s' := Step(c, s, a);
    forall w | 0 <= w < |s'.workers| && s'.workers[w].pc.Taken?
      ensures s'.workers[w].pc.ticket !in s'.heard
    {
      if s'.heard != s.heard {
        assert w != a.w;
      }
    }
  }

  /** A closed connection received exactly once, and was sent exactly one answer: the bytes of that
      receive, small letters in capitals, and zeros up to 128. */
  lemma {:induction false} ClosedWereAnswered(c: Config, actions: seq<Action>, id: nat)
    requires Lossless(c) && id < Run(c, actions).accepted && !Open(Run(c, actions), id)
    ensures var s := Run(c, actions);
            exists k, m :: && 0 <= k < |actions| && Receives(c, actions, k, id)
                           && 0 <= m < |s.answers| && s.answers[m].id == id
                           && IsReply(s.answers[m].data, actions[k].data)
                           && (forall k' :: 0 <= k' < |actions| && Receives(c, actions, k', id) ==> k' == k)
                           && (forall m' :: 0 <= m' < |s.answers| && s.answers[m'].id == id ==> m' == m)
  {
    hide Run, Places, AtWorker, ReplyTo, Receives, IsReply;
    RunInv(c, actions);
    RunHeard(c, actions);
    var s := Run(c, actions);
    if id >= s.taken {
      WaitingIsOpen(s, id);
    } else {
      AtWorkerWhen(s, id);
      assert Answered(s, id);
      var m :| 0 <= m < |s.answers| && s.answers[m].id == id;
      var k :| 0 <= k < |actions| && Receives(c, actions, k, id);
      assert IsReply(s.answers[m].data, actions[k].data) by {
        assert s.answers[m].data == ReplyTo(s.heard[id]);
      }
      forall k' | 0 <= k' < |actions| && Receives(c, actions, k', id)
        ensures k' == k
      {
        if k' < k {
          ReceivesOnce(c, actions, k', k, id);
        } else if k < k' {
          ReceivesOnce(c, actions, k, k', id);
        }
      }
    }
  }

  lemma {:induction false} ReceivesOnce(c: Config, actions: seq<Action>, j: nat, k: nat, id: nat)
    requires Lossless(c) && j < k < |actions| && Receives(c, actions, j, id)
    ensures !Receives(c, actions, k, id)
  {
    hide Run, Counts, Answers;
    var front := actions[..k];
    RunInv(c, front);
    RunHeard(c, front);
    assert front[..j] == actions[..j] && Receives(c, front, j, id);
    var s := Run(c, front);
    assert id in s.heard;
    if Receiving(s, actions[k], id) {
      ReceivingHears(c, s, actions[k], id);
      assert false;
    }
  }

  // ---------- How large a descriptor gets ----------

  /** Bring m connections to rest: one with each worker first, the others in the queue. */
  function Fill(c: Config, m: nat): seq<Action> {
    if m == 0 then []
    else Fill(c, m - 1) + [Accept, Send] + if m <= c.workers then [Dequeue(m - 1)] else []
  }

  ghost predicate Filled(c: Config, s: State, m: nat) {
    && s.hand == None && |s.workers| == c.workers
    && s.table.Keys == Below(BASE + m)
    && |s.queue| == (if m <= c.workers then 0 else m - c.workers)
    && (forall w :: m <= w < c.workers ==> s.workers[w].pc.Waiting?)
  }

  lemma {:induction false} RunOne(c: Config, actions: seq<Action>, a: Action)
    ensures Run(c, actions + [a]) == Step(c, Run(c, actions), a)
  {
    assert (actions + [a])[..|actions|] == actions;
  }

  lemma {:induction false} FillWorks(c: Config, m: nat)
    requires m <= c.slots + c.workers && c.slots > 0
    ensures Filled(c, Run(c, Fill(c, m)), m)
  {
    hide Run, Step, Filled, Fill;
    if m == 0 {
      FillStart(c);
    } else {
      FillWorks(c, m - 1);
      var before := Fill(c, m - 1);
      RunOne(c, before, Accept);
      RunOne(c, before + [Accept], Send);
      assert before + [Accept] + [Send] == before + [Accept, Send];
      RunOne(c, before + [Accept, Send], Dequeue(m - 1));
      FillStep(c, Run(c, before), m);
      FillUnfold(c, m);
    }
  }

  lemma {:induction false} FillStart(c: Config)
    ensures Filled(c, Run(c, Fill(c, 0)), 0)
  {
    assert Begin(c).table.Keys == Below(BASE);
  }

  lemma {:induction false} FillUnfold(c: Config, m: nat)
    requires m > 0
    ensures Fill(c, m) == if m <= c.workers then Fill(c, m - 1) + [Accept, Send] + [Dequeue(m - 1)] else Fill(c, m - 1) + [Accept, Send]
  {
  }

  lemma {:induction false} FillStep(c: Config, s: State, m: nat)
    requires 0 < m <= c.slots + c.workers && c.slots > 0 && Filled(c, s, m - 1)
    ensures var s' := Step(c, Step(c, s, Accept), Send);
            Filled(c, if m <= c.workers then Step(c, s', Dequeue(m - 1)) else s', m)
  {
    hide Step;
    AcceptNext(c, s, m - 1);
    SendNext(c, Step(c, s, Accept));
    if m <= c.workers {
      DequeueNext(c, Step(c, Step(c, s, Accept), Send), m - 1);
    }
  }

  lemma {:induction false} SendNext(c: Config, s: State)
    requires s.hand.Some? && |s.queue| < c.slots
    ensures var s' := Step(c, s, Send);
            s'.hand == None && |s'.queue| == |s.queue| + 1 && s'.table == s.table && s'.workers == s.workers
  {
  }

  lemma {:induction false} DequeueNext(c: Config, s: State, w: nat)
    requires w < |s.workers| && s.workers[w].pc.Waiting? && s.queue != []
    ensures var s' := Step(c, s, Dequeue(w));
            && s'.hand == s.hand && |s'.queue| == |s.queue| - 1 && s'.table == s.table && |s'.workers| == |s.workers|
            && forall v :: 0 <= v < |s.workers| && v != w ==> s'.workers[v] == s.workers[v]
  {
  }

  lemma {:induction false} AcceptNext(c: Config, s: State, m: nat)
    requires Filled(c, s, m)
    ensures var s' := Step(c, s, Accept);
            s'.hand == Some(BASE + m) && s'.table.Keys == Below(BASE + m + 1)
            && s'.queue == s.queue && s'.workers == s.workers
  {
    var fd := LowestFree(s.table.Keys, 0);
    assert fd >= BASE + m by {
      assert fd !in Below(BASE + m);
    }
    assert fd == BASE + m;
    assert Below(BASE + m + 1) == Below(BASE + m) + {BASE + m};
  }

  /** Some run has descriptor BASE + m in main's hand. */
  lemma {:induction false} ReachesDescriptor(c: Config, m: nat) returns (actions: seq<Action>)
    requires m <= c.slots + c.workers && c.slots > 0
    ensures actions == Fill(c, m) + [Accept] && Run(c, actions).hand == Some(BASE + m)
  {
    hide Run, Step, Filled, Fill;
    FillWorks(c, m);
    AcceptNext(c, Run(c, Fill(c, m)), m);
    RunOne(c, Fill(c, m), Accept);
    actions := Fill(c, m) + [Accept];
  }

  /** In this run the descriptor in main's hand, if any, comes through the char unchanged. */
  ghost predicate HandSurvives(c: Config, actions: seq<Action>) {
    var hand := Run(c, actions).hand;
    hand.Some? ==> Narrow(c, hand.value) == hand.value
  }

  /** No descriptor is lost in a char, whatever the interleaving, exactly when the base descriptors,
      the slots, the workers and the one in main's hand together number no more than char allows. */
  lemma {:induction false} LosslessExactly(c: Config)
    requires c.slots > 0
    ensures (forall actions :: HandSurvives(c, actions)) <==> Lossless(c)
  {
    hide Run, Fill;
    if Lossless(c) {
      forall actions
        ensures HandSurvives(c, actions)
      {
        DescriptorsSurvive(c, actions);
      }
    } else {
      var actions := ReachesDescriptor(c, CharMax(c) + 1 - BASE);
      assert !HandSurvives(c, actions);
    }
  }

  /** With the ten slots and ten workers of the server, no descriptor exceeds 25, and 25 occurs. */
  lemma {:induction false} TwentyFive(signedChar: bool, actions: seq<Action>)
    ensures var c := Ours(signedChar);
            && Lossless(c)
            && (forall f :: f in Run(c, actions).table ==> f <= 25)
            && Run(c, Fill(c, 20) + [Accept]).hand == Some(25)
  {
    hide Run, Fill, Places, Answers;
    var c := Ours(signedChar);
    RunInv(c, actions);
    var run := ReachesDescriptor(c, 20);
  }

  // ---------- Nothing gets stuck ----------

  /** Actions still to be done for what is in flight. */
  function WorkOf(pc: Pc): nat {
    match pc
    case Waiting => 0
    case Taken(_, _) => 5
    case Received(_, _, _) => 4
    case Raised(_, _) => 3
    case Replied(_, _) => 2
    case Cleared(_, _) => 1
  }

  function WorkerWork(ws: seq<Worker>): nat {
    if ws == [] then 0 else WorkOf(ws[0].pc) + WorkerWork(ws[1..])
  }

  function Work(s: State): nat {
    7 * InHand(s) + 6 * |s.queue| + WorkerWork(s.workers)
  }

  lemma {:induction false} WorkAfter(ws: seq<Worker>, w: nat, worker: Worker)
    requires w < |ws|
    ensures WorkerWork(ws[w := worker]) == WorkerWork(ws) - WorkOf(ws[w].pc) + WorkOf(worker.pc)
    ensures WorkerWork(ws) >= WorkOf(ws[w].pc)
  {
    if w == 0 {
      assert ws[w := worker][1..] == ws[1..];
    } else {
      assert ws[w := worker][1..] == ws[1..][w - 1 := worker];
      WorkAfter(ws[1..], w - 1, worker);
    }
  }

  lemma {:induction false} FindBusy(ws: seq<Worker>) returns (w: nat)
    requires WorkerWork(ws) > 0
    ensures w < |ws| && !ws[w].pc.Waiting?
  {
    if !ws[0].pc.Waiting? {
      w := 0;
    } else {
      w := FindBusy(ws[1..]);
      w := w + 1;
    }
  }

  /** While anything is in flight, some thread can act without a new connection, and one less action is left. */
  lemma {:induction false} SomeoneMoves(c: Config, s: State) returns (a: Action)
    requires Inv(c, s) && Work(s) > 0 && c.slots > 0 && c.workers > 0
    ensures !a.Accept? && Work(Step(c, s, a)) == Work(s) - 1
  {
    if s.hand.Some? && |s.queue| < c.slots {
      a := Send;
    } else {
      var w := 0;
      if s.queue == [] && s.workers[0].pc.Waiting? {
        w := FindBusy(s.workers);
      }
      a := Turn(s, w, []);
      TurnLess(c, s, w, []);
    }
  }

  lemma {:induction false} TurnLess(c: Config, s: State, w: nat, data: seq<byte>)
    requires w < |s.workers| && BufferRight(s, s.workers[w]) && |data| <= SIZE
    requires s.workers[w].pc.Waiting? ==> s.queue != []
    ensures Work(Step(c, s, Turn(s, w, data))) == Work(s) - 1
  {
    hide Step, Turn;
    TurnPc(c, s, w, data);
    WorkAfter(s.workers, w, Step(c, s, Turn(s, w, data)).workers[w]);
  }

  lemma {:induction false} TurnPc(c: Config, s: State, w: nat, data: seq<byte>)
    requires w < |s.workers| && BufferRight(s, s.workers[w]) && |data| <= SIZE
    requires s.workers[w].pc.Waiting? ==> s.queue != []
    ensures var s', pc := Step(c, s, Turn(s, w, data)), s.workers[w].pc;
            && s'.hand == s.hand && |s'.workers| == |s.workers| && s'.workers == s.workers[w := s'.workers[w]]
            && |s'.queue| == |s.queue| - One(pc.Waiting?)
            && WorkOf(s'.workers[w].pc) == if pc.Waiting? then 5 else WorkOf(pc) - 1
  {
  }

  /** Whatever a thread does short of an accept, there is one action less left, unless it has to wait. */
  lemma {:induction false} EveryMoveCounts(c: Config, s: State, a: Action)
    requires Inv(c, s) && !a.Accept? && Step(c, s, a) != s
    ensures Work(Step(c, s, a)) == Work(s) - 1
  {
    hide Counts, Places;
    if !a.Send? {
      OutOfTurn(c, s, a);
      IdleMoves(c, s, a);
      hide Step, Turn, Work, BufferRight;
      TurnLess(c, s, a.w, if a.Recv? then a.data else []);
    }
  }

  lemma {:induction false} IdleMoves(c: Config, s: State, a: Action)
    requires !a.Accept? && !a.Send? && Step(c, s, a) != s && a.w < |s.workers|
    requires a == Turn(s, a.w, if a.Recv? then a.data else [])
    ensures s.workers[a.w].pc.Waiting? ==> s.queue != []
    ensures a.Recv? ==> |a.data| <= SIZE
  {
  }

  /** After the run of actions, each move of rest is some thread's and changes something, and none is an accept. */
  ghost predicate Effective(c: Config, actions: seq<Action>, rest: seq<Action>) {
    forall k :: 0 <= k < |rest| ==> !rest[k].Accept? && Step(c, Run(c, actions + rest[..k]), rest[k]) != Run(c, actions + rest[..k])
  }

  lemma {:induction false} EffectiveLast(c: Config, actions: seq<Action>, rest: seq<Action>, a: Action)
    ensures Effective(c, actions, rest + [a]) <==>
            Effective(c, actions, rest) && !a.Accept? && Step(c, Run(c, actions + rest), a) != Run(c, actions + rest)
    ensures Run(c, actions + (rest + [a])) == Step(c, Run(c, actions + rest), a)
  {
    hide Run, Step;
    var all := rest + [a];
    assert all[..|rest|] == rest;
    assert forall k :: 0 <= k < |rest| ==> all[k] == rest[k] && all[..k] == rest[..k];
    assert actions + all == actions + rest + [a];
    RunOne(c, actions + rest, a);
  }

  /** Every client accepted so far has its answer and is closed. */
  ghost predicate AllServed(s: State) {
    forall id: nat :: id < s.accepted ==> !Open(s, id) && Answered(s, id)
  }

  /** However the threads are scheduled once no more connections arrive: they can make exactly as many
      moves as there is work left, and have then, and not before, answered and closed every accepted one. */
  lemma {:induction false} Drains(c: Config, actions: seq<Action>, rest: seq<Action>)
    requires Lossless(c) && c.slots > 0 && c.workers > 0 && Effective(c, actions, rest)
    ensures Run(c, actions + rest).accepted == Run(c, actions).accepted
    ensures |rest| <= Work(Run(c, actions))
    ensures |rest| == Work(Run(c, actions)) <==> AllServed(Run(c, actions + rest))
    ensures |rest| == Work(Run(c, actions)) <==> forall a :: !Effective(c, actions, rest + [a])
  {
    hide Run, Step, Work, Counts, Places, Answers, Effective, AllServed;
    WorkSpent(c, actions, rest);
    var s := Run(c, actions + rest);
    RunInv(c, actions + rest);
    if Work(s) == 0 {
      AllClosed(c, s);
      forall a
        ensures !Effective(c, actions, rest + [a])
      {
        if Effective(c, actions, rest + [a]) {
          EffectiveLast(c, actions, rest, a);
          EveryMoveCounts(c, s, a);
          assert false;
        }
      }
    } else {
      var a := SomeoneMoves(c, s);
      EffectiveLast(c, actions, rest, a);
      ServedMeansDone(c, s);
    }
  }

  lemma {:induction false} WorkSpent(c: Config, actions: seq<Action>, rest: seq<Action>)
    requires Lossless(c) && Effective(c, actions, rest)
    ensures |rest| + Work(Run(c, actions + rest)) == Work(Run(c, actions))
    ensures Run(c, actions + rest).accepted == Run(c, actions).accepted
  {
    hide Run, Step, Work, Counts, Places, Answers, Effective;
    if rest == [] {
      assert actions + rest == actions;
    } else {
      var front, a := rest[..|rest| - 1], rest[|rest| - 1];
      assert rest == front + [a];
      EffectiveLast(c, actions, front, a);
      WorkSpent(c, actions, front);
      RunInv(c, actions + front);
      EveryMoveCounts(c, Run(c, actions + front), a);
      AcceptedSame(c, Run(c, actions + front), a);
    }
  }

  /** While anything is in flight, some accepted connection is still open. */
  lemma {:induction false} ServedMeansDone(c: Config, s: State)
    requires Inv(c, s) && Work(s) > 0
    ensures !AllServed(s)
  {
    hide Answers;
    if s.hand.Some? {
      assert Serves(s, s.hand.value, s.accepted - 1) && Open(s, s.accepted - 1);
    } else if s.queue != [] {
      assert Serves(s, s.queue[0], s.taken + 0) && Open(s, s.taken);
    } else {
      var w := FindBusy(s.workers);
      assert Open(s, s.workers[w].pc.ticket);
    }
  }

  lemma {:induction false} AcceptedSame(c: Config, s: State, a: Action)
    requires !a.Accept?
    ensures Step(c, s, a).accepted == s.accepted
  {
  }

  lemma {:induction false} AllClosed(c: Config, s: State)
    requires Inv(c, s) && Work(s) == 0
    ensures AllServed(s)
  {
    forall id: nat | id < s.accepted
      ensures !Open(s, id) && Answered(s, id)
    {
      assert !AtWorker(s, id) by {
        if AtWorker(s, id) {
          var w :| 0 <= w < |s.workers| && !s.workers[w].pc.Waiting? && s.workers[w].pc.ticket == id;
          WorkAfter(s.workers, w, s.workers[w]);
        }
      }
      AtWorkerWhen(s, id);
    }
  }
}
