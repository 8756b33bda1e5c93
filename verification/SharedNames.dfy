/** The shared-memory chat: clients that append their name to one text segment and later
    rebuild the segment without it, under one semaphore, a character at a time. */
module SharedNames {
  import opened CStrings
  import opened Names

  // ---------- The two critical sections as sequential code ----------

  /** send_name between sem_wait and sem_post. */
  method SendName(addr: array<char>, name: string)
    requires Terminated(addr[..]) && NUL !in name && |Text(addr[..])| + |name| + 1 < addr.Length
    modifies addr
    ensures Terminated(addr[..]) && Text(addr[..]) == old(Text(addr[..])) + name + "\n"
  {
    AppendLine(addr, name);
  }

  /** delete_name between sem_wait and sem_post. */
  method DeleteName(strtok: Tokenizer, addr: array<char>, name: string)
    requires Terminated(addr[..]) && 0 < addr.Length <= 4096
    requires |Render(Tokens(Text(addr[..]), '\n'))| < addr.Length
    modifies strtok, addr
    ensures Terminated(addr[..])
    ensures Text(addr[..]) == Rebuilt(old(Text(addr[..])), name)
  {
    hide Text, Tokens, Without, Render;
    TextShorter(addr[..]);
    var buf := CopyOf(addr, 4096);
    var nameList := new char[4096];
    Clear(nameList);
    MemberOfWithout(Tokens(Text(addr[..]), '\n'), name);
    Rebuild(strtok, buf, nameList, name);
    var list := Read(nameList, 0);
    assert nameList[0..] == nameList[..];
    Clear(addr);
    StrCat(addr, list);
    assert "" + list == list;
  }

  /** The text delete_name leaves. */
  function Rebuilt(text: string, name: string): string {
    Render(Without(Tokens(text, '\n'), name))
  }

  // ---------- Clients at the granularity of one character ----------

  /** Where a client is. A strcat first finds the end of the text (Scan) and then copies. */
  datatype Pc =
    | Outside
    | ScanName
    | CopyName(at: nat, k: nat)
    | ScanNewline
    | CopyNewline(at: nat, k: nat)
    | JoinPost
    | Joined
    | CopyOut(buf: string)
    | Wipe(k: nat, list: string)
    | ScanBack(list: string)
    | CopyBack(at: nat, k: nat, list: string)
    | LeavePost
    | Gone

  datatype Client = Client(name: string, pc: Pc)

  /** What a client has done to the list, recorded when it posts. */
  datatype Op = Join(name: string) | Leave(name: string)

  datatype State = State(mem: seq<char>, sem: nat, clients: seq<Client>, ops: seq<Op>)

  /** The list the completed operations stand for; leaving takes every equal name, and blanks. */
  function Fold(ops: seq<Op>): seq<string> {
    if ops == [] then []
    else
      var names := Fold(ops[..|ops| - 1]);
      match ops[|ops| - 1]
      case Join(n) => names + [n]
      case Leave(n) => Without(NonEmpty(names), n)
  }

  /** One store into the segment. */
  function Put(mem: seq<char>, i: nat, c: char): (r: seq<char>)
    ensures |r| == |mem|
  {
    if i < |mem| then mem[i := c] else mem
  }

  /** The next of strcat's stores: a character of src or the terminator. */
  function CatStore(mem: seq<char>, src: string, at: nat, k: nat): (r: seq<char>)
    ensures |r| == |mem|
  {
    Put(mem, at + k, if k < |src| then src[k] else NUL)
  }

  function Move(s: State, i: nat, mem: seq<char>, pc: Pc): State
    requires i < |s.clients|
  {
    s.(mem := mem, clients := s.clients[i := s.clients[i].(pc := pc)])
  }

  function Post(s: State, i: nat, op: Op, pc: Pc): State
    requires i < |s.clients|
  {
    Move(s, i, s.mem, pc).(sem := s.sem + 1, ops := s.ops + [op])
  }

  /** Client i performs its next atomic action; a client that waits for the semaphore stays put. */
  function Step(s: State, i: nat): (r: State)
    requires i < |s.clients|
    ensures |r.clients| == |s.clients| && |r.mem| == |s.mem|
    ensures forall j :: 0 <= j < |s.clients| ==> r.clients[j].name == s.clients[j].name && (j != i ==> r.clients[j] == s.clients[j])
  {
    var n := s.clients[i].name;
    match s.clients[i].pc
    case Outside => if s.sem == 0 then s else Move(s, i, s.mem, ScanName).(sem := s.sem - 1)
    case ScanName => Move(s, i, s.mem, CopyName(|Text(s.mem)|, 0))
    case CopyName(at, k) =>
      Move(s, i, CatStore(s.mem, n, at, k), if k < |n| then CopyName(at, k + 1) else ScanNewline)
    case ScanNewline => Move(s, i, s.mem, CopyNewline(|Text(s.mem)|, 0))
    case CopyNewline(at, k) =>
      Move(s, i, CatStore(s.mem, "\n", at, k), if k < 1 then CopyNewline(at, k + 1) else JoinPost)
    case JoinPost => Post(s, i, Join(n), Joined)
    case Joined => if s.sem == 0 then s else Move(s, i, s.mem, CopyOut("")).(sem := s.sem - 1)
    case CopyOut(buf) =>
      if |buf| < |s.mem| && s.mem[|buf|] != NUL then Move(s, i, s.mem, CopyOut(buf + [s.mem[|buf|]]))
      else Move(s, i, s.mem, Wipe(0, Rebuilt(buf, n)))
    case Wipe(k, list) =>
      if k < |s.mem| then Move(s, i, Put(s.mem, k, NUL), Wipe(k + 1, list)) else Move(s, i, s.mem, ScanBack(list))
    case ScanBack(list) => Move(s, i, s.mem, CopyBack(|Text(s.mem)|, 0, list))
    case CopyBack(at, k, list) =>
      Move(s, i, CatStore(s.mem, list, at, k), if k < |list| then CopyBack(at, k + 1, list) else LeavePost)
    case LeavePost => Post(s, i, Leave(n), Gone)
    case Gone => s
  }

  /** Every interleaving is a sequence of clients to move. */
  function Run(s: State, schedule: seq<nat>): (r: State)
    requires forall k :: 0 <= k < |schedule| ==> schedule[k] < |s.clients|
    ensures |r.clients| == |s.clients|
    decreases |schedule|
  {
    if schedule == [] then s
    else Step(Run(s, schedule[..|schedule| - 1]), schedule[|schedule| - 1])
  }

  function Zeros(n: nat): seq<char> {
    seq(n, _ => NUL)
  }

  /** A segment of m cells that holds exactly the text t. */
  function Image(t: string, m: nat): seq<char> {
    if |t| <= m then t + Zeros(m - |t|) else Zeros(m)
  }

  function Begin(names: seq<string>, size: nat): State {
    State(Zeros(size), 1, seq(|names|, i requires 0 <= i < |names| => Client(names[i], Outside)), [])
  }

  // ---------- The invariant ----------

  predicate Inside(pc: Pc) {
    !pc.Outside? && !pc.Joined? && !pc.Gone?
  }

  /** Room a client may still need: its line, until it has written it. */
  function Demand(c: Client): nat {
    match c.pc
    case Outside | ScanName | CopyName(_, _) | ScanNewline | CopyNewline(_, _) | JoinPost => |c.name| + 1
    case _ => 0
  }

  function TotalDemand(cs: seq<Client>): nat {
    if cs == [] then 0 else Demand(cs[0]) + TotalDemand(cs[1..])
  }

  lemma {:induction false} DemandAfter(cs: seq<Client>, i: nat, c: Client)
    requires i < |cs|
    ensures TotalDemand(cs[i := c]) == TotalDemand(cs) - Demand(cs[i]) + Demand(c)
    ensures TotalDemand(cs) >= Demand(cs[i])
  {
    if i == 0 {
      assert cs[i := c][1..] == cs[1..];
    } else {
      assert cs[i := c][1..] == cs[1..][i - 1 := c];
      DemandAfter(cs[1..], i - 1, c);
    }
  }

  /** What the holder has made of the segment so far. */
  ghost predicate Progress(c: Client, mem: seq<char>, text: string) {
    var m := |mem|;
    match c.pc
    case ScanName => mem == Image(text, m)
    case CopyName(at, k) => at == |text| && k <= |c.name| && mem == Image(text + c.name[..k], m)
    case ScanNewline => mem == Image(text + c.name, m)
    case CopyNewline(at, k) => at == |text + c.name| && k <= 1 && mem == Image(text + c.name + "\n"[..k], m)
    case JoinPost => mem == Image(text + c.name + "\n", m)
    case CopyOut(buf) => buf <= text && mem == Image(text, m)
    case Wipe(k, list) => k <= m && list == Rebuilt(text, c.name) && mem == Zeros(k) + Image(text, m)[k..]
    case ScanBack(list) => list == Rebuilt(text, c.name) && mem == Zeros(m)
    case CopyBack(at, k, list) => list == Rebuilt(text, c.name) && at == 0 && k <= |list| && mem == Image(list[..k], m)
    case LeavePost => mem == Image(Rebuilt(text, c.name), m)
    case _ => true
  }

  ghost predicate Clean(s: State) {
    && (forall i :: 0 <= i < |s.clients| ==> OneLine(s.clients[i].name))
    && (forall n :: n in Fold(s.ops) ==> OneLine(n))
  }

  ghost predicate Inv(s: State) {
    var text := Render(Fold(s.ops));
    && Clean(s)
    && |text| + TotalDemand(s.clients) < |s.mem|
    && s.sem <= 1
    && (s.sem == 1 ==> s.mem == Image(text, |s.mem|))
    && (s.sem == 1 ==> forall i :: 0 <= i < |s.clients| ==> !Inside(s.clients[i].pc))
    && (s.sem == 0 ==> exists i :: 0 <= i < |s.clients| && Inside(s.clients[i].pc))
    && (forall i, j :: 0 <= i < |s.clients| && 0 <= j < |s.clients| && Inside(s.clients[i].pc) && Inside(s.clients[j].pc) ==> i == j)
    && (forall i :: 0 <= i < |s.clients| ==> Progress(s.clients[i], s.mem, text))
  }

  // ---------- Facts about images ----------

  lemma {:induction false} TextOfImage(t: string, m: nat)
    requires NUL !in t && |t| < m
    ensures Text(Image(t, m)) == t
  {
    assert Image(t, m)[..|t|] == t && Image(t, m)[|t|] == NUL;
    TextUnique(Image(t, m), |t|);
  }

  /** A strcat that has copied k characters, and then stores one more. */
  lemma {:induction false} CatImage(t: string, src: string, k: nat, m: nat)
    requires k <= |src| && |t| + |src| < m
    ensures k < |src| ==> CatStore(Image(t + src[..k], m), src, |t|, k) == Image(t + src[..k + 1], m)
    ensures k == |src| ==> CatStore(Image(t + src[..k], m), src, |t|, k) == Image(t + src, m)
  {
    var k' := if k < |src| then k + 1 else k;
    var a, b := CatStore(Image(t + src[..k], m), src, |t|, k), Image(t + src[..k'], m);
    assert |a| == m == |b|;
    forall x | 0 <= x < m
      ensures a[x] == b[x]
    {
    }
  }

  lemma {:induction false} WipeImage(mem: seq<char>, k: nat, image: seq<char>)
    requires k < |mem| == |image| && mem == Zeros(k) + image[k..]
    ensures Put(mem, k, NUL) == Zeros(k + 1) + image[k + 1..]
  {
  }

  // ---------- Steps keep the invariant ----------

  /** The invariant after a move of the holder that leaves the abstract list alone. */
  lemma {:induction false} InsideMove(s: State, i: nat, mem: seq<char>, pc: Pc)
    requires Inv(s) && i < |s.clients| && Inside(s.clients[i].pc) && Inside(pc) && |mem| == |s.mem|
    requires Demand(s.clients[i].(pc := pc)) <= Demand(s.clients[i])
    requires Progress(s.clients[i].(pc := pc), mem, Render(Fold(s.ops)))
    ensures Inv(Move(s, i, mem, pc))
  {
    var s' := Move(s, i, mem, pc);
    DemandAfter(s.clients, i, s.clients[i].(pc := pc));
    assert s.sem == 0;
    assert Inside(s'.clients[i].pc);
    forall j | 0 <= j < |s'.clients|
      ensures Progress(s'.clients[j], s'.mem, Render(Fold(s'.ops)))
    {
      if j != i {
        assert !Inside(s.clients[j].pc);
      }
    }
  }

  lemma {:induction false} EnterMove(s: State, i: nat, pc: Pc)
    requires Inv(s) && i < |s.clients| && s.sem == 1
    requires (s.clients[i].pc == Outside && pc == ScanName) || (s.clients[i].pc == Joined && pc == CopyOut(""))
    ensures Inv(Move(s, i, s.mem, pc).(sem := 0))
  {
    var s' := Move(s, i, s.mem, pc).(sem := 0);
    DemandAfter(s.clients, i, s.clients[i].(pc := pc));
    assert Inside(s'.clients[i].pc);
  }

  lemma {:induction false} PostMove(s: State, i: nat, op: Op, pc: Pc)
    requires Inv(s) && i < |s.clients| && Inside(s.clients[i].pc)
    requires || (s.clients[i].pc == JoinPost && op == Join(s.clients[i].name) && pc == Joined)
             || (s.clients[i].pc == LeavePost && op == Leave(s.clients[i].name) && pc == Gone)
    ensures Inv(Post(s, i, op, pc))
  {
    var s', n, names := Post(s, i, op, pc), s.clients[i].name, Fold(s.ops);
    assert s'.ops[..|s'.ops| - 1] == s.ops;
    DemandAfter(s.clients, i, s.clients[i].(pc := pc));
    if op.Join? {
      RenderConcat(names, [n]);
      assert Render([n]) == n + "\n" + Render([]);
      assert Render(Fold(s'.ops)) == Render(names) + n + "\n";
    } else {
      TokensOfRender(names);
      MemberOfNonEmpty(names);
      MemberOfWithout(NonEmpty(names), n);
      assert Render(Fold(s'.ops)) == Rebuilt(Render(names), n);
    }
    forall j | 0 <= j < |s'.clients|
      ensures !Inside(s'.clients[j].pc) && Progress(s'.clients[j], s'.mem, Render(Fold(s'.ops)))
    {
      if j != i {
        assert !Inside(s.clients[j].pc);
      }
    }
  }

  /** Room for the rest of what the holder writes. */
  lemma {:induction false} Room(s: State, i: nat)
    requires Inv(s) && i < |s.clients| && Inside(s.clients[i].pc)
    ensures var text, c := Render(Fold(s.ops)), s.clients[i];
            && NUL !in text && OneLine(c.name)
            && |text| + Demand(c) < |s.mem|
            && NUL !in Rebuilt(text, c.name) && |Rebuilt(text, c.name)| <= |text|
            && Progress(c, s.mem, text)
  {
    var names, n := Fold(s.ops), s.clients[i].name;
    DemandAfter(s.clients, i, s.clients[i]);
    RenderClean(names);
    TokensOfRender(names);
    MemberOfNonEmpty(names);
    MemberOfWithout(NonEmpty(names), n);
    RenderClean(Without(NonEmpty(names), n));
  }

  lemma {:induction false} JoinStep(s: State, i: nat)
    requires Inv(s) && i < |s.clients|
    requires s.clients[i].pc.ScanName? || s.clients[i].pc.CopyName? || s.clients[i].pc.ScanNewline? || s.clients[i].pc.CopyNewline?
    ensures Inv(Step(s, i))
  {
    hide Inv, Fold, Text, Image, CatStore;
    Room(s, i);
    var text, c, m := Render(Fold(s.ops)), s.clients[i], |s.mem|;
    match c.pc {
      case ScanName =>
        TextOfImage(text, m);
        assert text + c.name[..0] == text;
        InsideMove(s, i, s.mem, CopyName(|text|, 0));
      case CopyName(at, k) =>
        CatImage(text, c.name, k, m);
        if k < |c.name| {
          InsideMove(s, i, CatStore(s.mem, c.name, at, k), CopyName(at, k + 1));
        } else {
          assert c.name[..k] == c.name;
          InsideMove(s, i, CatStore(s.mem, c.name, at, k), ScanNewline);
        }
      case ScanNewline =>
        TextOfImage(text + c.name, m);
        assert text + c.name + "\n"[..0] == text + c.name;
        InsideMove(s, i, s.mem, CopyNewline(|text + c.name|, 0));
      case CopyNewline(at, k) =>
        CatImage(text + c.name, "\n", k, m);
        if k < 1 {
          InsideMove(s, i, CatStore(s.mem, "\n", at, k), CopyNewline(at, k + 1));
        } else {
          assert "\n"[..k] == "\n";
          InsideMove(s, i, CatStore(s.mem, "\n", at, k), JoinPost);
        }
    }
  }

  lemma {:induction false} CopyOutStep(s: State, i: nat)
    requires Inv(s) && i < |s.clients| && s.clients[i].pc.CopyOut?
    ensures Inv(Step(s, i))
  {
    hide Inv, Fold, Text;
    Room(s, i);
    var text, c, m := Render(Fold(s.ops)), s.clients[i], |s.mem|;
    var buf := c.pc.buf;
    if |buf| < |text| {
      assert s.mem[|buf|] == text[|buf|];
      assert buf + [s.mem[|buf|]] <= text;
      InsideMove(s, i, s.mem, CopyOut(buf + [s.mem[|buf|]]));
    } else {
      assert buf == text && s.mem[|buf|] == NUL;
      assert Zeros(0) + Image(text, m)[0..] == Image(text, m);
      InsideMove(s, i, s.mem, Wipe(0, Rebuilt(buf, c.name)));
    }
  }

  lemma {:induction false} WipeStep(s: State, i: nat)
    requires Inv(s) && i < |s.clients| && s.clients[i].pc.Wipe?
    ensures Inv(Step(s, i))
  {
    hide Inv, Fold, Text;
    Room(s, i);
    var k, list := s.clients[i].pc.k, s.clients[i].pc.list;
    if k < |s.mem| {
      WipeImage(s.mem, k, Image(Render(Fold(s.ops)), |s.mem|));
      InsideMove(s, i, Put(s.mem, k, NUL), Wipe(k + 1, list));
    } else {
      assert s.mem == Zeros(|s.mem|);
      InsideMove(s, i, s.mem, ScanBack(list));
    }
  }

  lemma {:induction false} CopyBackStep(s: State, i: nat)
    requires Inv(s) && i < |s.clients| && (s.clients[i].pc.ScanBack? || s.clients[i].pc.CopyBack?)
    ensures Inv(Step(s, i))
  {
    hide Inv, Fold, Text, CatStore, Image, Rebuilt;
    Room(s, i);
    var list, m := s.clients[i].pc.list, |s.mem|;
    match s.clients[i].pc {
      case ScanBack(_) =>
        TextOfImage("", m);
        EmptyImage(m);
        assert list[..0] == "";
        InsideMove(s, i, s.mem, CopyBack(0, 0, list));
      case CopyBack(at, k, _) =>
        CatImage("", list, k, m);
        assert "" + list[..k] == list[..k];
        if k < |list| {
          assert "" + list[..k + 1] == list[..k + 1];
          InsideMove(s, i, CatStore(s.mem, list, at, k), CopyBack(at, k + 1, list));
        } else {
          assert list[..k] == list;
          InsideMove(s, i, CatStore(s.mem, list, at, k), LeavePost);
        }
    }
  }

  lemma {:induction false} EmptyImage(m: nat)
    ensures Image("", m) == Zeros(m)
  {
  }

  lemma {:induction false} StepKeeps(s: State, i: nat)
    requires Inv(s) && i < |s.clients|
    ensures Inv(Step(s, i))
  {
    var c := s.clients[i];
    if c.pc.Gone? || (s.sem == 0 && !Inside(c.pc)) {
      assert Step(s, i) == s;
    } else if c.pc.Outside? {
      EnterMove(s, i, ScanName);
    } else if c.pc.Joined? {
      EnterMove(s, i, CopyOut(""));
    } else if c.pc.JoinPost? {
      PostMove(s, i, Join(c.name), Joined);
    } else if c.pc.LeavePost? {
      PostMove(s, i, Leave(c.name), Gone);
    } else if c.pc.CopyOut? {
      CopyOutStep(s, i);
    } else if c.pc.Wipe? {
      WipeStep(s, i);
    } else if c.pc.ScanBack? || c.pc.CopyBack? {
      CopyBackStep(s, i);
    } else {
      JoinStep(s, i);
    }
  }

  /** Names the clients may have, in a segment with room for all of them. */
  ghost predicate Admissible(names: seq<string>, size: nat) {
    && (forall i :: 0 <= i < |names| ==> OneLine(names[i]))
    && |Render(names)| < size
  }

  lemma {:induction false} DemandAtStart(names: seq<string>)
    ensures TotalDemand(Begin(names, 0).clients) == |Render(names)|
  {
    if names != [] {
      assert Begin(names, 0).clients[1..] == Begin(names[1..], 0).clients;
      DemandAtStart(names[1..]);
    }
  }

  lemma {:induction false} BeginInv(names: seq<string>, size: nat)
    requires Admissible(names, size)
    ensures Inv(Begin(names, size))
  {
    DemandAtStart(names);
    assert Begin(names, 0).clients == Begin(names, size).clients;
    assert Image("", size) == Zeros(size);
  }

  lemma {:induction false} RunInv(names: seq<string>, size: nat, schedule: seq<nat>)
    requires Admissible(names, size) && forall k :: 0 <= k < |schedule| ==> schedule[k] < |names|
    ensures Inv(Run(Begin(names, size), schedule))
    decreases |schedule|
  {
    BeginInv(names, size);
    if schedule != [] {
      RunInv(names, size, schedule[..|schedule| - 1]);
      StepKeeps(Run(Begin(names, size), schedule[..|schedule| - 1]), schedule[|schedule| - 1]);
    }
  }

  /** However the clients' single-character actions interleave: while the semaphore is free the
      segment reads as the list of the completed operations, taken in the order of their posts. */
  lemma {:induction false} SharedListIsExact(names: seq<string>, size: nat, schedule: seq<nat>)
    requires Admissible(names, size) && forall k :: 0 <= k < |schedule| ==> schedule[k] < |names|
    ensures var s := Run(Begin(names, size), schedule);
            s.sem > 0 ==> Text(s.mem) == Render(Fold(s.ops))
  {
    var s := Run(Begin(names, size), schedule);
    RunInv(names, size, schedule);
    if s.sem > 0 {
      RenderClean(Fold(s.ops));
      TextOfImage(Render(Fold(s.ops)), |s.mem|);
    }
  }

  // ---------- What a user sees ----------

  predicate Present(pc: Pc) {
    !pc.Outside? && !pc.ScanName? && !pc.CopyName? && !pc.ScanNewline? && !pc.CopyNewline? && !pc.JoinPost? && !pc.Gone?
  }

  predicate Distinct(names: seq<string>) {
    forall i, j :: 0 <= i < j < |names| ==> names[i] != names[j]
  }

  /** The list holds exactly the clients between their two posts, each once. */
  ghost predicate Listed(s: State, names: seq<string>) {
    && |s.clients| == |names| && (forall i :: 0 <= i < |names| ==> s.clients[i].name == names[i])
    && Distinct(Fold(s.ops))
    && (forall n :: n in Fold(s.ops) ==> n in names)
    && (forall i :: 0 <= i < |names| ==> (names[i] in Fold(s.ops) <==> Present(s.clients[i].pc)))
  }

  lemma {:induction false} WithoutDistinct(names: seq<string>, n: string)
    requires Distinct(names)
    ensures Distinct(Without(names, n))
  {
    if names != [] {
      WithoutDistinct(names[1..], n);
      MemberOfWithout(names[1..], n);
      assert names[0] !in names[1..];
    }
  }

  /** Only the two posts record something, and only they change who is present. */
  lemma {:induction false} StepRecords(s: State, i: nat)
    requires i < |s.clients|
    ensures var s', c := Step(s, i), s.clients[i];
            || (s'.ops == s.ops && Present(s'.clients[i].pc) == Present(c.pc))
            || (s'.ops == s.ops + [Join(c.name)] && Present(s'.clients[i].pc) && !Present(c.pc))
            || (s'.ops == s.ops + [Leave(c.name)] && !Present(s'.clients[i].pc) && Present(c.pc))
  {
  }

  lemma {:induction false} ListedStep(s: State, names: seq<string>, i: nat)
    requires Listed(s, names) && Distinct(names) && "" !in names && i < |names|
    ensures Listed(Step(s, i), names)
  {
    var s', n, list := Step(s, i), names[i], Fold(s.ops);
    StepRecords(s, i);
    FoldMore(s.ops, n);
    WithoutDistinct(list, n);
    hide Step, Present, Fold, Without;
    forall j | 0 <= j < |names|
      ensures names[j] in Fold(s'.ops) <==> Present(s'.clients[j].pc)
    {
      assert j != i ==> names[j] != n;
    }
  }

  lemma {:induction false} FoldMore(ops: seq<Op>, n: string)
    requires "" !in Fold(ops)
    ensures Fold(ops + [Join(n)]) == Fold(ops) + [n] && Fold(ops + [Leave(n)]) == Without(Fold(ops), n)
    ensures forall m :: m in Fold(ops + [Leave(n)]) <==> m in Fold(ops) && m != n
  {
    assert (ops + [Join(n)])[..|ops|] == ops && (ops + [Leave(n)])[..|ops|] == ops;
    NonEmptyIdentity(Fold(ops));
    MemberOfWithout(Fold(ops), n);
  }

  lemma {:induction false} RunListed(names: seq<string>, size: nat, schedule: seq<nat>)
    requires Distinct(names) && "" !in names && forall k :: 0 <= k < |schedule| ==> schedule[k] < |names|
    ensures Listed(Run(Begin(names, size), schedule), names)
    decreases |schedule|
  {
    if schedule != [] {
      RunListed(names, size, schedule[..|schedule| - 1]);
      ListedStep(Run(Begin(names, size), schedule[..|schedule| - 1]), names, schedule[|schedule| - 1]);
    }
  }

  /** With distinct non-blank names, a reader of the free segment sees, one to a line and once
      each, precisely the clients that have joined and not left. */
  lemma {:induction false} ReaderSeesPresentClients(names: seq<string>, size: nat, schedule: seq<nat>)
    requires Admissible(names, size) && Distinct(names) && "" !in names
    requires forall k :: 0 <= k < |schedule| ==> schedule[k] < |names|
    ensures var s := Run(Begin(names, size), schedule);
            s.sem > 0 ==>
              var lines := Tokens(Text(s.mem), '\n');
              && Distinct(lines)
              && (forall n :: n in lines <==> exists i :: 0 <= i < |names| && names[i] == n && s.clients[i].pc == Joined)
  {
    var s := Run(Begin(names, size), schedule);
    RunInv(names, size, schedule);
    RunListed(names, size, schedule);
    SharedListIsExact(names, size, schedule);
    if s.sem > 0 {
      TokensOfRender(Fold(s.ops));
      NonEmptyIdentity(Fold(s.ops));
      var lines := Tokens(Text(s.mem), '\n');
      assert lines == Fold(s.ops);
      forall n
        ensures n in lines <==> exists i :: 0 <= i < |names| && names[i] == n && s.clients[i].pc == Joined
      {
        if n in lines {
          var i :| 0 <= i < |names| && names[i] == n;
          assert !Inside(s.clients[i].pc);
        }
      }
    }
  }

  // ---------- The semaphore always comes back ----------

  /** More than the number of actions the holder still needs in a segment of m cells. */
  function Remaining(c: Client, m: nat): nat {
    var n := |c.name|;
    match c.pc
    case ScanName => n + 8
    case CopyName(_, k) => if k <= n then n - k + 7 else 0
    case ScanNewline => 5
    case CopyNewline(_, k) => if k <= 1 then 3 - k + 1 else 0
    case JoinPost => 1
    case CopyOut(buf) => if |buf| <= m then 3 * m - |buf| + 6 else 0
    case Wipe(k, _) => if k <= m then 2 * m - k + 5 else 0
    case ScanBack(_) => m + 4
    case CopyBack(_, k, list) => if k <= |list| then |list| - k + 3 else 0
    case LeavePost => 1
    case _ => 0
  }

  lemma {:induction false} HeldByOne(s: State, i: nat)
    requires Inv(s) && i < |s.clients| && Inside(s.clients[i].pc)
    ensures s.sem == 0
  {
  }

  /** Inside send_name, not delete_name. */
  predicate Joining(pc: Pc) {
    pc.ScanName? || pc.CopyName? || pc.ScanNewline? || pc.CopyNewline? || pc.JoinPost?
  }

  /** From s to s', client i has finished the operation it was in, and nobody else has moved. */
  predicate Finished(s: State, i: nat, s': State)
    requires i < |s.clients|
  {
    var c := s.clients[i];
    && s'.sem == 1 && |s'.mem| == |s.mem|
    && s'.clients == s.clients[i := c.(pc := if Joining(c.pc) then Joined else Gone)]
    && s'.ops == s.ops + [if Joining(c.pc) then Join(c.name) else Leave(c.name)]
  }

  lemma {:induction false} HolderAdvances(s: State, i: nat)
    requires Inv(s) && i < |s.clients| && Inside(s.clients[i].pc)
    ensures var s' := Step(s, i);
            || Finished(s, i, s')
            || (&& Inside(s'.clients[i].pc) && Remaining(s'.clients[i], |s'.mem|) < Remaining(s.clients[i], |s.mem|)
                && s'.ops == s.ops && s'.clients == s.clients[i := s'.clients[i]]
                && s'.clients[i].name == s.clients[i].name && Joining(s'.clients[i].pc) == Joining(s.clients[i].pc))
  {
    hide Text, Image, CatStore, Rebuilt, Fold, Render, Inv, Zeros;
    Room(s, i);
    HeldByOne(s, i);
  }

  /** From any state the clients can reach, the holder alone completes its operation and posts. */
  lemma {:induction false} HolderPosts(s: State, i: nat) returns (schedule: seq<nat>)
    requires Inv(s) && i < |s.clients| && Inside(s.clients[i].pc)
    ensures forall k :: 0 <= k < |schedule| ==> schedule[k] == i
    ensures Inv(Run(s, schedule)) && Finished(s, i, Run(s, schedule))
    decreases Remaining(s.clients[i], |s.mem|)
  {
    hide Inv, Inside, Remaining, Step;
    StepKeeps(s, i);
    HolderAdvances(s, i);
    if Finished(s, i, Step(s, i)) {
      schedule := [i];
      assert Run(s, [i][..0]) == s;
    } else {
      var rest := HolderPosts(Step(s, i), i);
      schedule := [i] + rest;
      RunCons(s, i, rest);
    }
  }

  lemma {:induction false} RunCons(s: State, i: nat, rest: seq<nat>)
    requires i < |s.clients| && forall k :: 0 <= k < |rest| ==> rest[k] < |s.clients|
    ensures Run(s, [i] + rest) == Run(Step(s, i), rest)
    decreases |rest|
  {
    var all := [i] + rest;
    if rest == [] {
      assert all[..|all| - 1] == [];
    } else {
      assert all[..|all| - 1] == [i] + rest[..|rest| - 1];
      RunCons(s, i, rest[..|rest| - 1]);
    }
  }

  lemma {:induction false} RunConcat(s: State, a: seq<nat>, b: seq<nat>)
    requires forall k :: 0 <= k < |a| ==> a[k] < |s.clients|
    requires forall k :: 0 <= k < |b| ==> b[k] < |s.clients|
    ensures Run(s, a + b) == Run(Run(s, a), b)
    decreases |b|
  {
    if b == [] {
      assert a + b == a;
    } else {
      assert (a + b)[..|a + b| - 1] == a + b[..|b| - 1];
      RunConcat(s, a, b[..|b| - 1]);
    }
  }

  /** While the semaphore is free the segment holds the rendered list and nothing else. */
  lemma {:induction false} FreeText(s: State)
    requires Inv(s) && s.sem == 1
    ensures Text(s.mem) == Render(Fold(s.ops)) && NUL !in Text(s.mem)
    ensures Tokens(Text(s.mem), '\n') == NonEmpty(Fold(s.ops))
    ensures forall i :: 0 <= i < |s.clients| ==> !Inside(s.clients[i].pc)
  {
    RenderClean(Fold(s.ops));
    TextOfImage(Render(Fold(s.ops)), |s.mem|);
    TokensOfRender(Fold(s.ops));
  }

  /** A client outside or joined that finds the semaphore free enters, and completes its operation alone. */
  lemma {:induction false} Enters(s: State, i: nat) returns (schedule: seq<nat>)
    requires Inv(s) && s.sem == 1 && i < |s.clients| && (s.clients[i].pc.Outside? || s.clients[i].pc.Joined?)
    ensures forall k :: 0 <= k < |schedule| ==> schedule[k] == i
    ensures Inv(Run(s, schedule))
    ensures var c, s' := s.clients[i], Run(s, schedule);
            && s'.sem == 1 && |s'.mem| == |s.mem|
            && s'.clients == s.clients[i := c.(pc := if c.pc.Outside? then Joined else Gone)]
            && s'.ops == s.ops + [if c.pc.Outside? then Join(c.name) else Leave(c.name)]
  {
    hide Inv;
    StepKeeps(s, i);
    var rest := HolderPosts(Step(s, i), i);
    schedule := [i] + rest;
    RunCons(s, i, rest);
  }

  /** From any reachable state in which the semaphore is free, a client that has not joined can do so
      without the others moving, and all that changes in the text is its own line at the end. */
  lemma {:induction false} JoinsAlone(s: State, i: nat) returns (schedule: seq<nat>)
    requires Inv(s) && s.sem == 1 && i < |s.clients| && s.clients[i].pc == Outside
    ensures forall k :: 0 <= k < |schedule| ==> schedule[k] == i
    ensures var s', name := Run(s, schedule), s.clients[i].name;
            && Inv(s') && s'.sem == 1 && s'.clients == s.clients[i := Client(name, Joined)]
            && s'.ops == s.ops + [Join(name)]
            && Text(s'.mem) == Text(s.mem) + name + "\n"
  {
    hide Inv, Run, Text, Tokens, NonEmpty;
    schedule := Enters(s, i);
    var s', n := Run(s, schedule), s.clients[i].name;
    FreeText(s);
    FreeText(s');
    assert s'.ops[..|s'.ops| - 1] == s.ops;
    RenderConcat(Fold(s.ops), [n]);
    assert Render([n]) == n + "\n" + Render([]);
  }

  /** And one that has joined can leave: its name is then on no line, and every other line is as it was. */
  lemma {:induction false} LeavesAlone(s: State, i: nat) returns (schedule: seq<nat>)
    requires Inv(s) && s.sem == 1 && i < |s.clients| && s.clients[i].pc == Joined
    ensures forall k :: 0 <= k < |schedule| ==> schedule[k] == i
    ensures var s', name := Run(s, schedule), s.clients[i].name;
            && Inv(s') && s'.sem == 1 && s'.clients == s.clients[i := Client(name, Gone)]
            && s'.ops == s.ops + [Leave(name)]
            && name !in Tokens(Text(s'.mem), '\n')
            && (forall n :: n != name ==> (n in Tokens(Text(s'.mem), '\n') <==> n in Tokens(Text(s.mem), '\n')))
            && Text(s'.mem) == Rebuilt(Text(s.mem), name)
  {
    hide Inv, Run, Text, Tokens, NonEmpty;
    schedule := Enters(s, i);
    var s', n := Run(s, schedule), s.clients[i].name;
    FreeText(s);
    FreeText(s');
    assert s'.ops[..|s'.ops| - 1] == s.ops;
    var lines := NonEmpty(Fold(s.ops));
    assert Fold(s'.ops) == Without(lines, n);
    MemberOfWithout(lines, n);
    MemberOfNonEmpty(Fold(s.ops));
    NonEmptyIdentity(Without(lines, n));
  }

  /** Operations the clients have still to complete. */
  function Ahead(cs: seq<Client>): nat {
    if cs == [] then 0
    else (if cs[0].pc.Outside? || Joining(cs[0].pc) then 2 else if cs[0].pc.Gone? then 0 else 1) + Ahead(cs[1..])
  }

  lemma {:induction false} AheadAfter(cs: seq<Client>, i: nat, c: Client)
    requires i < |cs|
    ensures Ahead(cs[i := c]) == Ahead(cs) - Ahead([cs[i]]) + Ahead([c])
  {
    if i == 0 {
      assert cs[i := c][1..] == cs[1..];
    } else {
      assert cs[i := c][1..] == cs[1..][i - 1 := c];
      AheadAfter(cs[1..], i - 1, c);
    }
  }

  lemma {:induction false} AheadOne(c: Client)
    ensures Ahead([c]) == if c.pc.Outside? || Joining(c.pc) then 2 else if c.pc.Gone? then 0 else 1
  {
  }

  lemma {:induction false} Holder(s: State) returns (i: nat)
    requires Inv(s) && s.sem != 1
    ensures i < |s.clients| && Inside(s.clients[i].pc)
  {
    i :| 0 <= i < |s.clients| && Inside(s.clients[i].pc);
  }

  /** A client that is not gone can, perhaps after the holder, complete its next operation. */
  lemma {:induction false} NextOperation(s: State, i: nat) returns (schedule: seq<nat>)
    requires Inv(s) && i < |s.clients| && s.clients[i].pc != Gone
    ensures forall k :: 0 <= k < |schedule| ==> schedule[k] < |s.clients|
    ensures Inv(Run(s, schedule)) && Ahead(Run(s, schedule).clients) < Ahead(s.clients)
  {
    hide Inv, Run, Ahead;
    var h := i;
    if s.sem == 1 {
      FreeText(s);
      schedule := Enters(s, i);
    } else {
      h := Holder(s);
      schedule := HolderPosts(s, h);
    }
    AheadOne(s.clients[h]);
    AheadOne(Run(s, schedule).clients[h]);
    AheadAfter(s.clients, h, Run(s, schedule).clients[h]);
  }

  /** From every state that any interleaving can reach, some continuation takes every client through
      its join and its leave. */
  lemma {:induction false} EverybodyLeaves(s: State) returns (schedule: seq<nat>)
    requires Inv(s)
    ensures forall k :: 0 <= k < |schedule| ==> schedule[k] < |s.clients|
    ensures Inv(Run(s, schedule)) && forall i :: 0 <= i < |s.clients| ==> Run(s, schedule).clients[i].pc == Gone
    decreases Ahead(s.clients)
  {
    hide Inv, Ahead;
    if i :| 0 <= i < |s.clients| && s.clients[i].pc != Gone {
      var first := NextOperation(s, i);
      hide Run;
      var rest := EverybodyLeaves(Run(s, first));
      schedule := first + rest;
      RunConcat(s, first, rest);
    } else {
      schedule := [];
    }
  }

  /** The same from the start: each of the clients joins and leaves, however the run began. */
  lemma {:induction false} NobodyIsStuck(names: seq<string>, size: nat, schedule: seq<nat>) returns (more: seq<nat>)
    requires Admissible(names, size) && forall k :: 0 <= k < |schedule| ==> schedule[k] < |names|
    ensures forall k :: 0 <= k < |more| ==> more[k] < |names|
    ensures var s := Run(Begin(names, size), schedule + more);
            forall i :: 0 <= i < |names| ==> s.clients[i].pc == Gone && Leave(names[i]) in s.ops && Join(names[i]) in s.ops
  {
    hide Run, Inv, Admissible;
    RunInv(names, size, schedule);
    var s0 := Begin(names, size);
    more := EverybodyLeaves(Run(s0, schedule));
    RunConcat(s0, schedule, more);
    RunDid(names, size, schedule + more);
  }

  /** What a client has done is recorded. */
  ghost predicate Did(s: State, names: seq<string>) {
    && |s.clients| == |names|
    && forall i :: 0 <= i < |names| ==>
         var c := s.clients[i];
         && c.name == names[i]
         && (!c.pc.Outside? && !Joining(c.pc) ==> Join(c.name) in s.ops)
         && (c.pc.Gone? ==> Leave(c.name) in s.ops)
  }

  lemma {:induction false} RunDid(names: seq<string>, size: nat, schedule: seq<nat>)
    requires forall k :: 0 <= k < |schedule| ==> schedule[k] < |names|
    ensures Did(Run(Begin(names, size), schedule), names)
    decreases |schedule|
  {
    if schedule != [] {
      RunDid(names, size, schedule[..|schedule| - 1]);
    }
  }
}
