/** The message-queue chat server: one text buffer for the users, one for the log, and a main
    loop that drains, counts, sends and rebuilds. */
module ChatServer {
  import opened Types
  import opened CStrings
  import opened Names

  const QUEUE_SIZE := 10

  // ---------- Draining a queue through a buffer that is cleared only once ----------

  /** A message received over the text already in the buffer. */
  function Overlay(buf: string, m: string): (r: string)
    ensures |r| == (if |m| < |buf| then |buf| else |m|) && r[..|m|] == m
    ensures forall k :: |m| <= k < |r| ==> r[k] == buf[k]
    ensures r == m <==> |buf| <= |m|
  {
    m + if |m| < |buf| then buf[|m|..] else ""
  }

  /** The texts that one drain appends, starting from the text in the buffer. */
  function Drained(buf: string, msgs: seq<string>): (r: seq<string>)
    ensures |r| == |msgs|
    decreases msgs
  {
    if msgs == [] then []
    else var text := Overlay(buf, msgs[0]); [text] + Drained(text, msgs[1..])
  }

  predicate NeverShrinks(msgs: seq<string>) {
    forall i, j :: 0 <= i < j < |msgs| ==> |msgs[i]| <= |msgs[j]|
  }

  /** Drained texts only ever add to the messages, and add nothing exactly when no message is
      shorter than what the buffer already held. */
  lemma {:induction false} DrainedExact(buf: string, msgs: seq<string>)
    ensures |Render(Drained(buf, msgs))| >= |Render(msgs)|
    ensures Drained(buf, msgs) == msgs <==> NeverShrinks([buf] + msgs)
    ensures |Render(Drained(buf, msgs))| == |Render(msgs)| <==> Drained(buf, msgs) == msgs
    decreases msgs
  {
    if msgs != [] {
      var text, rest := Overlay(buf, msgs[0]), msgs[1..];
      DrainedExact(text, rest);
      RenderCons(text, Drained(text, rest));
      assert |Render(msgs)| == |msgs[0]| + 1 + |Render(rest)|;
      assert msgs == [msgs[0]] + rest;
      ShrinkStep(buf, msgs[0], rest);
    }
  }

  lemma {:induction false} ShrinkStep(buf: string, m: string, rest: seq<string>)
    ensures NeverShrinks([buf] + ([m] + rest)) <==> |buf| <= |m| && NeverShrinks([m] + rest)
  {
    var tail := [m] + rest;
    var all := [buf] + tail;
    assert all[1..] == tail && all[0] == buf && all[1] == m;
    if NeverShrinks(all) {
      forall i, j | 0 <= i < j < |tail|
        ensures |tail[i]| <= |tail[j]|
      {
        assert tail[i] == all[i + 1] && tail[j] == all[j + 1];
      }
    } else {
      var i, j :| 0 <= i < j < |all| && |all[i]| > |all[j]|;
      assert all[j] == tail[j - 1];
      if i > 0 {
        assert all[i] == tail[i - 1];
      }
      assert |m| <= |tail[j - 1]| || (j > 1 && |tail[0]| > |tail[j - 1]|);
    }
  }

  lemma {:induction false} DrainedClean(buf: string, msgs: seq<string>)
    requires OneLine(buf) && forall m :: m in msgs ==> OneLine(m)
    ensures forall t :: t in Drained(buf, msgs) ==> OneLine(t)
    decreases msgs
  {
    if msgs != [] {
      assert OneLine(msgs[0]);
      assert forall c :: c in Overlay(buf, msgs[0]) ==> c in msgs[0] || c in buf;
      DrainedClean(Overlay(buf, msgs[0]), msgs[1..]);
    }
  }

  /** mq_receive into buf: the message's characters, and no terminator. */
  method Receive(buf: array<char>, m: string, ghost held: string)
    requires |m| < buf.Length && NUL !in m && Holding(buf, held)
    modifies buf
    ensures Holding(buf, Overlay(held, m))
    ensures Terminated(buf[..]) && Text(buf[..]) == Overlay(held, m)
  {
    var i := 0;
    while i < |m|
      invariant 0 <= i <= |m| && buf[..i] == m[..i]
      invariant forall k :: i <= k < buf.Length ==> buf[k] == old(buf[k])
    {
      buf[i] := m[i];
      i := i + 1;
    }
    ghost var r := Overlay(held, m);
    assert forall k :: |m| <= k < |r| ==> buf[k] == held[k] == r[k];
    assert buf[..|r|] == r;
    assert buf[..][|r|] == NUL;
    TextUnique(buf[..], |r|);
  }

  /** Text held so far, and zeros behind it. */
  ghost predicate Holding(buf: array<char>, held: string)
    reads buf
  {
    |held| < buf.Length && NUL !in held && buf[..|held|] == held && forall k :: |held| <= k < buf.Length ==> buf[k] == NUL
  }

  /** Receive one message, and append what the buffer then reads as, with a newline. */
  method TakeIn(dest: array<char>, buf: array<char>, m: string, ghost held: string) returns (text: string)
    requires dest != buf && Terminated(dest[..])
    requires |m| < buf.Length && NUL !in m && Holding(buf, held)
    requires |Text(dest[..])| + |Overlay(held, m)| + 1 < dest.Length
    modifies dest, buf
    ensures text == Overlay(held, m) && Holding(buf, text)
    ensures Terminated(dest[..]) && Text(dest[..]) == old(Text(dest[..])) + (text + "\n")
  {
    hide Text;
    Receive(buf, m, held);
    text := Read(buf, 0);
    assert buf[0..] == buf[..];
    StrCat(dest, text + "\n");
  }

  /** The loop of get_name and of get_message: append each received text and a newline to dest. */
  method Drain(dest: array<char>, msgs: seq<string>, size: nat)
    requires Terminated(dest[..]) && size > 0
    requires forall m :: m in msgs ==> |m| < size && NUL !in m
    requires |Text(dest[..])| + |Render(Drained("", msgs))| < dest.Length
    modifies dest
    ensures Terminated(dest[..]) && Text(dest[..]) == old(Text(dest[..])) + Render(Drained("", msgs))
  {
    hide Text, Drained, Render, Overlay, Holding;
    ghost var all := Drained("", msgs);
    ghost var start := Text(dest[..]);
    ghost var held, done := "", [];
    NothingDrained(start);
    var buf := NewBuffer(size);
    assert msgs[0..] == msgs && [] + all == all;
    for i := 0 to |msgs|
      invariant fresh(buf) && buf.Length == size && Holding(buf, held)
      invariant all == done + Drained(held, msgs[i..])
      invariant Terminated(dest[..]) && Text(dest[..]) == start + Render(done)
    {
      assert msgs[i] in msgs;
      DrainOne(all, done, held, msgs[i..]);
      assert msgs[i..][1..] == msgs[i + 1..];
      var text := TakeIn(dest, buf, msgs[i], held);
      held, done := text, done + [text];
    }
    assert msgs[|msgs|..] == [] && done + [] == done;
    NothingDrained(held);
  }

  method NewBuffer(size: nat) returns (buf: array<char>)
    requires size > 0
    ensures fresh(buf) && buf.Length == size && Holding(buf, "")
  {
    buf := new char[size](_ => NUL);
  }

  lemma {:induction false} NothingDrained(s: string)
    ensures Drained(s, []) == [] && s + Render([]) == s
  {
  }

  lemma {:induction false} DrainOne(all: seq<string>, done: seq<string>, held: string, todo: seq<string>)
    requires todo != [] && all == done + Drained(held, todo)
    ensures var text := Overlay(held, todo[0]);
            && all == done + [text] + Drained(text, todo[1..])
            && Render(done + [text]) == Render(done) + (text + "\n")
            && |Render(done)| + |text| + 1 <= |Render(all)|
  {
    var text := Overlay(held, todo[0]);
    assert all == done + [text] + Drained(text, todo[1..]);
    RenderConcat(done + [text], Drained(text, todo[1..]));
    RenderConcat(done, [text]);
    assert Render([text]) == text + "\n" + Render([]);
  }

  // ---------- Sending snapshots ----------

  /** mq_send on a non-blocking queue of ten: a full queue refuses. */
  function Offer(q: seq<string>, text: string): seq<string> {
    if |q| < QUEUE_SIZE then q + [text] else q
  }

  /** What clients leave after taking at most n messages. */
  function Taken(q: seq<string>, n: nat): seq<string> {
    if n < |q| then q[n..] else []
  }

  /** users copies are offered; before copy i the clients take takes(i) messages. */
  function Offers(q: seq<string>, text: string, users: nat, takes: nat -> nat): seq<string> {
    if users == 0 then q
    else Offer(Taken(Offers(q, text, users - 1, takes), takes(users - 1)), text)
  }

  lemma OffersStart(q: seq<string>, text: string, takes: nat -> nat)
    ensures Offers(q, text, 0, takes) == q
  {
  }

  lemma OffersNext(q: seq<string>, text: string, n: nat, takes: nat -> nat)
    ensures Offers(q, text, n + 1, takes) == Offer(Taken(Offers(q, text, n, takes), takes(n)), text)
  {
  }

  function Copies(text: string, n: nat): seq<string> {
    seq(n, _ => text)
  }

  /** What users offers of text have made of q, a queue of ten; takes(i) is how many messages the clients
      take before offer i. */
  ghost predicate Sent(q: seq<string>, text: string, users: nat, takes: nat -> nat, q': seq<string>)
    requires |q| <= 10
  {
    && |q'| <= 10
    // the clients take nothing: copies are added while there is room
    && ((forall i :: 0 <= i < users ==> takes(i) == 0) ==>
          q' == q + Copies(text, if users <= 10 - |q| then users else 10 - |q|))
    // the clients empty the queue before each offer: one copy is there
    && (users > 0 && (forall i :: 0 <= i < users ==> takes(i) >= 10) ==> q' == [text])
    // in any case: some newest part of the queue, and copies
    && (exists d: nat, n: nat :: d <= |q| && n <= users && q' == q[d..] + Copies(text, n))
    // the last offer found room
    && (users > 0 && (takes(users - 1) > 0 || |q'| < 10) ==> q' != [] && q'[|q'| - 1] == text)
  }

  lemma {:induction false} OffersSent(q: seq<string>, text: string, users: nat, takes: nat -> nat)
    requires |q| <= 10
    ensures Sent(q, text, users, takes, Offers(q, text, users, takes))
  {
    hide Offers;
    if users == 0 {
      OffersStart(q, text, takes);
      assert q[0..] + Copies(text, 0) == q == q + Copies(text, 0);
    } else {
      OffersSent(q, text, users - 1, takes);
      OffersNext(q, text, users - 1, takes);
      SentNext(q, text, users - 1, takes, Offers(q, text, users - 1, takes));
    }
  }

  lemma {:induction false} SentNext(q: seq<string>, text: string, users: nat, takes: nat -> nat, p: seq<string>)
    requires |q| <= 10 && Sent(q, text, users, takes, p)
    ensures Sent(q, text, users + 1, takes, Offer(Taken(p, takes(users)), text))
  {
    SuffixKept(q, text, users, p, takes(users));
    OfferFacts(p, text, takes(users));
    hide Taken, Offer, Copies;
    var n := if users <= 10 - |q| then users else 10 - |q|;
    if forall i :: 0 <= i < users + 1 ==> takes(i) == 0 {
      assert p == q + Copies(text, n);
      CopiesMore(q, text, n);
    }
  }

  lemma {:induction false} OfferFacts(p: seq<string>, text: string, take: nat)
    requires |p| <= 10
    ensures var q := Offer(Taken(p, take), text);
            && |q| <= 10 && (take == 0 ==> q == if |p| < 10 then p + [text] else p)
            && (take >= 10 ==> q == [text])
            && (take > 0 || |q| < 10 ==> q != [] && q[|q| - 1] == text)
  {
  }

  lemma {:induction false} CopiesMore(q: seq<string>, text: string, n: nat)
    ensures |q + Copies(text, n)| == |q| + n
    ensures q + Copies(text, n) + [text] == q + Copies(text, n + 1)
  {
  }

  lemma {:induction false} SuffixKept(q: seq<string>, text: string, users: nat, p: seq<string>, take: nat)
    requires exists d: nat, n: nat :: d <= |q| && n <= users && p == q[d..] + Copies(text, n)
    ensures exists d: nat, n: nat :: d <= |q| && n <= users + 1 && Offer(Taken(p, take), text) == q[d..] + Copies(text, n)
  {
    var d: nat, n: nat :| d <= |q| && n <= users && p == q[d..] + Copies(text, n);
    var m := |q| - d;
    var d', n' := if take < m then d + take else |q|, if take < m then n else if take < |p| then |p| - take else 0;
    assert Taken(p, take) == q[d'..] + Copies(text, n');
    CopiesMore(q[d'..], text, n');
    assert q[d'..] + Copies(text, n' + 1) == q[d'..] + Copies(text, n') + [text];
  }

  // ---------- The server ----------

  /** What the buffers and queues stand for. */
  datatype View = View(names: seq<string>, log: seq<string>, nameQ: seq<string>, chatQ: seq<string>)

  /** What the clients do around one pass of the main loop. */
  datatype Input = Input(joins: seq<string>, messages: seq<string>, leave: Option<string>,
                         takeNames: nat -> nat, takeChat: nat -> nat)

  function Leaver(i: Input): string {
    match i.leave case Some(n) => n case None => ""
  }

  function PassView(v: View, i: Input): View {
    var names := v.names + Drained("", i.joins);
    var log := v.log + Drained("", i.messages);
    View(
      Without(NonEmpty(names), Leaver(i)),
      log,
      Offers(v.nameQ, Render(names), |names|, i.takeNames),
      if log == [] then v.chatQ else Offers(v.chatQ, Render(log), |names|, i.takeChat))
  }

  function RunView(v: View, inputs: seq<Input>): View {
    if inputs == [] then v
    else PassView(RunView(v, inputs[..|inputs| - 1]), inputs[|inputs| - 1])
  }

  /** Single lines that leave room for a newline and NUL in name[20] and message[350]. */
  predicate Sendable(i: Input) {
    && (forall m :: m in i.joins ==> OneLine(m) && |m| <= 18)
    && (forall m :: m in i.messages ==> OneLine(m) && |m| <= 348)
    && (i.leave.Some? ==> OneLine(i.leave.value) && |i.leave.value| <= 19)
  }

  predicate Fits(v: View, i: Input) {
    && |Render(v.names + Drained("", i.joins))| < 4096
    && |Render(v.log + Drained("", i.messages))| < 8192
  }

  predicate Clean(v: View) {
    && (forall n :: n in v.names ==> OneLine(n) && n != "")
    && (forall l :: l in v.log ==> OneLine(l))
  }

  class Server {
    const nameList: array<char>
    const chat: array<char>
    const strtok: Tokenizer
    var nameListQ: seq<string>
    var chatQ: seq<string>

    ghost predicate Shows(v: View)
      reads this, nameList, chat
    {
      && nameList.Length == 4096 && chat.Length == 8192 && nameList != chat
      && Terminated(nameList[..]) && Terminated(chat[..])
      && Text(nameList[..]) == Render(v.names) && Text(chat[..]) == Render(v.log)
      && nameListQ == v.nameQ && chatQ == v.chatQ
    }

    constructor ()
      ensures fresh(nameList) && fresh(chat) && fresh(strtok)
      ensures Shows(View([], [], [], []))
    {
      nameList := new char[4096](_ => NUL);
      chat := new char[8192](_ => NUL);
      strtok := new Tokenizer();
      nameListQ, chatQ := [], [];
      new;
      assert nameList[..][0] == NUL && chat[..][0] == NUL;
      TextUnique(nameList[..], 0);
      TextUnique(chat[..], 0);
    }

    /** users_number: lines are counted up to and including the terminator's cell. */
    method UsersNumber() returns (count: nat)
      requires Terminated(nameList[..])
      ensures count == Count(Text(nameList[..]), '\n')
    {
      ghost var s := Text(nameList[..]);
      var n := StrLen(nameList);
      count := 0;
      var i := 0;
      while i <= n
        invariant 0 <= i <= n + 1
        invariant count == Count(if i <= n then s[..i] else s, '\n')
      {
        if i < n {
          assert nameList[i] == s[i] && s[..i + 1] == s[..i] + [s[i]];
          CountConcat(s[..i], [s[i]], '\n');
        } else {
          assert s[..i] == s && nameList[i] == NUL;
        }
        if nameList[i] == '\n' {
          count := count + 1;
        }
        i := i + 1;
      }
    }

    method SendNameList(users: nat, takes: nat -> nat)
      requires Terminated(nameList[..])
      modifies this`nameListQ
      ensures nameListQ == Offers(old(nameListQ), Text(nameList[..]), users, takes)
      ensures |old(nameListQ)| <= 10 ==> Sent(old(nameListQ), Text(nameList[..]), users, takes, nameListQ)
    {
      hide Text, Offers, Offer, Taken, Sent;
      OffersStart(nameListQ, Text(nameList[..]), takes);
      if |nameListQ| <= 10 {
        OffersSent(nameListQ, Text(nameList[..]), users, takes);
      }
      var text := Read(nameList, 0);
      assert nameList[0..] == nameList[..];
      for i := 0 to users
        invariant nameListQ == Offers(old(nameListQ), text, i, takes)
      {
        OffersNext(old(nameListQ), text, i, takes);
        nameListQ := Taken(nameListQ, takes(i));
        nameListQ := Offer(nameListQ, text);
      }
    }

    method SendChat(users: nat, takes: nat -> nat)
      requires Terminated(chat[..])
      modifies this`chatQ
      ensures chatQ == if Text(chat[..]) == "" then old(chatQ) else Offers(old(chatQ), Text(chat[..]), users, takes)
      ensures Text(chat[..]) != "" && |old(chatQ)| <= 10 ==> Sent(old(chatQ), Text(chat[..]), users, takes, chatQ)
    {
      hide Text, Offers, Offer, Taken, Sent;
      if |chatQ| <= 10 {
        OffersSent(chatQ, Text(chat[..]), users, takes);
      }
      OffersStart(chatQ, Text(chat[..]), takes);
      var size := StrLen(chat);
      var text := Read(chat, 0);
      assert chat[0..] == chat[..];
      var i := 0;
      while i < users
        invariant 0 <= i <= users
        invariant i > 0 ==> size != 0
        invariant chatQ == Offers(old(chatQ), text, i, takes)
      {
        if size == 0 {
          break;
        }
        OffersNext(old(chatQ), text, i, takes);
        chatQ := Taken(chatQ, takes(i));
        chatQ := Offer(chatQ, text);
        i := i + 1;
      }
    }

    /** delete_name: at most one leaver a pass; blank lines go with him. */
    method DeleteName(leave: Option<string>, ghost names: seq<string>)
      requires nameList.Length == 4096 && Terminated(nameList[..]) && Text(nameList[..]) == Render(names)
      requires forall n :: n in names ==> OneLine(n)
      modifies nameList, strtok
      ensures Terminated(nameList[..])
      ensures Text(nameList[..]) == Render(Without(NonEmpty(names), match leave case Some(n) => n case None => ""))
    {
      hide Text, Tokens;
      TextShorter(nameList[..]);
      TokensOfRender(names);
      MemberOfNonEmpty(names);
      var buf := CopyOf(nameList, 4096);
      Clear(nameList);
      var name := match leave case Some(n) => n case None => "";
      Rebuild(strtok, buf, nameList, name);
    }

    /** One turn of the main loop. */
    method Pass(i: Input, ghost v: View)
      requires Shows(v) && Clean(v) && Sendable(i) && Fits(v, i)
      modifies this, nameList, chat, strtok
      ensures Shows(PassView(v, i)) && Clean(PassView(v, i))
    {
      hide Text, Tokens, Offers, Drained, Render, Without, NonEmpty, Count;
      PassClean(v, i);
      ghost var names := v.names + Drained("", i.joins);
      ghost var log := v.log + Drained("", i.messages);
      RenderConcat(v.names, Drained("", i.joins));
      RenderConcat(v.log, Drained("", i.messages));
      CountRender(names);
      RenderBlank(log);
      Drain(nameList, i.joins, 20);
      var users := UsersNumber();
      SendNameList(users, i.takeNames);
      Drain(chat, i.messages, 350);
      SendChat(users, i.takeChat);
      DeleteName(i.leave, names);
    }

    /** The main loop, for as long as the clients keep it busy. */
    method Run(inputs: seq<Input>, ghost v: View)
      requires Shows(v) && Clean(v)
      requires forall k :: 0 <= k < |inputs| ==> Sendable(inputs[k]) && Fits(RunView(v, inputs[..k]), inputs[k])
      modifies this, nameList, chat, strtok
      ensures Shows(RunView(v, inputs)) && Clean(RunView(v, inputs))
    {
      hide Text;
      for k := 0 to |inputs|
        invariant Shows(RunView(v, inputs[..k])) && Clean(RunView(v, inputs[..k]))
      {
        assert inputs[..k + 1][..k] == inputs[..k];
        Pass(inputs[k], RunView(v, inputs[..k]));
      }
      assert inputs[..|inputs|] == inputs;
    }
  }

  lemma RenderBlank(lines: seq<string>)
    ensures Render(lines) == "" <==> lines == []
  {
  }

  lemma {:induction false} PassClean(v: View, i: Input)
    requires Clean(v) && Sendable(i)
    ensures Clean(PassView(v, i))
    ensures forall n :: n in v.names + Drained("", i.joins) ==> OneLine(n)
    ensures forall l :: l in v.log + Drained("", i.messages) ==> OneLine(l)
  {
    DrainedClean("", i.joins);
    DrainedClean("", i.messages);
    var names := v.names + Drained("", i.joins);
    MemberOfNonEmpty(names);
    MemberOfWithout(NonEmpty(names), Leaver(i));
  }

  // ---------- The user list over a run ----------

  const START := View([], [], [], [])

  /** A pass in which nobody comes or goes leaves the list as it is. */
  lemma {:induction false} QuietPass(v: View, i: Input)
    requires Clean(v) && i.joins == [] && i.leave == None
    ensures PassView(v, i).names == v.names
  {
    assert v.names + Drained("", i.joins) == v.names;
    NonEmptyIdentity(v.names);
    assert "" !in v.names;
    MemberOfWithout(NonEmpty(v.names), "");
  }

  /** The names as they were sent, joined and taken out pass by pass. */
  function Expected(inputs: seq<Input>): seq<string> {
    if inputs == [] then []
    else
      var i := inputs[|inputs| - 1];
      Without(NonEmpty(Expected(inputs[..|inputs| - 1]) + i.joins), Leaver(i))
  }

  ghost predicate Joined(n: string, i: Input) {
    n in i.joins
  }

  /** n arrived in some pass and was not the one taken out in that pass or a later one. */
  ghost predicate Stayed(n: string, inputs: seq<Input>) {
    exists k :: 0 <= k < |inputs| && Joined(n, inputs[k]) && forall m :: k <= m < |inputs| ==> Leaver(inputs[m]) != n
  }

  lemma {:induction false} StayedStep(n: string, front: seq<Input>, i: Input)
    ensures Stayed(n, front + [i]) <==> Leaver(i) != n && (Stayed(n, front) || Joined(n, i))
  {
    hide Joined, Leaver;
    var all := front + [i];
    if Stayed(n, all) {
      var k :| 0 <= k < |all| && Joined(n, all[k]) && forall m :: k <= m < |all| ==> Leaver(all[m]) != n;
      assert Leaver(all[|front|]) != n;
      if k < |front| {
        assert Joined(n, front[k]);
        assert forall m :: k <= m < |front| ==> front[m] == all[m];
      }
    }
    if Leaver(i) != n && Joined(n, i) {
      assert Joined(n, all[|front|]);
    }
    if Leaver(i) != n && Stayed(n, front) {
      var k :| 0 <= k < |front| && Joined(n, front[k]) && forall m :: k <= m < |front| ==> Leaver(front[m]) != n;
      assert Joined(n, all[k]);
      assert forall m :: k <= m < |front| ==> front[m] == all[m];
    }
  }

  /** A name is expected exactly when it is not blank and its bearer came and stayed. */
  lemma {:induction false} ExpectedExactly(inputs: seq<Input>, n: string)
    ensures n in Expected(inputs) <==> n != "" && Stayed(n, inputs)
  {
    if inputs != [] {
      var front, i := inputs[..|inputs| - 1], inputs[|inputs| - 1];
      assert inputs == front + [i];
      ExpectedExactly(front, n);
      StayedStep(n, front, i);
      MemberOfNonEmpty(Expected(front) + i.joins);
      MemberOfWithout(NonEmpty(Expected(front) + i.joins), Leaver(i));
    }
  }

  /** The same inputs with each name as it reads in the buffer. */
  function AsReceived(inputs: seq<Input>): (r: seq<Input>)
    ensures |r| == |inputs|
    ensures forall k :: 0 <= k < |inputs| ==> r[k] == inputs[k].(joins := Drained("", inputs[k].joins))
  {
    seq(|inputs|, k requires 0 <= k < |inputs| => inputs[k].(joins := Drained("", inputs[k].joins)))
  }

  /** For any names, the list holds what the buffer made of them. */
  lemma {:induction false} ListedAsReceived(inputs: seq<Input>)
    ensures RunView(START, inputs).names == Expected(AsReceived(inputs))
  {
    if inputs != [] {
      ListedAsReceived(inputs[..|inputs| - 1]);
      assert AsReceived(inputs)[..|inputs| - 1] == AsReceived(inputs[..|inputs| - 1]);
    }
  }

  /** In each pass no joining name is shorter than one before it. */
  ghost predicate NoJoinShrinks(inputs: seq<Input>) {
    forall k :: 0 <= k < |inputs| ==> NeverShrinks(inputs[k].joins)
  }

  lemma {:induction false} NoJoinShrinksLast(front: seq<Input>, i: Input)
    ensures NoJoinShrinks(front + [i]) <==> NoJoinShrinks(front) && NeverShrinks(i.joins)
  {
    hide NeverShrinks;
    var all := front + [i];
    assert all[|front|] == i && forall k :: 0 <= k < |front| ==> all[k] == front[k];
  }

  lemma {:induction false} NamesExact(inputs: seq<Input>)
    requires NoJoinShrinks(inputs)
    ensures RunView(START, inputs).names == Expected(inputs)
  {
    if inputs != [] {
      var front, i := inputs[..|inputs| - 1], inputs[|inputs| - 1];
      assert inputs == front + [i];
      NoJoinShrinksLast(front, i);
      NamesExact(front);
      DrainedExact("", i.joins);
      BlankNeverShrinks(i.joins);
    }
  }

  /** Pass k sends its users the names that are expected, those joining in it included. */
  ghost predicate SentRight(inputs: seq<Input>, k: nat)
    requires k < |inputs|
  {
    ListAtPass(Render(Expected(inputs[..k]) + inputs[k].joins), inputs, k)
  }

  lemma {:induction false} SentRightWhen(inputs: seq<Input>, k: nat)
    requires k < |inputs| && NoJoinShrinks(inputs[..k])
    ensures SentRight(inputs, k) <==> NeverShrinks(inputs[k].joins)
  {
    hide Drained, NeverShrinks, Render;
    var names, joins := Expected(inputs[..k]), inputs[k].joins;
    NamesExact(inputs[..k]);
    RenderConcat(names, joins);
    RenderConcat(names, Drained("", joins));
    DrainedExact("", joins);
    BlankNeverShrinks(joins);
  }

  /** Every pass sends the right list exactly when in no pass a name joins after a longer one. */
  lemma {:induction false} ListsExact(inputs: seq<Input>)
    ensures (forall k :: 0 <= k < |inputs| ==> SentRight(inputs, k)) <==> NoJoinShrinks(inputs)
  {
    hide SentRight, NeverShrinks, RunView;
    if inputs != [] {
      var last := |inputs| - 1;
      var front, i := inputs[..last], inputs[last];
      assert inputs == front + [i];
      NoJoinShrinksLast(front, i);
      ListsExact(front);
      forall k | 0 <= k < last
        ensures SentRight(inputs, k) <==> SentRight(front, k)
      {
        SentEarlier(front, i, k);
      }
      if NoJoinShrinks(front) {
        SentRightWhen(inputs, last);
      }
    }
  }

  lemma {:induction false} SentEarlier(front: seq<Input>, i: Input, k: nat)
    requires k < |front|
    ensures SentRight(front + [i], k) <==> SentRight(front, k)
  {
    assert (front + [i])[..k] == front[..k];
  }

  /** While no name joins after a longer one in its pass, a name is listed exactly when it is not blank
      and its bearer came and stayed. */
  lemma {:induction false} ListedExactly(inputs: seq<Input>, n: string)
    requires NoJoinShrinks(inputs)
    ensures n in RunView(START, inputs).names <==> n != "" && Stayed(n, inputs)
  {
    NamesExact(inputs);
    ExpectedExactly(inputs, n);
  }

  /** "anna" and "bo" join in one pass: "bona" is listed, and is still there when "bo" has left. */
  lemma {:induction false} MangledName(i: Input, j: Input)
    requires i.joins == ["anna", "bo"] && i.leave == None && j.joins == [] && j.leave == Some("bo")
    ensures RunView(START, [i]).names == RunView(START, [i, j]).names == ["anna", "bona"]
    ensures Expected([i]) == ["anna", "bo"] && Expected([i, j]) == ["anna"]
    ensures !SentRight([i], 0)
  {
    var received, sent := ["anna", "bona"], ["anna", "bo"];
    MangledDrain();
    TwoKept("anna", "bona", "bo");
    TwoKept("anna", "bo", "bo");
    RunFirst(i);
    assert [i, j][..1] == [i] && [i][..0] == [];
    hide Drained, NonEmpty, Without, Offers, Render, SentRight;
    assert START.names + received == received && received + [] == received && sent + [] == sent && [] + sent == sent;
    assert PassView(START, i).names == received;
    SentRightWhen([i], 0);
    assert |sent[0]| > |sent[1]|;
  }

  lemma {:induction false} MangledDrain()
    ensures Drained("", ["anna", "bo"]) == ["anna", "bona"] && Drained("", []) == []
  {
    assert Overlay("", "anna") == "anna" && Overlay("anna", "bo") == "bona" && ["anna", "bo"][1..] == ["bo"];
  }

  lemma {:induction false} TwoKept(m: string, n: string, leaver: string)
    requires m != "" && n != "" && leaver != "" && m != leaver
    ensures NonEmpty([m, n]) == [m, n] && Without([m, n], "") == [m, n]
    ensures Without([m, n], leaver) == if n == leaver then [m] else [m, n]
  {
    assert [m, n][1..] == [n] && [n][1..] == [];
    NonEmptyIdentity([m, n]);
    MemberOfWithout([m, n], "");
    MemberOfWithout([n], leaver);
    if n == leaver {
      assert Without([n], leaver) == [];
    }
  }

  // ---------- The log over a run ----------

  function AllMessages(inputs: seq<Input>): seq<string> {
    if inputs == [] then []
    else AllMessages(inputs[..|inputs| - 1]) + inputs[|inputs| - 1].messages
  }

  /** In each pass no message is shorter than one before it. */
  ghost predicate NoDrainShrinks(inputs: seq<Input>) {
    forall k :: 0 <= k < |inputs| ==> NeverShrinks(inputs[k].messages)
  }

  /** The log is the messages in order, one to a line, exactly when no drain shrinks. */
  lemma {:induction false} LogExact(inputs: seq<Input>)
    ensures Render(RunView(START, inputs).log) == Render(AllMessages(inputs)) <==> NoDrainShrinks(inputs)
  {
    LogLength(inputs);
  }

  /** Leftovers only lengthen the log, so equal length means equal text. */
  lemma {:induction false} LogLength(inputs: seq<Input>)
    ensures |Render(RunView(START, inputs).log)| >= |Render(AllMessages(inputs))|
    ensures |Render(RunView(START, inputs).log)| == |Render(AllMessages(inputs))| <==> NoDrainShrinks(inputs)
    ensures NoDrainShrinks(inputs) ==> RunView(START, inputs).log == AllMessages(inputs)
  {
    hide Render, Drained, NeverShrinks;
    if inputs != [] {
      var front, i := inputs[..|inputs| - 1], inputs[|inputs| - 1];
      var before, drained := RunView(START, front).log, Drained("", i.messages);
      LogLength(front);
      DrainedExact("", i.messages);
      BlankNeverShrinks(i.messages);
      RenderConcat(before, drained);
      RenderConcat(AllMessages(front), i.messages);
      assert inputs == front + [i];
      assert NoDrainShrinks(inputs) <==> NoDrainShrinks(front) && NeverShrinks(i.messages);
    }
  }

  lemma {:induction false} BlankNeverShrinks(msgs: seq<string>)
    ensures NeverShrinks([""] + msgs) <==> NeverShrinks(msgs)
  {
    if msgs != [] {
      ShrinkStep("", msgs[0], msgs[1..]);
      assert msgs == [msgs[0]] + msgs[1..];
    }
  }

  /** One drain in which a shorter message follows a longer one leaves part of the longer one behind. */
  lemma LeftoverExample()
    ensures Drained("", ["[ann]: hello", "[bo]: hi"]) == ["[ann]: hello", "[bo]: hiello"]
  {
    assert Overlay("", "[ann]: hello") == "[ann]: hello";
    assert Overlay("[ann]: hello", "[bo]: hi") == "[bo]: hiello";
    assert ["[ann]: hello", "[bo]: hi"][1..] == ["[bo]: hi"];
  }

  // ---------- The snapshots waiting for the clients ----------

  /** Oldest first, each a part of the next, and all of them beginnings of the log. */
  predicate PrefixChain(q: seq<string>, log: string) {
    && |q| <= QUEUE_SIZE
    && (forall i :: 0 <= i < |q| ==> q[i] != "" && q[i] <= log)
    && (forall i, j :: 0 <= i < j < |q| ==> q[i] <= q[j])
  }

  lemma {:induction false} OffersChain(q: seq<string>, text: string, users: nat, takes: nat -> nat)
    requires PrefixChain(q, text) && text != ""
    ensures PrefixChain(Offers(q, text, users, takes), text)
  {
    if users > 0 {
      OffersChain(q, text, users - 1, takes);
      var before := Offers(q, text, users - 1, takes);
      hide PrefixChain, Taken, Offer;
      TakenChain(before, text, takes(users - 1));
      OfferChain(Taken(before, takes(users - 1)), text);
    }
  }

  lemma TakenChain(q: seq<string>, text: string, n: nat)
    requires PrefixChain(q, text)
    ensures PrefixChain(Taken(q, n), text)
  {
  }

  lemma OfferChain(q: seq<string>, text: string)
    requires PrefixChain(q, text) && text != ""
    ensures PrefixChain(Offer(q, text), text)
  {
  }

  /** In every run the queued snapshots of the log form a chain of beginnings of the present log. */
  lemma {:induction false} SnapshotsChain(inputs: seq<Input>)
    ensures PrefixChain(RunView(START, inputs).chatQ, Render(RunView(START, inputs).log))
  {
    if inputs != [] {
      var last := |inputs| - 1;
      var front, i := inputs[..last], inputs[last];
      SnapshotsChain(front);
      var v := RunView(START, front);
      var log := v.log + Drained("", i.messages);
      RenderConcat(v.log, Drained("", i.messages));
      assert Render(v.log) <= Render(log);
      if log != [] {
        OffersChain(v.chatQ, Render(log), |v.names + Drained("", i.joins)|, i.takeChat);
      }
    }
  }

  /** text was the user list while pass k was sending it. */
  ghost predicate ListAtPass(text: string, inputs: seq<Input>, k: nat)
    requires k < |inputs|
  {
    text == Render(RunView(START, inputs[..k]).names + Drained("", inputs[k].joins))
  }

  ghost predicate Genuine(text: string, inputs: seq<Input>) {
    exists k :: 0 <= k < |inputs| && ListAtPass(text, inputs, k)
  }

  lemma {:induction false} GenuineLater(text: string, front: seq<Input>, i: Input)
    requires Genuine(text, front)
    ensures Genuine(text, front + [i])
  {
    var k :| 0 <= k < |front| && ListAtPass(text, front, k);
    assert (front + [i])[..k] == front[..k];
    assert ListAtPass(text, front + [i], k);
  }

  lemma {:induction false} OffersFrom(q: seq<string>, text: string, users: nat, takes: nat -> nat)
    requires |q| <= QUEUE_SIZE
    ensures var r := Offers(q, text, users, takes);
            |r| <= QUEUE_SIZE && forall t :: t in r ==> t in q || t == text
  {
    if users > 0 {
      OffersFrom(q, text, users - 1, takes);
    }
  }

  /** In every run each queued snapshot of the users is the list as it stood in some pass, and none waits beyond ten. */
  lemma {:induction false} UserSnapshotsGenuine(inputs: seq<Input>)
    ensures var q := RunView(START, inputs).nameQ;
            |q| <= QUEUE_SIZE && forall t :: t in q ==> Genuine(t, inputs)
  {
    hide Drained, Render, Genuine, Offers;
    if inputs != [] {
      var front, i := inputs[..|inputs| - 1], inputs[|inputs| - 1];
      assert inputs == front + [i];
      UserSnapshotsGenuine(front);
      var v := RunView(START, front);
      var names := v.names + Drained("", i.joins);
      OffersFrom(v.nameQ, Render(names), |names|, i.takeNames);
      LatestGenuine(front, i);
      forall t | t in RunView(START, inputs).nameQ
        ensures Genuine(t, inputs)
      {
        if t in v.nameQ {
          GenuineLater(t, front, i);
        }
      }
    }
  }

  lemma {:induction false} LatestGenuine(front: seq<Input>, i: Input)
    ensures Genuine(Render(RunView(START, front).names + Drained("", i.joins)), front + [i])
  {
    assert (front + [i])[..|front|] == front;
    assert ListAtPass(Render(RunView(START, front).names + Drained("", i.joins)), front + [i], |front|);
  }

  /** After any run a pass sends each queue its text: the list with the pass's joins in it and before its
      leave, and the log with the pass's messages, unless that is empty. */
  lemma {:induction false} PassSends(front: seq<Input>, i: Input)
    ensures var v, v' := RunView(START, front), RunView(START, front + [i]);
            var names, log := v.names + Drained("", i.joins), v.log + Drained("", i.messages);
            && |v.nameQ| <= 10 && |v.chatQ| <= 10
            && Sent(v.nameQ, Render(names), |names|, i.takeNames, v'.nameQ)
            && (if log == [] then v'.chatQ == v.chatQ else Sent(v.chatQ, Render(log), |names|, i.takeChat, v'.chatQ))
  {
    hide Sent, Offers, Render, Drained, Genuine;
    assert (front + [i])[..|front|] == front;
    var v := RunView(START, front);
    var names, log := v.names + Drained("", i.joins), v.log + Drained("", i.messages);
    UserSnapshotsGenuine(front);
    SnapshotsChain(front);
    OffersSent(v.nameQ, Render(names), |names|, i.takeNames);
    OffersSent(v.chatQ, Render(log), |names|, i.takeChat);
  }

  /** The first pass, in which somebody joins and says something and nobody reads yet. */
  lemma {:induction false} FirstPass(i: Input, name: string, message: string)
    requires name != "" && i.joins == [name] && i.messages == [message] && i.leave == None
    requires i.takeNames(0) == 0 && i.takeChat(0) == 0
    ensures RunView(START, [i]) == View([name], [message], [name + "\n"], [message + "\n"])
  {
    hide RunView, Drained, Render, Offers, Sent, NonEmpty, Without;
    OneDrained(name);
    OneDrained(message);
    OneKept(name);
    RunFirst(i);
    PassSends([], i);
    assert [] + [name] == [name] && [] + [message] == [message] && [] + [i] == [i];
    SentOnce(name + "\n", i.takeNames, RunView(START, [i]).nameQ);
    SentOnce(message + "\n", i.takeChat, RunView(START, [i]).chatQ);
  }

  lemma {:induction false} RunFirst(i: Input)
    ensures RunView(START, []) == START && RunView(START, [i]) == PassView(START, i)
  {
    assert [i][..0] == [];
  }

  lemma {:induction false} SentOnce(text: string, takes: nat -> nat, q: seq<string>)
    requires Sent([], text, 1, takes, q) && takes(0) == 0
    ensures q == [text]
  {
    assert [] + Copies(text, 1) == [text];
  }

  lemma {:induction false} OneKept(m: string)
    requires m != ""
    ensures Without(NonEmpty([m]), "") == [m]
  {
    NonEmptyIdentity([m]);
    MemberOfWithout([m], "");
  }

  lemma {:induction false} OneDrained(m: string)
    ensures Drained("", [m]) == [m] && Render([m]) == m + "\n"
  {
    assert [m][1..] == [] && [m] + [] == [m];
    assert Render([m]) == m + "\n" + Render([]);
  }
}
