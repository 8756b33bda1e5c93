/** The request loop of the block device: a write segment is stored only if it begins with
    "hello", at the start of its request; a read is answered only while the counter is not zero. */
module BlockDevice {
  import opened Types

  const SECTOR: nat := 512
  const CAPACITY: nat := 8  // a page of 4096 bytes, in sectors
  const DEV_SIZE: nat := CAPACITY * SECTOR
  const COUNTER_RANGE: nat := 0x1_0000

  const HELLO: seq<byte> := [104, 101, 108, 108, 111]
  const HI: seq<byte> := [72, 105, 33, 10, 0]  // "Hi!\n" and its terminator

  datatype Request = Request(sector: nat, write: bool, segments: seq<seq<byte>>)

  /** What the block layer guarantees: a request starts on the device, and memcmp has bytes to read. */
  predicate WellFormed(r: Request) {
    r.sector <= CAPACITY && forall k :: 0 <= k < |r.segments| ==> |r.segments[k]| >= |HELLO|
  }

  predicate Greets(segment: seq<byte>)
    ensures Greets(segment) <==> |segment| >= 5 && segment[..5] == ['h' as int, 'e' as int, 'l' as int, 'l' as int, 'o' as int]
  {
    HELLO <= segment
  }

  datatype State = State(data: seq<byte>, counter: nat, replies: nat)

  function Overwrite(data: seq<byte>, pos: nat, s: seq<byte>): (r: seq<byte>)
    requires pos + |s| <= |data|
    ensures |r| == |data|
    ensures forall i :: 0 <= i < |data| ==> r[i] == if pos <= i < pos + |s| then s[i - pos] else data[i]
  {
    data[..pos] + s + data[pos + |s|..]
  }

  /** The device after as much of a segment as fits has been laid at pos. */
  function Laid(data: seq<byte>, pos: nat, segment: seq<byte>): (r: seq<byte>)
    requires |data| == 4096
    ensures |r| == 4096
    ensures forall i :: 0 <= i < 4096 ==> r[i] == if pos <= i < pos + |segment| then segment[i - pos] else data[i]
  {
    seq(4096, i requires 0 <= i < 4096 => if pos <= i < pos + |segment| then segment[i - pos] else data[i])
  }

  function OneSegment(s: State, pos: nat, write: bool, segment: seq<byte>): (r: State)
    requires |s.data| == DEV_SIZE && pos <= DEV_SIZE
    ensures |r.data| == DEV_SIZE
  {
    if write then
      if Greets(segment) then
        s.(data := Laid(s.data, pos, segment), counter := (s.counter + 1) % COUNTER_RANGE)
      else s
    else if s.counter > 0 then s.(counter := s.counter - 1, replies := s.replies + 1)
    else s
  }

  function Segments(s: State, pos: nat, write: bool, segments: seq<seq<byte>>): (r: State)
    requires |s.data| == DEV_SIZE && pos <= DEV_SIZE
    ensures |r.data| == DEV_SIZE
  {
    if segments == [] then s
    else OneSegment(Segments(s, pos, write, segments[..|segments| - 1]), pos, write, segments[|segments| - 1])
  }

  function Requests(s: State, rs: seq<Request>): (r: State)
    requires |s.data| == DEV_SIZE && forall k :: 0 <= k < |rs| ==> WellFormed(rs[k])
    ensures |r.data| == DEV_SIZE
    decreases |rs|
  {
    if rs == [] then s
    else
      var r := rs[|rs| - 1];
      assert WellFormed(rs[|rs| - 1]);
      Segments(Requests(s, rs[..|rs| - 1]), r.sector * SECTOR, r.write, r.segments)
  }

  class Device {
    const data: array<byte>
    var counter: nat
    ghost var replies: nat

    ghost predicate Shows(s: State)
      reads this, data
    {
      data.Length == DEV_SIZE && data[..] == s.data && counter == s.counter < COUNTER_RANGE && replies == s.replies
    }

    constructor ()
      ensures Shows(State(seq(DEV_SIZE, _ => 0), 0, 0)) && fresh(data)
    {
      data := new byte[DEV_SIZE](_ => 0);
      counter, replies := 0, 0;
    }

    /** memcpy(dev->data + pos, b_buf, b_len): the destination range lies in the buffer. */
    method MemCpy(pos: nat, buf: array<byte>, len: nat)
      requires buf != data && len <= buf.Length && pos + len <= data.Length
      modifies data
      ensures data[..] == Overwrite(old(data[..]), pos, buf[..len])
    {
      for i := 0 to len
        invariant forall k :: 0 <= k < data.Length ==> data[k] == if pos <= k < pos + i then buf[k - pos] else old(data[k])
      {
        data[pos + i] := buf[i];
      }
      assert data[..] == Overwrite(old(data[..]), pos, buf[..len]);
    }

    method MemCmp(buf: array<byte>) returns (same: bool)
      requires buf.Length >= 5
      ensures same <==> Greets(buf[..])
    {
      var i := 0;
      while i < 5 && buf[i] == HELLO[i]
        invariant 0 <= i <= 5 && buf[..i] == HELLO[..i]
      {
        i := i + 1;
      }
      same := i == 5;
      if same {
        assert buf[..5] == HELLO;
      } else {
        assert buf[..][i] != HELLO[i];
      }
    }

    /** The body of the segment loop; bBuf is the segment's page, which a read is answered into. */
    method Segment(pos: nat, write: bool, bBuf: array<byte>, ghost s: State)
      requires Shows(s) && pos <= DEV_SIZE && bBuf.Length >= |HELLO| && bBuf != data
      modifies this, data, bBuf
      ensures Shows(OneSegment(s, pos, write, old(bBuf[..])))
      ensures write && old(Greets(bBuf[..])) ==>
                (forall i :: 0 <= i < 4096 ==> data[i] == old(if pos <= i < pos + bBuf.Length then bBuf[i - pos] else data[i]))
                && counter == (old(counter) + 1) % 65536
      ensures !(write && old(Greets(bBuf[..]))) ==>
                data[..] == old(data[..]) && counter == if write || old(counter) == 0 then old(counter) else old(counter) - 1
      ensures bBuf[..] == old(if !write && counter > 0 then ['H' as int, 'i' as int, '!' as int, '\n' as int, 0] + bBuf[5..] else bBuf[..])
    {
      var bLen := bBuf.Length;
      var compare := MemCmp(bBuf);
      if pos + bLen > DEV_SIZE {
        bLen := DEV_SIZE - pos;
      }
      if write {
        if compare {
          MemCpy(pos, bBuf, bLen);
          assert data[..] == Laid(s.data, pos, bBuf[..]);
          counter := (counter + 1) % COUNTER_RANGE;
        }
      } else {
        if counter != 0 {
          forall i | 0 <= i < 5 {
            bBuf[i] := HI[i];
          }
          counter := counter - 1;
          replies := replies + 1;
        }
      }
    }

    /** do_simple_request: every segment is laid at the position where the request starts. */
    method DoSimpleRequest(sector: nat, write: bool, segments: seq<array<byte>>, ghost s: State, ghost contents: seq<seq<byte>>)
      requires Shows(s) && sector <= CAPACITY
      requires |contents| == |segments| && forall k :: 0 <= k < |segments| ==> segments[k][..] == contents[k]
      requires forall k :: 0 <= k < |segments| ==> segments[k].Length >= |HELLO| && segments[k] != data
      requires forall j, k :: 0 <= j < k < |segments| ==> segments[j] != segments[k]
      modifies this, data, set k | 0 <= k < |segments| :: segments[k]
      ensures Shows(Segments(s, sector * SECTOR, write, contents))
      ensures forall k :: 0 <= k < |segments| ==>
                segments[k][..] == if !write && k < s.counter then ['H' as int, 'i' as int, '!' as int, '\n' as int, 0] + contents[k][5..]
                                   else contents[k]
    {
      var pos := sector * SECTOR;
      for k := 0 to |segments|
        invariant Shows(Segments(s, pos, write, contents[..k]))
        invariant forall m :: k <= m < |segments| ==> segments[m][..] == contents[m]
        invariant forall m :: 0 <= m < k ==> segments[m][..] == if !write && m < s.counter then HI + contents[m][5..] else contents[m]
      {
        hide Segments, OneSegment;
        SegmentsNext(s, pos, write, contents, k);
        ReadCounter(s, pos, contents[..k]);
        Segment(pos, write, segments[k], Segments(s, pos, write, contents[..k]));
      }
      assert contents[..|contents|] == contents;
    }
  }

  lemma {:induction false} SegmentsNext(s: State, pos: nat, write: bool, segments: seq<seq<byte>>, k: nat)
    requires |s.data| == DEV_SIZE && pos <= DEV_SIZE && k < |segments|
    ensures Segments(s, pos, write, segments[..k + 1]) == OneSegment(Segments(s, pos, write, segments[..k]), pos, write, segments[k])
  {
    assert segments[..k + 1][..k] == segments[..k];
  }

  /** Each read segment costs one count while there are any. */
  lemma {:induction false} ReadCounter(s: State, pos: nat, segments: seq<seq<byte>>)
    requires |s.data| == DEV_SIZE && pos <= DEV_SIZE
    ensures Segments(s, pos, false, segments).counter == if |segments| < s.counter then s.counter - |segments| else 0
  {
    if segments != [] {
      ReadCounter(s, pos, segments[..|segments| - 1]);
    }
  }

  // ---------- What the device ends up holding ----------

  /** Segment m of request k is a greeting written over cell i. */
  predicate Hits(rs: seq<Request>, k: nat, m: nat, i: nat) {
    && k < |rs| && m < |rs[k].segments| && rs[k].write && Greets(rs[k].segments[m])
    && rs[k].sector * 512 <= i < rs[k].sector * 512 + |rs[k].segments[m]|
  }

  predicate Later(k: nat, m: nat, k': nat, m': nat) {
    k < k' || (k == k' && m < m')
  }

  /** Cell i holds what the last greeting written over it has there, or what it held at first. */
  ghost predicate LastWriterWins(before: seq<byte>, rs: seq<Request>, after: seq<byte>, i: nat)
    requires |before| == |after| == 4096 && i < 4096
  {
    || (after[i] == before[i] && forall k: nat, m: nat :: !Hits(rs, k, m, i))
    || (exists k: nat, m: nat :: && Hits(rs, k, m, i) && after[i] == rs[k].segments[m][i - rs[k].sector * 512]
                                 && forall k': nat, m': nat :: Hits(rs, k', m', i) ==> !Later(k, m, k', m'))
  }

  /** One more segment at the end of the last request. */
  lemma {:induction false} LastSegment(s: State, front: seq<Request>, r: Request, segment: seq<byte>, data: seq<byte>, i: nat)
    requires |s.data| == |data| == 4096 && i < 4096 && r.sector <= CAPACITY
    requires LastWriterWins(s.data, front + [r], data, i)
    ensures var r' := r.(segments := r.segments + [segment]);
            LastWriterWins(s.data, front + [r'], if r.write && Greets(segment) then Laid(data, r.sector * SECTOR, segment) else data, i)
  {
    hide Greets;
    var k, m := |front|, |r.segments|;
    var r' := r.(segments := r.segments + [segment]);
    var rs, rs' := front + [r], front + [r'];
    var after := if r.write && Greets(segment) then Laid(data, r.sector * SECTOR, segment) else data;
    forall k': nat, m': nat
      ensures Hits(rs', k', m', i) <==> Hits(rs, k', m', i) || (k' == k && m' == m && Hits(rs', k, m, i))
      ensures Hits(rs', k', m', i) ==> !Later(k, m, k', m')
      ensures Hits(rs, k', m', i) ==> rs'[k'].segments[m'] == rs[k'].segments[m'] && rs'[k'].sector == rs[k'].sector
      ensures Hits(rs, k', m', i) ==> Later(k', m', k, m)
    {
    }
    if Hits(rs', k, m, i) {
      assert after[i] == rs'[k].segments[m][i - rs'[k].sector * 512];
    } else {
      assert after[i] == data[i];
    }
  }

  lemma {:induction false} SegmentsLast(s: State, front: seq<Request>, r: Request, n: nat, s1: State, i: nat)
    requires |s.data| == |s1.data| == 4096 && i < 4096 && r.sector <= CAPACITY && n <= |r.segments|
    requires LastWriterWins(s.data, front, s1.data, i)
    ensures LastWriterWins(s.data, front + [r.(segments := r.segments[..n])],
                           Segments(s1, r.sector * SECTOR, r.write, r.segments[..n]).data, i)
  {
    hide LastWriterWins, Laid;
    var pos := r.sector * SECTOR;
    if n == 0 {
      NoSegments(s.data, front, r.(segments := r.segments[..0]), s1.data, i);
    } else {
      SegmentsLast(s, front, r, n - 1, s1, i);
      SegmentsNext(s1, pos, r.write, r.segments, n - 1);
      assert r.segments[..n] == r.segments[..n - 1] + [r.segments[n - 1]];
      LastSegment(s, front, r.(segments := r.segments[..n - 1]), r.segments[n - 1],
                  Segments(s1, pos, r.write, r.segments[..n - 1]).data, i);
    }
  }

  lemma {:induction false} NoSegments(before: seq<byte>, front: seq<Request>, r: Request, after: seq<byte>, i: nat)
    requires |before| == |after| == 4096 && i < 4096 && r.segments == []
    requires LastWriterWins(before, front, after, i)
    ensures LastWriterWins(before, front + [r], after, i)
  {
    var rs := front + [r];
    forall k: nat, m: nat
      ensures Hits(rs, k, m, i) <==> Hits(front, k, m, i)
      ensures Hits(front, k, m, i) ==> rs[k] == front[k]
    {
    }
  }

  /** After any run of requests every cell holds what the last greeting written over it put there. */
  lemma {:induction false} DeviceContents(s: State, rs: seq<Request>, i: nat)
    requires |s.data| == 4096 && i < 4096 && forall k :: 0 <= k < |rs| ==> WellFormed(rs[k])
    ensures LastWriterWins(s.data, rs, Requests(s, rs).data, i)
    decreases |rs|
  {
    if rs != [] {
      var front, r := rs[..|rs| - 1], rs[|rs| - 1];
      DeviceContents(s, front, i);
      assert WellFormed(r) && rs == front + [r] && r.segments[..|r.segments|] == r.segments;
      SegmentsLast(s, front, r, |r.segments|, Requests(s, front), i);
    }
  }

  /** How many segments of one request are stored. */
  function StoredOf(write: bool, segments: seq<seq<byte>>): nat {
    if segments == [] then 0
    else StoredOf(write, segments[..|segments| - 1]) + if write && Greets(segments[|segments| - 1]) then 1 else 0
  }

  /** How many segments of a run are stored. */
  function Stored(rs: seq<Request>): nat {
    if rs == [] then 0
    else Stored(rs[..|rs| - 1]) + StoredOf(rs[|rs| - 1].write, rs[|rs| - 1].segments)
  }

  // ---------- What the counter ends up as ----------

  /** The counter has 16 bits: a greeting stored on top of 65535 takes it back to zero. */
  predicate Wraps(s: State, write: bool, segment: seq<byte>) {
    write && Greets(segment) && s.counter == 65535
  }

  function WrapsOf(s: State, pos: nat, write: bool, segments: seq<seq<byte>>): nat
    requires |s.data| == DEV_SIZE && pos <= DEV_SIZE
  {
    if segments == [] then 0
    else
      var front := segments[..|segments| - 1];
      WrapsOf(s, pos, write, front) + if Wraps(Segments(s, pos, write, front), write, segments[|segments| - 1]) then 1 else 0
  }

  /** How often the counter wraps in a run. */
  function AllWraps(s: State, rs: seq<Request>): nat
    requires |s.data| == DEV_SIZE && forall k :: 0 <= k < |rs| ==> WellFormed(rs[k])
    decreases |rs|
  {
    if rs == [] then 0
    else
      var front, r := rs[..|rs| - 1], rs[|rs| - 1];
      assert WellFormed(rs[|rs| - 1]);
      AllWraps(s, front) + WrapsOf(Requests(s, front), r.sector * SECTOR, r.write, r.segments)
  }

  /** No greeting of one request comes while the counter is 65535. */
  ghost predicate NoWrapIn(s: State, r: Request)
    requires |s.data| == DEV_SIZE && WellFormed(r)
  {
    forall m :: 0 <= m < |r.segments| ==>
      !Wraps(Segments(s, r.sector * SECTOR, r.write, r.segments[..m]), r.write, r.segments[m])
  }

  /** No greeting of the run comes while the counter is 65535. */
  ghost predicate NeverWraps(s: State, rs: seq<Request>)
    requires |s.data| == DEV_SIZE && forall k :: 0 <= k < |rs| ==> WellFormed(rs[k])
  {
    forall k :: 0 <= k < |rs| ==> NoWrapIn(Requests(s, rs[..k]), rs[k])
  }

  /** From before to after: greetings stored are answers given, counts left over and full turns of the counter. */
  predicate Settled(before: State, hellos: nat, wraps: nat, after: State) {
    && after.replies >= before.replies && after.counter < 65536
    && before.counter + hellos == after.counter + (after.replies - before.replies) + 65536 * wraps
  }

  lemma {:induction false} SegmentsSettled(s: State, pos: nat, write: bool, segments: seq<seq<byte>>)
    requires |s.data| == DEV_SIZE && pos <= DEV_SIZE && s.counter < COUNTER_RANGE
    ensures Settled(s, StoredOf(write, segments), WrapsOf(s, pos, write, segments), Segments(s, pos, write, segments))
  {
    if segments != [] {
      var front, last := segments[..|segments| - 1], segments[|segments| - 1];
      SegmentsSettled(s, pos, write, front);
      hide Segments;
      var s1 := Segments(s, pos, write, front);
      SegmentsNext(s, pos, write, segments, |front|);
      assert segments[..|front| + 1] == segments;
      if write && Greets(last) && s1.counter + 1 < COUNTER_RANGE {
        assert (s1.counter + 1) % COUNTER_RANGE == s1.counter + 1;
      }
    }
  }

  lemma {:induction false} NoWrapCounted(s: State, r: Request, n: nat)
    requires |s.data| == DEV_SIZE && WellFormed(r) && n <= |r.segments|
    ensures WrapsOf(s, r.sector * SECTOR, r.write, r.segments[..n]) == 0 <==>
            forall m :: 0 <= m < n ==> !Wraps(Segments(s, r.sector * SECTOR, r.write, r.segments[..m]), r.write, r.segments[m])
  {
    hide Segments, Wraps;
    if n > 0 {
      NoWrapCounted(s, r, n - 1);
      assert r.segments[..n][..n - 1] == r.segments[..n - 1];
    }
  }

  lemma {:induction false} NeverWrapsCounted(s: State, rs: seq<Request>)
    requires |s.data| == DEV_SIZE && forall k :: 0 <= k < |rs| ==> WellFormed(rs[k])
    ensures AllWraps(s, rs) == 0 <==> NeverWraps(s, rs)
    decreases |rs|
  {
    hide Requests, WrapsOf, Segments, NoWrapIn;
    if rs != [] {
      var front, r := rs[..|rs| - 1], rs[|rs| - 1];
      assert WellFormed(r);
      NeverWrapsCounted(s, front);
      NoWrapOne(Requests(s, front), r);
      assert forall k :: 0 <= k < |front| ==> front[..k] == rs[..k] && front[k] == rs[k];
      assert NeverWraps(s, rs) <==> NeverWraps(s, front) && NoWrapIn(Requests(s, front), r);
    }
  }

  lemma {:induction false} NoWrapOne(s: State, r: Request)
    requires |s.data| == DEV_SIZE && WellFormed(r)
    ensures WrapsOf(s, r.sector * SECTOR, r.write, r.segments) == 0 <==> NoWrapIn(s, r)
  {
    NoWrapCounted(s, r, |r.segments|);
    assert r.segments[..|r.segments|] == r.segments;
  }

  /** Over any run each greeting stored is a read answered, a count still held, or one of the 65536 of a wrap. */
  lemma {:induction false} CounterSettled(s: State, rs: seq<Request>)
    requires |s.data| == DEV_SIZE && s.counter < COUNTER_RANGE && forall k :: 0 <= k < |rs| ==> WellFormed(rs[k])
    ensures Settled(s, Stored(rs), AllWraps(s, rs), Requests(s, rs))
    decreases |rs|
  {
    if rs != [] {
      var front, r := rs[..|rs| - 1], rs[|rs| - 1];
      assert WellFormed(r);
      CounterSettled(s, front);
      SegmentsSettled(Requests(s, front), r.sector * SECTOR, r.write, r.segments);
    }
  }

  /** The counter is greetings less answers exactly when no greeting came while it was 65535. */
  lemma {:induction false} CounterExactly(s: State, rs: seq<Request>)
    requires |s.data| == DEV_SIZE && s.counter < COUNTER_RANGE && forall k :: 0 <= k < |rs| ==> WellFormed(rs[k])
    ensures var s' := Requests(s, rs);
            s'.counter + (s'.replies - s.replies) == s.counter + Stored(rs) <==> NeverWraps(s, rs)
  {
    hide Requests, AllWraps, NeverWraps, Stored;
    CounterSettled(s, rs);
    NeverWrapsCounted(s, rs);
  }

  /** n write requests of one greeting each. */
  function Greetings(n: nat): (rs: seq<Request>)
    ensures |rs| == n && forall k :: 0 <= k < n ==> rs[k] == Request(0, true, [HELLO]) && WellFormed(rs[k])
  {
    if n == 0 then [] else Greetings(n - 1) + [Request(0, true, [HELLO])]
  }

  lemma {:induction false} AfterGreetings(s: State, n: nat)
    requires |s.data| == DEV_SIZE && s.counter < COUNTER_RANGE && s.counter + n <= COUNTER_RANGE
    ensures Stored(Greetings(n)) == n
    ensures var s' := Requests(s, Greetings(n)); s'.counter == (s.counter + n) % COUNTER_RANGE && s'.replies == s.replies
  {
    hide Requests, Stored, Greetings;
    NoGreetings(s);
    if n > 0 {
      AfterGreetings(s, n - 1);
      NextGreeting(s, n);
    }
  }

  lemma {:induction false} NoGreetings(s: State)
    requires |s.data| == DEV_SIZE
    ensures Requests(s, Greetings(0)) == s && Stored(Greetings(0)) == 0
  {
  }

  lemma {:induction false} NextGreeting(s: State, n: nat)
    requires |s.data| == DEV_SIZE && n > 0
    ensures var s', s'' := Requests(s, Greetings(n - 1)), Requests(s, Greetings(n));
            s''.counter == (s'.counter + 1) % COUNTER_RANGE && s''.replies == s'.replies
    ensures Stored(Greetings(n)) == Stored(Greetings(n - 1)) + 1
  {
    hide Segments, StoredOf;
    assert Greetings(n)[..n - 1] == Greetings(n - 1);
    OneGreeting(Requests(s, Greetings(n - 1)));
  }

  lemma {:induction false} OneGreeting(s: State)
    requires |s.data| == DEV_SIZE
    ensures Segments(s, 0, true, [HELLO]).counter == (s.counter + 1) % COUNTER_RANGE
    ensures Segments(s, 0, true, [HELLO]).replies == s.replies && StoredOf(true, [HELLO]) == 1
  {
    SegmentsNext(s, 0, true, [HELLO], 0);
    assert [HELLO][..1] == [HELLO] && [HELLO][..0] == [] && Greets(HELLO);
  }

  /** From any count, so also on a fresh device, enough greetings leave a device that holds none of them
      and has answered none. */
  lemma {:induction false} WrapExample(s: State)
    requires |s.data| == DEV_SIZE && s.counter < COUNTER_RANGE
    ensures var rs := Greetings(COUNTER_RANGE - s.counter);
            && Stored(rs) == COUNTER_RANGE - s.counter > 0 && !NeverWraps(s, rs)
            && Requests(s, rs).counter == 0 && Requests(s, rs).replies == s.replies
  {
    hide Requests, Stored, Greetings, NeverWraps;
    AfterGreetings(s, COUNTER_RANGE - s.counter);
    CounterExactly(s, Greetings(COUNTER_RANGE - s.counter));
  }
}
