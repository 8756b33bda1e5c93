/** The IP header checksum of the raw-Ethernet client: ten 16-bit words, one fold of the carries. */
module Checksum {
  import opened Types

  type word = x: int | 0 <= x < 0x1_0000

  const WORDS: nat := 10

  function Total(ws: seq<word>): nat {
    if ws == [] then 0 else ws[0] + Total(ws[1..])
  }

  /** What the code's single fold of the 32-bit sum leaves, complemented. */
  function FoldedOnce(s: nat): word {
    0xFFFF - (s + s / 0x1_0000) % 0x1_0000
  }

  // ---------- The standard's sum ----------

  /** Addition with end-around carry (section 1 of RFC 1071). */
  function OnesAdd(x: word, y: word): word {
    if x + y < 0x1_0000 then x + y else x + y - 0xFFFF
  }

  function OnesSum(ws: seq<word>): word {
    if ws == [] then 0 else OnesAdd(OnesSum(ws[..|ws| - 1]), ws[|ws| - 1])
  }

  /** The checksum section 3.1 of RFC 791 asks for. */
  function Standard(ws: seq<word>): word {
    0xFFFF - OnesSum(ws)
  }

  /** A receiver accepts a header whose words, checksum included, add up to all ones. */
  predicate Accepted(ws: seq<word>) {
    OnesSum(ws) == 0xFFFF
  }

  /** The fold's own carry does not reach bit 16. */
  predicate NoCarryLost(ws: seq<word>) {
    Total(ws) % 0x1_0000 + Total(ws) / 0x1_0000 < 0x1_0000
  }

  lemma {:induction false} TotalLast(ws: seq<word>, w: word)
    ensures Total(ws + [w]) == Total(ws) + w
  {
    if ws == [] {
      assert ws + [w] == [w];
    } else {
      assert (ws + [w])[1..] == ws[1..] + [w];
      TotalLast(ws[1..], w);
    }
  }

  lemma {:induction false} TotalBound(ws: seq<word>)
    ensures Total(ws) <= 0xFFFF * |ws|
  {
    if ws != [] {
      TotalBound(ws[1..]);
    }
  }

  /** A number from 1 to 0xFFFF, or 0 for 0, congruent to s modulo 0xFFFF. */
  function Residue(s: nat): word {
    if s == 0 then 0 else (s - 1) % 0xFFFF + 1
  }

  lemma {:induction false} ResidueAdd(s: nat, w: word)
    ensures Residue(s + w) == OnesAdd(Residue(s), w)
  {
    if s > 0 {
      var q, r := (s - 1) / 0xFFFF, (s - 1) % 0xFFFF;
      assert s + w - 1 == 0xFFFF * q + (r + w);
      if r + w < 0xFFFF {
        DivUnique(s + w - 1, q, r + w);
      } else {
        DivUnique(s + w - 1, q + 1, r + w - 0xFFFF);
      }
    } else if w > 0 {
      DivUnique(w - 1, 0, w - 1);
    }
  }

  lemma DivUnique(n: nat, q: nat, r: nat)
    requires n == 0xFFFF * q + r && r < 0xFFFF
    ensures n % 0xFFFF == r
  {
  }

  /** End-around carries keep the sum modulo 0xFFFF, and keep zero for zeros alone. */
  lemma {:induction false} OnesSumIsResidue(ws: seq<word>)
    ensures OnesSum(ws) == Residue(Total(ws))
  {
    if ws != [] {
      var front, w := ws[..|ws| - 1], ws[|ws| - 1];
      assert ws == front + [w];
      OnesSumIsResidue(front);
      TotalLast(front, w);
      ResidueAdd(Total(front), w);
    }
  }

  // ---------- The code ----------

  /** ccsum: a 32-bit accumulator, one fold, complement. */
  method Ccsum(header: array<word>) returns (sum: word)
    requires header.Length == WORDS
    ensures sum == FoldedOnce(Total(header[..]))
  {
    var csum: int := 0;
    for i := 0 to WORDS
      invariant csum == Total(header[..i]) <= 0xFFFF * i
    {
      TotalLast(header[..i], header[i]);
      assert header[..i + 1] == header[..i] + [header[i]];
      csum := (csum + header[i]) % 0x1_0000_0000;
    }
    assert header[..WORDS] == header[..];
    csum := (csum + csum / 0x1_0000) % 0x1_0000_0000;
    var complement: int := 0xFFFF_FFFF - csum;
    sum := complement % 0x1_0000;
  }

  // ---------- When it is right ----------

  /** One fold is enough exactly when it does not carry again; otherwise the result is one too large. */
  lemma {:induction false} OneFold(ws: seq<word>)
    requires |ws| == WORDS
    ensures FoldedOnce(Total(ws)) == Standard(ws) <==> NoCarryLost(ws)
    ensures !NoCarryLost(ws) ==> FoldedOnce(Total(ws)) == Standard(ws) + 1
  {
    TotalBound(ws);
    OnesSumIsResidue(ws);
    var s := Total(ws);
    var hi, lo := s / 0x1_0000, s % 0x1_0000;
    assert s == 0x1_0000 * hi + lo && hi <= 9;
    if s > 0 {
      if hi + lo <= 0xFFFF {
        DivUnique(s - 1, hi, hi + lo - 1);
      } else {
        DivUnique(s - 1, hi + 1, hi + lo - 1 - 0xFFFF);
      }
    }
  }

  /** The header with its checksum field, word 5, set to c. */
  function WithCheck(ws: seq<word>, c: word): seq<word>
    requires |ws| == WORDS
  {
    ws[5 := c]
  }

  lemma {:induction false} TotalUpdate(ws: seq<word>, i: nat, w: word)
    requires i < |ws|
    ensures Total(ws[i := w]) == Total(ws) - ws[i] + w
  {
    if i == 0 {
      assert ws[i := w][1..] == ws[1..];
    } else {
      assert ws[i := w][1..] == ws[1..][i - 1 := w];
      TotalUpdate(ws[1..], i - 1, w);
    }
  }

  /** A receiver accepts the header the client sends exactly when the client lost no carry. */
  lemma {:induction false} AcceptedExactly(ws: seq<word>)
    requires |ws| == WORDS && ws[5] == 0
    ensures Accepted(WithCheck(ws, FoldedOnce(Total(ws)))) <==> NoCarryLost(ws)
  {
    var c := FoldedOnce(Total(ws));
    OneFold(ws);
    OnesSumIsResidue(ws);
    TotalUpdate(ws, 5, c);
    OnesSumIsResidue(WithCheck(ws, c));
    ResidueAdd(Total(ws), c);
  }

  // ---------- Byte order ----------

  function Swap(w: word): word {
    w % 0x100 * 0x100 + w / 0x100
  }

  function SwapAll(ws: seq<word>): (r: seq<word>)
    ensures |r| == |ws|
    ensures forall i :: 0 <= i < |ws| ==> r[i] == Swap(ws[i])
  {
    if ws == [] then [] else SwapAll(ws[..|ws| - 1]) + [Swap(ws[|ws| - 1])]
  }

  /** Swapping the bytes of both summands swaps the bytes of the sum: the carries go round in a ring. */
  lemma {:induction false} SwapAdd(x: word, y: word)
    ensures OnesAdd(Swap(x), Swap(y)) == Swap(OnesAdd(x, y))
  {
    var high, low := x / 0x100 + y / 0x100, x % 0x100 + y % 0x100;
    assert x + y == 0x100 * high + low;
    assert Swap(x) + Swap(y) == 0x100 * low + high;
    if low < 0x100 && high < 0x100 {
      SwapOf(OnesAdd(x, y), high, low);
    } else if low >= 0x100 && high < 0xFF {
      SwapOf(OnesAdd(x, y), high + 1, low - 0x100);
    } else if low >= 0x100 || low == 0xFF {
      SwapOf(OnesAdd(x, y), high - 0xFF, low - 0xFF);
    } else {
      SwapOf(OnesAdd(x, y), high - 0x100, low + 1);
    }
  }

  lemma {:induction false} SwapOf(w: word, h: nat, l: nat)
    requires w == 0x100 * h + l && l < 0x100
    ensures Swap(w) == 0x100 * l + h
  {
  }

  /** Section 2(B) of RFC 1071. */
  lemma {:induction false} ByteOrderIndependent(ws: seq<word>)
    ensures OnesSum(SwapAll(ws)) == Swap(OnesSum(ws))
  {
    if ws != [] {
      ByteOrderIndependent(ws[..|ws| - 1]);
      SwapAdd(OnesSum(ws[..|ws| - 1]), ws[|ws| - 1]);
    }
  }

  lemma {:induction false} SwapComplement(w: word)
    ensures Swap(0xFFFF - w) == 0xFFFF - Swap(w) && Swap(Swap(w)) == w
  {
    var h, l := w / 0x100, w % 0x100;
    SwapOf(w, h, l);
    SwapOf(0xFFFF - w, 0xFF - h, 0xFF - l);
    SwapOf(Swap(w), l, h);
  }

  lemma {:induction false} SwapSuccessor(w: word)
    requires w < 0xFFFF
    ensures Swap(w + 1) != Swap(w) + 1
  {
    var h, l := w / 0x100, w % 0x100;
    assert w == 0x100 * h + l;
  }

  /** The code computes the same wire bytes on either endianness exactly when neither order loses a carry. */
  lemma {:induction false} SameBytesExactly(ws: seq<word>)
    requires |ws| == WORDS
    ensures FoldedOnce(Total(SwapAll(ws))) == Swap(FoldedOnce(Total(ws))) <==> NoCarryLost(ws) && NoCarryLost(SwapAll(ws))
  {
    OneFold(ws);
    OneFold(SwapAll(ws));
    ByteOrderIndependent(ws);
    SwapComplement(OnesSum(ws));
    var r := Standard(ws);
    assert Standard(SwapAll(ws)) == Swap(r);
    if !NoCarryLost(ws) {
      SwapSuccessor(r);
      SwapComplement(r);
      SwapComplement(r + 1);
    }
  }

  // ---------- The bytes on the wire ----------

  /** The 16-bit word a host loads from two bytes of memory. */
  function HostWord(first: byte, second: byte, bigEndian: bool): word {
    if bigEndian then 0x100 * first + second else 0x100 * second + first
  }

  function Words(bytes: seq<byte>, bigEndian: bool): (ws: seq<word>)
    requires |bytes| == 2 * WORDS
    ensures |ws| == WORDS
  {
    seq(WORDS, i requires 0 <= i < WORDS => HostWord(bytes[2 * i], bytes[2 * i + 1], bigEndian))
  }

  /** ihdr->check = c, without htons. */
  function Insert(bytes: seq<byte>, c: word, bigEndian: bool): seq<byte>
    requires |bytes| == 2 * WORDS
  {
    var high, low := c / 0x100, c % 0x100;
    if bigEndian then bytes[10 := high][11 := low] else bytes[10 := low][11 := high]
  }

  /** What a host of either kind sends for a header whose check field is still zero. */
  function Wire(bytes: seq<byte>, bigEndian: bool): seq<byte>
    requires |bytes| == 2 * WORDS
  {
    Insert(bytes, FoldedOnce(Total(Words(bytes, bigEndian))), bigEndian)
  }

  lemma {:induction false} OtherOrder(bytes: seq<byte>)
    requires |bytes| == 2 * WORDS
    ensures Words(bytes, false) == SwapAll(Words(bytes, true))
  {
    forall i | 0 <= i < WORDS
      ensures Words(bytes, false)[i] == Swap(Words(bytes, true)[i])
    {
      SwapOf(Words(bytes, true)[i], bytes[2 * i], bytes[2 * i + 1]);
    }
  }

  lemma {:induction false} InsertedWord(bytes: seq<byte>, c: word, bigEndian: bool)
    requires |bytes| == 2 * WORDS
    ensures Words(Insert(bytes, c, bigEndian), bigEndian) == Words(bytes, bigEndian)[5 := c]
  {
    var a, b := Words(Insert(bytes, c, bigEndian), bigEndian), Words(bytes, bigEndian)[5 := c];
    assert c == 0x100 * (c / 0x100) + c % 0x100;
    forall i | 0 <= i < WORDS
      ensures a[i] == b[i]
    {
      assert i != 5 ==> 2 * i != 10 && 2 * i != 11 && 2 * i + 1 != 10 && 2 * i + 1 != 11;
    }
  }

  /** The receiver, which adds the words in network order, accepts what a host of either kind sends
      exactly when that host lost no carry. */
  lemma {:induction false} WireAccepted(bytes: seq<byte>, bigEndian: bool)
    requires |bytes| == 2 * WORDS && bytes[10] == bytes[11] == 0
    ensures |Wire(bytes, bigEndian)| == 2 * WORDS
    ensures Accepted(Words(Wire(bytes, bigEndian), true)) <==> NoCarryLost(Words(bytes, bigEndian))
  {
    var wire := Wire(bytes, bigEndian);
    InsertedWord(bytes, FoldedOnce(Total(Words(bytes, bigEndian))), bigEndian);
    AcceptedExactly(Words(bytes, bigEndian));
    OtherOrder(wire);
    ByteOrderIndependent(Words(wire, true));
    SwapComplement(OnesSum(Words(wire, true)));
    assert Swap(0xFFFF) == 0xFFFF;
  }

  /** Both kinds of host send the same bytes exactly when neither loses a carry. */
  lemma {:induction false} WireSame(bytes: seq<byte>)
    requires |bytes| == 2 * WORDS
    ensures Wire(bytes, true) == Wire(bytes, false) <==> NoCarryLost(Words(bytes, true)) && NoCarryLost(Words(bytes, false))
  {
    OtherOrder(bytes);
    SameBytesExactly(Words(bytes, true));
    var c, d := FoldedOnce(Total(Words(bytes, true))), FoldedOnce(Total(Words(bytes, false)));
    SwapComplement(c);
    SwapOf(c, c / 0x100, c % 0x100);
    if Wire(bytes, true) == Wire(bytes, false) {
      assert Wire(bytes, true)[10] == c / 0x100 && Wire(bytes, true)[11] == c % 0x100;
      assert Wire(bytes, false)[10] == d % 0x100 && Wire(bytes, false)[11] == d / 0x100;
      SwapOf(d, d / 0x100, d % 0x100);
    }
  }

  /** The header main fills in: version 4, five words long, 60 bytes in all, identification 1337,
      time to live 64, protocol 17, from 192.168.1.7 to 192.168.1.6. */
  const HEADER: seq<byte> := [0x45, 0, 0, 60, 0x05, 0x39, 0, 0, 64, 17, 0, 0, 192, 168, 1, 7, 192, 168, 1, 6]

  /** Copy the fields, call ccsum on the words as this host loads them, and store its result as is. */
  method Send(bytes: seq<byte>, bigEndian: bool) returns (wire: array<byte>)
    requires |bytes| == 2 * WORDS
    ensures wire.Length == 2 * WORDS && wire[..] == Wire(bytes, bigEndian)
  {
    hide Total;
    wire := new byte[2 * WORDS](i requires 0 <= i < 2 * WORDS => bytes[i]);
    assert wire[..] == bytes;
    var header := new word[WORDS];
    for i := 0 to WORDS
      invariant wire[..] == bytes
      invariant forall k :: 0 <= k < i ==> header[k] == Words(bytes, bigEndian)[k]
    {
      header[i] := HostWord(wire[2 * i], wire[2 * i + 1], bigEndian);
    }
    assert header[..] == Words(bytes, bigEndian);
    var check := Ccsum(header);
    wire[if bigEndian then 10 else 11] := check / 0x100;
    wire[if bigEndian then 11 else 10] := check % 0x100;
    assert wire[..] == Wire(bytes, bigEndian);
  }

  /** From either kind of host the client sends these bytes, checksum 0xF21A included, and they are accepted:
      version and length, service, 60 bytes in all, identification 1337, no fragments, time to live 64,
      protocol 17, from 192.168.1.7 to 192.168.1.6. */
  method SendHeader(bigEndian: bool) returns (wire: array<byte>)
    ensures wire.Length == 20 && Accepted(Words(wire[..], true))
    ensures wire[..] == [0x45, 0, 0, 60, 0x05, 0x39, 0, 0, 64, 17, 0xF2, 0x1A, 192, 168, 1, 7, 192, 168, 1, 6]
  {
    hide Total;
    wire := Send(HEADER, bigEndian);
    HeaderKeepsCarries(true);
    HeaderKeepsCarries(false);
    WireAccepted(HEADER, bigEndian);
    WireSame(HEADER);
    assert Wire(HEADER, true) == Insert(HEADER, 0xF21A, true);
  }

  lemma {:induction false} TotalFrom(ws: seq<word>, i: nat)
    requires i <= |ws|
    ensures Total(ws[i..]) == if i < |ws| then ws[i] + Total(ws[i + 1..]) else 0
  {
    if i < |ws| {
      assert ws[i..][1..] == ws[i + 1..];
    }
  }

  lemma {:induction false} TotalOfFive(ws: seq<word>, i: nat)
    requires i + 5 <= |ws|
    ensures Total(ws[i..]) == ws[i] + ws[i + 1] + ws[i + 2] + ws[i + 3] + ws[i + 4] + Total(ws[i + 5..])
  {
    hide Total;
    TotalFrom(ws, i);
    TotalFrom(ws, i + 1);
    TotalFrom(ws, i + 2);
    TotalFrom(ws, i + 3);
    TotalFrom(ws, i + 4);
  }

  lemma {:induction false} HeaderKeepsCarries(bigEndian: bool)
    ensures NoCarryLost(Words(HEADER, bigEndian)) && (bigEndian ==> FoldedOnce(Total(Words(HEADER, bigEndian))) == 0xF21A)
  {
    hide Total;
    var ws := Words(HEADER, bigEndian);
    TotalOfFive(ws, 0);
    TotalOfFive(ws, 5);
    TotalFrom(ws, 10);
    assert ws[0..] == ws;
    assert Total(ws) == if bigEndian then 134627 else 124172;
  }

  /** A header, its checksum field zero, whose single fold carries again. */
  const CARRYING: seq<word> := [0xFFFF, 0xFFFF, 1, 0, 0, 0, 0, 0, 0, 0]

  /** ccsum misses the checksum of this header by one, and a receiver refuses it. */
  lemma {:induction false} LostCarry()
    ensures |CARRYING| == WORDS && CARRYING[5] == 0 && !NoCarryLost(CARRYING)
    ensures Standard(CARRYING) == 0xFFFE && FoldedOnce(Total(CARRYING)) == 0xFFFF
    ensures !Accepted(WithCheck(CARRYING, FoldedOnce(Total(CARRYING))))
  {
    hide Total;
    TotalOfFive(CARRYING, 0);
    TotalOfFive(CARRYING, 5);
    TotalFrom(CARRYING, 10);
    assert CARRYING[0..] == CARRYING;
    assert Total(CARRYING) == 0x1_FFFF;
    OneFold(CARRYING);
    AcceptedExactly(CARRYING);
  }
}
