/** NUL-terminated text in character arrays, and the destructive tokenizer that the
    shell and both chats call. */
module CStrings {
  import opened Types

  const NUL: char := '\0'

  /** A buffer that holds a C string: some cell is NUL. */
  predicate Terminated(b: seq<char>) {
    NUL in b
  }

  /** The C string at the start of a buffer: everything before the first NUL. */
  function Text(b: seq<char>): (s: string)
    ensures |s| <= |b| && s == b[..|s|] && NUL !in s
    ensures |s| < |b| ==> b[|s|] == NUL
  {
    if b == [] || b[0] == NUL then [] else [b[0]] + Text(b[1..])
  }

  lemma {:induction false} TextUnique(b: seq<char>, n: nat)
    requires n <= |b| && NUL !in b[..n]
    requires n < |b| ==> b[n] == NUL
    ensures Text(b) == b[..n]
  {
    if n == 0 {
    } else {
      assert b[0] == b[..n][0];
      assert b[1..][..n - 1] == b[..n][1..];
      TextUnique(b[1..], n - 1);
      assert b[..n] == [b[0]] + b[1..][..n - 1];
    }
  }

  lemma {:induction false} TextShorter(b: seq<char>)
    requires Terminated(b)
    ensures |Text(b)| < |b| && b[|Text(b)|] == NUL
  {
    if b[0] != NUL {
      assert NUL in b[1..];
      TextShorter(b[1..]);
    }
  }

  /** Length of the leading run of s without d. */
  function RunLength(s: string, d: char): (n: nat)
    ensures n <= |s| && d !in s[..n]
    ensures n < |s| ==> s[n] == d
  {
    if s == [] || s[0] == d then 0 else 1 + RunLength(s[1..], d)
  }

  lemma {:induction false} RunLengthUnique(s: string, d: char, n: nat)
    requires n <= |s| && d !in s[..n]
    requires n < |s| ==> s[n] == d
    ensures RunLength(s, d) == n
  {
    if n == 0 {
    } else {
      assert s[0] == s[..n][0];
      assert s[1..][..n - 1] == s[..n][1..];
      RunLengthUnique(s[1..], d, n - 1);
    }
  }

  /** The maximal runs of characters other than d, in order. */
  function Tokens(s: string, d: char): (ts: seq<string>)
    decreases |s|
  {
    if s == [] then []
    else if s[0] == d then Tokens(s[1..], d)
    else
      var n := RunLength(s, d);
      [s[..n]] + Tokens(s[n..], d)
  }

  /** Non-empty and free of d: what a token always is. */
  predicate IsToken(t: string, d: char) {
    t != [] && d !in t
  }

  lemma {:induction false} TokensAreTokens(s: string, d: char)
    ensures forall t :: t in Tokens(s, d) ==> IsToken(t, d) && |t| <= |s| && (forall c :: c in t ==> c in s)
    ensures 2 * |Tokens(s, d)| <= |s| + 1
    decreases |s|
  {
    if s == [] {
    } else if s[0] == d {
      TokensAreTokens(s[1..], d);
    } else {
      var n := RunLength(s, d);
      if n < |s| {
        assert Tokens(s[n..], d) == Tokens(s[n..][1..], d);
        TokensAreTokens(s[n..][1..], d);
        assert forall c :: c in s[n..][1..] ==> c in s;
      }
    }
  }

  /** Splitting distributes over a delimiter, wherever it stands: tokens are maximal runs. */
  lemma {:induction false} TokensSplit(a: string, d: char, b: string)
    ensures Tokens(a + [d] + b, d) == Tokens(a, d) + Tokens(b, d)
    decreases |a|
  {
    var s := a + [d] + b;
    if a == [] {
      assert s[1..] == b;
    } else if a[0] == d {
      TokensSplit(a[1..], d, b);
      assert s[1..] == a[1..] + [d] + b;
    } else {
      var n := RunLength(a, d);
      assert s[..n] == a[..n];
      assert n < |s| && s[n] == d;
      RunLengthUnique(s, d, n);
      if n == |a| {
        assert s[n..] == [d] + b;
        assert s[n..][1..] == b;
        assert a[n..] == [];
      } else {
        TokensSplit(a[n..], d, b);
        assert s[n..] == a[n..] + [d] + b;
      }
    }
  }

  lemma {:induction false} SingleToken(t: string, d: char)
    requires IsToken(t, d)
    ensures Tokens(t, d) == [t]
  {
    RunLengthUnique(t, d, |t|);
    assert t[..|t|] == t && t[|t|..] == [];
  }

  /** The tokens with one d between neighbours. */
  function Join(ts: seq<string>, d: char): string {
    if ts == [] then ""
    else if |ts| == 1 then ts[0]
    else ts[0] + [d] + Join(ts[1..], d)
  }

  /** The non-empty strings of a list, in order. */
  function NonEmpty(ts: seq<string>): seq<string> {
    if ts == [] then []
    else (if ts[0] == "" then [] else [ts[0]]) + NonEmpty(ts[1..])
  }

  /** Splitting undoes joining, except that it drops empty pieces. */
  lemma {:induction false} TokensOfJoin(ts: seq<string>, d: char)
    requires forall t :: t in ts ==> d !in t
    ensures Tokens(Join(ts, d), d) == NonEmpty(ts)
  {
    if ts != [] {
      if ts[0] != "" {
        SingleToken(ts[0], d);
      }
      if |ts| == 1 {
        assert ts[1..] == [];
      } else {
        TokensSplit(ts[0], d, Join(ts[1..], d));
        TokensOfJoin(ts[1..], d);
      }
    }
  }

  lemma {:induction false} NonEmptyIdentity(ts: seq<string>)
    ensures |NonEmpty(ts)| <= |ts|
    ensures NonEmpty(ts) == ts <==> "" !in ts
    ensures |NonEmpty(ts)| == |ts| <==> "" !in ts
  {
    if ts != [] {
      NonEmptyIdentity(ts[1..]);
      assert ts == [ts[0]] + ts[1..];
    }
  }

  lemma {:induction false} JoinChars(ts: seq<string>, d: char)
    ensures forall c :: c in Join(ts, d) ==> c == d || exists t :: t in ts && c in t
    ensures Join(ts, d) == "" <==> ts == [] || ts == [""]
  {
    if |ts| > 1 {
      JoinChars(ts[1..], d);
      forall c | c in Join(ts, d) && c != d
        ensures exists t :: t in ts && c in t
      {
        if c !in ts[0] {
          assert c in Join(ts[1..], d);
          var t :| t in ts[1..] && c in t;
          assert t in ts;
        }
      }
    }
  }

  function Count(s: string, d: char): nat {
    if s == "" then 0 else (if s[0] == d then 1 else 0) + Count(s[1..], d)
  }

  lemma {:induction false} CountConcat(a: string, b: string, d: char)
    ensures Count(a + b, d) == Count(a, d) + Count(b, d)
  {
    if a == "" {
      assert a + b == b;
    } else {
      assert (a + b)[1..] == a[1..] + b;
      CountConcat(a[1..], b, d);
    }
  }

  lemma {:induction false} CountNone(s: string, d: char)
    ensures Count(s, d) == 0 <==> d !in s
  {
    if s != "" {
      CountNone(s[1..], d);
      assert s == [s[0]] + s[1..];
    }
  }

  lemma {:induction false} TextStep(b: seq<char>, p: nat)
    requires p < |b|
    ensures b[p] == NUL ==> Text(b[p..]) == []
    ensures b[p] != NUL ==> Text(b[p..]) == [b[p]] + Text(b[p+1..])
    ensures b[p] != NUL && Terminated(b[p..]) ==> Terminated(b[p+1..])
  {
    assert b[p..][1..] == b[p+1..];
    assert b[p..] == [b[p]] + b[p+1..];
  }

  lemma {:induction false} EmptyHere(b: seq<char>, p: nat)
    requires p < |b| && b[p] == NUL
    ensures Text(b[p..]) == []
  {
    TextStep(b, p);
  }

  /** A buffer whose cells from e on read as the tail of the string that starts at p. */
  lemma {:induction false} TextSlice(b: seq<char>, p: nat, e: nat)
    requires p <= e <= |b| && NUL !in b[p..e]
    ensures Text(b[p..]) == b[p..e] + Text(b[e..])
    decreases e - p
  {
    if p == e {
      assert b[p..e] == [];
    } else {
      assert b[p] == b[p..e][0];
      assert b[p+1..e] == b[p..e][1..];
      TextStep(b, p);
      TextSlice(b, p + 1, e);
      assert b[p..e] == [b[p]] + b[p+1..e];
    }
  }

  /** strlen */
  method StrLen(a: array<char>) returns (n: nat)
    requires Terminated(a[..])
    ensures n == |Text(a[..])| && n < a.Length && a[n] == NUL
  {
    TextShorter(a[..]);
    n := 0;
    while a[n] != NUL
      invariant 0 <= n < a.Length && NUL !in a[..n] && Terminated(a[n..])
      decreases a.Length - n
    {
      TextStep(a[..], n);
      n := n + 1;
    }
    TextUnique(a[..], n);
  }

  /** The string that a pointer into a denotes. */
  method Read(a: array<char>, start: nat) returns (s: string)
    requires start <= a.Length && Terminated(a[start..])
    ensures s == Text(a[start..])
  {
    hide Text;
    s := "";
    var i := start;
    while a[i] != NUL
      invariant start <= i < a.Length && Terminated(a[i..])
      invariant s + Text(a[i..]) == Text(a[start..])
      decreases a.Length - i
    {
      TextStep(a[..], i);
      s := s + [a[i]];
      i := i + 1;
    }
    EmptyHere(a[..], i);
    assert s + [] == s;
  }

  /** The block strdup returns for s. */
  method StrDup(s: string) returns (d: array<char>)
    requires NUL !in s
    ensures fresh(d) && Terminated(d[..]) && Text(d[..]) == s
  {
    d := new char[|s| + 1](i requires 0 <= i => if i < |s| then s[i] else NUL);
    assert d[..][..|s|] == s && d[..][|s|] == NUL;
    TextUnique(d[..], |s|);
  }

  /** strcat, or strncat with the whole length: append src to the string in a. */
  method StrCat(a: array<char>, src: string)
    requires Terminated(a[..]) && NUL !in src
    requires |Text(a[..])| + |src| < a.Length
    modifies a
    ensures Terminated(a[..]) && Text(a[..]) == old(Text(a[..])) + src
  {
    ghost var was := Text(a[..]);
    var n := StrLen(a);
    var i := 0;
    while i < |src|
      invariant 0 <= i <= |src| && n == |was|
      invariant a[..n + i] == was + src[..i]
    {
      a[n + i] := src[i];
      i := i + 1;
      assert a[..n + i] == a[..n + i - 1] + [src[i - 1]];
      assert src[..i] == src[..i - 1] + [src[i - 1]];
    }
    a[n + i] := NUL;
    assert src[..i] == src;
    assert a[..][..n + i] == was + src;
    assert a[..][n + i] == NUL;
    TextUnique(a[..], n + i);
  }

  /** memset(a, 0, size) */
  method Clear(a: array<char>)
    modifies a
    ensures forall k :: 0 <= k < a.Length ==> a[k] == NUL
    ensures a.Length > 0 ==> Terminated(a[..])
    ensures Text(a[..]) == ""
  {
    for i := 0 to a.Length
      invariant forall k :: 0 <= k < i ==> a[k] == NUL
    {
      a[i] := NUL;
    }
    if a.Length > 0 {
      assert a[..][0] == NUL;
    }
    TextUnique(a[..], 0);
  }

  /** strcpy and strncpy into a new buffer, with the terminator the callers rely on. */
  method CopyOf(a: array<char>, size: nat) returns (buf: array<char>)
    requires Terminated(a[..]) && |Text(a[..])| < size
    ensures fresh(buf) && buf.Length == size
    ensures Terminated(buf[..]) && Text(buf[..]) == Text(a[..])
  {
    buf := new char[size](_ => NUL);
    var n := StrLen(a);
    var i := 0;
    while i < n
      invariant 0 <= i <= n == |Text(a[..])|
      invariant a[..] == old(a[..])
      invariant forall k :: 0 <= k < i ==> buf[k] == a[k]
      invariant forall k :: i <= k < size ==> buf[k] == NUL
    {
      buf[i] := a[i];
      i := i + 1;
    }
    assert buf[..n] == a[..n] == Text(a[..]);
    assert buf[..][n] == NUL;
    TextUnique(buf[..], n);
  }

  /** strtok with its saved pointer: the buffer being split and where to go on. */
  class Tokenizer {
    var saved: array?<char>
    var pos: nat

    /** Some string is being split and its end lies ahead. */
    ghost predicate Active()
      reads this, saved
    {
      saved != null && pos <= saved.Length && Terminated(saved[pos..])
    }

    /** What is still to be split. */
    ghost function Rest(): string
      reads this, saved
      requires Active()
    {
      Text(saved[pos..])
    }

    /** tok points at the first of the tokens still to be taken, and the rest are ahead. */
    ghost predicate Pending(tok: Option<nat>, todo: seq<string>, d: char)
      reads this, saved
    {
      && Active()
      && (tok.None? ==> todo == [] && Tokens(Rest(), d) == [])
      && (tok.Some? ==>
            && todo != []
            && tok.value < saved.Length && Terminated(saved[tok.value..])
            && Text(saved[tok.value..]) == todo[0]
            && Tokens(Rest(), d) == todo[1..])
    }

    lemma InHand(tok: Option<nat>, todo: seq<string>, d: char)
      requires Pending(tok, todo, d)
      ensures tok == None <==> todo == []
    {
    }

    constructor ()
      ensures saved == null
    {
      saved := null;
      pos := 0;
    }

    /** strtok(s, d): start on a new string. */
    method First(s: array<char>, d: char) returns (tok: Option<nat>)
      requires Terminated(s[..]) && d != NUL
      modifies this, s
      ensures saved == s && Pending(tok, Tokens(old(Text(s[..])), d), d)
      ensures Scratched(old(s[..]), s[..], d)
    {
      saved, pos := s, 0;
      assert s[0..] == s[..];
      tok := Next(d);
    }

    /** strtok(NULL, d): the next token, cut off by a NUL in place of its delimiter. */
    method Next(d: char) returns (tok: Option<nat>)
      requires Active() && d != NUL
      modifies this`pos, saved
      ensures saved == old(saved) && Pending(tok, Tokens(old(Rest()), d), d)
      ensures Scratched(old(saved[..]), saved[..], d)
    {
      hide Text, Tokens;
      Skip(d);
      if saved[pos] == NUL {
        NoToken(saved[..], pos, d);
        tok := None;
      } else {
        tok := Some(pos);
        CutRun(d);
      }
    }

    /** Take the token in hand and ask for the next one. */
    method Take(tok: Option<nat>, ghost todo: seq<string>, d: char) returns (word: string, next: Option<nat>)
      requires Pending(tok, todo, d) && todo != [] && d != NUL
      modifies this`pos, saved
      ensures word == todo[0] && NUL !in word
      ensures saved == old(saved) && Pending(next, todo[1..], d)
    {
      hide Text, Tokens;
      word := Read(saved, tok.value);
      next := Next(d);
    }

    /** Move past delimiters. */
    method Skip(d: char)
      requires Active() && d != NUL
      modifies this`pos
      ensures Active() && saved[pos] != d
      ensures Tokens(Rest(), d) == Tokens(old(Rest()), d)
    {
      TextStep(saved[..], pos);
      while saved[pos] == d
        invariant Active() && Tokens(Rest(), d) == Tokens(old(Rest()), d)
        decreases saved.Length - pos
      {
        TextStep(saved[..], pos);
        pos := pos + 1;
      }
    }

    /** Go past the token that starts here, putting NUL in place of its delimiter. */
    method CutRun(d: char)
      requires Active() && d != NUL && saved[pos] != d && saved[pos] != NUL
      modifies this`pos, saved
      ensures saved == old(saved) && Active()
      ensures old(pos) < saved.Length && Terminated(saved[old(pos)..])
      ensures Tokens(old(Rest()), d) == [Text(saved[old(pos)..])] + Tokens(Rest(), d)
      ensures Scratched(old(saved[..]), saved[..], d)
    {
      hide Text, Tokens;
      ghost var b, start := saved[..], pos;
      ScanToken(d);
      ghost var c, q := CutToken(b, start, pos, d);
      if saved[pos] == d {
        PutNul(saved, pos);
        pos := pos + 1;
      }
      assert saved[..] == c;
      assert saved[start..] == c[start..] && saved[pos..] == c[q..];
    }

    /** Move to the end of the token that starts here. */
    method ScanToken(d: char)
      requires Active() && d != NUL && saved[pos] != d && saved[pos] != NUL
      modifies this`pos
      ensures Active() && old(pos) < pos && (saved[pos] == d || saved[pos] == NUL)
      ensures IsRun(saved[..], old(pos), pos, d)
    {
      while saved[pos] != d && saved[pos] != NUL
        invariant Active() && old(pos) <= pos && IsRun(saved[..], old(pos), pos, d)
        invariant old(pos) == pos ==> saved[pos] != d && saved[pos] != NUL
        decreases saved.Length - pos
      {
        TextStep(saved[..], pos);
        pos := pos + 1;
      }
    }
  }

  /** c differs from b only where a delimiter became NUL. */
  predicate Scratched(b: seq<char>, c: seq<char>, d: char) {
    |b| == |c| && forall k :: 0 <= k < |b| && b[k] != c[k] ==> b[k] == d && c[k] == NUL
  }

  predicate IsRun(b: seq<char>, p: nat, e: nat, d: char) {
    p <= e <= |b| && d !in b[p..e] && NUL !in b[p..e]
  }

  lemma {:induction false} NoToken(b: seq<char>, p: nat, d: char)
    requires p < |b| && b[p] == NUL
    ensures Tokens(Text(b[p..]), d) == []
  {
    EmptyHere(b, p);
  }

  lemma {:induction false} NextToken(b: seq<char>, p: nat, e: nat, d: char)
    requires p < e < |b| && IsRun(b, p, e, d) && (b[e] == d || b[e] == NUL) && d != NUL
    ensures Tokens(Text(b[p..]), d) == [b[p..e]] + Tokens(Text(if b[e] == d then b[e+1..] else b[e..]), d)
  {
    var line := Text(b[p..]);
    TextSlice(b, p, e);
    TextStep(b, e);
    assert line[..e - p] == b[p..e];
    RunLengthUnique(line, d, e - p);
    assert line[0] == b[p..e][0];
    assert line[e - p..] == Text(b[e..]);
    if b[e] == d {
      assert Text(b[e..])[1..] == Text(b[e+1..]);
    }
  }

  lemma {:induction false} CutToken(b: seq<char>, p: nat, e: nat, d: char) returns (c: seq<char>, q: nat)
    requires p < e < |b| && IsRun(b, p, e, d) && (b[e] == d || b[e] == NUL) && d != NUL
    ensures (c, q) == if b[e] == d then (b[e := NUL], e + 1) else (b, e)
    ensures Terminated(c[p..]) && Tokens(Text(b[p..]), d) == [Text(c[p..])] + Tokens(Text(c[q..]), d)
    ensures c[q..] == b[q..] && Scratched(b, c, d)
  {
    c, q := if b[e] == d then b[e := NUL] else b, if b[e] == d then e + 1 else e;
    assert c[p..][e - p] == NUL;
    assert c[p..][..e - p] == b[p..e];
    TextUnique(c[p..], e - p);
    NextToken(b, p, e, d);
    assert c[q..] == b[q..];
  }

  method PutNul(s: array<char>, e: nat)
    requires e < s.Length
    modifies s
    ensures s[..] == old(s[..])[e := NUL]
  {
    s[e] := NUL;
  }
}
