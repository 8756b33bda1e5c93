/** dirn and basen: in-place loops over characters, specified by the components of a path. */
module Paths {
  import opened CStrings

  // ---------- What the functions are for ----------

  function Components(p: string): seq<string> {
    Tokens(p, '/')
  }

  predicate Absolute(p: string) {
    p != "" && p[0] == '/'
  }

  function Assemble(absolute: bool, comps: seq<string>): string {
    (if absolute then "/" else "") + Join(comps, '/')
  }

  /** The path with single slashes and none at the end, except for the root. */
  function Normal(p: string): string {
    Assemble(Absolute(p), Components(p))
  }

  /** The directory part: all components but the last, or the place a single one is in. */
  function Dir(p: string): string {
    var comps := Components(p);
    if |comps| <= 1 then (if Absolute(p) then "/" else ".")
    else Assemble(Absolute(p), comps[..|comps| - 1])
  }

  /** The last component; a path without one names the root or the working directory. */
  function Base(p: string): string {
    var comps := Components(p);
    if comps != [] then comps[|comps| - 1]
    else if Absolute(p) then "/" else "."
  }

  // ---------- Joins and tokens seen from the end ----------

  lemma {:induction false} JoinLast(ts: seq<string>, t: string, d: char)
    ensures Join(ts + [t], d) == if ts == [] then t else Join(ts, d) + [d] + t
  {
    if ts == [] {
    } else if |ts| == 1 {
      assert (ts + [t])[1..] == [t];
    } else {
      assert (ts + [t])[1..] == ts[1..] + [t];
      JoinLast(ts[1..], t, d);
    }
  }

  lemma JoinNone()
    ensures Join([], '/') == ""
  {
  }

  lemma {:induction false} CountJoin(ts: seq<string>, d: char)
    requires forall t :: t in ts ==> d !in t
    ensures Count(Join(ts, d), d) == if ts == [] then 0 else |ts| - 1
  {
    if ts != [] {
      var init, last := ts[..|ts| - 1], ts[|ts| - 1];
      assert ts == init + [last];
      JoinLast(init, last, d);
      CountNone(last, d);
      if init != [] {
        CountJoin(init, d);
        CountConcat(Join(init, d) + [d], last, d);
        CountConcat(Join(init, d), [d], d);
      }
    }
  }

  lemma {:induction false} TokensEnd(s: string, d: char)
    ensures Tokens(s + [d], d) == Tokens(s, d)
  {
    TokensSplit(s, d, "");
    assert s + [d] + "" == s + [d];
  }

  lemma {:induction false} TokensNewLast(s: string, d: char, c: char)
    requires c != d && (s != "" ==> s[|s| - 1] == d)
    ensures Tokens(s + [c], d) == Tokens(s, d) + [[c]]
  {
    SingleToken([c], d);
    if s == "" {
      assert s + [c] == [c];
    } else {
      var front := s[..|s| - 1];
      assert s == front + [d] && s + [c] == front + [d] + [c];
      TokensSplit(front, d, [c]);
      TokensEnd(front, d);
    }
  }

  lemma {:induction false} TokensGrowLast(s: string, d: char, c: char)
    requires c != d && s != "" && s[|s| - 1] != d
    ensures var ts := Tokens(s, d);
            ts != [] && Tokens(s + [c], d) == ts[..|ts| - 1] + [ts[|ts| - 1] + [c]]
    decreases |s|
  {
    var s' := s + [c];
    if s[0] == d {
      assert s'[1..] == s[1..] + [c];
      TokensGrowLast(s[1..], d, c);
    } else {
      var n := RunLength(s, d);
      if n == |s| {
        assert s[..n] == s;
        SingleToken(s, d);
        SingleToken(s', d);
      } else {
        assert s'[..n] == s[..n];
        RunLengthUnique(s', d, n);
        assert s'[n..] == s[n..] + [c];
        TokensGrowLast(s[n..], d, c);
      }
    }
  }

  lemma {:induction false} ComponentsClean(p: string)
    ensures forall t :: t in Components(p) ==> IsToken(t, '/')
  {
    TokensAreTokens(p, '/');
  }

  // ---------- The normalising loops ----------

  /** The first loop: a slash right behind a slash is not copied. */
  function Squeeze(s: string): (r: string)
    ensures |r| <= |s|
  {
    if s == "" then ""
    else
      var n := |s| - 1;
      if s[n] == '/' && n > 0 && s[n - 1] == '/' then Squeeze(s[..n])
      else Squeeze(s[..n]) + [s[n]]
  }

  predicate EndsInSlash(s: string) {
    s != "" && s[|s| - 1] == '/'
  }

  /** What the first loop leaves: the normal path, and a final slash if there was one. */
  function Squeezable(p: string): string {
    Normal(p) + if EndsInSlash(p) && Components(p) != [] then "/" else ""
  }

  lemma {:induction false} SqueezeSlash(front: string)
    ensures Squeezable(front + "/") == if EndsInSlash(front) then Squeezable(front) else Squeezable(front) + "/"
  {
    TokensEnd(front, '/');
    if front != "" && !EndsInSlash(front) {
      TokensGrowOrStart(front);
    }
  }

  lemma {:induction false} SqueezeOther(front: string, c: char)
    requires c != '/'
    ensures Squeezable(front + [c]) == Squeezable(front) + [c]
  {
    hide Components, Join;
    var comps := Components(front);
    ComponentsOfBlank();
    if front == "" || EndsInSlash(front) {
      NewComponent(front, c);
      JoinLast(comps, [c], '/');
    } else {
      GrownComponent(front, c);
    }
  }

  lemma ComponentsOfBlank()
    ensures Components("") == [] && Join([], '/') == ""
  {
  }

  lemma {:induction false} NewComponent(front: string, c: char)
    requires c != '/' && (front == "" || EndsInSlash(front))
    ensures Components(front + [c]) == Components(front) + [[c]]
  {
    TokensNewLast(front, '/', c);
  }

  lemma {:induction false} GrownComponent(front: string, c: char)
    requires c != '/' && front != "" && !EndsInSlash(front)
    ensures Components(front + [c]) != []
    ensures Join(Components(front + [c]), '/') == Join(Components(front), '/') + [c]
  {
    TokensGrowLast(front, '/', c);
    var comps := Components(front);
    var init, last := comps[..|comps| - 1], comps[|comps| - 1];
    hide Components, Join, Tokens;
    assert comps == init + [last];
    JoinLast(init, last, '/');
    JoinLast(init, last + [c], '/');
  }

  lemma {:induction false} Squeezed(p: string)
    ensures Squeeze(p) == Squeezable(p)
  {
    if p != "" {
      var front, c := p[..|p| - 1], p[|p| - 1];
      assert p == front + [c];
      Squeezed(front);
      if c == '/' {
        SqueezeSlash(front);
      } else {
        SqueezeOther(front, c);
      }
    }
  }

  lemma {:induction false} TokensGrowOrStart(s: string)
    requires s != "" && !EndsInSlash(s)
    ensures Components(s) != []
  {
    TokensGrowLast(s, '/', 'x');
  }

  /** A normal path ends in a slash only when it is the root. */
  lemma {:induction false} NormalEnd(p: string)
    ensures EndsInSlash(Normal(p)) <==> Normal(p) == "/"
    ensures Normal(p) == "" <==> p == ""
    ensures Normal(p) == "/" <==> Absolute(p) && Components(p) == []
  {
    var comps := Components(p);
    if comps != [] {
      NormalSplit(p);
      var last := comps[|comps| - 1];
      hide Components, Assemble;
      assert Normal(p)[|Normal(p)| - 1] == last[|last| - 1];
      assert last[|last| - 1] in last;
    }
  }

  /** How many slashes the counting loop finds. */
  lemma {:induction false} NormalSlashes(p: string)
    ensures var comps := Components(p);
            Count(Normal(p), '/') == (if Absolute(p) then 1 else 0) + (if comps == [] then 0 else |comps| - 1)
  {
    ComponentsClean(p);
    CountJoin(Components(p), '/');
    CountConcat(if Absolute(p) then "/" else "", Join(Components(p), '/'), '/');
  }

  /** Where the cutting loops must stop: behind all components but the last. */
  lemma {:induction false} NormalSplit(p: string)
    requires Components(p) != []
    ensures var comps := Components(p);
            var n := |comps| - 1;
            && '/' !in comps[n] && comps[n] != ""
            && Normal(p) == Assemble(Absolute(p), comps[..n]) + (if n == 0 then "" else "/") + comps[n]
  {
    ComponentsClean(p);
    hide Components, Join;
    var comps := Components(p);
    var n := |comps| - 1;
    assert comps == comps[..n] + [comps[n]];
    JoinLast(comps[..n], comps[n], '/');
    assert IsToken(comps[n], '/');
    JoinNone();
  }

  // ---------- The code ----------

  /** strcpy(path, source) */
  method StrCpy(path: array<char>, source: seq<char>)
    requires NUL !in source && |source| < path.Length
    modifies path
    ensures Terminated(path[..]) && Text(path[..]) == source
  {
    var i := 0;
    while i < |source|
      invariant 0 <= i <= |source| && path[..i] == source[..i]
    {
      path[i] := source[i];
      i := i + 1;
    }
    PutNul(path, i);
    assert path[..][i] == NUL && path[..][..i] == source;
    TextUnique(path[..], i);
  }

  /** Copy path to buf without the slashes that follow a slash. */
  method CopySqueezed(path: array<char>, amount: nat, buf: array<char>) returns (j: nat)
    requires amount <= path.Length && amount <= buf.Length && path != buf
    modifies buf
    ensures j <= amount && buf[..j] == Squeeze(path[..amount])
  {
    var i := 0;
    j := 0;
    while i < amount
      invariant 0 <= j <= i <= amount
      invariant buf[..j] == Squeeze(path[..i])
    {
      assert path[..i + 1][..i] == path[..i];
      if path[i] == '/' && i > 0 && path[i - 1] == '/' {
        i := i + 1;
      } else {
        buf[j] := path[i];
        i := i + 1;
        j := j + 1;
      }
    }
  }

  /** Collapse repeated slashes through a temporary buffer, then drop a final slash. */
  method Normalise(path: array<char>)
    requires Terminated(path[..])
    modifies path
    ensures Terminated(path[..]) && Text(path[..]) == Normal(old(Text(path[..])))
  {
    hide Text, Tokens, Squeeze;
    ghost var p := Text(path[..]);
    var amount := StrLen(path);
    var buf := new char[amount + 1];
    var j := CopySqueezed(path, amount, buf);
    assert path[..amount] == p;
    Squeezed(p);
    SqueezeClean(p);
    NormalEnd(p);
    StrCpy(path, buf[..j]);
    amount := StrLen(path);
    if amount > 0 && path[amount - 1] == '/' && amount != 1 {
      TrimLast(path, amount);
    }
  }

  lemma {:induction false} SqueezeClean(s: string)
    ensures forall c :: c in Squeeze(s) ==> c in s
  {
    if s != "" {
      SqueezeClean(s[..|s| - 1]);
    }
  }

  /** path[amount - 1] = 0 */
  method TrimLast(path: array<char>, amount: nat)
    requires Terminated(path[..]) && amount == |Text(path[..])| > 0
    modifies path
    ensures Terminated(path[..]) && Text(path[..]) == old(Text(path[..]))[..amount - 1]
  {
    ghost var s := Text(path[..]);
    PutNul(path, amount - 1);
    assert path[..][amount - 1] == NUL && path[..][..amount - 1] == s[..amount - 1];
    TextUnique(path[..], amount - 1);
  }

  method CountSlashes(path: array<char>, amount: nat) returns (slash: nat)
    requires Terminated(path[..]) && amount == |Text(path[..])|
    ensures slash == Count(Text(path[..]), '/')
  {
    ghost var s := Text(path[..]);
    slash := 0;
    for i := 0 to amount
      invariant slash == Count(s[..i], '/')
    {
      assert path[i] == s[i] && s[..i + 1] == s[..i] + [s[i]];
      CountConcat(s[..i], [s[i]], '/');
      if path[i] == '/' {
        slash := slash + 1;
      }
    }
    assert s[..amount] == s;
  }

  /** The scan whose only bound is the number of slashes left: it finds the last one in time. */
  method FindLastSlash(path: array<char>, slashes: nat, ghost before: seq<char>, ghost after: seq<char>) returns (at: nat)
    requires Terminated(path[..]) && Text(path[..]) == before + "/" + after
    requires '/' !in after && slashes == Count(before, '/') + 1
    ensures at == |before|
  {
    ghost var s := Text(path[..]);
    var slash := slashes;
    var i := 0;
    at := 0;
    while slash > 0
      invariant slash >= 0 && i >= 0
      invariant slash > 0 ==> i <= |before| && slash == Count(before[i..], '/') + 1
      invariant slash == 0 ==> at == |before|
      decreases slash > 0, |before| - i
    {
      assert path[i] == s[i];
      if i < |before| {
        assert s[i] == before[i] && before[i..][1..] == before[i + 1..];
      } else {
        assert before[i..] == "";
      }
      if path[i] == '/' {
        slash := slash - 1;
        if slash == 0 {
          at := i;
        }
      }
      i := i + 1;
    }
  }

  /** What dirn and basen both do first. */
  method Prepare(pathname: seq<char>) returns (path: array<char>, amount: nat, slash: nat)
    requires NUL !in pathname && |pathname| < 4096
    ensures fresh(path) && Terminated(path[..]) && Text(path[..]) == Normal(pathname)
    ensures amount == |Normal(pathname)| && slash == Count(Normal(pathname), '/')
  {
    hide Text, Tokens;
    path := new char[4096];
    StrCpy(path, pathname);
    Normalise(path);
    amount := StrLen(path);
    slash := CountSlashes(path, amount);
    var whole := Read(path, 0);
    assert path[0..] == path[..];
    NormalEnd(pathname);
    if amount > 0 && path[amount - 1] == '/' && whole != "/" {
      assert false;  // the second trim has nothing left to do
    }
  }

  /** End the string at its last slash. */
  method CutAtLastSlash(path: array<char>, slash: nat, ghost before: seq<char>, ghost after: seq<char>)
    requires Terminated(path[..]) && Text(path[..]) == before + "/" + after
    requires '/' !in after && slash == Count(before, '/') + 1
    modifies path
    ensures Terminated(path[..]) && Text(path[..]) == before
  {
    var at := FindLastSlash(path, slash, before, after);
    PutNul(path, at);
    assert path[..][at] == NUL && path[..][..at] == before;
    TextUnique(path[..], at);
  }

  /** Copy what follows the last slash to filename. */
  method CopyAfterLastSlash(path: array<char>, amount: nat, slash: nat, filename: array<char>, ghost before: seq<char>, ghost after: seq<char>)
    requires Terminated(path[..]) && Text(path[..]) == before + "/" + after && amount == |Text(path[..])|
    requires '/' !in after && slash == Count(before, '/') + 1
    requires |after| < filename.Length && path != filename
    requires forall k :: 0 <= k < filename.Length ==> filename[k] == NUL
    modifies filename
    ensures Terminated(filename[..]) && Text(filename[..]) == after
  {
    var at := FindLastSlash(path, slash, before, after);
    ghost var s := Text(path[..]);
    hide Text;
    var i, j := at + 1, 0;
    while i < amount
      invariant at + 1 <= i <= amount == |s| && j == i - at - 1
      invariant filename[..j] == after[..j]
      invariant forall k :: j <= k < filename.Length ==> filename[k] == NUL
    {
      assert path[i] == s[i] == after[j];
      filename[j] := path[i];
      i := i + 1;
      j := j + 1;
    }
    assert filename[..][j] == NUL && filename[..][..j] == after;
    TextUnique(filename[..], j);
  }

  /** Around the last slash of a normal path that has one. */
  lemma {:induction false} AroundLastSlash(p: string) returns (before: string, after: string)
    requires Normal(p) != "/" && Count(Normal(p), '/') > 0
    ensures Normal(p) == before + "/" + after && '/' !in after && after == Base(p)
    ensures Count(Normal(p), '/') == Count(before, '/') + 1
    ensures Count(Normal(p), '/') > 1 || !Absolute(p) ==> before == Dir(p)
  {
    NormalEnd(p);
    NormalSlashes(p);
    NormalSplit(p);
    var comps := Components(p);
    after := comps[|comps| - 1];
    before := if |comps| == 1 then "" else Dir(p);
    assert Normal(p) == before + "/" + after;
    CountConcat(before + "/", after, '/');
    CountConcat(before, "/", '/');
    CountNone(after, '/');
  }

  method Dirn(pathname: seq<char>) returns (result: seq<char>)
    requires NUL !in pathname && |pathname| < 4096
    ensures result == Dir(pathname)
  {
    hide Text, Tokens, Count;
    var path, amount, slash := Prepare(pathname);
    var whole := Read(path, 0);
    assert path[0..] == path[..];
    NormalEnd(pathname);
    NormalSlashes(pathname);
    NormalIsCanonical(pathname);
    if whole == "/" || (slash == 1 && whole[0] == '/') {
      return "/";
    }
    if slash == 0 {
      return ".";
    }
    ghost var before, after := AroundLastSlash(pathname);
    if whole == ".." {
      assert false;  // it has no slash
    }
    CutAtLastSlash(path, slash, before, after);
    result := Read(path, 0);
    assert path[0..] == path[..];
  }

  method Basen(pathname: seq<char>) returns (result: seq<char>)
    requires NUL !in pathname && |pathname| < 4096
    requires |Base(pathname)| < 255
    ensures result == Base(pathname)
  {
    hide Text, Tokens, Count, Normal, Base, Dir;
    var path, amount, slash := Prepare(pathname);
    var filename := new char[255](_ => NUL);
    var whole := Read(path, 0);
    assert path[0..] == path[..];
    Recompose(pathname);
    CountNone(Normal(pathname), '/');
    if amount == 0 {
      return ".";
    }
    if slash == 0 {
      return whole;
    }
    if whole == "/" {
      return whole;
    }
    ghost var before, after := AroundLastSlash(pathname);
    if whole == "." || whole == ".." {
      assert false;  // neither has a slash
    }
    CopyAfterLastSlash(path, amount, slash, filename, before, after);
    result := Read(filename, 0);
    assert filename[0..] == filename[..];
  }

  // ---------- Laws ----------

  lemma {:induction false} ComponentsOfAssembled(absolute: bool, comps: seq<string>)
    requires forall t :: t in comps ==> IsToken(t, '/')
    ensures var p := Assemble(absolute, comps); Components(p) == comps && Absolute(p) == absolute
  {
    TokensOfJoin(comps, '/');
    NonEmptyIdentity(comps);
    if absolute {
      TokensSplit("", '/', Join(comps, '/'));
      assert Assemble(absolute, comps) == "" + ['/'] + Join(comps, '/');
    } else if comps != [] {
      assert IsToken(comps[0], '/') && comps[0][0] in comps[0];
      assert Join(comps, '/')[0] == comps[0][0];
      assert Assemble(absolute, comps) == Join(comps, '/');
    }
  }

  /** Normalising loses no component, and once is enough. */
  lemma {:induction false} NormalIsCanonical(p: string)
    ensures Components(Normal(p)) == Components(p) && Absolute(Normal(p)) == Absolute(p)
    ensures Normal(Normal(p)) == Normal(p)
    ensures Dir(Normal(p)) == Dir(p) && Base(Normal(p)) == Base(p)
  {
    ComponentsClean(p);
    ComponentsOfAssembled(Absolute(p), Components(p));
  }

  /** Two paths have one normal form exactly when they agree on root and components. */
  lemma {:induction false} NormalDistinguishes(p: string, q: string)
    ensures Normal(p) == Normal(q) <==> Absolute(p) == Absolute(q) && Components(p) == Components(q)
  {
    hide Tokens, Join, Dir, Base;
    NormalIsCanonical(p);
    NormalIsCanonical(q);
  }

  lemma {:induction false} RootAndDot()
    ensures Components("/") == [] && Components(".") == ["."] && Normal("/") == "/" && Normal(".") == "."
  {
    SingleToken(".", '/');
    assert Tokens("/", '/') == Tokens("/"[1..], '/') == [];
  }

  /** What Dir keeps, and that its result needs no normalising. */
  lemma {:induction false} DirSteps(p: string)
    ensures var comps := Components(p);
            && Absolute(Dir(p)) == Absolute(p)
            && Components(Dir(p)) == if |comps| <= 1 then (if Absolute(p) then [] else ["."]) else comps[..|comps| - 1]
    ensures Normal(Dir(p)) == Dir(p)
  {
    hide Tokens, Join;
    var comps := Components(p);
    ComponentsClean(p);
    if |comps| <= 1 {
      RootAndDot();
    } else {
      ComponentsOfAssembled(Absolute(p), comps[..|comps| - 1]);
    }
  }

  /** dirn and basen put together give back the normal path, in each case there is. */
  lemma {:induction false} Recompose(p: string)
    ensures '/' in Normal(p) && Normal(p) != "/" ==>
              Normal(p) == (if Dir(p) == "/" then "/" else Dir(p) + "/") + Base(p)
    ensures Normal(p) == "/" ==> Dir(p) == "/" && Base(p) == "/"
    ensures '/' !in Normal(p) && Normal(p) != "" ==> Dir(p) == "." && Base(p) == Normal(p)
    ensures Normal(p) == "" ==> Dir(p) == "." && Base(p) == "."
  {
    NormalEnd(p);
    NormalSlashes(p);
    CountNone(Normal(p), '/');
    var comps := Components(p);
    if comps != [] {
      NormalSplit(p);
      var init := comps[..|comps| - 1];
      if init != [] {
        DirSteps(p);
        assert Components("/") == Tokens("/"[1..], '/') == [];
      } else {
        assert comps == [comps[0]];
      }
    }
  }

  function Iterate(p: string, k: nat): string
    decreases k
  {
    if k == 0 then p else Iterate(Dir(p), k - 1)
  }

  /** Climbing reaches "/" or "." for good, no later than one step per slash and one more. */
  lemma {:induction false} Climb(p: string, k: nat)
    ensures k > 0 && k >= |Components(p)| ==> Iterate(p, k) == if Absolute(p) then "/" else "."
    ensures Absolute(p) && 0 < k < |Components(p)| ==> Iterate(p, k) != "/"
    decreases k
  {
    if k > 0 {
      DirSteps(p);
      if k > 1 {
        Climb(Dir(p), k - 1);
      } else if Absolute(p) && |Components(p)| > 1 {
        NormalEnd(Dir(p));
      }
    }
  }

  lemma {:induction false} ClimbInSlashes(p: string, k: nat)
    requires k >= Count(p, '/') + 1
    ensures Iterate(p, k) == if Absolute(p) then "/" else "."
  {
    ComponentsAtMostSlashes(p);
    Climb(p, k);
  }

  lemma {:induction false} ComponentsAtMostSlashes(p: string)
    ensures |Components(p)| <= Count(p, '/') + 1
    decreases |p|
  {
    if p != "" {
      if p[0] == '/' {
        ComponentsAtMostSlashes(p[1..]);
      } else {
        var n := RunLength(p, '/');
        CountConcat(p[..n], p[n..], '/');
        assert p == p[..n] + p[n..];
        if n < |p| {
          assert Components(p[n..]) == Components(p[n..][1..]);
          ComponentsAtMostSlashes(p[n..][1..]);
        } else {
          assert Components(p[n..]) == [];
        }
      }
    }
  }

  /** An absolute path with surplus slashes, and a relative one. */
  lemma {:induction false} Examples()
    ensures Normal("/usr//lib/") == "/usr/lib" && Dir("/usr//lib/") == "/usr" && Base("/usr//lib/") == "lib"
    ensures Normal("usr/") == "usr" && Dir("usr/") == "." && Base("usr/") == "usr"
  {
    hide Tokens, Join;
    ExampleComponents();
    assert ["usr", "lib"][..1] == ["usr"];
    assert "/" + "usr/lib" == "/usr/lib" && "/" + "usr" == "/usr" && "" + "usr" == "usr";
  }

  lemma {:induction false} ExampleComponents()
    ensures Components("/usr//lib/") == ["usr", "lib"] && Components("usr/") == ["usr"]
    ensures Join(["usr"], '/') == "usr" && Join(["usr", "lib"], '/') == "usr/lib"
  {
    hide Tokens;
    SingleToken("usr", '/');
    SingleToken("lib", '/');
    TokensEnd("usr", '/');
    TokensEnd("lib", '/');
    LeadingSlash("usr//lib/");
    TokensSplit("usr", '/', "/lib/");
    LeadingSlash("lib/");
    assert "usr" + ['/'] + "/lib/" == "usr//lib/" && "usr" + ['/'] == "usr/" && "lib" + ['/'] == "lib/";
    assert ['/'] + "usr//lib/" == "/usr//lib/" && ['/'] + "lib/" == "/lib/";
    assert ["usr", "lib"][1..] == ["lib"];
    assert "usr" + ['/'] + "lib" == "usr/lib";
  }

  lemma {:induction false} LeadingSlash(s: string)
    ensures Components(['/'] + s) == Components(s)
  {
    assert (['/'] + s)[1..] == s;
  }
}
