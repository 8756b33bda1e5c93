/** The line splitter of the piping shell: each level counts its tokens on a copy of the
    text and then cuts the text itself, through the one strtok state they all share. */
module Shell {
  import opened Types
  import opened CStrings

  const PATH := "/bin/"

  function Words(stage: string): seq<string> {
    Tokens(stage, ' ')
  }

  /** The argument made of word number i. */
  function WithPath(path: string, word: string, i: nat): string {
    if i == 0 then path + word else word
  }

  /** The argument vector of one stage: its words, the first made a path. */
  function Argv(stage: string): seq<string> {
    var ws := Words(stage);
    seq(|ws|, i requires 0 <= i < |ws| => WithPath(PATH, ws[i], i))
  }

  function Stages(line: string): seq<string> {
    Tokens(line, '|')
  }

  function Argvs(stages: seq<string>): (r: seq<seq<string>>)
    ensures |r| == |stages|
    ensures forall i :: 0 <= i < |r| ==> r[i] == Argv(stages[i])
  {
    if stages == [] then [] else [Argv(stages[0])] + Argvs(stages[1..])
  }

  /** What a line asks to be run: one argument vector for each stage. */
  function Pipeline(line: string): seq<seq<string>> {
    Argvs(Stages(line))
  }

  /** The arguments execve sees: everything before the first NULL. */
  function Passed(a: seq<Option<string>>): seq<string> {
    if a == [] || a[0] == None then [] else [a[0].value] + Passed(a[1..])
  }

  lemma {:induction false} PassedIs(a: seq<Option<string>>, words: seq<string>)
    requires |words| < |a| && a[|words|] == None
    requires forall i :: 0 <= i < |words| ==> a[i] == Some(words[i])
    ensures Passed(a) == words
  {
    if words != [] {
      PassedIs(a[1..], words[1..]);
      assert words == [words[0]] + words[1..];
    }
  }

  // ---------- The four passes ----------

  /** The common counting pass on a copy of size bytes. */
  method CountTokens(strtok: Tokenizer, s: array<char>, d: char, size: nat) returns (count: nat)
    requires Terminated(s[..]) && |Text(s[..])| < size && d != NUL
    modifies strtok
    ensures count == |Tokens(Text(s[..]), d)|
  {
    var buf := CopyOf(s, size);
    count := 0;
    var ptr: Option<nat> := strtok.First(buf, d);
    ghost var todo := Tokens(Text(s[..]), d);
    while ptr != None
      invariant strtok.saved == buf && fresh(buf) && strtok.Pending(ptr, todo, d)
      invariant count + |todo| == |Tokens(Text(s[..]), d)|
      invariant s[..] == old(s[..])
      decreases |todo|
    {
      count := count + 1;
      ptr := strtok.Next(d);
      todo := todo[1..];
    }
  }

  method CommandCount(strtok: Tokenizer, s: array<char>) returns (count: nat)
    requires Terminated(s[..]) && |Text(s[..])| < 512
    modifies strtok
    ensures count == |Stages(Text(s[..]))|
  {
    count := CountTokens(strtok, s, '|', 512);
  }

  method LexemesCount(strtok: Tokenizer, s: array<char>) returns (count: nat)
    requires Terminated(s[..]) && |Text(s[..])| < 50
    modifies strtok
    ensures count == |Words(Text(s[..]))|
  {
    count := CountTokens(strtok, s, ' ', 50);
  }

  ghost predicate Holds(a: array<array?<char>>, i: int, t: string)
    requires 0 <= i < a.Length
    reads a, a[i]
  {
    a[i] != null && Terminated(a[i][..]) && Text(a[i][..]) == t
  }

  /** Cut s at '|' and leave a fresh copy of each of the first count stages in a. */
  method Command(strtok: Tokenizer, s: array<char>, a: array<array?<char>>, count: nat)
    requires Terminated(s[..]) && count <= |Stages(Text(s[..]))| && count <= a.Length
    modifies strtok, s, a
    ensures forall i :: 0 <= i < count ==> fresh(a[i]) && Holds(a, i, old(Stages(Text(s[..])))[i])
    ensures forall i, j :: 0 <= i < j < count ==> a[i] != a[j]
    ensures forall i :: count <= i < a.Length ==> a[i] == old(a[i])
  {
    hide Text, Tokens, Tokenizer.Pending;
    ghost var stages := Stages(Text(s[..]));
    ghost var todo := stages;
    var ptr: Option<nat> := strtok.First(s, '|');
    var i := 0;
    while i < count
      invariant 0 <= i <= count
      invariant strtok.saved == s && strtok.Pending(ptr, todo, '|')
      invariant todo == stages[i..]
      invariant forall k :: 0 <= k < i ==> fresh(a[k]) && a[k] != s && Holds(a, k, stages[k])
      invariant forall k, m :: 0 <= k < m < i ==> a[k] != a[m]
      invariant forall k :: i <= k < a.Length ==> a[k] == old(a[k])
    {
      var word;
      word, ptr := strtok.Take(ptr, todo, '|');
      var copy := StrDup(word);
      a[i] := copy;
      todo := todo[1..];
      i := i + 1;
    }
  }

  /** Cut s at blanks and fill a with the first count words, the first behind path, and NULL. */
  method Param(strtok: Tokenizer, a: array<Option<string>>, s: array<char>, path: string, count: nat)
    requires Terminated(s[..]) && count <= |Words(Text(s[..]))| && count < a.Length
    modifies strtok, s, a
    ensures forall i :: 0 <= i < count ==> a[i] == Some(WithPath(path, old(Words(Text(s[..])))[i], i))
    ensures a[count] == None
    ensures forall i :: count < i < a.Length ==> a[i] == old(a[i])
  {
    hide Text, Tokens, Tokenizer.Pending;
    ghost var words := Words(Text(s[..]));
    ghost var todo := words;
    var ptr: Option<nat> := strtok.First(s, ' ');
    var i := 0;
    while i < count
      invariant 0 <= i <= count
      invariant strtok.saved == s && strtok.Pending(ptr, todo, ' ')
      invariant todo == words[i..]
      invariant forall k :: 0 <= k < i ==> a[k] == Some(WithPath(path, words[k], k))
      invariant forall k :: i <= k < a.Length ==> a[k] == old(a[k])
    {
      var word;
      word, ptr := strtok.Take(ptr, todo, ' ');
      if i == 0 {
        a[i] := Some(path + word);
      } else {
        a[i] := Some(word);
      }
      todo := todo[1..];
      i := i + 1;
    }
    a[count] := None;
  }

  // ---------- One turn of main ----------

  /** What fgets leaves in the buffer for a typed line: the line, and its newline if that came. */
  predicate Fetched(text: string, typed: string) {
    '\n' !in typed && (text == typed || text == typed + "\n")
  }

  /** At the end of input the line is empty and there is nothing to drop. */
  method DropNewline(command: array<char>, ghost typed: string)
    requires Terminated(command[..]) && Fetched(Text(command[..]), typed)
    modifies command
    ensures Terminated(command[..]) && Text(command[..]) == typed
  {
    var i: int := StrLen(command);
    i := i - 1;
    if i >= 0 && command[i] == '\n' {
      ghost var line := Text(command[..]);
      PutNul(command, i);
      assert command[..][..i] == line[..i];
      assert command[..][i] == NUL;
      TextUnique(command[..], i);
    }
  }

  /** Every buffer downstream of a 49-character line is large enough. */
  lemma {:induction false} LineFits(line: string, i: nat)
    requires |line| < 50 && i < |Stages(line)|
    ensures |Stages(line)[i]| < 50 && |Words(Stages(line)[i])| <= 25
    ensures Stages(line)[i] != "" && '|' !in Stages(line)[i]
  {
    TokensAreTokens(line, '|');
    assert Stages(line)[i] in Stages(line);
    TokensAreTokens(Stages(line)[i], ' ');
  }

  /** Count the words of one stage, build its argv, and hand that to execve. */
  method RunStage(strtok: Tokenizer, argv: array<Option<string>>, s: array<char>) returns (run: seq<string>)
    requires Terminated(s[..]) && |Text(s[..])| < 50 && argv.Length == 256
    requires |Words(Text(s[..]))| < argv.Length
    modifies strtok, argv, s
    ensures run == old(Argv(Text(s[..])))
  {
    var lCount := LexemesCount(strtok, s);
    Param(strtok, argv, s, PATH, lCount);
    PassedIs(argv[..], old(Argv(Text(s[..]))));
    run := Passed(argv[..]);
  }

  /** n stages in as short a line as they fit. */
  function Crowded(n: nat): string
    requires n > 0
  {
    Join(seq(n, _ => "w"), '|')
  }

  lemma {:induction false} CrowdedStages(n: nat)
    requires n > 0
    ensures |Crowded(n)| == 2 * n - 1 && |Stages(Crowded(n))| == n && Crowded(n)[2 * n - 2] == 'w'
  {
    var ts := seq(n, _ => "w");
    TokensOfJoin(ts, '|');
    NonEmptyIdentity(ts);
    if n > 1 {
      CrowdedStages(n - 1);
      assert ts[1..] == seq(n - 1, _ => "w");
    }
  }

  /** A table of stages has room for every line that fgets can read exactly when it has 25 entries or more. */
  lemma {:induction false} TableFits(capacity: nat)
    ensures (forall line :: |line| < 50 ==> |Stages(line)| <= capacity) <==> capacity >= 25
  {
    hide Tokens;
    forall line | |line| < 50
      ensures |Stages(line)| <= 25
    {
      TokensAreTokens(line, '|');
    }
    CrowdedStages(25);
  }

  /** Read a line, and hand each stage's arguments to execve; None is "exit". */
  method Turn(strtok: Tokenizer, command: array<char>, commandPath: array<array?<char>>, argv: array<Option<string>>, ghost line: string)
    returns (runs: Option<seq<seq<string>>>)
    requires argv.Length == 256 && Terminated(command[..]) && |Text(command[..])| < 50 && Fetched(Text(command[..]), line)
    requires |Stages(line)| <= commandPath.Length
    modifies strtok, command, commandPath, argv
    ensures runs == if line == "exit" then None else Some(Pipeline(line))
  {
    hide Text, Tokens, Argvs, Words;
    DropNewline(command, line);
    var typed := Read(command, 0);
    assert command[0..] == command[..];
    if typed == "exit" {
      return None;
    }
    var pCount := CommandCount(strtok, command);
    Command(strtok, command, commandPath, pCount);
    var out: seq<seq<string>> := [];
    var j := 0;
    ghost var paths := commandPath[..];
    while j < pCount
      invariant 0 <= j <= pCount == |Stages(line)| && commandPath[..] == paths
      invariant forall i :: j <= i < pCount ==> fresh(commandPath[i]) && Holds(commandPath, i, Stages(line)[i])
      invariant forall i, k :: 0 <= i < k < pCount ==> commandPath[i] != commandPath[k]
      invariant out == Argvs(Stages(line))[..j]
    {
      LineFits(line, j);
      assert commandPath[j] != null;
      var run := RunStage(strtok, argv, commandPath[j]);
      out := out + [run];
      j := j + 1;
    }
    assert Pipeline(line)[..j] == Pipeline(line);
    runs := Some(out);
  }

  // ---------- Printing and splitting again ----------

  /** The words a user would type for an argument vector. */
  function Typed(argv: seq<string>): seq<string>
    requires argv != [] ==> |argv[0]| >= |PATH|
  {
    if argv == [] then [] else [argv[0][|PATH|..]] + argv[1..]
  }

  predicate Printable(argvs: seq<seq<string>>) {
    forall i :: 0 <= i < |argvs| ==> (argvs[i] != [] ==> |argvs[i][0]| >= |PATH|)
  }

  function PrintStages(argvs: seq<seq<string>>): (ps: seq<string>)
    requires Printable(argvs)
    ensures |ps| == |argvs|
    ensures forall i :: 0 <= i < |ps| ==> ps[i] == Join(Typed(argvs[i]), ' ')
  {
    if argvs == [] then [] else [Join(Typed(argvs[0]), ' ')] + PrintStages(argvs[1..])
  }

  function Print(argvs: seq<seq<string>>): string
    requires Printable(argvs)
  {
    Join(PrintStages(argvs), '|')
  }

  /** Every stage has something to run. */
  predicate EveryStageHasAWord(line: string) {
    forall i :: 0 <= i < |Stages(line)| ==> Words(Stages(line)[i]) != []
  }

  /** Printing one stage keeps its words and adds no '|'. */
  lemma {:induction false} PrintedStage(stage: string)
    requires '|' !in stage
    ensures Typed(Argv(stage)) == Words(stage)
    ensures Words(Join(Words(stage), ' ')) == Words(stage)
    ensures '|' !in Join(Words(stage), ' ')
    ensures Join(Words(stage), ' ') == "" <==> Words(stage) == []
  {
    hide Tokens, Join, NonEmpty, Argv, Typed;
    TypedWords(stage);
    var ws := Words(stage);
    TokensAreTokens(stage, ' ');
    TokensOfJoin(ws, ' ');
    NonEmptyIdentity(ws);
    JoinChars(ws, ' ');
    BlankJoin(ws);
  }

  lemma {:induction false} BlankJoin(ws: seq<string>)
    requires "" !in ws
    ensures Join(ws, ' ') == "" <==> ws == []
  {
  }

  lemma {:induction false} TypedWords(stage: string)
    ensures Typed(Argv(stage)) == Words(stage)
  {
    hide Tokens;
    var ws := Words(stage);
    if ws != [] {
      assert (PATH + ws[0])[|PATH|..] == ws[0];
      assert ws == [ws[0]] + ws[1..];
    }
  }

  lemma {:induction false} PipelinePrintable(line: string)
    ensures Printable(Pipeline(line))
  {
    forall i | 0 <= i < |Pipeline(line)| && Pipeline(line)[i] != []
      ensures |Pipeline(line)[i][0]| >= |PATH|
    {
      assert Pipeline(line)[i] == Argv(Stages(line)[i]);
    }
  }

  /** Splitting, printing and splitting again runs the same things exactly when no stage is blank. */
  lemma {:induction false} SplitPrintSplit(line: string)
    ensures Printable(Pipeline(line))
    ensures Pipeline(Print(Pipeline(line))) == Pipeline(line) <==> EveryStageHasAWord(line)
  {
    PipelinePrintable(line);
    TokensAreTokens(line, '|');
    var stages, p := Stages(line), Pipeline(line);
    var ps := PrintStages(p);
    forall i | 0 <= i < |ps|
      ensures ps[i] == Join(Words(stages[i]), ' ') && Words(ps[i]) == Words(stages[i])
      ensures '|' !in ps[i] && (ps[i] == "" <==> Words(stages[i]) == [])
    {
      assert stages[i] in stages;
      PrintedStage(stages[i]);
    }
    TokensOfJoin(ps, '|');
    NonEmptyIdentity(ps);
    if EveryStageHasAWord(line) {
      assert Stages(Print(p)) == ps;
      forall i | 0 <= i < |p|
        ensures Argv(ps[i]) == p[i]
      {
      }
      assert Argvs(ps) == p;
    } else {
      var i :| 0 <= i < |stages| && Words(stages[i]) == [];
      assert ps[i] == "";
      assert |Stages(Print(p))| < |p|;
    }
  }

  /** "ls -l|wc" asks for ls with one argument and wc with none. */
  lemma {:induction false} LineExample()
    ensures Fetched("ls -l|wc\n", "ls -l|wc") && Pipeline("ls -l|wc") == [["/bin/ls", "-l"], ["/bin/wc"]]
  {
    hide Tokens;
    TokensSplit("ls -l", '|', "wc");
    TokensSplit("ls", ' ', "-l");
    SingleToken("ls -l", '|');
    SingleToken("-l", ' ');
    OneToken();
    assert "ls -l" + ['|'] + "wc" == "ls -l|wc" && "ls" + [' '] + "-l" == "ls -l";
    assert PATH + "ls" == "/bin/ls" && PATH + "wc" == "/bin/wc";
    assert Argv("ls -l") == ["/bin/ls", "-l"] && Argv("wc") == ["/bin/wc"];
    ArgvsOf("ls -l", ["wc"]);
    ArgvsOf("wc", []);
  }

  /** "ls| |wc": three stages, of which the blank one is gone when the line is split again. */
  lemma {:induction false} BlankStageExample()
    ensures var line := "ls| |wc";
            && Pipeline(line) == [["/bin/ls"], [], ["/bin/wc"]] && !EveryStageHasAWord(line)
            && Printable(Pipeline(line)) && Pipeline(Print(Pipeline(line))) == [["/bin/ls"], ["/bin/wc"]]
  {
    hide Tokens;
    var line := "ls| |wc";
    BlankStageSplit();
    OneToken();
    var argvs := [["/bin/ls"], [], ["/bin/wc"]];
    var ps := PrintStages(argvs);
    assert "/bin/ls"[5..] == "ls" && "/bin/wc"[5..] == "wc";
    assert ps == ["ls", "", "wc"];
    TokensOfJoin(ps, '|');
    NonBlank();
    ArgvsOf("ls", ["wc"]);
    ArgvsOf("wc", []);
  }

  lemma {:induction false} BlankStageSplit()
    ensures Stages("ls| |wc") == ["ls", " ", "wc"] && Pipeline("ls| |wc") == [["/bin/ls"], [], ["/bin/wc"]]
    ensures Argv("ls") == ["/bin/ls"] && Argv("wc") == ["/bin/wc"]
  {
    hide Tokens;
    TokensSplit("ls", '|', " |wc");
    TokensSplit(" ", '|', "wc");
    OneToken();
    assert "ls" + ['|'] + " |wc" == "ls| |wc" && " " + ['|'] + "wc" == " |wc";
    assert Argv("ls") == [PATH + "ls"] && Argv(" ") == [] && Argv("wc") == [PATH + "wc"];
    assert PATH + "ls" == "/bin/ls" && PATH + "wc" == "/bin/wc";
    ArgvsOf("ls", [" ", "wc"]);
    ArgvsOf(" ", ["wc"]);
    ArgvsOf("wc", []);
  }

  lemma {:induction false} NonBlank()
    ensures NonEmpty(["ls", "", "wc"]) == ["ls", "wc"]
  {
    assert ["ls", "", "wc"][1..] == ["", "wc"] && ["", "wc"][1..] == ["wc"] && ["wc"][1..] == [];
    assert NonEmpty(["wc"]) == ["wc"] && NonEmpty(["", "wc"]) == ["wc"];
  }

  lemma {:induction false} ArgvsOf(stage: string, rest: seq<string>)
    ensures Argvs([stage] + rest) == [Argv(stage)] + Argvs(rest)
    ensures Argvs([]) == []
  {
    assert ([stage] + rest)[1..] == rest;
  }

  lemma {:induction false} OneToken()
    ensures Tokens("ls", '|') == ["ls"] && Tokens(" ", '|') == [" "] && Tokens("wc", '|') == ["wc"]
    ensures Tokens("ls", ' ') == ["ls"] && Tokens(" ", ' ') == [] && Tokens("wc", ' ') == ["wc"]
  {
    SingleToken("ls", '|');
    SingleToken(" ", '|');
    SingleToken("wc", '|');
    SingleToken("ls", ' ');
    SingleToken("wc", ' ');
  }
}
