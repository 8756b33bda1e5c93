/** Lists kept as text, one item to a line, and the rebuilding pass that takes a name out. */
module Names {
  import opened Types
  import opened CStrings

  /** Each item followed by a newline. */
  function Render(names: seq<string>): string {
    if names == [] then "" else names[0] + "\n" + Render(names[1..])
  }

  /** The items other than name. */
  function Without(names: seq<string>, name: string): seq<string> {
    if names == [] then []
    else (if names[0] == name then [] else [names[0]]) + Without(names[1..], name)
  }

  predicate OneLine(t: string) {
    '\n' !in t && NUL !in t
  }

  lemma {:induction false} RenderConcat(a: seq<string>, b: seq<string>)
    ensures Render(a + b) == Render(a) + Render(b)
  {
    if a == [] {
      assert a + b == b;
    } else {
      assert (a + b)[1..] == a[1..] + b;
      RenderConcat(a[1..], b);
    }
  }

  lemma {:induction false} RenderCons(name: string, rest: seq<string>)
    ensures Render([name] + rest) == name + "\n" + Render(rest)
  {
    assert ([name] + rest)[1..] == rest;
  }

  /** Reading a rendered list line by line gives the list, less its blank items. */
  lemma {:induction false} TokensOfRender(names: seq<string>)
    requires forall n :: n in names ==> '\n' !in n
    ensures Tokens(Render(names), '\n') == NonEmpty(names)
  {
    if names != [] {
      TokensSplit(names[0], '\n', Render(names[1..]));
      TokensOfRender(names[1..]);
      if names[0] != "" {
        SingleToken(names[0], '\n');
      }
    }
  }

  lemma {:induction false} CountRender(names: seq<string>)
    requires forall n :: n in names ==> '\n' !in n
    ensures Count(Render(names), '\n') == |names|
  {
    if names != [] {
      CountConcat(names[0] + "\n", Render(names[1..]), '\n');
      CountConcat(names[0], "\n", '\n');
      CountNone(names[0], '\n');
      CountRender(names[1..]);
    }
  }

  lemma {:induction false} RenderClean(names: seq<string>)
    requires forall n :: n in names ==> NUL !in n
    ensures NUL !in Render(names)
  {
    if names != [] {
      RenderClean(names[1..]);
    }
  }

  lemma {:induction false} MemberOfWithout(names: seq<string>, name: string)
    ensures forall n :: n in Without(names, name) <==> n in names && n != name
    ensures name !in names ==> Without(names, name) == names
    ensures |Render(Without(names, name))| <= |Render(names)|
  {
    if names != [] {
      MemberOfWithout(names[1..], name);
      assert names == [names[0]] + names[1..];
      RenderCons(names[0], Without(names[1..], name));
      assert |Render(names)| == |names[0]| + 1 + |Render(names[1..])|;
      assert names[0] != name ==> |Render(Without(names, name))| == |names[0]| + 1 + |Render(Without(names[1..], name))|;
      assert names[0] == name ==> Without(names, name) == Without(names[1..], name);
    }
  }

  lemma {:induction false} WithoutConcat(a: seq<string>, b: seq<string>, name: string)
    ensures Without(a + b, name) == Without(a, name) + Without(b, name)
  {
    if a == [] {
      assert a + b == b;
    } else {
      assert (a + b)[1..] == a[1..] + b;
      WithoutConcat(a[1..], b, name);
    }
  }

  /** Each occurrence of the name goes, and the rest stays as it is. */
  lemma {:induction false} WithoutSplits(before: seq<string>, name: string, after: seq<string>)
    ensures Without(before + [name] + after, name) == Without(before, name) + Without(after, name)
    ensures name !in before ==> Without(before, name) == before
  {
    MemberOfWithout(before, name);
    WithoutConcat(before + [name], after, name);
    WithoutConcat(before, [name], name);
    assert Without([name], name) == Without([name][1..], name) == [];
  }

  lemma {:induction false} MemberOfNonEmpty(names: seq<string>)
    ensures forall n :: n in NonEmpty(names) <==> n in names && n != ""
    ensures |Render(NonEmpty(names))| <= |Render(names)|
  {
    if names != [] {
      MemberOfNonEmpty(names[1..]);
      assert names == [names[0]] + names[1..];
      RenderCons(names[0], NonEmpty(names[1..]));
      assert |Render(names)| == |names[0]| + 1 + |Render(names[1..])|;
      assert names[0] != "" ==> |Render(NonEmpty(names))| == |names[0]| + 1 + |Render(NonEmpty(names[1..]))|;
      assert names[0] == "" ==> NonEmpty(names) == NonEmpty(names[1..]);
    }
  }

  /** What keeping or dropping the next line does to the list built so far. */
  lemma {:induction false} KeepOne(lines: seq<string>, kept: seq<string>, todo: seq<string>, name: string) returns (kept': seq<string>)
    requires todo != [] && Without(lines, name) == kept + Without(todo, name)
    ensures kept' == if todo[0] == name then kept else kept + [todo[0]]
    ensures Without(lines, name) == kept' + Without(todo[1..], name)
    ensures |Render(kept')| <= |Render(lines)|
    ensures Render(kept + [todo[0]]) == Render(kept) + todo[0] + "\n"
  {
    kept' := if todo[0] == name then kept else kept + [todo[0]];
    assert Without(lines, name) == kept' + Without(todo[1..], name);
    MemberOfWithout(lines, name);
    RenderConcat(kept', Without(todo[1..], name));
    RenderConcat(kept, [todo[0]]);
    assert Render([todo[0]]) == todo[0] + "\n" + Render([]);
  }

  /** strncat the line and strcat its newline. */
  method AppendLine(out: array<char>, line: string)
    requires Terminated(out[..]) && NUL !in line && |Text(out[..])| + |line| + 1 < out.Length
    modifies out
    ensures Terminated(out[..]) && Text(out[..]) == old(Text(out[..])) + line + "\n"
  {
    StrCat(out, line);
    StrCat(out, "\n");
  }

  /** The strtok loop of both delete_name functions: append to out every line of buf but name. */
  method Rebuild(strtok: Tokenizer, buf: array<char>, out: array<char>, name: string)
    requires Terminated(buf[..]) && Terminated(out[..]) && buf != out
    requires |Render(Tokens(Text(buf[..]), '\n'))| < out.Length && Text(out[..]) == ""
    modifies strtok, buf, out
    ensures Terminated(out[..])
    ensures Text(out[..]) == Render(Without(Tokens(old(Text(buf[..])), '\n'), name))
  {
    hide Text, Tokens, Tokenizer.Pending, Without;
    ghost var lines := Tokens(Text(buf[..]), '\n');
    ghost var todo, kept := lines, [];
    var ptr: Option<nat> := strtok.First(buf, '\n');
    while ptr != None
      invariant strtok.saved == buf && strtok.Pending(ptr, todo, '\n')
      invariant Terminated(out[..]) && Text(out[..]) == Render(kept)
      invariant Without(lines, name) == kept + Without(todo, name)
      invariant |Render(lines)| < out.Length
      decreases |todo|
    {
      strtok.InHand(ptr, todo, '\n');
      var word;
      word, ptr := strtok.Take(ptr, todo, '\n');
      ghost var kept' := KeepOne(lines, kept, todo, name);
      if name != word {
        AppendLine(out, word);
      }
      todo, kept := todo[1..], kept';
    }
    strtok.InHand(ptr, todo, '\n');
    MemberOfWithout(todo, name);
    assert kept + [] == kept;
  }
}
