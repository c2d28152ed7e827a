/** `ScriptBuilder.GetScript` (`cmd/ScriptBuilder.cs`): turns the argument list
    of a `cmd`-style invocation into a script. A `/C` switch is dropped while
    nothing has been written, each `&` ends a line, and the other arguments
    are written in order, separated by one space within a line. The line
    break `Environment.NewLine` is the parameter `newLine`. */
module ScriptBuilder {
  import opened Strings
  import opened Sequences

  /** Whether the argument is the `/C` switch, compared without regard to the
      case of its letter. */
  predicate IsCommandSwitch(arg: string) {
    |arg| == 2 && arg[0] == '/' && (arg[1] == 'C' || arg[1] == 'c')
  }

  /** The builder between two arguments: the text so far and whether the next
      argument starts a line. */
  datatype Builder = Builder(script: string, newLine: bool)

  const Start := Builder([], true)

  /** The body of the `foreach` for one argument. */
  function Step(b: Builder, arg: string, newLine: string): (r: Builder)
    ensures IsCommandSwitch(arg) && b.script == [] ==> r == b
    ensures !(IsCommandSwitch(arg) && b.script == []) ==> b.script <= r.script
  {
    if IsCommandSwitch(arg) && |b.script| == 0 then b
    else if arg == "&" then Builder(b.script + newLine, true)
    else Builder(b.script + (if b.newLine then [] else " ") + arg, false)
  }

  /** The `foreach` over the arguments, from the builder `b`. */
  function Run(b: Builder, args: seq<string>, newLine: string): Builder
    decreases |args|
  {
    if |args| == 0 then b else Run(Step(b, args[0], newLine), args[1..], newLine)
  }

  /** `GetScript` as the source writes it. */
  method GetScript(args: seq<string>, newLine: string) returns (script: string)
    ensures script == Run(Start, args, newLine).script
    ensures script == Render(Kept([], args, newLine), newLine)
  {
    script := [];
    var atLineStart := true;
    var i := 0;
    while i < |args|
      invariant 0 <= i <= |args|
      invariant Run(Builder(script, atLineStart), args[i..], newLine) == Run(Start, args, newLine)
    {
      var arg := args[i];
      ghost var before := Builder(script, atLineStart);
      assert args[i..][1..] == args[i + 1..];
      assert Run(before, args[i..], newLine) == Run(Step(before, arg, newLine), args[i + 1..], newLine);
      if IsCommandSwitch(arg) && |script| == 0 {
        i := i + 1;
        continue;
      }
      if arg == "&" {
        script := script + newLine;
        atLineStart := true;
      } else {
        if !atLineStart {
          script := script + " ";
        }
        script := script + arg;
        atLineStart := false;
      }
      assert Builder(script, atLineStart) == Step(before, arg, newLine);
      i := i + 1;
    }
    assert args[i..] == [];
    RunRendersKept(Start, [], args, newLine);
  }

  /** The reference description of the script starts here: the arguments
      that are kept, grouped into lines on `&`. The arguments between the `&` tokens, one group per line; there is
      always at least one line. */
  function Groups(tokens: seq<string>): (r: seq<seq<string>>)
    ensures |r| >= 1
  {
    if |tokens| == 0 then [[]]
    else
      var g := Groups(tokens[..|tokens| - 1]);
      var last := tokens[|tokens| - 1];
      if last == "&" then g + [[]]
      else g[..|g| - 1] + [g[|g| - 1] + [last]]
  }

  /** Each line: its arguments separated by one space. */
  function Lines(groups: seq<seq<string>>): (r: seq<string>)
    ensures |r| == |groups|
    ensures forall i :: 0 <= i < |r| ==> r[i] == Join(groups[i], " ")
  {
    if |groups| == 0 then []
    else Lines(groups[..|groups| - 1]) + [Join(groups[|groups| - 1], " ")]
  }

  /** The script of a list of kept arguments: its lines joined by line
      breaks. */
  function Render(tokens: seq<string>, newLine: string): string {
    Join(Lines(Groups(tokens)), newLine)
  }

  /** Whether the last line of the kept arguments is still empty. */
  predicate AtLineStart(tokens: seq<string>) {
    var g := Groups(tokens);
    g[|g| - 1] == []
  }

  /** The arguments that are written: a `/C` switch is dropped exactly when
      the script of the arguments kept before it is still empty. */
  function Kept(acc: seq<string>, args: seq<string>, newLine: string): seq<string>
    decreases |args|
  {
    if |args| == 0 then acc
    else if IsCommandSwitch(args[0]) && Render(acc, newLine) == [] then Kept(acc, args[1..], newLine)
    else Kept(acc + [args[0]], args[1..], newLine)
  }

  /** Lines of a list that grows at the end. */
  lemma LinesAppend(groups: seq<seq<string>>, g: seq<string>)
    ensures Lines(groups + [g]) == Lines(groups) + [Join(g, " ")]
  {
    assert (groups + [g])[..|groups|] == groups;
  }

  /** An `&` ends the line with one line break. */
  lemma RenderBreak(acc: seq<string>, newLine: string)
    ensures Groups(acc + ["&"]) == Groups(acc) + [[]]
    ensures Render(acc + ["&"], newLine) == Render(acc, newLine) + newLine
  {
    assert (acc + ["&"])[..|acc|] == acc;
    var g := Groups(acc);
    LinesAppend(g, []);
    JoinAppend(Lines(g), [], newLine);
  }

  /** Any other argument extends the last line, after one space unless the
      line is empty. */
  lemma RenderToken(acc: seq<string>, t: string, newLine: string)
    requires t != "&"
    ensures !AtLineStart(acc + [t])
    ensures Render(acc + [t], newLine) ==
      Render(acc, newLine) + (if AtLineStart(acc) then [] else " ") + t
  {
    var g := Groups(acc);
    var front, last := g[..|g| - 1], g[|g| - 1];
    GroupsToken(acc, t);
    FrontAndLast(g);
    LinesWithToken(front, last, t, newLine);
  }

  /** The script of some groups after one more argument in the last group. */
  lemma LinesWithToken(front: seq<seq<string>>, last: seq<string>, t: string, newLine: string)
    ensures Join(Lines(front + [last + [t]]), newLine) ==
      Join(Lines(front + [last]), newLine) + (if last == [] then [] else " ") + t
  {
    RenderLastLine(front, last, newLine);
    RenderLastLine(front, last + [t], newLine);
    JoinSpaceAppend(last, t);
    var before := if front == [] then [] else Join(Lines(front), newLine) + newLine;
    var space: string := if last == [] then [] else " ";
    AppendAssociates(before, Join(last, " "), space + t);
  }

  /** Concatenation associates. */
  lemma AppendAssociates(a: string, b: string, c: string)
    ensures a + (b + c) == a + b + c
  {
  }

  /** Any other argument goes at the end of the last group. */
  lemma GroupsToken(acc: seq<string>, t: string)
    requires t != "&"
    ensures var g := Groups(acc);
      Groups(acc + [t]) == g[..|g| - 1] + [g[|g| - 1] + [t]]
  {
    assert (acc + [t])[..|acc|] == acc;
  }

  /** The script of some lines and a last one: the last line after one line
      break, unless it is the only one. */
  lemma RenderLastLine(front: seq<seq<string>>, last: seq<string>, newLine: string)
    ensures Join(Lines(front + [last]), newLine) ==
      (if front == [] then [] else Join(Lines(front), newLine) + newLine) + Join(last, " ")
  {
    LinesAppend(front, last);
    if front != [] {
      JoinAppend(Lines(front), Join(last, " "), newLine);
    }
  }

  /** One more argument on a line: after one space unless the line is empty. */
  lemma JoinSpaceAppend(line: seq<string>, t: string)
    ensures Join(line + [t], " ") == Join(line, " ") + (if line == [] then [] else " ") + t
  {
    if line != [] {
      JoinAppend(line, t, " ");
    }
  }

  /** The builder's text and line-start flag follow the rendering of the kept
      arguments, step by step. */
  lemma {:induction false} RunRendersKept(b: Builder, acc: seq<string>, args: seq<string>, newLine: string)
    requires b.script == Render(acc, newLine) && b.newLine == AtLineStart(acc)
    ensures Run(b, args, newLine).script == Render(Kept(acc, args, newLine), newLine)
    decreases |args|
  {
    if |args| > 0 {
      var t := args[0];
      if IsCommandSwitch(t) && Render(acc, newLine) == [] {
        RunRendersKept(b, acc, args[1..], newLine);
      } else if t == "&" {
        RenderBreak(acc, newLine);
        RunRendersKept(Step(b, t, newLine), acc + [t], args[1..], newLine);
      } else {
        RenderToken(acc, t, newLine);
        RunRendersKept(Step(b, t, newLine), acc + [t], args[1..], newLine);
      }
    }
  }

  /** No arguments give the empty script. */
  lemma EmptyArguments(newLine: string)
    ensures Run(Start, [], newLine).script == []
  {
  }

  /** A leading `/C` switch, in either case, is dropped. */
  lemma LeadingSwitchIsDropped(switch: string, args: seq<string>, newLine: string)
    requires IsCommandSwitch(switch)
    ensures Run(Start, [switch] + args, newLine) == Run(Start, args, newLine)
  {
    assert ([switch] + args)[1..] == args;
  }

  /** A `/C` switch after something was written is written like any other
      argument. */
  lemma LaterSwitchIsWritten(b: Builder, switch: string, newLine: string)
    requires IsCommandSwitch(switch) && b.script != []
    ensures Step(b, switch, newLine).script == b.script + (if b.newLine then [] else " ") + switch
  {
  }

  /** Arguments without `&` and without a `/C` switch are written in order,
      separated by single spaces. */
  lemma {:induction false} PlainArgumentsAreSpaced(acc: seq<string>, args: seq<string>, newLine: string)
    requires forall i :: 0 <= i < |args| ==> args[i] != "&" && !IsCommandSwitch(args[i])
    ensures Kept(acc, args, newLine) == acc + args
    decreases |args|
  {
    if |args| > 0 {
      PlainArgumentsAreSpaced(acc + [args[0]], args[1..], newLine);
      assert acc + [args[0]] + args[1..] == acc + args;
    }
  }

  /** Without `&` there is one line. */
  lemma {:induction false} OneLineWithoutBreaks(tokens: seq<string>)
    requires forall i :: 0 <= i < |tokens| ==> tokens[i] != "&"
    ensures Groups(tokens) == [tokens]
    decreases |tokens|
  {
    if |tokens| > 0 {
      var front := tokens[..|tokens| - 1];
      OneLineWithoutBreaks(front);
      assert front + [tokens[|tokens| - 1]] == tokens;
    }
  }

  /** Arguments without `&` and without a `/C` switch make the script of the
      arguments joined by single spaces. */
  lemma SpacedScript(args: seq<string>, newLine: string)
    requires forall i :: 0 <= i < |args| ==> args[i] != "&" && !IsCommandSwitch(args[i])
    ensures Run(Start, args, newLine).script == Join(args, " ")
  {
    RunRendersKept(Start, [], args, newLine);
    PlainArgumentsAreSpaced([], args, newLine);
    assert [] + args == args;
    OneLineWithoutBreaks(args);
  }

  /** The number of `&` tokens. */
  function Breaks(tokens: seq<string>): nat {
    multiset(tokens)["&"]
  }

  /** One line per `&`, plus one. */
  lemma {:induction false} GroupsCount(tokens: seq<string>)
    ensures |Groups(tokens)| == Breaks(tokens) + 1
    decreases |tokens|
  {
    if |tokens| > 0 {
      var front := tokens[..|tokens| - 1];
      GroupsCount(front);
      assert tokens == front + [tokens[|tokens| - 1]];
    }
  }

  /** Only `/C` switches are dropped, so every `&` is kept. */
  lemma {:induction false} KeptBreaks(acc: seq<string>, args: seq<string>, newLine: string)
    ensures Breaks(Kept(acc, args, newLine)) == Breaks(acc) + Breaks(args)
    decreases |args|
  {
    if |args| > 0 {
      assert args == [args[0]] + args[1..];
      if IsCommandSwitch(args[0]) && Render(acc, newLine) == [] {
        KeptBreaks(acc, args[1..], newLine);
      } else {
        KeptBreaks(acc + [args[0]], args[1..], newLine);
      }
    }
  }

  /** Every argument of every line is one of the tokens. */
  lemma {:induction false} GroupsFromTokens(tokens: seq<string>)
    ensures forall i, j :: 0 <= i < |Groups(tokens)| && 0 <= j < |Groups(tokens)[i]| ==>
      Groups(tokens)[i][j] in tokens
    decreases |tokens|
  {
    if |tokens| > 0 {
      var front := tokens[..|tokens| - 1];
      GroupsFromTokens(front);
      assert forall x :: x in front ==> x in tokens;
    }
  }

  /** No line holds an `&`: the `&` arguments are never written as text. */
  lemma {:induction false} GroupsHoldNoBreak(tokens: seq<string>)
    ensures forall i :: 0 <= i < |Groups(tokens)| ==> "&" !in Groups(tokens)[i]
    decreases |tokens|
  {
    if |tokens| > 0 {
      GroupsHoldNoBreak(tokens[..|tokens| - 1]);
    }
  }

  /** Every kept argument is an argument. */
  lemma {:induction false} KeptFromArguments(acc: seq<string>, args: seq<string>, newLine: string)
    ensures forall x :: x in Kept(acc, args, newLine) ==> x in acc || x in args
    decreases |args|
  {
    if |args| > 0 {
      KeptFromArguments(acc, args[1..], newLine);
      KeptFromArguments(acc + [args[0]], args[1..], newLine);
    }
  }

  /** Joining pieces free of `c` with a space gives a string free of `c`. */
  lemma {:induction false} JoinAvoids(parts: seq<string>, c: char)
    requires c != ' ' && forall k :: 0 <= k < |parts| ==> c !in parts[k]
    ensures c !in Join(parts, " ")
    decreases |parts|
  {
    if |parts| > 1 {
      JoinAvoids(parts[1..], c);
    }
  }

  /** With a one-character line break that no argument contains, the script
      has exactly one line break per `&` argument. */
  lemma LineBreakPerAmpersand(args: seq<string>, c: char)
    requires c != ' ' && forall i :: 0 <= i < |args| ==> c !in args[i]
    ensures |Split(Run(Start, args, [c]).script, c)| == Breaks(args) + 1
  {
    var kept := Kept([], args, [c]);
    RunRendersKept(Start, [], args, [c]);
    KeptBreaks([], args, [c]);
    GroupsCount(kept);
    GroupsFromTokens(kept);
    KeptFromArguments([], args, [c]);
    var groups := Groups(kept);
    var lines := Lines(groups);
    forall k | 0 <= k < |lines|
      ensures c !in lines[k]
    {
      forall j | 0 <= j < |groups[k]|
        ensures c !in groups[k][j]
      {
        assert groups[k][j] in kept;
      }
      JoinAvoids(groups[k], c);
    }
    JoinThenSplit(lines, c);
  }

  /** A typical invocation: the switch is dropped, the arguments of each
      command are spaced and the commands are put on separate lines. */
  lemma TwoCommandsExample()
    ensures Run(Start, ["/c", "echo", "hi", "&", "dir"], "\n").script == "echo hi\ndir"
  {
    var args := ["/c", "echo", "hi", "&", "dir"];
    LeadingSwitchIsDropped("/c", args[1..], "\n");
    assert [args[0]] + args[1..] == args;
  }
}
