/** The command builder: a program name, an argument vector that callers extend, and the
    output lines that executions accumulate. Spawning the process is not modelled; an
    execution receives the lines the process would write to standard output and to
    standard error. */
module Commands {
  import opened Wrappers
  import opened JavaText

  /** A command line together with every output line captured by its executions so far. */
  datatype Command = Command(command: string, args: seq<string>, output: seq<string>)

  /** What one run of the external program writes, line by line, on each stream. */
  datatype Capture = Capture(stdout: seq<string>, stderr: seq<string>)

  /** The marker the bridge tool prints when a path does not exist. */
  const NoSuchFileMarker: string := "No such file or directory"

  /** The marker `ls` prints on the device for an unreachable path. */
  const NotFoundMarker: string := "inaccessible or not found"

  /** `addArg`: one more argument at the end. */
  function AddArg(c: Command, arg: string): (r: Command)
    ensures |r.args| == |c.args| + 1 && r.args[|c.args|] == arg
    ensures forall i :: 0 <= i < |c.args| ==> r.args[i] == c.args[i]
    ensures r.command == c.command && r.output == c.output
  {
    c.(args := c.args + [arg])
  }

  /** `addArg` is appending to the vector. */
  lemma AddArgAppends(c: Command, arg: string)
    ensures AddArg(c, arg).args == c.args + [arg]
  {
  }

  /** `addArgs`: the loop that adds each given argument in turn. */
  function AddArgs(c: Command, more: seq<string>): (r: Command)
    ensures r.args == c.args + more
    ensures r.command == c.command && r.output == c.output
    decreases |more|
  {
    if more == [] then c
    else
      var r := AddArgs(AddArg(c, more[0]), more[1..]);
      assert [more[0]] + more[1..] == more;
      r
  }

  /** The varargs constructor `Command(command, arguments...)`: no output yet, and the
      arguments added one by one. The list constructor stores the same value. */
  function NewCommand(command: string, arguments: seq<string>): (c: Command)
    ensures c.command == command && c.args == arguments && c.output == []
  {
    AddArgs(Command(command, [], []), arguments)
  }

  /** `setCommand` */
  function SetCommand(c: Command, command: string): (r: Command)
    ensures r.command == command && r.args == c.args && r.output == c.output
  {
    c.(command := command)
  }

  /** `setArgs` */
  function SetArgs(c: Command, args: seq<string>): (r: Command)
    ensures r.args == args && r.command == c.command && r.output == c.output
  {
    c.(args := args)
  }

  /** The argument list as `toString` accumulates it: a space before every argument. */
  function JoinArgs(args: seq<string>): string
    decreases |args|
  {
    if args == [] then "" else " " + args[0] + JoinArgs(args[1..])
  }

  /** `toString`: the bare command, or `String.format("%s %s", command, joined)`, which puts
      two spaces before the first argument. */
  function ToString(c: Command): (s: string)
    ensures c.args == [] ==> s == c.command
    ensures c.args != [] ==> StartsWith(s, c.command + "  " + c.args[0])
  {
    if |c.args| > 0 then
      assert JoinArgs(c.args) == " " + c.args[0] + JoinArgs(c.args[1..]);
      assert c.command + " " + JoinArgs(c.args) == c.command + "  " + c.args[0] + JoinArgs(c.args[1..]);
      c.command + " " + JoinArgs(c.args)
    else c.command
  }

  /** `getOutput(i)`: the guard is `size >= i`, so an index equal to the size, or a negative
      one, reaches `List.get` and throws there; larger ones throw from the guard. */
  function GetOutput(c: Command, i: int): (r: Result<string>)
    ensures r.Ok? <==> 0 <= i < |c.output|
    ensures r.Ok? ==> r.value == c.output[i]
    ensures r.Err? ==> r.error == IndexOutOfBounds
  {
    if |c.output| >= i then
      if 0 <= i < |c.output| then Ok(c.output[i]) else Err(IndexOutOfBounds)
    else Err(IndexOutOfBounds)
  }

  /** The part of `exec` that this model keeps: every standard-output line, then every
      standard-error line, is appended to the output; nothing is cleared. */
  function Exec(c: Command, run: Capture): (r: Command)
    ensures |r.output| == |c.output| + |run.stdout| + |run.stderr|
    ensures r.output[..|c.output|] == c.output
    ensures r.output[|c.output|..|c.output| + |run.stdout|] == run.stdout
    ensures r.output[|c.output| + |run.stdout|..] == run.stderr
    ensures r.command == c.command && r.args == c.args
  {
    var r := c.(output := c.output + run.stdout + run.stderr);
    assert r.output[..|c.output|] == c.output;
    assert r.output[|c.output|..|c.output| + |run.stdout|] == run.stdout;
    r
  }

  /** One execution appends the run's standard output, then its standard error. */
  lemma ExecAppends(c: Command, run: Capture)
    ensures Exec(c, run).output == c.output + run.stdout + run.stderr
  {
  }

  /** Two executions of one command keep both runs' lines, in order. */
  lemma ExecAccumulates(c: Command, first: Capture, second: Capture)
    ensures Exec(Exec(c, first), second).output
         == c.output + first.stdout + first.stderr + second.stdout + second.stderr
  {
  }

  /** The scan every operation performs on captured output: some line contains `marker`. */
  function AnyLineContains(lines: seq<string>, marker: string): (b: bool)
    ensures b <==> exists i :: 0 <= i < |lines| && Contains(lines[i], marker)
    decreases |lines|
  {
    if lines == [] then false
    else
      var rest := AnyLineContains(lines[1..], marker);
      assert forall i :: 0 < i < |lines| ==> lines[i] == lines[1..][i - 1];
      Contains(lines[0], marker) || rest
  }

  /** The delimiters `Runtime.exec(String)` splits a command line on. */
  predicate IsWhitespace(ch: char) {
    ch == ' ' || ch == '\t' || ch == '\n' || ch == '\r' || ch == '\U{000C}'
  }

  predicate HasNoWhitespace(s: string) {
    forall i :: 0 <= i < |s| ==> !IsWhitespace(s[i])
  }

  /** Length of the leading run of non-whitespace characters. */
  function WordLength(s: string): (n: nat)
    ensures n <= |s|
    ensures forall i :: 0 <= i < n ==> !IsWhitespace(s[i])
    ensures n < |s| ==> IsWhitespace(s[n])
    decreases |s|
  {
    if s == [] || IsWhitespace(s[0]) then 0
    else
      var n := 1 + WordLength(s[1..]);
      assert forall i :: 0 < i < n ==> s[i] == s[1..][i - 1];
      n
  }

  /** The tokens a whitespace tokenizer finds in `s`, in order. */
  function Tokens(s: string): seq<string>
    decreases |s|
  {
    if s == [] then []
    else if IsWhitespace(s[0]) then Tokens(s[1..])
    else
      var n := WordLength(s);
      [s[..n]] + Tokens(s[n..])
  }

  lemma WordLengthOfWord(w: string, rest: string)
    requires w != [] && HasNoWhitespace(w)
    requires rest == [] || IsWhitespace(rest[0])
    ensures WordLength(w + rest) == |w|
  {
    assert forall k :: 0 <= k < |w| ==> (w + rest)[k] == w[k];
    if rest != [] {
      assert (w + rest)[|w|] == rest[0];
    }
  }

  lemma TokensOfWord(w: string, rest: string)
    requires w != [] && HasNoWhitespace(w)
    requires rest == [] || IsWhitespace(rest[0])
    ensures Tokens(w + rest) == [w] + Tokens(rest)
  {
    WordLengthOfWord(w, rest);
    assert (w + rest)[..|w|] == w;
    assert (w + rest)[|w|..] == rest;
  }

  lemma {:induction false} TokensOfJoinArgs(args: seq<string>)
    requires forall i :: 0 <= i < |args| ==> args[i] != [] && HasNoWhitespace(args[i])
    ensures Tokens(JoinArgs(args)) == args
    decreases |args|
  {
    if args != [] {
      var rest := JoinArgs(args[1..]);
      TokensOfJoinArgs(args[1..]);
      assert rest == [] || rest[0] == ' ';
      TokensOfWord(args[0], rest);
      assert JoinArgs(args) == " " + (args[0] + rest);
      assert (" " + (args[0] + rest))[1..] == args[0] + rest;
    }
  }

  /** The double space `toString` emits is harmless: when the command and every argument
      are non-empty and free of whitespace, tokenizing the command line gives back exactly
      the command followed by the arguments. */
  lemma ToStringTokens(c: Command)
    requires c.command != [] && HasNoWhitespace(c.command)
    requires forall i :: 0 <= i < |c.args| ==> c.args[i] != [] && HasNoWhitespace(c.args[i])
    ensures Tokens(ToString(c)) == [c.command] + c.args
  {
    if c.args == [] {
      TokensOfWord(c.command, []);
      assert c.command + [] == c.command;
    } else {
      var j := JoinArgs(c.args);
      ToStringRegrouped(c);
      TokensOfJoinArgs(c.args);
      TokensOfWord(c.command, " " + j);
      assert (" " + j)[1..] == j;
      assert Tokens(" " + j) == Tokens(j);
    }
  }

  lemma ToStringRegrouped(c: Command)
    requires c.args != []
    ensures ToString(c) == c.command + (" " + JoinArgs(c.args))
  {
  }
}
