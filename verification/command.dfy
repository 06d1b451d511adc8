/**
  `clientCommand`: the decision the server takes for one received buffer.
  The first token selects the command (only `SYS` is known); the remaining
  tokens are joined into a shell command line, the command is run, and the
  captured output is sent back, or the raw message itself when the command
  printed nothing. Running the command is outside the model: `exec` maps a
  command line to the text the process printed.
 */
module Command {
  import opened Wrappers
  import opened Tokenizer

  /** The one command name the server recognises; compared case-sensitively. */
  const Sys: string := "SYS"

  /** `arg + " "` for every argument, in order. */
  function JoinArgs(args: seq<string>): string {
    if args == [] then [] else args[0] + " " + JoinArgs(args[1..])
  }

  /**
    The command line built from every token after the first, each followed by
    one space: as long as the arguments together plus one space each
    (`CommandLineTokens` shows that tokenizing it gives them back).
   */
  function CommandLine(tokens: seq<string>): (line: string)
    ensures |tokens| >= 1 ==> |line| == TotalLength(tokens[1..]) + |tokens| - 1
  {
    if |tokens| == 0 then []
    else
      JoinArgsLength(tokens[1..]);
      JoinArgs(tokens[1..])
  }

  /** The sum of the lengths of `ts`. */
  function TotalLength(ts: seq<string>): nat {
    if ts == [] then 0 else |ts[0]| + TotalLength(ts[1..])
  }

  lemma {:induction false} JoinArgsLength(args: seq<string>)
    ensures |JoinArgs(args)| == TotalLength(args) + |args|
  {
    if args != [] {
      JoinArgsLength(args[1..]);
    }
  }

  /** A command line with at least one argument ends in exactly one space. */
  lemma CommandLineEndsInOneSpace(tokens: seq<string>)
    requires |tokens| >= 2 && AllTokens(tokens)
    ensures var line := CommandLine(tokens);
      |line| >= 2 && line[|line| - 1] == ' ' && !IsSpace(line[|line| - 2])
  {
    JoinArgsEnd(tokens[1..]);
  }

  lemma {:induction false} JoinArgsEnd(args: seq<string>)
    requires |args| >= 1 && AllTokens(args)
    ensures var line := JoinArgs(args);
      |line| >= 2 && line[|line| - 1] == ' ' && !IsSpace(line[|line| - 2])
  {
    var last := args[0] + " ";
    if |args| == 1 {
      assert JoinArgs(args) == last;
    } else {
      JoinArgsEnd(args[1..]);
      assert JoinArgs(args) == last + JoinArgs(args[1..]);
    }
  }

  /** `g + JoinArgs(args)` is `args` woven with `g` in front and one space after each argument. */
  lemma {:induction false} JoinArgsIsWeave(g: string, args: seq<string>)
    decreases |args|
    ensures Weave([g] + seq(|args|, _ => " "), args) == g + JoinArgs(args)
  {
    var gaps := [g] + seq(|args|, _ => " ");
    if args == [] {
      assert gaps[0] == g;
    } else {
      var tail := seq(|args| - 1, _ => " ");
      assert gaps[1..] == [" "] + tail;
      JoinArgsIsWeave(" ", args[1..]);
      assert Weave(gaps, args) == g + args[0] + (" " + JoinArgs(args[1..]));
    }
  }

  /** Re-tokenizing the command line gives back exactly the arguments `tokens[1..]`. */
  lemma CommandLineTokens(tokens: seq<string>)
    requires |tokens| >= 1 && AllTokens(tokens[1..])
    ensures Tokenize(CommandLine(tokens)) == tokens[1..]
  {
    var args := tokens[1..];
    var gaps := [[]] + seq(|args|, _ => " ");
    JoinArgsIsWeave([], args);
    assert [] + JoinArgs(args) == JoinArgs(args);
    assert Separates(gaps, |args|) by {
      forall i | 0 <= i < |gaps|
        ensures IsBlank(gaps[i])
      {
        if i > 0 {
          assert gaps[i] == " ";
        }
      }
    }
    TokenizeWeave(gaps, args);
  }

  /**
    The reply `clientCommand` sends for a token sequence, or `None` when it
    sends nothing. `tokens[0]` is read before the length is looked at, so the
    token sequence must not be empty.
   */
  function DispatchTokens(tokens: seq<string>, raw: string, exec: string -> string): (reply: Option<string>)
    requires |tokens| >= 1
    ensures reply.Some? <==> tokens[0] == Sys && |tokens| >= 2
    ensures reply.Some? && exec(CommandLine(tokens)) != [] ==> reply.value == exec(CommandLine(tokens))
    ensures reply.Some? && exec(CommandLine(tokens)) == [] ==> reply.value == raw
  {
    if tokens[0] == Sys && |tokens| >= 2 then
      var captured := exec(CommandLine(tokens));
      Some(if captured == [] then raw else captured)
    else
      None
  }

  /** What handling one received buffer comes to. */
  datatype Outcome =
    | Undefined            // the code reads outside its data: no terminator, or no token
    | Silent               // nothing is sent back
    | Replied(bytes: string)

  /** The outcome for a well-terminated message, in terms of its tokens. */
  function Respond(tokens: seq<string>, raw: string, exec: string -> string): Outcome {
    if tokens == [] then Silent
    else
      match DispatchTokens(tokens, raw, exec)
      case None => Silent
      case Some(reply) => Replied(reply)
  }

  /**
    `clientCommand` as written: the buffer is read as a C string, tokenized and
    dispatched; a buffer without a NUL, or one without any token, makes the
    code read memory it does not own.
   */
  function ClientCommand(buf: seq<char>, exec: string -> string): (o: Outcome)
    ensures o == Undefined <==> NUL !in buf || Tokenize(CString(buf).value) == []
    ensures o.Replied? <==> NUL in buf && var ts := Tokenize(CString(buf).value); |ts| >= 2 && ts[0] == Sys
  {
    match CString(buf)
    case None => Undefined
    case Some(raw) =>
      var tokens := Tokenize(raw);
      if tokens == [] then Undefined else Respond(tokens, raw, exec)
  }

  /** `clientCommand` with the first token looked at only when there is one: an empty message gets no reply. */
  function ClientCommandGuarded(buf: seq<char>, exec: string -> string): (o: Outcome)
    ensures o == Undefined <==> NUL !in buf
    ensures NUL in buf && Tokenize(CString(buf).value) == [] ==> o == Silent
    ensures ClientCommand(buf, exec) != Undefined ==> o == ClientCommand(buf, exec)
  {
    match CString(buf)
    case None => Undefined
    case Some(raw) => Respond(Tokenize(raw), raw, exec)
  }

  /**
    A message that is blank before its terminator, the empty message included,
    sends the code as written outside the token vector; the guarded handler stays silent.
   */
  lemma BlankMessageIsUndefined(g: string, rest: seq<char>, exec: string -> string)
    requires IsBlank(g) && NUL !in g
    ensures ClientCommand(g + [NUL] + rest, exec) == Undefined
    ensures ClientCommandGuarded(g + [NUL] + rest, exec) == Silent
  {
    CStringOfTerminated(g, rest);
    TokenizeAfterBlank(g, []);
    assert g + [] == g;
  }

  /** A recognised command always gets a non-empty reply: the echoed message at least holds `SYS`. */
  lemma SysReplyNeverEmpty(buf: seq<char>, exec: string -> string)
    requires ClientCommandGuarded(buf, exec).Replied?
    ensures ClientCommandGuarded(buf, exec).bytes != []
  {
  }

  /**
    For a terminated message the guarded handler responds to the tokens of the
    text before the NUL, and so does the handler as written when there is a token.
   */
  lemma GuardedOfText(text: string, rest: seq<char>, exec: string -> string)
    requires NUL !in text
    ensures ClientCommandGuarded(text + [NUL] + rest, exec) == Respond(Tokenize(text), text, exec)
    ensures Tokenize(text) != [] ==> ClientCommand(text + [NUL] + rest, exec) == Respond(Tokenize(text), text, exec)
  {
    CStringOfTerminated(text, rest);
  }

  /** `SYS echo hello` runs `echo hello ` and sends back what it printed. */
  lemma EchoExample(text: string, rest: seq<char>, exec: string -> string)
    requires text == "SYS echo hello"
    requires exec("echo hello ") == "hello\n"
    ensures ClientCommandGuarded(text + [NUL] + rest, exec) == Replied("hello\n")
    ensures ClientCommand(text + [NUL] + rest, exec) == Replied("hello\n")
  {
    var ts := [Sys, "echo", "hello"];
    EchoTokens(text, ts);
    assert NUL !in text;
    EchoLine(ts, "echo hello ");
    SysReplies(text, rest, exec, ts, "echo hello ");
  }

  // `EchoTokens`, `EchoWeave` and `EchoLine` are the literal steps of `EchoExample`, kept
  // apart from it because proved inline they come close to the solver's resource budget.
  lemma EchoTokens(text: string, ts: seq<string>)
    requires text == "SYS echo hello" && ts == [Sys, "echo", "hello"]
    ensures Tokenize(text) == ts
  {
    var gaps := ["", " ", " ", ""];
    EchoWeave(text, gaps, ts);
    assert AllTokens(ts) && Separates(gaps, |ts|);
    TokenizeWeave(gaps, ts);
  }

  lemma EchoWeave(text: string, gaps: seq<string>, ts: seq<string>)
    requires text == "SYS echo hello" && ts == [Sys, "echo", "hello"] && gaps == ["", " ", " ", ""]
    ensures Weave(gaps, ts) == text
  {
    assert Weave([" ", ""], ["hello"]) == " hello";
    assert Weave([" ", " ", ""], ["echo", "hello"]) == " echo hello";
    assert gaps[1..] == [" ", " ", ""] && ts[1..] == ["echo", "hello"];
  }

  lemma EchoLine(ts: seq<string>, line: string)
    requires ts == [Sys, "echo", "hello"] && line == "echo hello "
    ensures CommandLine(ts) == line
  {
    assert ts[1..] == ["echo", "hello"] && ts[1..][1..] == ["hello"] && ["hello"][1..] == [];
    assert JoinArgs(["hello"]) == "hello ";
  }

  /** A command that prints nothing makes the server echo the message as it came. */
  lemma SilentCommandEchoes(text: string, rest: seq<char>, exec: string -> string)
    requires text == "SYS true\n"
    requires exec("true ") == ""
    ensures ClientCommandGuarded(text + [NUL] + rest, exec) == Replied(text)
    ensures ClientCommand(text + [NUL] + rest, exec) == Replied(text)
  {
    var ts := [Sys, "true"];
    assert Tokenize(text) == ts by {
      var gaps := ["", " ", "\n"];
      assert Weave(gaps[2..], ts[2..]) == "\n";
      assert Weave(gaps[1..], ts[1..]) == " true\n";
      assert Weave(gaps, ts) == text;
      TokenizeWeave(gaps, ts);
    }
    assert NUL !in text;
    OneArgumentLine(ts);
    assert ts[1] + " " == "true ";
    SysReplies(text, rest, exec, ts, "true ");
  }

  /** A terminated message whose tokens name a command replies with its output, or with itself when that is empty. */
  lemma SysReplies(text: string, rest: seq<char>, exec: string -> string, ts: seq<string>, line: string)
    requires NUL !in text && Tokenize(text) == ts
    requires |ts| >= 2 && ts[0] == Sys && CommandLine(ts) == line
    ensures ClientCommandGuarded(text + [NUL] + rest, exec) == Replied(if exec(line) == [] then text else exec(line))
    ensures ClientCommand(text + [NUL] + rest, exec) == Replied(if exec(line) == [] then text else exec(line))
  {
    GuardedOfText(text, rest, exec);
  }

  /** With one argument the command line is that argument and a space. */
  lemma OneArgumentLine(ts: seq<string>)
    requires |ts| == 2
    ensures CommandLine(ts) == ts[1] + " "
  {
    assert ts[1..] == [ts[1]] && [ts[1]][1..] == [];
    assert JoinArgs([ts[1]]) == ts[1] + " " + [];
  }

  /** A message of a single word, whatever the word, has nothing to run and gets no reply. */
  lemma SingleWordIsSilent(text: string, rest: seq<char>, exec: string -> string)
    requires IsToken(text) && NUL !in text
    ensures ClientCommandGuarded(text + [NUL] + rest, exec) == Silent
    ensures ClientCommand(text + [NUL] + rest, exec) == Silent
  {
    assert Weave(["", ""], [text]) == text;
    TokenizeWeave(["", ""], [text]);
    GuardedOfText(text, rest, exec);
  }

  /** A lone `SYS` gets no reply. */
  lemma LoneSysIsSilent(text: string, rest: seq<char>, exec: string -> string)
    requires text == "SYS"
    ensures ClientCommandGuarded(text + [NUL] + rest, exec) == Silent
    ensures ClientCommand(text + [NUL] + rest, exec) == Silent
  {
    SingleWordIsSilent(text, rest, exec);
  }

  /** The name is compared case-sensitively: `sys` is not recognised. */
  lemma LowerCaseSysIsSilent(text: string, rest: seq<char>, exec: string -> string)
    requires text == "sys ls"
    ensures ClientCommandGuarded(text + [NUL] + rest, exec) == Silent
    ensures ClientCommand(text + [NUL] + rest, exec) == Silent
  {
    assert Weave(["", " ", ""], ["sys", "ls"]) == text;
    TokenizeWeave(["", " ", ""], ["sys", "ls"]);
    assert "sys"[0] != Sys[0];
    GuardedOfText(text, rest, exec);
  }

  /** Any other name gets no reply at all. */
  lemma UnknownIsSilent(text: string, rest: seq<char>, exec: string -> string)
    requires text == "UNKNOWN"
    ensures ClientCommandGuarded(text + [NUL] + rest, exec) == Silent
    ensures ClientCommand(text + [NUL] + rest, exec) == Silent
  {
    SingleWordIsSilent(text, rest, exec);
  }
}
