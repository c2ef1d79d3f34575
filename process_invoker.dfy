/**
 * The outcome logic of `invokeInkscape`: which binary is spawned, how the
 * output and diagnostic chunks are accumulated by the event handlers, and
 * how the close code decides between resolving and rejecting the promise.
 *
 * The child process itself is an abstract trace of the events its handlers
 * receive, in arrival order. Decoding of the diagnostic bytes as UTF-8 is a
 * parameter.
 */
module ProcessInvoker {
  import opened Wrappers
  import BinaryResolver

  newtype byte = x: int | 0 <= x < 256

  type Bytes = seq<byte>

  /** What the handlers installed on the child process receive. */
  datatype Event =
    | StdoutData(chunk: Bytes)
    | StderrData(chunk: Bytes)
    | Close(code: Option<int>)  // None is the `null` code of a process ended by a signal

  /** Why the promise was rejected. */
  datatype Reason =
    | ExitedWith(message: string)  // the `Error` built by the close handler
    | FileArgumentUndefined        // `spawn` refuses an undefined binary before any process exists
    | FileArgumentEmpty            // `spawn` refuses an empty binary name before any process exists

  /** The state of the promise `invokeInkscape` returns. */
  datatype Settlement = Pending | Resolved(output: Bytes) | Rejected(reason: Reason)

  /** What is handed to the operating system: the binary, the arguments, the single stdin write. */
  datatype Spawn = Spawn(bin: string, args: seq<string>, stdin: Bytes)

  // ---------------------------------------------------------------------
  // Buffer.concat and the text of an exit code

  function Concat(chunks: seq<Bytes>): (all: Bytes)
    ensures chunks == [] ==> all == []
    decreases |chunks|
  {
    if chunks == [] then [] else Concat(chunks[..|chunks| - 1]) + chunks[|chunks| - 1]
  }

  /** Concatenation of chunk lists is concatenation of their contents, so no byte is reordered. */
  lemma {:induction false} ConcatAppend(a: seq<Bytes>, b: seq<Bytes>)
    ensures Concat(a + b) == Concat(a) + Concat(b)
    decreases |b|
  {
    if b == [] {
      assert a + b == a;
    } else {
      var n := |b| - 1;
      assert (a + b)[..|a + b| - 1] == a + b[..n];
      assert (a + b)[|a + b| - 1] == b[n];
      ConcatAppend(a, b[..n]);
    }
  }

  function DigitChar(d: nat): (c: char)
    requires d < 10
    ensures '0' <= c <= '9'
  {
    (('0' as int) + d) as char
  }

  function DigitValue(c: char): nat
    requires '0' <= c <= '9'
  {
    (c as int) - ('0' as int)
  }

  predicate AllDigits(s: string) {
    forall k :: 0 <= k < |s| ==> '0' <= s[k] <= '9'
  }

  /** The decimal text of a natural number, most significant digit first. */
  function NatText(n: nat): (s: string)
    ensures |s| >= 1 && AllDigits(s)
    decreases n
  {
    if n < 10 then [DigitChar(n)] else NatText(n / 10) + [DigitChar(n % 10)]
  }

  function ParseNat(s: string): nat
    requires AllDigits(s)
    decreases |s|
  {
    if s == [] then 0 else 10 * ParseNat(s[..|s| - 1]) + DigitValue(s[|s| - 1])
  }

  lemma {:induction false} ParseNatText(n: nat)
    ensures ParseNat(NatText(n)) == n
    decreases n
  {
    if n >= 10 {
      ParseNatText(n / 10);
      var s := NatText(n);
      assert s[..|s| - 1] == NatText(n / 10);
    }
  }

  /** `${code}`: the decimal text of a number, or `null`. */
  function CodeText(code: Option<int>): (s: string)
    ensures |s| >= 1 && ':' !in s
  {
    match code
    case None => "null"
    case Some(n) => if n < 0 then "-" + NatText(-n) else NatText(n)
  }

  /** The first character tells `null`, a negative and a non-negative code apart. */
  lemma CodeTextHead(c: Option<int>)
    ensures c.None? ==> CodeText(c)[0] == 'n'
    ensures c.Some? && c.value < 0 ==> CodeText(c)[0] == '-' && CodeText(c)[1..] == NatText(-c.value)
    ensures c.Some? && c.value >= 0 ==> '0' <= CodeText(c)[0] <= '9' && CodeText(c) == NatText(c.value)
  {
  }

  lemma NatTextInjective(m: nat, n: nat)
    requires NatText(m) == NatText(n)
    ensures m == n
  {
    ParseNatText(m);
    ParseNatText(n);
  }

  /** Different exit codes never print the same. */
  lemma CodeTextInjective(a: Option<int>, b: Option<int>)
    requires CodeText(a) == CodeText(b)
    ensures a == b
  {
    CodeTextHead(a);
    CodeTextHead(b);
    if a.Some? && b.Some? {
      if a.value < 0 && b.value < 0 {
        NatTextInjective(-a.value, -b.value);
      } else if a.value >= 0 && b.value >= 0 {
        NatTextInjective(a.value, b.value);
      }
    }
  }

  const ExitPrefix: string := "Process exited with code "

  /** The message of the `Error` the close handler rejects with. */
  function ExitMessage(code: Option<int>, stderrText: string): (m: string)
    ensures ExitPrefix <= m
    ensures |m| >= |stderrText| && m[|m| - |stderrText|..] == stderrText
  {
    ExitPrefix + CodeText(code) + ": " + stderrText
  }

  /**
   * The message is unambiguous: the exit code and the decoded diagnostic
   * text can both be read back from it, because the code text holds no colon.
   */
  lemma ExitMessageDetermines(c1: Option<int>, t1: string, c2: Option<int>, t2: string)
    requires ExitMessage(c1, t1) == ExitMessage(c2, t2)
    ensures c1 == c2 && t1 == t2
  {
    SplitAfterPrefix(ExitPrefix, CodeText(c1), t1, CodeText(c2), t2);
    CodeTextInjective(c1, c2);
  }

  /** A fixed prefix, a text without a colon, `": "`, then anything: both texts can be read back. */
  lemma SplitAfterPrefix(pre: string, a: string, t1: string, b: string, t2: string)
    requires ':' !in a && ':' !in b && pre + a + ": " + t1 == pre + b + ": " + t2
    ensures a == b && t1 == t2
  {
    var m := pre + a + ": " + t1;
    assert m[|pre|..] == a + ": " + t1;
    assert (pre + b + ": " + t2)[|pre|..] == b + ": " + t2;
    SplitAtColon(a, t1, b, t2);
  }

  /** A text without a colon, then `": "`, then anything: both parts can be read back. */
  lemma SplitAtColon(a: string, t1: string, b: string, t2: string)
    requires ':' !in a && ':' !in b && a + ": " + t1 == b + ": " + t2
    ensures a == b && t1 == t2
  {
    var rest := a + ": " + t1;
    assert rest == a + [':'] + (" " + t1);
    assert b + ": " + t2 == b + [':'] + (" " + t2);
    BinaryResolver.FirstIndexAfterPrefix(a, ':', " " + t1);
    BinaryResolver.FirstIndexAfterPrefix(b, ':', " " + t2);
    assert a == rest[..|a|] == b;
    assert t1 == rest[|a| + 2..] == t2;
  }

  /** The close handler: code 0 resolves with the output, any other code rejects. */
  function CloseOutcome(code: Option<int>, stdoutChunks: seq<Bytes>, stderrChunks: seq<Bytes>,
                        decode: Bytes -> string): (s: Settlement)
    ensures s.Resolved? <==> code == Some(0)
    ensures s.Resolved? ==> s.output == Concat(stdoutChunks)
    ensures !s.Resolved? ==> s == Rejected(ExitedWith(ExitMessage(code, decode(Concat(stderrChunks)))))
  {
    if code == Some(0) then Resolved(Concat(stdoutChunks))
    else Rejected(ExitedWith(ExitMessage(code, decode(Concat(stderrChunks)))))
  }

  // ---------------------------------------------------------------------
  // Specification of the handlers over a trace of events

  /** The chunks the `stdout` handler has pushed after the events of `trace`. */
  function StdoutChunks(trace: seq<Event>): seq<Bytes>
    decreases |trace|
  {
    if trace == [] then []
    else
      StdoutChunks(trace[..|trace| - 1]) +
      (if trace[|trace| - 1].StdoutData? then [trace[|trace| - 1].chunk] else [])
  }

  /** The chunks the `stderr` handler has pushed after the events of `trace`. */
  function StderrChunks(trace: seq<Event>): seq<Bytes>
    decreases |trace|
  {
    if trace == [] then []
    else
      StderrChunks(trace[..|trace| - 1]) +
      (if trace[|trace| - 1].StderrData? then [trace[|trace| - 1].chunk] else [])
  }

  /** Some close event is in the trace. */
  predicate Closed(trace: seq<Event>)
    decreases |trace|
  {
    trace != [] && (trace[|trace| - 1].Close? || Closed(trace[..|trace| - 1]))
  }

  /**
   * The state of the promise after the events of `trace`: the first close
   * settles it, and a promise once settled ignores later calls.
   */
  function Settle(trace: seq<Event>, decode: Bytes -> string): (s: Settlement)
    ensures s.Pending? <==> !Closed(trace)
    ensures s.Rejected? ==> s.reason.ExitedWith?
    decreases |trace|
  {
    if trace == [] then Pending
    else
      var before := trace[..|trace| - 1];
      var prev := Settle(before, decode);
      if !prev.Pending? then prev
      else if trace[|trace| - 1].Close? then
        CloseOutcome(trace[|trace| - 1].code, StdoutChunks(before), StderrChunks(before), decode)
      else Pending
  }

  /** Chunks accumulate in arrival order: each handler only appends. */
  lemma {:induction false} ChunksInArrivalOrder(a: seq<Event>, b: seq<Event>)
    ensures StdoutChunks(a + b) == StdoutChunks(a) + StdoutChunks(b)
    ensures StderrChunks(a + b) == StderrChunks(a) + StderrChunks(b)
    decreases |b|
  {
    if b == [] {
      assert a + b == a;
    } else {
      var n := |b| - 1;
      assert (a + b)[..|a + b| - 1] == a + b[..n];
      assert (a + b)[|a + b| - 1] == b[n];
      ChunksInArrivalOrder(a, b[..n]);
    }
  }

  /** Without a close event the promise never settles. */
  lemma {:induction false} PendingWithoutClose(trace: seq<Event>, decode: Bytes -> string)
    requires forall k :: 0 <= k < |trace| ==> !trace[k].Close?
    ensures Settle(trace, decode) == Pending
    decreases |trace|
  {
    if trace != [] {
      PendingWithoutClose(trace[..|trace| - 1], decode);
    }
  }

  predicate FirstCloseAt(trace: seq<Event>, k: nat) {
    k < |trace| && trace[k].Close? && forall j :: 0 <= j < k ==> !trace[j].Close?
  }

  /**
   * The first close decides the outcome, from the chunks that arrived
   * before it; nothing that arrives after it changes the outcome.
   */
  lemma {:induction false} SettledByFirstClose(trace: seq<Event>, k: nat, decode: Bytes -> string)
    requires FirstCloseAt(trace, k)
    ensures Settle(trace, decode) ==
      CloseOutcome(trace[k].code, StdoutChunks(trace[..k]), StderrChunks(trace[..k]), decode)
    decreases |trace|
  {
    if |trace| == k + 1 {
      PendingWithoutClose(trace[..k], decode);
    } else {
      var before := trace[..|trace| - 1];
      assert before[..k] == trace[..k];
      SettledByFirstClose(before, k, decode);
    }
  }

  /**
   * The promise resolves exactly when the first close carries code 0, and
   * then with all output chunks concatenated in arrival order; every other
   * code, `null` included, rejects with the exit message carrying the
   * decoded diagnostic chunks.
   */
  lemma ResolvesIffExitCodeZero(trace: seq<Event>, k: nat, decode: Bytes -> string)
    requires FirstCloseAt(trace, k)
    ensures Settle(trace, decode).Resolved? <==> trace[k].code == Some(0)
    ensures Settle(trace, decode).Resolved? ==>
      Settle(trace, decode).output == Concat(StdoutChunks(trace[..k]))
    ensures !Settle(trace, decode).Resolved? ==>
      Settle(trace, decode) ==
        Rejected(ExitedWith(ExitMessage(trace[k].code, decode(Concat(StderrChunks(trace[..k]))))))
  {
    SettledByFirstClose(trace, k, decode);
  }

  // ---------------------------------------------------------------------
  // The handlers and invokeInkscape

  /** The closure state of one `invokeInkscape` call. */
  class Invocation {
    var stdoutChunks: seq<Bytes>
    var stderrChunks: seq<Bytes>
    var settlement: Settlement
    const decode: Bytes -> string

    constructor (decode: Bytes -> string)
      ensures stdoutChunks == [] && stderrChunks == [] && settlement == Pending
      ensures this.decode == decode
    {
      stdoutChunks := [];
      stderrChunks := [];
      settlement := Pending;
      this.decode := decode;
    }

    /** `proc.stdout.on("data", chunk => stdoutChunks.push(chunk))` */
    method OnStdoutData(chunk: Bytes)
      modifies this
      ensures stdoutChunks == old(stdoutChunks) + [chunk]
      ensures stderrChunks == old(stderrChunks) && settlement == old(settlement)
    {
      stdoutChunks := stdoutChunks + [chunk];
    }

    /** `proc.stderr.on("data", chunk => stderrChunks.push(chunk))` */
    method OnStderrData(chunk: Bytes)
      modifies this
      ensures stderrChunks == old(stderrChunks) + [chunk]
      ensures stdoutChunks == old(stdoutChunks) && settlement == old(settlement)
    {
      stderrChunks := stderrChunks + [chunk];
    }

    /** `proc.on("close", code => ...)`; a settled promise ignores a second settlement. */
    method OnClose(code: Option<int>)
      modifies this
      ensures stdoutChunks == old(stdoutChunks) && stderrChunks == old(stderrChunks)
      ensures settlement == if old(settlement).Pending?
        then CloseOutcome(code, stdoutChunks, stderrChunks, decode)
        else old(settlement)
    {
      if settlement.Pending? {
        if code == Some(0) {
          settlement := Resolved(Concat(stdoutChunks));
        } else {
          settlement := Rejected(ExitedWith(ExitMessage(code, decode(Concat(stderrChunks)))));
        }
      }
    }
  }

  /** `bin ??= findInkscapeBinaries()[0]`: an explicit binary wins, even an empty one. */
  function ChooseBin(bin: Option<string>, env: BinaryResolver.Env, platform: string,
                     fs: BinaryResolver.FileSystem): (chosen: Option<string>)
    ensures bin.Some? ==> chosen == bin
    ensures bin.None? && BinaryResolver.FindInkscapeBinaries(env, platform, fs) == [] ==> chosen.None?
    ensures bin.None? && BinaryResolver.FindInkscapeBinaries(env, platform, fs) != [] ==>
      chosen == Some(BinaryResolver.FindInkscapeBinaries(env, platform, fs)[0])
  {
    if bin.Some? then bin
    else
      var found := BinaryResolver.FindInkscapeBinaries(env, platform, fs);
      if |found| > 0 then Some(found[0]) else None
  }

  /**
   * The check `spawn` makes on its file argument before starting anything:
   * it throws for an undefined or an empty binary, and the promise
   * executor turns the throw into a rejection.
   */
  function SpawnTarget(chosen: Option<string>): (r: Result<string, Reason>)
    ensures r.Success? <==> chosen.Some? && chosen.value != ""
    ensures r.Success? ==> r.value == chosen.value
    ensures r.Failure? ==> !r.error.ExitedWith?
  {
    match chosen
    case None => Failure(FileArgumentUndefined)
    case Some(b) => if b == "" then Failure(FileArgumentEmpty) else Success(b)
  }

  /**
   * `invokeInkscape(args, stdin, { bin })` against a child process whose
   * handlers receive the events of `trace`: spawns the chosen binary, then
   * dispatches every event to its handler.
   */
  method InvokeInkscape(args: seq<string>, stdin: Bytes, bin: Option<string>,
                        env: BinaryResolver.Env, platform: string, fs: BinaryResolver.FileSystem,
                        trace: seq<Event>, decode: Bytes -> string)
    returns (spawned: Option<Spawn>, outcome: Settlement)
    ensures spawned.Some? <==> ChooseBin(bin, env, platform, fs).Some? && ChooseBin(bin, env, platform, fs).value != ""
    ensures spawned.Some? ==> spawned.value == Spawn(ChooseBin(bin, env, platform, fs).value, args, stdin)
    ensures ChooseBin(bin, env, platform, fs).None? ==> outcome == Rejected(FileArgumentUndefined)
    ensures ChooseBin(bin, env, platform, fs) == Some("") ==> outcome == Rejected(FileArgumentEmpty)
    ensures spawned.Some? ==> outcome == Settle(trace, decode)
  {
    var target := SpawnTarget(ChooseBin(bin, env, platform, fs));
    if target.Failure? {
      return None, Rejected(target.error);
    }
    spawned := Some(Spawn(target.value, args, stdin));
    var proc := new Invocation(decode);
    var i := 0;
    while i < |trace|
      invariant 0 <= i <= |trace|
      invariant proc.decode == decode
      invariant proc.stdoutChunks == StdoutChunks(trace[..i])
      invariant proc.stderrChunks == StderrChunks(trace[..i])
      invariant proc.settlement == Settle(trace[..i], decode)
    {
      assert trace[..i + 1][..i] == trace[..i];
      var event := trace[i];
      if event.StdoutData? {
        proc.OnStdoutData(event.chunk);
      } else if event.StderrData? {
        proc.OnStderrData(event.chunk);
      } else {
        proc.OnClose(event.code);
      }
      i := i + 1;
    }
    assert trace[..|trace|] == trace;
    outcome := proc.settlement;
  }
}
