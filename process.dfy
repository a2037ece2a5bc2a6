/**
 * The record behind a spawned child process (`struct Process` in
 * src/textadept_gtk.c) and the operations on it: registering its event-loop
 * watches at spawn time, draining a readable output channel, cleaning up when
 * the child exits, normalising the exit status and the manual reads.
 */
module Processes {

  /** `BUFSIZ`, the chunk size of `read_channel` (glibc's value). */
  const BufSize: nat := 8192

  /** The two output channels, `cstdout` and `cstderr`. */
  datatype Stream = Stdout | Stderr

  /** The event-loop sources registered with the record as user data. */
  datatype Watch = OutputWatch(stream: Stream) | ChildWatch

  /** The bits of a `GIOCondition` that `read_channel` looks at: `G_IO_IN` and `G_IO_HUP`. */
  datatype Condition = Condition(input: bool, hangUp: bool)

  /** A `GIOStatus`, with the `GError` that comes with `G_IO_STATUS_ERROR`. */
  datatype IOStatus = Normal | Eof | Again | Failed(message: string, code: int)

  /** What one GLib read call on a channel reports: its status and the bytes it read. */
  datatype ChannelRead = ChannelRead(status: IOStatus, data: seq<char>)

  /** One call of the `process_output` callback: the bytes and whether they came from stdout. */
  datatype Chunk = Chunk(data: seq<char>, isStdout: bool)

  /** What `read_process_output` hands back: the bytes, NULL with no error, or NULL with an error. */
  datatype ReadOutcome = Bytes(data: seq<char>) | EndOfStream | ReadError(message: string, code: int)

  // ---------------------------------------------------------------------------
  // Spawn: which watches are registered

  /** The watches `spawn` registers: an output watch per requested stream and always a child watch. */
  function SpawnWatches(monitorStdout: bool, monitorStderr: bool): (ws: set<Watch>)
    ensures ChildWatch in ws
    ensures OutputWatch(Stdout) in ws <==> monitorStdout
    ensures OutputWatch(Stderr) in ws <==> monitorStderr
  {
    (if monitorStdout then {OutputWatch(Stdout)} else {}) +
    (if monitorStderr then {OutputWatch(Stderr)} else {}) +
    {ChildWatch}
  }

  /** One watch per monitored stream, plus the child watch. */
  lemma SpawnWatchCount(monitorStdout: bool, monitorStderr: bool)
    ensures |SpawnWatches(monitorStdout, monitorStderr)| ==
      1 + (if monitorStdout then 1 else 0) + (if monitorStderr then 1 else 0)
  {
  }

  /** Every set of watches is drawn from these three. */
  function AllWatches(): set<Watch> {
    {OutputWatch(Stdout), OutputWatch(Stderr), ChildWatch}
  }

  lemma {:induction false} SubsetCardinality<T>(a: set<T>, b: set<T>)
    requires a <= b
    ensures |a| <= |b|
    decreases |b|
  {
    if a != {} {
      var x :| x in a;
      SubsetCardinality(a - {x}, b - {x});
    }
  }

  /** A record never has more than three watches, which is why cleanup removes three. */
  lemma AtMostThreeWatches(ws: set<Watch>)
    ensures |ws| <= 3
  {
    forall w | w in ws ensures w in AllWatches() {
      match w
      case OutputWatch(s) => assert s == Stdout || s == Stderr;
      case ChildWatch =>
    }
    SubsetCardinality(ws, AllWatches());
  }

  // ---------------------------------------------------------------------------
  // read_channel: the drain loop

  /** The index of the first read that returns fewer (or more) than `BufSize` bytes, or `|calls|`. */
  function FirstShort(calls: seq<ChannelRead>): (k: nat)
    ensures k <= |calls|
    ensures forall j :: 0 <= j < k ==> |calls[j].data| == BufSize
    ensures k < |calls| ==> |calls[k].data| != BufSize
  {
    if calls == [] || |calls[0].data| != BufSize then 0 else 1 + FirstShort(calls[1..])
  }

  /** The `process_output` calls made for the read results `calls`: one per normal, non-empty read, in order. */
  function Forwarded(calls: seq<ChannelRead>, isStdout: bool): (cs: seq<Chunk>)
    ensures |cs| <= |calls|
    ensures forall c :: c in cs ==> c.data != [] && c.isStdout == isStdout
  {
    if calls == [] then []
    else
      var last := calls[|calls| - 1];
      Forwarded(calls[..|calls| - 1], isStdout) +
      (if last.status == Normal && last.data != [] then [Chunk(last.data, isStdout)] else [])
  }

  lemma ForwardedStep(calls: seq<ChannelRead>, k: nat, isStdout: bool)
    requires k < |calls|
    ensures Forwarded(calls[..k + 1], isStdout) == Forwarded(calls[..k], isStdout) +
      (if calls[k].status == Normal && calls[k].data != [] then [Chunk(calls[k].data, isStdout)] else [])
  {
    assert calls[..k + 1][..k] == calls[..k];
  }

  lemma FirstShortStep(calls: seq<ChannelRead>, k: nat)
    requires k <= FirstShort(calls) < |calls|
    ensures (|calls[k].data| == BufSize) == (k < FirstShort(calls))
  {
  }

  /**
   * The do-while loop of `read_channel`: read `BufSize` chunks until a short
   * read, passing each normal, non-empty one to `process_output`.
   */
  method Drain(calls: seq<ChannelRead>, isStdout: bool) returns (chunks: seq<Chunk>, consumed: nat)
    requires FirstShort(calls) < |calls|
    ensures consumed == FirstShort(calls) + 1
    ensures chunks == Forwarded(calls[..consumed], isStdout)
  {
    var k := 0;
    var more := true;
    chunks := [];
    while more
      invariant k <= FirstShort(calls) + 1
      invariant more ==> k <= FirstShort(calls)
      invariant !more ==> k == FirstShort(calls) + 1
      invariant chunks == Forwarded(calls[..k], isStdout)
      decreases |calls| - k, more
    {
      var rd := calls[k];
      ForwardedStep(calls, k, isStdout);
      FirstShortStep(calls, k);
      if rd.status == Normal && |rd.data| > 0 {
        chunks := chunks + [Chunk(rd.data, isStdout)];
      }
      k := k + 1;
      more := |rd.data| == BufSize;
    }
    consumed := k;
  }

  /** All bytes of the normal reads, in stream order. */
  function NormalBytes(calls: seq<ChannelRead>): seq<char> {
    if calls == [] then []
    else
      var last := calls[|calls| - 1];
      NormalBytes(calls[..|calls| - 1]) + (if last.status == Normal then last.data else [])
  }

  function Concat(cs: seq<Chunk>): seq<char> {
    if cs == [] then [] else Concat(cs[..|cs| - 1]) + cs[|cs| - 1].data
  }

  lemma {:induction false} ConcatAppend(cs: seq<Chunk>, ds: seq<Chunk>)
    ensures Concat(cs + ds) == Concat(cs) + Concat(ds)
    decreases |ds|
  {
    if ds != [] {
      var init := ds[..|ds| - 1];
      assert (cs + ds)[..|cs + ds| - 1] == cs + init;
      assert (cs + ds)[|cs + ds| - 1] == ds[|ds| - 1];
      ConcatAppend(cs, init);
      calc {
        Concat(cs + ds);
        Concat(cs + init) + ds[|ds| - 1].data;
        Concat(cs) + Concat(init) + ds[|ds| - 1].data;
        Concat(cs) + Concat(ds);
      }
    } else {
      assert cs + ds == cs;
    }
  }

  /**
   * The sink sees every byte of the normal reads, in order and nothing else:
   * empty reads add nothing, so dropping them loses nothing.
   */
  lemma {:induction false} ForwardedKeepsBytes(calls: seq<ChannelRead>, isStdout: bool)
    ensures Concat(Forwarded(calls, isStdout)) == NormalBytes(calls)
    decreases |calls|
  {
    if calls != [] {
      var init := calls[..|calls| - 1];
      var last := calls[|calls| - 1];
      ForwardedKeepsBytes(init, isStdout);
      var tail := if last.status == Normal && last.data != [] then [Chunk(last.data, isStdout)] else [];
      ConcatAppend(Forwarded(init, isStdout), tail);
      if tail != [] {
        assert Concat(tail) == Concat([]) + last.data;
      }
    }
  }

  // ---------------------------------------------------------------------------
  // wait_process: the POSIX status word

  /** `WIFEXITED(status)` of glibc. */
  predicate ExitedNormally(raw: bv32) {
    raw & 0x7f == 0
  }

  /** `WEXITSTATUS(status)` of glibc. */
  function ExitCodeOf(raw: bv32): int {
    ((raw & 0xff00) >> 8) as int
  }

  /** The status `wait_process` passes on: the exit code after a normal exit, 1 otherwise. */
  function NormalizeWaitStatus(raw: bv32): (status: int)
    ensures 0 <= status < 256
    ensures ExitedNormally(raw) ==> status == ExitCodeOf(raw)
    ensures !ExitedNormally(raw) ==> status == 1
  {
    if ExitedNormally(raw) then ExitCodeOf(raw) else 1
  }

  /** The status word the kernel reports for `exit(code)`. */
  function ExitWord(code: bv32): bv32
    requires code < 256
  {
    code << 8
  }

  /** The status word for death by signal `sig`, with or without a core dump. */
  function SignalWord(sig: bv32, core: bool): bv32
    requires 0 < sig < 0x7f
  {
    sig | (if core then 0x80 else 0)
  }

  /** A child that exits normally is reported with its own exit code. */
  lemma ExitCodeRoundTrip(code: bv32)
    requires code < 256
    ensures NormalizeWaitStatus(ExitWord(code)) == code as int
  {
    var w := ExitWord(code);
    assert w & 0x7f == 0;
    assert (w & 0xff00) >> 8 == code;
  }

  /** A child killed by a signal is reported as failed (1), never as success. */
  lemma SignalledIsFailure(sig: bv32, core: bool)
    requires 0 < sig < 0x7f
    ensures NormalizeWaitStatus(SignalWord(sig, core)) == 1
  {
    assert SignalWord(sig, core) & 0x7f == sig;
  }

  /** A Windows exit code (a DWORD) stored in the record's `int` status. */
  function Int32Of(code: bv32): (status: int)
    ensures -0x8000_0000 <= status < 0x8000_0000
    ensures status == code as int || status == code as int - 0x1_0000_0000
  {
    var c := code as int;
    if c < 0x8000_0000 then c else c - 0x1_0000_0000
  }

  // ---------------------------------------------------------------------------
  // read_process_output

  /** The read options `read_process_output` handles; any other leaves `buf` uninitialised. */
  predicate ValidOption(option: char) {
    option == 'l' || option == 'L' || option == 'a' || option == 'n'
  }

  /**
   * What lines 994-995 need in 'l' mode: `buf[*len - 1]` must exist before each
   * strip, so the line is not empty and is not just "\n".
   */
  predicate LineIndexable(data: seq<char>) {
    |data| > 0 && (data[|data| - 1] == '\n' ==> |data| > 1)
  }

  /** The 'l' mode strip: at most one trailing '\n', then at most one trailing '\r'. */
  function StripLine(data: seq<char>): (r: seq<char>)
    requires LineIndexable(data)
    ensures |data| - 2 <= |r| <= |data|
    ensures r == data[..|r|]
    ensures data[|r|..] == "" || data[|r|..] == "\n" || data[|r|..] == "\r" || data[|r|..] == "\r\n"
    ensures data[|data| - 1] != '\n' && data[|data| - 1] != '\r' ==> r == data
    ensures data[|data| - 1] == '\r' ==> r == data[..|data| - 1]
    ensures |data| >= 2 && data[|data| - 2..] == "\r\n" ==> r == data[..|data| - 2]
    ensures |data| >= 2 && data[|data| - 2] != '\r' && data[|data| - 1] == '\n' ==> r == data[..|data| - 1]
  {
    var a := if data[|data| - 1] == '\n' then data[..|data| - 1] else data;
    assert data[|a|..] == "" || data[|a|..] == "\n";
    if a[|a| - 1] == '\r' then
      assert data[|a| - 1..] == ['\r'] + data[|a|..];
      a[..|a| - 1]
    else a
  }

  /**
   * The result of `read_process_output` once the GLib read call reported `rd`:
   * 'a' turns EOF into success, EOF is otherwise NULL with no error, an error
   * status is NULL with the error's message and code, and 'l' strips the line end.
   */
  function ManualResult(option: char, rd: ChannelRead): (r: ReadOutcome)
    requires ValidOption(option) && rd.status != Again
    requires option == 'l' ==> LineIndexable(rd.data)
    ensures r == EndOfStream <==> rd.status == Eof && option != 'a'
    ensures rd.status.Failed? <==> r.ReadError?
    ensures rd.status.Failed? ==> r.message == rd.status.message && r.code == rd.status.code
    ensures option == 'a' && (rd.status == Normal || rd.status == Eof) ==> r == Bytes(rd.data)
    ensures option != 'l' && rd.status == Normal ==> r == Bytes(rd.data)
    ensures option == 'l' && rd.status == Normal ==> r == Bytes(StripLine(rd.data))
  {
    var status := if option == 'a' && rd.status == Eof then Normal else rd.status;
    var data := if option == 'l' then StripLine(rd.data) else rd.data;
    if status == Eof then EndOfStream
    else if status.Failed? then ReadError(status.message, status.code)
    else Bytes(data)
  }

  // ---------------------------------------------------------------------------
  // The record

  class Process {
    /** The child's id; 0 once the record has been cleaned up. */
    var pid: int
    var exitStatus: int
    var stdinOpen: bool
    var stdoutOpen: bool
    var stderrOpen: bool
    /** The buffered flags of `cstdout` and `cstderr`. */
    var stdoutBuffered: bool
    var stderrBuffered: bool
    /** The event-loop sources whose user data is this record. */
    var watches: set<Watch>
    /** The calls of the `process_output` callback so far. */
    ghost var output: seq<Chunk>
    /** The calls of the `process_exited` callback so far. */
    ghost var exited: seq<int>

    ghost predicate Valid()
      reads this
    {
      pid == 0 ==> watches == {} && !stdinOpen && !stdoutOpen && !stderrOpen
    }

    /** `is_process_running`: a record that is not running has no watches and no open pipes. */
    function IsRunning(): (running: bool)
      reads this
      ensures Valid() && !running ==> watches == {} && !stdinOpen && !stdoutOpen && !stderrOpen
    {
      pid != 0
    }

    /** `get_process_exit_status`. */
    function ExitStatus(): int
      reads this
    {
      exitStatus
    }

    /**
     * A successful `spawn`: the OS gave the child id `childPid`; both channels
     * start unbuffered, and the watches are registered.
     */
    constructor Spawn(childPid: int, monitorStdout: bool, monitorStderr: bool)
      requires childPid != 0
      ensures Valid() && IsRunning() && pid == childPid
      ensures watches == SpawnWatches(monitorStdout, monitorStderr)
      ensures stdinOpen && stdoutOpen && stderrOpen
      ensures !stdoutBuffered && !stderrBuffered
      ensures output == [] && exited == []
    {
      pid := childPid;
      exitStatus := 0;
      stdinOpen, stdoutOpen, stderrOpen := true, true, true;
      output, exited := [], [];
      watches := {};
      new;
      NewChannel(Stdout, monitorStdout);
      NewChannel(Stderr, monitorStderr);
      watches := watches + {ChildWatch};
      assert watches == SpawnWatches(monitorStdout, monitorStderr);
    }

    /** `new_channel`: an unbuffered channel, watched for input and hang-up when asked. */
    method NewChannel(stream: Stream, watch: bool)
      modifies this`stdoutBuffered, this`stderrBuffered, this`watches
      ensures stream == Stdout ==> !stdoutBuffered && stderrBuffered == old(stderrBuffered)
      ensures stream == Stderr ==> !stderrBuffered && stdoutBuffered == old(stdoutBuffered)
      ensures watches == old(watches) + (if watch then {OutputWatch(stream)} else {})
    {
      if stream == Stdout {
        stdoutBuffered := false;
      } else {
        stderrBuffered := false;
      }
      if watch {
        watches := watches + {OutputWatch(stream)};
      }
    }

    /**
     * `read_channel`, called by the event loop for the watch on `source` with
     * condition `cond`; `calls` are the outcomes of the successive
     * `g_io_channel_read_chars` calls. Returning false removes the watch.
     */
    method ReadChannel(source: Stream, cond: Condition, calls: seq<ChannelRead>)
      returns (keep: bool, consumed: nat)
      requires Valid()
      requires FirstShort(calls) < |calls|
      modifies this`output, this`watches
      ensures Valid()
      ensures pid == 0 || !cond.input ==> consumed == 0 && output == old(output)
      ensures pid != 0 && cond.input ==>
        consumed == FirstShort(calls) + 1 &&
        output == old(output) + Forwarded(calls[..consumed], source == Stdout)
      ensures keep == (pid != 0 && cond.input && !cond.hangUp)
      ensures watches == if keep then old(watches) else old(watches) - {OutputWatch(source)}
    {
      if pid == 0 || !cond.input {
        keep, consumed := false, 0;
      } else {
        var chunks;
        chunks, consumed := Drain(calls, source == Stdout);
        output := output + chunks;
        keep := pid != 0 && !cond.hangUp;
      }
      if !keep {
        watches := watches - {OutputWatch(source)};
      }
    }

    /** One `g_source_remove_by_user_data(proc)`: removes one of the record's watches, if any. */
    method RemoveByUserData()
      modifies this`watches
      ensures watches <= old(watches)
      ensures old(watches) == {} ==> watches == {}
      ensures old(watches) != {} ==> |watches| == |old(watches)| - 1
    {
      if watches != {} {
        var w :| w in watches;
        watches := watches - {w};
      }
    }

    /**
     * `cleanup_process`: drops the (at most three) watches, marks the record
     * as not running, closes the pipes and reports `status`. `cleanup_process`
     * has no guard of its own against a second call; callers pass a running record.
     */
    method Cleanup(status: int)
      requires Valid() && pid != 0
      modifies this
      ensures Valid()
      ensures !IsRunning() && ExitStatus() == status
      ensures watches == {} && !stdinOpen && !stdoutOpen && !stderrOpen
      ensures exited == old(exited) + [status]
      ensures output == old(output)
      ensures stdoutBuffered == old(stdoutBuffered) && stderrBuffered == old(stderrBuffered)
    {
      AtMostThreeWatches(watches);
      RemoveByUserData();
      RemoveByUserData();
      RemoveByUserData();
      pid := 0;
      stdinOpen, stdoutOpen, stderrOpen := false, false, false;
      exitStatus := status;
      exited := exited + [status];
    }

    /** `wait_process` on POSIX, once `waitpid` has filled in the status word `raw`. */
    method WaitProcess(raw: bv32)
      requires Valid() && pid != 0
      modifies this
      ensures Valid() && !IsRunning() && watches == {}
      ensures ExitStatus() == NormalizeWaitStatus(raw)
      ensures exited == old(exited) + [NormalizeWaitStatus(raw)]
      ensures output == old(output)
      ensures stdoutBuffered == old(stdoutBuffered) && stderrBuffered == old(stderrBuffered)
    {
      var status := NormalizeWaitStatus(raw);
      Cleanup(status);
    }

    /** `wait_process` on Windows, once `GetExitCodeProcess` has reported `code`. */
    method WaitProcessHandle(code: bv32)
      requires Valid() && pid != 0
      modifies this
      ensures Valid() && !IsRunning() && watches == {}
      ensures ExitStatus() == Int32Of(code)
      ensures exited == old(exited) + [Int32Of(code)]
      ensures output == old(output)
      ensures stdoutBuffered == old(stdoutBuffered) && stderrBuffered == old(stderrBuffered)
    {
      Cleanup(Int32Of(code));
    }

    /**
     * `read_process_output`: buffers `cstdout` for the read, makes the read
     * (whose outcome is `rd`), leaves the channel unbuffered when no buffered
     * input remains (`pending` is false), and shapes the result.
     */
    method ReadOutput(option: char, rd: ChannelRead, pending: bool) returns (res: ReadOutcome)
      requires ValidOption(option) && rd.status != Again
      requires option == 'l' ==> LineIndexable(rd.data)
      modifies this`stdoutBuffered
      ensures res == ManualResult(option, rd)
      ensures stdoutBuffered == pending
    {
      if !stdoutBuffered {
        stdoutBuffered := true;
      }
      assert stdoutBuffered;  // the read happens on a buffered channel
      var status := rd.status;
      var data := rd.data;
      if option == 'a' && status == Eof {
        status := Normal;
      }
      if !pending {
        stdoutBuffered := false;
      }
      if option == 'l' && data[|data| - 1] == '\n' {
        data := data[..|data| - 1];
      }
      if option == 'l' && data[|data| - 1] == '\r' {
        data := data[..|data| - 1];
      }
      if status == Eof {
        return EndOfStream;
      }
      if status != Normal {
        return ReadError(status.message, status.code);
      }
      res := Bytes(data);
    }
  }
}
