/**
 * How a second Textadept instance on Windows hands its command line to the
 * running one (`g_application_run`, `pipe_listener` and `process` in
 * src/textadept_gtk.c), and the NUL-separated environment block built for
 * `CreateProcessA` by `spawn`.
 */
module RemoteInstance {
  import opened Wrappers
  import opened Separated

  const Nul: char := 0 as char

  /** The listener's buffer, `malloc(65536)`; at most one byte less is read into it. */
  const BufferSize: nat := 65536

  /** The C string at the start of `s`: everything before the first NUL (what `strlen` measures). */
  function CString(s: seq<char>): (c: seq<char>)
    ensures |c| <= |s| && c == s[..|c|] && SepFree(c, Nul)
    ensures |c| < |s| ==> s[|c|] == Nul
  {
    s[..SepIndex(s, Nul)]
  }

  /** Each string written as a C string followed by its NUL, one after the other. */
  function Frame(parts: seq<string>): (msg: seq<char>)
    ensures |msg| >= |parts|
    ensures msg == [] <==> parts == []
    ensures msg != [] ==> msg[|msg| - 1] == Nul
  {
    if parts == [] then [] else CString(parts[0]) + [Nul] + Frame(parts[1..])
  }

  /** What `g_application_run` writes to the pipe: the current directory, then each argument. */
  function Message(cwd: string, args: seq<string>): (msg: seq<char>)
    ensures |CString(cwd)| < |msg| && msg[..|CString(cwd)|] == CString(cwd) && msg[|CString(cwd)|] == Nul
    ensures msg[|msg| - 1] == Nul
  {
    Frame([cwd] + args)
  }

  function NulsToNewlines(s: seq<char>): (t: seq<char>)
    ensures |t| == |s|
  {
    seq(|s|, i requires 0 <= i < |s| => if s[i] == Nul then '\n' else s[i])
  }

  /**
   * The start of the listener's buffer after its rewrite of the `|data|` bytes
   * read: a NUL is stored after them, and every NUL before the last byte read
   * becomes '\n'. Reading nothing leaves just the stored NUL.
   */
  function Rewritten(data: seq<char>): (buf: seq<char>)
    ensures |buf| == |data| + 1 && buf[|data|] == Nul
  {
    if data == [] then [Nul]
    else NulsToNewlines(data[..|data| - 1]) + [data[|data| - 1], Nul]
  }

  /** `g_strsplit(s, "\n", 0)`: an empty string has no pieces, any other is split at every '\n'. */
  function SplitLines(s: string): (pieces: seq<string>)
    ensures s == [] <==> pieces == []
    ensures s != [] ==> |pieces| >= 1 && Joined(pieces, '\n') == s
    ensures forall p :: p in pieces ==> SepFree(p, '\n')
  {
    if s == [] then []
    else
      JoinSplit(s, '\n');
      SplitSepFree(s, '\n');
      Split(s, '\n')
  }

  /** The `argv` that `process` builds from the bytes the listener read. */
  function Decode(data: seq<char>): (argv: seq<string>)
    ensures data == [] ==> argv == []
    ensures forall a :: a in argv ==> SepFree(a, '\n')
  {
    SplitLines(CString(Rewritten(data)))
  }

  /**
   * The DWORD `len = p - buf - 1` of `pipe_listener`, the end of its rewrite
   * loop, for `n` bytes read: the subtraction wraps around when `n` is 0.
   */
  function RewriteEndAsWritten(n: nat): (len: nat)
    ensures len < 0x1_0000_0000
  {
    (n - 1) % 0x1_0000_0000
  }

  /** For every non-empty read the end is the last byte read, as intended. */
  lemma RewriteEndInRange(n: nat)
    requires 1 <= n < BufferSize
    ensures RewriteEndAsWritten(n) == n - 1
  {
  }

  /** An empty read (a client that connects and writes nothing) sends the loop 4 GiB past the buffer. */
  lemma EmptyReadOverruns()
    ensures RewriteEndAsWritten(0) == 0xFFFF_FFFF
    ensures RewriteEndAsWritten(0) > BufferSize
  {
  }

  /** With the rewrite below, an empty read reaches `process` as an empty string: no table, no event. */
  lemma EmptyReadSendsNothing()
    ensures Rewritten([]) == [Nul]
    ensures Decode([]) == []
  {
    assert SepIndex([Nul], Nul) == 0;
  }

  /**
   * `pipe_listener`'s rewrite of the `n` bytes it read, in place, with the loop
   * ending at the last byte read, or doing nothing when no byte was read.
   */
  method RewriteNuls(buf: array<char>, n: nat)
    requires buf.Length == BufferSize && n < BufferSize
    modifies buf
    ensures buf[..n + 1] == Rewritten(old(buf[..n]))
    ensures buf[n + 1..] == old(buf[n + 1..])
  {
    ghost var data := buf[..n];
    buf[n] := Nul;
    var len := if n == 0 then 0 else n - 1;
    var p := 0;
    while p < len
      invariant 0 <= p <= len
      invariant forall i :: 0 <= i < p ==> buf[i] == (if old(buf[i]) == Nul then '\n' else old(buf[i]))
      invariant forall i :: p <= i < buf.Length && i != n ==> buf[i] == old(buf[i])
      invariant buf[n] == Nul
    {
      if buf[p] == Nul {
        buf[p] := '\n';
      }
      p := p + 1;
    }
    assert buf[..n + 1] == Rewritten(data) by {
      if n > 0 {
        assert buf[..n - 1] == NulsToNewlines(data[..n - 1]);
        assert buf[..n + 1] == buf[..n - 1] + [buf[n - 1], buf[n]];
      }
    }
  }

  /** The table `process` passes to the "command_line" event: the directory at -1, argument i at i. */
  function ArgTable(argv: seq<string>): (table: map<int, string>)
    requires |argv| >= 1
    ensures forall i :: i in table <==> i == -1 || 1 <= i < |argv|
    ensures table[-1] == argv[0]
    ensures forall i :: 1 <= i < |argv| ==> table[i] == argv[i]
  {
    map i | -1 <= i < |argv| && i != 0 :: if i == -1 then argv[0] else argv[i]
  }

  /** `process`: with at least one argument after the directory, fill the table with `while (--argc)`. */
  method ProcessCommandLine(argv: seq<string>) returns (table: Option<map<int, string>>)
    ensures |argv| <= 1 ==> table == None
    ensures |argv| > 1 ==> table == Some(ArgTable(argv))
  {
    var argc := |argv|;
    if argc <= 1 {
      return None;
    }
    var t := map[-1 := argv[0]];
    argc := argc - 1;
    while argc != 0
      invariant 0 <= argc < |argv|
      invariant forall i :: i in t <==> i == -1 || argc < i < |argv|
      invariant forall i :: i in t ==> t[i] == if i == -1 then argv[0] else argv[i]
    {
      t := t[argc := argv[argc]];
      argc := argc - 1;
    }
    assert t == ArgTable(argv);
    table := Some(t);
  }

  /** A string the framing carries unchanged: no NUL and no newline. */
  predicate Plain(s: string) {
    SepFree(s, Nul) && SepFree(s, '\n')
  }

  lemma {:induction false} FrameJoined(parts: seq<string>)
    requires |parts| >= 1 && forall k :: 0 <= k < |parts| ==> SepFree(parts[k], Nul)
    ensures Frame(parts) == Joined(parts, Nul) + [Nul]
  {
    assert CString(parts[0]) == parts[0];
    if |parts| > 1 {
      FrameJoined(parts[1..]);
    }
  }

  lemma NewlinesAppend(a: seq<char>, b: seq<char>)
    ensures NulsToNewlines(a + b) == NulsToNewlines(a) + NulsToNewlines(b)
  {
  }

  lemma {:induction false} NewlinesJoined(parts: seq<string>)
    requires |parts| >= 1 && forall k :: 0 <= k < |parts| ==> SepFree(parts[k], Nul)
    ensures NulsToNewlines(Joined(parts, Nul)) == Joined(parts, '\n')
  {
    assert NulsToNewlines(parts[0]) == parts[0];
    if |parts| > 1 {
      NewlinesJoined(parts[1..]);
      NewlinesAppend(parts[0] + [Nul], Joined(parts[1..], Nul));
      NewlinesAppend(parts[0], [Nul]);
    }
  }

  lemma {:induction false} JoinedNulFree(parts: seq<string>)
    requires |parts| >= 1 && forall k :: 0 <= k < |parts| ==> SepFree(parts[k], Nul)
    ensures SepFree(Joined(parts, '\n'), Nul)
    ensures Joined(parts, '\n') == [] <==> parts == [[]]
  {
    if |parts| > 1 {
      JoinedNulFree(parts[1..]);
      assert Joined(parts, '\n')[|parts[0]|] == '\n';
    }
  }

  /**
   * The framing round trip: what `g_application_run` writes, once read by the
   * listener and split by `process`, is the directory followed by the
   * arguments in order (an empty directory with no arguments reads as nothing).
   * The listener reads at most `BufferSize - 1` bytes, so this holds for
   * messages shorter than the buffer.
   */
  lemma {:induction false} FramingRoundTrip(cwd: string, args: seq<string>)
    requires Plain(cwd) && forall k :: 0 <= k < |args| ==> Plain(args[k])
    requires |Message(cwd, args)| < BufferSize
    ensures Decode(Message(cwd, args)) == if cwd == [] && args == [] then [] else [cwd] + args
  {
    var parts := [cwd] + args;
    assert forall k :: 0 <= k < |parts| ==> Plain(parts[k]);
    var data := Message(cwd, args);
    FrameJoined(parts);
    NewlinesJoined(parts);
    JoinedNulFree(parts);
    var lines := Joined(parts, '\n');
    assert data[..|data| - 1] == Joined(parts, Nul);
    assert Rewritten(data) == lines + [Nul, Nul];
    FirstSepAfter(lines, [Nul, Nul], Nul);
    assert CString(Rewritten(data)) == lines;
    if lines != [] {
      assert forall w :: w in parts ==> SepFree(w, '\n');
      SplitJoin(parts, '\n');
    }
  }

  /**
   * With at least one argument, the remote instance's table holds its
   * directory at -1 and its i-th argument at i; with none, no event is sent
   * (for messages that fit in the listener's buffer).
   */
  lemma RemoteArgumentsArrive(cwd: string, args: seq<string>)
    requires Plain(cwd) && forall k :: 0 <= k < |args| ==> Plain(args[k])
    requires |Message(cwd, args)| < BufferSize
    ensures args == [] ==> |Decode(Message(cwd, args))| <= 1
    ensures args != [] ==>
      var argv := Decode(Message(cwd, args));
      && |argv| == |args| + 1
      && ArgTable(argv)[-1] == cwd
      && forall i :: 1 <= i <= |args| ==> ArgTable(argv)[i] == args[i - 1]
  {
    FramingRoundTrip(cwd, args);
  }

  /**
   * The environment block given to `CreateProcessA`: each entry (up to its
   * first NUL, as `luaL_addstring` copies it) followed by a NUL, then one more NUL.
   */
  function EnvBlock(entries: seq<string>): (block: seq<char>)
    ensures |block| >= 1 && block[|block| - 1] == Nul
  {
    Frame(entries) + [Nul]
  }

  /** How an environment block is read back: C strings one after another until an empty one. */
  function EnvEntries(block: seq<char>): seq<string>
    decreases |block|
  {
    var e := CString(block);
    if e == [] || |e| == |block| then [] else [e] + EnvEntries(block[|e| + 1..])
  }

  /** The environment round trip, for non-empty entries without NULs. */
  lemma {:induction false} EnvRoundTrip(entries: seq<string>)
    requires forall k :: 0 <= k < |entries| ==> entries[k] != [] && SepFree(entries[k], Nul)
    ensures EnvEntries(EnvBlock(entries)) == entries
  {
    var block := EnvBlock(entries);
    if entries == [] {
      assert CString(block) == [];
    } else {
      var e := entries[0];
      assert CString(e) == e;
      var tail := [Nul] + EnvBlock(entries[1..]);
      assert block == e + tail;
      FirstSepAfter(e, tail, Nul);
      assert CString(block) == e;
      assert block[|e| + 1..] == tail[1..] == EnvBlock(entries[1..]);
      EnvRoundTrip(entries[1..]);
    }
  }
}
