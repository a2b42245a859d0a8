/** NUL-separated argument vectors on the daemon's sockets: daemon/x52d_comm_client.c,
    daemon/x52d_comm_internal.c and the replies of daemon/x52d_command.c. */
module Framing {
  import opened Prelude

  type Bytes = seq<byte>

  const BUFSZ := 1024

  /** A C string: no NUL inside. */
  ghost predicate CString(s: Bytes) {
    forall i :: 0 <= i < |s| ==> s[i] != 0
  }

  ghost predicate CStrings(args: seq<Bytes>) {
    forall i :: 0 <= i < |args| ==> CString(args[i])
  }

  /** Each argument followed by a NUL. */
  function Frame(args: seq<Bytes>): Bytes {
    if args == [] then [] else Frame(args[..|args| - 1]) + args[|args| - 1] + [0]
  }

  lemma FrameSnoc(args: seq<Bytes>, a: Bytes)
    ensures Frame(args + [a]) == Frame(args) + a + [0]
  {
    assert (args + [a])[..|args|] == args;
  }

  lemma {:induction false} FrameCons(a: Bytes, args: seq<Bytes>)
    ensures Frame([a] + args) == a + [0] + Frame(args)
    decreases |args|
  {
    if args == [] {
      assert [a] + args == [] + [a];
      FrameSnoc([], a);
      assert Frame([a] + args) == [] + a + [0];
      assert a + [0] + [] == [] + a + [0];
    } else {
      var init, last := args[..|args| - 1], args[|args| - 1];
      FrameCons(a, init);
      assert [a] + args == ([a] + init) + [last];
      FrameSnoc([a] + init, last);
      assert a + [0] + Frame(init) + last + [0] == a + [0] + (Frame(init) + last + [0]);
    }
  }

  lemma {:induction false} FrameMonotone(args: seq<Bytes>, k: nat)
    requires k <= |args|
    ensures |Frame(args[..k])| <= |Frame(args)|
  {
    if k < |args| {
      var init := args[..|args| - 1];
      FrameMonotone(init, k);
      assert init[..k] == args[..k];
    } else {
      assert args[..k] == args;
    }
  }

  // ----- unframing ---------------------------------------------------------------------------

  /** The position of the first NUL at or after i, or the end. */
  function Terminator(s: Bytes, i: nat): (j: nat)
    requires i <= |s|
    ensures i <= j <= |s| && (j < |s| ==> s[j] == 0) && forall k :: i <= k < j ==> s[k] != 0
    decreases |s| - i
  {
    if i == |s| || s[i] == 0 then i else Terminator(s, i + 1)
  }

  /** The argument pointers into a buffer, from position i on. */
  function Starts(s: Bytes, i: nat): seq<nat>
    requires i <= |s| + 1
    decreases |s| + 1 - i
  {
    if i >= |s| then [] else [i] + Starts(s, Terminator(s, i) + 1)
  }

  /** What the argument pointers mean. */
  function Args(s: Bytes, i: nat): seq<Bytes>
    requires i <= |s| + 1
    decreases |s| + 1 - i
  {
    if i >= |s| then [] else [s[i..Terminator(s, i)]] + Args(s, Terminator(s, i) + 1)
  }

  lemma {:induction false} ArgsAreStarts(s: Bytes, i: nat)
    requires i <= |s| + 1
    ensures |Args(s, i)| == |Starts(s, i)| <= if i >= |s| then 0 else |s| - i
    ensures forall k :: 0 <= k < |Starts(s, i)| ==>
              Starts(s, i)[k] < |s| && Args(s, i)[k] == s[Starts(s, i)[k]..Terminator(s, Starts(s, i)[k])]
    decreases |s| + 1 - i
  {
    hide Args, Starts, Terminator;
    if i < |s| {
      ArgsStep(s, i);
      ArgsAreStarts(s, Terminator(s, i) + 1);
    } else {
      ArgsEnd(s, i);
    }
  }

  lemma ArgsStep(s: Bytes, i: nat)
    requires i < |s|
    ensures Args(s, i) == [s[i..Terminator(s, i)]] + Args(s, Terminator(s, i) + 1)
    ensures Starts(s, i) == [i] + Starts(s, Terminator(s, i) + 1)
  {
  }

  lemma ArgsEnd(s: Bytes, i: nat)
    requires |s| <= i <= |s| + 1
    ensures Args(s, i) == [] && Starts(s, i) == []
  {
  }

  lemma TerminatorAt(s: Bytes, i: nat, a: Bytes)
    requires CString(a) && i + |a| < |s| && s[i..i + |a|] == a && s[i + |a|] == 0
    ensures Terminator(s, i) == i + |a|
  {
    forall k | i <= k < i + |a|
      ensures s[k] != 0
    {
      assert s[k] == s[i..i + |a|][k - i];
    }
  }

  lemma {:induction false} UnframeFrom(done: Bytes, args: seq<Bytes>)
    requires CStrings(args)
    ensures Args(done + Frame(args), |done|) == args
    decreases |args|
  {
    hide Frame, Terminator, Args;
    if args == [] {
      FrameNothing();
      assert done + Frame(args) == done;
      ArgsEnd(done, |done|);
    } else {
      var a, rest := args[0], args[1..];
      var s := done + Frame(args);
      assert args == [a] + rest;
      FrameCons(a, rest);
      assert s == (done + a + [0]) + Frame(rest);
      assert s[|done|..|done| + |a|] == a;
      TerminatorAt(s, |done|, a);
      ArgsStep(s, |done|);
      UnframeFrom(done + a + [0], rest);
      assert |done + a + [0]| == |done| + |a| + 1;
    }
  }

  /** Unframing undoes framing, for every list of NUL-free arguments, empty ones included. */
  lemma UnframeFrame(args: seq<Bytes>)
    requires CStrings(args)
    ensures Args(Frame(args), 0) == args
  {
    assert [] + Frame(args) == Frame(args);
    UnframeFrom([], args);
  }

  lemma FrameNothing()
    ensures Frame([]) == []
  {
  }

  lemma {:induction false} FrameUnframeFrom(s: Bytes, i: nat)
    requires i <= |s| && (i < |s| ==> s[|s| - 1] == 0)
    ensures CStrings(Args(s, i)) && Frame(Args(s, i)) == s[i..]
    decreases |s| - i
  {
    hide Frame, Terminator, Args;
    if i == |s| {
      FrameNothing();
      ArgsEnd(s, i);
    } else {
      ArgsStep(s, i);
      var j := Terminator(s, i);
      FrameUnframeFrom(s, j + 1);
      FrameCons(s[i..j], Args(s, j + 1));
      assert s[i..] == s[i..j] + [0] + s[j + 1..];
    }
  }

  /** Framing undoes unframing, for every message that ends in a NUL. */
  lemma FrameUnframe(s: Bytes)
    requires s == [] || s[|s| - 1] == 0
    ensures CStrings(Args(s, 0)) && Frame(Args(s, 0)) == s
  {
    FrameUnframeFrom(s, 0);
  }

  // ----- the programs ------------------------------------------------------------------------

  datatype FormatResult = Length(n: nat) | Einval | E2big

  /** Fills a buffer with the framed command; fails exactly when the frame and one more byte do not fit. */
  method FormatCommand(argv: seq<Bytes>, buffer: array<byte>) returns (r: FormatResult)
    requires CStrings(argv)
    modifies buffer
    ensures r == if argv == [] || buffer.Length < BUFSZ then Einval
                 else if |Frame(argv)| >= buffer.Length then E2big
                 else Length(|Frame(argv)|)
    ensures r.Einval? ==> buffer[..] == old(buffer[..])
    ensures r.Length? ==> buffer[..r.n] == Frame(argv) && forall i :: r.n <= i < buffer.Length ==> buffer[i] == 0
  {
    if |argv| == 0 || buffer.Length < BUFSZ {
      return Einval;
    }
    for i := 0 to buffer.Length
      invariant forall k :: 0 <= k < i ==> buffer[k] == 0
    {
      buffer[i] := 0;
    }
    var msglen: nat := 0;
    var i := 0;
    assert argv[..0] == [];
    while i < |argv|
      invariant 0 <= i <= |argv| && msglen == |Frame(argv[..i])| < buffer.Length
      invariant buffer[..msglen] == Frame(argv[..i])
      invariant forall k :: msglen <= k < buffer.Length ==> buffer[k] == 0
    {
      assert argv[..i + 1] == argv[..i] + [argv[i]];
      FrameSnoc(argv[..i], argv[i]);
      FrameMonotone(argv, i + 1);
      var arglen := |argv[i]| + 1;
      if msglen + arglen >= buffer.Length {
        return E2big;
      }
      CopyString(argv[i], buffer, msglen);
      msglen := msglen + arglen;
      i := i + 1;
    }
    assert argv[..|argv|] == argv;
    r := Length(msglen);
  }

  /** memcpy of a string with its terminator. */
  method CopyString(s: Bytes, buffer: array<byte>, at: nat)
    requires at + |s| + 1 <= buffer.Length
    modifies buffer
    ensures buffer[..] == old(buffer[..at]) + s + [0] + old(buffer[at + |s| + 1..])
  {
    var i: nat := 0;
    while i < |s|
      invariant i <= |s| && buffer[at..at + i] == s[..i]
      invariant buffer[..at] == old(buffer[..at]) && buffer[at + i..] == old(buffer[at + i..])
    {
      buffer[at + i] := s[i];
      i := i + 1;
    }
    assert buffer[at + |s|..][1..] == old(buffer[at + |s| + 1..]);
    buffer[at + |s|] := 0;
  }

  /** Appends a pointer to every argument in the first buflen bytes, starting at slot argc. */
  method SplitArgs(argc: nat, argv: array<nat>, buffer: array<byte>, buflen: nat) returns (count: nat)
    requires buflen <= buffer.Length && argc + |Starts(buffer[..buflen], 0)| <= argv.Length
    modifies argv
    ensures count == argc + |Starts(buffer[..buflen], 0)| <= argv.Length
    ensures argv[..] == old(argv[..argc]) + Starts(buffer[..buflen], 0) + old(argv[count..])
  {
    hide Starts, Terminator;
    ghost var s, was := buffer[..buflen], argv[..];
    ghost var done: seq<nat> := [];
    ArgsAreStarts(s, 0);
    count := argc;
    var i: nat := 0;
    while i < buflen
      invariant i <= buflen + 1 && count == argc + |done|
      invariant Starts(s, 0) == done + Starts(s, i)
      invariant argv[..] == was[..argc] + done + was[count..]
      decreases buflen - i
    {
      StartsShift(done, s, i);
      ghost var start := i;
      PutPointer(argv, count, i, was, done);
      count := count + 1;
      done := done + [i];
      if buffer[i] != 0 {
        i := SkipString(buffer, buflen, i);
      }
      i := i + 1;
      assert i == Terminator(s, start) + 1;
    }
    ArgsEnd(s, i);
  }

  lemma StartsShift(done: seq<nat>, s: Bytes, i: nat)
    requires i < |s|
    ensures done + Starts(s, i) == done + [i] + Starts(s, Terminator(s, i) + 1)
    ensures |Starts(s, i)| > 0
  {
  }

  /** Stores one more pointer behind those already there. */
  method PutPointer(argv: array<nat>, count: nat, pointer: nat, ghost was: seq<nat>, ghost done: seq<nat>)
    requires |done| <= count < argv.Length == |was|
    requires argv[..] == was[..count - |done|] + done + was[count..]
    modifies argv
    ensures argv[..] == was[..count - |done|] + (done + [pointer]) + was[count + 1..]
  {
    ghost var now := argv[..][count := pointer];
    argv[count] := pointer;
    assert argv[..] == now;
  }

  /** Runs to the end of a string. */
  method SkipString(buffer: array<byte>, buflen: nat, start: nat) returns (i: nat)
    requires start <= buflen <= buffer.Length
    ensures i == Terminator(buffer[..buflen], start)
  {
    i := start;
    while i < buflen && buffer[i] != 0
      invariant start <= i <= buflen && Terminator(buffer[..buflen], start) == Terminator(buffer[..buflen], i)
    {
      i := i + 1;
    }
  }

  /** The longest prefix of the arguments whose frame stays below the buffer size. */
  ghost predicate Fits(kind: Bytes, args: seq<Bytes>, k: nat)
    requires k <= |args|
  {
    && |Frame([kind] + args[..k])| < BUFSZ
    && (k < |args| ==> |Frame([kind] + args[..k + 1])| >= BUFSZ)
  }

  /** A reply: its type and as many of its arguments as fit, in under 1024 bytes. */
  method ResponseStrings(kind: Bytes, args: seq<Bytes>, buffer: array<byte>) returns (buflen: nat, ghost k: nat)
    requires CString(kind) && CStrings(args) && |kind| + 1 < BUFSZ && buffer.Length >= BUFSZ
    modifies buffer
    ensures k <= |args| && Fits(kind, args, k)
    ensures buflen == |Frame([kind] + args[..k])| < BUFSZ && buffer[..buflen] == Frame([kind] + args[..k])
  {
    var response := new byte[BUFSZ];
    assert [kind] + args[..0] == [] + [kind];
    FrameSnoc([], kind);
    CopyString(kind, response, 0);
    var resplen: nat := |kind| + 1;
    var i: nat := 0;
    while i < |args|
      invariant i <= |args| && fresh(response) && resplen == |Frame([kind] + args[..i])| < BUFSZ
      invariant response[..resplen] == Frame([kind] + args[..i])
    {
      assert [kind] + args[..i + 1] == ([kind] + args[..i]) + [args[i]];
      FrameSnoc([kind] + args[..i], args[i]);
      var arglen := |args[i]| + 1;
      if arglen + resplen >= BUFSZ {
        break;
      }
      CopyString(args[i], response, resplen);
      resplen := resplen + arglen;
      i := i + 1;
    }
    k := i;
    buflen := resplen;
    ghost var reply := response[..];
    for j := 0 to resplen
      invariant response[..] == reply && buffer[..j] == reply[..j]
    {
      buffer[j] := response[j];
    }
  }

  /** Both programs in a row: whatever was sent as a command arrives as the same arguments. */
  method SendAndSplit(args: seq<Bytes>, buffer: array<byte>, argv: array<nat>) returns (r: FormatResult, argc: nat)
    requires CStrings(args) && args != [] && buffer.Length >= BUFSZ && argv.Length >= |args|
    modifies buffer, argv
    ensures r.Length? <==> |Frame(args)| < buffer.Length
    ensures r.Length? ==> argc == |args| <= argv.Length
    ensures r.Length? ==> forall k :: 0 <= k < argc ==>
              argv[k] < r.n <= buffer.Length && args[k] == buffer[argv[k]..Terminator(buffer[..r.n], argv[k])]
  {
    hide Frame, Terminator, Starts, Args;
    r := FormatCommand(args, buffer);
    argc := 0;
    if r.Length? {
      ghost var s := buffer[..r.n];
      UnframeFrame(args);
      ArgsAreStarts(s, 0);
      argc := SplitArgs(0, argv, buffer, r.n);
      assert argv[..argc] == Starts(s, 0);
      forall k | 0 <= k < argc
        ensures argv[k] < r.n && args[k] == buffer[argv[k]..Terminator(s, argv[k])]
      {
        assert argv[k] == argv[..argc][k];
        SliceOfPrefix(buffer[..], r.n, argv[k], Terminator(s, argv[k]));
        assert buffer[argv[k]..Terminator(s, argv[k])] == buffer[..][argv[k]..Terminator(s, argv[k])];
      }
    }
  }

  lemma SliceOfPrefix(s: Bytes, n: nat, i: nat, j: nat)
    requires i <= j <= n <= |s|
    ensures s[..n][i..j] == s[i..j]
  {
  }
}
