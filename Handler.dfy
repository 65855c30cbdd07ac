/**
 * `handle_client`: the per-connection loop over the states Initial,
 * Authenticating, Established and Closing.  The outside world (the socket,
 * the pipes, the child process) is given, one loop iteration at a time, as an
 * `Io` record of the answers its calls return.
 *
 * `Next` states what one iteration does and `Steps` what a run of them does;
 * the class `ConnectionHandler` is the loop itself, with its reused buffer,
 * and is proved to follow them.  What is written to the connection and to the
 * child's stdin, and how often the child is spawned, killed and waited for,
 * are kept as traces and counters.
 */
module Handler {
  import opened Bytes
  import opened Wrappers
  import Codec

  /** The size of the read buffer that every read of the loop reuses. */
  const BufferSize: nat := 1024

  /** What one read into that buffer can deliver. */
  type Chunk = s: seq<byte> | |s| <= BufferSize

  datatype State = Initial | Authenticating | Established | Closing

  /** The outcome of one read. */
  datatype ReadResult = Got(data: Chunk) | Failed

  /** What a relay read contributes: a failed read counts as zero octets. */
  function Relayed(r: ReadResult): (data: Chunk)
  {
    match r
    case Got(data) => data
    case Failed => []
  }

  /**
   * The calls of an iteration, other than reads, whose error is propagated
   * out of the handler with `?`.  Only the first failing call matters, since
   * the handler returns there.
   */
  datatype Fault =
    | GreetingWrite | GreetingFlush | PipeCreate | Spawn   // success path of the handshake
    | RejectionWrite                                       // failure path of the handshake
    | StdinWrite | StdoutWrite | StderrWrite | TryWait     // one relay step
    | Kill | Wait                                          // teardown

  /**
   * The answers of the outside world during one iteration: the read on the
   * connection, the reads on the child's stdout and stderr, whether the child
   * has exited, and which call (if any) fails.  Each state uses its own part.
   */
  datatype Io = Io(conn: ReadResult, stdout: ReadResult, stderr: ReadResult, exited: bool, fault: Option<Fault>)

  /** How the handler returned: `Ok(())` after Closing, or an `Err` from a `?`. */
  datatype Exit = Finished | Raised

  /** The observable state of a handler. */
  datatype Snapshot = Snapshot(
    state: State,
    child: bool,                 // a child process has been spawned
    exit: Option<Exit>,          // set once the handler has returned
    claim: Option<seq<byte>>,    // the decoded server-user claim, once a frame was decoded
    toConn: seq<byte>,           // everything written to the connection
    toStdin: seq<byte>,          // everything written to the child's stdin
    spawns: nat,                 // children spawned
    kills: nat,                  // kill requests
    waits: nat)                  // wait requests

  /** A fresh handler. */
  const Start: Snapshot := Snapshot(Initial, false, None, None, [], [], 0, 0, 0)

  // ---------------------------------------------------------------------
  // One iteration of the loop
  // ---------------------------------------------------------------------

  /** One iteration of the loop; a handler that has returned stays as it is. */
  function Next(s: Snapshot, io: Io, expected: seq<byte>, allowRoot: bool): (t: Snapshot)
  {
    if s.exit.Some? then s
    else match s.state
      case Initial => s.(state := Authenticating)
      case Authenticating => Authenticate(s, io, expected, allowRoot)
      case Established => Relay(s, io)
      case Closing => Teardown(s, io)
  }

  /**
   * Authenticating: one read; a read error returns at once; an empty read or
   * one that does not start with NUL goes to Closing with nothing written; a
   * frame is answered with the rejection (then Closing) or with the greeting,
   * after which the child is spawned (then Established).
   */
  function Authenticate(s: Snapshot, io: Io, expected: seq<byte>, allowRoot: bool): (t: Snapshot)
  {
    match io.conn
    case Failed => s.(exit := Some(Raised))
    case Got(data) => Respond(s, Codec.Classify(data, expected, allowRoot), io.fault)
  }

  /** What the handshake does once the read has been classified. */
  function Respond(s: Snapshot, v: Codec.Verdict, fault: Option<Fault>): (t: Snapshot)
  {
    match v
    case Hangup => s.(state := Closing)
    case NotAFrame => s.(state := Closing)
    case Rejected(c) =>
      if fault == Some(RejectionWrite) then s.(claim := Some(c), exit := Some(Raised))
      else s.(claim := Some(c), toConn := s.toConn + Codec.Rejection, state := Closing)
    case Accepted(c) =>
      if fault == Some(GreetingWrite) then s.(claim := Some(c), exit := Some(Raised))
      else if fault == Some(GreetingFlush) || fault == Some(PipeCreate) || fault == Some(Spawn) then
        s.(claim := Some(c), toConn := s.toConn + Codec.Greeting, exit := Some(Raised))
      else
        s.(claim := Some(c), toConn := s.toConn + Codec.Greeting, child := true,
           spawns := s.spawns + 1, state := Established)
  }

  /**
   * Established: client octets to the child's stdin, then the child's stdout
   * and then its stderr octets to the connection, then the exit poll.
   */
  function Relay(s: Snapshot, io: Io): (t: Snapshot)
  {
    var fromClient, fromStdout, fromStderr := Relayed(io.conn), Relayed(io.stdout), Relayed(io.stderr);
    if !s.child then s
    else if |fromClient| > 0 && io.fault == Some(StdinWrite) then
      s.(exit := Some(Raised))
    else if |fromStdout| > 0 && io.fault == Some(StdoutWrite) then
      s.(toStdin := s.toStdin + fromClient, exit := Some(Raised))
    else if |fromStderr| > 0 && io.fault == Some(StderrWrite) then
      s.(toStdin := s.toStdin + fromClient, toConn := s.toConn + fromStdout, exit := Some(Raised))
    else
      var t := s.(toStdin := s.toStdin + fromClient, toConn := s.toConn + fromStdout + fromStderr);
      if io.fault == Some(TryWait) then t.(exit := Some(Raised))
      else if io.exited then t.(state := Closing)
      else t
  }

  /** Closing: kill and wait for the child, if there is one, then return. */
  function Teardown(s: Snapshot, io: Io): (t: Snapshot)
  {
    if !s.child then s.(exit := Some(Finished))
    else if io.fault == Some(Kill) then s.(kills := s.kills + 1, exit := Some(Raised))
    else if io.fault == Some(Wait) then s.(kills := s.kills + 1, waits := s.waits + 1, exit := Some(Raised))
    else s.(kills := s.kills + 1, waits := s.waits + 1, exit := Some(Finished))
  }

  /** Iterations until the handler returns or the answers run out. */
  function Steps(s: Snapshot, ios: seq<Io>, expected: seq<byte>, allowRoot: bool): (t: Snapshot)
    decreases |ios|
  {
    if s.exit.Some? || |ios| == 0 then s
    else Steps(Next(s, ios[0], expected, allowRoot), ios[1..], expected, allowRoot)
  }

  // ---------------------------------------------------------------------
  // What every reachable handler satisfies
  // ---------------------------------------------------------------------

  /**
   * A child exists only after an authorised claim and a greeting, exactly
   * once, and only in Established or Closing; nothing reaches the child
   * without one; before a decision nothing is written; a handler that closes
   * without a child has written nothing or the rejection; a handler that
   * returned normally has killed and waited for its child exactly once.
   */
  predicate Inv(s: Snapshot, expected: seq<byte>, allowRoot: bool)
  {
    && s.spawns == (if s.child then 1 else 0)
    && s.waits <= s.kills <= s.spawns
    && (s.child ==>
          && s.claim.Some? && Codec.Authorizes(s.claim.value, expected, allowRoot)
          && Codec.Greeting <= s.toConn
          && (s.state == Established || s.state == Closing))
    && (s.state == Established ==> s.child)
    && (!s.child ==> s.toStdin == [])
    && (s.exit.None? ==> s.kills == 0)
    && (s.exit.None? && (s.state == Initial || s.state == Authenticating) ==> s.toConn == [] && s.claim.None?)
    && (s.exit.None? && s.state == Closing && !s.child ==> s.toConn == [] || s.toConn == Codec.Rejection)
    && (s.exit == Some(Finished) ==> s.state == Closing && s.kills == s.spawns && s.waits == s.spawns)
  }

  /** A fresh handler satisfies the invariant. */
  lemma StartInv(expected: seq<byte>, allowRoot: bool)
    ensures Inv(Start, expected, allowRoot)
  {
  }

  /** Every iteration keeps the invariant. */
  lemma NextInv(s: Snapshot, io: Io, expected: seq<byte>, allowRoot: bool)
    requires Inv(s, expected, allowRoot)
    ensures Inv(Next(s, io, expected, allowRoot), expected, allowRoot)
  {
    if s.exit.None? {
      match s.state
      case Initial =>
      case Authenticating => AuthenticateInv(s, io, expected, allowRoot);
      case Established => RelayInv(s, io, expected, allowRoot);
      case Closing => TeardownInv(s, io, expected, allowRoot);
    }
  }

  lemma AuthenticateInv(s: Snapshot, io: Io, expected: seq<byte>, allowRoot: bool)
    requires Inv(s, expected, allowRoot) && s.exit.None? && s.state == Authenticating
    ensures Inv(Authenticate(s, io, expected, allowRoot), expected, allowRoot)
  {
    if io.conn.Got? {
      var v := Codec.Classify(io.conn.data, expected, allowRoot);
      Codec.VerdictShape(io.conn.data, expected, allowRoot);
      RespondInv(s, v, io.fault, expected, allowRoot);
    }
  }

  lemma RespondInv(s: Snapshot, v: Codec.Verdict, fault: Option<Fault>, expected: seq<byte>, allowRoot: bool)
    requires Inv(s, expected, allowRoot) && s.exit.None? && s.state == Authenticating
    requires v.Accepted? ==> Codec.Authorizes(v.claim, expected, allowRoot)
    ensures Inv(Respond(s, v, fault), expected, allowRoot)
  {
  }

  lemma RelayInv(s: Snapshot, io: Io, expected: seq<byte>, allowRoot: bool)
    requires Inv(s, expected, allowRoot) && s.exit.None? && s.state == Established
    ensures Inv(Relay(s, io), expected, allowRoot)
  {
    var t := Relay(s, io);
    assert s.toConn <= t.toConn;
  }

  lemma TeardownInv(s: Snapshot, io: Io, expected: seq<byte>, allowRoot: bool)
    requires Inv(s, expected, allowRoot) && s.exit.None? && s.state == Closing
    ensures Inv(Teardown(s, io), expected, allowRoot)
  {
  }

  /** So does every run. */
  lemma {:induction false} StepsInv(s: Snapshot, ios: seq<Io>, expected: seq<byte>, allowRoot: bool)
    requires Inv(s, expected, allowRoot)
    ensures Inv(Steps(s, ios, expected, allowRoot), expected, allowRoot)
    decreases |ios|
  {
    if s.exit.None? && |ios| > 0 {
      NextInv(s, ios[0], expected, allowRoot);
      StepsInv(Next(s, ios[0], expected, allowRoot), ios[1..], expected, allowRoot);
    }
  }

  /** Nothing written is ever taken back: both traces only grow. */
  lemma NextTracesGrow(s: Snapshot, io: Io, expected: seq<byte>, allowRoot: bool)
    ensures var t := Next(s, io, expected, allowRoot);
      s.toConn <= t.toConn && s.toStdin <= t.toStdin
  {
    if s.exit.None? {
      match s.state
      case Initial =>
      case Authenticating =>
        if io.conn.Got? {
          RespondTracesGrow(s, Codec.Classify(io.conn.data, expected, allowRoot), io.fault);
        }
      case Established => RelayTracesGrow(s, io);
      case Closing =>
    }
  }

  lemma RespondTracesGrow(s: Snapshot, v: Codec.Verdict, fault: Option<Fault>)
    ensures var t := Respond(s, v, fault);
      s.toConn <= t.toConn && s.toStdin <= t.toStdin
  {
  }

  lemma RelayTracesGrow(s: Snapshot, io: Io)
    ensures var t := Relay(s, io);
      s.toConn <= t.toConn && s.toStdin <= t.toStdin
  {
    var fromClient, fromStdout, fromStderr := Relayed(io.conn), Relayed(io.stdout), Relayed(io.stderr);
    assert s.toConn <= s.toConn + fromStdout;
    assert s.toConn <= s.toConn + fromStdout + fromStderr;
    assert s.toStdin <= s.toStdin + fromClient;
  }

  lemma {:induction false} StepsTracesGrow(s: Snapshot, ios: seq<Io>, expected: seq<byte>, allowRoot: bool)
    ensures var t := Steps(s, ios, expected, allowRoot);
      s.toConn <= t.toConn && s.toStdin <= t.toStdin
    decreases |ios|
  {
    if s.exit.None? && |ios| > 0 {
      var t := Next(s, ios[0], expected, allowRoot);
      NextTracesGrow(s, ios[0], expected, allowRoot);
      StepsTracesGrow(t, ios[1..], expected, allowRoot);
    }
  }

  /**
   * Over a whole run from a fresh handler: at most one child, spawned only
   * for an authorised claim and after the greeting; and a handler that
   * returned `Ok` is in Closing and has killed and waited for its child
   * exactly once if it has one, and not at all otherwise.
   */
  lemma RunGuarantees(ios: seq<Io>, expected: seq<byte>, allowRoot: bool)
    ensures var t := Steps(Start, ios, expected, allowRoot);
      && t.spawns <= 1
      && (t.child ==> t.claim.Some? && Codec.Authorizes(t.claim.value, expected, allowRoot)
                      && Codec.Greeting <= t.toConn)
      && (t.exit == Some(Finished) ==>
            t.state == Closing && t.kills == t.waits == (if t.child then 1 else 0))
  {
    StepsInv(Start, ios, expected, allowRoot);
  }

  /** Once returned, further answers change nothing: teardown is not repeated. */
  lemma ReturnedIsFinal(s: Snapshot, ios: seq<Io>, expected: seq<byte>, allowRoot: bool)
    requires s.exit.Some?
    ensures Steps(s, ios, expected, allowRoot) == s
  {
  }

  // ---------------------------------------------------------------------
  // The individual transitions
  // ---------------------------------------------------------------------

  /** Initial does no I/O and always moves to Authenticating. */
  lemma InitialMoves(s: Snapshot, io: Io, expected: seq<byte>, allowRoot: bool)
    requires s.exit.None? && s.state == Initial
    ensures Next(s, io, expected, allowRoot) == s.(state := Authenticating)
  {
  }

  /**
   * A child appears only in an Authenticating iteration whose read was an
   * accepted frame, and the greeting is all the connection has received
   * when it does.
   */
  lemma SpawnOnlyAfterAuthentication(s: Snapshot, io: Io, expected: seq<byte>, allowRoot: bool)
    requires Inv(s, expected, allowRoot)
    requires !s.child && Next(s, io, expected, allowRoot).child
    ensures s.state == Authenticating && io.conn.Got?
    ensures Codec.Classify(io.conn.data, expected, allowRoot).Accepted?
    ensures var t := Next(s, io, expected, allowRoot);
      t.toConn == Codec.Greeting && t.state == Established && t.spawns == 1 && t.exit.None?
  {
    if s.state == Authenticating && io.conn.Got? {
      var v := Codec.Classify(io.conn.data, expected, allowRoot);
      assert Next(s, io, expected, allowRoot) == Respond(s, v, io.fault);
    }
  }

  /** A child, once there, stays, and is never spawned again. */
  lemma ChildIsKept(s: Snapshot, io: Io, expected: seq<byte>, allowRoot: bool)
    requires Inv(s, expected, allowRoot) && s.child
    ensures Next(s, io, expected, allowRoot).child
    ensures Next(s, io, expected, allowRoot).spawns == s.spawns
  {
  }

  /** An authorised frame: the greeting, exactly, then the child and Established. */
  lemma AcceptedFrame(s: Snapshot, io: Io, expected: seq<byte>, allowRoot: bool)
    requires Inv(s, expected, allowRoot) && s.exit.None? && s.state == Authenticating
    requires io.conn.Got? && Codec.Classify(io.conn.data, expected, allowRoot).Accepted?
    requires io.fault.None?
    ensures var t := Next(s, io, expected, allowRoot);
      t.toConn == Codec.Greeting && t.state == Established && t.child && t.exit.None?
  {
    var v := Codec.Classify(io.conn.data, expected, allowRoot);
    assert Next(s, io, expected, allowRoot) == Respond(s, v, None);
  }

  /** An unauthorised frame: the rejection, exactly, then Closing and no child. */
  lemma RejectedFrame(s: Snapshot, io: Io, expected: seq<byte>, allowRoot: bool)
    requires Inv(s, expected, allowRoot) && s.exit.None? && s.state == Authenticating
    requires io.conn.Got? && Codec.Classify(io.conn.data, expected, allowRoot).Rejected?
    requires io.fault != Some(RejectionWrite)
    ensures var t := Next(s, io, expected, allowRoot);
      t.toConn == Codec.Rejection && t.state == Closing && !t.child && t.exit.None?
  {
    var v := Codec.Classify(io.conn.data, expected, allowRoot);
    assert Next(s, io, expected, allowRoot) == Respond(s, v, io.fault);
  }

  /**
   * An empty read, or one whose first octet is not NUL, goes to Closing with
   * nothing written and no child.
   */
  lemma QuietClose(s: Snapshot, io: Io, expected: seq<byte>, allowRoot: bool)
    requires Inv(s, expected, allowRoot) && s.exit.None? && s.state == Authenticating
    requires io.conn.Got? && (|io.conn.data| == 0 || io.conn.data[0] != 0)
    ensures var t := Next(s, io, expected, allowRoot);
      t.toConn == [] && t.state == Closing && !t.child && t.exit.None?
  {
  }

  /** A failed handshake read returns an error at once, without passing through Closing. */
  lemma HandshakeReadError(s: Snapshot, io: Io, expected: seq<byte>, allowRoot: bool)
    requires s.exit.None? && s.state == Authenticating && io.conn.Failed?
    ensures var t := Next(s, io, expected, allowRoot);
      t.exit == Some(Raised) && t.state == Authenticating && t.toConn == s.toConn && t.child == s.child
  {
  }

  /**
   * One undisturbed relay step: the client's octets go unchanged to the
   * child's stdin; the child's stdout octets and then its stderr octets go
   * unchanged to the connection (failed reads add nothing); the handler moves
   * to Closing exactly when the child has exited.
   */
  lemma RelayStep(s: Snapshot, io: Io, expected: seq<byte>, allowRoot: bool)
    requires Inv(s, expected, allowRoot) && s.exit.None? && s.state == Established
    requires io.fault.None?
    ensures var t := Next(s, io, expected, allowRoot);
      && t.toStdin == s.toStdin + Relayed(io.conn)
      && t.toConn == s.toConn + Relayed(io.stdout) + Relayed(io.stderr)
      && (t.state == Closing <==> io.exited)
      && (t.state != Closing ==> t.state == Established)
      && t.exit.None? && t.child
  {
  }

  /**
   * An error in a relay step returns with the child still there and never
   * killed or waited for: the `?` exits bypass Closing.
   */
  lemma RelayErrorSkipsTeardown(s: Snapshot, io: Io, ios: seq<Io>, expected: seq<byte>, allowRoot: bool)
    requires Inv(s, expected, allowRoot) && s.exit.None? && s.state == Established
    requires Next(s, io, expected, allowRoot).exit.Some?
    ensures var t := Steps(Next(s, io, expected, allowRoot), ios, expected, allowRoot);
      t.exit == Some(Raised) && t.child && t.kills == 0 && t.waits == 0
  {
  }

  /**
   * Closing always ends the handler; it requests the kill exactly when there
   * is a child, and after a successful kill also the wait; it writes nothing.
   */
  lemma TeardownOnce(s: Snapshot, io: Io, expected: seq<byte>, allowRoot: bool)
    requires Inv(s, expected, allowRoot) && s.exit.None? && s.state == Closing
    ensures var t := Next(s, io, expected, allowRoot);
      && t.exit.Some? && t.state == Closing
      && t.kills == (if s.child then 1 else 0)
      && t.waits == (if s.child && io.fault != Some(Kill) then 1 else 0)
      && t.toConn == s.toConn && t.toStdin == s.toStdin
      && (t.exit == Some(Finished) <==> !s.child || (io.fault != Some(Kill) && io.fault != Some(Wait)))
  {
  }

  // ---------------------------------------------------------------------
  // The loop itself
  // ---------------------------------------------------------------------

  class ConnectionHandler {
    const expected: seq<byte>
    const allowRoot: bool
    /** The buffer every read of the loop overwrites from its start. */
    const buffer: array<byte>

    var state: State
    var child: bool       // the child process
    var pipes: bool       // the parent's ends of the child's stdin, stdout and stderr
    var exit: Option<Exit>

    ghost var claim: Option<seq<byte>>
    ghost var toConn: seq<byte>
    ghost var toStdin: seq<byte>
    ghost var spawns: nat
    ghost var kills: nat
    ghost var waits: nat

    ghost function Snap(): (s: Snapshot)
      reads this
    {
      Snapshot(state, child, exit, claim, toConn, toStdin, spawns, kills, waits)
    }

    ghost predicate Valid()
      reads this
    {
      buffer.Length == BufferSize && pipes == child && Inv(Snap(), expected, allowRoot)
    }

    constructor (expected: seq<byte>, allowRoot: bool)
      ensures Valid() && Snap() == Start && fresh(buffer)
      ensures this.expected == expected && this.allowRoot == allowRoot
    {
      this.expected, this.allowRoot := expected, allowRoot;
      buffer := new byte[BufferSize](_ => 0);
      state, child, pipes, exit := Initial, false, false, None;
      claim, toConn, toStdin := None, [], [];
      spawns, kills, waits := 0, 0, 0;
    }

    /**
     * A read into the buffer: the octets land at its front; the rest keeps
     * whatever an earlier read left there.
     */
    method ReadInto(data: Chunk) returns (n: nat)
      requires buffer.Length == BufferSize
      modifies buffer
      ensures n == |data| && buffer[..n] == data
      ensures buffer[n..] == old(buffer[n..])
    {
      forall i | 0 <= i < |data| {
        buffer[i] := data[i];
      }
      n := |data|;
    }

    /** One iteration of the loop. */
    method Step(io: Io)
      requires Valid() && exit.None?
      modifies this, buffer
      ensures Valid()
      ensures Snap() == Next(old(Snap()), io, expected, allowRoot)
    {
      ghost var before := Snap();
      match state
      case Initial =>
        state := Authenticating;
      case Authenticating =>
        Handshake(io);
        AuthenticateInv(before, io, expected, allowRoot);
      case Established =>
        RelayOnce(io);
        RelayInv(before, io, expected, allowRoot);
      case Closing =>
        Close(io);
        TeardownInv(before, io, expected, allowRoot);
    }

    /** Authenticating: one read, classified, then answered. */
    method Handshake(io: Io)
      requires Valid() && exit.None? && state == Authenticating
      modifies this, buffer
      ensures pipes == child
      ensures Snap() == Authenticate(old(Snap()), io, expected, allowRoot)
    {
      if io.conn.Failed? {
        exit := Some(Raised);
        return;
      }
      var bytesRead := ReadInto(io.conn.data);
      var verdict;
      if bytesRead > 0 && buffer[0] == 0 {
        var received := buffer[1..bytesRead];
        assert received == io.conn.data[1..];
        var claimed := Codec.Decode(received).serverUser;
        verdict := if Codec.Authorizes(claimed, expected, allowRoot) then Codec.Accepted(claimed) else Codec.Rejected(claimed);
      } else if bytesRead == 0 {
        verdict := Codec.Hangup;     // the client disconnected
      } else {
        verdict := Codec.NotAFrame;
      }
      assert verdict == Codec.Classify(io.conn.data, expected, allowRoot);
      Answer(verdict, io.fault);
    }

    /** The reply to a classified read: the greeting and the child, the rejection, or nothing. */
    method Answer(verdict: Codec.Verdict, fault: Option<Fault>)
      requires pipes == child
      modifies this
      ensures pipes == child
      ensures Snap() == Respond(old(Snap()), verdict, fault)
    {
      match verdict
      case Hangup =>
        state := Closing;
      case NotAFrame =>
        state := Closing;
      case Rejected(claimed) =>
        claim := Some(claimed);
        if fault == Some(RejectionWrite) {
          exit := Some(Raised);
          return;
        }
        toConn := toConn + Codec.Rejection;
        state := Closing;
      case Accepted(claimed) =>
        claim := Some(claimed);
        if fault == Some(GreetingWrite) {
          exit := Some(Raised);
          return;
        }
        toConn := toConn + Codec.Greeting;
        if fault == Some(GreetingFlush) || fault == Some(PipeCreate) || fault == Some(Spawn) {
          exit := Some(Raised);
          return;
        }
        child, pipes := true, true;
        spawns := spawns + 1;
        state := Established;
    }

    method RelayOnce(io: Io)
      requires Valid() && exit.None? && state == Established
      modifies this, buffer
      ensures pipes == child
      ensures Snap() == Relay(old(Snap()), io)
    {
      ghost var s := Snap();
      ghost var fromClient, fromStdout, fromStderr := Relayed(io.conn), Relayed(io.stdout), Relayed(io.stderr);
      assert child;
      var n := ReadInto(Relayed(io.conn));
      if n > 0 {
        if io.fault == Some(StdinWrite) {
          exit := Some(Raised);
          assert Snap() == s.(exit := Some(Raised));
          return;
        }
        toStdin := toStdin + buffer[..n];
      }
      assert toStdin == s.toStdin + fromClient;
      n := ReadInto(Relayed(io.stdout));
      if n > 0 {
        if io.fault == Some(StdoutWrite) {
          exit := Some(Raised);
          assert Snap() == s.(toStdin := s.toStdin + fromClient, exit := Some(Raised));
          return;
        }
        toConn := toConn + buffer[..n];
      }
      assert toConn == s.toConn + fromStdout;
      n := ReadInto(Relayed(io.stderr));
      if n > 0 {
        if io.fault == Some(StderrWrite) {
          exit := Some(Raised);
          assert Snap() == s.(toStdin := s.toStdin + fromClient, toConn := s.toConn + fromStdout, exit := Some(Raised));
          return;
        }
        toConn := toConn + buffer[..n];
      }
      assert toConn == s.toConn + fromStdout + fromStderr;
      if io.fault == Some(TryWait) {
        exit := Some(Raised);
        return;
      }
      if io.exited {
        state := Closing;
      }
    }

    method Close(io: Io)
      requires Valid() && exit.None? && state == Closing
      modifies this
      ensures pipes == child
      ensures Snap() == Teardown(old(Snap()), io)
    {
      if child {
        kills := kills + 1;
        if io.fault == Some(Kill) {
          exit := Some(Raised);
          return;
        }
        waits := waits + 1;
        if io.fault == Some(Wait) {
          exit := Some(Raised);
          return;
        }
      }
      exit := Some(Finished);
    }

    /** The loop: iterations until the handler returns or the answers run out. */
    method Run(ios: seq<Io>) returns (result: Option<Exit>)
      requires Valid()
      modifies this, buffer
      ensures Valid()
      ensures Snap() == Steps(old(Snap()), ios, expected, allowRoot)
      ensures result == exit
    {
      var i := 0;
      while i < |ios| && exit.None?
        invariant 0 <= i <= |ios|
        invariant Valid()
        invariant Steps(Snap(), ios[i..], expected, allowRoot) == Steps(old(Snap()), ios, expected, allowRoot)
      {
        assert ios[i..][1..] == ios[i + 1..];
        Step(ios[i]);
        i := i + 1;
      }
      assert i == |ios| ==> ios[i..] == [];
      result := exit;
    }
  }

  /** `handle_client` on a fresh connection, given the answers of the outside world. */
  method HandleClient(expected: seq<byte>, allowRoot: bool, ios: seq<Io>) returns (result: Option<Exit>)
    ensures result == Steps(Start, ios, expected, allowRoot).exit
  {
    var handler := new ConnectionHandler(expected, allowRoot);
    result := handler.Run(ios);
  }
}
