/**
 * Whole connections: the test client's credentials frame, read by the
 * handler in one piece, followed through the handler's iterations.
 */
module Session {
  import opened Bytes
  import opened Wrappers
  import Codec
  import Utf8
  import Client
  import Handler

  /** An iteration in which only the connection read matters and nothing fails. */
  function Quiet(conn: Handler.ReadResult): (io: Handler.Io)
    ensures io.conn == conn && io.fault.None? && !io.exited
  {
    Handler.Io(conn, Handler.Failed, Handler.Failed, false, None)
  }

  /** The client's arguments form a frame the server decodes as they were meant. */
  predicate WellFormed(login: seq<byte>, server: Option<seq<byte>>, term: Option<seq<byte>>)
  {
    && Client.FieldsNulFree(login, server, term)
    && Utf8.Valid(login) && Utf8.Valid(Client.ServerUser(login, server))
    && Utf8.Trimmed(Client.ServerUser(login, server))
    && |Client.CredentialsFrame(login, server, term)| <= Handler.BufferSize
  }

  /**
   * A client asking for the expected user is greeted and gets a shell: after
   * the Initial iteration and the one that reads its frame, the handler is
   * Established with a child, has written exactly the greeting and has
   * forwarded nothing yet.
   */
  lemma ClientLogsIn(login: seq<byte>, server: Option<seq<byte>>, term: Option<seq<byte>>,
                     expected: seq<byte>, allowRoot: bool, first: Handler.Io)
    requires WellFormed(login, server, term)
    requires Client.ServerUser(login, server) == expected
    ensures var frame := Client.CredentialsFrame(login, server, term);
      var t := Handler.Steps(Handler.Start, [first, Quiet(Handler.Got(frame))], expected, allowRoot);
      && t.state == Handler.Established && t.child && t.spawns == 1 && t.exit.None?
      && t.claim == Some(expected) && t.toConn == Codec.Greeting && t.toStdin == []
  {
    var frame := Client.CredentialsFrame(login, server, term);
    Client.FrameAccepted(login, server, term, expected, allowRoot);
    var io := Quiet(Handler.Got(frame));
    var s1 := Handler.Start.(state := Handler.Authenticating);
    assert Handler.Next(Handler.Start, first, expected, allowRoot) == s1;
    assert Codec.Classify(io.conn.data, expected, allowRoot) == Codec.Accepted(expected);
    var s2 := Handler.Respond(s1, Codec.Accepted(expected), None);
    assert Handler.Next(s1, io, expected, allowRoot) == s2;
    var ios := [first, io];
    assert ios[1..] == [io] && ios[1..][1..] == [];
    assert Handler.Steps(s2, [], expected, allowRoot) == s2;
    assert Handler.Steps(s1, [io], expected, allowRoot) == s2;
  }

  /**
   * A client asking for any other user (and not for an allowed `root`) is
   * told `Login incorrect.` and nothing else, no shell is started, and the
   * next iteration ends the connection normally.
   */
  lemma ClientTurnedAway(login: seq<byte>, server: Option<seq<byte>>, term: Option<seq<byte>>,
                         expected: seq<byte>, allowRoot: bool, first: Handler.Io, last: Handler.Io)
    requires WellFormed(login, server, term)
    requires !Codec.Authorizes(Client.ServerUser(login, server), expected, allowRoot)
    ensures var frame := Client.CredentialsFrame(login, server, term);
      var t := Handler.Steps(Handler.Start, [first, Quiet(Handler.Got(frame)), last], expected, allowRoot);
      && t.exit == Some(Handler.Finished) && !t.child && t.spawns == 0 && t.kills == 0
      && t.toConn == Codec.Rejection && t.toStdin == []
  {
    var frame := Client.CredentialsFrame(login, server, term);
    var claim := Client.ServerUser(login, server);
    Client.FrameRejected(login, server, term, expected, allowRoot);
    var io := Quiet(Handler.Got(frame));
    var s1 := Handler.Start.(state := Handler.Authenticating);
    assert Handler.Next(Handler.Start, first, expected, allowRoot) == s1;
    assert Codec.Classify(io.conn.data, expected, allowRoot) == Codec.Rejected(claim);
    var s2 := Handler.Respond(s1, Codec.Rejected(claim), None);
    assert Handler.Next(s1, io, expected, allowRoot) == s2;
    var s3 := s2.(exit := Some(Handler.Finished));
    assert Handler.Next(s2, last, expected, allowRoot) == s3;
    var ios := [first, io, last];
    assert ios[1..] == [io, last] && ios[1..][1..] == [last] && ios[1..][1..][1..] == [];
    assert Handler.Steps(s3, [], expected, allowRoot) == s3;
    assert Handler.Steps(s2, [last], expected, allowRoot) == s3;
    assert Handler.Steps(s1, [io, last], expected, allowRoot) == s3;
  }

  /**
   * A client that connects and closes at once: the empty read takes the
   * handler to Closing, nothing is written, no shell is started, and the
   * connection ends normally.
   */
  lemma ClientHangsUp(expected: seq<byte>, allowRoot: bool, first: Handler.Io, last: Handler.Io)
    ensures var t := Handler.Steps(Handler.Start, [first, Quiet(Handler.Got([])), last], expected, allowRoot);
      && t.exit == Some(Handler.Finished) && !t.child && t.spawns == 0
      && t.toConn == [] && t.toStdin == []
  {
    var io := Quiet(Handler.Got([]));
    var s1 := Handler.Start.(state := Handler.Authenticating);
    assert Handler.Next(Handler.Start, first, expected, allowRoot) == s1;
    assert Codec.Classify([], expected, allowRoot) == Codec.Hangup;
    var s2 := s1.(state := Handler.Closing);
    assert Handler.Next(s1, io, expected, allowRoot) == s2;
    var s3 := s2.(exit := Some(Handler.Finished));
    assert Handler.Next(s2, last, expected, allowRoot) == s3;
    var ios := [first, io, last];
    assert ios[1..] == [io, last] && ios[1..][1..] == [last] && ios[1..][1..][1..] == [];
    assert Handler.Steps(s3, [], expected, allowRoot) == s3;
    assert Handler.Steps(s2, [last], expected, allowRoot) == s3;
    assert Handler.Steps(s1, [io, last], expected, allowRoot) == s3;
  }

  /**
   * A whole shell session: the client logs in, one relay iteration carries
   * its keystrokes to the shell and the shell's output back, the shell has
   * exited, and the Closing iteration kills and waits for it once and
   * returns normally.  The connection has received the greeting followed by
   * the shell's stdout and stderr octets, and the shell the client's octets.
   */
  lemma ShellSession(login: seq<byte>, server: Option<seq<byte>>, term: Option<seq<byte>>,
                     expected: seq<byte>, allowRoot: bool, first: Handler.Io,
                     typed: Handler.Chunk, output: Handler.Chunk, errors: Handler.Chunk, last: Handler.Io)
    requires WellFormed(login, server, term)
    requires Client.ServerUser(login, server) == expected
    requires last.fault.None?
    ensures var frame := Client.CredentialsFrame(login, server, term);
      var relay := Handler.Io(Handler.Got(typed), Handler.Got(output), Handler.Got(errors), true, None);
      var t := Handler.Steps(Handler.Start, [first, Quiet(Handler.Got(frame)), relay, last], expected, allowRoot);
      && t.exit == Some(Handler.Finished) && t.spawns == 1 && t.kills == 1 && t.waits == 1
      && t.toConn == Codec.Greeting + output + errors && t.toStdin == typed
  {
    var frame := Client.CredentialsFrame(login, server, term);
    var io := Quiet(Handler.Got(frame));
    var relay := Handler.Io(Handler.Got(typed), Handler.Got(output), Handler.Got(errors), true, None);
    ClientLogsIn(login, server, term, expected, allowRoot, first);
    var s2 := Handler.Steps(Handler.Start, [first, io], expected, allowRoot);
    Handler.StartInv(expected, allowRoot);
    Handler.StepsInv(Handler.Start, [first, io], expected, allowRoot);
    assert s2.kills == 0 && s2.waits == 0;
    StepsSplit(Handler.Start, [first, io], [relay, last], expected, allowRoot);
    assert [first, io] + [relay, last] == [first, io, relay, last];
    var s3 := s2.(toStdin := typed, toConn := Codec.Greeting + output + errors, state := Handler.Closing);
    assert Handler.Relay(s2, relay) == s3;
    assert Handler.Next(s2, relay, expected, allowRoot) == s3;
    var s4 := s3.(kills := 1, waits := 1, exit := Some(Handler.Finished));
    assert Handler.Next(s3, last, expected, allowRoot) == s4;
    var ios := [relay, last];
    assert ios[1..] == [last] && ios[1..][1..] == [];
    assert Handler.Steps(s4, [], expected, allowRoot) == s4;
    assert Handler.Steps(s3, [last], expected, allowRoot) == s4;
  }

  /** Running two lists of answers one after the other is running their concatenation. */
  lemma {:induction false} StepsSplit(s: Handler.Snapshot, a: seq<Handler.Io>, b: seq<Handler.Io>,
                                      expected: seq<byte>, allowRoot: bool)
    ensures Handler.Steps(s, a + b, expected, allowRoot)
         == Handler.Steps(Handler.Steps(s, a, expected, allowRoot), b, expected, allowRoot)
    decreases |a|
  {
    if |a| == 0 {
      assert a + b == b;
    } else if s.exit.Some? {
      Handler.ReturnedIsFinal(s, b, expected, allowRoot);
    } else {
      assert (a + b)[0] == a[0];
      assert (a + b)[1..] == a[1..] + b;
      StepsSplit(Handler.Next(s, a[0], expected, allowRoot), a[1..], b, expected, allowRoot);
    }
  }
}
