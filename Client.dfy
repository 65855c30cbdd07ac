/**
 * The test client's side of the handshake: `rlogin_client` builds the
 * credentials frame from its arguments (after substituting their defaults)
 * and sends it UTF-8 encoded.  Each field is given here by its UTF-8
 * encoding; since the encoding of a concatenation is the concatenation of
 * the encodings, the frame is the fields' octets with NUL octets around them.
 */
module Client {
  import opened Bytes
  import opened Wrappers
  import Codec
  import Utf8

  /** The default terminal type, `dumb`. */
  const DefaultTerm: seq<byte> := [0x64, 0x75, 0x6D, 0x62]

  /** The server user after default substitution: absent means the login user. */
  function ServerUser(login: seq<byte>, server: Option<seq<byte>>): (user: seq<byte>)
  {
    match server
    case None => login
    case Some(s) => s
  }

  /** The terminal type after default substitution. */
  function Terminal(term: Option<seq<byte>>): (terminal: seq<byte>)
  {
    match term
    case None => DefaultTerm
    case Some(t) => t
  }

  /**
   * The frame `\0login\0server\0term\0`: it starts and ends with NUL and is
   * four octets longer than its three fields together.
   */
  function CredentialsFrame(login: seq<byte>, server: Option<seq<byte>>, term: Option<seq<byte>>): (frame: seq<byte>)
    ensures |frame| == |login| + |ServerUser(login, server)| + |Terminal(term)| + 4
    ensures frame[0] == 0 && frame[|frame| - 1] == 0
  {
    [0] + login + [0] + ServerUser(login, server) + [0] + Terminal(term) + [0]
  }

  /** Leaving out the optional arguments sends the login twice and the terminal `dumb`. */
  lemma Defaults(login: seq<byte>)
    ensures CredentialsFrame(login, None, None) == [0] + login + [0] + login + [0] + Ascii("dumb") + [0]
  {
  }

  /** The three fields of the frame as the client means them. */
  predicate FieldsNulFree(login: seq<byte>, server: Option<seq<byte>>, term: Option<seq<byte>>)
  {
    0 !in login && 0 !in ServerUser(login, server) && 0 !in Terminal(term)
  }

  /**
   * With NUL-free fields, the server's split of the frame after its leading
   * NUL is exactly the three fields and a trailing empty piece, and the frame
   * holds exactly four NUL octets.
   */
  lemma FramePieces(login: seq<byte>, server: Option<seq<byte>>, term: Option<seq<byte>>)
    requires FieldsNulFree(login, server, term)
    ensures var frame := CredentialsFrame(login, server, term);
      Codec.Split(frame[1..]) == [login, ServerUser(login, server), Terminal(term), []]
      && Count(frame, 0) == 4
  {
    var frame := CredentialsFrame(login, server, term);
    var srv, trm := ServerUser(login, server), Terminal(term);
    var pieces := [login, srv, trm, []];
    assert Codec.NulFree(pieces);
    assert Codec.Join(pieces[3..]) == [];
    assert Codec.Join(pieces[2..]) == trm + [0];
    assert Codec.Join(pieces[1..]) == srv + [0] + trm + [0];
    assert frame[1..] == Codec.Join(pieces);
    Codec.SplitJoin(pieces);
    Codec.SplitCount(frame[1..]);
    assert frame == [0] + frame[1..];
  }

  /**
   * Round trip: when the login user and the server user are NUL-free text
   * and the server user has no surrounding white space, the server decodes
   * exactly the server user the client sent (the terminal need only be
   * NUL-free: a terminal piece that is not text is dropped after the claim).
   */
  lemma FrameClaim(login: seq<byte>, server: Option<seq<byte>>, term: Option<seq<byte>>)
    requires FieldsNulFree(login, server, term)
    requires Utf8.Valid(login) && Utf8.Valid(ServerUser(login, server))
    requires Utf8.Trimmed(ServerUser(login, server))
    ensures Codec.Decode(CredentialsFrame(login, server, term)[1..]).serverUser == ServerUser(login, server)
  {
    var payload := CredentialsFrame(login, server, term)[1..];
    var srv, trm := ServerUser(login, server), Terminal(term);
    FramePieces(login, server, term);
    var pieces := [login, srv, trm, []];
    assert Codec.Split(payload) == pieces;
    assert pieces == [login, srv] + [trm, []];
    Codec.TextPiecesAppend([login, srv], [trm, []]);
    Codec.TextPiecesAllText([login, srv]);
    var fields := Codec.TextPieces(pieces);
    assert fields[1] == srv;
    assert Codec.FieldAt(fields, 1) == srv;
    Utf8.TrimIdempotent(srv);
    assert Codec.Decode(payload).serverUser == Utf8.Trim(srv);
  }

  /** So a client whose server user is the expected user is accepted. */
  lemma FrameAccepted(login: seq<byte>, server: Option<seq<byte>>, term: Option<seq<byte>>,
                      expected: seq<byte>, allowRoot: bool)
    requires FieldsNulFree(login, server, term)
    requires Utf8.Valid(login) && Utf8.Valid(ServerUser(login, server))
    requires Utf8.Trimmed(ServerUser(login, server))
    requires ServerUser(login, server) == expected
    ensures Codec.Classify(CredentialsFrame(login, server, term), expected, allowRoot) == Codec.Accepted(expected)
  {
    FrameClaim(login, server, term);
  }

  /** And one whose server user is neither the expected user nor an allowed `root` is rejected. */
  lemma FrameRejected(login: seq<byte>, server: Option<seq<byte>>, term: Option<seq<byte>>,
                      expected: seq<byte>, allowRoot: bool)
    requires FieldsNulFree(login, server, term)
    requires Utf8.Valid(login) && Utf8.Valid(ServerUser(login, server))
    requires Utf8.Trimmed(ServerUser(login, server))
    requires !Codec.Authorizes(ServerUser(login, server), expected, allowRoot)
    ensures Codec.Classify(CredentialsFrame(login, server, term), expected, allowRoot)
      == Codec.Rejected(ServerUser(login, server))
  {
    FrameClaim(login, server, term);
  }

  /**
   * The server's side of a frame of this shape whose login field is not
   * text: `rlogin_client` itself cannot send one (its UTF-8 encoding either
   * succeeds or raises), but another client sending such octets has its
   * login field dropped by the server, so every later field moves down one
   * place and the terminal is taken for the claim.
   */
  lemma DroppedLoginShiftsFields(login: seq<byte>, server: Option<seq<byte>>, term: Option<seq<byte>>)
    requires FieldsNulFree(login, server, term)
    requires !Utf8.Valid(login) && Utf8.Valid(ServerUser(login, server)) && Utf8.Valid(Terminal(term))
    ensures Codec.Decode(CredentialsFrame(login, server, term)[1..]).serverUser == Utf8.Trim(Terminal(term))
  {
    var srv, trm := ServerUser(login, server), Terminal(term);
    FramePieces(login, server, term);
    var pieces := [login, srv, trm, []];
    assert pieces == [login] + [srv, trm, []];
    Codec.TextPiecesAppend([login], [srv, trm, []]);
    assert Codec.TextPieces([login]) == [];
    assert Utf8.Valid([]);
    Codec.TextPiecesAllText([srv, trm, []]);
  }
}
