/**
 * The handshake codec of `handle_client`: the frame the client sends before
 * the session starts (`\0client-user\0server-user\0terminal\0`, as in the
 * Connection Establishment part of RFC 1282, BSD Rlogin), how the server cuts
 * it into fields, the authentication decision and the two fixed replies.
 */
module Codec {
  import opened Bytes
  import Utf8

  // ---------------------------------------------------------------------
  // Splitting on the NUL separator (`<[u8]>::split(|&b| b == 0)`)
  // ---------------------------------------------------------------------

  /**
   * The pieces between NUL octets, in order; like the slice iterator, an
   * empty input gives one empty piece and a trailing NUL a trailing empty one.
   */
  function Split(s: seq<byte>): (pieces: seq<seq<byte>>)
    ensures |pieces| >= 1
    decreases |s|
  {
    if |s| == 0 then [[]]
    else
      var rest := Split(s[1..]);
      if s[0] == 0 then [[]] + rest
      else [[s[0]] + rest[0]] + rest[1..]
  }

  /** The pieces glued back together with a NUL between neighbours. */
  function Join(pieces: seq<seq<byte>>): (s: seq<byte>)
    requires |pieces| >= 1
    decreases |pieces|
  {
    if |pieces| == 1 then pieces[0] else pieces[0] + [0] + Join(pieces[1..])
  }

  /** Every piece is free of NUL octets. */
  predicate NulFree(pieces: seq<seq<byte>>)
  {
    forall i :: 0 <= i < |pieces| ==> 0 !in pieces[i]
  }

  /** No piece of a split holds the separator. */
  lemma {:induction false} SplitIsNulFree(s: seq<byte>)
    ensures NulFree(Split(s))
    decreases |s|
  {
    if |s| > 0 {
      SplitIsNulFree(s[1..]);
    }
  }

  /** There is one more piece than there are NUL octets, trailing empty pieces included. */
  lemma {:induction false} SplitCount(s: seq<byte>)
    ensures |Split(s)| == Count(s, 0) + 1
    decreases |s|
  {
    if |s| > 0 {
      SplitCount(s[1..]);
    }
  }

  /** Re-joining the pieces with NUL gives back the input. */
  lemma {:induction false} JoinSplit(s: seq<byte>)
    ensures Join(Split(s)) == s
    decreases |s|
  {
    if |s| > 0 {
      var rest := Split(s[1..]);
      JoinSplit(s[1..]);
      if s[0] == 0 {
        assert Split(s) == [[]] + rest;
        assert ([[]] + rest)[1..] == rest;
        assert s == [0] + s[1..];
      } else if |rest| == 1 {
        assert s == [s[0]] + s[1..];
      } else {
        var pieces := Split(s);
        assert pieces[1..] == rest[1..];
        assert s == [s[0]] + s[1..];
      }
    }
  }

  /** Splitting NUL-free pieces glued with NUL gives back the pieces. */
  lemma {:induction false} SplitJoin(pieces: seq<seq<byte>>)
    requires |pieces| >= 1 && NulFree(pieces)
    ensures Split(Join(pieces)) == pieces
    decreases |pieces|
  {
    if |pieces| == 1 {
      var p := pieces[0];
      SplitPrefix(p, []);
      assert p + [] == p && Split([]) == [[]];
      assert pieces == [p];
    } else {
      var p, tail := pieces[0], pieces[1..];
      assert NulFree(tail) by {
        forall i | 0 <= i < |tail| ensures 0 !in tail[i] {
          assert tail[i] == pieces[i + 1];
        }
      }
      SplitJoin(tail);
      var u := [0 as byte] + Join(tail);
      assert Join(pieces) == p + u;
      assert u[1..] == Join(tail);
      SplitPrefix(p, u);
      assert Split(u) == [[]] + Split(u[1..]);
      assert Split(u)[0] == [] && Split(u)[1..] == tail;
      assert p + [] == p;
      assert pieces == [p] + tail;
    }
  }

  /** A NUL-free prefix is glued onto the first piece of what follows it. */
  lemma {:induction false} SplitPrefix(p: seq<byte>, t: seq<byte>)
    requires 0 !in p
    ensures Split(p + t) == [p + Split(t)[0]] + Split(t)[1..]
    decreases |p|
  {
    if |p| == 0 {
      var tail := Split(t);
      assert p + t == t && p + tail[0] == tail[0];
      assert [tail[0]] + tail[1..] == tail;
    } else {
      var q := p + t;
      assert q[0] == p[0] && p[0] != 0;
      assert q[1..] == p[1..] + t;
      SplitPrefix(p[1..], t);
      var rest, tail := Split(q[1..]), Split(t);
      assert rest[0] == p[1..] + tail[0] && rest[1..] == tail[1..];
      assert Split(q) == [[q[0]] + rest[0]] + rest[1..];
      assert [q[0]] + rest[0] == p + tail[0];
    }
  }

  // ---------------------------------------------------------------------
  // Keeping the pieces that are text (`filter_map(|s| str::from_utf8(s).ok())`)
  // ---------------------------------------------------------------------

  /** The pieces that are well-formed UTF-8, in their original order. */
  function TextPieces(pieces: seq<seq<byte>>): (kept: seq<seq<byte>>)
    decreases |pieces|
  {
    if |pieces| == 0 then []
    else (if Utf8.Valid(pieces[0]) then [pieces[0]] else []) + TextPieces(pieces[1..])
  }

  /** Only well-formed pieces survive, and only pieces of the input. */
  lemma {:induction false} TextPiecesSound(pieces: seq<seq<byte>>)
    ensures var kept := TextPieces(pieces);
      |kept| <= |pieces| && forall i :: 0 <= i < |kept| ==> kept[i] in pieces && Utf8.Valid(kept[i])
    decreases |pieces|
  {
    if |pieces| > 0 {
      TextPiecesSound(pieces[1..]);
    }
  }

  /** Filtering works piece by piece, so the survivors keep their relative order. */
  lemma {:induction false} TextPiecesAppend(a: seq<seq<byte>>, b: seq<seq<byte>>)
    ensures TextPieces(a + b) == TextPieces(a) + TextPieces(b)
    decreases |a|
  {
    if |a| == 0 {
      assert a + b == b;
    } else {
      assert (a + b)[1..] == a[1..] + b;
      TextPiecesAppend(a[1..], b);
    }
  }

  /** No well-formed piece is dropped. */
  lemma {:induction false} TextPiecesKeepsText(pieces: seq<seq<byte>>, p: seq<byte>)
    requires p in pieces && Utf8.Valid(p)
    ensures p in TextPieces(pieces)
    decreases |pieces|
  {
    if pieces[0] != p {
      TextPiecesKeepsText(pieces[1..], p);
    }
  }

  /** When every piece is text nothing shifts: the filter is the identity. */
  lemma {:induction false} TextPiecesAllText(pieces: seq<seq<byte>>)
    requires forall i :: 0 <= i < |pieces| ==> Utf8.Valid(pieces[i])
    ensures TextPieces(pieces) == pieces
    decreases |pieces|
  {
    if |pieces| > 0 {
      TextPiecesAllText(pieces[1..]);
    }
  }

  // ---------------------------------------------------------------------
  // Decoding the frame
  // ---------------------------------------------------------------------

  /** The three fields of a handshake frame. */
  datatype Credentials = Credentials(clientUser: seq<byte>, serverUser: seq<byte>, terminal: seq<byte>)

  /** `parts.get(i).unwrap_or(&"")`. */
  function FieldAt(fields: seq<seq<byte>>, i: nat): (field: seq<byte>)
  {
    if i < |fields| then fields[i] else []
  }

  /** Decodes the payload that follows the leading NUL. */
  function Decode(payload: seq<byte>): (c: Credentials)
  {
    var fields := TextPieces(Split(payload));
    Credentials(Utf8.Trim(FieldAt(fields, 0)), Utf8.Trim(FieldAt(fields, 1)), Utf8.Trim(FieldAt(fields, 2)))
  }

  /**
   * Decoding never fails and yields clean fields: a field index past the
   * surviving pieces gives the empty string, and every field is trimmed, so
   * no field holds a NUL or starts or ends with white space.
   */
  lemma DecodeFields(payload: seq<byte>)
    ensures var c := Decode(payload);
      && 0 !in c.clientUser && 0 !in c.serverUser && 0 !in c.terminal
      && Utf8.Trimmed(c.clientUser) && Utf8.Trimmed(c.serverUser) && Utf8.Trimmed(c.terminal)
  {
    var fields := TextPieces(Split(payload));
    forall i | 0 <= i < 3
      ensures 0 !in Utf8.Trim(FieldAt(fields, i)) && Utf8.Trimmed(Utf8.Trim(FieldAt(fields, i)))
    {
      FieldIsNulFree(payload, i);
      Utf8.TrimKeepsOctets(FieldAt(fields, i), 0);
      Utf8.TrimShape(FieldAt(fields, i));
    }
  }

  lemma FieldIsNulFree(payload: seq<byte>, i: nat)
    ensures 0 !in FieldAt(TextPieces(Split(payload)), i)
  {
    var fields := TextPieces(Split(payload));
    SplitIsNulFree(payload);
    TextPiecesSound(Split(payload));
    if i < |fields| {
      assert fields[i] in Split(payload);
    }
  }

  /** A frame with fewer than two surviving pieces claims the empty server user. */
  lemma MissingClaimIsEmpty(payload: seq<byte>)
    requires |TextPieces(Split(payload))| < 2
    ensures Decode(payload).serverUser == []
  {
    Utf8.TrimEmptyIff([]);
  }

  /**
   * The claim is empty exactly when the second surviving piece is missing or
   * holds nothing but white space.
   */
  lemma EmptyClaimIff(payload: seq<byte>)
    ensures Decode(payload).serverUser == [] <==> Utf8.SpaceRun(FieldAt(TextPieces(Split(payload)), 1))
  {
    Utf8.TrimEmptyIff(FieldAt(TextPieces(Split(payload)), 1));
  }

  /** In particular a payload without any NUL (a single field) claims nobody. */
  lemma {:induction false} NoSeparatorNoClaim(payload: seq<byte>)
    requires 0 !in payload
    ensures Decode(payload).serverUser == []
  {
    CountAbsent(payload, 0);
    SplitCount(payload);
    TextPiecesSound(Split(payload));
    MissingClaimIsEmpty(payload);
  }

  lemma {:induction false} CountAbsent(s: seq<byte>, b: byte)
    requires b !in s
    ensures Count(s, b) == 0
    decreases |s|
  {
    if |s| > 0 {
      assert s[1..] == s[1..] && forall x :: x in s[1..] ==> x in s;
      CountAbsent(s[1..], b);
    }
  }

  // ---------------------------------------------------------------------
  // Authentication and replies
  // ---------------------------------------------------------------------

  /** The privileged alias, `root`. */
  const Root: seq<byte> := [0x72, 0x6F, 0x6F, 0x74]

  /** The claim is the expected user, or the alias `root` when that is allowed. */
  predicate Authorizes(claim: seq<byte>, expected: seq<byte>, allowRoot: bool)
  {
    claim == expected || (allowRoot && claim == Root)
  }

  /** The reply on success: a NUL, then `Coucou` and CR LF. */
  const Greeting: seq<byte> := [0x00, 0x43, 0x6F, 0x75, 0x63, 0x6F, 0x75, 0x0D, 0x0A]

  /** The reply on failure, `Login incorrect.` and CR LF, with no leading NUL. */
  const Rejection: seq<byte> :=
    [0x4C, 0x6F, 0x67, 0x69, 0x6E, 0x20, 0x69, 0x6E, 0x63, 0x6F, 0x72, 0x72, 0x65, 0x63, 0x74, 0x2E, 0x0D, 0x0A]

  /** What the Authenticating state makes of the octets of one read. */
  datatype Verdict =
    | Hangup                      // zero octets: the peer closed the connection
    | NotAFrame                   // the first octet is not NUL
    | Rejected(claim: seq<byte>)  // a frame whose claim is not authorised
    | Accepted(claim: seq<byte>)  // a frame whose claim is authorised

  /**
   * A read is decoded only when it holds at least one octet and the first is
   * NUL; the payload is then everything after that first octet.
   */
  function Classify(data: seq<byte>, expected: seq<byte>, allowRoot: bool): (v: Verdict)
  {
    if |data| > 0 && data[0] == 0 then
      var claim := Decode(data[1..]).serverUser;
      if Authorizes(claim, expected, allowRoot) then Accepted(claim) else Rejected(claim)
    else if |data| == 0 then Hangup
    else NotAFrame
  }

  /**
   * Authentication succeeds exactly when the read is a frame whose trimmed
   * second surviving field is the expected user, or `root` when allowed.
   */
  lemma AcceptedIff(data: seq<byte>, expected: seq<byte>, allowRoot: bool)
    ensures Classify(data, expected, allowRoot).Accepted? <==>
      |data| > 0 && data[0] == 0 &&
      (Decode(data[1..]).serverUser == expected || (allowRoot && Decode(data[1..]).serverUser == Root))
  {
  }

  /** The decision depends on the read only through the claim, and only frames are decided. */
  lemma VerdictShape(data: seq<byte>, expected: seq<byte>, allowRoot: bool)
    ensures var v := Classify(data, expected, allowRoot);
      (v.Hangup? <==> |data| == 0) &&
      (v.NotAFrame? <==> |data| > 0 && data[0] != 0) &&
      ((v.Accepted? || v.Rejected?) ==> v.claim == Decode(data[1..]).serverUser) &&
      ((v.Accepted? || v.Rejected?) ==> (v.Accepted? <==> Authorizes(v.claim, expected, allowRoot)))
  {
  }

  /** With the alias allowed, a claim of `root` is accepted whoever the expected user is. */
  lemma RootAlwaysAccepted(data: seq<byte>, expected: seq<byte>)
    requires |data| > 0 && data[0] == 0
    ensures Decode(data[1..]).serverUser == Root ==> Classify(data, expected, true) == Accepted(Root)
  {
  }

  /**
   * A frame with fewer than two surviving fields is rejected, unless the
   * expected user is the empty string.
   */
  lemma ShortFrameRejected(data: seq<byte>, expected: seq<byte>, allowRoot: bool)
    requires |data| > 0 && data[0] == 0
    requires |TextPieces(Split(data[1..]))| < 2
    requires expected != []
    ensures Classify(data, expected, allowRoot) == Rejected([])
  {
    MissingClaimIsEmpty(data[1..]);
  }

  /** The constants spell the texts of the source. */
  lemma ConstantsSpellOut()
    ensures Root == Ascii("root")
    ensures Greeting == [0] + Ascii("Coucou\r\n")
    ensures Rejection == Ascii("Login incorrect.\r\n")
  {
  }
}
