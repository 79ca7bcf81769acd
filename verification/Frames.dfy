// One JSON text and a newline, over a byte stream that arrives in arbitrary pieces (src/broker/protocol.rs,
// src/broker/client.rs, src/broker/client/bulk.rs). Bytes are chars.
module Frames {
  import opened Wrappers
  import opened Json

  const MAX_REQUEST_BYTES: nat := 128 * 1024
  const MAX_RESPONSE_BYTES: nat := 4 * 1024 * 1024

  datatype FrameError = ReadFailed | TooLarge | Empty

  function Flatten(pieces: seq<string>): string {
    if pieces == [] then "" else pieces[0] + Flatten(pieces[1..])
  }

  // Where s first has a newline, or |s|.
  function NewlineAt(s: string): (n: nat)
    ensures n <= |s|
    ensures n < |s| ==> s[n] == '\n'
    ensures forall i | 0 <= i < n :: s[i] != '\n'
  {
    if s == "" || s[0] == '\n' then 0 else 1 + NewlineAt(s[1..])
  }

  // --- What the result must be, whatever the pieces -----------------------------------------------

  // The line a stream begins with: through its first newline, or all of it.
  function LineOf(s: string): string {
    if NewlineAt(s) < |s| then s[..NewlineAt(s) + 1] else s
  }

  // broken says that the stream ends in a read error instead of its end.
  function ReadResult(s: string, broken: bool, limit: nat): Result<string, FrameError> {
    if |LineOf(s)| > limit then Err(TooLarge)
    else if NewlineAt(s) < |s| then Ok(LineOf(s))
    else if broken then Err(ReadFailed)
    else if s == "" then Err(Empty)
    else Ok(s)
  }

  // --- The buffered reader ------------------------------------------------------------------------

  class Reader {
    // What is still to come, in the pieces it will come in, none of them empty.
    var pieces: seq<string>
    var broken: bool

    ghost predicate Valid()
      reads this
    {
      forall i | 0 <= i < |pieces| :: pieces[i] != ""
    }

    ghost function Stream(): string
      reads this
    {
      Flatten(pieces)
    }

    constructor (pieces: seq<string>, broken: bool)
      requires forall i | 0 <= i < |pieces| :: pieces[i] != ""
      ensures Valid() && this.pieces == pieces && this.broken == broken
    {
      this.pieces, this.broken := pieces, broken;
    }

    // The bytes at hand: the current piece, nothing at the end of the stream, or the stream's failure.
    method FillBuf() returns (r: Result<string, FrameError>)
      requires Valid()
      ensures pieces == [] ==> Stream() == "" && r == if broken then Err(ReadFailed) else Ok("")
      ensures pieces != [] ==> r == Ok(pieces[0]) && pieces[0] != "" && pieces[0] <= Stream()
    {
      if pieces != [] {
        r := Ok(pieces[0]);
      } else {
        r := if broken then Err(ReadFailed) else Ok("");
      }
    }

    method Consume(n: nat)
      requires Valid() && pieces != [] && 0 < n <= |pieces[0]|
      modifies this`pieces
      ensures Valid() && n <= |old(Stream())| && Stream() == old(Stream())[n..]
    {
      ghost var before := pieces;
      ghost var rest := Flatten(before[1..]);
      if n == |pieces[0]| {
        assert (before[0] + rest)[n..] == rest;
        pieces := pieces[1..];
      } else {
        assert (before[0] + rest)[n..] == before[0][n..] + rest;
        pieces := [pieces[0][n..]] + pieces[1..];
        assert pieces[1..] == before[1..];
      }
    }
  }

  predicate NoNewline(s: string, to: nat)
    requires to <= |s|
  {
    forall i | 0 <= i < to :: s[i] != '\n'
  }

  // The reader has taken the first |line| bytes.
  ghost predicate Taken(s: string, line: string, rest: string) {
    |line| <= |s| && line == s[..|line|] && rest == s[|line|..]
  }

  // The first newline is where it is found and nowhere earlier.
  lemma NewlineIsAt(s: string, n: nat)
    requires n < |s| && s[n] == '\n' && NoNewline(s, n)
    ensures NewlineAt(s) == n
  {
  }

  // A newline in the next piece is the stream's first; without one the line reaches past the piece.
  lemma NextPiece(s: string, line: string, piece: string)
    requires |line| <= |s| && NoNewline(s, |line|) && piece <= s[|line|..]
    ensures |line| + |piece| <= |s|
    ensures NewlineAt(piece) < |piece| ==> NewlineAt(s) == |line| + NewlineAt(piece)
    ensures NewlineAt(piece) == |piece| ==> NoNewline(s, |line| + |piece|) && |line| + |piece| <= NewlineAt(s)
  {
    var k, p := |line|, NewlineAt(piece);
    forall i | 0 <= i < |piece| ensures s[k + i] == piece[i] {
      assert s[k..][i] == piece[i];
    }
    forall i | k <= i < k + p ensures s[i] != '\n' {
      assert s[k + (i - k)] == piece[i - k];
    }
    if p < |piece| {
      NewlineIsAt(s, k + p);
    }
  }

  lemma PieceTaken(s: string, line: string, piece: string, take: nat)
    requires |line| <= |s| && line == s[..|line|] && piece <= s[|line|..] && take <= |piece|
    ensures Taken(s, line + piece[..take], s[|line|..][take..])
  {
  }

  // One round of the loop: how far the line now reaches, and whether it is complete.
  method ReadPiece(reader: Reader, limit: nat, line: string, ghost s: string)
    returns (r: Result<string, FrameError>, done: bool)
    requires reader.Valid() && Taken(s, line, reader.Stream()) && NoNewline(s, |line|) && |line| <= limit
    modifies reader
    ensures reader.Valid() && reader.broken == old(reader.broken)
    ensures r.Ok? ==> |r.value| <= limit && Taken(s, r.value, reader.Stream())
    ensures r.Ok? && !done ==> |r.value| > |line| && NoNewline(s, |r.value|)
    ensures r.Ok? && done ==> r.value == LineOf(s) && (NewlineAt(s) < |s| || !reader.broken)
    ensures r.Err? ==> reader.Stream() == old(reader.Stream())
    ensures r.Err? && |LineOf(s)| > limit ==> r.error == TooLarge
    ensures r.Err? && |LineOf(s)| <= limit ==> r.error == ReadFailed && reader.broken && NewlineAt(s) == |s|
  {
    r := reader.FillBuf();
    done := true;
    if r.Ok? && r.value != "" {
      var piece := r.value;
      NextPiece(s, line, piece);
      var newline := NewlineAt(piece);
      var take := if newline < |piece| then newline + 1 else |piece|;
      if |line| + take > limit {
        r := Err(TooLarge);
      } else {
        PieceTaken(s, line, piece, take);
        reader.Consume(take);
        r, done := Ok(line + piece[..take]), newline < |piece|;
      }
    } else if r.Ok? {
      r := Ok(line);
    }
  }

  method ReadBoundedLine(reader: Reader, limit: nat) returns (r: Result<string, FrameError>)
    requires reader.Valid()
    modifies reader
    ensures reader.Valid() && reader.broken == old(reader.broken)
    ensures r == ReadResult(old(reader.Stream()), reader.broken, limit)
    // Success takes exactly the line from the stream; a failure never takes more than the limit.
    ensures r.Ok? ==> old(reader.Stream()) == r.value + reader.Stream()
    ensures exists n :: 0 <= n <= limit && n <= |old(reader.Stream())| && reader.Stream() == old(reader.Stream())[n..]
  {
    ghost var s := reader.Stream();
    var line, done := "", false;
    assert s[0..] == s;
    while !done
      invariant reader.Valid() && reader.broken == old(reader.broken)
      invariant |line| <= limit && Taken(s, line, reader.Stream())
      invariant !done ==> NoNewline(s, |line|)
      invariant done ==> line == LineOf(s) && (NewlineAt(s) < |s| || !reader.broken)
      decreases !done, |s| - |line|
    {
      var next;
      next, done := ReadPiece(reader, limit, line, s);
      if next.Err? {
        return Err(next.error);
      }
      line := next.value;
    }
    if line == "" {
      return Err(Empty);
    }
    r := Ok(line);
  }

  // --- The writers --------------------------------------------------------------------------------

  // A frame that leaves a writer is read whole by a peer whose limit it keeps, in whatever pieces it arrives,
  // and the peer stops right behind it.
  lemma FrameIsRead(v: Value, after: string, broken: bool, limit: nat)
    ensures var frame := Encode(v) + "\n";
            ReadResult(frame + after, broken, limit) == if |frame| <= limit then Ok(frame) else Err(TooLarge)
  {
    var frame := Encode(v) + "\n";
    var s := frame + after;
    EncodePrintable(v);
    var n := |Encode(v)|;
    assert s[n] == '\n';
    forall i | 0 <= i < n ensures s[i] != '\n' {
      assert s[i] == Encode(v)[i];
    }
    assert NewlineAt(s) == n;
    assert s[..n + 1] == frame;
  }

  // The broker's answer: nothing at all when it would be too long.
  method WriteResponse(v: Value) returns (sent: string)
    ensures sent == "" || sent == Encode(v) + "\n"
    ensures sent != "" ==> forall broken :: ReadResult(sent, broken, 4_194_304) == Ok(Encode(v) + "\n")
    ensures sent == "" <==> ReadResult(Encode(v) + "\n", false, 4_194_304) == Err(TooLarge)
    ensures sent == "" ==> ReadResult(sent, false, 4_194_304) == Err(Empty)
  {
    var encoded := Encode(v);
    FrameIsRead(v, "", false, MAX_RESPONSE_BYTES);
    FrameIsRead(v, "", true, MAX_RESPONSE_BYTES);
    assert encoded + "\n" + "" == encoded + "\n";
    if |encoded| < MAX_RESPONSE_BYTES {
      sent := encoded + "\n";
    } else {
      sent := "";
    }
  }

  // A bulk request is refused by its own client exactly when the broker would refuse the frame.
  method WriteBulkRequest(v: Value) returns (sent: Option<string>)
    ensures sent.Some? ==> sent.value == Encode(v) + "\n"
    ensures sent.Some? ==> ReadResult(sent.value, false, 131_072) == Ok(Encode(v) + "\n")
    ensures sent.None? <==> ReadResult(Encode(v) + "\n", false, 131_072) == Err(TooLarge)
  {
    var encoded := Encode(v) + "\n";
    FrameIsRead(v, "", false, MAX_REQUEST_BYTES);
    assert encoded + "" == encoded;
    sent := if |encoded| > MAX_REQUEST_BYTES then None else Some(encoded);
  }
}
