/**
 Byte-exact ranged reads of a stored object, from a local file or from a provider that serves byte
 ranges, and the forward-only reader built on the streamed pieces.
*/
module Storage {
  import opened Common

  datatype Error = Unavailable

  predicate NonEmptyUpTo(pieces: seq<Bytes>, chunkSize: nat) {
    forall i :: 0 <= i < |pieces| ==> 0 < |pieces[i]| <= chunkSize
  }

  /** The bytes from `start` on, at most `length` of them. */
  function Slice(content: Bytes, start: nat, length: Option<int>): Bytes {
    if start >= |content| then []
    else
      match length
      case None => content[start..]
      case Some(n) => if n <= 0 then [] else if start + n >= |content| then content[start..] else content[start..start + n]
  }

  // ---------------------------------------------------------------- byte ranges

  /** A `Range: bytes=first-` or `bytes=first-last` request header. */
  datatype ByteRange = ByteRange(first: nat, last: Option<int>)

  function RangeFor(start: nat, length: Option<int>): ByteRange {
    ByteRange(start, match length case None => None case Some(n) => Some(start + n - 1))
  }

  /**
   What a server answers under section 14.1.2 of RFC 9110: both positions are inclusive, a last
   position past the end means the end, a first position past the end cannot be satisfied, and a
   range whose last position precedes its first is invalid and therefore ignored.
  */
  function Serve(content: Bytes, range: ByteRange): Result<Bytes, Error> {
    match range.last
    case None =>
      if range.first >= |content| then Err(Unavailable) else Ok(content[range.first..])
    case Some(last) =>
      if last < range.first then Ok(content)
      else if range.first >= |content| then Err(Unavailable)
      else if last >= |content| then Ok(content[range.first..])
      else Ok(content[range.first..last + 1])
  }

  /** The two kinds of store give the same bytes for exactly these requests. */
  lemma {:induction false} LocalAndRemoteAgreeIff(content: Bytes, start: nat, length: Option<int>)
    ensures Serve(content, RangeFor(start, length)) == Ok(Slice(content, start, length))
            <==> if length.None? || length.value > 0 then start < |content| else content == []
  {
    if length.Some? && length.value <= 0 {
      assert Slice(content, start, length) == [];
    } else if length.Some? && start + length.value == |content| {
      assert content[start..start + length.value] == content[start..];
    }
  }

  // ---------------------------------------------------------------- streaming

  /** An open file or response body. A read may return fewer bytes than asked for, but returns none
      only at the end. */
  class Source {
    const content: Bytes
    var pos: nat
    var closed: bool

    constructor (content: Bytes)
      ensures this.content == content && pos == 0 && !closed
    {
      this.content, pos, closed := content, 0, false;
    }

    function Left(): Bytes
      reads this
    {
      if pos >= |content| then [] else content[pos..]
    }

    method Read(size: nat) returns (chunk: Bytes)
      modifies this`pos
      ensures |chunk| <= size && chunk <= old(Left()) && Left() == old(Left())[|chunk|..]
      ensures chunk == [] <==> size == 0 || old(Left()) == []
    {
      if size == 0 || pos >= |content| { return []; }
      var most := if size < |content| - pos then size else |content| - pos;
      var n :| 1 <= n <= most;
      chunk := content[pos..pos + n];
      pos := pos + n;
    }
  }

  lemma PieceMoves(got: Bytes, left: Bytes, chunk: Bytes)
    requires chunk <= left
    ensures got + chunk + left[|chunk|..] == got + left
  {
  }

  lemma SlicePieceMoves(got: Bytes, left: Bytes, remaining: Option<int>, chunk: Bytes)
    requires chunk <= left && (remaining.None? || |chunk| <= remaining.value)
    ensures var later := if remaining.None? then None else Some(remaining.value - |chunk|);
            got + chunk + Slice(left[|chunk|..], 0, later) == got + Slice(left, 0, remaining)
  {
    var later := if remaining.None? then None else Some(remaining.value - |chunk|);
    assert chunk + Slice(left[|chunk|..], 0, later) == Slice(left, 0, remaining);
  }

  class ManagedObject {
    const handle: Source
    const remote: bool

    constructor (handle: Source, remote: bool)
      ensures this.handle == handle && this.remote == remote
    {
      this.handle, this.remote := handle, remote;
    }

    method Close()
      modifies handle`closed
      ensures handle.closed
    {
      handle.closed := true;
    }

    method StreamRemote(body: Source, chunkSize: nat) returns (pieces: seq<Bytes>)
      requires chunkSize > 0 && body != handle
      modifies body, handle`closed
      ensures Joined(pieces) == old(body.Left()) && NonEmptyUpTo(pieces, chunkSize)
      ensures body.closed && handle.closed
    {
      pieces := [];
      ghost var all := body.Left();
      while true
        invariant Joined(pieces) + body.Left() == all && NonEmptyUpTo(pieces, chunkSize)
        decreases |body.Left()|
      {
        ghost var left := body.Left();
        var chunk := body.Read(chunkSize);
        if chunk == [] { break; }
        PieceMoves(Joined(pieces), left, chunk);
        JoinedAppend(pieces, chunk);
        pieces := pieces + [chunk];
      }
      body.closed := true;
      Close();
    }

    method StreamLocal(length: Option<int>, chunkSize: nat) returns (pieces: seq<Bytes>)
      requires chunkSize > 0
      modifies handle
      ensures Joined(pieces) == Slice(old(handle.Left()), 0, length) && NonEmptyUpTo(pieces, chunkSize)
      ensures handle.closed
    {
      pieces := [];
      var remaining := length;
      ghost var all := Slice(handle.Left(), 0, length);
      while remaining.None? || remaining.value > 0
        invariant NonEmptyUpTo(pieces, chunkSize)
        invariant Joined(pieces) + Slice(handle.Left(), 0, remaining) == all
        decreases |handle.Left()|
      {
        var size := if remaining.None? || chunkSize < remaining.value then chunkSize else remaining.value;
        ghost var left := handle.Left();
        var chunk := handle.Read(size);
        if chunk == [] { break; }
        SlicePieceMoves(Joined(pieces), left, remaining, chunk);
        JoinedAppend(pieces, chunk);
        pieces := pieces + [chunk];
        if remaining.Some? { remaining := Some(remaining.value - |chunk|); }
      }
      Close();
    }

    /**
     The streamed pieces join to exactly what was asked for: the slice of a local file from `start`,
     or from where the handle stands when `start` is zero, and for a provider what its byte range
     gives. A range that cannot be satisfied is reported before anything is streamed.
    */
    method Stream(start: nat, length: Option<int>, chunkSize: nat) returns (reply: Result<seq<Bytes>, Error>)
      requires chunkSize > 0
      modifies handle
      ensures handle.closed
      ensures reply.Ok? ==> NonEmptyUpTo(reply.value, chunkSize)
      ensures !remote ==>
        reply.Ok? && Joined(reply.value) == Slice(handle.content, if start == 0 then old(handle.pos) else start, length)
      ensures remote ==>
        match Serve(handle.content, RangeFor(start, length))
        case Err(e) => reply == Err(e)
        case Ok(bytes) => reply.Ok? && Joined(reply.value) == bytes
    {
      if remote {
        var response := Serve(handle.content, RangeFor(start, length));
        if response.Err? {
          Close();
          return Err(response.error);
        }
        var body := new Source(response.value);
        assert body.Left() == response.value;
        var pieces := StreamRemote(body, chunkSize);
        return Ok(pieces);
      }
      if start != 0 { handle.pos := start; }
      ghost var from := handle.pos;
      assert Slice(handle.Left(), 0, length) == Slice(handle.content, from, length);
      var pieces := StreamLocal(length, chunkSize);
      reply := Ok(pieces);
    }
  }

  // ---------------------------------------------------------------- the forward-only reader

  /** The reader's state: bytes fetched but not returned, pieces not fetched, and whether it gave up. */
  datatype Reader = Reader(buffer: Bytes, chunks: seq<Bytes>, exhausted: bool)

  function Unread(r: Reader): Bytes {
    r.buffer + Joined(r.chunks)
  }

  /** Fetches until `size` bytes are buffered. An empty piece counts as the end. */
  function Fetch(r: Reader, size: nat): Reader
    decreases |r.chunks|
  {
    if |r.buffer| >= size || r.exhausted then r
    else if r.chunks == [] then r.(exhausted := true)
    else if r.chunks[0] == [] then r.(chunks := r.chunks[1..], exhausted := true)
    else Fetch(r.(buffer := r.buffer + r.chunks[0], chunks := r.chunks[1..]), size)
  }

  function Take(bytes: Bytes, size: nat): Bytes {
    if size >= |bytes| then bytes else bytes[..size]
  }

  function Drop(bytes: Bytes, size: nat): Bytes {
    if size >= |bytes| then [] else bytes[size..]
  }

  function ReadNext(r: Reader, size: int): (Reader, Bytes) {
    if size < 0 then (Reader([], [], true), Unread(r))
    else
      var f := Fetch(r, size);
      (f.(buffer := Drop(f.buffer, size)), Take(f.buffer, size))
  }

  class SequentialReader {
    var chunks: seq<Bytes>
    var buffer: Bytes
    var exhausted: bool

    constructor (chunks: seq<Bytes>)
      ensures State() == Reader([], chunks, false)
    {
      this.chunks, buffer, exhausted := chunks, [], false;
    }

    ghost function State(): Reader
      reads this
    {
      Reader(buffer, chunks, exhausted)
    }

    method Read(size: int) returns (payload: Bytes)
      modifies this
      ensures (State(), payload) == ReadNext(old(State()), size)
    {
      if size < 0 {
        buffer := buffer + Joined(chunks);
        chunks, exhausted := [], true;
        payload := buffer;
        buffer := [];
        return;
      }
      while |buffer| < size && !exhausted
        invariant Fetch(State(), size) == Fetch(old(State()), size)
        decreases |chunks|, !exhausted
      {
        var chunk: Bytes := [];
        if chunks != [] {
          chunk := chunks[0];
          chunks := chunks[1..];
        }
        if chunk == [] {
          exhausted := true;
          break;
        }
        buffer := buffer + chunk;
      }
      payload := if size < |buffer| then buffer[..size] else buffer;
      buffer := if size < |buffer| then buffer[size..] else [];
    }
  }

  // ---------------------------------------------------------------- any sequence of reads

  function ReadAll(r: Reader, sizes: seq<int>): seq<Bytes>
    decreases |sizes|
  {
    if sizes == [] then []
    else
      var (next, payload) := ReadNext(r, sizes[0]);
      [payload] + ReadAll(next, sizes[1..])
  }

  /** Consecutive slices of exactly the asked size, or of what is left. */
  function Slices(bytes: Bytes, sizes: seq<int>): seq<Bytes>
    decreases |sizes|
  {
    if sizes == [] then []
    else
      var n := if sizes[0] < 0 then |bytes| else sizes[0];
      [Take(bytes, n)] + Slices(Drop(bytes, n), sizes[1..])
  }

  /** Nothing follows an empty piece but empty pieces. */
  predicate NoGap(chunks: seq<Bytes>) {
    forall i, j :: 0 <= i < j < |chunks| && chunks[i] == [] ==> chunks[j] == []
  }

  predicate Sound(r: Reader) {
    NoGap(r.chunks) && (r.exhausted ==> Joined(r.chunks) == [])
  }

  lemma {:induction false} AllEmpty(chunks: seq<Bytes>)
    requires forall i :: 0 <= i < |chunks| ==> chunks[i] == []
    ensures Joined(chunks) == []
  {
    if chunks != [] { AllEmpty(chunks[1..]); }
  }

  lemma {:induction false} FetchIsEnough(r: Reader, size: nat)
    requires Sound(r)
    ensures var f := Fetch(r, size);
            && Sound(f) && Unread(f) == Unread(r)
            && (|f.buffer| >= size || f.buffer == Unread(f))
    decreases |r.chunks|
  {
    if |r.buffer| < size && !r.exhausted && r.chunks != [] {
      var rest := r.chunks[1..];
      if r.chunks[0] == [] {
        forall i | 0 <= i < |rest| ensures rest[i] == [] { assert rest[i] == r.chunks[i + 1]; }
        AllEmpty(rest);
      } else {
        assert NoGap(rest) by {
          forall i, j | 0 <= i < j < |rest| && rest[i] == [] ensures rest[j] == [] {
            assert rest[i] == r.chunks[i + 1] && rest[j] == r.chunks[j + 1];
          }
        }
        var next := r.(buffer := r.buffer + r.chunks[0], chunks := rest);
        assert Unread(next) == Unread(r);
        FetchIsEnough(next, size);
      }
    }
  }

  /** Every sequence of reads returns consecutive slices, whatever the boundaries between pieces. */
  lemma {:induction false} ReadsAreSlices(r: Reader, sizes: seq<int>)
    requires Sound(r)
    ensures ReadAll(r, sizes) == Slices(Unread(r), sizes)
    decreases |sizes|
  {
    if sizes != [] {
      var size := sizes[0];
      var (next, payload) := ReadNext(r, size);
      if size >= 0 {
        FetchIsEnough(r, size);
        var f := Fetch(r, size);
        assert payload == Take(Unread(r), size);
        assert Unread(next) == Drop(Unread(r), size);
      }
      ReadsAreSlices(next, sizes[1..]);
    }
  }

  lemma {:induction false} GapHidesBytes(buffer: Bytes, chunks: seq<Bytes>, i: nat, j: nat)
    requires 0 <= i < j < |chunks| && chunks[i] == [] && chunks[j] != []
    ensures |Fetch(Reader(buffer, chunks, false), |Unread(Reader(buffer, chunks, false))|).buffer| < |Unread(Reader(buffer, chunks, false))|
    decreases |chunks|
  {
    var r := Reader(buffer, chunks, false);
    var rest := chunks[1..];
    if chunks[0] == [] {
      JoinedHolds(rest, j - 1);
      JoinedHolds(chunks, j);
    } else {
      JoinedHolds(chunks, j);
      JoinedHolds(rest, j - 1);
      var next := Reader(buffer + chunks[0], rest, false);
      assert Unread(next) == Unread(r);
      GapHidesBytes(buffer + chunks[0], rest, i - 1, j - 1);
    }
  }

  lemma {:induction false} JoinedHolds(chunks: seq<Bytes>, j: nat)
    requires j < |chunks|
    ensures |Joined(chunks)| >= |chunks[j]|
  {
    if j > 0 {
      assert chunks[1..][j - 1] == chunks[j];
      JoinedHolds(chunks[1..], j - 1);
    }
  }

  /** A read that asks for everything stops short at an empty piece with more behind it. */
  lemma {:induction false} GapShortensARead(chunks: seq<Bytes>)
    requires !NoGap(chunks)
    ensures ReadAll(Reader([], chunks, false), [|Joined(chunks)|]) != Slices(Joined(chunks), [|Joined(chunks)|])
  {
    var i, j :| 0 <= i < j < |chunks| && chunks[i] == [] && chunks[j] != [];
    var r, all := Reader([], chunks, false), |Joined(chunks)|;
    assert Unread(r) == Joined(chunks);
    GapHidesBytes([], chunks, i, j);
    assert |ReadNext(r, all).1| < all;
    assert ReadAll(r, [all])[0] == ReadNext(r, all).1;
    assert Slices(Joined(chunks), [all])[0] == Joined(chunks);
  }

  /** The forward-only contract holds for a list of pieces exactly when no piece follows an empty one. */
  lemma {:induction false} ReaderIsExactIff(chunks: seq<Bytes>)
    ensures (forall sizes :: ReadAll(Reader([], chunks, false), sizes) == Slices(Joined(chunks), sizes)) <==> NoGap(chunks)
  {
    if NoGap(chunks) {
      assert Unread(Reader([], chunks, false)) == Joined(chunks);
      forall sizes ensures ReadAll(Reader([], chunks, false), sizes) == Slices(Joined(chunks), sizes) {
        ReadsAreSlices(Reader([], chunks, false), sizes);
      }
    } else {
      GapShortensARead(chunks);
    }
  }

  /** Reads of a stored object through `Stream`, from its start: the pieces are never empty. */
  lemma {:induction false} ReadingAnObject(content: Bytes, pieces: seq<Bytes>, chunkSize: nat, sizes: seq<int>)
    requires NonEmptyUpTo(pieces, chunkSize) && Joined(pieces) == content
    ensures ReadAll(Reader([], pieces, false), sizes) == Slices(content, sizes)
  {
    assert Unread(Reader([], pieces, false)) == content;
    ReadsAreSlices(Reader([], pieces, false), sizes);
  }

  // ---------------------------------------------------------------- byte by byte

  /** A slice holds the bytes from `start` on, in order, as many as there are but no more than asked for. */
  lemma {:induction false} SliceBytes(content: Bytes, start: nat, length: Option<int>)
    ensures var r := Slice(content, start, length);
            var left := if start < |content| then |content| - start else 0;
            && |r| == (if length.None? || left <= length.value then left else if length.value < 0 then 0 else length.value)
            && forall i :: 0 <= i < |r| ==> start + i < |content| && r[i] == content[start + i]
  {
  }

  /** What a provider answers to the range for `length` bytes from `start`, or for all of them: an error past
      the end, everything when the range ends before it begins, and otherwise the bytes from `start` on, as
      many as there are but no more than asked for. */
  lemma {:induction false} ServedBytes(content: Bytes, start: nat, length: Option<int>)
    ensures var r := Serve(content, RangeFor(start, length));
            && (length.Some? && length.value <= 0 ==> r == Ok(content))
            && (length.None? || length.value > 0 ==>
                  && (r.Err? <==> |content| <= start)
                  && (r.Ok? ==>
                        && |r.value| == (if length.None? || |content| - start <= length.value then |content| - start else length.value)
                        && forall i :: 0 <= i < |r.value| ==> r.value[i] == content[start + i]))
  {
  }

  /** One read of a sound reader returns the next bytes, exactly as many as asked for, or all that are left when
      fewer are or when the size is negative, and leaves the rest to the reads after it. */
  lemma {:induction false} OneReadBytes(r: Reader, size: int)
    requires Sound(r)
    ensures var all := r.buffer + Joined(r.chunks); var n := if size < 0 || size > |all| then |all| else size;
            var (next, payload) := ReadNext(r, size);
            payload == all[..n] && next.buffer + Joined(next.chunks) == all[n..] && Sound(next)
  {
    if size >= 0 { FetchIsEnough(r, size); }
  }

  /** The pieces joined are their bytes in order. */
  lemma {:induction false} JoinedBytes(pieces: seq<Bytes>, piece: Bytes)
    ensures Joined([]) == [] && Joined(pieces + [piece]) == Joined(pieces) + piece
  {
    JoinedAppend(pieces, piece);
  }
}
