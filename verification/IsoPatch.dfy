/** The patching copy loop of the ISO handler and the plain copy loop of the reverse proxy. */
module IsoPatch {
  import opened Seqs

  const SPACE: byte := 32
  const DEFAULT_BUFFER: nat := 32 * 1024

  // ---------------------------------------------------------------------------------------------
  // Searching and overwriting
  // ---------------------------------------------------------------------------------------------

  predicate OccursAt(b: seq<byte>, magic: seq<byte>, i: int) {
    0 <= i && i + |magic| <= |b| && forall k :: 0 <= k < |magic| ==> b[i + k] == magic[k]
  }

  /** Go's `bytes.Index`: the leftmost occurrence, or -1. */
  function Index(b: seq<byte>, magic: seq<byte>): (r: int)
    ensures r == -1 || OccursAt(b, magic, r)
    ensures forall i :: OccursAt(b, magic, i) ==> r != -1 && r <= i
  {
    IndexFrom(b, magic, 0)
  }

  function IndexFrom(b: seq<byte>, magic: seq<byte>, from: nat): (r: int)
    requires from <= |b|
    ensures r == -1 || (from <= r && OccursAt(b, magic, r))
    ensures forall i :: from <= i && OccursAt(b, magic, i) ==> r != -1 && r <= i
    decreases |b| - from
  {
    if OccursAt(b, magic, from) then from
    else if from == |b| then -1
    else IndexFrom(b, magic, from + 1)
  }

  function Min(a: int, b: int): int { if a < b then a else b }

  /** Go's `copy(dst[at:], src)`: as many bytes of `src` as fit from `at` on. */
  function Overlay(dst: seq<byte>, at: nat, src: seq<byte>): (r: seq<byte>)
    requires at <= |dst|
    ensures |r| == |dst|
    ensures forall p :: 0 <= p < |dst| ==> r[p] == if at <= p < at + |src| then src[p - at] else dst[p]
  {
    var n := Min(|dst| - at, |src|);
    dst[..at] + src[..n] + dst[at + n..]
  }

  function Spaces(n: nat): (r: seq<byte>)
    ensures |r| == n && forall i :: 0 <= i < n ==> r[i] == SPACE
  {
    seq(n, _ => SPACE)
  }

  /** What one chunk becomes: its first occurrence is blanked, then overwritten by the patch. */
  function PatchChunk(b: seq<byte>, magic: seq<byte>, patch: seq<byte>): (r: seq<byte>)
    ensures |r| == |b|
    ensures Index(b, magic) == -1 ==> r == b
  {
    var i := Index(b, magic);
    if i == -1 then b else Overlay(Overlay(b, i, Spaces(|magic|)), i, patch)
  }

  /** The patch padded with spaces to the length of the magic string. */
  function Padded(magic: seq<byte>, patch: seq<byte>): (r: seq<byte>)
    requires |patch| <= |magic|
    ensures |r| == |magic|
  {
    patch + Spaces(|magic| - |patch|)
  }

  // ---------------------------------------------------------------------------------------------
  // Readers and writers
  // ---------------------------------------------------------------------------------------------

  datatype Error = EOF | ShortWrite | Failure(code: int)

  /** One answer of a reader: some bytes, an error, or both. */
  datatype ReadReply = ReadReply(data: seq<byte>, err: Option<Error>)

  /** One answer of a writer: how many bytes it is willing to take, and its error. */
  datatype WriteReply = WriteReply(willing: nat, err: Option<Error>)

  /** A reader whose successive answers are fixed in advance; when they run out it is at end of file. */
  class Reader {
    var replies: seq<ReadReply>

    constructor (replies: seq<ReadReply>)
      ensures this.replies == replies
    {
      this.replies := replies;
    }

    ghost predicate Fits(n: nat)
      reads this
    {
      forall k :: 0 <= k < |replies| ==> |replies[k].data| <= n
    }

    method Read(buf: array<byte>) returns (nr: nat, err: Option<Error>)
      requires Fits(buf.Length)
      modifies this, buf
      ensures Fits(buf.Length)
      ensures old(replies) == [] ==> nr == 0 && err == Some(EOF) && replies == []
      ensures old(replies) != [] ==>
                && nr == |old(replies)[0].data| <= buf.Length
                && buf[..nr] == old(replies)[0].data
                && err == old(replies)[0].err
                && replies == old(replies)[1..]
    {
      if replies == [] {
        return 0, Some(EOF);
      }
      var reply := replies[0];
      Fill(buf, 0, reply.data);
      nr, err, replies := |reply.data|, reply.err, replies[1..];
    }
  }

  /** The writer's side: what it has accepted so far and how it will answer; a writer with no
      answers left takes everything. */
  class Writer {
    var accepted: seq<byte>
    var replies: seq<WriteReply>

    constructor (replies: seq<WriteReply>)
      ensures this.replies == replies && accepted == []
    {
      this.replies := replies;
      accepted := [];
    }

    method Write(p: seq<byte>) returns (nw: nat, err: Option<Error>)
      modifies this
      ensures nw == Min(NextWrite(old(replies), |p|).willing, |p|)
      ensures err == NextWrite(old(replies), |p|).err
      ensures accepted == old(accepted) + p[..nw]
      ensures replies == LaterWrites(old(replies))
    {
      var reply := NextWrite(replies, |p|);
      nw, err := Min(reply.willing, |p|), reply.err;
      accepted := accepted + p[..nw];
      replies := LaterWrites(replies);
    }
  }

  function NextWrite(replies: seq<WriteReply>, n: nat): WriteReply {
    if replies == [] then WriteReply(n, None) else replies[0]
  }

  function LaterWrites(replies: seq<WriteReply>): seq<WriteReply> {
    if replies == [] then [] else replies[1..]
  }

  /** Go's `copy` into a byte slice. */
  method Fill(dst: array<byte>, at: nat, src: seq<byte>)
    requires at <= dst.Length
    modifies dst
    ensures dst[..] == Overlay(old(dst[..]), at, src)
  {
    var n := Min(dst.Length - at, |src|);
    for k := 0 to n
      invariant forall p :: 0 <= p < dst.Length ==>
                              dst[p] == if at <= p < at + k then src[p - at] else old(dst[p])
    {
      dst[at + k] := src[k];
    }
  }

  // ---------------------------------------------------------------------------------------------
  // The two copy loops
  // ---------------------------------------------------------------------------------------------

  datatype Outcome = Outcome(accepted: seq<byte>, written: nat, err: Option<Error>)

  function FinalError(err: Error): Option<Error> { if err == EOF then None else Some(err) }

  /** An outcome reached after `done` had been accepted already. */
  function After(done: seq<byte>, rest: Outcome): Outcome {
    Outcome(done + rest.accepted, |done| + rest.written, rest.err)
  }

  lemma AfterTwice(done: seq<byte>, more: seq<byte>, rest: Outcome)
    ensures After(done, After(more, rest)) == After(done + more, rest)
  {
    assert done + (more + rest.accepted) == (done + more) + rest.accepted;
  }

  lemma AfterAll(done: seq<byte>, err: Option<Error>)
    ensures After(done, Outcome([], 0, err)) == Outcome(done, |done|, err)
  {
    assert done + [] == done;
  }

  /** Reading, transforming and writing chunk after chunk until either side stops. */
  ghost function Pump(ins: seq<ReadReply>, outs: seq<WriteReply>, f: seq<byte> -> seq<byte>): (r: Outcome) {
    if ins == [] then Outcome([], 0, None)
    else if ins[0].data == [] then
      if ins[0].err.Some? then Outcome([], 0, FinalError(ins[0].err.value)) else Pump(ins[1..], outs, f)
    else
      var taken := Taken(outs, f(ins[0].data));
      var stop := Stop(outs, ins[0], |taken|, |f(ins[0].data)|);
      After(taken, if stop.Some? then Outcome([], 0, stop.value) else Pump(ins[1..], LaterWrites(outs), f))
  }

  /** The part of `b` the next write accepts. */
  function Taken(outs: seq<WriteReply>, b: seq<byte>): seq<byte> {
    b[..Min(NextWrite(outs, |b|).willing, |b|)]
  }

  /** Whether the loop returns after this chunk, and with which error. */
  function Stop(outs: seq<WriteReply>, input: ReadReply, taken: nat, offered: nat): Option<Option<Error>> {
    if NextWrite(outs, offered).err.Some? then Some(NextWrite(outs, offered).err)
    else if taken != |input.data| then Some(Some(ShortWrite))
    else if input.err.Some? then Some(FinalError(input.err.value))
    else None
  }

  ghost function Patching(magic: seq<byte>, patch: seq<byte>): seq<byte> -> seq<byte> {
    b => PatchChunk(b, magic, patch)
  }

  function BufferLength(n: nat): nat { if n == 0 then DEFAULT_BUFFER else n }

  /** The handler: the magic string and the run of spaces `HandlerFunc` prepares from it. */
  class Handler {
    const magic: seq<byte>
    var padding: seq<byte>

    constructor (magic: seq<byte>)
      ensures this.magic == magic && padding == []
    {
      this.magic := magic;
      padding := [];
    }

    ghost predicate Ready()
      reads this
    {
      padding == Spaces(|magic|)
    }

    method HandlerFunc()
      modifies this
      ensures Ready()
    {
      padding := seq(|magic|, _ => SPACE);
    }

    /** The patching check on one chunk; the overwriting happens on a duplicate. */
    method Patched(b: seq<byte>, patch: seq<byte>) returns (r: seq<byte>)
      requires Ready()
      ensures r == PatchChunk(b, magic, patch)
    {
      var i := Index(b, magic);
      if i == -1 {
        return b;
      }
      var dup := new byte[|b|];
      Fill(dup, 0, b);
      assert dup[..] == b;
      Fill(dup, i, padding);
      Fill(dup, i, patch);
      return dup[..];
    }

    method Copy(patch: seq<byte>, dst: Writer, src: Reader, given: array<byte>) returns (written: nat, err: Option<Error>)
      requires Ready() && src.Fits(BufferLength(given.Length))
      modifies dst, src, given
      ensures Ready()
      ensures var out := Pump(old(src.replies), old(dst.replies), Patching(magic, patch));
              dst.accepted == old(dst.accepted) + out.accepted && written == out.written && err == out.err
    {
      var buf := given;
      if buf.Length == 0 {
        buf := new byte[DEFAULT_BUFFER];
      }
      written := 0;
      ghost var f := Patching(magic, patch);
      ghost var whole := After(dst.accepted, Pump(src.replies, dst.replies, f));
      while true
        invariant buf == given || fresh(buf)
        invariant buf.Length == BufferLength(given.Length) && src.Fits(buf.Length) && Ready()
        invariant |dst.accepted| == |old(dst.accepted)| + written
        invariant whole == After(dst.accepted, Pump(src.replies, dst.replies, f))
        decreases |src.replies|
      {
        ghost var ins, outs, done := src.replies, dst.replies, dst.accepted;
        var nr, rerr := src.Read(buf);
        if nr > 0 {
          var b := Patched(buf[..nr], patch);
          assert b == f(ins[0].data);
          var nw, werr := dst.Write(b);
          written := written + nw;
          ghost var stop := Stop(outs, ins[0], nw, |b|);
          AfterTwice(done, b[..nw], if stop.Some? then Outcome([], 0, stop.value) else Pump(src.replies, dst.replies, f));
          if werr.Some? {
            AfterAll(dst.accepted, werr);
            return written, werr;
          }
          if nr != nw {
            AfterAll(dst.accepted, Some(ShortWrite));
            return written, Some(ShortWrite);
          }
        }
        if rerr.Some? {
          AfterAll(dst.accepted, FinalError(rerr.value));
          return written, FinalError(rerr.value);
        }
      }
    }
  }

  /** The reverse proxy's own loop, used when no patching copier is configured. */
  method CopyBuffer(dst: Writer, src: Reader, given: array<byte>) returns (written: nat, err: Option<Error>)
    requires src.Fits(BufferLength(given.Length))
    modifies dst, src, given
    ensures var out := Pump(old(src.replies), old(dst.replies), b => b);
            dst.accepted == old(dst.accepted) + out.accepted && written == out.written && err == out.err
  {
    var buf := given;
    if buf.Length == 0 {
      buf := new byte[DEFAULT_BUFFER];
    }
    written := 0;
    ghost var f := (b: seq<byte>) => b;
    ghost var whole := After(dst.accepted, Pump(src.replies, dst.replies, f));
    while true
      invariant buf == given || fresh(buf)
      invariant buf.Length == BufferLength(given.Length) && src.Fits(buf.Length)
      invariant |dst.accepted| == |old(dst.accepted)| + written
      invariant whole == After(dst.accepted, Pump(src.replies, dst.replies, f))
      decreases |src.replies|
    {
      ghost var ins, outs, done := src.replies, dst.replies, dst.accepted;
      var nr, rerr := src.Read(buf);
      if nr > 0 {
        var b := buf[..nr];
        assert b == f(ins[0].data);
        var nw, werr := dst.Write(b);
        written := written + nw;
        ghost var stop := Stop(outs, ins[0], nw, |b|);
        AfterTwice(done, b[..nw], if stop.Some? then Outcome([], 0, stop.value) else Pump(src.replies, dst.replies, f));
        if werr.Some? {
          AfterAll(dst.accepted, werr);
          return written, werr;
        }
        if nr != nw {
          AfterAll(dst.accepted, Some(ShortWrite));
          return written, Some(ShortWrite);
        }
      }
      if rerr.Some? {
        AfterAll(dst.accepted, FinalError(rerr.value));
        return written, FinalError(rerr.value);
      }
    }
  }
}
