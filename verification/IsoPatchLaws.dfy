/** What the patching copy loop guarantees: its exits, and its agreement with whole-file replacement. */
module IsoPatchLaws {
  import opened Seqs
  import opened IsoPatch

  // ---------------------------------------------------------------------------------------------
  // Every exit of the loop
  // ---------------------------------------------------------------------------------------------

  /** The chunks a source delivers, up to and including the read that carries an error. */
  function Chunks(ins: seq<ReadReply>): seq<seq<byte>> {
    if ins == [] then [] else [ins[0].data] + if ins[0].err.Some? then [] else Chunks(ins[1..])
  }

  /** The error that ends the source. */
  function SourceError(ins: seq<ReadReply>): Error {
    if ins == [] then EOF else if ins[0].err.Some? then ins[0].err.value else SourceError(ins[1..])
  }

  /** Every non-empty chunk is taken whole and without error. */
  predicate AllTaken(ins: seq<ReadReply>, outs: seq<WriteReply>) {
    ins == [] ||
    var n, done := |ins[0].data|, ins[0].err.Some?;
    if n == 0 then done || AllTaken(ins[1..], outs)
    else
      && NextWrite(outs, n).err.None?
      && n <= NextWrite(outs, n).willing
      && (done || AllTaken(ins[1..], LaterWrites(outs)))
  }

  ghost predicate KeepsLength(f: seq<byte> -> seq<byte>) {
    forall b :: |f(b)| == |b|
  }

  ghost function Mapped(f: seq<byte> -> seq<byte>, chunks: seq<seq<byte>>): (r: seq<seq<byte>>)
    ensures |r| == |chunks| && forall k :: 0 <= k < |r| ==> r[k] == f(chunks[k])
  {
    seq(|chunks|, k requires 0 <= k < |chunks| => f(chunks[k]))
  }

  /** The whole transformed stream, had every write succeeded. */
  ghost function Stream(ins: seq<ReadReply>, f: seq<byte> -> seq<byte>): seq<byte> {
    Flatten(Mapped(f, Chunks(ins)))
  }

  lemma StreamUnfold(ins: seq<ReadReply>, f: seq<byte> -> seq<byte>)
    requires ins != []
    ensures Stream(ins, f) == f(ins[0].data) + if ins[0].err.Some? then [] else Stream(ins[1..], f)
  {
    var rest := if ins[0].err.Some? then [] else Chunks(ins[1..]);
    assert Mapped(f, Chunks(ins)) == [f(ins[0].data)] + Mapped(f, rest);
    FlattenCons(f(ins[0].data), Mapped(f, rest));
  }

  /** At every exit the writer holds a prefix of the stream, the count is its length, and the error
      is nil exactly when the source reached end of file with every chunk fully written. */
  lemma {:induction false} Exit(ins: seq<ReadReply>, outs: seq<WriteReply>, f: seq<byte> -> seq<byte>)
    requires KeepsLength(f)
    ensures Pump(ins, outs, f).accepted <= Stream(ins, f)
    ensures Pump(ins, outs, f).written == |Pump(ins, outs, f).accepted|
    ensures Pump(ins, outs, f).err == None <==> SourceError(ins) == EOF && AllTaken(ins, outs)
    ensures AllTaken(ins, outs) ==> Pump(ins, outs, f).accepted == Stream(ins, f)
    decreases |ins|
  {
    if ins == [] {
      assert Mapped(f, Chunks(ins)) == [];
    } else {
      StreamUnfold(ins, f);
      if ins[0].data == [] {
        assert f(ins[0].data) == [];
        if ins[0].err.None? { Exit(ins[1..], outs, f); }
      } else {
        var b := f(ins[0].data);
        var stop := Stop(outs, ins[0], |Taken(outs, b)|, |b|);
        if stop.Some? {
          AfterAll(Taken(outs, b), stop.value);
        } else {
          assert Taken(outs, b) == b;
          Exit(ins[1..], LaterWrites(outs), f);
        }
      }
    }
  }

  lemma PatchingKeepsLength(magic: seq<byte>, patch: seq<byte>)
    ensures KeepsLength(Patching(magic, patch))
  {
  }

  /** The exits of `Copy`, for a patch of any length. */
  lemma CopyExit(ins: seq<ReadReply>, outs: seq<WriteReply>, magic: seq<byte>, patch: seq<byte>)
    ensures var f, out := Patching(magic, patch), Pump(ins, outs, Patching(magic, patch));
            && out.accepted <= Stream(ins, f)
            && out.written == |out.accepted|
            && (out.err == None <==> SourceError(ins) == EOF && AllTaken(ins, outs))
            && (out.err == None ==> out.accepted == Stream(ins, f) && |out.accepted| == |Flatten(Chunks(ins))|)
  {
    PatchingKeepsLength(magic, patch);
    Exit(ins, outs, Patching(magic, patch));
    FlattenMappedLength(Chunks(ins), Patching(magic, patch));
  }

  lemma {:induction false} FlattenMappedLength(chunks: seq<seq<byte>>, f: seq<byte> -> seq<byte>)
    requires KeepsLength(f)
    ensures |Flatten(Mapped(f, chunks))| == |Flatten(chunks)|
  {
    if chunks != [] {
      var front := chunks[..|chunks| - 1];
      FlattenMappedLength(front, f);
      assert Mapped(f, chunks)[..|chunks| - 1] == Mapped(f, front);
    }
  }

  /** Without the magic string in any chunk, `Copy` and `copyBuffer` are indistinguishable. */
  lemma {:induction false} CopyWithoutMagic(ins: seq<ReadReply>, outs: seq<WriteReply>, magic: seq<byte>, patch: seq<byte>)
    requires forall c :: c in Chunks(ins) ==> Index(c, magic) == -1
    ensures Pump(ins, outs, Patching(magic, patch)) == Pump(ins, outs, b => b)
    decreases |ins|
  {
    if ins != [] {
      assert ins[0].data in Chunks(ins);
      if ins[0].err.None? {
        assert forall c :: c in Chunks(ins[1..]) ==> c in Chunks(ins);
        CopyWithoutMagic(ins[1..], outs, magic, patch);
        CopyWithoutMagic(ins[1..], LaterWrites(outs), magic, patch);
      }
    }
  }

  // ---------------------------------------------------------------------------------------------
  // Whole-file replacement
  // ---------------------------------------------------------------------------------------------

  /** The reference: scan the whole file from left to right and replace each occurrence met. */
  function ReplaceAll(body: seq<byte>, magic: seq<byte>, pad: seq<byte>): seq<byte>
    requires magic != []
  {
    if |body| < |magic| then body
    else if body[..|magic|] == magic then pad + ReplaceAll(body[|magic|..], magic, pad)
    else [body[0]] + ReplaceAll(body[1..], magic, pad)
  }

  ghost function Shift(hits: set<nat>, d: nat): (r: set<nat>)
    ensures forall h :: h in r <==> d <= h && h - d in hits
  {
    var r := set h | h in hits :: d + h;
    assert forall h :: h in r <==> d <= h && h - d in hits by {
      forall h | d <= h && h - d in hits ensures h in r {
        var g := h - d;
        assert d + g == h;
      }
    }
    r
  }

  /** The positions the scan stops at. */
  ghost function Hits(body: seq<byte>, magic: seq<byte>): (r: set<nat>)
    requires magic != []
  {
    if |body| < |magic| then {}
    else if body[..|magic|] == magic then {0} + Shift(Hits(body[|magic|..], magic), |magic|)
    else Shift(Hits(body[1..], magic), 1)
  }

  function Offset(chunks: seq<seq<byte>>, k: nat): nat
    requires k <= |chunks|
  {
    |Flatten(chunks[..k])|
  }

  ghost predicate InChunk(chunks: seq<seq<byte>>, k: nat, h: nat, n: nat)
    requires k < |chunks|
  {
    Offset(chunks, k) <= h && h + n <= Offset(chunks, k + 1)
  }

  /** How the reads must fall: each occurrence the scan meets lies in one chunk, and no chunk holds two. */
  ghost predicate WellPlaced(chunks: seq<seq<byte>>, magic: seq<byte>)
    requires magic != []
  {
    var hits := Hits(Flatten(chunks), magic);
    && (forall h :: h in hits ==> exists k :: 0 <= k < |chunks| && InChunk(chunks, k, h, |magic|))
    && (forall g, h, k | g in hits && h in hits && 0 <= k < |chunks| ::
          InChunk(chunks, k, g, |magic|) && InChunk(chunks, k, h, |magic|) ==> g == h)
  }

  /** The chunk-wise loop overwrites position `h` on account of chunk `k`. */
  ghost predicate FirstOf(chunks: seq<seq<byte>>, magic: seq<byte>, k: nat, h: nat)
    requires k < |chunks|
  {
    Index(chunks[k], magic) != -1 && h == Offset(chunks, k) + Index(chunks[k], magic)
  }

  ghost function FirstHit(c: seq<byte>, magic: seq<byte>): set<nat> {
    if Index(c, magic) == -1 then {} else {Index(c, magic)}
  }

  /** The positions the chunk-wise loop overwrites: the first occurrence of each chunk. */
  ghost function ChunkHits(chunks: seq<seq<byte>>, magic: seq<byte>): set<nat> {
    if chunks == [] then {}
    else
      var front := chunks[..|chunks| - 1];
      ChunkHits(front, magic) + Shift(FirstHit(chunks[|chunks| - 1], magic), |Flatten(front)|)
  }

  // ---------------------------------------------------------------------------------------------
  // Texts patched at a set of positions
  // ---------------------------------------------------------------------------------------------

  ghost predicate AllOccur(body: seq<byte>, magic: seq<byte>, hits: set<nat>) {
    forall h :: h in hits ==> OccursAt(body, magic, h)
  }

  ghost predicate Spaced(hits: set<nat>, n: nat) {
    forall g, h :: g in hits && h in hits && g < h ==> g + n <= h
  }

  ghost predicate Covered(hits: set<nat>, n: nat, p: nat) {
    exists h :: h in hits && h <= p < h + n
  }

  /** `out` is `body` with `pad` written at each of `hits` and nothing else changed. */
  ghost predicate PatchedAt(body: seq<byte>, hits: set<nat>, pad: seq<byte>, out: seq<byte>) {
    && |out| == |body|
    && AllOccur(out, pad, hits)
    && (forall p :: 0 <= p < |body| && !Covered(hits, |pad|, p) ==> out[p] == body[p])
  }

  lemma OccursShift(a: seq<byte>, b: seq<byte>, magic: seq<byte>, i: nat)
    ensures OccursAt(a + b, magic, |a| + i) <==> OccursAt(b, magic, i)
    ensures OccursAt(a, magic, i) ==> OccursAt(a + b, magic, i)
  {
    if |a| + i + |magic| <= |a + b| {
      assert forall k {:trigger magic[k]} :: 0 <= k < |magic| ==> (a + b)[|a| + i + k] == b[i + k];
    }
  }

  lemma OccurAppend(a: seq<byte>, hits: set<nat>, b: seq<byte>, local: set<nat>, magic: seq<byte>)
    requires AllOccur(a, magic, hits) && AllOccur(b, magic, local)
    ensures AllOccur(a + b, magic, hits + Shift(local, |a|))
  {
    forall h | h in hits ensures OccursAt(a + b, magic, h) {
      OccursShift(a, b, magic, h);
    }
    forall h | h in Shift(local, |a|) ensures OccursAt(a + b, magic, h) {
      var g := h - |a|;
      assert g in local;
      OccursShift(a, b, magic, g);
      assert |a| + g == h;
    }
  }

  lemma PatchedAppend(a: seq<byte>, hits: set<nat>, pad: seq<byte>, out: seq<byte>, b: seq<byte>, local: set<nat>, more: seq<byte>)
    requires PatchedAt(a, hits, pad, out) && PatchedAt(b, local, pad, more)
    ensures PatchedAt(a + b, hits + Shift(local, |a|), pad, out + more)
  {
    OccurAppend(out, hits, more, local, pad);
    var all := hits + Shift(local, |a|);
    forall p | 0 <= p < |a + b| && !Covered(all, |pad|, p) ensures (out + more)[p] == (a + b)[p] {
      if p < |a| {
        assert !Covered(hits, |pad|, p);
      } else {
        assert !Covered(local, |pad|, p - |a|) by {
          forall h | h in local ensures !(h <= p - |a| < h + |pad|) {
            assert |a| + h in all;
          }
        }
      }
    }
  }

  lemma PatchedOnce(body: seq<byte>, hits: set<nat>, pad: seq<byte>, out: seq<byte>, other: seq<byte>)
    requires PatchedAt(body, hits, pad, out) && PatchedAt(body, hits, pad, other)
    ensures out == other
  {
    forall p | 0 <= p < |body| ensures out[p] == other[p] {
      if Covered(hits, |pad|, p) {
        var h :| h in hits && h <= p < h + |pad|;
        assert OccursAt(out, pad, h) && OccursAt(other, pad, h);
        assert out[h + (p - h)] == pad[p - h] == other[h + (p - h)];
      }
    }
  }

  /** If two different sets of occurrences give the same text, the pad is the magic string itself. */
  lemma PatchedApart(body: seq<byte>, magic: seq<byte>, pad: seq<byte>, one: set<nat>, two: set<nat>, out: seq<byte>, s: nat)
    requires |pad| == |magic| > 0
    requires Spaced(one, |magic|) && Spaced(two, |magic|)
    requires AllOccur(body, magic, one) && AllOccur(body, magic, two)
    requires PatchedAt(body, one, pad, out) && PatchedAt(body, two, pad, out)
    requires s in one && s !in two && forall h :: h < s ==> (h in one <==> h in two)
    ensures pad == magic
  {
    if t :| t in two && s < t < s + |magic| {
      forall p | s <= p < t ensures out[p] == body[p] {
        assert !Covered(two, |magic|, p);
      }
      Overlapping(body, magic, pad, out, s, t);
    } else {
      forall p | s <= p < s + |magic| ensures out[p] == body[p] {
        assert !Covered(two, |magic|, p);
      }
      assert forall k :: 0 <= k < |magic| ==> pad[k] == out[s + k] && magic[k] == body[s + k];
    }
  }

  /** Two overlapping occurrences make both texts periodic, so agreeing on one period is agreeing. */
  lemma Overlapping(body: seq<byte>, magic: seq<byte>, pad: seq<byte>, out: seq<byte>, s: nat, t: nat)
    requires |pad| == |magic| && s < t < s + |magic|
    requires OccursAt(body, magic, s) && OccursAt(body, magic, t) && OccursAt(out, pad, s) && OccursAt(out, pad, t)
    requires forall p :: s <= p < t ==> out[p] == body[p]
    ensures pad == magic
  {
    var d := t - s;
    assert forall k :: 0 <= k < d ==> pad[k] == out[s + k] && magic[k] == body[s + k];
    forall k | d <= k < |magic| ensures pad[k] == pad[k - d] && magic[k] == magic[k - d] {
      assert s + k == t + (k - d);
      assert out[s + k] == pad[k] && out[t + (k - d)] == pad[k - d];
      assert body[s + k] == magic[k] && body[t + (k - d)] == magic[k - d];
    }
    SamePeriod(pad, magic, d);
  }

  lemma {:induction false} SamePeriod(a: seq<byte>, b: seq<byte>, d: nat)
    requires |a| == |b| && 0 < d
    requires forall k :: 0 <= k < d && k < |a| ==> a[k] == b[k]
    requires forall k :: d <= k < |a| ==> a[k] == a[k - d] && b[k] == b[k - d]
    ensures a == b
  {
    for n := 0 to |a|
      invariant forall k :: 0 <= k < n ==> a[k] == b[k]
    {
      assert d <= n ==> a[n] == a[n - d] && b[n] == b[n - d];
    }
  }

  // ---------------------------------------------------------------------------------------------
  // The reference and the loop both patch at known positions
  // ---------------------------------------------------------------------------------------------

  ghost predicate AllCovered(body: seq<byte>, magic: seq<byte>, hits: set<nat>) {
    forall o: nat :: OccursAt(body, magic, o) ==> Covered(hits, |magic|, o)
  }

  /** What makes a set of positions the result of a left-to-right scan. */
  ghost predicate Scanned(body: seq<byte>, magic: seq<byte>, hits: set<nat>) {
    Spaced(hits, |magic|) && AllOccur(body, magic, hits) && AllCovered(body, magic, hits)
  }

  lemma ScanHit(b: seq<byte>, magic: seq<byte>, rest: set<nat>)
    requires magic != [] && Scanned(b, magic, rest)
    ensures Scanned(magic + b, magic, {0} + Shift(rest, |magic|))
  {
    var hits := {0} + Shift(rest, |magic|);
    OccurAppend(magic, {0}, b, rest, magic);
    assert AllCovered(magic + b, magic, hits) by {
      forall o: nat | OccursAt(magic + b, magic, o) ensures Covered(hits, |magic|, o) {
        ScanCovers(magic, b, magic, rest, hits, o);
      }
    }
  }

  lemma ScanCovers(a: seq<byte>, b: seq<byte>, magic: seq<byte>, rest: set<nat>, hits: set<nat>, o: nat)
    requires AllCovered(b, magic, rest) && Shift(rest, |a|) <= hits && OccursAt(a + b, magic, o)
    requires o < |a| ==> |a| == |magic| && 0 in hits
    ensures Covered(hits, |magic|, o)
  {
    if o < |a| {
      assert 0 in hits;
    } else {
      OccursShift(a, b, magic, o - |a|);
      assert Covered(rest, |magic|, o - |a|);
      var h :| h in rest && h <= o - |a| < h + |magic|;
      assert |a| + h in Shift(rest, |a|);
    }
  }

  lemma ScanMiss(a: seq<byte>, b: seq<byte>, magic: seq<byte>, rest: set<nat>)
    requires |a| == 1 && magic != [] && !OccursAt(a + b, magic, 0) && Scanned(b, magic, rest)
    ensures Scanned(a + b, magic, Shift(rest, 1))
  {
    OccurAppend(a, {}, b, rest, magic);
    forall o: nat | OccursAt(a + b, magic, o) ensures Covered(Shift(rest, 1), |magic|, o) {
      ScanCovers(a, b, magic, rest, Shift(rest, 1), o);
    }
  }

  lemma {:induction false} HitsScanned(body: seq<byte>, magic: seq<byte>)
    requires magic != []
    ensures Scanned(body, magic, Hits(body, magic))
    decreases |body|
  {
    if |body| < |magic| {
    } else if body[..|magic|] == magic {
      HitsScanned(body[|magic|..], magic);
      ScanHit(body[|magic|..], magic, Hits(body[|magic|..], magic));
      assert magic + body[|magic|..] == body;
    } else {
      HitsScanned(body[1..], magic);
      assert body[..1] + body[1..] == body;
      assert exists k :: 0 <= k < |magic| && body[..|magic|][k] != magic[k];
      ScanMiss(body[..1], body[1..], magic, Hits(body[1..], magic));
    }
  }

  lemma {:induction false} ReplaceAllPatches(body: seq<byte>, magic: seq<byte>, pad: seq<byte>)
    requires |pad| == |magic| > 0
    ensures PatchedAt(body, Hits(body, magic), pad, ReplaceAll(body, magic, pad))
    decreases |body|
  {
    if |body| < |magic| {
      assert Hits(body, magic) == {} && ReplaceAll(body, magic, pad) == body;
    } else if body[..|magic|] == magic {
      var b := body[|magic|..];
      ReplaceAllPatches(b, magic, pad);
      PatchedHit(magic, b, pad, Hits(b, magic), ReplaceAll(b, magic, pad));
      ScanUnfolds(body, magic, pad, |magic|);
    } else {
      var b := body[1..];
      ReplaceAllPatches(b, magic, pad);
      PatchedMiss(body[..1], b, pad, Hits(b, magic), ReplaceAll(b, magic, pad));
      ScanUnfolds(body, magic, pad, 1);
    }
  }

  /** One step of the scan, of the length of the magic string where it stands and of one byte elsewhere. */
  lemma ScanUnfolds(body: seq<byte>, magic: seq<byte>, pad: seq<byte>, n: nat)
    requires |pad| == |magic| > 0 && |magic| <= |body| && n == if body[..|magic|] == magic then |magic| else 1
    ensures body[..n] + body[n..] == body
    ensures body[..|magic|] == magic ==>
              && Hits(body, magic) == {0} + Shift(Hits(body[n..], magic), n)
              && ReplaceAll(body, magic, pad) == pad + ReplaceAll(body[n..], magic, pad)
    ensures body[..|magic|] != magic ==>
              && Hits(body, magic) == Shift(Hits(body[n..], magic), n)
              && ReplaceAll(body, magic, pad) == body[..n] + ReplaceAll(body[n..], magic, pad)
  {
    assert body[..1] == [body[0]];
  }

  lemma PatchedHit(a: seq<byte>, b: seq<byte>, pad: seq<byte>, rest: set<nat>, more: seq<byte>)
    requires |a| == |pad| > 0 && PatchedAt(b, rest, pad, more)
    ensures PatchedAt(a + b, {0} + Shift(rest, |a|), pad, pad + more)
  {
    assert PatchedAt(a, {0}, pad, pad) by {
      assert 0 in {0};
    }
    PatchedAppend(a, {0}, pad, pad, b, rest, more);
  }

  lemma PatchedMiss(a: seq<byte>, b: seq<byte>, pad: seq<byte>, rest: set<nat>, more: seq<byte>)
    requires PatchedAt(b, rest, pad, more)
    ensures PatchedAt(a + b, Shift(rest, |a|), pad, a + more)
  {
    PatchedAppend(a, {}, pad, a, b, rest, more);
    assert {} + Shift(rest, |a|) == Shift(rest, |a|);
  }

  lemma PatchChunkPatches(b: seq<byte>, magic: seq<byte>, patch: seq<byte>)
    requires magic != [] && |patch| <= |magic|
    ensures PatchedAt(b, FirstHit(b, magic), Padded(magic, patch), PatchChunk(b, magic, patch))
  {
    var i, out, pad := Index(b, magic), PatchChunk(b, magic, patch), Padded(magic, patch);
    if i != -1 {
      forall p | 0 <= p < |b| && !Covered({i}, |pad|, p) ensures out[p] == b[p] {
        assert i in {i};
      }
    }
  }

  /** The chunk-wise loop patches exactly at the first occurrence of each chunk. */
  lemma {:induction false} StreamPatches(chunks: seq<seq<byte>>, magic: seq<byte>, patch: seq<byte>)
    requires magic != [] && |patch| <= |magic|
    ensures PatchedAt(Flatten(chunks), ChunkHits(chunks, magic), Padded(magic, patch),
                      Flatten(Mapped(Patching(magic, patch), chunks)))
  {
    var f, pad := Patching(magic, patch), Padded(magic, patch);
    if chunks == [] {
      assert Mapped(f, chunks) == [];
    } else {
      var front, c := chunks[..|chunks| - 1], chunks[|chunks| - 1];
      StreamPatches(front, magic, patch);
      PatchChunkPatches(c, magic, patch);
      assert Mapped(f, chunks)[..|chunks| - 1] == Mapped(f, front);
      PatchedAppend(Flatten(front), ChunkHits(front, magic), pad, Flatten(Mapped(f, front)), c, FirstHit(c, magic), f(c));
    }
  }

  lemma {:induction false} ChunkHitsOccur(chunks: seq<seq<byte>>, magic: seq<byte>)
    requires magic != []
    ensures AllOccur(Flatten(chunks), magic, ChunkHits(chunks, magic))
    ensures Spaced(ChunkHits(chunks, magic), |magic|)
  {
    if chunks != [] {
      var front, c := chunks[..|chunks| - 1], chunks[|chunks| - 1];
      ChunkHitsOccur(front, magic);
      OccurAppend(Flatten(front), ChunkHits(front, magic), c, FirstHit(c, magic), magic);
    }
  }

  // ---------------------------------------------------------------------------------------------
  // When the two sets of positions coincide
  // ---------------------------------------------------------------------------------------------

  lemma {:induction false} ChunkAt(chunks: seq<seq<byte>>, k: nat)
    requires k < |chunks|
    ensures Offset(chunks, k + 1) == Offset(chunks, k) + |chunks[k]| <= |Flatten(chunks)|
    ensures Flatten(chunks)[Offset(chunks, k)..Offset(chunks, k + 1)] == chunks[k]
    decreases |chunks|
  {
    assert chunks[..k + 1][..k] == chunks[..k];
    if k + 1 == |chunks| {
      assert chunks[..k + 1] == chunks;
    } else {
      var front := chunks[..|chunks| - 1];
      ChunkAt(front, k);
      assert front[..k] == chunks[..k] && front[..k + 1] == chunks[..k + 1];
    }
  }

  lemma {:induction false} OffsetMonotone(chunks: seq<seq<byte>>, j: nat, k: nat)
    requires j <= k <= |chunks|
    ensures Offset(chunks, j) <= Offset(chunks, k)
    decreases k
  {
    if j < k {
      OffsetMonotone(chunks, j, k - 1);
      ChunkAt(chunks, k - 1);
    }
  }

  /** An occurrence inside a chunk of the body is an occurrence of that chunk. */
  lemma OccursInChunk(chunks: seq<seq<byte>>, magic: seq<byte>, k: nat, h: nat)
    requires k < |chunks| && InChunk(chunks, k, h, |magic|)
    ensures OccursAt(Flatten(chunks), magic, h) <==> OccursAt(chunks[k], magic, h - Offset(chunks, k))
  {
    ChunkAt(chunks, k);
    OccursInSlice(Flatten(chunks), Offset(chunks, k), Offset(chunks, k + 1), chunks[k], magic, h);
  }

  lemma OccursInSlice(body: seq<byte>, lo: nat, hi: nat, c: seq<byte>, magic: seq<byte>, h: nat)
    requires hi == lo + |c| <= |body| && body[lo..hi] == c && lo <= h && h + |magic| <= hi
    ensures OccursAt(body, magic, h) <==> OccursAt(c, magic, h - lo)
  {
    assert forall i {:trigger magic[i]} :: 0 <= i < |magic| ==> body[h + i] == c[h - lo + i];
  }

  lemma SameChunk(chunks: seq<seq<byte>>, j: nat, k: nat, g: nat, h: nat, n: nat)
    requires j < |chunks| && k < |chunks| && 0 < n
    requires InChunk(chunks, j, g, n) && InChunk(chunks, k, h, n)
    requires g <= h < g + n
    ensures j == k
  {
    if j < k { OffsetMonotone(chunks, j + 1, k); }
    if k < j { OffsetMonotone(chunks, k + 1, j); }
  }

  lemma {:induction false} ChunkHitsAre(chunks: seq<seq<byte>>, magic: seq<byte>, h: nat)
    ensures h in ChunkHits(chunks, magic) <==> exists k :: 0 <= k < |chunks| && FirstOf(chunks, magic, k, h)
  {
    if chunks != [] {
      var n := |chunks| - 1;
      var front := chunks[..n];
      ChunkHitsAre(front, magic, h);
      forall k | 0 <= k < n ensures FirstOf(chunks, magic, k, h) <==> FirstOf(front, magic, k, h) {
        assert front[..k] == chunks[..k];
      }
      assert h in Shift(FirstHit(chunks[n], magic), |Flatten(front)|) <==> FirstOf(chunks, magic, n, h);
    }
  }

  lemma FirstInChunk(chunks: seq<seq<byte>>, magic: seq<byte>, k: nat, c: nat)
    requires k < |chunks| && FirstOf(chunks, magic, k, c)
    ensures InChunk(chunks, k, c, |magic|) && OccursAt(Flatten(chunks), magic, c)
  {
    ChunkAt(chunks, k);
    OccursInChunk(chunks, magic, k, c);
  }

  lemma FirstIsFirst(chunks: seq<seq<byte>>, magic: seq<byte>, k: nat, h: nat) returns (c: nat)
    requires k < |chunks| && InChunk(chunks, k, h, |magic|) && OccursAt(Flatten(chunks), magic, h)
    ensures c <= h && FirstOf(chunks, magic, k, c)
  {
    OccursInChunk(chunks, magic, k, h);
    c := Offset(chunks, k) + Index(chunks[k], magic);
  }

  lemma PlacedThenSame(chunks: seq<seq<byte>>, magic: seq<byte>)
    requires magic != [] && WellPlaced(chunks, magic)
    ensures Hits(Flatten(chunks), magic) == ChunkHits(chunks, magic)
  {
    var hits := Hits(Flatten(chunks), magic);
    forall c ensures c in hits <==> c in ChunkHits(chunks, magic) {
      ChunkHitsAre(chunks, magic, c);
      if c in hits { PlacedHit(chunks, magic, c); }
      if k :| 0 <= k < |chunks| && FirstOf(chunks, magic, k, c) { PlacedFirst(chunks, magic, k, c); }
    }
  }

  /** Under `WellPlaced`, every occurrence is overlapped by a hit of the scan that lies in one chunk. */
  lemma HitOver(chunks: seq<seq<byte>>, magic: seq<byte>, o: nat) returns (h: nat, j: nat)
    requires magic != [] && WellPlaced(chunks, magic) && OccursAt(Flatten(chunks), magic, o)
    ensures h in Hits(Flatten(chunks), magic) && h <= o < h + |magic| && OccursAt(Flatten(chunks), magic, h)
    ensures j < |chunks| && InChunk(chunks, j, h, |magic|)
  {
    var hits := Hits(Flatten(chunks), magic);
    HitsScanned(Flatten(chunks), magic);
    assert Covered(hits, |magic|, o);
    h :| h in hits && h <= o < h + |magic|;
    j :| 0 <= j < |chunks| && InChunk(chunks, j, h, |magic|);
  }

  lemma PlacedFirst(chunks: seq<seq<byte>>, magic: seq<byte>, k: nat, c: nat)
    requires magic != [] && WellPlaced(chunks, magic) && k < |chunks| && FirstOf(chunks, magic, k, c)
    ensures c in Hits(Flatten(chunks), magic)
  {
    FirstInChunk(chunks, magic, k, c);
    var h, j := HitOver(chunks, magic, c);
    SameChunk(chunks, j, k, h, c, |magic|);
    var first := FirstIsFirst(chunks, magic, k, h);
    assert first == c;
  }

  lemma PlacedHit(chunks: seq<seq<byte>>, magic: seq<byte>, h: nat)
    requires magic != [] && WellPlaced(chunks, magic) && h in Hits(Flatten(chunks), magic)
    ensures exists k :: 0 <= k < |chunks| && FirstOf(chunks, magic, k, h)
  {
    HitsScanned(Flatten(chunks), magic);
    var k :| 0 <= k < |chunks| && InChunk(chunks, k, h, |magic|);
    var c := FirstIsFirst(chunks, magic, k, h);
    PlacedFirst(chunks, magic, k, c);
    FirstInChunk(chunks, magic, k, c);
    assert c == h;
  }

  lemma SameThenPlaced(chunks: seq<seq<byte>>, magic: seq<byte>)
    requires magic != [] && Hits(Flatten(chunks), magic) == ChunkHits(chunks, magic)
    ensures WellPlaced(chunks, magic)
  {
    var n, hits := |magic|, Hits(Flatten(chunks), magic);
    forall h | h in hits
      ensures exists k :: 0 <= k < |chunks| && InChunk(chunks, k, h, n) && FirstOf(chunks, magic, k, h)
    {
      ChunkHitsAre(chunks, magic, h);
      var k :| 0 <= k < |chunks| && FirstOf(chunks, magic, k, h);
      FirstInChunk(chunks, magic, k, h);
    }
    forall g, h, k | g in hits && h in hits && 0 <= k < |chunks| && InChunk(chunks, k, g, n) && InChunk(chunks, k, h, n)
      ensures g == h
    {
      var i :| 0 <= i < |chunks| && InChunk(chunks, i, g, n) && FirstOf(chunks, magic, i, g);
      var j :| 0 <= j < |chunks| && InChunk(chunks, j, h, n) && FirstOf(chunks, magic, j, h);
      SameChunk(chunks, i, k, g, g, n);
      SameChunk(chunks, j, k, h, h, n);
    }
  }

  // ---------------------------------------------------------------------------------------------
  // The main theorem
  // ---------------------------------------------------------------------------------------------

  /** Patching chunk by chunk is whole-file replacement whenever the reads fall well, and, unless the
      patch reproduces the magic string, only then. */
  lemma StreamIsReplaceAll(chunks: seq<seq<byte>>, magic: seq<byte>, patch: seq<byte>)
    requires magic != [] && |patch| <= |magic|
    ensures var same := Flatten(Mapped(Patching(magic, patch), chunks)) == ReplaceAll(Flatten(chunks), magic, Padded(magic, patch));
            && (WellPlaced(chunks, magic) ==> same)
            && (same && Padded(magic, patch) != magic ==> WellPlaced(chunks, magic))
  {
    var body, pad := Flatten(chunks), Padded(magic, patch);
    var hits, own := Hits(body, magic), ChunkHits(chunks, magic);
    var streamed, replaced := Flatten(Mapped(Patching(magic, patch), chunks)), ReplaceAll(body, magic, pad);
    StreamPatches(chunks, magic, patch);
    ReplaceAllPatches(body, magic, pad);
    HitsScanned(body, magic);
    ChunkHitsOccur(chunks, magic);
    if WellPlaced(chunks, magic) {
      PlacedThenSame(chunks, magic);
      PatchedOnce(body, hits, pad, streamed, replaced);
    }
    if streamed == replaced && pad != magic {
      if hits == own {
        SameThenPlaced(chunks, magic);
      } else {
        var s := LeastDifference(hits, own);
        if s in hits {
          PatchedApart(body, magic, pad, hits, own, streamed, s);
        } else {
          PatchedApart(body, magic, pad, own, hits, streamed, s);
        }
      }
    }
  }

  lemma LeastDifference(a: set<nat>, b: set<nat>) returns (s: nat)
    requires a != b
    ensures (s in a) != (s in b) && forall h :: h < s ==> (h in a <==> h in b)
  {
    var d: set<nat> := (a - b) + (b - a);
    var x :| x in d;
    s := x;
    while exists h: nat :: h < s && h in d
      invariant s in d
      decreases s
    {
      var h: nat :| h < s && h in d;
      s := h;
    }
    forall h: nat | h < s ensures h in a <==> h in b {
      assert h !in d;
    }
  }

  /** `Copy` itself: when the source ends at end of file and every write is taken, what the client
      receives is the whole file with each occurrence replaced. */
  lemma CopyReplacesAll(ins: seq<ReadReply>, outs: seq<WriteReply>, magic: seq<byte>, patch: seq<byte>)
    requires magic != [] && |patch| <= |magic| && Padded(magic, patch) != magic
    requires AllTaken(ins, outs)
    ensures Pump(ins, outs, Patching(magic, patch)).accepted == ReplaceAll(Flatten(Chunks(ins)), magic, Padded(magic, patch))
            <==> WellPlaced(Chunks(ins), magic)
  {
    PatchingKeepsLength(magic, patch);
    Exit(ins, outs, Patching(magic, patch));
    StreamIsReplaceAll(Chunks(ins), magic, patch);
  }

  // ---------------------------------------------------------------------------------------------
  // What happens outside those conditions
  // ---------------------------------------------------------------------------------------------

  /** Chunk `b` keeps every byte outside its first occurrence. */
  ghost predicate StaysInside(b: seq<byte>, magic: seq<byte>, patch: seq<byte>) {
    var i := Index(b, magic);
    forall p :: 0 <= p < |b| && !(i <= p < i + |magic|) ==> PatchChunk(b, magic, patch)[p] == b[p]
  }

  /** The patch stays inside the occurrence, in every chunk, exactly when it is no longer than the
      magic string; a longer one, or any patch for an empty magic string, runs over what follows. */
  lemma PatchStaysInside(magic: seq<byte>, patch: seq<byte>)
    ensures (forall b :: StaysInside(b, magic, patch)) <==> |patch| <= |magic|
  {
    if |patch| > |magic| {
      var n := |magic|;
      var other: byte := if patch[n] == 0 then 1 else 0;
      var b := magic + [other];
      assert OccursAt(b, magic, 0) && Index(b, magic) == 0;
      assert PatchChunk(b, magic, patch)[n] == patch[n] != b[n];
      assert !StaysInside(b, magic, patch);
    } else {
      forall b ensures StaysInside(b, magic, patch) {
      }
    }
  }

  /** An occurrence split between two reads goes out unpatched. */
  lemma SplitOccurrenceMissed(a: seq<byte>, b: seq<byte>, patch: seq<byte>)
    requires a != [] && b != [] && |patch| <= |a + b|
    ensures Flatten(Mapped(Patching(a + b, patch), [a, b])) == a + b
    ensures ReplaceAll(a + b, a + b, Padded(a + b, patch)) == Padded(a + b, patch)
  {
    var magic := a + b;
    assert Index(a, magic) == -1 && Index(b, magic) == -1;
    var patched := Mapped(Patching(magic, patch), [a, b]);
    assert patched == [a] + [b];
    FlattenTwo(a, b);
    ReplaceWhole(magic, Padded(magic, patch));
  }

  lemma FlattenTwo(a: seq<byte>, b: seq<byte>)
    ensures Flatten([a] + [b]) == a + b
  {
    FlattenSnoc([a], b);
    assert [a] == [] + [a];
    FlattenSnoc([], a);
  }

  lemma ReplaceWhole(magic: seq<byte>, pad: seq<byte>)
    requires magic != []
    ensures ReplaceAll(magic, magic, pad) == pad
  {
    assert magic[..|magic|] == magic && magic[|magic|..] == [];
    assert ReplaceAll([], magic, pad) == [];
  }
}
