/** Which error the copy loop returns, at every exit. */
module IsoPatchExits {
  import opened Seqs
  import opened IsoPatch
  import opened IsoPatchLaws

  /** The reply to write number `j`, of `n` bytes: after its last reply a writer takes everything. */
  function Reply(outs: seq<WriteReply>, j: nat, n: nat): WriteReply {
    if j < |outs| then outs[j] else WriteReply(n, None)
  }

  /** The chunks that are written at all. */
  function Writes(ins: seq<ReadReply>): seq<seq<byte>>
    decreases |ins|
  {
    if ins == [] then []
    else (if ins[0].data == [] then [] else [ins[0].data]) + if ins[0].err.Some? then [] else Writes(ins[1..])
  }

  /** Write number `j` takes its whole chunk and reports no error. */
  predicate Good(outs: seq<WriteReply>, j: nat, n: nat) { Reply(outs, j, n).err.None? && n <= Reply(outs, j, n).willing }

  lemma ReplyLater(outs: seq<WriteReply>, j: nat, n: nat)
    ensures Reply(LaterWrites(outs), j, n) == Reply(outs, j + 1, n)
    ensures Reply(outs, 0, n) == NextWrite(outs, n)
  {
  }

  /** If every write is good, the error is the source's own, nil for end of file. */
  lemma {:induction false} SourceEnds(ins: seq<ReadReply>, outs: seq<WriteReply>, f: seq<byte> -> seq<byte>)
    requires KeepsLength(f) && forall j :: 0 <= j < |Writes(ins)| ==> Good(outs, j, |Writes(ins)[j]|)
    ensures Pump(ins, outs, f).err == if SourceError(ins) == EOF then None else Some(SourceError(ins))
    decreases |ins|
  {
    if ins != [] && ins[0].data == [] && ins[0].err.None? {
      assert Writes(ins) == Writes(ins[1..]);
      SourceEnds(ins[1..], outs, f);
    } else if ins != [] && ins[0].data != [] {
      var later := Writes(ins[1..]);
      assert Writes(ins)[0] == ins[0].data && Good(outs, 0, |ins[0].data|);
      GoodWrite(ins, outs, f);
      if ins[0].err.None? {
        forall j | 0 <= j < |later| ensures Good(LaterWrites(outs), j, |later[j]|) {
          assert Writes(ins)[j + 1] == later[j];
          assert Good(outs, j + 1, |Writes(ins)[j + 1]|);
          ReplyLater(outs, j, |later[j]|);
        }
        SourceEnds(ins[1..], LaterWrites(outs), f);
      }
    }
  }

  /** If write number `k` is the first that is not good, the error is the one it reports, and a short write
      if it reports none. */
  lemma {:induction false} WriteEnds(ins: seq<ReadReply>, outs: seq<WriteReply>, f: seq<byte> -> seq<byte>, k: nat)
    requires KeepsLength(f) && k < |Writes(ins)| && !Good(outs, k, |Writes(ins)[k]|)
    requires forall j :: 0 <= j < k ==> Good(outs, j, |Writes(ins)[j]|)
    ensures var reply := Reply(outs, k, |Writes(ins)[k]|);
            Pump(ins, outs, f).err == if reply.err.Some? then reply.err else Some(ShortWrite)
    decreases |ins|
  {
    if ins[0].data == [] {
      assert Writes(ins) == Writes(ins[1..]);
      WriteEnds(ins[1..], outs, f, k);
    } else if k == 0 {
      FirstWriteFails(ins, outs, f);
    } else {
      OneWriteOn(ins, outs, k);
      GoodWrite(ins, outs, f);
      WriteEnds(ins[1..], LaterWrites(outs), f, k - 1);
    }
  }

  /** The first write done, the others move up by one. */
  lemma OneWriteOn(ins: seq<ReadReply>, outs: seq<WriteReply>, k: nat)
    requires ins != [] && ins[0].data != [] && 0 < k < |Writes(ins)|
    requires forall j :: 0 <= j < k ==> Good(outs, j, |Writes(ins)[j]|)
    ensures Good(outs, 0, |ins[0].data|) && ins[0].err.None?
    ensures var later := Writes(ins[1..]);
            && k <= |later| && later[k - 1] == Writes(ins)[k]
            && Reply(LaterWrites(outs), k - 1, |later[k - 1]|) == Reply(outs, k, |later[k - 1]|)
            && forall j :: 0 <= j < k - 1 ==> Good(LaterWrites(outs), j, |later[j]|)
  {
    var later := Writes(ins[1..]);
    assert Writes(ins)[0] == ins[0].data;
    assert Writes(ins) == [ins[0].data] + later;
    ReplyLater(outs, k - 1, |later[k - 1]|);
    forall j | 0 <= j < k - 1 ensures Good(LaterWrites(outs), j, |later[j]|) {
      assert Good(outs, j + 1, |Writes(ins)[j + 1]|);
      ReplyLater(outs, j, |later[j]|);
    }
  }

  lemma FirstWriteFails(ins: seq<ReadReply>, outs: seq<WriteReply>, f: seq<byte> -> seq<byte>)
    requires KeepsLength(f) && ins != [] && ins[0].data != [] && !Good(outs, 0, |ins[0].data|)
    ensures Writes(ins) != [] && Writes(ins)[0] == ins[0].data
    ensures var reply := Reply(outs, 0, |ins[0].data|);
            Pump(ins, outs, f).err == if reply.err.Some? then reply.err else Some(ShortWrite)
  {
    assert |f(ins[0].data)| == |ins[0].data|;
  }

  /** After a good write the loop goes on, unless the source has ended. */
  lemma GoodWrite(ins: seq<ReadReply>, outs: seq<WriteReply>, f: seq<byte> -> seq<byte>)
    requires KeepsLength(f) && ins != [] && ins[0].data != [] && Good(outs, 0, |ins[0].data|)
    ensures Writes(ins) == [ins[0].data] + if ins[0].err.Some? then [] else Writes(ins[1..])
    ensures ins[0].err.None? ==> Pump(ins, outs, f).err == Pump(ins[1..], LaterWrites(outs), f).err
    ensures ins[0].err.Some? ==> Pump(ins, outs, f).err == FinalError(ins[0].err.value)
  {
    assert |f(ins[0].data)| == |ins[0].data|;
  }

  /** The error of `Copy` at every exit, for a patch of any length: that of the first write that fails, a
      short write if it only falls short, and the source's own, nil for end of file, if none does. */
  lemma CopyError(ins: seq<ReadReply>, outs: seq<WriteReply>, magic: seq<byte>, patch: seq<byte>)
    ensures var w, err := Writes(ins), Pump(ins, outs, Patching(magic, patch)).err;
            && ((forall j :: 0 <= j < |w| ==> Good(outs, j, |w[j]|)) ==>
                  err == if SourceError(ins) == EOF then None else Some(SourceError(ins)))
            && (forall k | 0 <= k < |w| && !Good(outs, k, |w[k]|) && (forall j :: 0 <= j < k ==> Good(outs, j, |w[j]|)) ::
                  err == if Reply(outs, k, |w[k]|).err.Some? then Reply(outs, k, |w[k]|).err else Some(ShortWrite))
  {
    var w, f := Writes(ins), Patching(magic, patch);
    PatchingKeepsLength(magic, patch);
    if forall j :: 0 <= j < |w| ==> Good(outs, j, |w[j]|) {
      SourceEnds(ins, outs, f);
    }
    forall k | 0 <= k < |w| && !Good(outs, k, |w[k]|) && (forall j :: 0 <= j < k ==> Good(outs, j, |w[j]|))
      ensures Pump(ins, outs, f).err == if Reply(outs, k, |w[k]|).err.Some? then Reply(outs, k, |w[k]|).err else Some(ShortWrite)
    {
      WriteEnds(ins, outs, f, k);
    }
  }
}
