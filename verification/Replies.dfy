/** The output side of a client: the list of reply blocks, and the bookkeeping of partial writes. */
module Replies {
  import opened StoreModel
  import opened Protocol

  const IOV_MAX: nat := 1024

  class ReplyBlock {
    var bytes: Bytes
    var next: ReplyBlock?
    ghost var rank: int  // grows by one from each block to the next

    constructor (bytes: Bytes, ghost rank: int)
      ensures this.bytes == bytes && next == null && this.rank == rank
    {
      this.bytes, next, this.rank := bytes, null, rank;
    }
  }

  lemma {:induction false} JoinedConcat(a: seq<Bytes>, b: seq<Bytes>)
    ensures Joined(a + b) == Joined(a) + Joined(b)
  {
    if b == [] {
      assert a + b == a;
    } else {
      assert (a + b)[..|a + b| - 1] == a + b[..|b| - 1];
      JoinedConcat(a, b[..|b| - 1]);
    }
  }

  lemma JoinedNone()
    ensures Joined([]) == []
  {}

  lemma JoinedOne(a: Bytes)
    ensures Joined([a]) == a
  {
    assert [a][..0] == [];
  }

  lemma JoinedUpTo(parts: seq<Bytes>, k: nat)
    requires k < |parts|
    ensures Joined(parts[..k + 1]) == Joined(parts[..k]) + parts[k]
  {
    assert parts[..k + 1][..k] == parts[..k];
  }

  lemma JoinedAround(parts: seq<Bytes>, k: nat)
    requires k < |parts|
    ensures Joined(parts) == Joined(parts[..k]) + parts[k] + Joined(parts[k + 1..])
    ensures Joined(parts[..k + 1]) == Joined(parts[..k]) + parts[k]
  {
    hide Joined;
    JoinedUpTo(parts, k);
    JoinedConcat(parts[..k + 1], parts[k + 1..]);
    assert parts == parts[..k + 1] + parts[k + 1..];
  }

  // What is left of the parts when the write stopped after `written` bytes of part k.
  function Rest(parts: seq<Bytes>, k: nat, written: nat): seq<Bytes>
    requires k < |parts| && written <= |parts[k]|
  {
    [parts[k][written..]] + parts[k + 1..]
  }

  lemma CutAt<T>(s: seq<T>, k: nat, r: seq<T>)
    requires k < |s| && |r| > 0 && r[1..] == s[k + 1..]
    ensures |r| == |s| - k && forall i | 1 <= i < |r| :: r[i] == s[k + i]
  {
    forall i | 1 <= i < |r| ensures r[i] == s[k + i] { assert r[i] == r[1..][i - 1]; }
  }

  lemma RestIsTail(parts: seq<Bytes>, k: nat, written: nat)
    requires k < |parts| && written <= |parts[k]|
    ensures |Joined(parts[..k])| + written <= |Joined(parts)|
    ensures Joined(Rest(parts, k, written)) == Joined(parts)[|Joined(parts[..k])| + written..]
  {
    hide Joined;
    JoinedAround(parts, k);
    JoinedConcat([parts[k][written..]], parts[k + 1..]);
    JoinedOne(parts[k][written..]);
  }

  // The i-th block of a list, or null at its end.
  function At(blocks: seq<ReplyBlock>, i: nat): ReplyBlock? {
    if i < |blocks| then blocks[i] else null
  }

  // From block k on, the blocks hold the parts and are linked; the first of all has rank `first`.
  ghost predicate Tail(blocks: seq<ReplyBlock>, parts: seq<Bytes>, k: nat, first: int)
    reads blocks
  {
    && |parts| == |blocks|
    && (forall i | k <= i < |blocks| :: blocks[i].rank == first + i && blocks[i].bytes == parts[i])
    && (forall i | k <= i < |blocks| :: blocks[i].next == At(blocks, i + 1))
  }

  lemma TailOfCut(blocks: seq<ReplyBlock>, parts: seq<Bytes>, k: nat, first: int, head: ReplyBlock, written: nat,
                  cut: seq<ReplyBlock>, repr: set<object>)
    requires k < |parts| && written <= |parts[k]| && Tail(blocks, parts, k + 1, first)
    requires cut == [head] + blocks[k + 1..]
    requires head.rank == first + k && head.bytes == parts[k][written..] && head.next == At(blocks, k + 1)
    requires head in repr && forall i | 0 <= i < |blocks| :: blocks[i] in repr
    ensures Tail(cut, Rest(parts, k, written), 0, first + k) && forall i | 0 <= i < |cut| :: cut[i] in repr
  {
    CutAt(blocks, k, cut);
    CutAt(parts, k, Rest(parts, k, written));
  }

  lemma TailHas(blocks: seq<ReplyBlock>, parts: seq<Bytes>, k: nat, first: int)
    requires Tail(blocks, parts, k, first) == true
    ensures |parts| == |blocks|
    ensures forall i | k <= i < |blocks| :: blocks[i].rank == first + i && blocks[i].bytes == parts[i]
    ensures forall i | k <= i < |blocks| - 1 :: blocks[i].next == blocks[i + 1]
    ensures k < |blocks| ==> blocks[|blocks| - 1].next == null
  {}

  lemma TailIf(blocks: seq<ReplyBlock>, parts: seq<Bytes>, k: nat, first: int)
    requires |parts| == |blocks|
    requires forall i | k <= i < |blocks| :: blocks[i].rank == first + i && blocks[i].bytes == parts[i]
    requires forall i | k <= i < |blocks| - 1 :: blocks[i].next == blocks[i + 1]
    requires k < |blocks| ==> blocks[|blocks| - 1].next == null
    ensures Tail(blocks, parts, k, first)
  {}

  lemma TailOfAppended(blocks: seq<ReplyBlock>, parts: seq<Bytes>, first: int, element: ReplyBlock)
    requires |parts| == |blocks| && element.rank == first + |blocks| && element.next == null
    requires forall i | 0 <= i < |blocks| :: blocks[i].rank == first + i && blocks[i].bytes == parts[i]
    requires forall i | 0 <= i < |blocks| - 1 :: blocks[i].next == blocks[i + 1]
    requires blocks != [] ==> blocks[|blocks| - 1].next == element
    ensures Tail(blocks + [element], parts + [element.bytes], 0, first)
  {}

  class ReplyList {
    var reply: ReplyBlock?
    var replyTail: ReplyBlock?
    var replyRemaining: ReplyBlock?
    ghost var blocks: seq<ReplyBlock>
    ghost var parts: seq<Bytes>  // the bytes of the blocks
    ghost var first: int  // the rank of the first block
    ghost var Repr: set<object>

    ghost predicate Valid()
      reads this, Repr
    {
      && this in Repr && |parts| == |blocks|
      && (forall i | 0 <= i < |blocks| :: blocks[i] in Repr) && Tail(blocks, parts, 0, first)
      && reply == At(blocks, 0)
      && (replyRemaining == null || replyRemaining == reply)
      && (replyRemaining == null && blocks != [] ==> replyTail == blocks[|blocks| - 1])
    }

    /** The bytes that are still to be sent. */
    ghost function Pending(): Bytes
      reads this
    {
      Joined(parts)
    }

    constructor ()
      ensures Valid() && fresh(Repr) && this in Repr && parts == [] && blocks == [] && replyRemaining == null
    {
      reply, replyTail, replyRemaining := null, null, null;
      blocks, parts, first := [], [], 0;
      Repr := {this};
    }

    /** Appends a block; not while a reply is being written. */
    method AppendToReply(data: Bytes)
      requires Valid() && replyRemaining == null
      modifies Repr
      ensures Valid() && replyRemaining == null && old(Repr) <= Repr && fresh(Repr - old(Repr))
      ensures parts == old(parts) + [data] && Pending() == old(Pending()) + data && |blocks| == old(|blocks|) + 1
    {
      hide Joined, Tail;
      ghost var bs := blocks;
      TailHas(blocks, parts, 0, first);
      var element := new ReplyBlock(data, first + |blocks|);
      if reply == null {
        reply := element;
        replyTail := element;
      } else {
        replyTail.next := element;
        replyTail := element;
      }
      TailOfAppended(bs, parts, first, element);
      blocks, parts, Repr := blocks + [element], parts + [data], Repr + {element};
      JoinedConcat(old(parts), [data]);
      JoinedOne(data);
    }

    /** Appends a number in decimal digits. */
    method AppendIntegerToReply(n: int)
      requires Valid() && replyRemaining == null
      modifies Repr
      ensures Valid() && replyRemaining == null && old(Repr) <= Repr && fresh(Repr - old(Repr))
      ensures Pending() == old(Pending()) + if n < 0 then [45] + Decimal(-n) else Decimal(n)
      ensures |blocks| == old(|blocks|) + 1
    {
      AppendToReply(if n < 0 then [45] + Decimal(-n) else Decimal(n));
    }

    method BeginWriting()
      requires Valid() && replyRemaining == null
      modifies `replyRemaining
      ensures Valid() && replyRemaining == reply
    {
      replyRemaining := reply;
    }

    /** The vector handed to the socket: one entry for each remaining block. */
    method Gather() returns (iov: array<Bytes>, iovc: nat)
      requires Valid() && replyRemaining == reply && |blocks| <= IOV_MAX
      ensures fresh(iov) && iov.Length == IOV_MAX && iovc <= IOV_MAX && iov[..iovc] == parts
    {
      iov, iovc := new Bytes[IOV_MAX](_ => []), 0;
      var block := replyRemaining;
      while block != null
        invariant iovc <= |blocks| && block == At(blocks, iovc)
        invariant iov[..iovc] == parts[..iovc]
        decreases |blocks| - iovc
      {
        iov[iovc] := block.bytes;
        iovc := iovc + 1;
        block := block.next;
      }
    }

    /** Makes the head block hold what is left of the given block, and drops those in between. */
    method CutHead(block: ReplyBlock, ghost k: nat, written: nat)
      requires Valid() && replyRemaining == reply && k < |blocks| && block == blocks[k] && written <= |parts[k]|
      modifies blocks[0], `blocks, `parts, `first
      ensures Valid() && |blocks| <= |old(blocks)|
      ensures parts == Rest(old(parts), k, written)
    {
      hide Tail, Joined;
      ghost var bs, ps, head := blocks, parts, blocks[0];
      TailHas(bs, ps, 0, first);
      var next := block.next;
      replyRemaining.bytes := block.bytes[written..];
      replyRemaining.next := next;
      head.rank := first + k;
      TailIf(bs, ps, k + 1, first);
      TailOfCut(bs, ps, k, first, head, written, [head] + bs[k + 1..], Repr);
      parts, blocks, first := Rest(ps, k, written), [head] + bs[k + 1..], first + k;
    }

    /** Where a write of the given number of bytes ended: within `block`, after `written` bytes of it. */
    method FindEnd(accepted: nat) returns (block: ReplyBlock?, written: nat, ghost k: nat)
      requires Valid() && replyRemaining == reply && accepted <= |Pending()|
      ensures k <= |parts| == |blocks| && block == At(blocks, k) && |Joined(parts[..k])| + written == accepted
      ensures block != null ==> written < |parts[k]|
    {
      hide Joined;
      block, written, k := replyRemaining, accepted, 0;
      JoinedNone();
      assert parts[..0] == [];
      while block != null && written >= |block.bytes|
        invariant k <= |blocks| && block == At(blocks, k)
        invariant |Joined(parts[..k])| + written == accepted
        decreases |blocks| - k
      {
        JoinedUpTo(parts, k);
        block, written, k := block.next, written - |block.bytes|, k + 1;
      }
    }

    /** After a write that took `accepted` of the pending bytes: what it took and what is left make up what was
        pending, and it is complete exactly when nothing is left. */
    method Written(accepted: nat) returns (complete: bool)
      requires Valid() && replyRemaining == reply && accepted <= |Pending()|
      modifies Repr
      ensures Valid() && replyRemaining == reply && Repr == old(Repr)
      ensures complete <==> accepted == |old(Pending())|
      ensures !complete ==> Pending() == old(Pending())[accepted..]
      ensures |blocks| <= old(|blocks|)
    {
      hide Joined, Rest, Tail;
      ghost var k;
      var block, written;
      block, written, k := FindEnd(accepted);
      if block == null {
        assert parts[..k] == parts;
        complete := true;
      } else {
        RestIsTail(parts, k, written);
        JoinedAround(parts, k);
        CutHead(block, k, written);
        complete := false;
      }
    }

    /** Unlinks all blocks. */
    method ResetReplyList()
      requires Valid()
      modifies this
      ensures Valid() && Repr == old(Repr) && parts == [] && blocks == [] && replyRemaining == null
    {
      var current := reply;
      ghost var k := 0;
      while current != null
        invariant k <= |blocks| && current == At(blocks, k)
        decreases |blocks| - k
      {
        current, k := current.next, k + 1;
      }
      reply, replyTail, replyRemaining := null, null, null;
      blocks, parts := [], [];
    }
  }
}
