/** The tree of blocks that are not yet final: branches, descendants, and which block is preferred. */
module Forks {

  /** A block id starts with the block number. */
  datatype Id = Id(num: nat, hash: nat)

  datatype Block = Block(id: Id, prev: Id, lib: nat, valid: bool)

  type Blocks = map<Id, Block>

  /** Blocks are filed under their ids and are numbered one above the block before them. */
  ghost predicate Numbered(blocks: Blocks) {
    forall b :: b in blocks ==> blocks[b].id == b && b.num == blocks[b].prev.num + 1
  }

  /** Every block is linked, through blocks of the tree, to the root, which is not one of them. */
  ghost predicate Tree(root: Id, blocks: Blocks) {
    Numbered(blocks) && root !in blocks && forall b :: b in blocks ==> blocks[b].prev == root || blocks[b].prev in blocks
  }

  predicate Known(root: Id, blocks: Blocks, id: Id) {
    id == root || id in blocks
  }

  /** The blocks from `id` down to the one on top of the root. */
  ghost function Path(root: Id, blocks: Blocks, id: Id): (p: seq<Id>)
    requires Tree(root, blocks) && Known(root, blocks, id)
    ensures id == root <==> p == []
    ensures forall i :: 0 <= i < |p| ==> p[i] in blocks
    decreases id.num
  {
    if id == root then [] else [id] + Path(root, blocks, blocks[id].prev)
  }

  /** Block numbers count down along a path, to one above the root. */
  lemma {:induction false} PathNums(root: Id, blocks: Blocks, id: Id)
    requires Tree(root, blocks) && Known(root, blocks, id)
    ensures var p := Path(root, blocks, id);
            id.num == root.num + |p| && forall i :: 0 <= i < |p| ==> p[i].num == id.num - i
    decreases id.num
  {
    if id != root {
      PathNums(root, blocks, blocks[id].prev);
    }
  }

  lemma {:induction false} NextOnPath(root: Id, blocks: Blocks, h: Id, s: Id)
    requires Tree(root, blocks) && Known(root, blocks, h) && s in blocks && s in Path(root, blocks, h)
    ensures blocks[s].prev == root || blocks[s].prev in Path(root, blocks, h)
    decreases h.num
  {
    if h != s {
      NextOnPath(root, blocks, blocks[h].prev, s);
    }
  }

  // ----- descendants

  /** `b` is `id`, or is reached from it through stored blocks. */
  ghost predicate Under(blocks: Blocks, b: Id, id: Id)
    requires Numbered(blocks)
    decreases b.num
  {
    b in blocks && (b == id || blocks[b].prev == id || Under(blocks, blocks[b].prev, id))
  }

  lemma {:induction false} UnderNum(blocks: Blocks, b: Id, id: Id)
    requires Numbered(blocks) && Under(blocks, b, id)
    ensures b.num >= id.num && (b.num == id.num ==> b == id)
    decreases b.num
  {
    if b != id && blocks[b].prev != id {
      UnderNum(blocks, blocks[b].prev, id);
    }
  }

  /** In a tree, the blocks under a known block are those with it on their path. */
  lemma {:induction false} UnderIsOnPath(root: Id, blocks: Blocks, b: Id, id: Id)
    requires Tree(root, blocks) && b in blocks && Known(root, blocks, id)
    ensures Under(blocks, b, id) <==> id == root || id in Path(root, blocks, b)
    decreases b.num
  {
    var prev := blocks[b].prev;
    if prev != root {
      UnderIsOnPath(root, blocks, prev, id);
    }
  }

  // ----- the queue of a removal

  ghost predicate Distinct(s: seq<Id>) {
    forall i, j :: 0 <= i < j < |s| ==> s[i] != s[j]
  }

  ghost predicate ChildrenOf(blocks: Blocks, parent: Id, kids: seq<Id>) {
    Distinct(kids) && forall c :: c in kids <==> c in blocks && blocks[c].prev == parent
  }

  /** After its first entry, `id`, the queue holds only blocks under it, children of the first `n` entries. */
  ghost predicate AllUnder(blocks: Blocks, id: Id, queue: seq<Id>, n: nat)
    requires Numbered(blocks) && n <= |queue|
  {
    forall k :: 0 < k < |queue| ==> Under(blocks, queue[k], id) && queue[k] != id && blocks[queue[k]].prev in queue[..n]
  }

  /** The children of the first `n` entries are in the queue. */
  ghost predicate HasChildren(blocks: Blocks, queue: seq<Id>, n: nat)
    requires n <= |queue|
  {
    forall c :: c in blocks && blocks[c].prev in queue[..n] ==> c in queue
  }

  /** The queue of a removal when `n` entries have been looked at: each block once. */
  ghost predicate Queued(blocks: Blocks, id: Id, queue: seq<Id>, n: nat)
    requires Numbered(blocks)
  {
    && n <= |queue| && |queue| > 0 && queue[0] == id && Distinct(queue)
    && AllUnder(blocks, id, queue, n) && HasChildren(blocks, queue, n)
  }

  lemma QueueStep(blocks: Blocks, id: Id, queue: seq<Id>, n: nat, kids: seq<Id>)
    requires Numbered(blocks) && n < |queue| && Queued(blocks, id, queue, n) && ChildrenOf(blocks, queue[n], kids)
    ensures Queued(blocks, id, queue + kids, n + 1)
  {
    QueueStaysUnder(blocks, id, queue, n, kids);
    QueueGetsChildren(blocks, queue, n, kids);
    assert Distinct(queue + kids) by {
      forall c | c in kids
        ensures c !in queue
      {
        KidIsNew(blocks, id, queue, n, c);
      }
      DistinctAppend(queue, kids);
    }
  }

  lemma QueueStaysUnder(blocks: Blocks, id: Id, queue: seq<Id>, n: nat, kids: seq<Id>)
    requires Numbered(blocks) && n < |queue| && Queued(blocks, id, queue, n) && ChildrenOf(blocks, queue[n], kids)
    ensures AllUnder(blocks, id, queue + kids, n + 1)
  {
    forall k | 0 < k < |queue + kids|
      ensures var c := (queue + kids)[k]; Under(blocks, c, id) && c != id && blocks[c].prev in (queue + kids)[..n + 1]
    {
      EntryStaysUnder(blocks, id, queue, n, kids, k);
      InFront(queue, kids, n, blocks[(queue + kids)[k]].prev);
    }
  }

  lemma InFront(s: seq<Id>, t: seq<Id>, n: nat, x: Id)
    requires n < |s| && (x in s[..n] || x == s[n])
    ensures x in (s + t)[..n + 1]
  {
    assert (s + t)[..n + 1] == s[..n] + [s[n]];
  }

  lemma EntryStaysUnder(blocks: Blocks, id: Id, queue: seq<Id>, n: nat, kids: seq<Id>, k: nat)
    requires Numbered(blocks) && n < |queue| && Queued(blocks, id, queue, n) && ChildrenOf(blocks, queue[n], kids)
    requires 0 < k < |queue| + |kids|
    ensures var c := (queue + kids)[k];
            Under(blocks, c, id) && c != id && (blocks[c].prev in queue[..n] || blocks[c].prev == queue[n])
  {
    if k >= |queue| {
      var c := kids[k - |queue|];
      assert c in kids;
      KidIsNew(blocks, id, queue, n, c);
    }
  }

  lemma QueueGetsChildren(blocks: Blocks, queue: seq<Id>, n: nat, kids: seq<Id>)
    requires n < |queue| && HasChildren(blocks, queue, n) && ChildrenOf(blocks, queue[n], kids)
    ensures HasChildren(blocks, queue + kids, n + 1)
  {
    assert (queue + kids)[..n + 1] == queue[..n] + [queue[n]];
  }

  lemma DistinctAppend(s: seq<Id>, t: seq<Id>)
    requires Distinct(s) && Distinct(t) && forall c :: c in t ==> c !in s
    ensures Distinct(s + t)
  {
    forall i, j | 0 <= i < j < |s + t|
      ensures (s + t)[i] != (s + t)[j]
    {
      if i < |s| <= j {
        assert (s + t)[j] in t;
      }
    }
  }

  lemma KidIsNew(blocks: Blocks, id: Id, queue: seq<Id>, n: nat, c: Id)
    requires Numbered(blocks) && n < |queue| && Queued(blocks, id, queue, n)
    requires c in blocks && blocks[c].prev == queue[n]
    ensures c !in queue && Under(blocks, c, id) && c != id
  {
    if n > 0 {
      UnderNum(blocks, queue[n], id);
    }
  }

  lemma {:induction false} UnderIsQueued(blocks: Blocks, id: Id, queue: seq<Id>, b: Id)
    requires Numbered(blocks) && Queued(blocks, id, queue, |queue|) && Under(blocks, b, id)
    ensures b in queue
    decreases b.num
  {
    assert queue[..|queue|] == queue;
    if b != id && blocks[b].prev != id {
      UnderIsQueued(blocks, id, queue, blocks[b].prev);
    }
  }

  /** In the end the queue is `id` and exactly the blocks under it. */
  lemma QueueIsUnder(blocks: Blocks, id: Id, queue: seq<Id>)
    requires Numbered(blocks) && Queued(blocks, id, queue, |queue|)
    ensures forall b :: Under(blocks, b, id) ==> b in queue
    ensures forall b :: b in queue && b in blocks ==> Under(blocks, b, id)
    ensures forall b :: b in queue ==> b == id || Under(blocks, b, id)
  {
    forall b | Under(blocks, b, id)
      ensures b in queue
    {
      UnderIsQueued(blocks, id, queue, b);
    }
  }

  lemma NextInQueue(blocks: Blocks, id: Id, queue: seq<Id>, n: nat)
    requires Numbered(blocks) && n < |queue| && Queued(blocks, id, queue, n)
    ensures queue[n] in blocks.Keys + {id} && queue[n] !in queue[..n]
    ensures queue[n] == id || Under(blocks, queue[n], id)
  {
    if n > 0 {
      assert Under(blocks, queue[n], id);
    }
  }

  /** Exactly the blocks under `id` are gone. */
  ghost predicate Pruned(blocks: Blocks, id: Id, rest: Blocks)
    requires Numbered(blocks)
  {
    && (forall b :: b in rest <==> b in blocks && !Under(blocks, b, id))
    && (forall b :: b in rest ==> rest[b] == blocks[b])
  }

  /** What is left of a tree when a block and all that is under it goes. */
  lemma PrunedIsTree(root: Id, blocks: Blocks, id: Id, rest: Blocks)
    requires Tree(root, blocks) && Pruned(blocks, id, rest)
    ensures Tree(root, rest)
  {
    forall b | b in rest
      ensures rest[b].prev == root || rest[b].prev in rest
    {
      assert !Under(blocks, b, id);
    }
  }

  // ----- moving the root

  /** The ids from `b` through the tree to the root itself. */
  ghost function Chain(root: Id, blocks: Blocks, b: Id): seq<Id>
    requires Tree(root, blocks) && Known(root, blocks, b)
  {
    Path(root, blocks, b) + [root]
  }

  lemma ChainOf(root: Id, blocks: Blocks, b: Id)
    requires Tree(root, blocks) && b in blocks
    ensures Chain(root, blocks, b) == [b] + Chain(root, blocks, blocks[b].prev)
  {}

  lemma ChainStep(root: Id, blocks: Blocks, done: seq<Id>, c: Id)
    requires Tree(root, blocks) && Known(root, blocks, c)
    ensures done + Chain(root, blocks, c) ==
            (done + [c]) + if c == root then [] else Chain(root, blocks, blocks[c].prev)
  {
    if c != root {
      ChainOf(root, blocks, c);
      Regroup(done, c, Chain(root, blocks, blocks[c].prev));
    } else {
      assert Chain(root, blocks, c) == [root];
    }
  }

  lemma Regroup(a: seq<Id>, c: Id, b: seq<Id>)
    ensures a + ([c] + b) == (a + [c]) + b
  {}

  /** The blocks left when `id` is taken out and the blocks under each of `gone` are removed,
      where `gone` are ids below `id`: everything above `id`, and every branch not yet reached. */
  ghost predicate Left(root: Id, blocks: Blocks, id: Id, gone: seq<Id>, rest: Blocks)
    requires Tree(root, blocks)
  {
    && (forall b :: b in rest ==> b in blocks && rest[b] == blocks[b])
    && (forall b :: b in blocks ==> (b in rest <==> Stays(root, blocks, id, gone, b)))
  }

  ghost predicate Stays(root: Id, blocks: Blocks, id: Id, gone: seq<Id>, b: Id)
    requires Tree(root, blocks) && b in blocks
  {
    b != id && (id in Path(root, blocks, b) || forall x :: x in gone ==> x !in Chain(root, blocks, b))
  }

  /** Removing the next ancestor of `id` takes exactly the branches that leave the chain there. */
  lemma {:induction false} UnderLeft(root: Id, blocks: Blocks, id: Id, gone: seq<Id>, rest: Blocks, b: Id, x: Id)
    requires Tree(root, blocks) && id in blocks && Left(root, blocks, id, gone, rest) && Numbered(rest)
    requires b in rest && Known(root, blocks, x) && x.num < id.num
    ensures Under(rest, b, x) <==> id !in Path(root, blocks, b) && x in Chain(root, blocks, b)
    decreases b.num
  {
    var c := blocks[b].prev;
    ChainOf(root, blocks, b);
    assert Stays(root, blocks, id, gone, b);
    if b == x || c == x {
      PathNums(root, blocks, b);
      PathNums(root, blocks, c);
    } else if c in rest {
      UnderLeft(root, blocks, id, gone, rest, c, x);
    } else if c == root {
    } else {
      NotLeft(root, blocks, id, gone, b);
    }
  }

  lemma NotLeft(root: Id, blocks: Blocks, id: Id, gone: seq<Id>, b: Id)
    requires Tree(root, blocks) && id in blocks && b in blocks && blocks[b].prev in blocks
    requires Stays(root, blocks, id, gone, b) && !Stays(root, blocks, id, gone, blocks[b].prev)
    ensures blocks[b].prev == id && id in Path(root, blocks, b)
  {
    ChainOf(root, blocks, b);
    var c := blocks[b].prev;
    assert Path(root, blocks, b) == [b] + Path(root, blocks, c);
    assert Path(root, blocks, b)[1] == c;
  }

  lemma LeftStep(root: Id, blocks: Blocks, id: Id, gone: seq<Id>, rest: Blocks, x: Id, after: Blocks)
    requires Tree(root, blocks) && id in blocks && Left(root, blocks, id, gone, rest) && Numbered(rest)
    requires Known(root, blocks, x) && x.num < id.num && Pruned(rest, x, after)
    ensures Left(root, blocks, id, gone + [x], after)
  {
    forall b | b in blocks
      ensures b in after <==> Stays(root, blocks, id, gone + [x], b)
    {
      if b in rest {
        UnderLeft(root, blocks, id, gone, rest, b, x);
      }
    }
  }

  /** The blocks below `id` on its chain, and the root. */
  lemma AncestorOf(root: Id, blocks: Blocks, id: Id, x: Id)
    requires Tree(root, blocks) && id in blocks && x in Chain(root, blocks, blocks[id].prev)
    ensures Known(root, blocks, x) && x.num < id.num
  {
    PathNums(root, blocks, blocks[id].prev);
  }

  ghost predicate AtOrAbove(root: Id, blocks: Blocks, id: Id, b: Id)
    requires Tree(root, blocks) && Known(root, blocks, b)
  {
    b == id || id in Path(root, blocks, b)
  }

  /** The head is not in the way of removing `gone`. */
  ghost predicate Clear(root: Id, blocks: Blocks, id: Id, gone: seq<Id>, head: Id)
    requires Tree(root, blocks) && Known(root, blocks, head)
  {
    AtOrAbove(root, blocks, id, head) || forall x :: x in gone ==> x !in Chain(root, blocks, head)
  }

  /** Removing the next ancestor succeeds when the head is at or above `id`, and when it succeeds
      the head is still clear. */
  lemma ClearStep(root: Id, blocks: Blocks, id: Id, gone: seq<Id>, rest: Blocks, head: Id, x: Id)
    requires Tree(root, blocks) && id in blocks && Left(root, blocks, id, gone, rest) && Numbered(rest)
    requires Known(root, blocks, head) && Clear(root, blocks, id, gone, head)
    requires Known(root, blocks, x) && x.num < id.num
    ensures AtOrAbove(root, blocks, id, head) ==> head != x && !Under(rest, head, x)
    ensures head != x && !Under(rest, head, x) ==> Clear(root, blocks, id, gone + [x], head)
  {
    if AtOrAbove(root, blocks, id, head) {
      HeadAbove(root, blocks, id, gone, rest, head, x);
    } else if head != x && !Under(rest, head, x) {
      HeadElsewhere(root, blocks, id, gone, rest, head, x);
    }
  }

  /** Once the root is among the removed, only a head at or above `id` is clear. */
  lemma ClearOfRoot(root: Id, blocks: Blocks, id: Id, gone: seq<Id>, head: Id)
    requires Tree(root, blocks) && Known(root, blocks, head) && root in gone && Clear(root, blocks, id, gone, head)
    ensures AtOrAbove(root, blocks, id, head)
  {
    assert Chain(root, blocks, head)[|Path(root, blocks, head)|] == root;
  }

  /** A head that is `id` or above it is never in the way. */
  lemma HeadAbove(root: Id, blocks: Blocks, id: Id, gone: seq<Id>, rest: Blocks, head: Id, x: Id)
    requires Tree(root, blocks) && id in blocks && Left(root, blocks, id, gone, rest) && Numbered(rest)
    requires Known(root, blocks, head) && AtOrAbove(root, blocks, id, head)
    requires Known(root, blocks, x) && x.num < id.num
    ensures head != x && !Under(rest, head, x)
  {
    PathNums(root, blocks, head);
    if head in rest {
      UnderLeft(root, blocks, id, gone, rest, head, x);
    }
  }

  /** Any other head is met at the latest when the chain of `id` reaches the head's own chain. */
  lemma HeadElsewhere(root: Id, blocks: Blocks, id: Id, gone: seq<Id>, rest: Blocks, head: Id, x: Id)
    requires Tree(root, blocks) && id in blocks && Left(root, blocks, id, gone, rest) && Numbered(rest)
    requires Known(root, blocks, head) && !AtOrAbove(root, blocks, id, head)
    requires forall y :: y in gone ==> y !in Chain(root, blocks, head)
    requires Known(root, blocks, x) && x.num < id.num
    requires head != x && !Under(rest, head, x)
    ensures x !in Chain(root, blocks, head)
  {
    if head != root {
      assert Stays(root, blocks, id, gone, head);
      UnderLeft(root, blocks, id, gone, rest, head, x);
    }
  }

  /** In the end exactly the blocks above `id` are left, and they are a tree on it. */
  lemma AdvancedTree(root: Id, blocks: Blocks, id: Id, gone: seq<Id>, rest: Blocks)
    requires Tree(root, blocks) && id in blocks && root in gone && Left(root, blocks, id, gone, rest)
    ensures forall b :: b in rest <==> b in blocks && b != id && id in Path(root, blocks, b)
    ensures Tree(id, rest)
  {
    forall b | b in blocks
      ensures b in rest <==> b != id && id in Path(root, blocks, b)
    {
      assert Chain(root, blocks, b)[|Path(root, blocks, b)|] == root;
    }
    forall b | b in rest
      ensures rest[b].prev == id || rest[b].prev in rest
    {
      assert Path(root, blocks, b) == [b] + Path(root, blocks, blocks[b].prev);
    }
  }

  lemma AdvancedHead(root: Block, blocks: Blocks, id: Id, rest: Blocks, head: Id)
    requires Tree(root.id, blocks) && HeadIsBest(root, blocks, head) && id in blocks
    requires AtOrAbove(root.id, blocks, id, head)
    requires forall b :: b in rest <==> b in blocks && b != id && id in Path(root.id, blocks, b)
    requires forall b :: b in rest ==> rest[b] == blocks[b]
    ensures HeadIsBest(blocks[id], rest, head)
  {
    assert head != root.id;
    assert BlockOf(blocks[id], rest, head) == blocks[head];
  }

  /** The removal of the ancestors of `id`, after `k` of them. */
  ghost predicate Advancing(root: Id, blocks: Blocks, id: Id, gone: seq<Id>, k: nat, rest: Blocks, head: Id)
    requires Tree(root, blocks) && id in blocks && Known(root, blocks, head)
  {
    && k <= |gone| && gone == Chain(root, blocks, blocks[id].prev) && Numbered(rest)
    && Left(root, blocks, id, gone[..k], rest) && Clear(root, blocks, id, gone[..k], head)
  }

  lemma AdvancingStart(root: Id, blocks: Blocks, id: Id, gone: seq<Id>, rest: Blocks, head: Id)
    requires Tree(root, blocks) && id in blocks && Known(root, blocks, head)
    requires gone == Chain(root, blocks, blocks[id].prev) && rest == blocks - {id}
    ensures Advancing(root, blocks, id, gone, 0, rest, head)
  {}

  /** The next removal does not meet a head at or above `id`. */
  lemma AdvancingClear(root: Id, blocks: Blocks, id: Id, gone: seq<Id>, k: nat, rest: Blocks, head: Id)
    requires Tree(root, blocks) && id in blocks && Known(root, blocks, head)
    requires Advancing(root, blocks, id, gone, k, rest, head) && k < |gone|
    ensures id !in rest
    ensures AtOrAbove(root, blocks, id, head) ==> head != gone[k] && !Under(rest, head, gone[k])
    ensures head != gone[k] && !Under(rest, head, gone[k]) ==> Clear(root, blocks, id, gone[..k] + [gone[k]], head)
  {
    AncestorOf(root, blocks, id, gone[k]);
    ClearStep(root, blocks, id, gone[..k], rest, head, gone[k]);
  }

  /** How far the removal got when it met the head: every branch that leaves the chain of `id` above
      the first block it shares with the head's chain is gone, `id` itself is out, and all else is
      there, the orphans above `id` included. */
  ghost predicate Halted(root: Id, blocks: Blocks, id: Id, head: Id, rest: Blocks)
    requires Tree(root, blocks) && id in blocks && Known(root, blocks, head)
  {
    var gone := Chain(root, blocks, blocks[id].prev);
    exists k :: 0 <= k < |gone| && Left(root, blocks, id, gone[..k], rest) && MeetsFirst(gone, k, Chain(root, blocks, head))
  }

  /** Entry `k` is the first one on the other chain. */
  ghost predicate MeetsFirst(gone: seq<Id>, k: nat, chain: seq<Id>) {
    k < |gone| && gone[k] in chain && forall x :: x in gone[..k] ==> x !in chain
  }

  lemma AdvancingHalts(root: Id, blocks: Blocks, id: Id, gone: seq<Id>, k: nat, rest: Blocks, head: Id)
    requires Tree(root, blocks) && id in blocks && Known(root, blocks, head)
    requires Advancing(root, blocks, id, gone, k, rest, head) && k < |gone|
    requires head == gone[k] || Under(rest, head, gone[k])
    ensures Halted(root, blocks, id, head, rest)
  {
    AdvancingClear(root, blocks, id, gone, k, rest, head);
    AncestorOf(root, blocks, id, gone[k]);
    assert gone[k] in Chain(root, blocks, head) by {
      if head == gone[k] {
        assert Chain(root, blocks, head)[0] == head;
      } else {
        UnderLeft(root, blocks, id, gone[..k], rest, head, gone[k]);
      }
    }
    assert MeetsFirst(gone, k, Chain(root, blocks, head));
  }

  lemma AdvancingLeft(root: Id, blocks: Blocks, id: Id, gone: seq<Id>, k: nat, rest: Blocks, head: Id, after: Blocks)
    requires Tree(root, blocks) && id in blocks && Known(root, blocks, head)
    requires Advancing(root, blocks, id, gone, k, rest, head) && k < |gone| && Pruned(rest, gone[k], after)
    ensures Left(root, blocks, id, gone[..k] + [gone[k]], after) && Numbered(after)
    ensures gone == Chain(root, blocks, blocks[id].prev)
  {
    AncestorOf(root, blocks, id, gone[k]);
    LeftStep(root, blocks, id, gone[..k], rest, gone[k], after);
    PrunedIsNumbered(rest, gone[k], after);
  }

  lemma AdvancingFrom(root: Id, blocks: Blocks, id: Id, gone: seq<Id>, k: nat, rest: Blocks, head: Id)
    requires Tree(root, blocks) && id in blocks && Known(root, blocks, head) && k < |gone|
    requires gone == Chain(root, blocks, blocks[id].prev) && Numbered(rest)
    requires Left(root, blocks, id, gone[..k] + [gone[k]], rest) && Clear(root, blocks, id, gone[..k] + [gone[k]], head)
    ensures Advancing(root, blocks, id, gone, k + 1, rest, head)
  {
    OneMore(gone, k);
  }

  lemma OneMore(s: seq<Id>, k: nat)
    requires k < |s|
    ensures s[..k + 1] == s[..k] + [s[k]]
  {}

  lemma PrunedIsNumbered(blocks: Blocks, id: Id, rest: Blocks)
    requires Numbered(blocks) && Pruned(blocks, id, rest)
    ensures Numbered(rest)
  {}

  lemma AdvancingDone(root: Id, blocks: Blocks, id: Id, gone: seq<Id>, rest: Blocks, head: Id)
    requires Tree(root, blocks) && id in blocks && Known(root, blocks, head)
    requires Advancing(root, blocks, id, gone, |gone|, rest, head)
    ensures AtOrAbove(root, blocks, id, head) && Tree(id, rest)
    ensures forall b :: b in rest <==> b in blocks && b != id && id in Path(root, blocks, b)
    ensures forall b :: b in rest ==> rest[b] == blocks[b]
  {
    assert gone[..|gone|] == gone && gone[|gone| - 1] == root;
    ClearOfRoot(root, blocks, id, gone, head);
    AdvancedTree(root, blocks, id, gone, rest);
  }

  // ----- where two branches meet

  /** Going down from `start` past the blocks `a` leads to `s`. */
  ghost predicate Walked(root: Id, blocks: Blocks, start: Id, a: seq<Id>, s: Id)
    requires Tree(root, blocks)
  {
    Known(root, blocks, start) && Known(root, blocks, s) && Path(root, blocks, start) == a + Path(root, blocks, s)
  }

  ghost predicate Apart(a: seq<Id>, b: seq<Id>) {
    forall i, j :: 0 <= i < |a| && 0 <= j < |b| ==> a[i] != b[j]
  }

  /** The two branches down to the block they have in common, which is in neither. */
  ghost predicate Forked(root: Id, blocks: Blocks, first: Id, second: Id, a: seq<Id>, b: seq<Id>)
    requires Tree(root, blocks)
  {
    Apart(a, b) && exists meet :: Walked(root, blocks, first, a, meet) && Walked(root, blocks, second, b, meet)
  }

  lemma WalkStep(root: Id, blocks: Blocks, start: Id, a: seq<Id>, s: Id)
    requires Tree(root, blocks) && s in blocks && Walked(root, blocks, start, a, s)
    ensures Walked(root, blocks, start, a + [s], blocks[s].prev)
  {
    assert Path(root, blocks, s) == [s] + Path(root, blocks, blocks[s].prev);
  }

  lemma WalkedNums(root: Id, blocks: Blocks, start: Id, a: seq<Id>, s: Id)
    requires Tree(root, blocks) && Walked(root, blocks, start, a, s)
    ensures s.num >= root.num && (s.num == root.num ==> s == root)
    ensures forall i :: 0 <= i < |a| ==> a[i].num > s.num
  {
    PathNums(root, blocks, start);
    PathNums(root, blocks, s);
    var p := Path(root, blocks, start);
    assert forall i :: 0 <= i < |a| ==> p[i] == a[i];
  }

  lemma ApartStep(a: seq<Id>, b: seq<Id>, x: Id, y: Id)
    requires Apart(a, b) && x != y && x.num == y.num
    requires forall i :: 0 <= i < |a| ==> a[i].num > x.num
    requires forall i :: 0 <= i < |b| ==> b[i].num > y.num
    ensures Apart(a + [x], b + [y])
  {}

  // ----- preference

  /** A longer final history first, then a longer branch. */
  predicate Preferred(a: Block, b: Block) {
    a.lib > b.lib || (a.lib == b.lib && a.id.num > b.id.num)
  }

  /** The order of the index: valid blocks first, then by preference, then by hash. */
  predicate Before(a: Block, b: Block) {
    if a.valid != b.valid then a.valid
    else Preferred(a, b) || (a.lib == b.lib && a.id.num == b.id.num && a.id.hash < b.id.hash)
  }

  predicate First(blocks: Blocks, c: Id) {
    c in blocks && forall b :: b in blocks && b != c ==> Before(blocks[c], blocks[b])
  }

  lemma BeforeTransitive(a: Block, b: Block, c: Block)
    requires Before(a, b) && Before(b, c)
    ensures Before(a, c)
  {}

  /** There is a first block. */
  lemma {:induction false} FirstExists(blocks: Blocks, ids: set<Id>) returns (c: Id)
    requires Numbered(blocks) && ids <= blocks.Keys && ids != {}
    ensures c in ids && forall b :: b in ids && b != c ==> Before(blocks[c], blocks[b])
    decreases ids
  {
    var x :| x in ids;
    if ids == {x} {
      c := x;
    } else {
      var y := FirstExists(blocks, ids - {x});
      c := if Before(blocks[x], blocks[y]) then x else y;
      forall b | b in ids && b != c
        ensures Before(blocks[c], blocks[b])
      {
        if b != x && b != y && c == x {
          BeforeTransitive(blocks[x], blocks[y], blocks[b]);
        }
      }
    }
  }

  /** `b` has an older last irreversible block than `a`, or the same one and no higher number. */
  predicate AtMost(b: Block, a: Block) {
    b.lib < a.lib || (b.lib == a.lib && b.id.num <= a.id.num)
  }

  // ----- the head

  function BlockOf(root: Block, blocks: Blocks, id: Id): Block
    requires Known(root.id, blocks, id)
  {
    if id == root.id then root else blocks[id]
  }

  /** The head is a valid block of the tree, or the root, and no valid block has a newer last
      irreversible block, or the same one and a higher number. */
  ghost predicate HeadIsBest(root: Block, blocks: Blocks, head: Id) {
    && Known(root.id, blocks, head)
    && BlockOf(root, blocks, head).valid
    && forall b :: b in blocks && blocks[b].valid ==> AtMost(blocks[b], BlockOf(root, blocks, head))
  }

  lemma FirstOf(blocks: Blocks, x: Id) returns (c: Id)
    requires Numbered(blocks) && x in blocks
    ensures First(blocks, c)
  {
    c := FirstExists(blocks, blocks.Keys);
  }

  /** The first block is preferred by none of its kind, valid or not; when it is not valid, no
      block is. */
  lemma FirstIsBest(blocks: Blocks, c: Id, b: Id)
    requires First(blocks, c) && b in blocks
    ensures blocks[b].valid ==> blocks[c].valid
    ensures blocks[b].valid == blocks[c].valid ==> AtMost(blocks[b], blocks[c])
    ensures blocks[b].valid == blocks[c].valid && b != c && AtMost(blocks[c], blocks[b]) ==>
              blocks[c].id.hash < blocks[b].id.hash
  {
    assert b == c || Before(blocks[c], blocks[b]);
  }

  /** Among blocks equal in both numbers the smallest hash comes first. */
  lemma FirstHash(blocks: Blocks, c: Id)
    requires Numbered(blocks) && First(blocks, c)
    ensures forall b :: b in blocks && blocks[b].valid == blocks[c].valid && b != c && AtMost(blocks[c], blocks[b]) ==>
              c.hash < b.hash
  {
    forall b | b in blocks && blocks[b].valid == blocks[c].valid && b != c && AtMost(blocks[c], blocks[b])
      ensures c.hash < b.hash
    {
      FirstIsBest(blocks, c, b);
    }
  }

  lemma AddKeepsTree(root: Id, blocks: Blocks, n: Block)
    requires Tree(root, blocks) && Known(root, blocks, n.prev) && n.id.num == n.prev.num + 1
    ensures Tree(root, blocks[n.id := n])
  {
    PathNums(root, blocks, n.prev);
  }

  /** After a new block the head is the first block, if that is valid. */
  lemma AddKeepsHead(root: Block, blocks: Blocks, head: Id, n: Block, candidate: Id)
    requires HeadIsBest(root, blocks, head) && n.id !in blocks && n.id != root.id && root.id !in blocks
    requires First(blocks[n.id := n], candidate)
    ensures var after := blocks[n.id := n];
            HeadIsBest(root, after, if after[candidate].valid then candidate else head)
  {
    var after := blocks[n.id := n];
    forall b | b in after
      ensures after[b].valid ==> after[candidate].valid
      ensures after[b].valid ==> AtMost(after[b], after[candidate])
    {
      FirstIsBest(after, candidate, b);
    }
  }

  lemma MarkKeepsTree(root: Id, blocks: Blocks, id: Id)
    requires Tree(root, blocks) && id in blocks
    ensures Tree(root, blocks[id := blocks[id].(valid := true)])
  {}

  lemma MarkKeepsHead(root: Block, blocks: Blocks, head: Id, id: Id, candidate: Id)
    requires HeadIsBest(root, blocks, head) && root.id !in blocks && id in blocks
    requires First(blocks[id := blocks[id].(valid := true)], candidate)
    ensures var after := blocks[id := blocks[id].(valid := true)];
            && after[candidate].valid
            && HeadIsBest(root, after, if Preferred(after[candidate], BlockOf(root, after, head)) then candidate else head)
  {
    var after := blocks[id := blocks[id].(valid := true)];
    FirstIsBest(after, candidate, id);
    forall b | b in after
      ensures after[b].valid ==> AtMost(after[b], after[candidate])
    {
      FirstIsBest(after, candidate, b);
    }
  }

  /** The blocks not known to be valid. */
  function Waiting(blocks: Blocks): (w: Blocks)
    ensures forall b :: b in w <==> b in blocks && !blocks[b].valid
    ensures forall b :: b in w ==> w[b] == blocks[b]
  {
    map b | b in blocks && !blocks[b].valid :: blocks[b]
  }

  /** The better of the head and the first waiting block is preferred by no block. */
  lemma PendingIsBest(root: Block, blocks: Blocks, head: Id, candidate: Id)
    requires HeadIsBest(root, blocks, head) && First(Waiting(blocks), candidate)
    ensures candidate in blocks && !blocks[candidate].valid
    ensures forall b :: b in blocks ==>
              AtMost(blocks[b], if Preferred(blocks[candidate], BlockOf(root, blocks, head)) then blocks[candidate]
                                else BlockOf(root, blocks, head))
  {
    var w := Waiting(blocks);
    forall b | b in w
      ensures AtMost(w[b], w[candidate])
    {
      FirstIsBest(w, candidate, b);
    }
  }

  // ----- trimmed branches

  /** The blocks of a branch up to block number `trim`. */
  ghost function Branch(root: Id, blocks: Blocks, s: Id, trim: nat): seq<Id>
    requires Tree(root, blocks) && Known(root, blocks, s)
    decreases s.num
  {
    if s == root then []
    else (if s.num <= trim then [s] else []) + Branch(root, blocks, blocks[s].prev, trim)
  }

  lemma BranchStep(root: Id, blocks: Blocks, s: Id, trim: nat, done: seq<Id>)
    requires Tree(root, blocks) && s in blocks
    ensures done + Branch(root, blocks, s, trim) ==
            (if s.num <= trim then done + [s] else done) + Branch(root, blocks, blocks[s].prev, trim)
  {
    var rest := Branch(root, blocks, blocks[s].prev, trim);
    assert done + ([s] + rest) == done + [s] + rest && [] + rest == rest;
  }

  /** A trimmed branch is the whole branch with its front cut off. */
  lemma {:induction false} BranchIsSuffix(root: Id, blocks: Blocks, h: Id, trim: nat)
    requires Tree(root, blocks) && Known(root, blocks, h)
    ensures var p := Path(root, blocks, h);
            Branch(root, blocks, h, trim) == if h.num <= trim then p else if h.num - trim <= |p| then p[h.num - trim..] else []
    decreases h.num
  {
    PathNums(root, blocks, h);
    if h != root {
      var prev := blocks[h].prev;
      var p, q := Path(root, blocks, h), Path(root, blocks, prev);
      assert p == [h] + q;
      BranchIsSuffix(root, blocks, prev, trim);
      PathNums(root, blocks, prev);
    }
  }
}
