/** The fork database as an object: the tree above the last final block, and its head. */
module ForkDatabaseModel {
  import opened Options
  import opened Forks

  class ForkDatabase {
    var root: Block
    var blocks: Blocks
    var head: Id

    ghost predicate Valid()
      reads this
    {
      Tree(root.id, blocks) && root.valid && HeadIsBest(root, blocks, head)
    }

    /** Reset: a database with only a root. */
    constructor (root: Block)
      ensures Valid() && this.root == root.(valid := true) && blocks == map[] && head == root.id
    {
      this.root := root.(valid := true);
      blocks := map[];
      head := root.id;
    }

    method RollbackHeadToRoot()
      requires Valid()
      modifies this
      ensures Valid() && root == old(root) && head == root.id && blocks.Keys == old(blocks).Keys
      ensures forall b :: b in blocks ==> blocks[b] == old(blocks)[b].(valid := false)
    {
      blocks := map b | b in blocks :: blocks[b].(valid := false);
      head := root.id;
    }

    /** A block whose predecessor is missing is refused; so is a duplicate, unless duplicates are
        to be ignored. */
    method Add(n: Block, ignoreDuplicate: bool) returns (ok: bool)
      requires Valid() && n.id.num == n.prev.num + 1
      modifies this
      ensures Valid() && root == old(root)
      ensures ok == (Known(root.id, old(blocks), n.prev) && (ignoreDuplicate || n.id !in old(blocks)))
      ensures blocks == if ok && n.id !in old(blocks) then old(blocks)[n.id := n] else old(blocks)
      ensures !ok || n.id in old(blocks) ==> head == old(head)
      ensures ok && n.id !in old(blocks) ==>
                if exists b :: b in blocks && blocks[b].valid
                then head in blocks && blocks[head].valid && forall b :: b in blocks && blocks[b].valid && b != head ==>
                       || blocks[b].lib < blocks[head].lib
                       || (blocks[b].lib == blocks[head].lib && b.num < head.num)
                       || (blocks[b].lib == blocks[head].lib && b.num == head.num && head.hash < b.hash)
                else head == old(head)
    {
      if !Known(root.id, blocks, n.prev) {
        return false;
      }
      if n.id in blocks {
        return ignoreDuplicate;
      }
      AddKeepsTree(root.id, blocks, n);
      blocks := blocks[n.id := n];
      ghost var first := FirstOf(blocks, n.id);
      var candidate :| First(blocks, candidate);
      AddKeepsHead(root, old(blocks), head, n, candidate);
      forall b | b in blocks
        ensures blocks[b].valid ==> blocks[candidate].valid && AtMost(blocks[b], blocks[candidate])
        ensures blocks[b].valid && b != candidate && AtMost(blocks[candidate], blocks[b]) ==> candidate.hash < b.hash
      {
        FirstIsBest(blocks, candidate, b);
      }
      if blocks[candidate].valid {
        head := candidate;
      }
      ok := true;
    }

    /** `h` is the block as its holder sees it. */
    method MarkValid(h: Block) returns (ok: bool)
      requires Valid()
      modifies this
      ensures Valid() && root == old(root)
      ensures ok == (h.valid || h.id in old(blocks))
      ensures blocks == if !h.valid && ok then old(blocks)[h.id := old(blocks)[h.id].(valid := true)] else old(blocks)
      ensures head != old(head) ==>
                && head in blocks && !AtMost(blocks[head], BlockOf(root, blocks, old(head)))
                && forall b :: b in blocks && blocks[b].valid && b != head && AtMost(blocks[head], blocks[b]) ==>
                     head.hash < b.hash
    {
      if h.valid {
        return true;
      }
      if h.id !in blocks {
        return false;
      }
      MarkKeepsTree(root.id, blocks, h.id);
      blocks := blocks[h.id := blocks[h.id].(valid := true)];
      ghost var first := FirstOf(blocks, h.id);
      var candidate :| First(blocks, candidate);
      MarkKeepsHead(root, old(blocks), head, h.id, candidate);
      FirstHash(blocks, candidate);
      if Preferred(blocks[candidate], BlockOf(root, blocks, head)) {
        head := candidate;
      }
      ok := true;
    }

    /** The block to follow if every block turns out valid: none is preferred to it. */
    method PendingHead() returns (id: Id)
      requires Valid()
      ensures Known(root.id, blocks, id)
      ensures var best := BlockOf(root, blocks, id);
              forall b :: b in blocks ==>
                blocks[b].lib < best.lib || (blocks[b].lib == best.lib && b.num <= best.id.num)
      ensures id != head ==>
                && id in blocks && !blocks[id].valid && !AtMost(blocks[id], BlockOf(root, blocks, head))
                && forall b :: b in blocks && !blocks[b].valid && b != id && AtMost(blocks[id], blocks[b]) ==>
                     id.hash < b.hash
    {
      var waiting := Waiting(blocks);
      if waiting.Keys == {} {
        return head;
      }
      ghost var some :| some in waiting.Keys;
      ghost var first := FirstOf(waiting, some);
      var candidate :| First(waiting, candidate);
      PendingIsBest(root, blocks, head, candidate);
      FirstHash(waiting, candidate);
      id := if Preferred(blocks[candidate], BlockOf(root, blocks, head)) then candidate else head;
    }

    // ----- branches

    /** The branch that ends in `h`, without the blocks above number `trim`. */
    method FetchBranch(h: Id, trim: nat) returns (result: seq<Id>)
      requires Valid()
      ensures result == if h in blocks then Branch(root.id, blocks, h, trim) else []
    {
      result := [];
      if h !in blocks {
        return;
      }
      ghost var branch := Branch(root.id, blocks, h, trim);
      var s := h;
      while s in blocks
        invariant Known(root.id, blocks, s) && result + Branch(root.id, blocks, s, trim) == branch
        decreases s.num
      {
        BranchStep(root.id, blocks, s, trim, result);
        if s.num <= trim {
          result := result + [s];
        }
        s := blocks[s].prev;
      }
    }

    /** The block with a given number on the branch that ends in `h`. */
    method SearchOnBranch(h: Id, num: nat) returns (found: Option<Id>)
      requires Valid()
      ensures found.Some? ==> h in blocks && found.value in Path(root.id, blocks, h) && found.value.num == num
      ensures found.Some? <==> h in blocks && root.id.num < num <= h.num
    {
      if h !in blocks {
        return None;
      }
      ghost var p := Path(root.id, blocks, h);
      PathNums(root.id, blocks, h);
      var s := h;
      while s in blocks
        invariant Known(root.id, blocks, s) && (s in p || s == root.id) && (num > s.num ==> num > h.num)
        decreases s.num
      {
        if s.num == num {
          PathNums(root.id, blocks, s);
          return Some(s);
        }
        NextOnPath(root.id, blocks, h, s);
        s := blocks[s].prev;
      }
      return None;
    }

    /** Down a branch to a block number. */
    method WalkDown(start: Id, num: nat) returns (a: seq<Id>, x: Id)
      requires Valid() && Known(root.id, blocks, start) && num >= root.id.num
      ensures Walked(root.id, blocks, start, a, x)
      ensures x.num == if start.num > num then num else start.num
      ensures start.num <= num ==> a == []
    {
      a, x := [], start;
      while x.num > num
        invariant Walked(root.id, blocks, start, a, x)
        invariant start.num <= num ==> a == [] && x == start
        invariant start.num > num ==> x.num >= num
        decreases x.num
      {
        WalkStep(root.id, blocks, start, a, x);
        a := a + [x];
        x := blocks[x].prev;
      }
    }

    /** The parts of two branches above the block they share: the lowest common ancestor, since
        the parts have no block in common. No lookup on the way fails. */
    method FetchBranchFrom(first: Id, second: Id) returns (r: Option<(seq<Id>, seq<Id>)>)
      requires Valid()
      ensures r.Some? <==> Known(root.id, blocks, first) && Known(root.id, blocks, second)
      ensures r.Some? ==> Forked(root.id, blocks, first, second, r.value.0, r.value.1)
    {
      if !Known(root.id, blocks, first) || !Known(root.id, blocks, second) {
        return None;
      }
      PathNums(root.id, blocks, first);
      PathNums(root.id, blocks, second);
      var a, x := WalkDown(first, second.num);
      var b, y := WalkDown(second, x.num);
      if x == y {
        return Some((a, b));
      }
      a, b := Descend(first, second, a, b, x, y);
      return Some((a, b));
    }

    /** From two blocks of the same number down to the block they have in common. */
    method Descend(ghost first: Id, ghost second: Id, a0: seq<Id>, b0: seq<Id>, x0: Id, y0: Id)
      returns (a: seq<Id>, b: seq<Id>)
      requires Valid() && x0 != y0 && x0.num == y0.num && Apart(a0, b0)
      requires Walked(root.id, blocks, first, a0, x0) && Walked(root.id, blocks, second, b0, y0)
      ensures Forked(root.id, blocks, first, second, a, b)
    {
      var x, y := x0, y0;
      a, b := a0, b0;
      WalkedNums(root.id, blocks, first, a, x);
      WalkedNums(root.id, blocks, second, b, y);
      while blocks[x].prev != blocks[y].prev
        invariant x in blocks && y in blocks && x != y && x.num == y.num && Apart(a, b)
        invariant Walked(root.id, blocks, first, a, x) && Walked(root.id, blocks, second, b, y)
        decreases x.num
      {
        a, b, x, y := StepBoth(first, second, a, b, x, y);
        WalkedNums(root.id, blocks, first, a, x);
        WalkedNums(root.id, blocks, second, b, y);
      }
      a, b, x, y := StepBoth(first, second, a, b, x, y);
    }

    method StepBoth(ghost first: Id, ghost second: Id, a: seq<Id>, b: seq<Id>, x: Id, y: Id)
      returns (a': seq<Id>, b': seq<Id>, x': Id, y': Id)
      requires Valid() && x in blocks && y in blocks && x != y && x.num == y.num && Apart(a, b)
      requires Walked(root.id, blocks, first, a, x) && Walked(root.id, blocks, second, b, y)
      ensures a' == a + [x] && b' == b + [y] && x' == blocks[x].prev && y' == blocks[y].prev && Apart(a', b')
      ensures Walked(root.id, blocks, first, a', x') && Walked(root.id, blocks, second, b', y')
    {
      WalkedNums(root.id, blocks, first, a, x);
      WalkedNums(root.id, blocks, second, b, y);
      ApartStep(a, b, x, y);
      WalkStep(root.id, blocks, first, a, x);
      WalkStep(root.id, blocks, second, b, y);
      a', b', x', y' := a + [x], b + [y], blocks[x].prev, blocks[y].prev;
    }

    // ----- removal

    method Listed(ids: set<Id>) returns (s: seq<Id>)
      ensures Distinct(s) && forall c :: c in s <==> c in ids
    {
      s := [];
      var rest := ids;
      while rest != {}
        invariant rest <= ids && Distinct(s) && forall c :: c in s <==> c in ids - rest
        decreases rest
      {
        var c :| c in rest;
        DistinctAppend(s, [c]);
        s := s + [c];
        rest := rest - {c};
      }
    }

    /** `id` and everything under it; fails when the head is met. */
    method Descendants(id: Id) returns (ok: bool, queue: seq<Id>)
      requires Numbered(blocks)
      ensures ok <==> head != id && !Under(blocks, head, id)
      ensures ok ==> forall b :: b in blocks ==> (b in queue <==> Under(blocks, b, id))
    {
      queue := [id];
      var i := 0;
      ghost var waiting := blocks.Keys + {id};
      while i < |queue|
        invariant Queued(blocks, id, queue, i)
        invariant head !in queue[..i]
        invariant forall x :: x in waiting <==> x in blocks.Keys + {id} && x !in queue[..i]
        decreases waiting
      {
        NextInQueue(blocks, id, queue, i);
        if queue[i] == head {
          return false, queue;
        }
        var kids := Listed(set c | c in blocks && blocks[c].prev == queue[i]);
        QueueStep(blocks, id, queue, i, kids);
        assert (queue + kids)[..i + 1] == queue[..i] + [queue[i]];
        waiting := waiting - {queue[i]};
        queue := queue + kids;
        i := i + 1;
      }
      QueueIsUnder(blocks, id, queue);
      assert queue[..|queue|] == queue;
      ok := true;
    }

    /** The block and everything under it goes, unless the head would go with it. */
    method Prune(id: Id) returns (ok: bool)
      requires Numbered(blocks)
      modifies `blocks
      ensures ok <==> head != id && !Under(old(blocks), head, id)
      ensures !ok ==> blocks == old(blocks)
      ensures ok ==> Pruned(old(blocks), id, blocks)
    {
      var queue;
      ok, queue := Descendants(id);
      if ok {
        blocks := map b | b in blocks && b !in queue :: blocks[b];
      }
    }

    /** Pruning a whole database leaves a whole database, with the same head. */
    method Remove(id: Id) returns (ok: bool)
      requires Valid()
      modifies `blocks
      ensures Valid()
      ensures ok <==> head != id && !Under(old(blocks), head, id)
      ensures !ok ==> blocks == old(blocks)
      ensures ok ==> Pruned(old(blocks), id, blocks)
    {
      ok := Prune(id);
      if ok {
        PrunedIsTree(root.id, old(blocks), id, blocks);
      }
    }

    /** The ids below a block down to the root. */
    method Ancestors(id: Id) returns (ids: seq<Id>)
      requires Valid() && id in blocks
      ensures ids == Chain(root.id, blocks, blocks[id].prev)
    {
      ids := [];
      var b := id;
      while b in blocks
        invariant Known(root.id, blocks, b)
        invariant ids + (if b == root.id then [] else Chain(root.id, blocks, blocks[b].prev)) ==
                  Chain(root.id, blocks, blocks[id].prev)
        decreases b.num
      {
        ChainStep(root.id, blocks, ids, blocks[b].prev);
        b := blocks[b].prev;
        ids := ids + [b];
      }
    }

    /** Removes the blocks under each of `gone`, in order. */
    method RemoveAll(gone: seq<Id>, ghost base: Id, ghost tree: Blocks, ghost id: Id) returns (ok: bool)
      requires Tree(base, tree) && id in tree && Known(base, tree, head)
      requires Advancing(base, tree, id, gone, 0, blocks, head)
      modifies `blocks
      ensures ok <==> AtOrAbove(base, tree, id, head)
      ensures ok ==> Advancing(base, tree, id, gone, |gone|, blocks, head)
      ensures !ok ==> id !in blocks && Halted(base, tree, id, head, blocks)
    {
      var k := 0;
      while k < |gone|
        invariant Advancing(base, tree, id, gone, k, blocks, head)
      {
        AdvancingClear(base, tree, id, gone, k, blocks, head);
        ghost var before := blocks;
        ok := Prune(gone[k]);
        if !ok {
          AdvancingHalts(base, tree, id, gone, k, blocks, head);
          return;
        }
        AdvancingLeft(base, tree, id, gone, k, before, head, blocks);
        AdvancingFrom(base, tree, id, gone, k, blocks, head);
        k := k + 1;
      }
      AdvancingDone(base, tree, id, gone, blocks, head);
      ok := true;
    }

    /** The root moves up to a valid block; what remains is exactly the tree above it. This works
        if and only if the head is that block or above it. When the head is elsewhere the call
        fails half-way, with the block taken out and the branches below it removed up to the
        point where the head's chain is met. */
    method AdvanceRoot(id: Id) returns (ok: bool)
      requires Valid()
      modifies this
      ensures ok <==> id in old(blocks) && old(blocks)[id].valid && AtOrAbove(old(root).id, old(blocks), id, old(head))
      ensures head == old(head)
      ensures ok ==> Valid() && root == old(blocks)[id]
      ensures ok ==> forall b :: b in blocks <==> b in old(blocks) && b != id && id in Path(old(root).id, old(blocks), b)
      ensures ok ==> forall b :: b in blocks ==> blocks[b] == old(blocks)[b]
      ensures !ok ==> root == old(root)
      ensures !ok ==> if id in old(blocks) && old(blocks)[id].valid then Halted(root.id, old(blocks), id, head, blocks)
                      else blocks == old(blocks)
    {
      if id !in blocks || !blocks[id].valid {
        return false;
      }
      var newRoot := blocks[id];
      var gone := Ancestors(id);
      ghost var base, tree := root.id, blocks;
      blocks := blocks - {id};
      AdvancingStart(base, tree, id, gone, blocks, head);
      ok := RemoveAll(gone, base, tree, id);
      if ok {
        AdvancingDone(base, tree, id, gone, blocks, head);
        AdvancedHead(root, tree, id, blocks, head);
        root := newRoot;
      }
    }
  }
}
