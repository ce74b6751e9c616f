/** TransmitLimitedQueue of queue.go as an object, proved against the functions of Queue.dfy. */
module QueueObject {
  import opened Base
  import opened Queue

  class TransmitLimitedQueue {
    const retransmitMult: int
    const invalidates: Invalidates

    var tq: seq<Item>
    var tm: map<string, Item>
    var idGen: int

    /** The Finished callbacks made so far. */
    var finished: seq<nat>

    function View(): State
      reads this
    {
      State(tq, tm, idGen, finished)
    }

    /** The tree is in order, and lengths and ids are within the range of Go's int64. */
    ghost predicate Valid()
      reads this
    {
      Sorted(tq) && 0 <= idGen <= MAX_I64 && forall x :: x in tq ==> InRange(x)
    }

    constructor (mult: int, inv: Invalidates)
      ensures Valid() && View() == EMPTY && retransmitMult == mult && invalidates == inv
    {
      retransmitMult, invalidates := mult, inv;
      tq, tm, idGen, finished := [], map[], 0, [];
    }

    method DeleteItem(cur: Item)
      requires Valid()
      modifies this
      ensures Valid() && View() == Delete(old(View()), cur)
    {
      DropSorted(tq, cur);
      tq := Drop(tq, cur);
      if cur.Name() != "" {
        tm := tm - {cur.Name()};
      }
      if |tq| == 0 {
        idGen := 0;
      }
    }

    method AddItem(cur: Item)
      requires Valid() && InRange(cur)
      modifies this
      ensures Valid() && View() == Add(old(View()), cur)
    {
      PutSorted(tq, cur);
      tq := Put(tq, cur);
      if cur.Name() != "" {
        tm := tm[cur.Name() := cur];
      }
    }

    /** Calls Finished on the plain broadcasts that `b` invalidates and returns them. */
    method FinishOverridden(b: Broadcast) returns (remove: seq<Item>)
      requires Valid()
      modifies this`finished
      ensures remove == Overridden(tq, b, invalidates)
      ensures Valid() && View() == FinishAll(old(View()), remove)
    {
      ghost var q := View();
      remove := [];
      for i := 0 to |tq|
        invariant remove == Overridden(tq[..i], b, invalidates)
        invariant finished == FinishAll(q, remove).finished
      {
        assert tq[..i + 1][..i] == tq[..i];
        if tq[i].b.kind.Plain? && invalidates(b, tq[i].b) {
          finished := finished + [tq[i].b.uid];
          FinishedAppend(q, remove, tq[i]);
          remove := remove + [tq[i]];
        }
      }
      assert tq[..|tq|] == tq;
      FinishAllFrame(q, remove);
    }

    method DeleteItems(xs: seq<Item>)
      requires Valid()
      modifies this
      ensures Valid() && View() == DeleteAll(old(View()), xs)
    {
      ghost var q := View();
      for i := 0 to |xs|
        invariant Valid()
        invariant View() == DeleteAll(q, xs[..i])
      {
        assert xs[..i + 1][..i] == xs[..i];
        DeleteItem(xs[i]);
      }
      assert xs[..|xs|] == xs;
    }

    method AddItems(xs: seq<Item>)
      requires Valid() && forall x :: x in xs ==> InRange(x)
      modifies this
      ensures Valid() && View() == AddAll(old(View()), xs)
    {
      ghost var q := View();
      for i := 0 to |xs|
        invariant Valid()
        invariant View() == AddAll(q, xs[..i])
      {
        assert xs[..i + 1][..i] == xs[..i];
        AddItem(xs[i]);
      }
      assert xs[..|xs|] == xs;
    }

    /** Finishes and removes what a new broadcast makes obsolete. */
    method Invalidate(b: Broadcast)
      requires Valid()
      modifies this
      ensures Valid()
      ensures var q := old(View());
              var victims := Victims(q, b, invalidates);
              View() == DeleteAll(FinishAll(q, victims), victims)
    {
      hide Sorted, Overridden;
      var name := if b.kind.Named? then b.kind.name else "";
      if name != "" {
        if name in tm {
          var victim := tm[name];
          SingleVictim(View(), victim);
          finished := finished + [victim.b.uid];
          DeleteItem(victim);
        }
      } else if !b.kind.Unique? {
        var remove := FinishOverridden(b);
        DeleteItems(remove);
      }
    }

    method QueueBroadcast(b: Broadcast, initialTransmits: int)
      requires Valid() && |b.msg| <= MAX_I64
      modifies this
      ensures Valid() && View() == Submit(old(View()), b, initialTransmits, invalidates)
    {
      hide Sorted, Add, DeleteAll, FinishAll;
      if idGen == MAX_I64 {
        idGen := 1;
      } else {
        idGen := idGen + 1;
      }
      var lb := Item(initialTransmits, idGen, b);
      Invalidate(b);
      AddItem(lb);
    }

    /** Takes an item out; it is finished if this was its last transmission. */
    method TakeOut(keep: Item, transmitLimit: int)
      requires Valid()
      modifies this
      ensures Valid() && View() == TakenOut(old(View()), keep, transmitLimit)
    {
      DeleteItem(keep);
      if keep.transmits + 1 >= transmitLimit {
        finished := finished + [keep.b.uid];
      }
    }

    /** Packs broadcasts tier by tier with range searches; items to be sent again go back at the end. */
    method GetBroadcasts(overhead: int, limit: int, numNodes: nat) returns (toSend: seq<Bytes>)
      requires Valid() && overhead >= 0 && limit <= MAX_I64
      modifies this
      ensures Valid()
      ensures (View(), toSend) == Get(old(View()), overhead, limit, RetransmitLimit(retransmitMult, numNodes))
    {
      ghost var q := View();
      NothingTaken(q);
      if |tq| == 0 {
        return [];
      }
      var transmitLimit := RetransmitLimit(retransmitMult, numNodes);
      var reinsert: seq<Item>;
      toSend, reinsert := Pack(overhead, limit, transmitLimit);
      TakenInRange(q.tree, overhead, limit, transmitLimit);
      AddItems(reinsert);
    }

    /** getTransmitRange: the tiers of the first and the last item. */
    method TransmitRange() returns (min: int, max: int)
      ensures tq != [] ==> min == MinTransmits(tq) && max == MaxTransmits(tq)
    {
      if |tq| == 0 {
        return 0, 0;
      }
      return tq[0].transmits, tq[|tq| - 1].transmits;
    }

    /** One turn of the tier loop: take the first item on the tier that fits, or go on to the next tier. */
    method PackNext(overhead: int, limit: int, transmitLimit: int, used: int, tier: int,
                    sent: seq<Bytes>, back: seq<Item>, ghost q: State, ghost g: Progress)
      returns (used': int, tier': int, sent': seq<Bytes>, back': seq<Item>, ghost g': Progress)
      requires Valid() && overhead >= 0 && 0 <= used && 0 < limit - used - overhead <= MAX_I64
      requires LoopInv(q, overhead, limit, transmitLimit, used, tier, g, View(), sent, back)
      modifies this
      ensures Valid() && used <= used'
      ensures LoopInv(q, overhead, limit, transmitLimit, used', tier', g', View(), sent', back')
      ensures tier' - |tq| > tier - |old(tq)| && tier <= tier' && |tq| <= |old(tq)|
    {
      hide LoopInv, TakenOut, Sorted;
      var free := limit - used - overhead;
      var i := Find(tq, SortKey(tier, free, MAX_I64), SortKey(tier + 1, MAX_I64, MAX_I64));
      if i == |tq| {
        g' := LoopNextTier(q, overhead, limit, transmitLimit, used, tier, g, View(), sent, back);
        used', tier', sent', back' := used, tier + 1, sent, back;
      } else {
        var keep := tq[i];
        g' := LoopTakes(q, overhead, limit, transmitLimit, used, tier, g, View(), sent, back, i);
        used', tier', sent' := used + overhead + |keep.b.msg|, tier, sent + [keep.b.msg];
        back' := if keep.transmits + 1 < transmitLimit then back + [keep.(transmits := keep.transmits + 1)] else back;
        TakeOut(keep, transmitLimit);
      }
    }

    /** The tier loop: what is to be sent, and what is to be put back afterwards. */
    method Pack(overhead: int, limit: int, transmitLimit: int) returns (toSend: seq<Bytes>, reinsert: seq<Item>)
      requires Valid() && tq != [] && overhead >= 0 && limit <= MAX_I64
      modifies this
      ensures Valid() && Packed(old(View()), overhead, limit, transmitLimit, View(), toSend, reinsert)
    {
      ghost var q := View();
      var bytesUsed := 0;
      toSend, reinsert := [], [];
      var transmits, maxTr := TransmitRange();
      ghost var g := LoopStarts(q, overhead, limit, transmitLimit);
      hide LoopInv, Packed, Sorted, InRange, MinTransmits, MaxTransmits;
      while transmits <= maxTr && limit - bytesUsed - overhead > 0
        invariant 0 <= bytesUsed && Valid()
        invariant LoopInv(q, overhead, limit, transmitLimit, bytesUsed, transmits, g, View(), toSend, reinsert)
        decreases |tq| + maxTr - transmits
      {
        bytesUsed, transmits, toSend, reinsert, g :=
          PackNext(overhead, limit, transmitLimit, bytesUsed, transmits, toSend, reinsert, q, g);
      }
      LoopEnds(q, overhead, limit, transmitLimit, bytesUsed, transmits, g, View(), toSend, reinsert, maxTr);
    }

    method PruneQueue(maxRetain: int)
      requires Valid()
      modifies this
      ensures Valid() && View() == Prune(old(View()), maxRetain)
    {
      while |tq| > maxRetain
        invariant Valid() && Prune(View(), maxRetain) == Prune(old(View()), maxRetain)
        decreases |tq|
      {
        if |tq| == 0 {
          break;
        }
        var cur := tq[|tq| - 1];
        finished := finished + [cur.b.uid];
        DeleteItem(cur);
      }
    }

    method ResetQueue()
      requires Valid()
      modifies this
      ensures Valid() && View() == Reset(old(View()))
    {
      ghost var q := View();
      for i := 0 to |tq|
        invariant View() == FinishAll(q, q.tree[..i])
        invariant tq == q.tree
      {
        assert q.tree[..i + 1][..i] == q.tree[..i];
        finished := finished + [tq[i].b.uid];
      }
      assert q.tree[..|q.tree|] == q.tree;
      tq, tm, idGen := [], map[], 0;
    }
  }

  predicate InRange(x: Item) { x.Len() <= MAX_I64 && x.id <= MAX_I64 }

  function MinTransmits(tree: seq<Item>): int requires tree != [] { tree[0].transmits }

  function MaxTransmits(tree: seq<Item>): int requires tree != [] { tree[|tree| - 1].transmits }

  lemma SingleVictim(q: State, x: Item)
    ensures FinishAll(q, [x]) == Finish(q, x)
    ensures forall q1: State :: DeleteAll(q1, [x]) == Delete(q1, x)
  {}

  // ---------------------------------------------------------------- the packing loop

  /** Where the loop stands compared with the first-fit pass: the pass has decided about the
      first `p` items, took `taken` and left `skipped`. What it left on or above the current tier
      no longer fits. */
  ghost predicate Packing(q: State, overhead: int, limit: int, used: int, tier: int,
                          taken: seq<Item>, skipped: seq<Item>, p: nat)
  {
    && Passed(q, overhead, limit, used, taken, skipped, p)
    && (forall x :: x in skipped ==> x.transmits < tier || !Fits(x, overhead, limit - used))
    && (forall i :: p <= i < |q.tree| ==> q.tree[i].transmits >= tier)
  }

  ghost predicate Passed(q: State, overhead: int, limit: int, used: int, taken: seq<Item>, skipped: seq<Item>, p: nat)
  {
    && p <= |q.tree|
    && Taken(q.tree, overhead, limit) == taken + Taken(q.tree[p..], overhead, limit - used)
    && Rest(q.tree, overhead, limit) == skipped + Rest(q.tree[p..], overhead, limit - used)
  }

  lemma PassOver(q: State, overhead: int, limit: int, used: int, taken: seq<Item>, skipped: seq<Item>, p: nat, n: nat)
    requires Passed(q, overhead, limit, used, taken, skipped, p) && n <= |q.tree|
    requires p <= n && forall j :: p <= j < n ==> !Fits(q.tree[j], overhead, limit - used)
    ensures Passed(q, overhead, limit, used, taken, skipped + q.tree[p..n], n)
  {
    var items := q.tree[p..];
    SkipUnfit(items, n - p, overhead, limit - used);
    assert items[n - p..] == q.tree[n..] && items[..n - p] == q.tree[p..n];
    var rest := Rest(q.tree[n..], overhead, limit - used);
    assert skipped + (q.tree[p..n] + rest) == (skipped + q.tree[p..n]) + rest;
  }

  lemma PassTake(q: State, overhead: int, limit: int, used: int, taken: seq<Item>, skipped: seq<Item>, p: nat)
    requires Passed(q, overhead, limit, used, taken, skipped, p)
    requires p < |q.tree| && Fits(q.tree[p], overhead, limit - used)
    ensures Passed(q, overhead, limit, used + overhead + q.tree[p].Len(), taken + [q.tree[p]], skipped, p + 1)
  {}

  lemma PackingStart(q: State, overhead: int, limit: int)
    requires Sorted(q.tree) && q.tree != []
    ensures Packing(q, overhead, limit, 0, q.tree[0].transmits, [], [], 0)
    ensures [] + q.tree[0..] == q.tree && Messages([]) == []
    ensures forall transmitLimit :: Bumped([], transmitLimit) == []
  {}

  lemma FoundFits(x: Item, tier: int, free: int)
    requires InRange(x) && free <= MAX_I64
    ensures !KeyLess(KeyOf(x), SortKey(tier, free, MAX_I64)) && KeyLess(KeyOf(x), SortKey(tier + 1, MAX_I64, MAX_I64))
            <==> x.transmits == tier && x.Len() <= free
  {}

  /** What the first-fit pass took, what it left, and how far it has come. */
  datatype Progress = Progress(taken: seq<Item>, skipped: seq<Item>, p: nat)

  /** The state of the loop in terms of the pass. */
  ghost predicate LoopInv(q: State, overhead: int, limit: int, transmitLimit: int, used: int, tier: int, g: Progress,
                          view: State, toSend: seq<Bytes>, reinsert: seq<Item>)
  {
    && Sorted(q.tree) && used >= 0
    && Packing(q, overhead, limit, used, tier, g.taken, g.skipped, g.p)
    && view == WithoutTaken(q, g.taken, g.skipped + q.tree[g.p..], transmitLimit)
    && toSend == Messages(g.taken) && reinsert == Bumped(g.taken, transmitLimit)
  }

  /** What the first-fit pass over the whole queue comes to. */
  ghost predicate Packed(q: State, overhead: int, limit: int, transmitLimit: int,
                         view: State, toSend: seq<Bytes>, reinsert: seq<Item>)
  {
    var taken := Taken(q.tree, overhead, limit);
    && view == WithoutTaken(q, taken, Rest(q.tree, overhead, limit), transmitLimit)
    && toSend == Messages(taken) && reinsert == Bumped(taken, transmitLimit)
  }

  lemma LoopStarts(q: State, overhead: int, limit: int, transmitLimit: int) returns (g: Progress)
    requires Sorted(q.tree) && q.tree != []
    ensures LoopInv(q, overhead, limit, transmitLimit, 0, MinTransmits(q.tree), g, q, [], [])
  {
    g := Progress([], [], 0);
    NothingTaken(q);
    PackingStart(q, overhead, limit);
  }

  lemma LoopNextTier(q: State, overhead: int, limit: int, transmitLimit: int, used: int, tier: int, g: Progress,
                     view: State, toSend: seq<Bytes>, reinsert: seq<Item>) returns (g': Progress)
    requires LoopInv(q, overhead, limit, transmitLimit, used, tier, g, view, toSend, reinsert)
    requires (forall x :: x in view.tree ==> InRange(x)) && limit - used - overhead <= MAX_I64
    requires |view.tree|
             == Find(view.tree, SortKey(tier, limit - used - overhead, MAX_I64), SortKey(tier + 1, MAX_I64, MAX_I64))
    ensures LoopInv(q, overhead, limit, transmitLimit, used, tier + 1, g', view, toSend, reinsert)
  {
    var p, skipped := NextTier(q, overhead, limit, used, tier, g.taken, g.skipped, g.p, view.tree);
    hide Packing, Taken, Rest;
    g' := g.(p := p, skipped := skipped);
  }

  lemma LoopTakes(q: State, overhead: int, limit: int, transmitLimit: int, used: int, tier: int, g: Progress,
                  view: State, toSend: seq<Bytes>, reinsert: seq<Item>, i: nat) returns (g': Progress)
    requires LoopInv(q, overhead, limit, transmitLimit, used, tier, g, view, toSend, reinsert)
    requires Sorted(view.tree) && (forall x :: x in view.tree ==> InRange(x))
    requires overhead >= 0 && 0 < limit - used - overhead <= MAX_I64 && i < |view.tree|
    requires i == Find(view.tree, SortKey(tier, limit - used - overhead, MAX_I64), SortKey(tier + 1, MAX_I64, MAX_I64))
    ensures var keep := view.tree[i];
            LoopInv(q, overhead, limit, transmitLimit, used + overhead + |keep.b.msg|, tier, g',
                    TakenOut(view, keep, transmitLimit), toSend + [keep.b.msg],
                    if keep.transmits + 1 < transmitLimit
                    then reinsert + [keep.(transmits := keep.transmits + 1)] else reinsert)
    ensures |TakenOut(view, view.tree[i], transmitLimit).tree| < |view.tree|
  {
    TakenOutIs(q, g.taken, view.tree, i, transmitLimit);
    var p, skipped := TakeOne(q, overhead, limit, used, tier, g.taken, g.skipped, g.p, view.tree, i);
    hide Packing, Taken, Rest, Messages, Bumped, Find, Sorted, KeyLess;
    g' := Progress(g.taken + [view.tree[i]], skipped, p);
  }

  lemma LoopEnds(q: State, overhead: int, limit: int, transmitLimit: int, used: int, tier: int, g: Progress,
                 view: State, toSend: seq<Bytes>, reinsert: seq<Item>, maxTr: int)
    requires LoopInv(q, overhead, limit, transmitLimit, used, tier, g, view, toSend, reinsert) && q.tree != []
    requires maxTr == MaxTransmits(q.tree) && (tier > maxTr || limit - used - overhead <= 0)
    ensures Packed(q, overhead, limit, transmitLimit, view, toSend, reinsert)
  {
    PackingDone(q, overhead, limit, used, tier, g.taken, g.skipped, g.p, maxTr);
  }

  /** The first item found is the next one that the first-fit pass takes. */
  lemma TakeOne(q: State, overhead: int, limit: int, used: int, tier: int,
                       taken: seq<Item>, skipped: seq<Item>, p: nat, tree: seq<Item>, i: nat)
    returns (p': nat, skipped': seq<Item>)
    requires Sorted(q.tree) && Packing(q, overhead, limit, used, tier, taken, skipped, p)
    requires tree == skipped + q.tree[p..] && (forall x :: x in tree ==> InRange(x))
    requires overhead >= 0 && 0 < limit - used - overhead <= MAX_I64
    requires i < |tree|
    requires i == Find(tree, SortKey(tier, limit - used - overhead, MAX_I64), SortKey(tier + 1, MAX_I64, MAX_I64))
    ensures Packing(q, overhead, limit, used + overhead + tree[i].Len(), tier, taken + [tree[i]], skipped', p')
    ensures p' <= |q.tree| && skipped' + q.tree[p'..] == tree[..i] + tree[i + 1..]
    ensures tree[i] in q.tree
  {
    FoundFits(tree[i], tier, limit - used - overhead);
    if i < |skipped| { assert false; }
    var n := p + (i - |skipped|);
    UnfitBefore(q, overhead, limit, used, tier, skipped, p, tree, i);
    PassOver(q, overhead, limit, used, taken, skipped, p, n);
    assert q.tree[n] == tree[i];
    PassTake(q, overhead, limit, used, taken, skipped + q.tree[p..n], n);
    hide Passed, Find;
    p', skipped' := n + 1, skipped + q.tree[p..n];
    assert tree[..i] == skipped + q.tree[p..n] && tree[i + 1..] == q.tree[n + 1..];
  }

  /** What lies before the item found, on the tier, does not fit. */
  lemma UnfitBefore(q: State, overhead: int, limit: int, used: int, tier: int,
                    skipped: seq<Item>, p: nat, tree: seq<Item>, i: nat)
    requires Sorted(q.tree) && p <= |q.tree| && tree == skipped + q.tree[p..] && (forall x :: x in tree ==> InRange(x))
    requires limit - used - overhead <= MAX_I64 && |skipped| <= i <= |tree|
    requires i < |tree| ==> tree[i].transmits == tier
    requires forall j :: p <= j < |q.tree| ==> q.tree[j].transmits >= tier
    requires i == Find(tree, SortKey(tier, limit - used - overhead, MAX_I64), SortKey(tier + 1, MAX_I64, MAX_I64))
    ensures forall j :: p <= j < p + i - |skipped| && q.tree[j].transmits == tier ==>
              !Fits(q.tree[j], overhead, limit - used)
    ensures i < |tree| ==> forall j :: p <= j < p + i - |skipped| ==> q.tree[j].transmits == tier
  {
    forall j | p <= j < p + i - |skipped|
      ensures q.tree[j].transmits == tier ==> !Fits(q.tree[j], overhead, limit - used)
      ensures i < |tree| ==> q.tree[j].transmits == tier
    {
      assert tree[|skipped| + j - p] == q.tree[j];
      FoundFits(q.tree[j], tier, limit - used - overhead);
      if i < |tree| {
        assert tree[i] == q.tree[p + i - |skipped|];
        assert Less(q.tree[j], q.tree[p + i - |skipped|]);
      }
    }
  }

  /** When a tier has nothing more that fits, the pass leaves the rest of the tier behind. */
  lemma NextTier(q: State, overhead: int, limit: int, used: int, tier: int,
                        taken: seq<Item>, skipped: seq<Item>, p: nat, tree: seq<Item>)
    returns (p': nat, skipped': seq<Item>)
    requires Sorted(q.tree) && Packing(q, overhead, limit, used, tier, taken, skipped, p)
    requires tree == skipped + q.tree[p..] && (forall x :: x in tree ==> InRange(x))
    requires limit - used - overhead <= MAX_I64
    requires |tree| == Find(tree, SortKey(tier, limit - used - overhead, MAX_I64), SortKey(tier + 1, MAX_I64, MAX_I64))
    ensures Packing(q, overhead, limit, used, tier + 1, taken, skipped', p')
    ensures p' <= |q.tree| && skipped' + q.tree[p'..] == tree
  {
    UnfitBefore(q, overhead, limit, used, tier, skipped, p, tree, |tree|);
    p' := TierEnd(q.tree, p, tier);
    hide Sorted, Find;
    PassOver(q, overhead, limit, used, taken, skipped, p, p');
    skipped' := skipped + q.tree[p..p'];
    assert skipped' + q.tree[p'..] == tree;
    hide Passed;
  }

  lemma TierEnd(tree: seq<Item>, p: nat, tier: int) returns (n: nat)
    requires Sorted(tree) && p <= |tree| && forall j :: p <= j < |tree| ==> tree[j].transmits >= tier
    ensures p <= n <= |tree|
    ensures forall j :: p <= j < n ==> tree[j].transmits == tier
    ensures forall j :: n <= j < |tree| ==> tree[j].transmits >= tier + 1
  {
    n := p;
    while n < |tree| && tree[n].transmits == tier
      invariant p <= n <= |tree|
      invariant forall j :: p <= j < n ==> tree[j].transmits == tier
    {
      n := n + 1;
    }
    forall j | n <= j < |tree| ensures tree[j].transmits >= tier + 1 {
      assert j == n || Less(tree[n], tree[j]);
    }
  }

  /** When the loop ends, the first-fit pass has nothing more to take. */
  lemma PackingDone(q: State, overhead: int, limit: int, used: int, tier: int,
                    taken: seq<Item>, skipped: seq<Item>, p: nat, maxTr: int)
    requires Sorted(q.tree) && q.tree != [] && Packing(q, overhead, limit, used, tier, taken, skipped, p)
    requires maxTr == q.tree[|q.tree| - 1].transmits
    requires tier > maxTr || limit - used - overhead <= 0
    ensures taken == Taken(q.tree, overhead, limit)
    ensures skipped + q.tree[p..] == Rest(q.tree, overhead, limit)
  {
    var items := q.tree[p..];
    if tier > maxTr {
      if p < |q.tree| { assert false; }
    }
    SkipUnfit(items, |items|, overhead, limit - used);
    assert items[..|items|] == items;
  }

  function TakenOut(q: State, x: Item, transmitLimit: int): (r: State)
  {
    if Spent(x, transmitLimit) then Finish(Delete(q, x), x) else Delete(q, x)
  }

  /** Taking out one more item after the others. */
  lemma TakenOutIs(q: State, taken: seq<Item>, tree: seq<Item>, i: nat, transmitLimit: int)
    requires Sorted(tree) && i < |tree|
    ensures TakenOut(WithoutTaken(q, taken, tree, transmitLimit), tree[i], transmitLimit)
            == WithoutTaken(q, taken + [tree[i]], tree[..i] + tree[i + 1..], transmitLimit)
    ensures Messages(taken + [tree[i]]) == Messages(taken) + [tree[i].b.msg]
    ensures Spent(tree[i], transmitLimit) ==> Bumped(taken + [tree[i]], transmitLimit) == Bumped(taken, transmitLimit)
    ensures !Spent(tree[i], transmitLimit) ==>
              Bumped(taken + [tree[i]], transmitLimit)
              == Bumped(taken, transmitLimit) + [tree[i].(transmits := tree[i].transmits + 1)]
  {
    var x := tree[i];
    assert (taken + [x])[..|taken|] == taken;
    DropAt(tree, i);
    NamesAppend(taken, x, q.tm);
    FinishedAppend(q, SpentOf(taken, transmitLimit), x);
  }

  lemma NothingTaken(q: State)
    ensures forall transmitLimit :: WithoutTaken(q, [], q.tree, transmitLimit) == q
    ensures q.tree[0..] == q.tree
  {}

  lemma NamesAppend(taken: seq<Item>, x: Item, tm: map<string, Item>)
    ensures tm - Names(taken + [x]) == if x.Name() != "" then tm - Names(taken) - {x.Name()} else tm - Names(taken)
  {}

  lemma FinishedAppend(q: State, xs: seq<Item>, x: Item)
    ensures FinishAll(q, xs + [x]).finished == FinishAll(q, xs).finished + [x.b.uid]
  {}

  lemma FinishAllFrame(q: State, xs: seq<Item>)
    ensures FinishAll(q, xs) == q.(finished := FinishAll(q, xs).finished)
  {}

  lemma TakenInRange(tree: seq<Item>, overhead: int, limit: int, transmitLimit: int)
    requires forall x :: x in tree ==> InRange(x)
    ensures forall x :: x in Bumped(Taken(tree, overhead, limit), transmitLimit) ==> InRange(x)
  {
    TakenPartition(tree, overhead, limit);
    BumpedInRange(Taken(tree, overhead, limit), transmitLimit);
  }

  lemma BumpedInRange(taken: seq<Item>, transmitLimit: int)
    requires forall x :: x in taken ==> InRange(x)
    ensures forall x :: x in Bumped(taken, transmitLimit) ==> InRange(x)
  {
    if taken != [] {
      BumpedInRange(taken[..|taken| - 1], transmitLimit);
      assert InRange(taken[|taken| - 1]);
    }
  }
}
