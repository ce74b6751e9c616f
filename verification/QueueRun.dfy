/** Runs of the broadcast queue: nothing is lost and nothing is finished twice exactly as long as no
    insertion meets an item with an equal key; and how that comes about. */
module QueueRun {
  import opened Base
  import opened Queue

  // ---------------------------------------------------------------- the invariant of the structure

  ghost predicate IdsInRange(q: State)
  {
    forall x :: x in q.tree ==> 1 <= x.id <= q.idGen
  }

  ghost predicate DistinctIds(tree: seq<Item>)
  {
    forall x, y :: x in tree && y in tree && x.id == y.id ==> x == y
  }

  /** No two items share a broadcast. */
  ghost predicate Separate(tree: seq<Item>)
  {
    forall x, y :: x in tree && y in tree && x.b.uid == y.b.uid ==> x == y
  }

  /** `tm` holds exactly the named items of the tree, one per name. */
  ghost predicate IndexExact(q: State)
  {
    && (forall n :: n in q.tm ==> n != "" && q.tm[n] in q.tree && q.tm[n].Name() == n)
    && (forall x :: x in q.tree && x.Name() != "" ==> x.Name() in q.tm && q.tm[x.Name()] == x)
  }

  ghost predicate Sane(q: State)
  {
    Sorted(q.tree) && Separate(q.tree) && IndexExact(q)
  }

  /** Ids are distinct, too, and none is above the generator. */
  ghost predicate Tidy(q: State)
  {
    Sane(q) && DistinctIds(q.tree) && IdsInRange(q)
  }

  /** How often a broadcast occurs among the items. */
  function Times(items: seq<Item>, u: nat): (n: nat)
  {
    if items == [] then 0 else One(items[0], u) + Times(items[1..], u)
  }

  function One(x: Item, u: nat): nat { if x.b.uid == u then 1 else 0 }

  lemma {:induction false} TimesAppend(items: seq<Item>, x: Item, u: nat)
    ensures Times(items + [x], u) == Times(items, u) + One(x, u)
  {
    if items == [] {
      assert [x][1..] == [] && items + [x] == [x];
    } else {
      TimesAppend(items[1..], x, u);
      assert (items + [x])[1..] == items[1..] + [x];
    }
  }

  lemma TimesLast(items: seq<Item>, u: nat)
    requires items != []
    ensures Times(items, u) == Times(items[..|items| - 1], u) + One(items[|items| - 1], u)
  {
    assert items == items[..|items| - 1] + [items[|items| - 1]];
    TimesAppend(items[..|items| - 1], items[|items| - 1], u);
  }

  lemma {:induction false} TimesMember(items: seq<Item>, u: nat)
    ensures Times(items, u) > 0 <==> exists x :: x in items && x.b.uid == u
  {
    if items != [] {
      TimesMember(items[1..], u);
      assert forall x :: x in items <==> x == items[0] || x in items[1..];
    }
  }

  // ---------------------------------------------------------------- tree operations

  /** Inserting loses an item exactly when Less cannot tell it from the new one. */
  lemma {:induction false} PutLoses(tree: seq<Item>, x: Item)
    requires Sorted(tree)
    ensures |Put(tree, x)| == |tree| + 1 <==> (forall y :: y in tree ==> KeyOf(y) != KeyOf(x))
  {
    if tree != [] {
      PutLoses(tree[1..], x);
      assert forall y :: y in tree <==> y == tree[0] || y in tree[1..];
      assert forall y :: y in tree[1..] ==> Less(tree[0], y);
    }
  }

  lemma {:induction false} PutTimes(tree: seq<Item>, x: Item, u: nat)
    requires forall y :: y in tree ==> KeyOf(y) != KeyOf(x)
    ensures Times(Put(tree, x), u) == Times(tree, u) + One(x, u)
  {
    if tree == [] {
      assert [x][1..] == [];
    } else if Less(x, tree[0]) {
      assert ([x] + tree)[1..] == tree;
    } else {
      assert tree[0] in tree;
      PutTimes(tree[1..], x, u);
      assert ([tree[0]] + Put(tree[1..], x))[1..] == Put(tree[1..], x);
    }
  }

  lemma {:induction false} DropTimes(tree: seq<Item>, x: Item, u: nat)
    requires Sorted(tree) && x in tree
    ensures Times(tree, u) == Times(Drop(tree, x), u) + One(x, u)
  {
    var rest := tree[1..];
    assert x == tree[0] || x in rest;
    assert forall y :: y in rest ==> Less(tree[0], y);
    if KeyOf(tree[0]) != KeyOf(x) {
      DropTimes(rest, x, u);
      assert ([tree[0]] + Drop(rest, x))[1..] == Drop(rest, x);
    }
  }

  // ---------------------------------------------------------------- deleting and adding

  lemma DeleteSane(q: State, x: Item)
    requires Sane(q) && x in q.tree
    ensures Sane(Delete(q, x))
    ensures forall y :: y in Delete(q, x).tree <==> y in q.tree && y != x
    ensures x.Name() !in Delete(q, x).tm
  {
    DropSorted(q.tree, x);
  }

  lemma AddSane(q: State, x: Item)
    requires Sane(q) && x.Name() !in q.tm
    requires forall y :: y in q.tree ==> KeyOf(y) != KeyOf(x) && y.b.uid != x.b.uid
    ensures Sane(Add(q, x))
    ensures forall y :: y in Add(q, x).tree <==> y in q.tree || y == x
  {
    PutSorted(q.tree, x);
  }

  /** Items to be deleted: in the tree, and no item twice. */
  ghost predicate Deletable(q: State, xs: seq<Item>)
  {
    Distinct(xs) && forall x :: x in xs ==> x in q.tree
  }

  lemma DeletableSplit(q: State, xs: seq<Item>)
    requires Deletable(q, xs) && xs != []
    ensures Deletable(q, xs[..|xs| - 1]) && xs[|xs| - 1] !in xs[..|xs| - 1] && xs[|xs| - 1] in q.tree
    ensures forall y :: y in xs <==> y in xs[..|xs| - 1] || y == xs[|xs| - 1]
  {}

  lemma {:induction false} DeleteAllSane(q: State, xs: seq<Item>)
    requires Sane(q) && Deletable(q, xs)
    ensures var q' := DeleteAll(q, xs);
            && Sane(q')
            && (forall y :: y in q'.tree <==> y in q.tree && y !in xs)
            && (forall x :: x in xs ==> x.Name() !in q'.tm)
            && q'.tm.Keys <= q.tm.Keys
            && q'.finished == q.finished
            && q'.idGen == (if xs != [] && q'.tree == [] then 0 else q.idGen)
    decreases |xs|
  {
    if xs != [] {
      var front, x := xs[..|xs| - 1], xs[|xs| - 1];
      DeletableSplit(q, xs);
      DeleteAllSane(q, front);
      var q1 := DeleteAll(q, front);
      hide Deletable, Sane;
      DeleteSane(q1, x);
      assert q1.tree != [];
    }
  }

  lemma {:induction false} DeleteAllTimes(q: State, xs: seq<Item>, u: nat)
    requires Sane(q) && Deletable(q, xs)
    ensures Times(q.tree, u) == Times(DeleteAll(q, xs).tree, u) + Times(xs, u)
    decreases |xs|
  {
    if xs != [] {
      var front, x := xs[..|xs| - 1], xs[|xs| - 1];
      var tree := DeleteAll(q, front).tree;
      assert Deletable(q, front) && Sorted(tree) && x in tree by {
        DeletableSplit(q, xs);
        DeleteAllSane(q, front);
      }
      hide Sane, Deletable, Sorted, Times;
      DeleteAllTimes(q, front, u);
      DropTimes(tree, x, u);
      TimesLast(xs, u);
    }
  }

  lemma {:induction false} FinishAllIs(q: State, xs: seq<Item>, u: nat)
    ensures var q' := FinishAll(q, xs);
            && q' == q.(finished := q'.finished)
            && multiset(q'.finished)[u] == multiset(q.finished)[u] + Times(xs, u)
    decreases |xs|
  {
    if xs != [] {
      var front, x := xs[..|xs| - 1], xs[|xs| - 1];
      FinishAllIs(q, front, u);
      TimesLast(xs, u);
    }
  }

  lemma {:induction false} OverriddenIn(tree: seq<Item>, b: Broadcast, inv: Invalidates)
    requires Sorted(tree)
    ensures var xs := Overridden(tree, b, inv);
            Distinct(xs) && (forall x :: x in xs ==> x in tree) && (forall x :: x in xs ==> x.Name() == "")
    decreases |tree|
  {
    if tree != [] {
      var front, x := tree[..|tree| - 1], tree[|tree| - 1];
      OverriddenIn(front, b, inv);
      assert forall y :: y in front ==> Less(y, x);
      assert x !in Overridden(front, b, inv);
      DistinctAppend(Overridden(front, b, inv), x);
    }
  }

  lemma VictimsIn(q: State, b: Broadcast, inv: Invalidates)
    requires Sane(q)
    ensures var xs := Victims(q, b, inv);
            && Deletable(q, xs)
            && (b.kind.Named? && b.kind.name in q.tm ==> xs == [q.tm[b.kind.name]])
  {
    OverriddenIn(q.tree, b, inv);
  }

  // ---------------------------------------------------------------- submitting

  /** Submitting `b` empties a tree that held something: the id generator is reset although the
      new item has already been given its id. */
  predicate SubmitResets(q: State, b: Broadcast, inv: Invalidates)
  {
    var xs := Victims(q, b, inv);
    xs != [] && DeleteAll(q, xs).tree == []
  }

  /** The queue when the new item is about to be added. */
  function Cleaned(q: State, b: Broadcast, inv: Invalidates): (r: State)
  {
    var xs := Victims(q, b, inv);
    DeleteAll(FinishAll(q.(idGen := NextId(q.idGen)), xs), xs)
  }

  lemma CleanedIs(q: State, b: Broadcast, inv: Invalidates)
    requires Sane(q)
    ensures var q' := Cleaned(q, b, inv);
            && Sane(q')
            && (forall y :: y in q'.tree <==> y in q.tree && y !in Victims(q, b, inv))
            && (b.kind.Named? ==> b.kind.name !in q'.tm)
            && "" !in q'.tm
            && q'.idGen == (if SubmitResets(q, b, inv) then 0 else NextId(q.idGen))
  {
    var xs := Victims(q, b, inv);
    VictimsIn(q, b, inv);
    var q0 := q.(idGen := NextId(q.idGen));
    var q1 := FinishAll(q0, xs);
    FinishAllIs(q0, xs, 0);
    assert Sane(q1) && Deletable(q1, xs);
    DeleteAllSane(q1, xs);
    DeleteAllTree(q, q1, xs);
  }

  lemma CleanedTimes(q: State, b: Broadcast, inv: Invalidates, u: nat)
    requires Sane(q)
    ensures var q' := Cleaned(q, b, inv);
            && Times(q.tree, u) == Times(q'.tree, u) + Times(Victims(q, b, inv), u)
            && multiset(q'.finished)[u] == multiset(q.finished)[u] + Times(Victims(q, b, inv), u)
  {
    var xs := Victims(q, b, inv);
    VictimsIn(q, b, inv);
    var q0 := q.(idGen := NextId(q.idGen));
    var q1 := FinishAll(q0, xs);
    FinishAllIs(q0, xs, u);
    assert Sane(q1) && Deletable(q1, xs);
    DeleteAllTimes(q1, xs, u);
    DeleteAllSane(q1, xs);
  }

  /** The item that submitting `b` inserts. */
  function NewItem(q: State, b: Broadcast, transmits: int): Item { Item(transmits, NextId(q.idGen), b) }

  /** An item that stays in the tree has the key of the new one. */
  predicate SubmitCollides(q: State, b: Broadcast, transmits: int, inv: Invalidates)
  {
    exists y :: y in Cleaned(q, b, inv).tree && KeyOf(y) == KeyOf(NewItem(q, b, transmits))
  }

  lemma SubmitSane(q: State, b: Broadcast, transmits: int, inv: Invalidates)
    requires Sane(q) && Times(q.tree, b.uid) == 0 && !SubmitCollides(q, b, transmits, inv)
    ensures var q' := Submit(q, b, transmits, inv);
            && Sane(q')
            && (forall y :: y in q'.tree <==>
                  (y in q.tree && y !in Victims(q, b, inv)) || y == NewItem(q, b, transmits))
            && q'.idGen == (if SubmitResets(q, b, inv) then 0 else NextId(q.idGen))
  {
    CleanedIs(q, b, inv);
    TimesMember(q.tree, b.uid);
    var q2 := Cleaned(q, b, inv);
    hide Sane, Cleaned, SubmitResets;
    AddSane(q2, NewItem(q, b, transmits));
    CleanedSubmit(q, b, transmits, inv);
  }

  lemma CleanedSubmit(q: State, b: Broadcast, transmits: int, inv: Invalidates)
    ensures Submit(q, b, transmits, inv) == Add(Cleaned(q, b, inv), NewItem(q, b, transmits))
  {}

  lemma SubmitTimes(q: State, b: Broadcast, transmits: int, inv: Invalidates, u: nat)
    requires Sane(q) && !SubmitCollides(q, b, transmits, inv)
    ensures var q' := Submit(q, b, transmits, inv);
            && Times(q'.tree, u) + multiset(q'.finished)[u]
               == Times(q.tree, u) + multiset(q.finished)[u] + (if b.uid == u then 1 else 0)
            && multiset(q.finished)[u] <= multiset(q'.finished)[u]
  {
    CleanedTimes(q, b, inv, u);
    PutTimes(Cleaned(q, b, inv).tree, NewItem(q, b, transmits), u);
    CleanedSubmit(q, b, transmits, inv);
  }

  /** An insertion that meets an equal key puts the new item in the place of the old one. */
  lemma {:induction false} PutReplaces(tree: seq<Item>, x: Item, y: Item, u: nat)
    requires Sorted(tree) && y in tree && KeyOf(y) == KeyOf(x)
    ensures Times(Put(tree, x), u) == Times(tree, u) - One(y, u) + One(x, u)
  {
    var rest := tree[1..];
    assert y == tree[0] || y in rest;
    assert forall z :: z in rest ==> Less(tree[0], z);
    if y == tree[0] {
      assert ([x] + rest)[1..] == rest;
    } else {
      PutReplaces(rest, x, y, u);
      assert ([tree[0]] + Put(rest, x))[1..] == Put(rest, x);
    }
  }

  /** The item that was there is then neither queued nor finished. */
  lemma SubmitLoses(q: State, b: Broadcast, transmits: int, inv: Invalidates) returns (u: nat)
    requires Sane(q) && Times(q.tree, b.uid) == 0 && SubmitCollides(q, b, transmits, inv)
    ensures u != b.uid && Times(q.tree, u) > 0
    ensures var q' := Submit(q, b, transmits, inv);
            Times(q'.tree, u) + multiset(q'.finished)[u] == Times(q.tree, u) + multiset(q.finished)[u] - 1
  {
    var q2, x := Cleaned(q, b, inv), NewItem(q, b, transmits);
    var y :| y in q2.tree && KeyOf(y) == KeyOf(x);
    u := y.b.uid;
    CleanedIs(q, b, inv);
    TimesMember(q.tree, b.uid);
    TimesMember(q.tree, u);
    CleanedTimes(q, b, inv, u);
    PutReplaces(q2.tree, x, y, u);
    CleanedSubmit(q, b, transmits, inv);
  }

  lemma {:induction false} DeleteAllTree(q: State, q': State, xs: seq<Item>)
    requires q.tree == q'.tree
    ensures DeleteAll(q, xs).tree == DeleteAll(q', xs).tree
    decreases |xs|
  {
    if xs != [] { DeleteAllTree(q, q', xs[..|xs| - 1]); }
  }

  /** A new id differs from all ids in order, and so does its key. */
  lemma TidySubmits(q: State, b: Broadcast, transmits: int, inv: Invalidates)
    requires Tidy(q) && 0 <= q.idGen < MAX_I64
    ensures !SubmitCollides(q, b, transmits, inv)
  {
    CleanedIs(q, b, inv);
  }

  /** Ids stay distinct and at most `idGen` exactly when submitting does not reset the generator. */
  lemma SubmitKeepsIds(q: State, b: Broadcast, transmits: int, inv: Invalidates)
    requires Tidy(q) && 0 <= q.idGen < MAX_I64 && Times(q.tree, b.uid) == 0
    ensures Tidy(Submit(q, b, transmits, inv)) <==> !SubmitResets(q, b, inv)
  {
    TidySubmits(q, b, transmits, inv);
    SubmitSane(q, b, transmits, inv);
    assert NewItem(q, b, transmits) in Submit(q, b, transmits, inv).tree;
  }

  // ---------------------------------------------------------------- getting

  /** A call that takes every item and has some of them put back. */
  predicate GetResets(q: State, overhead: int, limit: int, transmitLimit: int)
  {
    Rest(q.tree, overhead, limit) == [] && Bumped(Taken(q.tree, overhead, limit), transmitLimit) != []
  }

  /** An item that is put back has the key of one that was left in the tree. */
  predicate GetCollides(q: State, overhead: int, limit: int, transmitLimit: int)
  {
    var back := Bumped(Taken(q.tree, overhead, limit), transmitLimit);
    exists x, y :: x in back && y in Rest(q.tree, overhead, limit) && KeyOf(x) == KeyOf(y)
  }

  /** The item before it was sent once more. */
  function Was(y: Item): Item { y.(transmits := y.transmits - 1) }

  lemma {:induction false} BumpedMembers(taken: seq<Item>, transmitLimit: int)
    ensures forall y :: y in Bumped(taken, transmitLimit) <==> Was(y) in taken && !Spent(Was(y), transmitLimit)
    ensures forall y :: y in SpentOf(taken, transmitLimit) <==> y in taken && Spent(y, transmitLimit)
    decreases |taken|
  {
    if taken != [] {
      var front, x := taken[..|taken| - 1], taken[|taken| - 1];
      BumpedMembers(front, transmitLimit);
      forall y ensures y in Bumped(taken, transmitLimit) <==> Was(y) in taken && !Spent(Was(y), transmitLimit) {
        assert y == Was(y).(transmits := Was(y).transmits + 1);
        assert Was(y) in taken <==> Was(y) in front || Was(y) == x;
      }
    }
  }

  lemma {:induction false} BumpedTimes(taken: seq<Item>, transmitLimit: int, u: nat)
    ensures Times(taken, u) == Times(Bumped(taken, transmitLimit), u) + Times(SpentOf(taken, transmitLimit), u)
    decreases |taken|
  {
    if taken != [] {
      var front, x := taken[..|taken| - 1], taken[|taken| - 1];
      BumpedTimes(front, transmitLimit, u);
      TimesLast(taken, u);
      TimesAppend(Bumped(front, transmitLimit), x.(transmits := x.transmits + 1), u);
      TimesAppend(SpentOf(front, transmitLimit), x, u);
    }
  }

  lemma {:induction false} TakenTimes(items: seq<Item>, overhead: int, room: int, u: nat)
    ensures Times(items, u) == Times(Taken(items, overhead, room), u) + Times(Rest(items, overhead, room), u)
    decreases |items|
  {
    if items != [] {
      if Fits(items[0], overhead, room) {
        var t := Taken(items[1..], overhead, room - overhead - items[0].Len());
        TakenTimes(items[1..], overhead, room - overhead - items[0].Len(), u);
        assert ([items[0]] + t)[1..] == t;
      } else {
        var r := Rest(items[1..], overhead, room);
        TakenTimes(items[1..], overhead, room, u);
        assert ([items[0]] + r)[1..] == r;
      }
    }
  }

  /** Taken and left-over items are different items. */
  lemma {:induction false} TakenDisjoint(items: seq<Item>, overhead: int, room: int)
    requires Sorted(items)
    ensures forall x :: x in Taken(items, overhead, room) ==> x !in Rest(items, overhead, room)
    decreases |items|
  {
    if items != [] {
      var room' := if Fits(items[0], overhead, room) then room - overhead - items[0].Len() else room;
      TakenDisjoint(items[1..], overhead, room');
      TakenPartition(items[1..], overhead, room');
      assert forall y :: y in items[1..] ==> Less(items[0], y);
    }
  }

  /** Two items that have nothing in common that would let one displace the other. */
  predicate Apart(x: Item, y: Item)
  {
    KeyOf(x) != KeyOf(y) && x.b.uid != y.b.uid && (x.Name() != "" ==> x.Name() != y.Name())
  }

  ghost predicate AllApart(xs: seq<Item>)
  {
    forall i, j :: 0 <= i < j < |xs| ==> Apart(xs[i], xs[j])
  }

  /** Items to be added: no two alike, and unlike those that are there. */
  ghost predicate Addable(q: State, xs: seq<Item>)
  {
    && AllApart(xs)
    && (forall x :: x in xs ==> x.Name() !in q.tm)
    && (forall x, y :: x in xs && y in q.tree ==> KeyOf(x) != KeyOf(y) && x.b.uid != y.b.uid)
  }

  lemma AddableSplit(q: State, xs: seq<Item>)
    requires Addable(q, xs) && xs != []
    ensures Addable(q, xs[..|xs| - 1])
    ensures var x := xs[|xs| - 1];
            && x.Name() !in q.tm
            && (forall y :: y in q.tree ==> KeyOf(x) != KeyOf(y) && x.b.uid != y.b.uid)
            && (forall y :: y in xs[..|xs| - 1] ==> Apart(y, x))
            && (forall y :: y in xs <==> y in xs[..|xs| - 1] || y == x)
  {}

  lemma {:induction false} AddAllSane(q: State, xs: seq<Item>)
    requires Sane(q) && Addable(q, xs)
    ensures var q' := AddAll(q, xs);
            && Sane(q')
            && (forall y :: y in q'.tree <==> y in q.tree || y in xs)
            && (forall n :: n in q'.tm <==> n in q.tm || n in Names(xs))
            && q'.finished == q.finished && q'.idGen == q.idGen
    decreases |xs|
  {
    if xs != [] {
      var front, x := xs[..|xs| - 1], xs[|xs| - 1];
      AddableSplit(q, xs);
      AddAllSane(q, front);
      var q1 := AddAll(q, front);
      hide Addable;
      assert x.Name() !in Names(front) && "" !in Names(front);
      assert forall n :: n in Names(xs) <==> n in Names(front) || (n == x.Name() && n != "");
      AddSane(q1, x);
    }
  }

  lemma {:induction false} AddAllTimes(q: State, xs: seq<Item>, u: nat)
    requires Sane(q) && Addable(q, xs)
    ensures Times(AddAll(q, xs).tree, u) == Times(q.tree, u) + Times(xs, u)
    decreases |xs|
  {
    if xs != [] {
      var front, x := xs[..|xs| - 1], xs[|xs| - 1];
      AddableSplit(q, xs);
      AddAllSane(q, front);
      AddAllTimes(q, front, u);
      hide Addable;
      PutTimes(AddAll(q, front).tree, x, u);
      TimesLast(xs, u);
    }
  }

  /** The tree in two parts. */
  ghost predicate Parted(tree: seq<Item>, taken: seq<Item>, rest: seq<Item>)
  {
    && (forall x :: x in tree <==> x in taken || x in rest)
    && (forall x :: x in taken ==> x !in rest)
    && Sorted(taken) && Sorted(rest)
  }

  lemma TreeParted(tree: seq<Item>, overhead: int, room: int)
    requires Sorted(tree)
    ensures Parted(tree, Taken(tree, overhead, room), Rest(tree, overhead, room))
  {
    TakenPartition(tree, overhead, room);
    TakenDisjoint(tree, overhead, room);
    RestSorted(tree, overhead, room);
  }

  lemma RestIndexed(q: State, taken: seq<Item>, rest: seq<Item>)
    requires IndexExact(q) && Parted(q.tree, taken, rest)
    ensures IndexExact(q.(tree := rest, tm := q.tm - Names(taken)))
  {}

  lemma WithoutTakenSane(q: State, overhead: int, limit: int, transmitLimit: int)
    requires Sane(q)
    ensures Sane(WithoutTaken(q, Taken(q.tree, overhead, limit), Rest(q.tree, overhead, limit), transmitLimit))
  {
    var taken, rest := Taken(q.tree, overhead, limit), Rest(q.tree, overhead, limit);
    TreeParted(q.tree, overhead, limit);
    RestIndexed(q, taken, rest);
    hide Sorted, Taken, Rest, IndexExact;
    IndexDepends(q.(tree := rest, tm := q.tm - Names(taken)), WithoutTaken(q, taken, rest, transmitLimit));
  }

  lemma IndexDepends(q: State, q': State)
    requires IndexExact(q) && q'.tree == q.tree && q'.tm == q.tm
    ensures IndexExact(q')
  {}

  lemma BumpedAddable(q: State, overhead: int, limit: int, transmitLimit: int)
    requires Sane(q) && !GetCollides(q, overhead, limit, transmitLimit)
    ensures var taken := Taken(q.tree, overhead, limit);
            Addable(WithoutTaken(q, taken, Rest(q.tree, overhead, limit), transmitLimit), Bumped(taken, transmitLimit))
  {
    var taken, rest := Taken(q.tree, overhead, limit), Rest(q.tree, overhead, limit);
    TreeParted(q.tree, overhead, limit);
    hide Taken, Rest, Sorted, Bumped, IndexExact, AllApart;
    BumpedMembers(taken, transmitLimit);
    BumpedApart(q, taken, transmitLimit);
    forall x | x in Bumped(taken, transmitLimit) ensures x.Name() !in q.tm - Names(taken) {
      BumpedName(q, taken, rest, x);
    }
    forall x, y | x in Bumped(taken, transmitLimit) && y in rest ensures KeyOf(x) != KeyOf(y) && x.b.uid != y.b.uid {
      BumpedUnlike(q, taken, rest, x, y);
    }
  }

  lemma BumpedName(q: State, taken: seq<Item>, rest: seq<Item>, x: Item)
    requires IndexExact(q) && Was(x) in taken
    ensures x.Name() !in q.tm - Names(taken)
  {}

  lemma BumpedUnlike(q: State, taken: seq<Item>, rest: seq<Item>, x: Item, y: Item)
    requires Separate(q.tree) && Parted(q.tree, taken, rest) && Was(x) in taken && y in rest
    ensures x.b.uid != y.b.uid && (DistinctIds(q.tree) ==> x.id != y.id)
  {}

  lemma BumpedPair(q: State, x: Item, y: Item)
    requires Separate(q.tree) && IndexExact(q) && Was(x) in q.tree && Was(y) in q.tree && Less(Was(x), Was(y))
    ensures Apart(x, y)
  {}

  lemma ApartAppend(xs: seq<Item>, x: Item)
    requires AllApart(xs) && forall y :: y in xs ==> Apart(y, x)
    ensures AllApart(xs + [x])
  {}

  lemma {:induction false} BumpedApart(q: State, taken: seq<Item>, transmitLimit: int)
    requires Separate(q.tree) && IndexExact(q) && Sorted(taken) && forall x :: x in taken ==> x in q.tree
    ensures AllApart(Bumped(taken, transmitLimit))
    decreases |taken|
  {
    if taken != [] {
      var front, x := taken[..|taken| - 1], taken[|taken| - 1];
      var x' := x.(transmits := x.transmits + 1);
      assert forall y :: y in front ==> Less(y, x);
      BumpedApart(q, front, transmitLimit);
      hide Separate, IndexExact, Sorted, AllApart;
      BumpedMembers(front, transmitLimit);
      assert Was(x') == x && x in taken;
      forall y | y in Bumped(front, transmitLimit) ensures Apart(y, x') {
        assert Was(y) in front && Was(y) in taken;
        BumpedPair(q, y, x');
      }
      ApartAppend(Bumped(front, transmitLimit), x');
    }
  }

  lemma GetSane(q: State, overhead: int, limit: int, transmitLimit: int)
    requires Sane(q) && !GetCollides(q, overhead, limit, transmitLimit)
    ensures var q' := Get(q, overhead, limit, transmitLimit).0;
            var taken, rest := Taken(q.tree, overhead, limit), Rest(q.tree, overhead, limit);
            && Sane(q')
            && (forall y :: y in q'.tree <==> y in rest || y in Bumped(taken, transmitLimit))
            && q'.idGen == (if rest == [] && taken != [] then 0 else q.idGen)
            && q'.finished == FinishAll(q, SpentOf(taken, transmitLimit)).finished
  {
    var taken, rest := Taken(q.tree, overhead, limit), Rest(q.tree, overhead, limit);
    WithoutTakenSane(q, overhead, limit, transmitLimit);
    BumpedAddable(q, overhead, limit, transmitLimit);
    hide Sane, Addable, Taken, Rest;
    AddAllSane(WithoutTaken(q, taken, rest, transmitLimit), Bumped(taken, transmitLimit));
  }

  lemma GetTimes(q: State, overhead: int, limit: int, transmitLimit: int, u: nat)
    requires Sane(q) && !GetCollides(q, overhead, limit, transmitLimit)
    ensures var q' := Get(q, overhead, limit, transmitLimit).0;
            var spent := SpentOf(Taken(q.tree, overhead, limit), transmitLimit);
            && Times(q'.tree, u) + Times(spent, u) == Times(q.tree, u)
            && multiset(q'.finished)[u] == multiset(q.finished)[u] + Times(spent, u)
  {
    var taken, rest := Taken(q.tree, overhead, limit), Rest(q.tree, overhead, limit);
    WithoutTakenSane(q, overhead, limit, transmitLimit);
    BumpedAddable(q, overhead, limit, transmitLimit);
    GetSane(q, overhead, limit, transmitLimit);
    hide Sane, Addable, Taken, Rest;
    AddAllTimes(WithoutTaken(q, taken, rest, transmitLimit), Bumped(taken, transmitLimit), u);
    TakenTimes(q.tree, overhead, limit, u);
    BumpedTimes(taken, transmitLimit, u);
    FinishAllIs(q, SpentOf(taken, transmitLimit), u);
  }

  /** Inserting never brings back an item whose key has been taken. */
  lemma {:induction false} AddAllReplaces(q: State, xs: seq<Item>, u: nat)
    requires Sorted(q.tree) && forall x :: x in xs ==> x.b.uid != u
    ensures Sorted(AddAll(q, xs).tree) && AddAll(q, xs).finished == q.finished
    ensures forall z :: z in AddAll(q, xs).tree && z.b.uid == u ==>
              z in q.tree && forall x :: x in xs ==> KeyOf(x) != KeyOf(z)
    decreases |xs|
  {
    if xs != [] {
      var front, x := xs[..|xs| - 1], xs[|xs| - 1];
      AddAllReplaces(q, front, u);
      PutSorted(AddAll(q, front).tree, x);
      assert forall y :: y in xs <==> y in front || y == x;
    }
  }

  /** A left-over item whose key is taken by one that is put back is neither queued nor finished. */
  lemma GetLoses(q: State, overhead: int, limit: int, transmitLimit: int) returns (u: nat)
    requires Sane(q) && GetCollides(q, overhead, limit, transmitLimit)
    ensures Times(q.tree, u) > 0
    ensures var q' := Get(q, overhead, limit, transmitLimit).0;
            Times(q'.tree, u) == 0 && multiset(q'.finished)[u] == multiset(q.finished)[u]
  {
    hide Sorted, Taken, Rest, Bumped, SpentOf, IndexExact, Times, AddAll, FinishAll;
    var taken, rest := Taken(q.tree, overhead, limit), Rest(q.tree, overhead, limit);
    var back, spent := Bumped(taken, transmitLimit), SpentOf(taken, transmitLimit);
    var x, y :| x in back && y in rest && KeyOf(x) == KeyOf(y);
    u := y.b.uid;
    TreeParted(q.tree, overhead, limit);
    BumpedMembers(taken, transmitLimit);
    assert forall z :: z in taken ==> z.b.uid != u;
    assert forall z :: z in rest && z.b.uid == u ==> z == y;
    var q1 := WithoutTaken(q, taken, rest, transmitLimit);
    AddAllReplaces(q1, back, u);
    TimesMember(q.tree, u);
    TimesMember(spent, u);
    TimesMember(AddAll(q1, back).tree, u);
    FinishAllIs(q, spent, u);
  }

  lemma TidyGets(q: State, overhead: int, limit: int, transmitLimit: int)
    requires Tidy(q)
    ensures !GetCollides(q, overhead, limit, transmitLimit)
  {
    var taken, rest := Taken(q.tree, overhead, limit), Rest(q.tree, overhead, limit);
    TreeParted(q.tree, overhead, limit);
    BumpedMembers(taken, transmitLimit);
    hide Sorted, Taken, Rest, Bumped, SpentOf, IndexExact;
    forall x, y | x in Bumped(taken, transmitLimit) && y in rest ensures KeyOf(x) != KeyOf(y) {
      BumpedUnlike(q, taken, rest, x, y);
    }
  }

  /** Ids stay distinct and at most `idGen` exactly when the call does not empty the tree while
      items wait to be put back. */
  lemma GetKeepsIds(q: State, overhead: int, limit: int, transmitLimit: int)
    requires Tidy(q)
    ensures Tidy(Get(q, overhead, limit, transmitLimit).0) <==> !GetResets(q, overhead, limit, transmitLimit)
  {
    TidyGets(q, overhead, limit, transmitLimit);
    GetSane(q, overhead, limit, transmitLimit);
    var taken, rest := Taken(q.tree, overhead, limit), Rest(q.tree, overhead, limit);
    var q' := Get(q, overhead, limit, transmitLimit).0;
    TakenPartition(q.tree, overhead, limit);
    BumpedMembers(taken, transmitLimit);
    forall y | y in q'.tree ensures 1 <= y.id <= q.idGen {
      if y !in rest { assert Was(y) in q.tree; }
    }
    GetDistinctIds(q, overhead, limit, transmitLimit);
    if GetResets(q, overhead, limit, transmitLimit) {
      assert Bumped(taken, transmitLimit)[0] in q'.tree;
    }
  }

  lemma GetDistinctIds(q: State, overhead: int, limit: int, transmitLimit: int)
    requires Tidy(q)
    ensures DistinctIds(Get(q, overhead, limit, transmitLimit).0.tree)
  {
    var taken, rest := Taken(q.tree, overhead, limit), Rest(q.tree, overhead, limit);
    TidyGets(q, overhead, limit, transmitLimit);
    GetSane(q, overhead, limit, transmitLimit);
    TreeParted(q.tree, overhead, limit);
    BumpedMembers(taken, transmitLimit);
    hide Sorted, Taken, Rest, Bumped, SpentOf, IndexExact, Get;
    var back := Bumped(taken, transmitLimit);
    forall x, y | (x in rest || x in back) && (y in rest || y in back) && x.id == y.id ensures x == y
    {
      if x in rest && y !in rest { BumpedUnlike(q, taken, rest, y, x); }
      if x !in rest && y in rest { BumpedUnlike(q, taken, rest, x, y); }
    }
  }

  // ---------------------------------------------------------------- runs

  datatype Op =
    | Queued(b: Broadcast)
    | Got(overhead: int, limit: int, transmitLimit: int)
    | Pruned(maxRetain: int)
    | Cleared

  /** The queue with its books: what was submitted, what was sent, and what reached the transmit limit. */
  datatype Ledger = Ledger(q: State, submitted: set<nat>, sent: seq<nat>, expired: set<nat>)

  const START := Ledger(Queue.EMPTY, {}, [], {})

  /** A submitted broadcast is a new object. */
  predicate Enabled(l: Ledger, op: Op) { op.Queued? ==> op.b.uid !in l.submitted }

  function UidList(items: seq<Item>): (r: seq<nat>)
  {
    if items == [] then [] else [items[0].b.uid] + UidList(items[1..])
  }

  function Next(l: Ledger, op: Op, inv: Invalidates): (l': Ledger)
  {
    match op
    case Queued(b) => l.(q := Submit(l.q, b, 0, inv), submitted := l.submitted + {b.uid})
    case Got(overhead, limit, transmitLimit) =>
      var taken := Taken(l.q.tree, overhead, limit);
      l.(q := Get(l.q, overhead, limit, transmitLimit).0,
         sent := l.sent + UidList(taken),
         expired := l.expired + set x | x in SpentOf(taken, transmitLimit) :: x.b.uid)
    case Pruned(maxRetain) => l.(q := Prune(l.q, maxRetain))
    case Cleared => l.(q := Reset(l.q))
  }

  /** An insertion meets an item with an equal key, and replaces it. */
  predicate Collides(l: Ledger, op: Op, inv: Invalidates)
  {
    match op
    case Queued(b) => SubmitCollides(l.q, b, 0, inv)
    case Got(overhead, limit, transmitLimit) => GetCollides(l.q, overhead, limit, transmitLimit)
    case Pruned(_) => false
    case Cleared => false
  }

  /** The id generator starts anew while an item is out of the tree, or because it is exhausted. */
  predicate Resets(l: Ledger, op: Op, inv: Invalidates)
  {
    match op
    case Queued(b) => l.q.idGen == MAX_I64 || SubmitResets(l.q, b, inv)
    case Got(overhead, limit, transmitLimit) => GetResets(l.q, overhead, limit, transmitLimit)
    case Pruned(_) => false
    case Cleared => false
  }

  ghost predicate IsRun(states: seq<Ledger>, ops: seq<Op>, inv: Invalidates)
  {
    && |states| == |ops| + 1 && states[0] == START
    && forall k :: 0 <= k < |ops| ==> Enabled(states[k], ops[k]) && states[k + 1] == Next(states[k], ops[k], inv)
  }

  /** Every submitted broadcast is queued or finished, and only once. */
  ghost predicate Conserved(l: Ledger)
  {
    forall u: nat :: Times(l.q.tree, u) + multiset(l.q.finished)[u] == if u in l.submitted then 1 else 0
  }

  /** Queued items have been sent as often as they say; expired ones are finished. */
  ghost predicate Counted(l: Ledger)
  {
    && (forall x :: x in l.q.tree ==> multiset(l.sent)[x.b.uid] == x.transmits)
    && (forall u: nat :: u !in l.submitted ==> multiset(l.sent)[u] == 0)
    && (forall u: nat :: u in l.expired ==> multiset(l.q.finished)[u] == 1)
  }

  ghost predicate Inv(l: Ledger)
  {
    Sane(l.q) && Conserved(l) && Counted(l)
  }

  lemma QueuedInv(l: Ledger, b: Broadcast, inv: Invalidates)
    requires Inv(l) && Enabled(l, Queued(b)) && !SubmitCollides(l.q, b, 0, inv)
    ensures Inv(Next(l, Queued(b), inv))
  {
    hide Submit, Sane, SubmitCollides, SubmitResets, Victims, Counted;
    var l' := Next(l, Queued(b), inv);
    assert Times(l.q.tree, b.uid) == 0;
    SubmitSane(l.q, b, 0, inv);
    forall u: nat
      ensures Times(l'.q.tree, u) + multiset(l'.q.finished)[u] == if u in l'.submitted then 1 else 0
      ensures multiset(l.q.finished)[u] <= multiset(l'.q.finished)[u]
    {
      SubmitTimes(l.q, b, 0, inv, u);
    }
    CountedKept(l, l');
  }

  lemma GotInv(l: Ledger, overhead: int, limit: int, transmitLimit: int, inv: Invalidates)
    requires Inv(l) && !GetCollides(l.q, overhead, limit, transmitLimit)
    ensures Inv(Next(l, Got(overhead, limit, transmitLimit), inv))
  {
    hide Get, Taken, Rest, Sane, GetCollides, Counted;
    var l' := Next(l, Got(overhead, limit, transmitLimit), inv);
    GetSane(l.q, overhead, limit, transmitLimit);
    forall u: nat
      ensures Times(l'.q.tree, u) + multiset(l'.q.finished)[u] == if u in l'.submitted then 1 else 0
    {
      GetTimes(l.q, overhead, limit, transmitLimit, u);
    }
    GotCounts(l, l', overhead, limit, transmitLimit);
  }

  lemma {:induction false} UidTimes(taken: seq<Item>, u: nat)
    ensures multiset(UidList(taken))[u] == Times(taken, u)
  {
    if taken != [] {
      UidTimes(taken[1..], u);
      assert multiset([taken[0].b.uid] + UidList(taken[1..]))[u] == One(taken[0], u) + multiset(UidList(taken[1..]))[u];
    }
  }

  lemma SentTimes(sent: seq<nat>, taken: seq<Item>, u: nat)
    ensures multiset(sent + UidList(taken))[u] == multiset(sent)[u] + Times(taken, u)
  {
    UidTimes(taken, u);
    hide UidList, Times;
  }

  /** A taken item was sent once more, a left-over one was not. */
  lemma SentOnce(l: Ledger, overhead: int, limit: int, x: Item)
    requires Sane(l.q) && Conserved(l) && x in l.q.tree
    ensures var taken := Taken(l.q.tree, overhead, limit);
            Times(taken, x.b.uid) == (if x in taken then 1 else 0)
  {
    var taken := Taken(l.q.tree, overhead, limit);
    TakenPartition(l.q.tree, overhead, limit);
    TakenTimes(l.q.tree, overhead, limit, x.b.uid);
    TimesMember(taken, x.b.uid);
  }

  /** The books after a call that gets broadcasts. */
  ghost predicate GotFrom(l: Ledger, l': Ledger, overhead: int, limit: int, transmitLimit: int)
  {
    var taken := Taken(l.q.tree, overhead, limit);
    && (forall y :: y in l'.q.tree <==> y in Rest(l.q.tree, overhead, limit) || y in Bumped(taken, transmitLimit))
    && l'.q.finished == FinishAll(l.q, SpentOf(taken, transmitLimit)).finished
    && l'.sent == l.sent + UidList(taken) && l'.submitted == l.submitted
    && l'.expired == l.expired + set x | x in SpentOf(taken, transmitLimit) :: x.b.uid
  }

  lemma GotCounts(l: Ledger, l': Ledger, overhead: int, limit: int, transmitLimit: int)
    requires Sane(l.q) && Conserved(l) && Counted(l) && GotFrom(l, l', overhead, limit, transmitLimit)
    ensures Counted(l')
  {
    hide Sane, Taken, Rest, Conserved, FinishAll, Bumped, SpentOf;
    forall x | x in l'.q.tree ensures multiset(l'.sent)[x.b.uid] == x.transmits {
      QueuedCount(l, overhead, limit, transmitLimit, x);
    }
    forall u: nat | u !in l'.submitted ensures multiset(l'.sent)[u] == 0 {
      NeverSent(l, overhead, limit, u);
    }
    forall u: nat | u in l'.expired ensures multiset(l'.q.finished)[u] == 1 {
      ExpiredFinished(l, overhead, limit, transmitLimit, u);
    }
  }

  lemma QueuedCount(l: Ledger, overhead: int, limit: int, transmitLimit: int, x: Item)
    requires Sane(l.q) && Conserved(l) && Counted(l)
    requires var taken := Taken(l.q.tree, overhead, limit);
             x in Rest(l.q.tree, overhead, limit) || x in Bumped(taken, transmitLimit)
    ensures multiset(l.sent + UidList(Taken(l.q.tree, overhead, limit)))[x.b.uid] == x.transmits
  {
    var taken, rest := Taken(l.q.tree, overhead, limit), Rest(l.q.tree, overhead, limit);
    TreeParted(l.q.tree, overhead, limit);
    BumpedMembers(taken, transmitLimit);
    hide Sorted, Taken, Rest, Bumped, SpentOf, Conserved;
    SentTimes(l.sent, taken, x.b.uid);
    SentOnce(l, overhead, limit, if x in rest then x else Was(x));
  }

  lemma NeverSent(l: Ledger, overhead: int, limit: int, u: nat)
    requires Conserved(l) && u !in l.submitted && multiset(l.sent)[u] == 0
    ensures multiset(l.sent + UidList(Taken(l.q.tree, overhead, limit)))[u] == 0
  {
    SentTimes(l.sent, Taken(l.q.tree, overhead, limit), u);
    TakenTimes(l.q.tree, overhead, limit, u);
  }

  /** What was expired stays as it is; what expires now is finished now. */
  lemma ExpiredFinished(l: Ledger, overhead: int, limit: int, transmitLimit: int, u: nat)
    requires Sane(l.q) && Conserved(l) && Counted(l)
    requires var spent := SpentOf(Taken(l.q.tree, overhead, limit), transmitLimit);
             u in l.expired || exists x :: x in spent && x.b.uid == u
    ensures var taken := Taken(l.q.tree, overhead, limit);
            && (u in l.expired ==> Times(taken, u) == 0)
            && multiset(FinishAll(l.q, SpentOf(taken, transmitLimit)).finished)[u] == 1
  {
    var taken := Taken(l.q.tree, overhead, limit);
    var spent := SpentOf(taken, transmitLimit);
    FinishAllIs(l.q, spent, u);
    TakenTimes(l.q.tree, overhead, limit, u);
    BumpedTimes(taken, transmitLimit, u);
    TimesMember(spent, u);
    hide Taken, Rest, SpentOf, Bumped, FinishAll;
  }

  /** Prune removes from the end, finishing what it removes. */
  lemma {:induction false} PruneSane(q: State, maxRetain: int)
    requires Sane(q)
    ensures var kept := if maxRetain < 0 then 0 else if maxRetain < |q.tree| then maxRetain else |q.tree|;
            var q' := Prune(q, maxRetain);
            Sane(q') && q'.tree == q.tree[..kept] && (q'.idGen == q.idGen || q'.tree == [])
    decreases |q.tree|
  {
    if !(|q.tree| <= maxRetain || q.tree == []) {
      hide Sane, Delete;
      PruneOne(q);
      var n := |q.tree| - 1;
      PruneSane(Delete(Finish(q, q.tree[n]), q.tree[n]), maxRetain);
    }
  }

  lemma PruneOne(q: State)
    requires Sane(q) && q.tree != []
    ensures var n := |q.tree| - 1;
            var q' := Delete(Finish(q, q.tree[n]), q.tree[n]);
            Sane(q') && q'.tree == q.tree[..n] && q'.idGen == if n == 0 then 0 else q.idGen
  {
    var n := |q.tree| - 1;
    var q1 := Finish(q, q.tree[n]);
    assert Sane(q1);
    DeleteSane(q1, q.tree[n]);
    DropAt(q.tree, n);
    assert q.tree[..n] + q.tree[n + 1..] == q.tree[..n];
  }

  lemma {:induction false} PruneTimes(q: State, maxRetain: int, u: nat)
    requires Sane(q)
    ensures var q' := Prune(q, maxRetain);
            && Times(q.tree, u) + multiset(q.finished)[u] == Times(q'.tree, u) + multiset(q'.finished)[u]
            && multiset(q.finished)[u] <= multiset(q'.finished)[u]
    decreases |q.tree|
  {
    if !(|q.tree| <= maxRetain || q.tree == []) {
      PruneOne(q);
      var x := q.tree[|q.tree| - 1];
      DropTimes(q.tree, x, u);
      PruneTimes(Delete(Finish(q, x), x), maxRetain, u);
    }
  }

  /** Nothing is sent, new items come unsent, and others only leave the tree for `finished`. */
  ghost predicate Unsent(l: Ledger, l': Ledger)
  {
    && l'.sent == l.sent && l.submitted <= l'.submitted && l'.expired == l.expired
    && (forall x :: x in l'.q.tree ==> x in l.q.tree || (x.b.uid !in l.submitted && x.transmits == 0))
  }

  lemma CountedKept(l: Ledger, l': Ledger)
    requires Counted(l) && Conserved(l') && Unsent(l, l')
    requires forall u: nat :: multiset(l.q.finished)[u] <= multiset(l'.q.finished)[u]
    ensures Counted(l')
  {
    forall u: nat | u in l'.expired ensures multiset(l'.q.finished)[u] == 1 {
      assert Times(l'.q.tree, u) + multiset(l'.q.finished)[u] <= 1;
    }
  }

  lemma PrunedInv(l: Ledger, maxRetain: int, inv: Invalidates)
    requires Inv(l)
    ensures Inv(Next(l, Pruned(maxRetain), inv))
  {
    hide Sane, Prune, Counted;
    var l' := Next(l, Pruned(maxRetain), inv);
    PruneSane(l.q, maxRetain);
    forall u: nat
      ensures Times(l'.q.tree, u) + multiset(l'.q.finished)[u] == if u in l'.submitted then 1 else 0
      ensures multiset(l.q.finished)[u] <= multiset(l'.q.finished)[u]
    {
      PruneTimes(l.q, maxRetain, u);
    }
    CountedKept(l, l');
  }

  lemma ClearedInv(l: Ledger, inv: Invalidates)
    requires Inv(l)
    ensures Inv(Next(l, Cleared, inv))
  {
    hide Counted;
    var l' := Next(l, Cleared, inv);
    forall u: nat
      ensures Times(l'.q.tree, u) + multiset(l'.q.finished)[u] == if u in l'.submitted then 1 else 0
      ensures multiset(l.q.finished)[u] <= multiset(l'.q.finished)[u]
    {
      FinishAllIs(l.q, l.q.tree, u);
    }
    CountedKept(l, l');
  }

  lemma StepInv(l: Ledger, op: Op, inv: Invalidates)
    requires Inv(l) && Enabled(l, op) && !Collides(l, op, inv)
    ensures Inv(Next(l, op, inv))
  {
    hide Inv, Next, SubmitCollides, GetCollides;
    match op
    case Queued(b) => QueuedInv(l, b, inv);
    case Got(overhead, limit, transmitLimit) => GotInv(l, overhead, limit, transmitLimit, inv);
    case Pruned(maxRetain) => PrunedInv(l, maxRetain, inv);
    case Cleared => ClearedInv(l, inv);
  }

  // ---------------------------------------------------------------- when nothing is lost

  /** From any state in order, a step keeps every broadcast queued or finished, once, exactly if no
      insertion meets an equal key; and then the state is in order again. */
  lemma StepConserves(l: Ledger, op: Op, inv: Invalidates)
    requires Inv(l) && Enabled(l, op)
    ensures Conserved(Next(l, op, inv)) <==> !Collides(l, op, inv)
    ensures !Collides(l, op, inv) ==> Inv(Next(l, op, inv))
  {
    if !Collides(l, op, inv) {
      StepInv(l, op, inv);
    } else if op.Queued? {
      var u := SubmitLoses(l.q, op.b, 0, inv);
      assert Times(l.q.tree, u) + multiset(l.q.finished)[u] == 1;
    } else {
      var u := GetLoses(l.q, op.overhead, op.limit, op.transmitLimit);
      assert Times(l.q.tree, u) + multiset(l.q.finished)[u] == 1;
    }
  }

  ghost predicate CollisionFree(states: seq<Ledger>, ops: seq<Op>, inv: Invalidates, k: nat)
    requires k <= |ops| && k <= |states|
  {
    forall i :: 0 <= i < k ==> !Collides(states[i], ops[i], inv)
  }

  /** In every run in which no insertion meets an equal key: `tm` is exactly the named items of the
      tree, every broadcast is either queued or finished, once, and has been sent as often as its
      item says. */
  lemma {:induction false} Conservation(states: seq<Ledger>, ops: seq<Op>, inv: Invalidates, k: nat)
    requires IsRun(states, ops, inv) && k < |states| && CollisionFree(states, ops, inv, k)
    ensures Inv(states[k])
  {
    if k > 0 {
      Conservation(states, ops, inv, k - 1);
      assert states[k - 1 + 1] == Next(states[k - 1], ops[k - 1], inv);
      hide Inv, Next, Collides;
      StepInv(states[k - 1], ops[k - 1], inv);
    }
  }

  /** These are all such runs: nothing is lost, or finished twice, at any point of a run exactly if
      no insertion before meets an equal key. */
  lemma {:induction false} ConservedExactly(states: seq<Ledger>, ops: seq<Op>, inv: Invalidates, k: nat)
    requires IsRun(states, ops, inv) && k < |states|
    ensures (forall i :: 0 <= i <= k ==> Conserved(states[i])) <==> CollisionFree(states, ops, inv, k)
  {
    if k > 0 {
      ConservedExactly(states, ops, inv, k - 1);
      if CollisionFree(states, ops, inv, k - 1) {
        Conservation(states, ops, inv, k - 1);
        assert states[k - 1 + 1] == Next(states[k - 1], ops[k - 1], inv);
        StepConserves(states[k - 1], ops[k - 1], inv);
      }
    } else {
      Conservation(states, ops, inv, 0);
    }
  }

  // ---------------------------------------------------------------- a constant limit

  /** How often a broadcast is sent in all. */
  function Transmissions(transmitLimit: int): int { if transmitLimit < 1 then 1 else transmitLimit }

  /** Queued items are below the limit, and expired ones have reached it. */
  ghost predicate Limited(l: Ledger, transmitLimit: int)
  {
    && (forall x :: x in l.q.tree ==> x.transmits < Transmissions(transmitLimit))
    && (forall u: nat :: u in l.expired ==> multiset(l.sent)[u] == Transmissions(transmitLimit))
  }

  lemma GotLimited(l: Ledger, l': Ledger, overhead: int, limit: int, transmitLimit: int)
    requires Sane(l.q) && Conserved(l) && Counted(l) && GotFrom(l, l', overhead, limit, transmitLimit)
    requires Limited(l, transmitLimit)
    ensures Limited(l', transmitLimit)
  {
    var taken, rest := Taken(l.q.tree, overhead, limit), Rest(l.q.tree, overhead, limit);
    TreeParted(l.q.tree, overhead, limit);
    BumpedMembers(taken, transmitLimit);
    hide Sane, Taken, Rest, Conserved, FinishAll, Bumped, SpentOf, Parted;
    forall x | x in l'.q.tree ensures x.transmits < Transmissions(transmitLimit) {
      if x in rest { assert x in l.q.tree by { PartedIn(l.q.tree, taken, rest, x); } }
    }
    forall u: nat | u in l'.expired ensures multiset(l'.sent)[u] == Transmissions(transmitLimit) {
      SentTimes(l.sent, taken, u);
      ExpiredFinished(l, overhead, limit, transmitLimit, u);
      if u !in l.expired {
        var x :| x in SpentOf(taken, transmitLimit) && x.b.uid == u;
        PartedIn(l.q.tree, taken, rest, x);
        SentOnce(l, overhead, limit, x);
        assert l.q.tree != [] && multiset(l.sent)[x.b.uid] == x.transmits;
      }
    }
  }

  lemma PartedIn(tree: seq<Item>, taken: seq<Item>, rest: seq<Item>, x: Item)
    requires Parted(tree, taken, rest) && (x in taken || x in rest)
    ensures x in tree
  {}

  /** A step that does not get broadcasts with another limit. */
  predicate WithLimit(op: Op, transmitLimit: int) { op.Got? ==> op.transmitLimit == transmitLimit }

  lemma StepLimited(l: Ledger, op: Op, transmitLimit: int, inv: Invalidates)
    requires Inv(l) && Enabled(l, op) && !Collides(l, op, inv) && WithLimit(op, transmitLimit)
    requires Limited(l, transmitLimit)
    ensures Limited(Next(l, op, inv), transmitLimit)
  {
    var l' := Next(l, op, inv);
    if op.Got? {
      GotIs(l, op.overhead, op.limit, transmitLimit, inv);
      hide Next;
      GotLimited(l, l', op.overhead, op.limit, transmitLimit);
    } else {
      OtherUnsent(l, op, inv);
      hide Next;
    }
  }

  lemma GotIs(l: Ledger, overhead: int, limit: int, transmitLimit: int, inv: Invalidates)
    requires Inv(l) && !GetCollides(l.q, overhead, limit, transmitLimit)
    ensures GotFrom(l, Next(l, Got(overhead, limit, transmitLimit), inv), overhead, limit, transmitLimit)
  {
    hide Get, Taken, Rest, Sane, GetCollides, Counted;
    GetSane(l.q, overhead, limit, transmitLimit);
  }

  lemma OtherUnsent(l: Ledger, op: Op, inv: Invalidates)
    requires Inv(l) && Enabled(l, op) && !Collides(l, op, inv) && !op.Got?
    ensures Unsent(l, Next(l, op, inv))
  {
    hide Sane, Counted, Submit, SubmitCollides, Prune;
    match op
    case Queued(b) => assert Times(l.q.tree, b.uid) == 0; SubmitSane(l.q, b, 0, inv);
    case Pruned(maxRetain) => PruneSane(l.q, maxRetain);
    case Cleared =>
  }

  /** With a constant limit, one that expired was sent exactly that many times, but at least once. */
  lemma {:induction false} SentToTheLimit(states: seq<Ledger>, ops: seq<Op>, transmitLimit: int,
                                          inv: Invalidates, k: nat)
    requires IsRun(states, ops, inv) && k < |states| && CollisionFree(states, ops, inv, k)
    requires forall i :: 0 <= i < k ==> WithLimit(ops[i], transmitLimit)
    ensures forall u: nat :: u in states[k].expired ==>
              multiset(states[k].sent)[u] == (if transmitLimit < 1 then 1 else transmitLimit)
    ensures Limited(states[k], transmitLimit)
  {
    if k > 0 {
      SentToTheLimit(states, ops, transmitLimit, inv, k - 1);
      Conservation(states, ops, inv, k - 1);
      assert states[k - 1 + 1] == Next(states[k - 1], ops[k - 1], inv);
      hide Inv, Next, Collides;
      StepLimited(states[k - 1], ops[k - 1], transmitLimit, inv);
    }
  }

  // ---------------------------------------------------------------- ids in order

  lemma PruneTidy(q: State, maxRetain: int)
    requires Tidy(q)
    ensures Tidy(Prune(q, maxRetain))
  {
    PruneSane(q, maxRetain);
    hide Sane, Prune;
  }

  lemma StepTidy(l: Ledger, op: Op, inv: Invalidates)
    requires Inv(l) && Tidy(l.q) && 0 <= l.q.idGen <= MAX_I64 && Enabled(l, op) && !Resets(l, op, inv)
    ensures Tidy(Next(l, op, inv).q) && 0 <= Next(l, op, inv).q.idGen <= MAX_I64 && !Collides(l, op, inv)
  {
    match op
    case Queued(b) =>
      assert Times(l.q.tree, b.uid) == 0;
      TidySubmits(l.q, b, 0, inv);
      SubmitKeepsIds(l.q, b, 0, inv);
      SubmitSane(l.q, b, 0, inv);
    case Got(overhead, limit, transmitLimit) =>
      TidyGets(l.q, overhead, limit, transmitLimit);
      GetKeepsIds(l.q, overhead, limit, transmitLimit);
      GetSane(l.q, overhead, limit, transmitLimit);
    case Pruned(maxRetain) =>
      PruneTidy(l.q, maxRetain);
      PruneGen(l.q, maxRetain);
    case Cleared =>
  }

  lemma {:induction false} PruneGen(q: State, maxRetain: int)
    requires 0 <= q.idGen <= MAX_I64
    ensures 0 <= Prune(q, maxRetain).idGen <= MAX_I64
    decreases |q.tree|
  {
    if !(|q.tree| <= maxRetain || q.tree == []) {
      var x := q.tree[|q.tree| - 1];
      PruneGen(Delete(Finish(q, x), x), maxRetain);
    }
  }

  /** A generator that never starts anew keeps ids distinct and at most `idGen`, and then no
      insertion meets an equal key. */
  lemma {:induction false} IdsInOrder(states: seq<Ledger>, ops: seq<Op>, inv: Invalidates, k: nat)
    requires IsRun(states, ops, inv) && k < |states|
    requires forall i :: 0 <= i < k ==> !Resets(states[i], ops[i], inv)
    ensures Tidy(states[k].q) && 0 <= states[k].q.idGen <= MAX_I64 && CollisionFree(states, ops, inv, k)
  {
    if k > 0 {
      IdsInOrder(states, ops, inv, k - 1);
      Conservation(states, ops, inv, k - 1);
      assert states[k - 1 + 1] == Next(states[k - 1], ops[k - 1], inv);
      hide Inv, Next, Collides, Resets, Tidy;
      StepTidy(states[k - 1], ops[k - 1], inv);
    }
  }

  // ---------------------------------------------------------------- what a reset loses

  /** A broadcast that was submitted, but is neither queued nor finished. */
  predicate Lost(q: State, u: nat) { Times(q.tree, u) == 0 && u !in q.finished }

  function Submitted(q: State, b: Broadcast, inv: Invalidates): State { Submit(q, b, 0, inv) }

  lemma SubmitFirst(a: Broadcast, inv: Invalidates)
    requires a.kind.Named? && a.kind.name != ""
    ensures Submitted(EMPTY, a, inv) == State([Item(0, 1, a)], map[a.kind.name := Item(0, 1, a)], 1, [])
  {}

  /** Replacing the only item resets the generator below the id of the replacement. */
  lemma SubmitReplaces(a: Broadcast, a': Broadcast, inv: Invalidates)
    requires a.kind.Named? && a.kind.name != "" && a'.kind == a.kind
    ensures Submitted(State([Item(0, 1, a)], map[a.kind.name := Item(0, 1, a)], 1, []), a', inv)
            == State([Item(0, 2, a')], map[a.kind.name := Item(0, 2, a')], 0, [a.uid])
  {
    var q := State([Item(0, 1, a)], map[a.kind.name := Item(0, 1, a)], 2, []);
    assert DeleteAll(FinishAll(q, [Item(0, 1, a)]), [Item(0, 1, a)]) == State([], map[], 0, [a.uid]);
  }

  /** Any four named broadcasts of one length, the second about the same thing as the first, lose the second. */
  lemma SubmitCollision(a: Broadcast, a': Broadcast, b: Broadcast, c: Broadcast, inv: Invalidates)
    requires a.kind.Named? && b.kind.Named? && c.kind.Named? && a'.kind == a.kind
    requires Distinct([a.kind.name, b.kind.name, c.kind.name, ""]) && Distinct([a.uid, a'.uid, b.uid, c.uid])
    requires |a'.msg| == |b.msg| == |c.msg|
    ensures Lost(Submitted(Submitted(Submitted(Submitted(EMPTY, a, inv), a', inv), b, inv), c, inv), a'.uid)
  {
    var names := [a.kind.name, b.kind.name, c.kind.name, ""];
    var uids := [a.uid, a'.uid, b.uid, c.uid];
    assert names[0] != names[1] && names[0] != names[2] && names[1] != names[2];
    assert names[0] != names[3] && names[1] != names[3] && names[2] != names[3];
    assert uids[0] != uids[1] && uids[1] != uids[2] && uids[1] != uids[3];
    SubmitFirst(a, inv);
    SubmitReplaces(a, a', inv);
    var x, y, z := Item(0, 2, a'), Item(0, 1, b), Item(0, 2, c);
    var q2 := State([x], map[a.kind.name := x], 0, [a.uid]);
    var q3 := Submitted(q2, b, inv);
    assert Put([x], y) == [x, y];
    var q4 := Submitted(q3, c, inv);
    assert q4.tree == Put([x, y], z) == [z] + [x, y][1..] == [z, y];
    assert Times([z, y], a'.uid) == 0 by { TimesMember([z, y], a'.uid); }
  }

  lemma BumpedOne(x: Item, transmitLimit: int)
    requires !Spent(x, transmitLimit)
    ensures Bumped([x], transmitLimit) == [x.(transmits := x.transmits + 1)] && SpentOf([x], transmitLimit) == []
  {}

  lemma AddOne(q: State, x: Item)
    requires x.Name() == ""
    ensures AddAll(q, [x]) == q.(tree := Put(q.tree, x))
  {}

  /** The only item is sent and put back: the generator restarts although the item keeps its id. */
  lemma GetOnly(x: Item, overhead: nat, room: int, transmitLimit: int)
    requires x.Name() == "" && Fits(x, overhead, room) && !Spent(x, transmitLimit)
    ensures Get(State([x], map[], x.id, []), overhead, room, transmitLimit).0
            == State([x.(transmits := x.transmits + 1)], map[], 0, [])
  {
    assert [x][1..] == [];
    assert Taken([x], overhead, room) == [x] && Rest([x], overhead, room) == [];
    BumpedOne(x, transmitLimit);
    assert EMPTY.tm - Names([x]) == map[];
    AddOne(State([], map[], 0, []), x.(transmits := x.transmits + 1));
  }

  /** Where only one item fits, the first is sent; put back, it displaces a second one that has its key. */
  lemma GetDisplaces(y: Item, x: Item, overhead: nat, transmitLimit: int)
    requires x.Name() == y.Name() == "" && y.Len() > 0 && !Spent(y, transmitLimit)
    requires KeyOf(x) == KeyOf(y.(transmits := y.transmits + 1))
    ensures Get(State([y, x], map[], y.id, []), overhead, overhead + y.Len(), transmitLimit).0
            == State([y.(transmits := y.transmits + 1)], map[], y.id, [])
  {
    var room := overhead + y.Len();
    assert [y, x][1..] == [x] && [x][1..] == [];
    assert Taken([x], overhead, 0) == [] && Rest([x], overhead, 0) == [x];
    assert Fits(y, overhead, room) && room - overhead - y.Len() == 0;
    assert Taken([y, x], overhead, room) == [y] && Rest([y, x], overhead, room) == [x];
    BumpedOne(y, transmitLimit);
    assert EMPTY.tm - Names([y]) == map[];
    AddOne(State([x], map[], y.id, []), y.(transmits := y.transmits + 1));
  }

  lemma SubmitUnique(tree: seq<Item>, b: Broadcast, inv: Invalidates)
    requires b.kind.Unique? && (tree == [] || tree[0].transmits > 0)
    ensures Submitted(State(tree, map[], 0, []), b, inv) == State([Item(0, 1, b)] + tree, map[], 1, [])
  {}

  /** Any two broadcasts of one length: if the first is sent alone and put back, and the second is then
      queued and sent where only one fits, the first is lost. */
  lemma GetCollision(a: Broadcast, b: Broadcast, overhead: nat, transmitLimit: int, inv: Invalidates)
    requires a.kind.Unique? && b.kind.Unique? && a.uid != b.uid && |a.msg| == |b.msg| > 0 && transmitLimit >= 2
    ensures var room := overhead + |a.msg|;
            var q1 := Get(Submitted(EMPTY, a, inv), overhead, room, transmitLimit).0;
            Lost(Get(Submitted(q1, b, inv), overhead, room, transmitLimit).0, a.uid)
  {
    var x, x', y, y' := Item(0, 1, a), Item(1, 1, a), Item(0, 1, b), Item(1, 1, b);
    hide Get, Submitted;
    SubmitUnique([], a, inv);
    GetOnly(x, overhead, overhead + |a.msg|, transmitLimit);
    SubmitUnique([x'], b, inv);
    assert [x] + [] == [x] && [y] + [x'] == [y, x'];
    GetDisplaces(y, x', overhead, transmitLimit);
    assert Times([y'], a.uid) == 0 by { TimesMember([y'], a.uid); }
  }

  // ---------------------------------------------------------------- what a submission replaces

  /** A new broadcast replaces the item of its name, if it has one; a plain one the plain items it
      invalidates; and a unique one nothing. */
  predicate Replaces(b: Broadcast, x: Item, inv: Invalidates)
  {
    if b.kind.Named? && b.kind.name != "" then x.b.kind == b.kind
    else !b.kind.Unique? && x.b.kind == Plain && inv(b, x.b)
  }

  lemma {:induction false} OverriddenAre(tree: seq<Item>, b: Broadcast, inv: Invalidates, x: Item)
    ensures x in Overridden(tree, b, inv) <==> x in tree && x.b.kind == Plain && inv(b, x.b)
    decreases |tree|
  {
    if tree != [] {
      OverriddenAre(tree[..|tree| - 1], b, inv, x);
      assert x in tree <==> x in tree[..|tree| - 1] || x == tree[|tree| - 1];
    }
  }

  lemma VictimsAre(q: State, b: Broadcast, inv: Invalidates, x: Item)
    requires Sane(q)
    ensures x in Victims(q, b, inv) <==> x in q.tree && Replaces(b, x, inv)
  {
    OverriddenAre(q.tree, b, inv, x);
  }

  /** Submitting keeps exactly the items that the new one does not replace, finishes those it does,
      and adds one unsent item under the next id, unless that meets an equal key. */
  lemma SubmitTakesEffect(q: State, b: Broadcast, inv: Invalidates, x: Item)
    requires Sane(q) && Times(q.tree, b.uid) == 0 && !SubmitCollides(q, b, 0, inv)
    ensures var q' := Submit(q, b, 0, inv);
            && (x in q'.tree <==>
                  || (x in q.tree && !Replaces(b, x, inv))
                  || x == Item(0, if q.idGen == MAX_I64 then 1 else q.idGen + 1, b))
            && (x in q.tree ==>
                  multiset(q'.finished)[x.b.uid]
                  == multiset(q.finished)[x.b.uid] + if Replaces(b, x, inv) then 1 else 0)
  {
    SubmitSane(q, b, 0, inv);
    VictimsAre(q, b, inv, x);
    if x in q.tree {
      CleanedTimes(q, b, inv, x.b.uid);
      CleanedSubmit(q, b, 0, inv);
      OneVictim(q, b, inv, x);
    }
  }

  lemma OneVictim(q: State, b: Broadcast, inv: Invalidates, x: Item)
    requires Sane(q) && x in q.tree
    ensures Times(Victims(q, b, inv), x.b.uid) == if x in Victims(q, b, inv) then 1 else 0
  {
    var xs, u := Victims(q, b, inv), x.b.uid;
    VictimsIn(q, b, inv);
    hide Victims, Sorted, IndexExact;
    TimesMember(xs, u);
    TimesAtMostOne(q.tree, xs, u);
  }

  lemma {:induction false} TimesAtMostOne(tree: seq<Item>, xs: seq<Item>, u: nat)
    requires Separate(tree) && Distinct(xs) && forall x :: x in xs ==> x in tree
    ensures Times(xs, u) <= 1
    decreases |xs|
  {
    if xs != [] {
      TimesAtMostOne(tree, xs[1..], u);
      TimesMember(xs[1..], u);
      assert xs[0] !in xs[1..];
    }
  }

  /** Reset finishes everything and leaves an empty queue with a new generator. */
  lemma ResetTakesEffect(q: State, u: nat)
    ensures var q' := Reset(q);
            && q'.tree == [] && q'.tm == map[] && q'.idGen == 0
            && multiset(q'.finished)[u] == multiset(q.finished)[u] + Times(q.tree, u)
  {
    FinishAllIs(q, q.tree, u);
  }

  // ---------------------------------------------------------------- the order of sending

  lemma {:induction false} DeleteAllSorted(q: State, xs: seq<Item>)
    requires Sorted(q.tree)
    ensures Sorted(DeleteAll(q, xs).tree)
    decreases |xs|
  {
    if xs != [] {
      DeleteAllSorted(q, xs[..|xs| - 1]);
      DropSorted(DeleteAll(q, xs[..|xs| - 1]).tree, xs[|xs| - 1]);
    }
  }

  lemma {:induction false} AddAllSorted(q: State, xs: seq<Item>)
    requires Sorted(q.tree)
    ensures Sorted(AddAll(q, xs).tree)
    decreases |xs|
  {
    if xs != [] {
      AddAllSorted(q, xs[..|xs| - 1]);
      PutSorted(AddAll(q, xs[..|xs| - 1]).tree, xs[|xs| - 1]);
    }
  }

  lemma {:induction false} PruneSorted(q: State, maxRetain: int)
    requires Sorted(q.tree)
    ensures Sorted(Prune(q, maxRetain).tree)
    decreases |q.tree|
  {
    if |q.tree| > maxRetain && q.tree != [] {
      var x := q.tree[|q.tree| - 1];
      DropSorted(q.tree, x);
      PruneSorted(Delete(Finish(q, x), x), maxRetain);
    }
  }

  lemma SubmitSorted(q: State, b: Broadcast, inv: Invalidates)
    requires Sorted(q.tree)
    ensures Sorted(Submit(q, b, 0, inv).tree)
  {
    hide Sorted, Victims;
    var id, victims := NextId(q.idGen), Victims(q, b, inv);
    var q1 := FinishAll(q.(idGen := id), victims);
    FinishAllIs(q.(idGen := id), victims, 0);
    DeleteAllSorted(q1, victims);
    PutSorted(DeleteAll(q1, victims).tree, Item(0, id, b));
  }

  lemma StepSorted(l: Ledger, op: Op, inv: Invalidates)
    requires Sorted(l.q.tree)
    ensures Sorted(Next(l, op, inv).q.tree)
  {
    match op
    case Queued(b) => SubmitSorted(l.q, b, inv);
    case Got(overhead, limit, transmitLimit) =>
      RestSorted(l.q.tree, overhead, limit);
      hide Sorted;
      var taken := Taken(l.q.tree, overhead, limit);
      AddAllSorted(WithoutTaken(l.q, taken, Rest(l.q.tree, overhead, limit), transmitLimit),
                   Bumped(taken, transmitLimit));
    case Pruned(maxRetain) => PruneSorted(l.q, maxRetain);
    case Cleared =>
  }

  /** In every run the queue, which is sent from the front, has the least transmitted broadcasts first;
      among those the longest; and among those the youngest. */
  lemma {:induction false} SendingOrder(states: seq<Ledger>, ops: seq<Op>, inv: Invalidates, k: nat)
    requires IsRun(states, ops, inv) && k < |states|
    ensures Sorted(states[k].q.tree)
    ensures var tree := states[k].q.tree;
            forall i, j :: 0 <= i < j < |tree| ==>
              || tree[i].transmits < tree[j].transmits
              || (tree[i].transmits == tree[j].transmits && |tree[i].b.msg| > |tree[j].b.msg|)
              || (tree[i].transmits == tree[j].transmits && |tree[i].b.msg| == |tree[j].b.msg|
                  && tree[i].id > tree[j].id)
  {
    if k > 0 {
      SendingOrder(states, ops, inv, k - 1);
      assert states[k - 1 + 1] == Next(states[k - 1], ops[k - 1], inv);
      StepSorted(states[k - 1], ops[k - 1], inv);
    }
    hide Next;
    assert forall i, j :: 0 <= i < j < |states[k].q.tree| ==> Less(states[k].q.tree[i], states[k].q.tree[j]);
  }
}
