/** The transmit-limited broadcast queue of queue.go, on values. The ordered tree is a sequence
    sorted by Less; the class in QueueObject.dfy is proved against these functions. */
module Queue {
  import opened Base

  const MAX_I64: int := 0x7FFF_FFFF_FFFF_FFFF

  /** A broadcast may name what it is about, or promise to be unique. */
  datatype Kind = Named(name: string) | Unique | Plain

  /** `uid` tells one Broadcast object from another. */
  datatype Broadcast = Broadcast(uid: nat, kind: Kind, msg: Bytes)

  datatype Item = Item(transmits: int, id: int, b: Broadcast) {
    function Len(): int { |b.msg| }

    /** The name under which the item is indexed; none if empty. */
    function Name(): string { if b.kind.Named? then b.kind.name else "" }
  }

  /** A key of the tree: the part of an item that Less looks at. */
  datatype SortKey = SortKey(transmits: int, len: int, id: int)

  function KeyOf(x: Item): SortKey { SortKey(x.transmits, x.Len(), x.id) }

  /** Fewer transmits first, then longer messages, then younger ones. */
  predicate KeyLess(a: SortKey, b: SortKey)
  {
    || a.transmits < b.transmits
    || (a.transmits == b.transmits && a.len > b.len)
    || (a.transmits == b.transmits && a.len == b.len && a.id > b.id)
  }

  predicate Less(a: Item, b: Item) { KeyLess(KeyOf(a), KeyOf(b)) }

  ghost predicate Sorted(tree: seq<Item>)
  {
    forall i, j :: 0 <= i < j < |tree| ==> Less(tree[i], tree[j])
  }

  // ---------------------------------------------------------------- the ordered tree

  /** Insert, replacing an item that Less cannot tell from the new one. */
  function Put(tree: seq<Item>, x: Item): (r: seq<Item>)
  {
    if tree == [] then [x]
    else if Less(x, tree[0]) then [x] + tree
    else if Less(tree[0], x) then [tree[0]] + Put(tree[1..], x)
    else [x] + tree[1..]
  }

  /** Remove the item that Less cannot tell from the given one, if there is one. */
  function Drop(tree: seq<Item>, x: Item): (r: seq<Item>)
    ensures x in tree ==> |r| == |tree| - 1
  {
    if tree == [] then []
    else if KeyOf(tree[0]) == KeyOf(x) then tree[1..]
    else [tree[0]] + Drop(tree[1..], x)
  }

  /** The place of the first item at or above `low` and below `high`, or the end. */
  function Find(tree: seq<Item>, low: SortKey, high: SortKey): (i: nat)
    ensures i <= |tree|
    ensures forall j :: 0 <= j < i ==> KeyLess(KeyOf(tree[j]), low) || !KeyLess(KeyOf(tree[j]), high)
    ensures i < |tree| ==> !KeyLess(KeyOf(tree[i]), low) && KeyLess(KeyOf(tree[i]), high)
  {
    if tree == [] then 0
    else if !KeyLess(KeyOf(tree[0]), low) && KeyLess(KeyOf(tree[0]), high) then 0
    else 1 + Find(tree[1..], low, high)
  }

  lemma {:induction false} DropAt(tree: seq<Item>, i: nat)
    requires Sorted(tree) && i < |tree|
    ensures Drop(tree, tree[i]) == tree[..i] + tree[i + 1..]
    decreases |tree|
  {
    if i == 0 {
      assert tree[..0] + tree[1..] == tree[1..];
    } else {
      assert Less(tree[0], tree[i]);
      assert tree[1..][i - 1] == tree[i];
      DropAt(tree[1..], i - 1);
      assert [tree[0]] + (tree[1..][..i - 1] + tree[1..][i..]) == tree[..i] + tree[i + 1..];
    }
  }

  lemma {:induction false} DropSorted(tree: seq<Item>, x: Item)
    requires Sorted(tree)
    ensures Sorted(Drop(tree, x))
    ensures forall y :: y in Drop(tree, x) <==> y in tree && KeyOf(y) != KeyOf(x)
  {
    if tree != [] {
      DropSorted(tree[1..], x);
      var d := Drop(tree, x);
      assert forall y :: y in tree <==> y == tree[0] || y in tree[1..];
      assert forall y :: y in tree[1..] ==> Less(tree[0], y);
      if KeyOf(tree[0]) != KeyOf(x) {
        assert forall y :: y in d <==> y == tree[0] || y in Drop(tree[1..], x);
      }
    }
  }

  lemma {:induction false} PutSorted(tree: seq<Item>, x: Item)
    requires Sorted(tree)
    ensures Sorted(Put(tree, x))
    ensures forall y :: y in Put(tree, x) <==> y == x || (y in tree && KeyOf(y) != KeyOf(x))
  {
    if tree != [] {
      assert forall y :: y in tree <==> y == tree[0] || y in tree[1..];
      assert forall y :: y in tree[1..] ==> Less(tree[0], y);
      PutSorted(tree[1..], x);
      var p := Put(tree, x);
      if Less(x, tree[0]) {
        assert forall y :: y in p <==> y == x || y in tree;
      } else if Less(tree[0], x) {
        assert forall y :: y in p <==> y == tree[0] || y in Put(tree[1..], x);
      } else {
        assert forall y :: y in p <==> y == x || y in tree[1..];
      }
    }
  }

  // ---------------------------------------------------------------- operations

  /** `finished` lists, in order, the broadcasts whose Finished was called. */
  datatype State = State(tree: seq<Item>, tm: map<string, Item>, idGen: int, finished: seq<nat>)

  const EMPTY := State([], map[], 0, [])

  function Delete(q: State, x: Item): (r: State)
  {
    var tree := Drop(q.tree, x);
    q.(tree := tree,
       tm := if x.Name() != "" then q.tm - {x.Name()} else q.tm,
       idGen := if tree == [] then 0 else q.idGen)
  }

  function Add(q: State, x: Item): (r: State)
  {
    q.(tree := Put(q.tree, x), tm := if x.Name() != "" then q.tm[x.Name() := x] else q.tm)
  }

  function AddAll(q: State, xs: seq<Item>): (r: State)
  {
    if xs == [] then q else Add(AddAll(q, xs[..|xs| - 1]), xs[|xs| - 1])
  }

  function Finish(q: State, x: Item): State { q.(finished := q.finished + [x.b.uid]) }

  function NextId(idGen: int): int { if idGen == MAX_I64 then 1 else idGen + 1 }

  type Invalidates = (Broadcast, Broadcast) -> bool

  /** The plain items that a new broadcast invalidates, in tree order. */
  function Overridden(tree: seq<Item>, b: Broadcast, inv: Invalidates): (r: seq<Item>)
  {
    if tree == [] then []
    else
      var rest := Overridden(tree[..|tree| - 1], b, inv);
      var x := tree[|tree| - 1];
      if x.b.kind.Plain? && inv(b, x.b) then rest + [x] else rest
  }

  function FinishAll(q: State, xs: seq<Item>): (r: State)
  {
    if xs == [] then q else Finish(FinishAll(q, xs[..|xs| - 1]), xs[|xs| - 1])
  }

  function DeleteAll(q: State, xs: seq<Item>): (r: State)
  {
    if xs == [] then q else Delete(DeleteAll(q, xs[..|xs| - 1]), xs[|xs| - 1])
  }

  /** The items that submitting `b` removes. */
  function Victims(q: State, b: Broadcast, inv: Invalidates): (r: seq<Item>)
  {
    var name := if b.kind.Named? then b.kind.name else "";
    if name != "" then (if name in q.tm then [q.tm[name]] else [])
    else if b.kind.Unique? then []
    else Overridden(q.tree, b, inv)
  }

  function Submit(q: State, b: Broadcast, transmits: int, inv: Invalidates): (r: State)
  {
    var id := NextId(q.idGen);
    var victims := Victims(q, b, inv);
    Add(DeleteAll(FinishAll(q.(idGen := id), victims), victims), Item(transmits, id, b))
  }

  // ---------------------------------------------------------------- packing

  /** One first-fit pass: an item is taken when, with its overhead, it fits into the room left. */
  function Taken(items: seq<Item>, overhead: int, room: int): (r: seq<Item>)
  {
    if items == [] then []
    else if Fits(items[0], overhead, room) then
      [items[0]] + Taken(items[1..], overhead, room - overhead - items[0].Len())
    else Taken(items[1..], overhead, room)
  }

  function Rest(items: seq<Item>, overhead: int, room: int): (r: seq<Item>)
  {
    if items == [] then []
    else if Fits(items[0], overhead, room) then Rest(items[1..], overhead, room - overhead - items[0].Len())
    else [items[0]] + Rest(items[1..], overhead, room)
  }

  predicate Fits(x: Item, overhead: int, room: int)
  {
    room - overhead > 0 && x.Len() <= room - overhead
  }

  predicate Spent(x: Item, transmitLimit: int) { x.transmits + 1 >= transmitLimit }

  /** The taken items that go back, one tier further down. */
  function Bumped(taken: seq<Item>, transmitLimit: int): (r: seq<Item>)
  {
    if taken == [] then []
    else
      var r := Bumped(taken[..|taken| - 1], transmitLimit);
      var x := taken[|taken| - 1];
      if Spent(x, transmitLimit) then r else r + [x.(transmits := x.transmits + 1)]
  }

  /** The taken items that have reached the transmit limit. */
  function SpentOf(taken: seq<Item>, transmitLimit: int): (r: seq<Item>)
  {
    if taken == [] then []
    else
      var r := SpentOf(taken[..|taken| - 1], transmitLimit);
      var x := taken[|taken| - 1];
      if Spent(x, transmitLimit) then r + [x] else r
  }

  function Messages(items: seq<Item>): (r: seq<Bytes>)
  {
    if items == [] then [] else Messages(items[..|items| - 1]) + [items[|items| - 1].b.msg]
  }

  function Names(items: seq<Item>): (r: set<string>)
  {
    set x | x in items && x.Name() != "" :: x.Name()
  }

  /** The queue without the taken items, before any of them is put back. */
  function WithoutTaken(q: State, taken: seq<Item>, rest: seq<Item>, transmitLimit: int): (r: State)
  {
    State(rest, q.tm - Names(taken), if rest == [] && taken != [] then 0 else q.idGen,
          FinishAll(q, SpentOf(taken, transmitLimit)).finished)
  }

  function Get(q: State, overhead: int, limit: int, transmitLimit: int): (r: (State, seq<Bytes>))
  {
    var taken := Taken(q.tree, overhead, limit);
    (AddAll(WithoutTaken(q, taken, Rest(q.tree, overhead, limit), transmitLimit), Bumped(taken, transmitLimit)),
     Messages(taken))
  }

  function Prune(q: State, maxRetain: int): (r: State)
    decreases |q.tree|
  {
    if |q.tree| <= maxRetain || q.tree == [] then q
    else
      var x := q.tree[|q.tree| - 1];
      Prune(Delete(Finish(q, x), x), maxRetain)
  }

  function Reset(q: State): (r: State)
  {
    EMPTY.(finished := FinishAll(q, q.tree).finished)
  }

  // ---------------------------------------------------------------- retransmit limit

  function Pow10(n: nat): nat { if n == 0 then 1 else 10 * Pow10(n - 1) }

  /** The least k with 10^k at least m: the ceiling of the decimal logarithm. */
  function CeilLog10(m: nat): (k: nat)
    requires m >= 1
    ensures m <= Pow10(k) && (k > 0 ==> Pow10(k - 1) < m)
  {
    if m == 1 then 0 else 1 + CeilLog10((m + 9) / 10)
  }

  function RetransmitLimit(mult: int, nodes: nat): int { mult * CeilLog10(nodes + 1) }

  // ---------------------------------------------------------------- first fit

  /** What the packing promises, whatever the queue: the budget is kept and nothing that would
      still fit is left behind. */
  lemma {:induction false} TakenFits(items: seq<Item>, overhead: int, room: int)
    requires overhead >= 0
    ensures Taken(items, overhead, room) == [] || Cost(Taken(items, overhead, room), overhead) <= room
    ensures forall x :: x in Rest(items, overhead, room) ==>
              !Fits(x, overhead, room - Cost(Taken(items, overhead, room), overhead))
    decreases |items|
  {
    if items != [] {
      var x := items[0];
      if Fits(x, overhead, room) {
        var t := Taken(items[1..], overhead, room - overhead - x.Len());
        TakenFits(items[1..], overhead, room - overhead - x.Len());
        assert ([x] + t)[1..] == t;
      } else {
        TakenFits(items[1..], overhead, room);
        CostNonNegative(Taken(items[1..], overhead, room), overhead);
      }
    }
  }

  /** The bytes that messages take up together with their overhead. */
  function Cost(items: seq<Item>, overhead: int): (c: int)
  {
    if items == [] then 0 else overhead + items[0].Len() + Cost(items[1..], overhead)
  }

  lemma CostNonNegative(items: seq<Item>, overhead: int)
    requires overhead >= 0
    ensures Cost(items, overhead) >= 0
  {}

  /** Taken and left-over items make up the queue, in order and without repetition. */
  lemma {:induction false} TakenPartition(items: seq<Item>, overhead: int, room: int)
    ensures multiset(Taken(items, overhead, room)) + multiset(Rest(items, overhead, room)) == multiset(items)
    ensures forall x :: x in items <==> x in Taken(items, overhead, room) || x in Rest(items, overhead, room)
    decreases |items|
  {
    if items != [] {
      assert items == [items[0]] + items[1..];
      if Fits(items[0], overhead, room) {
        TakenPartition(items[1..], overhead, room - overhead - items[0].Len());
      } else {
        TakenPartition(items[1..], overhead, room);
      }
    }
  }

  lemma {:induction false} RestSorted(items: seq<Item>, overhead: int, room: int)
    requires Sorted(items)
    ensures Sorted(Rest(items, overhead, room)) && Sorted(Taken(items, overhead, room))
    decreases |items|
  {
    if items != [] {
      var room' := if Fits(items[0], overhead, room) then room - overhead - items[0].Len() else room;
      RestSorted(items[1..], overhead, room');
      TakenPartition(items[1..], overhead, room');
      assert forall y :: y in items[1..] ==> Less(items[0], y);
    }
  }

  /** Items that do not fit are passed over. */
  lemma {:induction false} SkipUnfit(items: seq<Item>, n: nat, overhead: int, room: int)
    requires n <= |items| && forall i :: 0 <= i < n ==> !Fits(items[i], overhead, room)
    ensures Taken(items, overhead, room) == Taken(items[n..], overhead, room)
    ensures Rest(items, overhead, room) == items[..n] + Rest(items[n..], overhead, room)
    decreases n
  {
    if n > 0 {
      SkipUnfit(items[1..], n - 1, overhead, room);
      assert items[1..][n - 1..] == items[n..];
      assert [items[0]] + items[1..][..n - 1] == items[..n];
    } else {
      assert items[0..] == items;
    }
  }

  /** The limit is the multiplier times the number of decimal digits of the number of nodes. */
  lemma {:induction false} RetransmitLimitIs(mult: int, nodes: nat, digits: nat)
    requires if digits == 0 then nodes == 0 else Pow10(digits - 1) <= nodes < Pow10(digits)
    ensures RetransmitLimit(mult, nodes) == mult * digits
  {
    var k := CeilLog10(nodes + 1);
    if k < digits { PowMonotone(k, digits - 1); }
    if digits < k { PowMonotone(digits, k - 1); }
  }

  lemma {:induction false} PowMonotone(a: nat, b: nat)
    requires a <= b
    ensures 1 <= Pow10(a) <= Pow10(b)
    decreases b
  {
    if a < b { PowMonotone(a, b - 1); } else if a > 0 { PowMonotone(a - 1, b - 1); }
  }

  /** First fit: an item is taken exactly if it fits into what those taken before it have left. */
  lemma {:induction false} TakenInOrder(items: seq<Item>, x: Item, overhead: int, room: int)
    ensures var before := Taken(items, overhead, room);
            var left := room - Cost(before, overhead) - overhead;
            Taken(items + [x], overhead, room) == before + (if left > 0 && x.Len() <= left then [x] else [])
    decreases |items|
  {
    if items == [] {
      assert [x][1..] == [] && items + [x] == [x];
    } else {
      assert (items + [x])[1..] == items[1..] + [x];
      var y := items[0];
      if Fits(y, overhead, room) {
        var t := Taken(items[1..], overhead, room - overhead - y.Len());
        TakenInOrder(items[1..], x, overhead, room - overhead - y.Len());
        assert ([y] + t)[1..] == t;
      } else {
        TakenInOrder(items[1..], x, overhead, room);
      }
    }
  }
}
