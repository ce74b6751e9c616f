/** The ring of encryption keys (keyring.go): the first key encrypts, all of them decrypt. */
module Keyring {
  import opened Base

  type Key = Bytes

  predicate ValidKey(key: Key) { |key| in {16, 24, 32} }

  // ---------------------------------------------------------------- on values

  function Others(keys: seq<Key>, primary: Key): (r: seq<Key>)
  {
    if keys == [] then []
    else
      var last := keys[|keys| - 1];
      Others(keys[..|keys| - 1], primary) + (if last != primary then [last] else [])
  }

  function Install(keys: seq<Key>, primary: Key): (r: seq<Key>) { [primary] + Others(keys, primary) }

  function Add(ring: seq<Key>, key: Key): (r: Result<seq<Key>>)
  {
    if !ValidKey(key) then Err
    else if key in ring then Ok(ring)
    else Ok(Install(ring + [key], if ring == [] then key else ring[0]))
  }

  function Use(ring: seq<Key>, key: Key): (r: Result<seq<Key>>)
  {
    if key in ring then Ok(Install(ring, key)) else Err
  }

  /** The code reads the first key, so the ring must have one. */
  function Remove(ring: seq<Key>, key: Key): (r: Result<seq<Key>>)
    requires ring != []
  {
    if key == ring[0] then Err else Ok(Install(Others(ring, key), ring[0]))
  }

  function New(keys: seq<Key>, primary: Key): (r: Result<seq<Key>>)
  {
    if keys == [] && primary == [] then Ok([])
    else if primary == [] then Err
    else AddAll(Add([], primary), keys)
  }

  function AddAll(ring: Result<seq<Key>>, keys: seq<Key>): (r: Result<seq<Key>>)
  {
    if keys == [] then ring
    else
      var front := AddAll(ring, keys[..|keys| - 1]);
      if front.Err? then Err else Add(front.value, keys[|keys| - 1])
  }

  lemma {:induction false} OthersIs(keys: seq<Key>, primary: Key)
    ensures forall k :: k in Others(keys, primary) <==> k in keys && k != primary
    ensures Distinct(keys) ==> Distinct(Others(keys, primary))
    ensures primary !in keys ==> Others(keys, primary) == keys
  {
    if keys != [] {
      var front, last := keys[..|keys| - 1], keys[|keys| - 1];
      OthersIs(front, primary);
      assert keys == front + [last];
      if Distinct(keys) && last != primary {
        DistinctAppend(Others(front, primary), last);
      }
    }
  }

  /** No key twice, and all of them of a valid size. */
  ghost predicate Proper(ring: seq<Key>)
  {
    Distinct(ring) && forall k :: k in ring ==> ValidKey(k)
  }

  /** Installing keeps the keys, each once, and puts the primary first. */
  lemma InstallProper(keys: seq<Key>, primary: Key)
    requires Proper(keys) && ValidKey(primary)
    ensures Proper(Install(keys, primary)) && Install(keys, primary)[0] == primary
    ensures forall k :: k in Install(keys, primary) <==> k in keys || k == primary
  {
    OthersIs(keys, primary);
    var r, others := Install(keys, primary), Others(keys, primary);
    forall i, j | 0 <= i < j < |r| ensures r[i] != r[j] {
      assert r[j] == others[j - 1] && others[j - 1] in others;
      if i > 0 { assert r[i] == others[i - 1]; }
    }
  }

  // ---------------------------------------------------------------- histories

  datatype Op = AddKey(key: Key) | UseKey(key: Key) | RemoveKey(key: Key)

  function Outcome(ring: seq<Key>, op: Op): (r: Result<seq<Key>>)
    requires op.RemoveKey? ==> ring != []
  {
    match op
    case AddKey(key) => Add(ring, key)
    case UseKey(key) => Use(ring, key)
    case RemoveKey(key) => Remove(ring, key)
  }

  /** An operation that fails leaves the ring alone. */
  function Apply(ring: seq<Key>, op: Op): seq<Key>
    requires op.RemoveKey? ==> ring != []
  {
    if Outcome(ring, op).Ok? then Outcome(ring, op).value else ring
  }

  ghost predicate History(rings: seq<seq<Key>>, ops: seq<Op>)
  {
    && |rings| == |ops| + 1 && rings[0] == []
    && forall i :: 0 <= i < |ops| ==>
         (ops[i].RemoveKey? ==> rings[i] != []) && rings[i + 1] == Apply(rings[i], ops[i])
  }

  lemma AddIs(ring: seq<Key>, key: Key)
    requires Proper(ring) && ValidKey(key) && key !in ring
    ensures Proper(Add(ring, key).value)
    ensures forall k :: k in Add(ring, key).value <==> k in ring || k == key
    ensures ring != [] ==> Add(ring, key).value[0] == ring[0]
  {
    DistinctAppend(ring, key);
    assert Proper(ring + [key]);
    InstallProper(ring + [key], if ring == [] then key else ring[0]);
  }

  lemma RemoveIs(ring: seq<Key>, key: Key)
    requires Proper(ring) && ring != [] && key != ring[0]
    ensures Proper(Remove(ring, key).value) && Remove(ring, key).value[0] == ring[0]
    ensures forall k :: k in Remove(ring, key).value <==> k in ring && k != key
  {
    OthersIs(ring, key);
    InstallProper(Others(ring, key), ring[0]);
  }

  /** What one operation does to a proper ring: its members and its primary. */
  lemma ApplyIs(ring: seq<Key>, op: Op)
    requires Proper(ring) && (op.RemoveKey? ==> ring != [])
    ensures var r := Apply(ring, op);
            && Proper(r)
            && (forall k :: k in r <==> (k in ring && !(op == RemoveKey(k) && ring[0] != k))
                                        || (op == AddKey(k) && ValidKey(k)))
            && (ring != [] ==> r != [] && r[0] == (if op.UseKey? && op.key in ring then op.key else ring[0]))
  {
    if op.UseKey? && op.key in ring { InstallProper(ring, op.key); }
    hide Proper, Install;
    match op
    case AddKey(key) => if ValidKey(key) && key !in ring { AddIs(ring, key); }
    case RemoveKey(key) => if key != ring[0] { RemoveIs(ring, key); }
    case UseKey(_) =>
  }

  lemma {:induction false} HistoryProper(rings: seq<seq<Key>>, ops: seq<Op>, i: nat)
    requires History(rings, ops) && i < |rings|
    ensures Proper(rings[i])
  {
    if i > 0 {
      HistoryProper(rings, ops, i - 1);
      ApplyIs(rings[i - 1], ops[i - 1]);
      assert rings[i - 1 + 1] == Apply(rings[i - 1], ops[i - 1]);
    }
  }

  /** In every history a key stays on the ring until it is removed, and no key occurs twice. */
  lemma {:induction false} KeyStays(rings: seq<seq<Key>>, ops: seq<Op>, i: nat, j: nat, key: Key)
    requires History(rings, ops) && i <= j < |rings| && key in rings[i]
    requires forall n :: i <= n < j ==> ops[n] != RemoveKey(key)
    ensures key in rings[j] && Proper(rings[j])
    decreases j - i
  {
    HistoryProper(rings, ops, j);
    if i < j {
      KeyStays(rings, ops, i, j - 1, key);
      assert rings[j - 1 + 1] == Apply(rings[j - 1], ops[j - 1]);
      hide History, Apply, Proper;
      ApplyIs(rings[j - 1], ops[j - 1]);
    }
  }

  /** The primary key is never removed; only UseKey changes it. */
  lemma {:induction false} PrimaryStays(rings: seq<seq<Key>>, ops: seq<Op>, i: nat, j: nat)
    requires History(rings, ops) && i <= j < |rings| && rings[i] != []
    requires forall n :: i <= n < j ==> !ops[n].UseKey?
    ensures rings[j] != [] && rings[j][0] == rings[i][0]
    decreases j - i
  {
    if i < j {
      PrimaryStays(rings, ops, i, j - 1);
      HistoryProper(rings, ops, j - 1);
      ApplyIs(rings[j - 1], ops[j - 1]);
      assert rings[j - 1 + 1] == Apply(rings[j - 1], ops[j - 1]);
    }
  }

  // ---------------------------------------------------------------- a search during a removal

  /** The slice when RemoveKey has closed the gap at `r` by that many moves. */
  function Shifting(ring: seq<Key>, r: nat, moves: nat): (slice: seq<Key>)
    requires r + moves < |ring|
    ensures |slice| == |ring|
  {
    seq(|ring|, p requires 0 <= p < |ring| => if r <= p < r + moves then ring[p + 1] else ring[p])
  }

  /** How many moves had been made when a reader looked at each place, from the first to the last. */
  ghost predicate Pace(ring: seq<Key>, r: nat, moves: seq<nat>)
  {
    && |moves| == |ring|
    && (forall p :: 0 <= p < |moves| ==> r + moves[p] < |ring|)
    && forall p, q :: 0 <= p < q < |moves| ==> moves[p] <= moves[q]
  }

  /** What the reader saw. */
  function Seen(ring: seq<Key>, r: nat, moves: seq<nat>): (keys: seq<Key>)
    requires |moves| == |ring| && forall p :: 0 <= p < |moves| ==> r + moves[p] < |ring|
    ensures |keys| == |ring|
  {
    seq(|ring|, p requires 0 <= p < |ring| => Shifting(ring, r, moves[p])[p])
  }

  /** The key had not moved down when the reader passed the place below it, and had when the reader
      came to its own. */
  predicate Misses(ring: seq<Key>, r: nat, moves: seq<nat>, key: Key)
    requires |moves| == |ring|
  {
    exists p :: r < p < |ring| && ring[p] == key && moves[p - 1] < p - r < moves[p]
  }

  /** A reader sees another key than the removed one unless it misses it so. */
  lemma SearchFinds(ring: seq<Key>, r: nat, moves: seq<nat>, key: Key)
    requires Distinct(ring) && Pace(ring, r, moves) && r < |ring| && key in ring && key != ring[r]
    ensures key in Seen(ring, r, moves) <==> !Misses(ring, r, moves, key)
  {
    var p :| 0 <= p < |ring| && ring[p] == key;
    var seen := Seen(ring, r, moves);
    assert p < r ==> seen[p] == key;
    assert r < p && p - r >= moves[p] ==> seen[p] == key;
    assert r < p && moves[p - 1] >= p - r ==> seen[p - 1] == key;
    if key in seen {
      var q :| 0 <= q < |seen| && seen[q] == key;
      assert seen[q] == ring[q] || seen[q] == ring[q + 1];
    }
  }

  lemma SeenOnly(ring: seq<Key>, r: nat, moves: seq<nat>)
    requires Pace(ring, r, moves)
    ensures forall k :: k in Seen(ring, r, moves) ==> k in ring
  {}

  /** A reader that has looked at the first `i` places when the slice is shifted finds every other
      key exactly if it is not between the removed one and the last. */
  lemma ReaderFindsOthers(ring: seq<Key>, r: nat, i: nat)
    requires Distinct(ring) && r < |ring| && i <= |ring|
    ensures var keys := ring[..i] + Shifting(ring, r, |ring| - 1 - r)[i..];
            (forall k :: k in ring && k != ring[r] ==> k in keys) <==> !(r < i < |ring| - 1)
  {
    var n := |ring|;
    var moves := seq(n, p requires 0 <= p < n => if p < i then 0 else n - 1 - r);
    var keys := ring[..i] + Shifting(ring, r, n - 1 - r)[i..];
    assert keys == Seen(ring, r, moves);
    forall k | k in ring && k != ring[r] ensures k in keys <==> !(r < i < n - 1 && k == ring[i]) {
      SearchFinds(ring, r, moves, k);
    }
    assert i < n ==> ring[i] in ring;
  }

  // ---------------------------------------------------------------- the object

  /** The ring as the code keeps it: a slice that InstallKeys replaces, and that RemoveKey also
      shifts in place, while a reader may still hold it. */
  class KeyRing {
    var keys: array<Key>

    ghost predicate Valid()
      reads this, keys
    {
      Proper(keys[..])
    }

    constructor ()
      ensures Valid() && fresh(keys) && keys[..] == []
    {
      keys := new Key[0];
    }

    method InstallKeys(list: seq<Key>, primary: Key)
      modifies this
      ensures fresh(keys) && keys[..] == Install(list, primary)
    {
      var newKeys := [primary];
      for i := 0 to |list|
        invariant newKeys == Install(list[..i], primary)
      {
        assert list[..i + 1][..i] == list[..i];
        if list[i] != primary { newKeys := newKeys + [list[i]]; }
      }
      assert list[..|list|] == list;
      keys := new Key[|newKeys|](i requires 0 <= i < |newKeys| => newKeys[i]);
      assert keys[..] == newKeys;
    }

    method Contains(key: Key) returns (found: bool)
      ensures found == (key in keys[..])
    {
      for i := 0 to keys.Length
        invariant key !in keys[..i]
      {
        if keys[i] == key { return true; }
      }
      assert keys[..keys.Length] == keys[..];
      return false;
    }

    /** The slice that readers hold is left as it was. */
    method AddKey(key: Key) returns (ok: bool)
      requires Valid()
      modifies this
      ensures Valid() && old(keys)[..] == old(keys[..])
      ensures ok == Add(old(keys[..]), key).Ok?
      ensures keys[..] == Apply(old(keys[..]), Op.AddKey(key))
    {
      ApplyIs(keys[..], Op.AddKey(key));
      if !ValidKey(key) { return false; }
      var found := Contains(key);
      if found { return true; }
      var primary := key;
      if keys.Length > 0 { primary := keys[0]; }
      InstallKeys(keys[..] + [key], primary);
      return true;
    }

    method UseKey(key: Key) returns (ok: bool)
      requires Valid()
      modifies this
      ensures Valid() && old(keys)[..] == old(keys[..])
      ensures ok == Use(old(keys[..]), key).Ok?
      ensures keys[..] == Apply(old(keys[..]), Op.UseKey(key))
    {
      ApplyIs(keys[..], Op.UseKey(key));
      var found := Contains(key);
      if found { InstallKeys(keys[..], key); }
      return found;
    }

    /** Close the gap at `i` by moving the later keys down; the last one stays where it was, too. */
    method Shift(i: nat)
      requires i < keys.Length
      modifies keys
      ensures keys[..keys.Length - 1] == old(keys[..i] + keys[i + 1..])
      ensures keys[keys.Length - 1] == old(keys[keys.Length - 1])
      ensures keys[..] == Shifting(old(keys[..]), i, keys.Length - 1 - i)
    {
      var n := keys.Length;
      for j := i to n - 1
        invariant forall p :: 0 <= p < i ==> keys[p] == old(keys[p])
        invariant forall p :: i <= p < j ==> keys[p] == old(keys[p + 1])
        invariant forall p :: j <= p < n ==> keys[p] == old(keys[p])
      {
        keys[j] := keys[j + 1];
      }
    }

    /** The slice that readers hold ends up shifted, which leaves every other key in it; what a reader
        misses that looks at it meanwhile is said by SearchFinds. */
    method RemoveKey(key: Key) returns (ok: bool)
      requires Valid() && keys.Length > 0
      modifies this, keys
      ensures Valid()
      ensures ok == Remove(old(keys[..]), key).Ok?
      ensures keys[..] == Apply(old(keys[..]), Op.RemoveKey(key))
      ensures forall k :: k in old(keys[..]) && k != key ==> k in old(keys)[..]
      ensures forall r :: 0 < r < |old(keys[..])| && old(keys[..])[r] == key ==>
                old(keys)[..] == Shifting(old(keys[..]), r, |old(keys[..])| - 1 - r)
    {
      ghost var ring := keys[..];
      ApplyIs(ring, Op.RemoveKey(key));
      if key == keys[0] { return false; }
      var slice, n := keys, keys.Length;
      var removed := false;
      for i := 0 to n
        invariant !removed ==> keys == slice && slice[..] == ring && key !in ring[..i]
        invariant removed ==> keys[..] == Install(Others(ring, key), ring[0]) && fresh(keys)
        invariant removed ==> forall p :: i <= p < n ==> slice[p] != key
        invariant forall k :: k in ring && k != key ==> k in slice[..]
        invariant removed ==> forall r :: 0 < r < n && ring[r] == key ==> slice[..] == Shifting(ring, r, n - 1 - r)
      {
        if slice[i] == key {
          Shift(i);
          RemovedOne(ring, i);
          Shifted(ring, slice[..], i);
          InstallKeys(slice[..n - 1], slice[0]);
          removed := true;
        }
      }
      if !removed {
        assert ring[..n] == ring;
        OthersIs(ring, key);
        InstallSame(ring);
      }
      return true;
    }
  }

  /** A ring of the primary key and the others, or no ring if one of the keys is invalid. */
  method NewKeyring(keys: seq<Key>, primary: Key) returns (ring: Option<KeyRing>)
    ensures New(keys, primary).Err? <==> ring.None?
    ensures ring.Some? ==> fresh(ring.value) && ring.value.Valid() && ring.value.keys[..] == New(keys, primary).value
  {
    var r := new KeyRing();
    if |keys| > 0 || |primary| > 0 {
      if |primary| == 0 { return None; }
      var ok := r.AddKey(primary);
      ghost var first := Add([], primary);
      if !ok {
        AddAllErr(keys);
        return None;
      }
      for i := 0 to |keys|
        invariant fresh(r) && r.Valid() && AddAll(first, keys[..i]) == Ok(r.keys[..])
      {
        assert keys[..i + 1][..i] == keys[..i];
        ok := r.AddKey(keys[i]);
        if !ok {
          AddAllStops(first, keys, i + 1);
          return None;
        }
      }
      assert keys[..|keys|] == keys;
    }
    return Some(r);
  }

  lemma {:induction false} AddAllErr(keys: seq<Key>)
    ensures AddAll(Err, keys).Err?
    decreases |keys|
  {
    if keys != [] { AddAllErr(keys[..|keys| - 1]); }
  }

  lemma {:induction false} AddAllStops(ring: Result<seq<Key>>, keys: seq<Key>, i: nat)
    requires i <= |keys| && AddAll(ring, keys[..i]).Err?
    ensures AddAll(ring, keys).Err?
    decreases |keys| - i
  {
    if i == |keys| {
      assert keys[..i] == keys;
    } else {
      assert keys[..i + 1][..i] == keys[..i];
      AddAllStops(ring, keys, i + 1);
    }
  }

  lemma {:induction false} RemovedOne(ring: seq<Key>, i: nat)
    requires Distinct(ring) && i < |ring|
    ensures Others(ring, ring[i]) == ring[..i] + ring[i + 1..]
    decreases |ring|
  {
    var front, last := ring[..|ring| - 1], ring[|ring| - 1];
    if i == |ring| - 1 {
      OthersIs(front, last);
    } else {
      RemovedOne(front, i);
      assert front[i] == ring[i] != last;
      assert front[..i] + front[i + 1..] + [last] == ring[..i] + ring[i + 1..];
    }
  }

  /** What a reader of the shifted slice finds. */
  lemma Shifted(ring: seq<Key>, slice: seq<Key>, i: nat)
    requires Distinct(ring) && 0 < i < |ring| == |slice|
    requires slice[..|ring| - 1] == ring[..i] + ring[i + 1..] && slice[|ring| - 1] == ring[|ring| - 1]
    ensures slice[0] == ring[0]
    ensures forall p :: i < p < |slice| ==> slice[p] != ring[i]
    ensures forall k :: k in ring && k != ring[i] ==> k in slice
  {
    var n := |ring|;
    assert forall p :: 0 <= p < i ==> slice[p] == slice[..n - 1][p] == ring[p];
    assert forall p :: i <= p < n - 1 ==> slice[p] == slice[..n - 1][p] == ring[p + 1];
    forall k | k in ring && k != ring[i] ensures k in slice {
      var p :| 0 <= p < n && ring[p] == k;
      assert slice[if p < i then p else p - 1] == k;
    }
  }

  /** Installing a ring with its own primary changes nothing. */
  lemma InstallSame(ring: seq<Key>)
    requires Distinct(ring) && ring != []
    ensures Install(ring, ring[0]) == ring
  {
    RemovedOne(ring, 0);
  }

  // ---------------------------------------------------------------- order and errors

  /** An operation fails exactly for an invalid new key, a key to use that is not there, or the primary
      key to be removed. */
  lemma OutcomeFails(ring: seq<Key>, op: Op)
    requires op.RemoveKey? ==> ring != []
    ensures Outcome(ring, op).Err? <==>
              match op
              case AddKey(key) => |key| != 16 && |key| != 24 && |key| != 32
              case UseKey(key) => key !in ring
              case RemoveKey(key) => key == ring[0]
  {}

  /** What an operation makes of a ring in order: a new key comes last, a used one first, and the others
      stay in their order. */
  lemma ApplyOrder(ring: seq<Key>, op: Op)
    requires Proper(ring) && (op.RemoveKey? ==> ring != [])
    ensures match op
            case AddKey(key) => Apply(ring, op) == if key in ring || !ValidKey(key) then ring else ring + [key]
            case UseKey(key) =>
              (key !in ring ==> Apply(ring, op) == ring)
              && forall i :: 0 <= i < |ring| && ring[i] == key ==> Apply(ring, op) == [key] + ring[..i] + ring[i + 1..]
            case RemoveKey(key) =>
              (key !in ring || key == ring[0] ==> Apply(ring, op) == ring)
              && forall i :: 0 < i < |ring| && ring[i] == key ==> Apply(ring, op) == ring[..i] + ring[i + 1..]
  {
    match op
    case AddKey(key) =>
      if key !in ring && ValidKey(key) {
        DistinctAppend(ring, key);
        InstallSame(ring + [key]);
      }
    case UseKey(key) =>
      forall i | 0 <= i < |ring| && ring[i] == key ensures Apply(ring, op) == [key] + ring[..i] + ring[i + 1..] {
        RemovedOne(ring, i);
      }
    case RemoveKey(key) =>
      if key !in ring && ring != [] {
        OthersIs(ring, key);
        InstallSame(ring);
      }
      forall i | 0 < i < |ring| && ring[i] == key ensures Apply(ring, op) == ring[..i] + ring[i + 1..] {
        RemovedOne(ring, i);
        OthersIs(ring, key);
        var rest := ring[..i] + ring[i + 1..];
        assert rest[0] == ring[0];
        InstallSame(rest);
      }
  }

  /** A new ring: none without any key, an error for keys without a primary or an invalid key, and else
      the primary first and every key once. */
  lemma NewIs(keys: seq<Key>, primary: Key)
    ensures New(keys, primary).Err? <==>
              !(keys == [] && primary == []) && (!ValidKey(primary) || exists k :: k in keys && !ValidKey(k))
    ensures keys == [] && primary == [] ==> New(keys, primary) == Ok([])
    ensures New(keys, primary).Ok? && primary != [] ==>
              var ring := New(keys, primary).value;
              Proper(ring) && ring != [] && ring[0] == primary && forall k :: k in ring <==> k == primary || k in keys
  {
    if primary != [] && ValidKey(primary) {
      ApplyOrder([], AddKey(primary));
      AddAllIs([primary], keys);
    } else if primary != [] {
      AddAllErr(keys);
    }
  }

  lemma {:induction false} AddAllIs(ring: seq<Key>, keys: seq<Key>)
    requires Proper(ring) && ring != []
    ensures AddAll(Ok(ring), keys).Err? <==> exists k :: k in keys && !ValidKey(k)
    ensures AddAll(Ok(ring), keys).Ok? ==>
              var r := AddAll(Ok(ring), keys).value;
              Proper(r) && r != [] && r[0] == ring[0] && forall k :: k in r <==> k in ring || k in keys
    decreases |keys|
  {
    if keys != [] {
      var front, last := keys[..|keys| - 1], keys[|keys| - 1];
      AddAllIs(ring, front);
      assert forall k :: k in keys <==> k in front || k == last;
      hide Proper;
      if AddAll(Ok(ring), front).Ok? { ApplyIs(AddAll(Ok(ring), front).value, AddKey(last)); }
    }
  }
}
