/** Types shared by every component: machine integers, byte strings and options. */
module Base {

  /** An unsigned byte, as in Go's `byte`. */
  type byte = b: int | 0 <= b < 256

  type Bytes = seq<byte>

  const MAX_U32: int := 0xFFFF_FFFF

  /** Incarnation numbers are 32 bits wide in the protocol. */
  type u32 = n: int | 0 <= n <= 0xFFFF_FFFF

  type u16 = n: int | 0 <= n <= 0xFFFF

  /** Unsigned 32-bit addition, which wraps around. */
  function Add32(a: u32, b: u32): (r: u32)
  {
    if a + b <= MAX_U32 then a + b else a + b - MAX_U32 - 1
  }

  datatype Option<+T> = None | Some(value: T)

  datatype Result<+T> = Ok(value: T) | Err

  /** No element occurs twice. */
  ghost predicate Distinct<T>(s: seq<T>)
  {
    forall i, j :: 0 <= i < j < |s| ==> s[i] != s[j]
  }

  /** The elements of a sequence, as a set. */
  function Elements<T>(s: seq<T>): (r: set<T>)
  {
    set x | x in s
  }

  /** Adding to a duplicate-free sequence an element it lacks. */
  lemma DistinctAppend<T>(s: seq<T>, x: T)
    requires Distinct(s) && x !in s
    ensures Distinct(s + [x])
    ensures Elements(s + [x]) == Elements(s) + {x}
  {}

  /** Swapping two positions keeps the elements and their distinctness. */
  lemma DistinctSwap<T>(s: seq<T>, i: nat, j: nat)
    requires i < |s| && j < |s| && Distinct(s)
    ensures Distinct(s[i := s[j]][j := s[i]])
    ensures Elements(s[i := s[j]][j := s[i]]) == Elements(s)
  {
    var t := s[i := s[j]][j := s[i]];
    forall x ensures x in Elements(t) <==> x in Elements(s) {
      if x in s {
        var p :| 0 <= p < |s| && s[p] == x;
        assert t[if p == i then j else if p == j then i else p] == x;
      }
    }
  }

  /** A duplicate-free sequence is as long as its set of elements is large. */
  lemma DistinctLength<T>(s: seq<T>)
    requires Distinct(s)
    ensures |Elements(s)| == |s|
  {
    if s != [] {
      var front, last := s[..|s| - 1], s[|s| - 1];
      DistinctLength(front);
      assert s == front + [last];
      DistinctAppend(front, last);
    }
  }

  /** Two arrangements of the same elements agree on distinctness. */
  lemma DistinctPermutation<T>(s: seq<T>, t: seq<T>)
    requires multiset(s) == multiset(t) && Distinct(s)
    ensures Distinct(t) && Elements(t) == Elements(s)
  {
    forall x ensures x in Elements(t) <==> x in Elements(s) {
      assert x in multiset(t) <==> x in multiset(s);
    }
    forall i, j | 0 <= i < j < |t| ensures t[i] != t[j] {
      if t[i] == t[j] {
        var x := t[i];
        assert t == t[..i] + [x] + t[i + 1..j] + [x] + t[j + 1..];
        assert multiset(t)[x] >= 2;
        DistinctMultiplicity(s, x);
        assert false;
      }
    }
  }

  lemma DistinctMultiplicity<T>(s: seq<T>, x: T)
    requires Distinct(s)
    ensures multiset(s)[x] <= 1
  {
    if s != [] {
      assert s == s[..|s| - 1] + [s[|s| - 1]];
      DistinctMultiplicity(s[..|s| - 1], x);
    }
  }

  lemma SubsetSize<T>(a: set<T>, b: set<T>)
    requires a <= b
    ensures |a| <= |b|
  {
    assert b == a + (b - a);
  }
}
