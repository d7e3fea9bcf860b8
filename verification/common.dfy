/** Small shared vocabulary: an optional value and the least element of a
    finite set of integers, which is where iteration over an ordered
    container (a sorted map or set) starts. */
module Common {

  datatype Option<T> = None | Some(value: T) {
    /** The held value, or `absent` when there is none. */
    function Or(absent: T): T {
      if Some? then value else absent
    }
  }

  /** The integers `lo..hi`, both ends included. */
  function Span(lo: int, hi: int): (s: set<int>)
    ensures forall k :: k in s <==> lo <= k <= hi
    decreases hi - lo
  {
    if lo > hi then {} else {lo} + Span(lo + 1, hi)
  }

  /** `m` is the least element of `s`. */
  predicate IsLeast(m: int, s: set<int>) {
    m in s && forall x :: x in s ==> m <= x
  }

  /** Every non-empty finite set of integers has a least element. */
  lemma {:induction false} LeastExists(s: set<int>)
    requires s != {}
    ensures exists m :: IsLeast(m, s)
    decreases |s|
  {
    if forall x :: x !in s {
      assert false;
    }
    var z :| z in s;
    var rest := s - {z};
    if rest == {} {
      forall x | x in s
        ensures z <= x
      {
        assert x in rest <==> x != z;
      }
      assert IsLeast(z, s);
    } else {
      LeastExists(rest);
      var m :| IsLeast(m, rest);
      var least := if z < m then z else m;
      forall x | x in s
        ensures least <= x
      {
        if x != z {
          assert x in rest;
        }
      }
      assert IsLeast(least, s);
    }
  }

  /** The least element of `s`: the first element an ascending traversal of
      an ordered container visits (`begin()` of a sorted set or map). */
  function SetMin(s: set<int>): (m: int)
    requires s != {}
    ensures m in s
    ensures forall x :: x in s ==> m <= x
  {
    LeastExists(s);
    var m :| IsLeast(m, s);
    m
  }

  /** `std::map::insert`: a key that is already present keeps its value. */
  function InsertNew<K, V>(m: map<K, V>, k: K, v: V): (m': map<K, V>)
    ensures m'.Keys == m.Keys + {k}
    ensures k in m ==> m'[k] == m[k]
    ensures k !in m ==> m'[k] == v
    ensures forall x :: x in m && x != k ==> m'[x] == m[x]
  {
    if k in m then m else m[k := v]
  }
}
