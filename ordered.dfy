/** Ascending enumeration of a finite set of integer keys.

    Both stores of the system are keyed maps: a BTreeMap is walked in ascending key
    order, and the keys of a HashMap are collected in an order the program does not
    fix.  This module gives the ascending order, used for the first and as one
    admissible order for the second. */
module OrderedKeys {

  predicate StrictlyIncreasing(s: seq<int>) {
    forall i, j :: 0 <= i < j < |s| ==> s[i] < s[j]
  }

  predicate IsLeast(m: int, s: set<int>) {
    m in s && forall y :: y in s ==> m <= y
  }

  /** Every non-empty finite set of integers has a least element. */
  lemma {:induction false} LeastExists(s: set<int>)
    requires s != {}
    ensures exists m :: IsLeast(m, s)
    decreases |s|
  {
    assert (forall y :: y !in s) ==> s == {};
    var x :| x in s;
    var rest := s - {x};
    if rest == {} {
      forall y | y in s ensures x <= y {
        assert y !in rest;
      }
      assert IsLeast(x, s);
    } else {
      LeastExists(rest);
      var k :| IsLeast(k, rest);
      forall y | y in s ensures (if x < k then x else k) <= y {
        if y != x { assert y in rest; }
      }
      assert IsLeast(if x < k then x else k, s);
    }
  }

  /** The elements of `s`, each once, smallest first. */
  function Ascending(s: set<int>): (r: seq<int>)
    ensures |r| == |s|
    ensures forall x :: x in r <==> x in s
    ensures StrictlyIncreasing(r)
    decreases |s|
  {
    if s == {} then []
    else
      LeastExists(s);
      var m :| IsLeast(m, s);
      var tail := Ascending(s - {m});
      assert forall i :: 0 <= i < |tail| ==> m < tail[i] by {
        forall i | 0 <= i < |tail| ensures m < tail[i] {
          assert tail[i] in s - {m};
        }
      }
      [m] + tail
  }

  /** `Ascending` for keys that are natural numbers (timestamps). */
  function AscendingNat(s: set<nat>): (r: seq<nat>)
    ensures |r| == |s|
    ensures forall x :: x in r <==> x in s
    ensures forall i, j :: 0 <= i < j < |r| ==> r[i] < r[j]
  {
    var a := Ascending(s);
    assert forall i :: 0 <= i < |a| ==> a[i] in s;
    a
  }

  /** Every element lies between the first and the last of the enumeration. */
  lemma AscendingNatBounds(s: set<nat>)
    requires s != {}
    ensures var ks := AscendingNat(s);
      |ks| > 0 && forall t :: t in s ==> ks[0] <= t <= ks[|ks| - 1]
  {
    var ks := AscendingNat(s);
    forall t | t in s ensures ks[0] <= t <= ks[|ks| - 1] {
      var i :| 0 <= i < |ks| && ks[i] == t;
      assert i == 0 || ks[0] < ks[i];
      assert i == |ks| - 1 || ks[i] < ks[|ks| - 1];
    }
  }
}
