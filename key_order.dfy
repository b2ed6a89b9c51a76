/** The order in which the object store's cursor visits keys: ascending.
    `Ascending(s)` is the key set `s` listed from the least key up; the
    lemmas say that it lists exactly `s`, strictly increasing, that it is the
    only such listing, and that a key larger than all others goes last. */
module KeyOrder {

  predicate StrictlyIncreasing(ks: seq<nat>)
  {
    forall i, j :: 0 <= i < j < |ks| ==> ks[i] < ks[j]
  }

  lemma {:induction false} Least(s: set<nat>) returns (m: nat)
    requires s != {}
    ensures m in s && forall j :: j in s ==> m <= j
    decreases |s|
  {
    var x :| x in s;
    if s == {x} {
      m := x;
    } else {
      var rest := Least(s - {x});
      m := if x < rest then x else rest;
      forall j | j in s ensures m <= j {
        if j != x {
          assert j in s - {x};
        }
      }
    }
  }

  lemma MinExists(s: set<nat>)
    requires s != {}
    ensures exists k :: k in s && forall j :: j in s ==> k <= j
  {
    var m := Least(s);
  }

  /** The least key of a non-empty key set. */
  ghost function MinKey(s: set<nat>): (k: nat)
    requires s != {}
    ensures k in s && forall j :: j in s ==> k <= j
  {
    MinExists(s);
    var k :| k in s && forall j :: j in s ==> k <= j; k
  }

  /** The keys of `s` from the least up. */
  ghost function Ascending(s: set<nat>): seq<nat>
    decreases |s|
  {
    if s == {} then [] else
      var k := MinKey(s);
      [k] + Ascending(s - {k})
  }

  /** The length part of AscendingContents on its own: callers that need only
      the length use this one and keep the membership quantifier out of the
      proof, which would otherwise make it slow. */
  lemma {:induction false} AscendingLength(s: set<nat>)
    ensures |Ascending(s)| == |s|
    decreases |s|
  {
    if s != {} {
      AscendingLength(s - {MinKey(s)});
    }
  }

  /** Ascending lists every key of `s` once and nothing else. */
  lemma {:induction false} AscendingContents(s: set<nat>)
    ensures |Ascending(s)| == |s|
    ensures forall k :: k in s <==> k in Ascending(s)
    decreases |s|
  {
    if s != {} {
      var k := MinKey(s);
      AscendingContents(s - {k});
    }
  }

  /** Ascending is strictly increasing. */
  lemma {:induction false} AscendingSorted(s: set<nat>)
    ensures StrictlyIncreasing(Ascending(s))
    decreases |s|
  {
    if s != {} {
      var k := MinKey(s);
      var rest := Ascending(s - {k});
      AscendingSorted(s - {k});
      AscendingContents(s - {k});
      assert Ascending(s) == [k] + rest;
      forall i, j | 0 <= i < j < |Ascending(s)|
        ensures Ascending(s)[i] < Ascending(s)[j]
      {
        if i == 0 {
          assert Ascending(s)[j] == rest[j - 1];
          assert rest[j - 1] in s - {k};
        } else {
          assert Ascending(s)[i] == rest[i - 1] && Ascending(s)[j] == rest[j - 1];
        }
      }
    }
  }

  /** Any strictly increasing listing of exactly the keys of `s` is
      Ascending(s). */
  lemma {:induction false} AscendingUnique(s: set<nat>, ks: seq<nat>)
    requires StrictlyIncreasing(ks)
    requires forall k :: k in s <==> k in ks
    ensures ks == Ascending(s)
    decreases |ks|
  {
    if ks == [] {
      assert s == {};
    } else {
      assert ks[0] in s;
      var m := MinKey(s);
      assert m in ks;
      assert ks[0] == m by {
        forall i | 0 < i < |ks| ensures ks[0] < ks[i] { }
      }
      var tail := ks[1..];
      forall k ensures k in s - {m} <==> k in tail {
        if k in tail {
          var i :| 0 <= i < |tail| && tail[i] == k;
          assert ks[i + 1] == k;
        }
        if k in s - {m} {
          var i :| 0 <= i < |ks| && ks[i] == k;
          assert i != 0;
          assert tail[i - 1] == k;
        }
      }
      AscendingUnique(s - {m}, tail);
      assert ks == [m] + tail;
    }
  }

  /** A key larger than every present key is visited after all of them:
      the order of insertion under a growing key generator. */
  lemma AscendingAppend(s: set<nat>, k: nat)
    requires forall j :: j in s ==> j < k
    ensures Ascending(s + {k}) == Ascending(s) + [k]
  {
    var ks := Ascending(s) + [k];
    AscendingSorted(s);
    AscendingContents(s);
    forall i, j | 0 <= i < j < |ks| ensures ks[i] < ks[j] {
      if j == |ks| - 1 {
        assert ks[i] in Ascending(s);
      }
    }
    forall x ensures x in s + {k} <==> x in ks { }
    AscendingUnique(s + {k}, ks);
  }

  /** Removing the least key drops the head of the order. */
  lemma AscendingRemoveMin(s: set<nat>, k: nat)
    requires k in s
    requires forall j :: j in s ==> k <= j
    ensures Ascending(s) == [k] + Ascending(s - {k})
  {
  }
}
