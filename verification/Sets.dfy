// Walking finite sets.
module Sets {
  ghost function AnyOf<T>(s: set<T>): (x: T)
    requires s != {}
    ensures x in s
  {
    var x :| x in s;
    x
  }

  lemma {:induction false} LeastExists(s: set<int>) returns (least: int)
    requires s != {}
    ensures least in s && forall y | y in s :: least <= y
  {
    least := AnyOf(s);
    if s != {least} {
      var y := LeastExists(s - {least});
      assert s == (s - {least}) + {least};
      if y < least {
        least := y;
      }
    } else {
    }
  }

  ghost predicate Ascending(v: seq<int>) {
    forall i, j | 0 <= i < j < |v| :: v[i] < v[j]
  }

  // v lists the ids in s in ascending order.
  ghost predicate Enumerates(v: seq<int>, s: set<int>) {
    Ascending(v) && forall id :: id in v <==> id in s
  }

  lemma {:induction false} HasListing(s: set<int>)
    ensures exists v :: Enumerates(v, s)
    decreases |s|
  {
    if s == {} {
      assert Enumerates([], s);
    } else {
      var least := LeastExists(s);
      HasListing(s - {least});
      var w :| Enumerates(w, s - {least});
      forall i | 0 <= i < |w| ensures least < w[i] {
        assert w[i] in w;
      }
      assert Enumerates([least] + w, s);
    }
  }

  lemma {:induction false} ListingUnique(v: seq<int>, w: seq<int>, s: set<int>)
    requires Enumerates(v, s) && Enumerates(w, s)
    ensures v == w
    decreases |v|
  {
    AscendingSize(v, s);
    AscendingSize(w, s);
    if v != [] {
      var a, b := v[|v| - 1], w[|w| - 1];
      assert a in v && b in w;
      assert a in w && b in v;
      assert a == b;
      WithoutLast(v, s);
      WithoutLast(w, s);
      ListingUnique(v[..|v| - 1], w[..|w| - 1], s - {a});
      assert v == v[..|v| - 1] + [a] && w == w[..|w| - 1] + [a];
    }
  }

  lemma WithoutLast(v: seq<int>, s: set<int>)
    requires Enumerates(v, s) && v != []
    ensures Enumerates(v[..|v| - 1], s - {v[|v| - 1]})
  {
    var last := v[|v| - 1];
    var w := v[..|v| - 1];
    assert last in v && v == w + [last];
    forall id ensures id in w <==> id in s - {last} {
      if id in w {
        var i :| 0 <= i < |w| && w[i] == id;
        assert v[i] < last && v[i] in v;
      }
    }
  }

  ghost function Listing(s: set<int>): (v: seq<int>)
    ensures Enumerates(v, s)
  {
    HasListing(s);
    var v :| Enumerates(v, s);
    v
  }

  lemma {:induction false} AscendingSize(v: seq<int>, s: set<int>)
    requires Enumerates(v, s)
    ensures |v| == |s|
    decreases |v|
  {
    if v == [] {
      assert forall id: int :: id !in s;
      assert s == {};
    } else {
      assert v[|v| - 1] in v;
      WithoutLast(v, s);
      AscendingSize(v[..|v| - 1], s - {v[|v| - 1]});
    }
  }

  // The order in which a std::set or std::map is walked.
  method InOrder(s: set<int>) returns (v: seq<int>)
    ensures Enumerates(v, s) && v == Listing(s)
  {
    v := [];
    var rest := s;
    while rest != {}
      invariant rest <= s && Ascending(v)
      invariant forall id :: id in s <==> id in v || id in rest
      invariant forall a, b | a in v && b in rest :: a < b
      decreases rest
    {
      ghost var first := LeastExists(rest);
      var least: int :| least in rest && forall y | y in rest :: least <= y;
      assert forall i | 0 <= i < |v| :: v[i] in v;
      v := v + [least];
      rest := rest - {least};
    }
    ListingUnique(v, Listing(s), s);
  }
}
