/** Order statistics of finite key sets: the vocabulary in which the operations are specified. */
module OrderedKeys {
  import opened Wrappers
  import opened ByteStrings

  predicate IsMin(s: set<Bytes>, m: Bytes) {
    m in s && forall k | k in s :: AtMost(m, k)
  }

  predicate IsMax(s: set<Bytes>, m: Bytes) {
    m in s && forall k | k in s :: AtMost(k, m)
  }

  lemma {:induction false} MinExists(s: set<Bytes>)
    requires s != {}
    ensures exists m :: m in s && IsMin(s, m)
  {
    var x :| x in s;
    if s - {x} == {} {
      assert s == {x};
      assert IsMin(s, x);
    } else {
      MinExists(s - {x});
      var m :| m in s - {x} && IsMin(s - {x}, m);
      TotalOrder();
      assert forall k | k in s :: k == x || k in s - {x};
      if Below(x, m) {
        assert IsMin(s, x);
      } else {
        assert IsMin(s, m);
      }
    }
  }

  lemma {:induction false} MaxExists(s: set<Bytes>)
    requires s != {}
    ensures exists m :: m in s && IsMax(s, m)
  {
    var x :| x in s;
    if s - {x} == {} {
      assert s == {x};
      assert IsMax(s, x);
    } else {
      MaxExists(s - {x});
      var m :| m in s - {x} && IsMax(s - {x}, m);
      TotalOrder();
      assert forall k | k in s :: k == x || k in s - {x};
      if Below(m, x) {
        assert IsMax(s, x);
      } else {
        assert IsMax(s, m);
      }
    }
  }

  function Min(s: set<Bytes>): (m: Bytes)
    requires s != {}
    ensures IsMin(s, m)
  {
    MinExists(s);
    TotalOrder();
    var m :| m in s && IsMin(s, m);
    m
  }

  function Max(s: set<Bytes>): (m: Bytes)
    requires s != {}
    ensures IsMax(s, m)
  {
    MaxExists(s);
    TotalOrder();
    var m :| m in s && IsMax(s, m);
    m
  }

  lemma MinIs(s: set<Bytes>, m: Bytes)
    requires IsMin(s, m)
    ensures Min(s) == m
  {
    TotalOrder();
  }

  lemma MaxIs(s: set<Bytes>, m: Bytes)
    requires IsMax(s, m)
    ensures Max(s) == m
  {
    TotalOrder();
  }

  function Least(s: set<Bytes>): Option<Bytes> {
    if s == {} then None else Some(Min(s))
  }

  function Greatest(s: set<Bytes>): Option<Bytes> {
    if s == {} then None else Some(Max(s))
  }

  // ---------- Parts of a key set ----------

  function From(s: set<Bytes>, x: Bytes): set<Bytes> { set k | k in s && AtMost(x, k) }

  function After(s: set<Bytes>, x: Bytes): set<Bytes> { set k | k in s && Below(x, k) }

  function Before(s: set<Bytes>, x: Bytes): set<Bytes> { set k | k in s && Below(k, x) }

  /** The keys with prefix p. */
  function Group(s: set<Bytes>, p: Bytes): set<Bytes> { set k | k in s && HasPrefix(k, p) }

  /** The keys above p that do not have prefix p: those of the groups after p's. */
  function Beyond(s: set<Bytes>, p: Bytes): set<Bytes> { set k | k in s && Below(p, k) && !HasPrefix(k, p) }

  /** The keys an iterator over [start, end) visits; None leaves that side open. */
  function Bounds(s: set<Bytes>, start: Option<Bytes>, end: Option<Bytes>): set<Bytes> {
    set k | k in s && (start.Some? ==> AtMost(start.value, k)) && (end.Some? ==> Below(k, end.value))
  }

  lemma BoundsOfPrefix(s: set<Bytes>, p: Bytes)
    ensures Bounds(s, Some(p), PrefixEnd(p)) == Group(s, p)
  {
    forall k | k in s ensures k in Bounds(s, Some(p), PrefixEnd(p)) <==> k in Group(s, p) {
      PrefixRangeExact(p, k);
    }
  }

  lemma BoundsInPrefix(s: set<Bytes>, c: Bytes, p: Bytes)
    requires HasPrefix(c, p)
    ensures Bounds(s, Some(c), PrefixEnd(p)) == From(Group(s, p), c)
  {
    forall k | k in s ensures k in Bounds(s, Some(c), PrefixEnd(p)) <==> k in From(Group(s, p), c) {
      PrefixRangeExact(p, k);
      PrefixAtMost(p, c);
      TotalOrder();
    }
  }

  /** A range that starts at PrefixEnd(p) starts past the group, unless p is all 0xFF: then it is the whole table. */
  lemma BoundsPastPrefix(s: set<Bytes>, p: Bytes)
    ensures Bounds(s, PrefixEnd(p), None) == if AllMax(p) then s else Beyond(s, p)
  {
    PrefixEndOpen(p);
    if !AllMax(p) {
      forall k | k in s ensures k in Bounds(s, PrefixEnd(p), None) <==> k in Beyond(s, p) {
        PastPrefixExact(p, k);
      }
    }
  }

  // ---------- Sorted sequences ----------

  ghost predicate StrictlyAscending(ks: seq<Bytes>) {
    forall i, j | 0 <= i < j < |ks| :: Below(ks[i], ks[j])
  }

  function Ascending(s: set<Bytes>): seq<Bytes> {
    if s == {} then [] else [Min(s)] + Ascending(s - {Min(s)})
  }

  lemma {:induction false} AscendingElements(s: set<Bytes>)
    ensures |Ascending(s)| == |s|
    ensures forall k :: k in Ascending(s) <==> k in s
  {
    if s != {} {
      var m := Min(s);
      AscendingElements(s - {m});
      assert s == {m} + (s - {m});
    }
  }

  function Elements(ks: seq<Bytes>): set<Bytes> { set k | k in ks }

  lemma ElementsUpTo(ks: seq<Bytes>, i: nat)
    requires i < |ks|
    ensures Elements(ks[..i + 1]) == Elements(ks[..i]) + {ks[i]}
  {
  }

  function Reverse(s: seq<Bytes>): (r: seq<Bytes>)
    ensures |r| == |s|
  {
    if s == [] then [] else [s[|s| - 1]] + Reverse(s[..|s| - 1])
  }

  lemma {:induction false} ReverseAt(s: seq<Bytes>)
    ensures forall i | 0 <= i < |s| :: Reverse(s)[i] == s[|s| - 1 - i]
  {
    if s != [] {
      ReverseAt(s[..|s| - 1]);
    }
  }

  lemma {:induction false} AscendingIsSorted(s: set<Bytes>)
    ensures |Ascending(s)| == |s|
    ensures StrictlyAscending(Ascending(s))
  {
    if s != {} {
      var m := Min(s);
      AscendingIsSorted(s - {m});
      AscendingElements(s - {m});
      var r := Ascending(s - {m});
      forall i, j | 0 <= i < j < |Ascending(s)| ensures Below(Ascending(s)[i], Ascending(s)[j]) {
        if i == 0 {
          assert r[j - 1] in s - {m};
        } else {
          assert Below(r[i - 1], r[j - 1]);
        }
      }
    }
  }

  /** A strictly ascending sequence is the Ascending sequence of its own elements. */
  lemma {:induction false} AscendingUnique(ks: seq<Bytes>)
    requires StrictlyAscending(ks)
    ensures Ascending(Elements(ks)) == ks
  {
    var s := Elements(ks);
    if ks != [] {
      assert IsMin(s, ks[0]) by {
        forall k | k in s ensures AtMost(ks[0], k) {
          var i :| 0 <= i < |ks| && ks[i] == k;
        }
      }
      MinIs(s, ks[0]);
      TotalOrder();
      assert s - {ks[0]} == Elements(ks[1..]) by {
        forall k | k in ks[1..] ensures k in s && k != ks[0] {
          var i :| 0 <= i < |ks[1..]| && ks[1..][i] == k;
          assert Below(ks[0], ks[i + 1]);
        }
      }
      assert StrictlyAscending(ks[1..]) by {
        forall i, j | 0 <= i < j < |ks[1..]| ensures Below(ks[1..][i], ks[1..][j]) {
          assert Below(ks[i + 1], ks[j + 1]);
        }
      }
      AscendingUnique(ks[1..]);
    }
  }

  /** The ends of the sorted sequence are the extreme keys. */
  lemma AscendingEnds(s: set<Bytes>)
    requires s != {}
    ensures |Ascending(s)| == |s|
    ensures Ascending(s)[0] == Min(s) && Ascending(s)[|s| - 1] == Max(s)
  {
    AscendingElements(s);
    AscendingIsSorted(s);
    var r := Ascending(s);
    forall k | k in s ensures AtMost(k, r[|s| - 1]) {
      assert k in r;
      var i :| 0 <= i < |r| && r[i] == k;
    }
    MaxIs(s, r[|s| - 1]);
  }

  /** In a sorted sequence the keys above position i are the ones to its right, those below it the ones to its left. */
  lemma PositionOf(r: seq<Bytes>, i: nat, k: Bytes) returns (j: nat)
    requires StrictlyAscending(r) && i < |r| && k in r
    ensures j < |r| && r[j] == k
    ensures (Below(r[i], k) <==> i < j) && (Below(k, r[i]) <==> j < i)
  {
    j :| 0 <= j < |r| && r[j] == k;
    if i < j {
      BelowAsymmetric(r[i], k);
    } else if j < i {
      BelowAsymmetric(k, r[i]);
    } else {
      BelowIrreflexive(k);
    }
  }

  lemma NextInSorted(r: seq<Bytes>, s: set<Bytes>, i: nat)
    requires StrictlyAscending(r) && i < |r|
    requires forall k :: k in r <==> k in s
    ensures Least(After(s, r[i])) == if i + 1 < |r| then Some(r[i + 1]) else None
  {
    forall k | k in After(s, r[i]) ensures i + 1 < |r| && AtMost(r[i + 1], k) {
      var j := PositionOf(r, i, k);
    }
    if i + 1 < |r| {
      assert r[i + 1] in After(s, r[i]);
      MinIs(After(s, r[i]), r[i + 1]);
    }
  }

  lemma PrevInSorted(r: seq<Bytes>, s: set<Bytes>, i: nat)
    requires StrictlyAscending(r) && i < |r|
    requires forall k :: k in r <==> k in s
    ensures Greatest(Before(s, r[i])) == if i > 0 then Some(r[i - 1]) else None
  {
    forall k | k in Before(s, r[i]) ensures i > 0 && AtMost(k, r[i - 1]) {
      var j := PositionOf(r, i, k);
    }
    if i > 0 {
      assert r[i - 1] in Before(s, r[i]);
      MaxIs(Before(s, r[i]), r[i - 1]);
    }
  }

  /** One position to the right in the sorted sequence is the next key up, one to the left the next key down. */
  lemma AscendingNeighbours(s: set<Bytes>, i: nat)
    requires i < |s|
    ensures |Ascending(s)| == |s|
    ensures Least(After(s, Ascending(s)[i])) == if i + 1 < |s| then Some(Ascending(s)[i + 1]) else None
    ensures Greatest(Before(s, Ascending(s)[i])) == if i > 0 then Some(Ascending(s)[i - 1]) else None
  {
    AscendingElements(s);
    AscendingIsSorted(s);
    NextInSorted(Ascending(s), s, i);
    PrevInSorted(Ascending(s), s, i);
  }

  /** At a key that is present, the keys from it on are the key itself and the keys after it. */
  lemma FromPresent(s: set<Bytes>, x: Bytes)
    requires x in s
    ensures Least(From(s, x)) == Some(x)
    ensures From(s, x) - {x} == After(s, x)
  {
    TotalOrder();
    assert x in From(s, x);
    MinIs(From(s, x), x);
  }

  lemma Regroup<T>(x: T, mid: seq<T>, end: seq<T>)
    ensures [x] + (mid + end) == ([x] + mid) + end
    ensures [] + end == end
  {
  }
}
