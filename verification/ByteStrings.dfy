/** Byte strings in the order every store of the application sorts them, and prefix ranges over them. */
module ByteStrings {
  import opened Wrappers

  newtype byte = x: int | 0 <= x < 0x100

  type Bytes = seq<byte>

  const MAX_BYTE: byte := 0xFF

  /** Strict lexicographic order (a proper prefix comes first): bytes.Compare(a, b) < 0. */
  predicate Below(a: Bytes, b: Bytes) {
    if b == [] then false
    else if a == [] then true
    else a[0] < b[0] || (a[0] == b[0] && Below(a[1..], b[1..]))
  }

  predicate AtMost(a: Bytes, b: Bytes) {
    a == b || Below(a, b)
  }

  predicate HasPrefix(k: Bytes, p: Bytes) {
    |p| <= |k| && k[..|p|] == p
  }

  predicate AllMax(p: Bytes) {
    forall i | 0 <= i < |p| :: p[i] == MAX_BYTE
  }

  function Zeros(n: nat): (z: Bytes)
    ensures |z| == n
  {
    seq(n, i => 0)
  }

  /** The two strings agree on their first i bytes, and there the one ends, or its byte is the smaller one. */
  predicate DifferAt(a: Bytes, b: Bytes, i: nat) {
    i <= |a| && i < |b| && a[..i] == b[..i] && (i == |a| || a[i] < b[i])
  }

  lemma SameFirst(a: Bytes, b: Bytes, i: nat)
    requires i <= |a| && i <= |b| && a[..i] == b[..i]
    ensures i > 0 ==> a[0] == b[0]
  {
    if i > 0 {
      assert a[..i][0] == b[..i][0];
    }
  }

  lemma {:induction false} BelowWhen(a: Bytes, b: Bytes)
    ensures Below(a, b) <==> exists i: nat :: DifferAt(a, b, i)
  {
    if a == [] || b == [] || a[0] != b[0] {
      if Below(a, b) {
        assert DifferAt(a, b, 0);
      }
      if i: nat :| DifferAt(a, b, i) {
        SameFirst(a, b, i);
      }
    } else {
      BelowWhen(a[1..], b[1..]);
      if i: nat :| DifferAt(a[1..], b[1..], i) {
        assert a[..i + 1] == [a[0]] + a[1..][..i] && b[..i + 1] == [b[0]] + b[1..][..i];
        assert DifferAt(a, b, i + 1);
      }
      if i: nat :| DifferAt(a, b, i) {
        assert a[1..][..i - 1] == a[..i][1..] && b[1..][..i - 1] == b[..i][1..];
        assert DifferAt(a[1..], b[1..], i - 1);
      }
    }
  }

  // ---------- Below is a strict total order ----------

  lemma {:induction false} BelowIrreflexive(a: Bytes)
    ensures !Below(a, a)
  {
    if a != [] {
      BelowIrreflexive(a[1..]);
    }
  }

  lemma {:induction false} BelowTransitive(a: Bytes, b: Bytes, c: Bytes)
    requires Below(a, b) && Below(b, c)
    ensures Below(a, c)
  {
    if a != [] && a[0] == b[0] == c[0] {
      BelowTransitive(a[1..], b[1..], c[1..]);
    }
  }

  lemma {:induction false} BelowConnected(a: Bytes, b: Bytes)
    ensures a == b || Below(a, b) || Below(b, a)
  {
    if a != [] && b != [] && a[0] == b[0] {
      BelowConnected(a[1..], b[1..]);
      assert a == [a[0]] + a[1..] && b == [b[0]] + b[1..];
    }
  }

  lemma BelowAsymmetric(a: Bytes, b: Bytes)
    requires Below(a, b)
    ensures a != b && !Below(b, a)
  {
  }

  /** The three laws together, for proofs that compare many strings. */
  lemma TotalOrder()
    ensures forall a: Bytes :: !Below(a, a)
    ensures forall a: Bytes, b: Bytes, c: Bytes :: Below(a, b) && Below(b, c) ==> Below(a, c)
    ensures forall a: Bytes, b: Bytes :: a == b || Below(a, b) || Below(b, a)
  {
    forall a: Bytes ensures !Below(a, a) { BelowIrreflexive(a); }
    forall a: Bytes, b: Bytes, c: Bytes | Below(a, b) && Below(b, c) ensures Below(a, c) {
      BelowTransitive(a, b, c);
    }
    forall a: Bytes, b: Bytes ensures a == b || Below(a, b) || Below(b, a) { BelowConnected(a, b); }
  }

  // ---------- Concatenation ----------

  /** A common front part does not affect the order. */
  lemma {:induction false} BelowCancel(p: Bytes, a: Bytes, b: Bytes)
    ensures Below(p + a, p + b) <==> Below(a, b)
  {
    if p == [] {
      assert p + a == a && p + b == b;
    } else {
      assert (p + a)[1..] == p[1..] + a && (p + b)[1..] == p[1..] + b;
      BelowCancel(p[1..], a, b);
    }
  }

  /** Fixed-width keys: the order of key ++ subkey is the order of the pair (key, subkey). */
  lemma {:induction false} BelowConcat(k: Bytes, s: Bytes, k': Bytes, s': Bytes)
    requires |k| == |k'|
    ensures Below(k + s, k' + s') <==> Below(k, k') || (k == k' && Below(s, s'))
  {
    if k == [] {
      assert k + s == s && k' + s' == s';
    } else {
      assert (k + s)[1..] == k[1..] + s && (k' + s')[1..] == k'[1..] + s';
      BelowConcat(k[1..], s, k'[1..], s');
      assert k == [k[0]] + k[1..] && k' == [k'[0]] + k'[1..];
    }
  }

  /** A string shorter than the key compares with key ++ subkey as it does with the key. */
  lemma {:induction false} BelowShort(c: Bytes, k: Bytes, s: Bytes)
    requires |c| < |k|
    ensures c != k + s && c != k
    ensures Below(c, k + s) <==> Below(c, k)
    ensures Below(k + s, c) <==> Below(k, c)
  {
    if c != [] {
      assert (k + s)[1..] == k[1..] + s;
      BelowShort(c[1..], k[1..], s);
    }
  }

  lemma PrefixAtMost(p: Bytes, k: Bytes)
    requires HasPrefix(k, p)
    ensures AtMost(p, k)
  {
    assert k == p + k[|p|..];
    assert p == p + [];
    BelowCancel(p, [], k[|p|..]);
  }

  lemma {:induction false} MaxIsTop(a: Bytes, b: Bytes)
    requires AllMax(a) && |a| == |b|
    ensures AtMost(b, a)
  {
    if a != [] {
      forall i | 0 <= i < |a[1..]| ensures a[1..][i] == MAX_BYTE {
        assert a[1..][i] == a[i + 1];
      }
      MaxIsTop(a[1..], b[1..]);
      assert a == [a[0]] + a[1..] && b == [b[0]] + b[1..];
    }
  }

  // ---------- Prefix ranges ----------

  /** The exclusive end of the range of strings with prefix p; None is an open end. */
  function PrefixEnd(p: Bytes): Option<Bytes> {
    if p == [] then None
    else match PrefixEnd(p[1..])
      case Some(e) => Some([p[0]] + e)
      case None => if p[0] == MAX_BYTE then None else Some([p[0] + 1])
  }

  lemma {:induction false} PrefixEndOpen(p: Bytes)
    ensures PrefixEnd(p).None? <==> AllMax(p)
  {
    if p != [] {
      PrefixEndOpen(p[1..]);
      assert AllMax(p) <==> p[0] == MAX_BYTE && AllMax(p[1..]) by {
        if p[0] == MAX_BYTE && AllMax(p[1..]) {
          forall i | 0 <= i < |p| ensures p[i] == MAX_BYTE {
            if i > 0 { assert p[i] == p[1..][i - 1]; }
          }
        }
      }
    }
  }

  /** Where a key stands relative to a prefix: below it, in its group, or at or past its end. */
  lemma {:induction false} PrefixEndSplits(p: Bytes, k: Bytes)
    ensures HasPrefix(k, p) ==> AtMost(p, k) && (PrefixEnd(p).Some? ==> Below(k, PrefixEnd(p).value))
    ensures AtMost(p, k) && !HasPrefix(k, p) ==> PrefixEnd(p).Some? && AtMost(PrefixEnd(p).value, k)
  {
    if p != [] && k != [] {
      PrefixEndSplits(p[1..], k[1..]);
      assert p == [p[0]] + p[1..] && k == [k[0]] + k[1..];
      assert HasPrefix(k, p) <==> k[0] == p[0] && HasPrefix(k[1..], p[1..]) by {
        assert |p| <= |k| ==> k[..|p|] == [k[0]] + k[1..][..|p| - 1];
      }
      var e := PrefixEnd(p[1..]);
      match e
      case Some(end) => assert ([p[0]] + end)[1..] == end;
      case None =>
    }
  }

  /** The half-open range [p, PrefixEnd(p)) holds exactly the strings with prefix p. */
  lemma PrefixRangeExact(p: Bytes, k: Bytes)
    ensures HasPrefix(k, p) <==> AtMost(p, k) && (PrefixEnd(p).Some? ==> Below(k, PrefixEnd(p).value))
  {
    PrefixEndSplits(p, k);
    if PrefixEnd(p).Some? && AtMost(PrefixEnd(p).value, k) && Below(k, PrefixEnd(p).value) {
      TotalOrder();
    }
  }

  /** The range [PrefixEnd(p), no end) holds exactly the strings above every string with prefix p. */
  lemma PastPrefixExact(p: Bytes, k: Bytes)
    requires PrefixEnd(p).Some?
    ensures AtMost(PrefixEnd(p).value, k) <==> Below(p, k) && !HasPrefix(k, p)
  {
    PrefixEndSplits(p, k);
    PrefixEndSplits(p, p);
    TotalOrder();
  }

  lemma {:induction false} PrefixEndDrop(p: Bytes)
    requires p != [] && p[|p| - 1] == MAX_BYTE
    ensures PrefixEnd(p) == PrefixEnd(p[..|p| - 1])
  {
    if |p| > 1 {
      PrefixEndDrop(p[1..]);
      assert p[1..][..|p| - 2] == p[..|p| - 1][1..];
    }
  }

  lemma {:induction false} PrefixEndBump(p: Bytes)
    requires p != [] && p[|p| - 1] != MAX_BYTE
    ensures PrefixEnd(p) == Some(p[..|p| - 1] + [p[|p| - 1] + 1])
  {
    if |p| > 1 {
      PrefixEndBump(p[1..]);
      assert [p[0]] + p[1..][..|p| - 2] == p[..|p| - 1];
      assert [p[0]] + (p[1..][..|p| - 2] + [p[|p| - 1] + 1]) == p[..|p| - 1] + [p[|p| - 1] + 1];
    } else {
      assert p[..|p| - 1] + [p[0] + 1] == [p[0] + 1];
    }
  }

  /** The library routine: drop trailing 0xFF bytes, then increment the last byte left. */
  method PrefixEndBytes(prefix: Bytes) returns (end: Option<Bytes>)
    ensures end == PrefixEnd(prefix)
    ensures end.None? <==> AllMax(prefix)
  {
    PrefixEndOpen(prefix);
    if |prefix| == 0 {
      return None;
    }
    var rest := prefix;
    while true
      invariant rest != [] && PrefixEnd(rest) == PrefixEnd(prefix)
      decreases |rest|
    {
      var last := rest[|rest| - 1];
      if last != MAX_BYTE {
        PrefixEndBump(rest);
        return Some(rest[..|rest| - 1] + [last + 1]);
      }
      PrefixEndDrop(rest);
      rest := rest[..|rest| - 1];
      if |rest| == 0 {
        return None;
      }
    }
  }
}
