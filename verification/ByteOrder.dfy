/** Byte strings and their order: the model of `Bytes`, `Buffer` and `operator<`. */
module ByteOrder {

  newtype byte = x: int | 0 <= x < 256

  type Bytes = seq<byte>

  /** Lexicographic order on unsigned bytes; a proper prefix is lower. */
  predicate Less(l: Bytes, r: Bytes) {
    r != [] && (l == [] || l[0] < r[0] || (l[0] == r[0] && Less(l[1..], r[1..])))
  }

  predicate LessEq(l: Bytes, r: Bytes) {
    !Less(r, l)
  }

  lemma {:induction false} LessIrreflexive(k: Bytes)
    ensures !Less(k, k)
  {
    if k != [] {
      LessIrreflexive(k[1..]);
    }
  }

  lemma {:induction false} LessTransitive(a: Bytes, b: Bytes, c: Bytes)
    requires Less(a, b) && Less(b, c)
    ensures Less(a, c)
  {
    if a != [] && a[0] == b[0] && b[0] == c[0] {
      LessTransitive(a[1..], b[1..], c[1..]);
    }
  }

  lemma {:induction false} LessTotal(a: Bytes, b: Bytes)
    ensures Less(a, b) || a == b || Less(b, a)
  {
    if a != [] && b != [] && a[0] == b[0] {
      LessTotal(a[1..], b[1..]);
      assert a == [a[0]] + a[1..] && b == [b[0]] + b[1..];
    }
  }

  lemma LessByFirst(l: Bytes, r: Bytes)
    requires l != [] && r != [] && l[0] < r[0]
    ensures Less(l, r) && !Less(r, l)
  {
  }

  lemma LessBySecond(l: Bytes, r: Bytes)
    requires 2 <= |l| && 2 <= |r| && l[0] == r[0] && l[1] < r[1]
    ensures Less(l, r) && !Less(r, l)
  {
    assert l[1..][0] == l[1] && r[1..][0] == r[1];
  }

  lemma LessEqLess(a: Bytes, b: Bytes, c: Bytes)
    requires LessEq(a, b) && Less(b, c)
    ensures Less(a, c)
  {
  }

  lemma LessLessEq(a: Bytes, b: Bytes, c: Bytes)
    requires Less(a, b) && LessEq(b, c)
    ensures Less(a, c)
  {
    LessTotal(b, c);
    if b != c {
      LessTransitive(a, b, c);
    }
  }

  lemma LessAsymmetric(a: Bytes, b: Bytes)
    requires Less(a, b)
    ensures !Less(b, a) && a != b
  {
  }

  ghost predicate Sorted(keys: seq<Bytes>) {
    forall i, j :: 0 <= i < j < |keys| ==> Less(keys[i], keys[j])
  }

  /** `std::lower_bound`: the first position whose key is not less than the sought one. */
  function LowerBound(keys: seq<Bytes>, key: Bytes): (p: nat)
    ensures p <= |keys|
    ensures forall i :: 0 <= i < p ==> Less(keys[i], key)
    ensures p < |keys| ==> !Less(keys[p], key)
  {
    if keys == [] || !Less(keys[0], key) then 0 else 1 + LowerBound(keys[1..], key)
  }

  /** A position with the lower-bound property is the lower bound. */
  lemma LowerBoundUnique(keys: seq<Bytes>, key: Bytes, p: nat)
    requires p <= |keys|
    requires forall i :: 0 <= i < p ==> Less(keys[i], key)
    requires p < |keys| ==> !Less(keys[p], key)
    ensures LowerBound(keys, key) == p
  {
  }

  /** In sorted keys the lower bound separates lower keys from higher ones, and finds the key if it is there. */
  lemma LowerBoundSorted(keys: seq<Bytes>, key: Bytes)
    requires Sorted(keys)
    ensures var p := LowerBound(keys, key);
            && (key in keys <==> p < |keys| && keys[p] == key)
            && (key !in keys ==> forall i :: p <= i < |keys| ==> Less(key, keys[i]))
  {
    var p := LowerBound(keys, key);
    forall i | 0 <= i < |keys| && i != p ensures keys[i] != key && (p < i ==> Less(key, keys[i])) {
      if i < p {
        LessAsymmetric(keys[i], key);
      } else {
        LessEqLess(key, keys[p], keys[i]);
        LessAsymmetric(key, keys[i]);
      }
    }
    if p < |keys| {
      LessTotal(keys[p], key);
    }
  }
}
