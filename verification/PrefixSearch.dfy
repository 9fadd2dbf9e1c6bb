/** The binary search whose comparator skips the bytes that the bounds seen so far share with the key. */
module PrefixSearch {
  import opened ByteOrder

  function Min(a: nat, b: nat): nat {
    if a < b then a else b
  }

  /** `KeyComparator::State` */
  class State {
    var hiPrefixSize: nat
    var loPrefixSize: nat
    var equal: bool

    constructor ()
      ensures hiPrefixSize == 0 && loPrefixSize == 0 && !equal
    {
      hiPrefixSize, loPrefixSize, equal := 0, 0, false;
    }
  }

  /** The number of leading bytes two strings share. */
  function CommonPrefix(l: Bytes, r: Bytes): (n: nat)
    ensures n <= Min(|l|, |r|) && l[..n] == r[..n]
    ensures n < Min(|l|, |r|) ==> l[n] != r[n]
  {
    if l == [] || r == [] || l[0] != r[0] then 0
    else
      var n := CommonPrefix(l[1..], r[1..]);
      assert l[..n + 1] == [l[0]] + l[1..][..n] && r[..n + 1] == [r[0]] + r[1..][..n];
      n + 1
  }

  /** The first difference decides the order. */
  lemma {:induction false} LessAfterPrefix(l: Bytes, r: Bytes, n: nat)
    requires n <= Min(|l|, |r|) && l[..n] == r[..n]
    requires n < Min(|l|, |r|) ==> l[n] != r[n]
    ensures Less(l, r) <==> if n == Min(|l|, |r|) then |l| < |r| else l[n] < r[n]
    ensures CommonPrefix(l, r) == n
  {
    if n > 0 {
      assert l[0] == l[..n][0] == r[..n][0] == r[0];
      assert l[1..][..n - 1] == l[..n][1..] == r[..n][1..] == r[1..][..n - 1];
      LessAfterPrefix(l[1..], r[1..], n - 1);
    }
  }

  /**
   * `KeyComparator::compareLower`: only the bytes past the known common prefix are compared, as many pairs
   * as it takes to find the first difference.
   */
  method CompareLower(l: Bytes, r: Bytes, st: State) returns (less: bool, ghost compared: nat)
    requires var skip := Min(st.loPrefixSize, st.hiPrefixSize);
             skip < Min(|l|, |r|) && l[..skip] == r[..skip]
    modifies st
    ensures less <==> Less(l, r)
    ensures var n, skipped := CommonPrefix(l, r), Min(old(st.loPrefixSize), old(st.hiPrefixSize));
            compared == n - skipped + if n < Min(|l|, |r|) then 1 else 0
    ensures var n := CommonPrefix(l, r);
            if n == Min(|l|, |r|) then
              && st.loPrefixSize == old(st.loPrefixSize) && st.hiPrefixSize == old(st.hiPrefixSize)
              && (st.equal <==> old(st.equal) || l == r)
            else
              && st.equal == old(st.equal)
              && (if less then st.loPrefixSize == n && st.hiPrefixSize == old(st.hiPrefixSize)
                  else st.hiPrefixSize == n && st.loPrefixSize == old(st.loPrefixSize))
  {
    var cmpSize := Min(|l|, |r|);
    var at := Min(st.loPrefixSize, st.hiPrefixSize);
    compared := 0;
    while at < cmpSize && l[at] == r[at]
      invariant at <= cmpSize && l[..at] == r[..at]
      invariant at == Min(st.loPrefixSize, st.hiPrefixSize) + compared
    {
      assert l[..at + 1] == l[..at] + [l[at]] && r[..at + 1] == r[..at] + [r[at]];
      at, compared := at + 1, compared + 1;
    }
    if at < cmpSize {
      compared := compared + 1;
    }
    LessAfterPrefix(l, r, at);
    if at == cmpSize {
      assert |l| == |r| ==> l == l[..at] == r[..at] == r;
      if |l| == |r| {
        st.equal := true;
      }
      return |l| < |r|, compared;
    } else if l[at] < r[at] {
      st.loPrefixSize := at;
      return true, compared;
    } else {
      st.hiPrefixSize := at;
      return false, compared;
    }
  }

  /** A bound agrees with the key on n bytes, and both go on. */
  ghost predicate Agrees(bound: Bytes, key: Bytes, n: nat) {
    n < |bound| && n < |key| && bound[..n] == key[..n]
  }

  /** What lies between two strings that agree with the key on n bytes agrees with it too, and goes on. */
  lemma {:induction false} SqueezedAgrees(lo: Bytes, e: Bytes, hi: Bytes, key: Bytes, n: nat)
    requires Less(lo, e) && Less(e, hi) && Agrees(lo, key, n) && Agrees(hi, key, n)
    ensures Agrees(e, key, n)
  {
    if n > 0 {
      assert lo[0] == lo[..n][0] == key[..n][0] == hi[..n][0] == hi[0];
      assert e != [] && e[0] == key[0];
      assert lo[1..][..n - 1] == lo[..n][1..] == key[..n][1..] == key[1..][..n - 1] == hi[..n][1..] == hi[1..][..n - 1];
      SqueezedAgrees(lo[1..], e[1..], hi[1..], key[1..], n - 1);
      assert e[..n] == [e[0]] + e[1..][..n - 1] && key[..n] == [key[0]] + key[1..][..n - 1];
    }
  }

  lemma PrefixAgrees(bound: Bytes, key: Bytes)
    ensures var n := CommonPrefix(bound, key); n < Min(|bound|, |key|) ==> Agrees(bound, key, n)
    ensures CommonPrefix(bound, key) == Min(|bound|, |key|) || bound != key
  {
  }

  lemma AgreesOnFewer(bound: Bytes, key: Bytes, n: nat, m: nat)
    requires Agrees(bound, key, n) && m <= n
    ensures Agrees(bound, key, m)
  {
  }

  /**
   * `lowerBound`: the search that skips shared prefixes ends where the plain search does, and its
   * flag says whether the key is there. At every probe the comparator's assertion holds.
   */
  method SkippingLowerBound(keys: seq<Bytes>, key: Bytes) returns (pos: nat, found: bool)
    requires keys != [] && key != []
    requires Sorted(keys) && forall i :: 0 <= i < |keys| ==> keys[i] != []
    ensures pos == LowerBound(keys, key)
    ensures found <==> key in keys
  {
    hide LowerBound, Less, Agrees, CommonPrefix, Sorted, Between;
    var st := new State();
    var first, count := 0, |keys|;
    ghost var lo, hi := 0, 0;
    NothingKnown(keys, key);
    while count > 0
      invariant 0 <= first && 0 <= count && first + count <= |keys|
      invariant Between(keys, key, first, first + count)
      invariant st.loPrefixSize > 0 ==> lo < first && Agrees(keys[lo], key, st.loPrefixSize)
      invariant st.hiPrefixSize > 0 ==> first + count <= hi < |keys| && Agrees(keys[hi], key, st.hiPrefixSize)
      invariant st.equal <==> first + count < |keys| && keys[first + count] == key
    {
      var half := count / 2;
      var mid := first + half;
      ProbeAgrees(keys, key, st, mid, lo, hi);
      PrefixAgrees(keys[mid], key);
      Narrowed(keys, key, first, mid, first + count);
      var less, _ := CompareLower(keys[mid], key, st);
      if less {
        lo := if CommonPrefix(keys[mid], key) < Min(|keys[mid]|, |key|) then mid else lo;
        first, count := mid + 1, count - half - 1;
      } else {
        hi := if CommonPrefix(keys[mid], key) < Min(|keys[mid]|, |key|) then mid else hi;
        count := half;
      }
    }
    BetweenIsLowerBound(keys, key, first);
    LowerBoundSorted(keys, key);
    return first, st.equal;
  }

  /** All keys before `first` are less than the key, and none from `end` on is. */
  ghost predicate Between(keys: seq<Bytes>, key: Bytes, first: nat, end: nat) {
    && first <= end <= |keys|
    && (forall i :: 0 <= i < first ==> Less(keys[i], key))
    && (forall i :: end <= i < |keys| ==> !Less(keys[i], key))
  }

  lemma NothingKnown(keys: seq<Bytes>, key: Bytes)
    ensures Between(keys, key, 0, |keys|)
  {
  }

  lemma BetweenIsLowerBound(keys: seq<Bytes>, key: Bytes, first: nat)
    requires Between(keys, key, first, first)
    ensures first == LowerBound(keys, key)
  {
    LowerBoundUnique(keys, key, first);
  }

  /** A probe narrows the range from one side, and the key that this leaves behind is not the sought one. */
  lemma Narrowed(keys: seq<Bytes>, key: Bytes, first: nat, mid: nat, end: nat)
    requires Sorted(keys) && Between(keys, key, first, end) && first <= mid < end
    ensures if Less(keys[mid], key) then Between(keys, key, mid + 1, end) && keys[mid] != key
            else Between(keys, key, first, mid) && (end < |keys| ==> keys[end] != key)
  {
    if Less(keys[mid], key) {
      StaysBelow(keys, key, mid);
      LessIrreflexive(key);
    } else {
      StaysAbove(keys, key, mid);
      if end < |keys| {
        LessEqLess(key, keys[mid], keys[end]);
        LessIrreflexive(key);
      }
    }
  }

  /** The bytes the comparator is about to skip at `mid` really are shared, and both keys go on. */
  lemma ProbeAgrees(keys: seq<Bytes>, key: Bytes, st: State, mid: nat, lo: nat, hi: nat)
    requires Sorted(keys) && mid < |keys| && key != [] && keys[mid] != []
    requires st.loPrefixSize > 0 ==> lo < mid && Agrees(keys[lo], key, st.loPrefixSize)
    requires st.hiPrefixSize > 0 ==> mid < hi < |keys| && Agrees(keys[hi], key, st.hiPrefixSize)
    ensures Agrees(keys[mid], key, Min(st.loPrefixSize, st.hiPrefixSize))
  {
    var skip := Min(st.loPrefixSize, st.hiPrefixSize);
    if skip > 0 {
      AgreesOnFewer(keys[lo], key, st.loPrefixSize, skip);
      AgreesOnFewer(keys[hi], key, st.hiPrefixSize, skip);
      SqueezedAgrees(keys[lo], keys[mid], keys[hi], key, skip);
    }
  }

  lemma StaysBelow(keys: seq<Bytes>, key: Bytes, mid: nat)
    requires Sorted(keys) && mid < |keys| && Less(keys[mid], key)
    ensures forall i :: 0 <= i <= mid ==> Less(keys[i], key)
  {
    forall i | 0 <= i < mid ensures Less(keys[i], key) {
      LessTransitive(keys[i], keys[mid], key);
    }
  }

  lemma StaysAbove(keys: seq<Bytes>, key: Bytes, mid: nat)
    requires Sorted(keys) && mid < |keys| && !Less(keys[mid], key)
    ensures forall i :: mid <= i < |keys| ==> !Less(keys[i], key)
  {
    forall i | mid < i < |keys| ensures !Less(keys[i], key) {
      LessEqLess(key, keys[mid], keys[i]);
      LessAsymmetric(key, keys[i]);
    }
  }
}
