/** The entries of a node's `mChildren` vector, generic in what a child pointer points to. */
module Slots {
  import opened ByteOrder

  datatype Option<+T> = None | Some(value: T)

  /** A leaf entry carries a value, an internal entry a pointer of eight bytes. */
  datatype Payload<+N> = Data(value: Bytes) | Child(node: N) {
    function Size(): nat {
      match this
      case Data(v) => |v|
      case Child(_) => 8
    }
  }

  datatype Slot<+N> = Slot(key: Bytes, payload: Payload<N>) {
    function Size(): nat {
      |key| + payload.Size()
    }
  }

  function Keys<N>(slots: seq<Slot<N>>): (keys: seq<Bytes>)
    ensures |keys| == |slots|
    ensures forall i :: 0 <= i < |slots| ==> keys[i] == slots[i].key
  {
    seq(|slots|, i requires 0 <= i < |slots| => slots[i].key)
  }

  ghost function Payloads<N>(slots: seq<Slot<N>>): (payloads: seq<Payload<N>>)
    ensures |payloads| == |slots|
    ensures forall i :: 0 <= i < |slots| ==> payloads[i] == slots[i].payload
  {
    seq(|slots|, i requires 0 <= i < |slots| => slots[i].payload)
  }

  /** The bytes that a walk over all entries counts. */
  function Total<N>(slots: seq<Slot<N>>): nat {
    if slots == [] then 0 else slots[0].Size() + Total(slots[1..])
  }

  lemma {:induction false} TotalConcat<N>(a: seq<Slot<N>>, b: seq<Slot<N>>)
    ensures Total(a + b) == Total(a) + Total(b)
  {
    if a == [] {
      assert a + b == b;
    } else {
      assert (a + b)[1..] == a[1..] + b;
      TotalConcat(a[1..], b);
    }
  }

  lemma TotalOne<N>(e: Slot<N>)
    ensures Total([e]) == e.Size()
  {
    assert [e][1..] == [];
  }

  lemma TotalThree<N>(a: seq<Slot<N>>, b: seq<Slot<N>>, c: seq<Slot<N>>)
    ensures Total(a + b + c) == Total(a) + Total(b) + Total(c)
  {
    TotalConcat(a + b, c);
    TotalConcat(a, b);
  }

  lemma TotalCut<N>(s: seq<Slot<N>>, c: nat)
    requires c <= |s|
    ensures Total(s[..c]) + Total(s[c..]) == Total(s)
  {
    hide Total;
    TotalConcat(s[..c], s[c..]);
    assert s[..c] + s[c..] == s;
  }

  /** `vector::emplace`: the new entry ends up at position p. */
  function Spliced<T>(s: seq<T>, p: nat, e: T): (r: seq<T>)
    requires p <= |s|
    ensures |r| == |s| + 1 && r[p] == e
    ensures forall i :: 0 <= i < p ==> r[i] == s[i]
    ensures forall i :: p < i < |r| ==> r[i] == s[i - 1]
  {
    s[..p] + [e] + s[p..]
  }

  lemma TotalSpliced<N>(s: seq<Slot<N>>, p: nat, e: Slot<N>)
    requires p <= |s|
    ensures Total(Spliced(s, p, e)) == Total(s) + e.Size()
  {
    TotalOne(e);
    hide Total;
    TotalThree(s[..p], [e], s[p..]);
    TotalCut(s, p);
  }

  lemma TotalReplace<N>(s: seq<Slot<N>>, i: nat, mid: seq<Slot<N>>)
    requires i < |s|
    ensures Total(s[..i] + mid + s[i + 1..]) == Total(s) - s[i].Size() + Total(mid)
  {
    TotalOne(s[i]);
    hide Total;
    assert s == s[..i] + [s[i]] + s[i + 1..];
    TotalThree(s[..i], [s[i]], s[i + 1..]);
    TotalThree(s[..i], mid, s[i + 1..]);
  }

  lemma TotalUpdate<N>(s: seq<Slot<N>>, i: nat, e: Slot<N>)
    requires i < |s|
    ensures Total(s[i := e]) == Total(s) - s[i].Size() + e.Size()
  {
    TotalOne(e);
    hide Total;
    assert s[i := e] == s[..i] + [e] + s[i + 1..];
    TotalReplace(s, i, [e]);
  }

  ghost predicate AllData<N>(slots: seq<Slot<N>>) {
    forall i :: 0 <= i < |slots| ==> slots[i].payload.Data?
  }

  lemma SplicedData<N>(slots: seq<Slot<N>>, p: nat, e: Slot<N>)
    requires p <= |slots| && AllData(slots) && e.payload.Data?
    ensures AllData(Spliced(slots, p, e))
  {
  }

  lemma AllDataParts<N>(a: seq<Slot<N>>, b: seq<Slot<N>>)
    requires AllData(a + b)
    ensures AllData(a) && AllData(b)
  {
    forall i | 0 <= i < |a| ensures a[i].payload.Data? {
      assert (a + b)[i] == a[i];
    }
    forall i | 0 <= i < |b| ensures b[i].payload.Data? {
      assert (a + b)[|a| + i] == b[i];
    }
  }

  /** Entries no larger than a bound add up to no more than the bound times their number. */
  lemma {:induction false} TotalBound<N>(slots: seq<Slot<N>>, bound: nat)
    requires forall i :: 0 <= i < |slots| ==> slots[i].Size() <= bound
    ensures Total(slots) <= |slots| * bound
  {
    if slots != [] {
      TotalBound(slots[1..], bound);
    }
  }

  lemma {:induction false} SortedSpliced(keys: seq<Bytes>, key: Bytes)
    requires Sorted(keys) && key !in keys
    ensures Sorted(Spliced(keys, LowerBound(keys, key), key))
  {
    LowerBoundSorted(keys, key);
  }
}
