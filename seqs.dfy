/** Sequence facts the walks need: flattening a list of blocks, and regrouping appends. */
module Seqs {

  /** The blocks one after another. */
  function Concat<T>(bs: seq<seq<T>>): seq<T>
  {
    if |bs| == 0 then [] else bs[0] + Concat(bs[1..])
  }

  /** A sequence that starts with `p + [x]` starts with `p`, and what follows `p` is `x` and the rest. */
  lemma PrefixStep<T>(s: seq<T>, p: seq<T>, x: T)
    requires |p| < |s| && s[..|p| + 1] == p + [x]
    ensures s[..|p|] == p && s[|p|..] == [x] + s[|p| + 1..]
  {
    assert s[..|p|] == s[..|p| + 1][..|p|];
    assert s[|p|] == s[..|p| + 1][|p|];
  }

  /** Extending `p` by the first element of `t` and then by the rest is extending it by `t`. */
  lemma AppendFirst<T>(p: seq<T>, t: seq<T>)
    requires |t| > 0
    ensures (p + [t[0]]) + t[1..] == p + t
  {
    assert t == [t[0]] + t[1..];
  }

  lemma AppendAssoc<T>(a: seq<T>, b: seq<T>, c: seq<T>)
    ensures (a + b) + c == a + (b + c)
  {
  }

  lemma {:induction false} ConcatAppend<T>(a: seq<seq<T>>, b: seq<seq<T>>)
    ensures Concat(a + b) == Concat(a) + Concat(b)
  {
    if |a| > 0 {
      ConcatAppend(a[1..], b);
      assert (a + b)[1..] == a[1..] + b;
      AppendAssoc(a[0], Concat(a[1..]), Concat(b));
    } else {
      assert a + b == b;
    }
  }

  lemma {:induction false} ConcatSnoc<T>(bs: seq<seq<T>>, k: nat)
    requires k < |bs|
    ensures Concat(bs[..k + 1]) == Concat(bs[..k]) + bs[k]
  {
    if k > 0 {
      ConcatSnoc(bs[1..], k - 1);
      assert bs[..k + 1][1..] == bs[1..][..k];
      assert bs[..k][1..] == bs[1..][..k - 1];
      AppendAssoc(bs[0], Concat(bs[1..][..k - 1]), bs[k]);
    } else {
      assert bs[..1][1..] == [];
    }
  }

  /** An element of the flattened blocks sits in one of the blocks, and each block's elements are there. */
  lemma {:induction false} ConcatMember<T>(bs: seq<seq<T>>, x: T)
    ensures x in Concat(bs) <==> exists k :: 0 <= k < |bs| && x in bs[k]
  {
    if |bs| > 0 {
      ConcatMember(bs[1..], x);
      if x in Concat(bs[1..]) {
        var k :| 0 <= k < |bs[1..]| && x in bs[1..][k];
        assert x in bs[k + 1];
      }
      if exists k :: 0 <= k < |bs| && x in bs[k] {
        var k :| 0 <= k < |bs| && x in bs[k];
        if k > 0 { assert x in bs[1..][k - 1]; }
      }
    }
  }

  /** No two elements of `s` share a key. */
  ghost predicate DistinctBy<T, K>(s: seq<T>, key: T -> K)
  {
    forall i, j :: 0 <= i < j < |s| ==> key(s[i]) != key(s[j])
  }

  lemma DistinctAppend<T, K>(a: seq<T>, b: seq<T>, key: T -> K)
    requires DistinctBy(a, key) && DistinctBy(b, key)
    requires forall x, y :: x in a && y in b ==> key(x) != key(y)
    ensures DistinctBy(a + b, key)
  {
    var s := a + b;
    forall i, j | 0 <= i < j < |s| ensures key(s[i]) != key(s[j]) {
      if j < |a| {
        assert s[i] == a[i] && s[j] == a[j];
      } else if i >= |a| {
        assert s[i] == b[i - |a|] && s[j] == b[j - |a|];
      } else {
        assert s[i] in a && s[j] in b;
      }
    }
  }

  /** No element of one block shares a key with an element of a later block. */
  ghost predicate ApartBy<T, K>(bs: seq<seq<T>>, key: T -> K)
  {
    forall k, l, x, y :: 0 <= k < l < |bs| && x in bs[k] && y in bs[l] ==> key(x) != key(y)
  }

  /** Blocks each without a repeated key, and whose keys differ from block to block, flatten without one. */
  lemma {:induction false} ConcatDistinct<T, K>(bs: seq<seq<T>>, key: T -> K)
    requires forall k :: 0 <= k < |bs| ==> DistinctBy(bs[k], key)
    requires ApartBy(bs, key)
    ensures DistinctBy(Concat(bs), key)
  {
    if |bs| > 0 {
      var rest := bs[1..];
      forall k | 0 <= k < |rest| ensures DistinctBy(rest[k], key) {
        assert rest[k] == bs[k + 1];
      }
      forall k, l, x, y | 0 <= k < l < |rest| && x in rest[k] && y in rest[l] ensures key(x) != key(y) {
        assert rest[k] == bs[k + 1] && rest[l] == bs[l + 1];
      }
      ConcatDistinct(rest, key);
      forall x, y | x in bs[0] && y in Concat(rest) ensures key(x) != key(y) {
        ConcatMember(rest, y);
        var l :| 0 <= l < |rest| && y in rest[l];
        assert y in bs[l + 1];
      }
      DistinctAppend(bs[0], Concat(rest), key);
    }
  }

  /** Where block `k` starts once the blocks are flattened. */
  function Offset<T>(bs: seq<seq<T>>, k: nat): nat
    requires k <= |bs|
  {
    |Concat(bs[..k])|
  }

  /** Block `k` occupies the flattened sequence from its offset to the next block's. */
  lemma ConcatAt<T>(bs: seq<seq<T>>, k: nat)
    requires k < |bs|
    ensures Offset(bs, k) + |bs[k]| == Offset(bs, k + 1) <= |Concat(bs)|
    ensures Concat(bs)[Offset(bs, k)..Offset(bs, k + 1)] == bs[k]
  {
    ConcatSnoc(bs, k);
    assert bs == bs[..k + 1] + bs[k + 1..];
    ConcatAppend(bs[..k + 1], bs[k + 1..]);
  }

  lemma OffsetBounds<T>(bs: seq<seq<T>>)
    ensures Offset(bs, 0) == 0 && Offset(bs, |bs|) == |Concat(bs)|
  {
    assert bs[..|bs|] == bs;
  }

  lemma {:induction false} OffsetMonotone<T>(bs: seq<seq<T>>, k: nat, l: nat)
    requires k <= l <= |bs|
    ensures Offset(bs, k) <= Offset(bs, l)
    decreases l - k
  {
    if k < l {
      ConcatAt(bs, k);
      OffsetMonotone(bs, k + 1, l);
    }
  }

  /** Every position of the flattened sequence lies in exactly one block. */
  lemma ConcatIndex<T>(bs: seq<seq<T>>, i: nat) returns (k: nat)
    requires i < |Concat(bs)|
    ensures k < |bs| && Offset(bs, k) <= i < Offset(bs, k + 1) == Offset(bs, k) + |bs[k]|
    ensures Concat(bs)[i] == bs[k][i - Offset(bs, k)]
  {
    OffsetBounds(bs);
    k := 0;
    while Offset(bs, k + 1) <= i
      invariant k < |bs| && Offset(bs, k) <= i
      decreases |bs| - k
    {
      if k + 1 == |bs| {
        assert false;
      }
      k := k + 1;
    }
    ConcatAt(bs, k);
    assert Concat(bs)[i] == Concat(bs)[Offset(bs, k)..Offset(bs, k + 1)][i - Offset(bs, k)];
  }
}
