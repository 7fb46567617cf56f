/**
 * Reference definitions for the tag index: the scan of every (post, tag) occurrence in
 * post order and then tag order, the distinct tags in first-occurrence order, and the
 * bucket of posts for each tag. The generator's loops are proved against these.
 */
module TagBuckets {

  /** One tag of one post, as the scan meets it. */
  datatype Occurrence<D> = Occurrence(doc: D, tag: string)

  /** The number of times `t` appears in `tags`. */
  function Count(tags: seq<string>, t: string): (n: nat)
    ensures n <= |tags|
    ensures n == 0 <==> t !in tags
  {
    if tags == [] then 0
    else Count(tags[..|tags| - 1], t) + (if tags[|tags| - 1] == t then 1 else 0)
  }

  /** The occurrences of one post's tags, in the post's own tag order. */
  function Pairs<D>(d: D, tags: seq<string>): (r: seq<Occurrence<D>>)
    ensures |r| == |tags|
  {
    if tags == [] then [] else Pairs(d, tags[..|tags| - 1]) + [Occurrence(d, tags[|tags| - 1])]
  }

  lemma {:induction false} PairsAt<D>(d: D, tags: seq<string>, a: nat)
    requires a < |tags|
    ensures Pairs(d, tags)[a] == Occurrence(d, tags[a])
  {
    var n := |tags| - 1;
    if a < n {
      PairsAt(d, tags[..n], a);
    }
  }

  /** The number of tags over all posts. */
  function TotalTags(tagLists: seq<seq<string>>): nat {
    if tagLists == [] then 0
    else TotalTags(tagLists[..|tagLists| - 1]) + |tagLists[|tagLists| - 1]|
  }

  /** Every occurrence, post by post, each post's tags in order. */
  function Occurrences<D>(docs: seq<D>, tagLists: seq<seq<string>>): (r: seq<Occurrence<D>>)
    requires |docs| == |tagLists|
    ensures |r| == TotalTags(tagLists)
  {
    if docs == [] then []
    else
      var n := |docs| - 1;
      Occurrences(docs[..n], tagLists[..n]) + Pairs(docs[n], tagLists[n])
  }

  /** The distinct tags of a scan, each where it first occurs. */
  function TagOrder<D>(occ: seq<Occurrence<D>>): (r: seq<string>)
    ensures forall i, j | 0 <= i < j < |r| :: r[i] != r[j]
  {
    if occ == [] then []
    else
      var o := TagOrder(occ[..|occ| - 1]);
      var t := occ[|occ| - 1].tag;
      if t in o then o else o + [t]
  }

  /** The posts of a scan that carry `t`, in scan order, once per occurrence. */
  function Bucket<D(==)>(occ: seq<Occurrence<D>>, t: string): (r: seq<D>)
    ensures |r| <= |occ|
  {
    if occ == [] then []
    else
      var last := occ[|occ| - 1];
      Bucket(occ[..|occ| - 1], t) + (if last.tag == t then [last.doc] else [])
  }

  /** The tag order lists exactly the tags that occur in the scan. */
  lemma {:induction false} TagOrderMembers<D>(occ: seq<Occurrence<D>>, t: string)
    ensures t in TagOrder(occ) <==> exists k | 0 <= k < |occ| :: occ[k].tag == t
  {
    if occ != [] {
      var n := |occ| - 1;
      TagOrderMembers(occ[..n], t);
      if exists k | 0 <= k < n :: occ[..n][k].tag == t {
        var k :| 0 <= k < n && occ[..n][k].tag == t;
        assert occ[k].tag == t;
      }
      if exists k | 0 <= k < |occ| :: occ[k].tag == t {
        var k :| 0 <= k < |occ| && occ[k].tag == t;
        if k < n {
          assert occ[..n][k].tag == t;
        }
      }
    }
  }

  /** A post is in the bucket of `t` exactly when the scan meets it with tag `t`. */
  lemma {:induction false} BucketMembers<D>(occ: seq<Occurrence<D>>, t: string, d: D)
    ensures d in Bucket(occ, t) <==> Occurrence(d, t) in occ
  {
    if occ != [] {
      var n := |occ| - 1;
      BucketMembers(occ[..n], t, d);
      assert occ == occ[..n] + [occ[n]];
    }
  }

  lemma {:induction false} BucketOfAbsentTag<D>(occ: seq<Occurrence<D>>, t: string)
    requires forall k | 0 <= k < |occ| :: occ[k].tag != t
    ensures Bucket(occ, t) == []
  {
    if occ != [] {
      BucketOfAbsentTag(occ[..|occ| - 1], t);
    }
  }

  /** The lengths of the buckets of `order`, added up. */
  function BucketSizes<D(==)>(order: seq<string>, occ: seq<Occurrence<D>>): nat {
    if order == [] then 0
    else BucketSizes(order[..|order| - 1], occ) + |Bucket(occ, order[|order| - 1])|
  }

  /** Scan order: the bucket of a longer scan extends the bucket of its first part. */
  lemma {:induction false} BucketAppend<D>(occ1: seq<Occurrence<D>>, occ2: seq<Occurrence<D>>, t: string)
    ensures Bucket(occ1 + occ2, t) == Bucket(occ1, t) + Bucket(occ2, t)
    decreases |occ2|
  {
    if occ2 == [] {
      assert occ1 + occ2 == occ1;
    } else {
      var n := |occ2| - 1;
      assert (occ1 + occ2)[..|occ1 + occ2| - 1] == occ1 + occ2[..n];
      BucketAppend(occ1, occ2[..n], t);
    }
  }

  lemma {:induction false} BucketSizesStep<D>(order: seq<string>, occ: seq<Occurrence<D>>, o: Occurrence<D>)
    ensures BucketSizes(order, occ + [o]) == BucketSizes(order, occ) + Count(order, o.tag)
  {
    if order != [] {
      var n := |order| - 1;
      BucketSizesStep(order[..n], occ, o);
      assert (occ + [o])[..|occ|] == occ;
    }
  }

  lemma {:induction false} CountOfDistinct(order: seq<string>, t: string)
    requires forall i, j | 0 <= i < j < |order| :: order[i] != order[j]
    requires t in order
    ensures Count(order, t) == 1
  {
    var n := |order| - 1;
    if order[n] == t {
      assert forall i | 0 <= i < n :: order[..n][i] != t;
    } else {
      assert t in order[..n] by {
        var i :| 0 <= i < |order| && order[i] == t;
        assert order[..n][i] == t;
      }
      CountOfDistinct(order[..n], t);
    }
  }

  /**
   * Nothing is lost or duplicated across buckets: the bucket lengths of the distinct
   * tags add up to the number of occurrences scanned.
   */
  lemma {:induction false} BucketSizesCoverScan<D>(occ: seq<Occurrence<D>>)
    ensures BucketSizes(TagOrder(occ), occ) == |occ|
  {
    if occ != [] {
      var n := |occ| - 1;
      var init, o := occ[..n], occ[n];
      assert occ == init + [o];
      BucketSizesCoverScan(init);
      var order := TagOrder(init);
      BucketSizesStep(order, init, o);
      if o.tag in order {
        CountOfDistinct(order, o.tag);
      } else {
        assert TagOrder(occ) == order + [o.tag];
        assert (order + [o.tag])[..|order|] == order;
        TagOrderMembers(init, o.tag);
        BucketOfAbsentTag(init, o.tag);
      }
    }
  }

  /** Scanning one more post appends that post's occurrences. */
  lemma OccurrencesStep<D>(docs: seq<D>, tagLists: seq<seq<string>>, k: nat)
    requires |docs| == |tagLists| && k < |docs|
    ensures Occurrences(docs[..k + 1], tagLists[..k + 1])
         == Occurrences(docs[..k], tagLists[..k]) + Pairs(docs[k], tagLists[k])
  {
    assert docs[..k + 1][..k] == docs[..k];
    assert tagLists[..k + 1][..k] == tagLists[..k];
  }

  /** Scanning one more tag of a post appends one occurrence. */
  lemma PairsStep<D>(d: D, tags: seq<string>, a: nat)
    requires a < |tags|
    ensures Pairs(d, tags[..a + 1]) == Pairs(d, tags[..a]) + [Occurrence(d, tags[a])]
  {
    assert tags[..a + 1][..a] == tags[..a];
  }

  /** One post's occurrences hold `(d, t)` exactly when the post is `d` and carries `t`. */
  lemma PairsHold<D>(e: D, tags: seq<string>, d: D, t: string)
    ensures Occurrence(d, t) in Pairs(e, tags) <==> d == e && t in tags
  {
    var P := Pairs(e, tags);
    if d == e && t in tags {
      var a :| 0 <= a < |tags| && tags[a] == t;
      PairsAt(e, tags, a);
    }
    if Occurrence(d, t) in P {
      var a :| 0 <= a < |P| && P[a] == Occurrence(d, t);
      PairsAt(e, tags, a);
    }
  }

  /** `d` is scanned with tag `t` exactly when some post `d` carries `t`. */
  lemma {:induction false} OccurrenceIn<D>(docs: seq<D>, tagLists: seq<seq<string>>, d: D, t: string)
    requires |docs| == |tagLists|
    ensures Occurrence(d, t) in Occurrences(docs, tagLists)
        <==> exists i | 0 <= i < |docs| :: docs[i] == d && t in tagLists[i]
  {
    if docs != [] {
      var n := |docs| - 1;
      var A, P := Occurrences(docs[..n], tagLists[..n]), Pairs(docs[n], tagLists[n]);
      OccurrenceIn(docs[..n], tagLists[..n], d, t);
      PairsHold(docs[n], tagLists[n], d, t);
      if exists i | 0 <= i < n + 1 :: docs[i] == d && t in tagLists[i] {
        var i :| 0 <= i < n + 1 && docs[i] == d && t in tagLists[i];
        if i < n {
          assert docs[..n][i] == d && tagLists[..n][i] == tagLists[i];
        }
      }
    }
  }

  /** A tag is scanned exactly when some post carries it. */
  lemma {:induction false} TagScanned<D>(docs: seq<D>, tagLists: seq<seq<string>>, t: string)
    requires |docs| == |tagLists|
    ensures (exists k | 0 <= k < TotalTags(tagLists) :: Occurrences(docs, tagLists)[k].tag == t)
        <==> exists i | 0 <= i < |tagLists| :: t in tagLists[i]
  {
    var occ := Occurrences(docs, tagLists);
    if exists k | 0 <= k < |occ| :: occ[k].tag == t {
      var k :| 0 <= k < |occ| && occ[k].tag == t;
      OccurrenceIn(docs, tagLists, occ[k].doc, t);
      assert Occurrence(occ[k].doc, t) == occ[k];
    }
    if exists i | 0 <= i < |tagLists| :: t in tagLists[i] {
      var i :| 0 <= i < |tagLists| && t in tagLists[i];
      OccurrenceIn(docs, tagLists, docs[i], t);
      var k :| 0 <= k < |occ| && occ[k] == Occurrence(docs[i], t);
      assert occ[k].tag == t;
    }
  }

  /** The tag order holds exactly the tags that some post carries. */
  lemma TagOrderIsPostTags<D>(docs: seq<D>, tagLists: seq<seq<string>>, t: string)
    requires |docs| == |tagLists|
    ensures t in TagOrder(Occurrences(docs, tagLists)) <==> exists i | 0 <= i < |tagLists| :: t in tagLists[i]
  {
    TagOrderMembers(Occurrences(docs, tagLists), t);
    TagScanned(docs, tagLists, t);
  }

  /**
   * First-occurrence order: when tag `a` is listed before tag `b`, every occurrence of `b`
   * comes after some occurrence of `a`.
   */
  lemma {:induction false} TagOrderIsFirstOccurrenceOrder<D>(occ: seq<Occurrence<D>>, i: nat, j: nat, k: nat)
    requires i < j < |TagOrder(occ)|
    requires k < |occ| && occ[k].tag == TagOrder(occ)[j]
    ensures exists m | 0 <= m < k :: occ[m].tag == TagOrder(occ)[i]
  {
    var n := |occ| - 1;
    var init, o := occ[..n], occ[n];
    var order0 := TagOrder(init);
    assert forall m | 0 <= m < n :: occ[m] == init[m];
    TagOrderMembers(init, o.tag);
    if k < n {
      TagOrderMembers(init, init[k].tag);
      assert init[k].tag in order0;
      assert j < |order0|;
      assert TagOrder(occ)[i] == order0[i] && TagOrder(occ)[j] == order0[j];
      TagOrderIsFirstOccurrenceOrder(init, i, j, k);
      var m :| 0 <= m < k && init[m].tag == order0[i];
      assert occ[m].tag == TagOrder(occ)[i];
    } else if o.tag in order0 {
      var k' :| 0 <= k' < n && init[k'].tag == o.tag;
      TagOrderIsFirstOccurrenceOrder(init, i, j, k');
      var m :| 0 <= m < k' && init[m].tag == order0[i];
      assert occ[m].tag == TagOrder(occ)[i];
    } else {
      assert TagOrder(occ) == order0 + [o.tag];
      assert i < |order0| && order0[i] in order0;
      TagOrderMembers(init, order0[i]);
      var m :| 0 <= m < n && init[m].tag == order0[i];
      assert occ[m].tag == TagOrder(occ)[i];
    }
  }

  lemma {:induction false} PairsBucket<D>(d: D, tags: seq<string>, t: string, e: D)
    ensures multiset(Bucket(Pairs(d, tags), t))[e] == if e == d then Count(tags, t) else 0
  {
    if tags != [] {
      var n := |tags| - 1;
      var P := Pairs(d, tags[..n]);
      var o := Occurrence(d, tags[n]);
      assert Bucket(Pairs(d, tags), t) == Bucket(P, t) + (if tags[n] == t then [d] else []) by {
        assert Pairs(d, tags) == P + [o];
        assert (P + [o])[..|P|] == P;
      }
      assert multiset(Bucket(P, t))[e] == if e == d then Count(tags[..n], t) else 0 by {
        PairsBucket(d, tags[..n], t, e);
      }
    }
  }

  /** How often `e` is in a bucket adds up over the two parts of a scan. */
  lemma BucketCountAppend<D>(A: seq<Occurrence<D>>, P: seq<Occurrence<D>>, t: string, e: D)
    ensures multiset(Bucket(A + P, t))[e] == multiset(Bucket(A, t))[e] + multiset(Bucket(P, t))[e]
  {
    BucketAppend(A, P, t);
  }

  /** A post that is not among the scanned posts is in no bucket. */
  lemma AbsentPostCount<D>(docs: seq<D>, tagLists: seq<seq<string>>, t: string, d: D)
    requires |docs| == |tagLists| && d !in docs
    ensures multiset(Bucket(Occurrences(docs, tagLists), t))[d] == 0
  {
    OccurrenceIn(docs, tagLists, d, t);
    BucketMembers(Occurrences(docs, tagLists), t, d);
  }

  /** The posts are distinct objects, as the documents of a collection are. */
  predicate Distinct<D(==)>(docs: seq<D>) {
    forall x, y | 0 <= x < y < |docs| :: docs[x] != docs[y]
  }

  /** Of distinct posts, the last is none of the others, and the others stay distinct. */
  lemma DistinctLast<D>(docs: seq<D>)
    requires docs != [] && Distinct(docs)
    ensures Distinct(docs[..|docs| - 1]) && docs[|docs| - 1] !in docs[..|docs| - 1]
  {
    var n := |docs| - 1;
    assert forall x | 0 <= x < n :: docs[..n][x] == docs[x];
  }

  /**
   * No deduplication: a post appears in the bucket of `t` once for each time `t`
   * appears among its tags (posts being distinct objects).
   */
  lemma {:induction false} BucketMultiplicity<D>(docs: seq<D>, tagLists: seq<seq<string>>, t: string, i: nat)
    requires |docs| == |tagLists| && i < |docs| && Distinct(docs)
    ensures multiset(Bucket(Occurrences(docs, tagLists), t))[docs[i]] == Count(tagLists[i], t)
  {
    var n := |docs| - 1;
    var A, P := Occurrences(docs[..n], tagLists[..n]), Pairs(docs[n], tagLists[n]);
    var e := docs[i];
    assert multiset(Bucket(Occurrences(docs, tagLists), t))[e]
        == multiset(Bucket(A, t))[e] + multiset(Bucket(P, t))[e] by {
      assert Occurrences(docs, tagLists) == A + P;
      BucketCountAppend(A, P, t, e);
    }
    if i < n {
      assert multiset(Bucket(P, t))[e] == 0 by {
        DistinctLast(docs);
        assert docs[..n][i] == e;
        PairsBucket(docs[n], tagLists[n], t, e);
      }
      assert multiset(Bucket(A, t))[e] == Count(tagLists[i], t) by {
        DistinctLast(docs);
        assert docs[..n][i] == e && tagLists[..n][i] == tagLists[i];
        BucketMultiplicity(docs[..n], tagLists[..n], t, i);
      }
    } else {
      assert i == n;
      assert multiset(Bucket(P, t))[e] == Count(tagLists[i], t) by {
        PairsBucket(docs[n], tagLists[n], t, e);
      }
      assert multiset(Bucket(A, t))[e] == 0 by {
        DistinctLast(docs);
        AbsentPostCount(docs[..n], tagLists[..n], t, e);
      }
    }
  }

  /** A post without tags is in no bucket. */
  lemma UntaggedPostInNoBucket<D>(docs: seq<D>, tagLists: seq<seq<string>>, t: string, i: nat)
    requires |docs| == |tagLists| && i < |docs| && tagLists[i] == []
    requires Distinct(docs)
    ensures docs[i] !in Bucket(Occurrences(docs, tagLists), t)
  {
    BucketMultiplicity(docs, tagLists, t, i);
  }

  /** The bucket lengths of all distinct tags add up to the number of tags on all posts. */
  lemma BucketsCoverEveryTag<D>(docs: seq<D>, tagLists: seq<seq<string>>)
    requires |docs| == |tagLists|
    ensures BucketSizes(TagOrder(Occurrences(docs, tagLists)), Occurrences(docs, tagLists)) == TotalTags(tagLists)
  {
    BucketSizesCoverScan(Occurrences(docs, tagLists));
  }
}
