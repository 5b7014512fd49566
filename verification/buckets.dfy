/** `groupsByCampaign` (src/database.mjs:68-79): a plain object whose keys are
    normalised campaign names, each holding a plain object whose keys are
    category keys, each holding the groups of that bucket in input order;
    and the order in which the nested `for...in` loops visit the buckets. */
module Buckets {
  import opened Base
  import opened Js
  import opened Entities
  import ArrayOps

  type Inner = Dict<seq<Group>>

  type Grouped = Dict<Inner>

  /** `groupsByCampaign[ck][kk]`, or the empty list where the code would find nothing. */
  function Lookup(b: Grouped, ck: string, kk: string): seq<Group> {
    if ck in b.entries && kk in b.entries[ck].entries then b.entries[ck].entries[kk] else []
  }

  /** Both levels are well-formed objects, and every key present holds something. */
  ghost predicate WellFormed(b: Grouped) {
    && b.Valid()
    && (forall ck :: ck in b.entries ==> b.entries[ck].Valid())
    && (forall ck, kk :: ck in b.entries && kk in b.entries[ck].entries ==> b.entries[ck].entries[kk] != [])
  }

  /** Whether `g` belongs to the bucket `(ck, kk)`. */
  function InBucket(ck: string, kk: string): Group -> bool {
    g => CampaignKey(g) == ck && CategoryKey(g) == kk
  }

  /** The reference definition of a bucket: the groups that belong to it, in input order. */
  function Matching(gs: seq<Group>, ck: string, kk: string): seq<Group> {
    ArrayOps.Filter(gs, InBucket(ck, kk))
  }

  /** One iteration of the bucketing loop: create the campaign object and the
      category list on first use, then push the group. */
  function AddGroup(b: Grouped, g: Group): (r: Grouped)
    ensures WellFormed(b) ==> WellFormed(r)
    ensures forall ck, kk :: Lookup(r, ck, kk) == Lookup(b, ck, kk) + (if InBucket(ck, kk)(g) then [g] else [])
  {
    var ck, kk := CampaignKey(g), CategoryKey(g);
    var inner := if ck in b.entries then b.entries[ck] else EmptyDict();
    var bucket := if kk in inner.entries then inner.entries[kk] else [];
    var r := b.Put(ck, inner.Put(kk, bucket + [g]));
    AddGroupWellFormed(b, ck, kk, inner, bucket + [g], r);
    AddGroupLookup(b, g, inner, bucket, r);
    r
  }

  lemma AddGroupWellFormed(b: Grouped, ck: string, kk: string, inner: Inner, bucket: seq<Group>, r: Grouped)
    requires inner == if ck in b.entries then b.entries[ck] else EmptyDict()
    requires bucket != [] && r == b.Put(ck, inner.Put(kk, bucket))
    ensures WellFormed(b) ==> WellFormed(r)
  {
    if WellFormed(b) {
      var inner' := inner.Put(kk, bucket);
      assert inner'.Valid();
      assert r.Valid();
      forall c | c in r.entries
        ensures r.entries[c].Valid()
      {
        if c == ck {
          assert r.entries[c] == inner';
        } else {
          assert r.entries[c] == b.entries[c];
        }
      }
      forall c, k | c in r.entries && k in r.entries[c].entries
        ensures r.entries[c].entries[k] != []
      {
        if c != ck {
          assert r.entries[c] == b.entries[c];
        } else if k != kk {
          assert r.entries[c].entries[k] == inner.entries[k];
        }
      }
    }
  }

  lemma AddGroupLookup(b: Grouped, g: Group, inner: Inner, bucket: seq<Group>, r: Grouped)
    requires inner == if CampaignKey(g) in b.entries then b.entries[CampaignKey(g)] else EmptyDict()
    requires bucket == if CategoryKey(g) in inner.entries then inner.entries[CategoryKey(g)] else []
    requires r == b.Put(CampaignKey(g), inner.Put(CategoryKey(g), bucket + [g]))
    ensures forall ck, kk :: Lookup(r, ck, kk) == Lookup(b, ck, kk) + (if InBucket(ck, kk)(g) then [g] else [])
  {
    var ck0, kk0 := CampaignKey(g), CategoryKey(g);
    assert r.entries == b.entries[ck0 := inner.Put(kk0, bucket + [g])];
    forall ck, kk
      ensures Lookup(r, ck, kk) == Lookup(b, ck, kk) + (if InBucket(ck, kk)(g) then [g] else [])
    {
      if ck == ck0 {
        assert r.entries[ck].entries == inner.entries[kk0 := bucket + [g]];
      }
    }
  }

  /** The bucketing loop over `gs`. */
  function Bucketize(gs: seq<Group>): (r: Grouped)
    ensures WellFormed(r)
    ensures forall ck, kk :: Lookup(r, ck, kk) == Matching(gs, ck, kk)
  {
    if gs == [] then EmptyDict()
    else
      var init, last := gs[..|gs| - 1], gs[|gs| - 1];
      var b := Bucketize(init);
      assert gs == init + [last];
      forall ck, kk
        ensures Matching(gs, ck, kk) == Matching(init, ck, kk) + (if InBucket(ck, kk)(last) then [last] else [])
      {
        ArrayOps.FilterSnoc(init, last, InBucket(ck, kk));
      }
      AddGroup(b, last)
  }

  /** The distinct elements of `s`, each at the place of its first occurrence. */
  function FirstOccurrences(s: seq<string>): (r: seq<string>)
    ensures forall x :: x in r <==> x in s
    ensures forall i, j :: 0 <= i < j < |r| ==> r[i] != r[j]
  {
    if s == [] then []
    else
      var init, last := s[..|s| - 1], s[|s| - 1];
      assert s == init + [last];
      var p := FirstOccurrences(init);
      if last in init then p else p + [last]
  }

  /** Appending an element adds it at the end, unless it occurred already. */
  lemma FirstOccurrencesSnoc(s: seq<string>, x: string)
    ensures FirstOccurrences(s + [x]) == if x in s then FirstOccurrences(s) else FirstOccurrences(s) + [x]
  {
    assert (s + [x])[..|s|] == s;
  }

  /** The campaign key of every group, in input order. */
  function CampaignKeys(gs: seq<Group>): seq<string> {
    seq(|gs|, i requires 0 <= i < |gs| => CampaignKey(gs[i]))
  }

  /** The category keys of the groups with campaign key `ck`, in input order. */
  function CategoryKeysIn(gs: seq<Group>, ck: string): seq<string> {
    if gs == [] then []
    else
      var last := gs[|gs| - 1];
      CategoryKeysIn(gs[..|gs| - 1], ck) + (if CampaignKey(last) == ck then [CategoryKey(last)] else [])
  }

  lemma {:induction false} CategoryKeysInEmpty(gs: seq<Group>, ck: string)
    requires ck !in CampaignKeys(gs)
    ensures CategoryKeysIn(gs, ck) == []
  {
    if gs != [] {
      var init := gs[..|gs| - 1];
      assert CampaignKeys(init) == CampaignKeys(gs)[..|gs| - 1];
      CategoryKeysInEmpty(init, ck);
      assert CampaignKeys(gs)[|gs| - 1] == CampaignKey(gs[|gs| - 1]);
    }
  }

  /** The keys of both levels are created in order of first occurrence: the
      campaign keys as the groups come, and within a campaign its category
      keys as that campaign's groups come.  This creation order is the order
      the nested loops visit the buckets in. */
  lemma {:induction false} BucketizeOrder(gs: seq<Group>)
    ensures Bucketize(gs).order == FirstOccurrences(CampaignKeys(gs))
    ensures forall ck :: ck in Bucketize(gs).entries
              ==> Bucketize(gs).entries[ck].order == FirstOccurrences(CategoryKeysIn(gs, ck))
  {
    if gs != [] {
      var init, last := gs[..|gs| - 1], gs[|gs| - 1];
      assert CampaignKeys(gs) == CampaignKeys(init) + [CampaignKey(last)];
      var b := Bucketize(init);
      assert Bucketize(gs) == AddGroup(b, last);
      BucketizeOrder(init);
      AddGroupOrder(b, last, CampaignKeys(init), gs);
    }
  }

  /** One step of `BucketizeOrder`, for `gs` = `init + [g]` and `b` the buckets of `init`. */
  lemma AddGroupOrder(b: Grouped, g: Group, cks: seq<string>, gs: seq<Group>)
    requires WellFormed(b) && gs != [] && gs[|gs| - 1] == g
    requires cks == CampaignKeys(gs[..|gs| - 1])
    requires b.order == FirstOccurrences(cks)
    requires forall ck :: ck in b.entries ==> b.entries[ck].order == FirstOccurrences(CategoryKeysIn(gs[..|gs| - 1], ck))
    ensures AddGroup(b, g).order == FirstOccurrences(cks + [CampaignKey(g)])
    ensures forall ck :: ck in AddGroup(b, g).entries
              ==> AddGroup(b, g).entries[ck].order == FirstOccurrences(CategoryKeysIn(gs, ck))
  {
    var init := gs[..|gs| - 1];
    var ck0, kk0 := CampaignKey(g), CategoryKey(g);
    var inner := if ck0 in b.entries then b.entries[ck0] else EmptyDict();
    var bucket := if kk0 in inner.entries then inner.entries[kk0] else [];
    var inner' := inner.Put(kk0, bucket + [g]);
    var r := b.Put(ck0, inner');
    assert AddGroup(b, g) == r;
    PutOrder(b, ck0, inner', cks);
    GroupCategoryOrder(b, g, gs, inner, inner', bucket + [g]);
    OtherCampaignsOrder(b, r, gs, ck0, inner');
  }

  /** Pushing a group leaves the category order of every other campaign as it was. */
  lemma OtherCampaignsOrder(b: Grouped, r: Grouped, gs: seq<Group>, ck0: string, inner': Inner)
    requires gs != [] && ck0 == CampaignKey(gs[|gs| - 1])
    requires r.entries == b.entries[ck0 := inner']
    requires forall ck :: ck in b.entries ==> b.entries[ck].order == FirstOccurrences(CategoryKeysIn(gs[..|gs| - 1], ck))
    ensures forall ck :: ck in r.entries && ck != ck0 ==> r.entries[ck].order == FirstOccurrences(CategoryKeysIn(gs, ck))
  {
    forall ck | ck in r.entries && ck != ck0
      ensures r.entries[ck].order == FirstOccurrences(CategoryKeysIn(gs, ck))
    {
      assert r.entries[ck] == b.entries[ck];
      CategoryKeysInOther(gs, ck);
    }
  }

  lemma CategoryKeysInOther(gs: seq<Group>, ck: string)
    requires gs != [] && CampaignKey(gs[|gs| - 1]) != ck
    ensures CategoryKeysIn(gs, ck) == CategoryKeysIn(gs[..|gs| - 1], ck)
  {
  }

  /** The category order of the campaign `g` lands in, after `g` is pushed. */
  lemma GroupCategoryOrder(b: Grouped, g: Group, gs: seq<Group>, inner: Inner, inner': Inner, bucket: seq<Group>)
    requires WellFormed(b) && gs != [] && gs[|gs| - 1] == g
    requires b.order == FirstOccurrences(CampaignKeys(gs[..|gs| - 1]))
    requires CampaignKey(g) in b.entries ==> b.entries[CampaignKey(g)].order == FirstOccurrences(CategoryKeysIn(gs[..|gs| - 1], CampaignKey(g)))
    requires inner == if CampaignKey(g) in b.entries then b.entries[CampaignKey(g)] else EmptyDict()
    requires inner' == inner.Put(CategoryKey(g), bucket)
    ensures inner'.order == FirstOccurrences(CategoryKeysIn(gs, CampaignKey(g)))
  {
    var init := gs[..|gs| - 1];
    var ck0, kk0 := CampaignKey(g), CategoryKey(g);
    var before := CategoryKeysIn(init, ck0);
    if ck0 !in b.entries {
      assert ck0 !in CampaignKeys(init);
      CategoryKeysInEmpty(init, ck0);
    }
    PutOrder(inner, kk0, bucket, before);
    assert CategoryKeysIn(gs, ck0) == before + [kk0];
  }

  /** `d[k] = v` on an object whose keys were created in first-occurrence order of `keys`. */
  lemma PutOrder<V>(d: Dict<V>, k: string, v: V, keys: seq<string>)
    requires d.Valid() && d.order == FirstOccurrences(keys)
    ensures d.Put(k, v).order == FirstOccurrences(keys + [k])
  {
    assert k in d.entries <==> k in keys;
    FirstOccurrencesSnoc(keys, k);
  }

  /** A bucket exists exactly when some group belongs to it. */
  lemma BucketExists(gs: seq<Group>, ck: string, kk: string)
    ensures (ck in Bucketize(gs).entries && kk in Bucketize(gs).entries[ck].entries)
        <==> exists i :: 0 <= i < |gs| && InBucket(ck, kk)(gs[i])
  {
    var b := Bucketize(gs);
    var m := Matching(gs, ck, kk);
    assert Lookup(b, ck, kk) == m;
    if exists i :: 0 <= i < |gs| && InBucket(ck, kk)(gs[i]) {
      var i :| 0 <= i < |gs| && InBucket(ck, kk)(gs[i]);
      assert gs[i] in m;
    }
    if m != [] {
      assert m[0] in gs;
    }
  }

  // ------------------------------------------------------------ visiting order

  /** The pairs of one campaign key with each of its category keys, in order. */
  function WithCampaign(ck: string, kks: seq<string>): (r: seq<(string, string)>)
    ensures |r| == |kks|
    ensures forall i :: 0 <= i < |kks| ==> r[i] == (ck, kks[i])
  {
    seq(|kks|, i requires 0 <= i < |kks| => (ck, kks[i]))
  }

  /** The `(campaign key, category key)` pairs the nested loops at
      src/database.mjs:84-87 visit, for the campaign keys `cks` in turn. */
  function PairsOver(b: Grouped, cks: seq<string>): seq<(string, string)>
    decreases |cks|
  {
    if cks == [] then []
    else
      var kks := if cks[0] in b.entries then b.entries[cks[0]].Keys() else [];
      WithCampaign(cks[0], kks) + PairsOver(b, cks[1..])
  }

  /** Every bucket in `for...in` order: campaign keys first by the object key
      order, and within a campaign the category keys by the same rule. */
  function Pairs(b: Grouped): seq<(string, string)> {
    PairsOver(b, b.Keys())
  }

  ghost predicate Distinct<T>(s: seq<T>) {
    forall i, j :: 0 <= i < j < |s| ==> s[i] != s[j]
  }

  lemma WithCampaignFacts(ck: string, kks: seq<string>)
    ensures forall c, k :: (c, k) in WithCampaign(ck, kks) <==> c == ck && k in kks
    ensures Distinct(kks) ==> Distinct(WithCampaign(ck, kks))
  {
    var r := WithCampaign(ck, kks);
    forall c, k
      ensures (c, k) in r <==> c == ck && k in kks
    {
      if (c, k) in r {
        var i :| 0 <= i < |r| && r[i] == (c, k);
      }
      if c == ck && k in kks {
        var i :| 0 <= i < |kks| && kks[i] == k;
        assert r[i] == (c, k);
      }
    }
  }

  lemma DistinctConcat<T>(a: seq<T>, b: seq<T>)
    requires Distinct(a) && Distinct(b)
    requires forall x :: x in a ==> x !in b
    ensures Distinct(a + b)
  {
    forall i, j | 0 <= i < j < |a + b|
      ensures (a + b)[i] != (a + b)[j]
    {
      if j < |a| {
        assert (a + b)[i] == a[i] && (a + b)[j] == a[j];
      } else if i >= |a| {
        assert (a + b)[i] == b[i - |a|] && (a + b)[j] == b[j - |a|];
      } else {
        assert (a + b)[i] == a[i] && (a + b)[j] == b[j - |a|];
        assert a[i] in a;
      }
    }
  }

  lemma DistinctTail<T>(s: seq<T>)
    requires Distinct(s) && s != []
    ensures Distinct(s[1..]) && s[0] !in s[1..]
  {
  }

  lemma {:induction false} PairsOverFacts(b: Grouped, cks: seq<string>)
    requires WellFormed(b)
    requires Distinct(cks)
    requires forall i :: 0 <= i < |cks| ==> cks[i] in b.entries
    ensures forall ck, kk :: (ck, kk) in PairsOver(b, cks) <==> ck in cks && Lookup(b, ck, kk) != []
    ensures Distinct(PairsOver(b, cks))
    decreases |cks|
  {
    if cks != [] {
      var ck0 := cks[0];
      var kks := b.entries[ck0].Keys();
      var head := WithCampaign(ck0, kks);
      var tail := PairsOver(b, cks[1..]);
      DistinctTail(cks);
      PairsOverFacts(b, cks[1..]);
      WithCampaignFacts(ck0, kks);
      assert PairsOver(b, cks) == head + tail;
      assert cks == [ck0] + cks[1..];
      forall ck, kk
        ensures (ck, kk) in head + tail <==> ck in cks && Lookup(b, ck, kk) != []
      {
        assert (ck, kk) in head <==> ck == ck0 && kk in b.entries[ck0].entries;
      }
      forall x | x in head
        ensures x !in tail
      {
        assert x.0 == ck0;
      }
      DistinctConcat(head, tail);
    }
  }

  /** Every bucket is visited exactly once, and only buckets are visited. */
  lemma PairsAreTheBuckets(b: Grouped)
    requires WellFormed(b)
    ensures forall ck, kk :: (ck, kk) in Pairs(b) <==> Lookup(b, ck, kk) != []
    ensures Distinct(Pairs(b))
  {
    var cks := b.Keys();
    assert Distinct(cks);
    PairsOverAllKeys(b, cks);
  }

  lemma PairsOverAllKeys(b: Grouped, cks: seq<string>)
    requires WellFormed(b) && Distinct(cks)
    requires forall ck :: ck in cks <==> ck in b.entries
    ensures forall ck, kk :: (ck, kk) in PairsOver(b, cks) <==> Lookup(b, ck, kk) != []
    ensures Distinct(PairsOver(b, cks))
  {
    assert forall i :: 0 <= i < |cks| ==> cks[i] in b.entries;
    PairsOverFacts(b, cks);
  }
}
