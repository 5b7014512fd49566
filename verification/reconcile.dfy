/** One account iteration of `updateInviteLinks` as a plan of writes
    (src/database.mjs:51-142): one upsert per bucket, then one clearing
    write per fetched invite-links item whose SK was not produced this run. */
module Reconcile {
  import opened Base
  import opened Text
  import ArrayOps
  import opened Entities
  import opened Buckets
  import opened Store
  import opened Aggregation

  /** `validGroups` of the account. */
  function Survivors(tbl: AccountTable, requested: seq<string>): seq<Group> {
    SelectGroups(tbl.groups, requested, KnownCategories(tbl.categories))
  }

  /** The buckets in the order the loops at src/database.mjs:84-87 visit them. */
  function Visits(tbl: AccountTable, requested: seq<string>): seq<(string, string)> {
    Pairs(Bucketize(Survivors(tbl, requested)))
  }

  lemma FilterNonEmpty(gs: seq<Group>, ck: string, kk: string)
    ensures Matching(gs, ck, kk) != [] <==> exists g :: g in gs && InBucket(ck, kk)(g)
  {
    var m := Matching(gs, ck, kk);
    if m != [] {
      assert m[0] in gs;
    }
    if exists g :: g in gs && InBucket(ck, kk)(g) {
      var g :| g in gs && InBucket(ck, kk)(g);
      var i :| 0 <= i < |gs| && gs[i] == g;
    }
  }

  /** The loops visit every bucket that a surviving group falls into, each
      bucket exactly once, and nothing else. */
  lemma VisitsAreTheBuckets(tbl: AccountTable, requested: seq<string>)
    ensures forall ck, kk :: (ck, kk) in Visits(tbl, requested) <==>
      exists g :: g in tbl.groups && Eligible(g, requested) && CategoryKnown(g, KnownCategories(tbl.categories))
                  && CampaignKey(g) == ck && CategoryKey(g) == kk
    ensures Distinct(Visits(tbl, requested))
  {
    var sel := Survivors(tbl, requested);
    PairsOfSelection(sel, Bucketize(sel));
  }

  lemma PairsOfSelection(sel: seq<Group>, b: Grouped)
    requires WellFormed(b)
    requires forall ck, kk :: Lookup(b, ck, kk) == Matching(sel, ck, kk)
    ensures forall ck, kk :: (ck, kk) in Pairs(b) <==> exists g :: g in sel && CampaignKey(g) == ck && CategoryKey(g) == kk
    ensures Distinct(Pairs(b))
  {
    PairsAreTheBuckets(b);
    forall ck, kk
      ensures (ck, kk) in Pairs(b) <==> exists g :: g in sel && CampaignKey(g) == ck && CategoryKey(g) == kk
    {
      FilterNonEmpty(sel, ck, kk);
    }
  }

  /** `f` applied to every pair of `ps`, in order. */
  function MapPairs(ps: seq<(string, string)>, f: ((string, string)) --> Item): (r: seq<Item>)
    requires forall i :: 0 <= i < |ps| ==> f.requires(ps[i])
    ensures |r| == |ps|
    ensures forall i :: 0 <= i < |r| ==> r[i] == f(ps[i])
  {
    if ps == [] then []
    else
      var rest := MapPairs(ps[1..], f);
      var r := [f(ps[0])] + rest;
      assert forall i :: 1 <= i < |r| ==> r[i] == rest[i - 1] && ps[i] == ps[1..][i - 1];
      r
  }

  /** The record of the bucket `p` of `b`. */
  function RecordOf(acc: string, b: Grouped, campaigns: seq<Campaign>, now: string): ((string, string)) --> Item {
    (p: (string, string)) requires Lookup(b, p.0, p.1) != [] => BuildItem(acc, p.0, p.1, Lookup(b, p.0, p.1), campaigns, now)
  }

  /** One record per bucket of `b`, in visiting order. */
  function BucketRecords(acc: string, b: Grouped, campaigns: seq<Campaign>, now: string): (r: seq<Item>)
    requires WellFormed(b)
    ensures |r| == |Pairs(b)|
    ensures forall i :: 0 <= i < |r| ==> r[i].pk == InviteLinksPK && r[i].sk == SortKey(Pairs(b)[i].0, Pairs(b)[i].1)
  {
    var ps := Pairs(b);
    BucketsNonEmpty(b);
    UpsertKeys(acc, b, ps, campaigns, now);
    MapPairs(ps, RecordOf(acc, b, campaigns, now))
  }

  /** The records the first loop writes (src/database.mjs:84-118), one per
      visited bucket, in visiting order. */
  function Upserts(acc: string, requested: seq<string>, tbl: AccountTable, now: string): (r: seq<Item>)
    ensures |r| == |Visits(tbl, requested)|
    ensures forall i :: 0 <= i < |r| ==> r[i].pk == InviteLinksPK && r[i].sk == SortKey(Visits(tbl, requested)[i].0, Visits(tbl, requested)[i].1)
  {
    BucketRecords(acc, Bucketize(Survivors(tbl, requested)), tbl.campaigns, now)
  }

  lemma UpsertKeys(acc: string, b: Grouped, ps: seq<(string, string)>, campaigns: seq<Campaign>, now: string)
    requires forall i :: 0 <= i < |ps| ==> Lookup(b, ps[i].0, ps[i].1) != []
    ensures var r := MapPairs(ps, RecordOf(acc, b, campaigns, now));
      forall i :: 0 <= i < |r| ==> r[i].pk == InviteLinksPK && r[i].sk == SortKey(ps[i].0, ps[i].1)
  {
    var r := MapPairs(ps, RecordOf(acc, b, campaigns, now));
    forall i | 0 <= i < |r|
      ensures r[i].pk == InviteLinksPK && r[i].sk == SortKey(ps[i].0, ps[i].1)
    {
      var bucket := Lookup(b, ps[i].0, ps[i].1);
      assert r[i] == BuildItem(acc, ps[i].0, ps[i].1, bucket, campaigns, now);
    }
  }

  lemma BucketsNonEmpty(b: Grouped)
    requires WellFormed(b)
    ensures forall i :: 0 <= i < |Pairs(b)| ==> Lookup(b, Pairs(b)[i].0, Pairs(b)[i].1) != []
  {
    var ps := Pairs(b);
    PairsAreTheBuckets(b);
    forall i | 0 <= i < |ps|
      ensures Lookup(b, ps[i].0, ps[i].1) != []
    {
      assert (ps[i].0, ps[i].1) in ps;
    }
  }

  /** The `i`-th upsert is the record of the `i`-th visited bucket, built from
      the surviving groups of that bucket in input order. */
  lemma UpsertIsBucketRecord(acc: string, requested: seq<string>, tbl: AccountTable, now: string, i: nat)
    requires i < |Visits(tbl, requested)|
    ensures Matching(Survivors(tbl, requested), Visits(tbl, requested)[i].0, Visits(tbl, requested)[i].1) != []
    ensures Upserts(acc, requested, tbl, now)[i]
         == BuildItem(acc, Visits(tbl, requested)[i].0, Visits(tbl, requested)[i].1,
                      Matching(Survivors(tbl, requested), Visits(tbl, requested)[i].0, Visits(tbl, requested)[i].1),
                      tbl.campaigns, now)
  {
    var b := Bucketize(Survivors(tbl, requested));
    BucketsNonEmpty(b);
    var ps := Pairs(b);
    assert Upserts(acc, requested, tbl, now) == MapPairs(ps, RecordOf(acc, b, tbl.campaigns, now));
    assert Upserts(acc, requested, tbl, now)[i] == RecordOf(acc, b, tbl.campaigns, now)(ps[i]);
  }

  /** `validSKsSet` (src/database.mjs:122-131). */
  function ValidSortKeys(tbl: AccountTable, requested: seq<string>): (r: set<string>)
    ensures forall p :: p in Visits(tbl, requested) ==> SortKey(p.0, p.1) in r
  {
    set p | p in Visits(tbl, requested) :: SortKey(p.0, p.1)
  }

  /** The SKs kept by reconciliation are exactly the SKs upserted in the same iteration. */
  lemma ValidSortKeysAreUpserted(acc: string, requested: seq<string>, tbl: AccountTable, now: string)
    ensures forall sk :: sk in ValidSortKeys(tbl, requested) <==>
      exists i :: 0 <= i < |Upserts(acc, requested, tbl, now)| && Upserts(acc, requested, tbl, now)[i].sk == sk
  {
    KeysOfPairs(Upserts(acc, requested, tbl, now), Visits(tbl, requested), ValidSortKeys(tbl, requested));
  }

  lemma KeysOfPairs(ups: seq<Item>, vs: seq<(string, string)>, valid: set<string>)
    requires valid == set p | p in vs :: SortKey(p.0, p.1)
    requires |ups| == |vs|
    requires forall i :: 0 <= i < |ups| ==> ups[i].sk == SortKey(vs[i].0, vs[i].1)
    ensures forall sk :: sk in valid <==> exists i :: 0 <= i < |ups| && ups[i].sk == sk
  {
    forall sk
      ensures sk in valid <==> exists i :: 0 <= i < |ups| && ups[i].sk == sk
    {
      if sk in valid {
        var p :| p in vs && SortKey(p.0, p.1) == sk;
        var i :| 0 <= i < |vs| && vs[i] == p;
        assert ups[i].sk == sk;
      }
      if exists i :: 0 <= i < |ups| && ups[i].sk == sk {
        var i :| 0 <= i < |ups| && ups[i].sk == sk;
        assert vs[i] in vs;
      }
    }
  }

  /** The SKs kept by reconciliation are exactly the SKs of the buckets of the surviving groups. */
  lemma ValidSortKeysOfSurvivors(tbl: AccountTable, requested: seq<string>)
    ensures forall sk :: sk in ValidSortKeys(tbl, requested) <==>
      exists g :: g in Survivors(tbl, requested) && SortKey(CampaignKey(g), CategoryKey(g)) == sk
  {
    VisitsAreTheBuckets(tbl, requested);
    KeysOfGroups(Survivors(tbl, requested), Visits(tbl, requested), ValidSortKeys(tbl, requested));
  }

  lemma KeysOfGroups(sel: seq<Group>, vs: seq<(string, string)>, valid: set<string>)
    requires valid == set p | p in vs :: SortKey(p.0, p.1)
    requires forall ck, kk :: (ck, kk) in vs <==> exists g :: g in sel && CampaignKey(g) == ck && CategoryKey(g) == kk
    ensures forall sk :: sk in valid <==> exists g :: g in sel && SortKey(CampaignKey(g), CategoryKey(g)) == sk
  {
    forall sk
      ensures sk in valid <==> exists g :: g in sel && SortKey(CampaignKey(g), CategoryKey(g)) == sk
    {
      if sk in valid {
        var p :| p in vs && SortKey(p.0, p.1) == sk;
        assert (p.0, p.1) in vs;
        var g :| g in sel && CampaignKey(g) == p.0 && CategoryKey(g) == p.1;
      }
      if exists g :: g in sel && SortKey(CampaignKey(g), CategoryKey(g)) == sk {
        var g :| g in sel && SortKey(CampaignKey(g), CategoryKey(g)) == sk;
        assert (CampaignKey(g), CategoryKey(g)) in vs;
      }
    }
  }

  // ------------------------------------------------------------ clearing writes

  /** The write sent for a stale item: only its key, an empty code list and the run time. */
  function ClearingItem(k: Key, now: string): Item {
    Item(k.pk, k.sk, None, None, None, None, Some([]), Some(now))
  }

  /** A clearing write names the two names, the code list and the time, and
      leaves `Domain` and `AccountSK` alone. */
  lemma ClearingClause(k: Key, now: string)
    requires now != ""
    ensures var m := SetClause(ClearingItem(k, now));
      && "Campaign" in m && m["Campaign"] == S("")
      && "Category" in m && m["Category"] == S("")
      && "InviteCodes" in m && m["InviteCodes"] == L([])
      && "Updated" in m && m["Updated"] == S(now)
      && "Domain" !in m && "AccountSK" !in m
  {
  }

  function KeysOf(ws: seq<Item>): seq<Key> {
    seq(|ws|, i requires 0 <= i < |ws| => KeyOf(ws[i]))
  }

  function IsStale(valid: set<string>): Key -> bool {
    (k: Key) => k.sk !in valid
  }

  /** The second loop (src/database.mjs:133-142): every fetched item whose SK
      is not in `valid` gets one clearing write, in fetch order. */
  function ClearingWrites(fetched: seq<Key>, valid: set<string>, now: string): (r: seq<Item>)
    ensures forall i :: 0 <= i < |r| ==> r[i] == ClearingItem(KeyOf(r[i]), now) && r[i].sk !in valid
  {
    var stale := ArrayOps.Filter(fetched, IsStale(valid));
    seq(|stale|, i requires 0 <= i < |stale| => ClearingItem(stale[i], now))
  }

  /** Each fetched key outside the valid set is cleared as many times as it
      was fetched (once, for a query result), and no other key is cleared. */
  lemma ClearingWritesCount(fetched: seq<Key>, valid: set<string>, now: string)
    ensures forall k: Key :: multiset(KeysOf(ClearingWrites(fetched, valid, now)))[k]
                        == if k.sk in valid then 0 else multiset(fetched)[k]
  {
    var stale := ArrayOps.Filter(fetched, IsStale(valid));
    assert KeysOf(ClearingWrites(fetched, valid, now)) == stale;
    forall k: Key
      ensures multiset(stale)[k] == if k.sk in valid then 0 else multiset(fetched)[k]
    {
      ArrayOps.FilterCount(fetched, IsStale(valid), k);
    }
  }

  /** The writes of one account iteration, in the order they are issued. */
  function AccountPlan(acc: string, requested: seq<string>, tbl: AccountTable, fetched: seq<Key>, now: string): seq<Item> {
    Upserts(acc, requested, tbl, now) + ClearingWrites(fetched, ValidSortKeys(tbl, requested), now)
  }

  /** No clearing write hits a record upserted in the same iteration. */
  lemma ClearsMissUpserts(acc: string, requested: seq<string>, tbl: AccountTable, fetched: seq<Key>, now: string)
    ensures var ups, clears := Upserts(acc, requested, tbl, now), ClearingWrites(fetched, ValidSortKeys(tbl, requested), now);
      forall i, j :: 0 <= i < |ups| && 0 <= j < |clears| ==> clears[j].sk != ups[i].sk
  {
    ValidSortKeysAreUpserted(acc, requested, tbl, now);
  }

  /** After the iteration's writes, every fetched item outside the valid set
      has an empty code list, the run time, and blank `Campaign` and
      `Category`, while its `Domain` and `AccountSK` are as they were. */
  lemma StaleItemsCleared(t: Table, acc: string, requested: seq<string>, tbl: AccountTable, fetched: seq<Key>, now: string, k: Key)
    requires k in fetched && k.sk !in ValidSortKeys(tbl, requested)
    requires now != ""
    ensures var after := Apply(t, AccountPlan(acc, requested, tbl, fetched, now));
      && View(after, k, "InviteCodes") == Some(L([]))
      && View(after, k, "Updated") == Some(S(now))
      && View(after, k, "Campaign") == Some(S(""))
      && View(after, k, "Category") == Some(S(""))
      && View(after, k, "Domain") == View(t, k, "Domain")
      && View(after, k, "AccountSK") == View(t, k, "AccountSK")
  {
    var valid := ValidSortKeys(tbl, requested);
    var ups := Upserts(acc, requested, tbl, now);
    ValidSortKeysAreUpserted(acc, requested, tbl, now);
    StaleCleared(t, ups, fetched, valid, now, k);
  }

  lemma StaleCleared(t: Table, ups: seq<Item>, fetched: seq<Key>, valid: set<string>, now: string, k: Key)
    requires forall i :: 0 <= i < |ups| ==> ups[i].sk in valid
    requires k in fetched && k.sk !in valid && now != ""
    ensures var after := Apply(t, ups + ClearingWrites(fetched, valid, now));
      && View(after, k, "InviteCodes") == Some(L([]))
      && View(after, k, "Updated") == Some(S(now))
      && View(after, k, "Campaign") == Some(S(""))
      && View(after, k, "Category") == Some(S(""))
      && View(after, k, "Domain") == View(t, k, "Domain")
      && View(after, k, "AccountSK") == View(t, k, "AccountSK")
  {
    var clears := ClearingWrites(fetched, valid, now);
    assert !Touches(ups, k) by {
      forall i | 0 <= i < |ups|
        ensures KeyOf(ups[i]) != k
      {
        assert ups[i].sk in valid;
      }
    }
    ClearingWritesCount(fetched, valid, now);
    assert Touches(clears, k) by {
      assert multiset(KeysOf(clears))[k] == multiset(fetched)[k] > 0;
      assert k in KeysOf(clears);
      var j :| 0 <= j < |clears| && KeysOf(clears)[j] == k;
    }
    ClearingClause(k, now);
    ClearedAttribute(t, ups, clears, k, "InviteCodes", L([]), now);
    ClearedAttribute(t, ups, clears, k, "Updated", S(now), now);
    ClearedAttribute(t, ups, clears, k, "Campaign", S(""), now);
    ClearedAttribute(t, ups, clears, k, "Category", S(""), now);
    KeptAttribute(t, ups, clears, k, "Domain", now);
    KeptAttribute(t, ups, clears, k, "AccountSK", now);
  }

  predicate IsClearing(ws: seq<Item>, now: string) {
    forall i :: 0 <= i < |ws| ==> ws[i] == ClearingItem(KeyOf(ws[i]), now)
  }

  lemma ClearedAttribute(t: Table, ups: seq<Item>, clears: seq<Item>, k: Key, a: string, v: AttrValue, now: string)
    requires !Touches(ups, k) && Touches(clears, k) && IsClearing(clears, now) && now != ""
    requires a in SetClause(ClearingItem(k, now)) && SetClause(ClearingItem(k, now))[a] == v
    ensures View(Apply(t, ups + clears), k, a) == Some(v)
  {
    ApplyLastWriterWins(t, ups + clears, k, a);
    LastSetConcat(ups, clears, k, a);
    LastSetUniform(clears, k, a, v);
  }

  lemma KeptAttribute(t: Table, ups: seq<Item>, clears: seq<Item>, k: Key, a: string, now: string)
    requires !Touches(ups, k) && Touches(clears, k) && IsClearing(clears, now)
    requires a == "Domain" || a == "AccountSK"
    ensures View(Apply(t, ups + clears), k, a) == View(t, k, a)
  {
    ApplyLastWriterWins(t, ups + clears, k, a);
    LastSetConcat(ups, clears, k, a);
    LastSetUntouched(ups, k, a);
    ClearingKeeps(clears, k, a, now);
    TouchesConcat(ups, clears, k);
  }

  /** Clearing writes assign neither `Domain` nor `AccountSK`. */
  lemma ClearingKeeps(clears: seq<Item>, k: Key, a: string, now: string)
    requires IsClearing(clears, now) && (a == "Domain" || a == "AccountSK")
    ensures LastSet(clears, k, a) == None
  {
    forall i | 0 <= i < |clears| && KeyOf(clears[i]) == k
      ensures a !in SetClause(clears[i])
    {
      assert clears[i] == ClearingItem(KeyOf(clears[i]), now);
    }
    NoWriteAssigns(clears, k, a);
  }

  lemma {:induction false} NoWriteAssigns(ws: seq<Item>, k: Key, a: string)
    requires forall i :: 0 <= i < |ws| && KeyOf(ws[i]) == k ==> a !in SetClause(ws[i])
    ensures LastSet(ws, k, a) == None
  {
    if ws != [] {
      assert forall i :: 0 <= i < |ws[1..]| ==> ws[1..][i] == ws[i + 1];
      NoWriteAssigns(ws[1..], k, a);
    }
  }

  /** When no other record of the iteration shares its key, an upserted record
      ends with every attribute the upsert assigns. */
  lemma UpsertLands(t: Table, acc: string, requested: seq<string>, tbl: AccountTable, fetched: seq<Key>, now: string, i: nat, a: string)
    requires i < |Upserts(acc, requested, tbl, now)|
    requires forall j :: 0 <= j < |Upserts(acc, requested, tbl, now)| && j != i
               ==> Upserts(acc, requested, tbl, now)[j].sk != Upserts(acc, requested, tbl, now)[i].sk
    requires a in SetClause(Upserts(acc, requested, tbl, now)[i])
    ensures View(Apply(t, AccountPlan(acc, requested, tbl, fetched, now)), KeyOf(Upserts(acc, requested, tbl, now)[i]), a)
         == Some(SetClause(Upserts(acc, requested, tbl, now)[i])[a])
  {
    var ups := Upserts(acc, requested, tbl, now);
    var clears := ClearingWrites(fetched, ValidSortKeys(tbl, requested), now);
    var plan := ups + clears;
    var k := KeyOf(ups[i]);
    ClearsMissUpserts(acc, requested, tbl, fetched, now);
    forall j | 0 <= j < |plan| && j != i
      ensures KeyOf(plan[j]) != k
    {
      if j >= |ups| {
        assert plan[j] == clears[j - |ups|];
      }
    }
    assert plan[i] == ups[i];
    ApplyLastWriterWins(t, plan, k, a);
    LastSetSingle(plan, k, a, i);
  }

  /** Upserted records have pairwise distinct keys when no surviving group's
      normalised campaign contains '#'. */
  lemma UpsertKeysDistinct(acc: string, requested: seq<string>, tbl: AccountTable, now: string)
    requires forall g :: g in Survivors(tbl, requested) ==> '#' !in CampaignKey(g)
    ensures forall i, j :: 0 <= i < j < |Upserts(acc, requested, tbl, now)|
              ==> Upserts(acc, requested, tbl, now)[i].sk != Upserts(acc, requested, tbl, now)[j].sk
  {
    var ups := Upserts(acc, requested, tbl, now);
    var vs := Visits(tbl, requested);
    VisitsAreTheBuckets(tbl, requested);
    forall i, j | 0 <= i < j < |ups|
      ensures ups[i].sk != ups[j].sk
    {
      assert vs[i] in vs && vs[j] in vs;
      var gi :| gi in Survivors(tbl, requested) && CampaignKey(gi) == vs[i].0 && CategoryKey(gi) == vs[i].1;
      var gj :| gj in Survivors(tbl, requested) && CampaignKey(gj) == vs[j].0 && CategoryKey(gj) == vs[j].1;
      if ups[i].sk == ups[j].sk {
        SortKeyInjective(vs[i].0, vs[i].1, vs[j].0, vs[j].1);
      }
    }
  }
}
