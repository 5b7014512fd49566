/** The pure half of one account iteration of `updateInviteLinks`
    (src/database.mjs:51-114): select the groups worth publishing, bucket
    them by campaign and category, rank each bucket by member count, and
    build one invite-links record per bucket. */
module Aggregation {
  import opened Base
  import opened Text
  import ArrayOps
  import opened Entities
  import opened Buckets
  import opened Store

  /** The partition key of every invite-links record. */
  const InviteLinksPK: string := "WHATSAPP#INVITELINKS"

  /** How many groups of a bucket are published. */
  const MaxInviteCodes: nat := 10

  // ------------------------------------------------------------ selection

  /** The first filter: publishable, reachable through a code or a link,
      and in one of the requested campaigns once normalised. */
  predicate Eligible(g: Group, requested: seq<string>) {
    && g.publishable
    && (Present(g.inviteCode) || Present(g.inviteLink))
    && Present(g.campaign)
    && NormalizeCampaign(g.campaign.value) in requested
  }

  /** `validCategorySKs`: the lower-cased SKs of the account's categories. */
  function KnownCategories(cats: seq<Category>): seq<string> {
    seq(|cats|, i requires 0 <= i < |cats| => Lower(cats[i].sk))
  }

  /** The second filter: no category at all, or one the account knows. */
  predicate CategoryKnown(g: Group, known: seq<string>) {
    !Present(g.category) || Lower(g.category.value) in known
  }

  function EligibleFor(requested: seq<string>): Group -> bool {
    g => Eligible(g, requested)
  }

  function KnownFor(known: seq<string>): Group -> bool {
    g => CategoryKnown(g, known)
  }

  function SurvivesFor(requested: seq<string>, known: seq<string>): Group -> bool {
    g => Eligible(g, requested) && CategoryKnown(g, known)
  }

  /** `validGroups`: the two filters one after the other. */
  function SelectGroups(groups: seq<Group>, requested: seq<string>, known: seq<string>): (r: seq<Group>)
    ensures forall g :: g in r <==> g in groups && Eligible(g, requested) && CategoryKnown(g, known)
  {
    var first := ArrayOps.Filter(groups, EligibleFor(requested));
    var r := ArrayOps.Filter(first, KnownFor(known));
    ArrayOps.FilterMembers(groups, EligibleFor(requested));
    ArrayOps.FilterMembers(first, KnownFor(known));
    r
  }

  /** The survivors keep their input order: the two filters are one filter by both conditions. */
  lemma SelectGroupsIsOneFilter(groups: seq<Group>, requested: seq<string>, known: seq<string>)
    ensures SelectGroups(groups, requested, known) == ArrayOps.Filter(groups, SurvivesFor(requested, known))
  {
    ArrayOps.FilterFilter(groups, EligibleFor(requested), KnownFor(known), SurvivesFor(requested, known));
  }

  // ------------------------------------------------------------ ranking

  /** `groups.sort(by Members || 0).slice(0, 10)`. */
  function Ranked(bucket: seq<Group>): (r: seq<Group>)
    ensures |r| == if |bucket| < MaxInviteCodes then |bucket| else MaxInviteCodes
  {
    ArrayOps.Take(ArrayOps.SortBy(bucket, MembersOrZero), MaxInviteCodes)
  }

  /** The published groups of a bucket: ascending by member count, ties in
      bucket order, drawn from the bucket, and no dropped group has fewer
      members than a kept one. */
  lemma RankedSpec(bucket: seq<Group>)
    ensures ArrayOps.SortedBy(Ranked(bucket), MembersOrZero)
    ensures multiset(Ranked(bucket)) <= multiset(bucket)
    ensures forall k :: ArrayOps.KeyClass(Ranked(bucket), MembersOrZero, k) <= ArrayOps.KeyClass(bucket, MembersOrZero, k)
    ensures forall x, i :: x in multiset(bucket) - multiset(Ranked(bucket)) && 0 <= i < |Ranked(bucket)|
                           ==> MembersOrZero(Ranked(bucket)[i]) <= MembersOrZero(x)
  {
    var sorted := ArrayOps.SortBy(bucket, MembersOrZero);
    RankedIsSortedPrefix(bucket, sorted, Ranked(bucket));
    RankedKeepsSmallest(bucket, sorted, Ranked(bucket));
  }

  lemma RankedIsSortedPrefix(bucket: seq<Group>, sorted: seq<Group>, r: seq<Group>)
    requires sorted == ArrayOps.SortBy(bucket, MembersOrZero)
    requires r <= sorted
    ensures ArrayOps.SortedBy(r, MembersOrZero)
    ensures multiset(r) <= multiset(bucket)
    ensures forall k :: ArrayOps.KeyClass(r, MembersOrZero, k) <= ArrayOps.KeyClass(bucket, MembersOrZero, k)
  {
    assert r == sorted[..|r|];
    assert sorted == r + sorted[|r|..];
    assert multiset(sorted) == multiset(r) + multiset(sorted[|r|..]);
    forall k
      ensures ArrayOps.KeyClass(r, MembersOrZero, k) <= ArrayOps.KeyClass(bucket, MembersOrZero, k)
    {
      ArrayOps.KeyClassOfPrefix(sorted, |r|, MembersOrZero, k);
      ArrayOps.SortByIsStable(bucket, MembersOrZero, k);
    }
  }

  lemma RankedKeepsSmallest(bucket: seq<Group>, sorted: seq<Group>, r: seq<Group>)
    requires sorted == ArrayOps.SortBy(bucket, MembersOrZero)
    requires r <= sorted
    ensures forall x, i :: x in multiset(bucket) - multiset(r) && 0 <= i < |r| ==> MembersOrZero(r[i]) <= MembersOrZero(x)
  {
    ArrayOps.SortedPrefixKeepsSmallest(bucket, sorted, MembersOrZero, r);
  }

  /** `groups[0]` after sorting. */
  function Leader(bucket: seq<Group>): Group
    requires bucket != []
  {
    ArrayOps.SortBy(bucket, MembersOrZero)[0]
  }

  /** The leader of a bucket is the earliest group, in bucket order, among
      those with the fewest members. */
  lemma LeaderIsFirstMinimal(bucket: seq<Group>)
    requires bucket != []
    ensures exists i :: 0 <= i < |bucket| && Leader(bucket) == bucket[i]
              && (forall j :: 0 <= j < |bucket| ==> MembersOrZero(bucket[i]) <= MembersOrZero(bucket[j]))
              && (forall j :: 0 <= j < i ==> MembersOrZero(bucket[j]) > MembersOrZero(bucket[i]))
  {
    ArrayOps.SortByHead(bucket, MembersOrZero);
  }

  /** The `InviteCodes` list of a bucket: one entry per ranked group. */
  function InviteCodes(bucket: seq<Group>): (r: seq<string>)
    ensures |r| == if |bucket| < MaxInviteCodes then |bucket| else MaxInviteCodes
    ensures forall i :: 0 <= i < |r| ==> r[i] == InviteEntry(Ranked(bucket)[i])
  {
    var ranked := Ranked(bucket);
    seq(|ranked|, i requires 0 <= i < |ranked| => InviteEntry(ranked[i]))
  }

  // ------------------------------------------------------------ the record

  function NamesCampaign(ck: string): Campaign -> bool {
    (c: Campaign) => Lower(c.sk) == Lower(ck)
  }

  /** `campaigns[i]` is the first campaign whose lower-cased SK equals the lower-cased `ck`. */
  predicate FirstNaming(campaigns: seq<Campaign>, ck: string, i: nat)
    requires i < |campaigns|
  {
    && Lower(campaigns[i].sk) == Lower(ck)
    && forall j :: 0 <= j < i ==> Lower(campaigns[j].sk) != Lower(ck)
  }

  /** `campaignItem?.DomainWhatsAppInviteLinks || ""`, where `campaignItem` is
      the first campaign whose lower-cased SK equals the campaign key. */
  function DomainFor(campaigns: seq<Campaign>, ck: string): (r: string)
    ensures (forall i :: 0 <= i < |campaigns| ==> Lower(campaigns[i].sk) != Lower(ck)) ==> r == ""
    ensures forall i :: 0 <= i < |campaigns| && FirstNaming(campaigns, ck, i) ==> r == OrEmpty(campaigns[i].domain)
  {
    match ArrayOps.FindIndex(campaigns, NamesCampaign(ck))
    case None => ""
    case Some(i) =>
      forall j | 0 <= j < |campaigns| && FirstNaming(campaigns, ck, j)
        ensures j == i
      {
        assert NamesCampaign(ck)(campaigns[j]) && NamesCampaign(ck)(campaigns[i]);
      }
      OrEmpty(campaigns[i].domain)
  }

  /** The record's sort key: the upper-cased campaign key alone for the
      category-less bucket, otherwise `CAMPAIGN#CATEGORY` upper-cased. */
  function SortKey(ck: string, kk: string): (r: string)
    ensures |ck| <= |r| && r[..|ck|] == Upper(ck)
    ensures kk == NoCategory <==> |r| == |ck|
  {
    if kk == NoCategory then Upper(ck) else Upper(ck) + "#" + Upper(kk)
  }

  /** Distinct buckets get distinct sort keys as long as no campaign key
      contains '#'. */
  lemma SortKeyInjective(ck1: string, kk1: string, ck2: string, kk2: string)
    requires IsLowerCase(ck1) && IsLowerCase(kk1) && IsLowerCase(ck2) && IsLowerCase(kk2)
    requires '#' !in ck1 && '#' !in ck2
    requires SortKey(ck1, kk1) == SortKey(ck2, kk2)
    ensures ck1 == ck2 && kk1 == kk2
  {
    var u1, u2 := Upper(ck1), Upper(ck2);
    UpperKeepsSeparator(ck1, '#');
    UpperKeepsSeparator(ck2, '#');
    if kk1 == NoCategory && kk2 == NoCategory {
      UpperInjectiveOnLowerCase(ck1, ck2);
    } else if kk1 != NoCategory && kk2 != NoCategory {
      JoinInjective(u1, Upper(kk1), u2, Upper(kk2), '#');
      UpperInjectiveOnLowerCase(ck1, ck2);
      UpperInjectiveOnLowerCase(kk1, kk2);
    }
  }

  /** A campaign key that contains '#' can collide with a campaign/category
      pair: the campaign "a#b" without category and the campaign "a" with the
      category "b" are written to the same record. */
  lemma SortKeyCollision()
    ensures SortKey("a#b", NoCategory) == SortKey("a", "b") == "A#B"
  {
    assert Upper("a#b") == "A#B";
    assert Upper("a") == "A" && Upper("b") == "B";
  }

  /** A real category spelled like the sentinel shares the category-less
      bucket: its groups are published with `Category` "" under the bare
      campaign key. */
  lemma SentinelCategoryCollision(g: Group)
    requires g.category == Some("No_Category")
    ensures CategoryKey(g) == NoCategory
  {
    assert Lower("No_Category") == NoCategory;
  }

  /** `itemToUpdate` for the bucket `(ck, kk)` (src/database.mjs:93-114). */
  function BuildItem(acc: string, ck: string, kk: string, bucket: seq<Group>, campaigns: seq<Campaign>, now: string): (item: Item)
    requires bucket != []
    ensures item.pk == InviteLinksPK && item.sk == SortKey(ck, kk)
    ensures item.category == Some(if kk == NoCategory then "" else kk)
  {
    Item(
      pk := InviteLinksPK,
      sk := SortKey(ck, kk),
      accountSK := Some(Upper(acc)),
      campaign := Leader(bucket).campaign,
      // src/database.mjs:113 overwrites the lower-cased key with the key itself
      category := Some(if kk == NoCategory then "" else kk),
      domain := Some(DomainFor(campaigns, ck)),
      inviteCodes := Some(InviteCodes(bucket)),
      updated := Some(now))
  }

  /** The record of a bucket, attribute by attribute: the upper-cased account
      ID, the `Campaign` of the earliest fewest-members group, the domain of
      the first campaign named like the bucket (or ""), one entry per ranked
      group, and the run time. */
  lemma BuildItemShape(acc: string, ck: string, kk: string, bucket: seq<Group>, campaigns: seq<Campaign>, now: string)
    requires bucket != []
    ensures var item := BuildItem(acc, ck, kk, bucket, campaigns, now);
      && item.accountSK == Some(Upper(acc))
      && (exists i :: 0 <= i < |bucket| && item.campaign == bucket[i].campaign
            && (forall j :: 0 <= j < |bucket| ==> MembersOrZero(bucket[i]) <= MembersOrZero(bucket[j]))
            && (forall j :: 0 <= j < i ==> MembersOrZero(bucket[j]) > MembersOrZero(bucket[i])))
      && item.domain.Some?
      && ((forall i :: 0 <= i < |campaigns| ==> Lower(campaigns[i].sk) != Lower(ck)) ==> item.domain.value == "")
      && (forall i :: 0 <= i < |campaigns| && FirstNaming(campaigns, ck, i) ==> item.domain.value == OrEmpty(campaigns[i].domain))
      && item.inviteCodes.Some?
      && |item.inviteCodes.value| == (if |bucket| < MaxInviteCodes then |bucket| else MaxInviteCodes)
      && (forall j :: 0 <= j < |item.inviteCodes.value| ==> item.inviteCodes.value[j] == InviteEntry(Ranked(bucket)[j]))
      && item.updated == Some(now)
  {
    LeaderIsFirstMinimal(bucket);
  }
}
