/** The items read from an account's table (src/database.mjs:155-195) and
    the keys the aggregation pass derives from them.  Optional string
    attributes are `Option<string>`, so that an absent attribute stays apart
    from an empty string: a truthiness test treats the two alike, but a
    template such as `${g.Name}` renders an absent value as "undefined". */
module Entities {
  import opened Base
  import opened Text
  import ArrayOps

  /** A `WHATSAPP#GROUP` item. */
  datatype Group = Group(
    sk: string,
    name: Option<string>,
    campaign: Option<string>,
    category: Option<string>,
    publishable: bool,
    inviteCode: Option<string>,
    inviteLink: Option<string>,
    members: Option<int>)

  /** A `CAMPAIGN` item. */
  datatype Campaign = Campaign(sk: string, domain: Option<string>)

  /** A `WHATSAPP#GROUPCATEGORY` item. */
  datatype Category = Category(sk: string)

  /** What the three queries against one account's table return. */
  datatype AccountTable = AccountTable(
    campaigns: seq<Campaign>,
    groups: seq<Group>,
    categories: seq<Category>)

  /** `${a}` in a template literal: a missing attribute prints as "undefined". */
  function Render(a: Option<string>): string {
    a.GetOr("undefined")
  }

  /** The bucket key of a category-less group.  A real category that
      lower-cases to this string lands in the same bucket. */
  const NoCategory: string := "no_category"

  /** `c.replace(/\s/g, "").toLowerCase()`, applied both to the requested
      campaign names and to a group's `Campaign`. */
  function NormalizeCampaign(s: string): (r: string)
    ensures IsLowerCase(r) && NoSpace(r)
    ensures forall c :: c in s && !IsSpace(c) && !IsUpperLetter(c) ==> c in r
  {
    var stripped := StripSpace(s);
    LowerKeepsSpaceFree(stripped);
    var r := Lower(stripped);
    assert forall i :: 0 <= i < |stripped| && !IsUpperLetter(stripped[i]) ==> r[i] == stripped[i];
    r
  }

  /** A normalised name is the lower-cased input with its whitespace filtered
      out: lower-casing and stripping may be done in either order. */
  lemma NormalizeCampaignIsFilter(s: string)
    ensures NormalizeCampaign(s) == ArrayOps.Filter(Lower(s), NotSpace)
  {
    LowerStripCommute(s);
    StripSpaceIsFilter(Lower(s));
  }

  /** Normalising twice is normalising once. */
  lemma NormalizeCampaignIdempotent(s: string)
    ensures NormalizeCampaign(NormalizeCampaign(s)) == NormalizeCampaign(s)
  {
    var n := NormalizeCampaign(s);
    StripSpaceKeepsSpaceFree(n);
    LowerKeepsLowerCase(n);
  }

  /** The first-level bucket of a group: its normalised `Campaign`. */
  function CampaignKey(g: Group): string {
    NormalizeCampaign(g.campaign.GetOr(""))
  }

  /** The second-level bucket of a group: its lower-cased `Category`, which
      is NOT whitespace-stripped, or the sentinel when it has none. */
  function CategoryKey(g: Group): (r: string)
    ensures IsLowerCase(r)
    ensures !Present(g.category) ==> r == NoCategory
    ensures Present(g.category) ==> |r| == |g.category.value| > 0
    ensures Present(g.category) ==> SameUpToCase(r, g.category.value)
  {
    if Present(g.category) then Lower(g.category.value) else NoCategory
  }

  /** Two groups with categories share a category bucket exactly when their
      categories are equal ignoring ASCII case; whitespace still counts. */
  lemma CategoryBucketsIgnoreCase(g1: Group, g2: Group)
    requires Present(g1.category) && Present(g2.category)
    ensures CategoryKey(g1) == CategoryKey(g2) <==> SameUpToCase(g1.category.value, g2.category.value)
  {
    LowerEqualIff(g1.category.value, g2.category.value);
  }

  /** `a.Members || 0`. */
  function MembersOrZero(g: Group): int {
    g.members.GetOr(0)
  }

  /** `g.InviteCode || g.InviteLink`. */
  function InviteTarget(g: Group): (r: string)
    ensures Present(g.inviteCode) ==> r == g.inviteCode.value
    ensures !Present(g.inviteCode) && Present(g.inviteLink) ==> r == g.inviteLink.value
  {
    if Present(g.inviteCode) then g.inviteCode.value else Render(g.inviteLink)
  }

  /** One `InviteCodes` entry: `${g.SK}|${g.Name}|${g.InviteCode || g.InviteLink}`. */
  function InviteEntry(g: Group): string {
    g.sk + "|" + Render(g.name) + "|" + InviteTarget(g)
  }

  /** Reading an entry back: splitting on '|' yields the group's SK, its name and
      its code (or link), provided none of the three contains '|' itself. */
  lemma InviteEntryRoundTrip(g: Group)
    requires '|' !in g.sk && '|' !in Render(g.name) && '|' !in InviteTarget(g)
    ensures Split(InviteEntry(g), '|') == [g.sk, Render(g.name), InviteTarget(g)]
  {
    var name, code := Render(g.name), InviteTarget(g);
    assert InviteEntry(g) == g.sk + ['|'] + (name + ['|'] + code);
    SplitJoin(g.sk, name + ['|'] + code, '|');
    SplitJoin(name, code, '|');
  }
}
