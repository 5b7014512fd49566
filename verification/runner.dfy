/** `updateInviteLinks` (src/database.mjs:31-153) as a whole: the input
    checks, the loop over the account entries, the three reads and the two
    write passes of each account, and the `try`/`catch` that turns every
    thrown error into `false`.  Storage is the main table as a `Table`; the
    per-account tables, the invite-links query, the service's answers to
    updates and the clock are inputs. */
module Runner {
  import opened Base
  import opened Text
  import opened Js
  import opened Entities
  import opened Store
  import opened Aggregation
  import opened Reconcile

  /** Everything the function reads but does not compute. */
  datatype Backend = Backend(
    tables: map<string, AccountTable>,   // the account tables, by table name; a missing one makes its queries throw
    query: (Table, string) -> seq<Key>,  // the invite-links query against the main table as it stands, by SK prefix
    replies: map<Key, Reply>,            // the service's answer to an update, by key; a missing key is acknowledged with 200
    clock: nat -> string)                // `new Date().toISOString()` for the i-th account entry

  /** The outcome of part of the run: the error that was thrown, if any, and
      the main table at that point (writes before a throw stay applied). */
  datatype Outcome = Outcome(error: Option<Error>, table: Table)

  /** The result of `updateInviteLinks` together with the main table afterwards. */
  datatype RunResult = RunResult(ok: bool, table: Table)

  /** One well-formed account entry: the account ID and the normalised campaign names. */
  datatype Entry = Entry(account: string, requested: seq<string>)

  /** The SK prefix of the reconciliation query (src/database.mjs:204): the
      account ID in upper case, then '#'. */
  function ListingPrefix(acc: string): (p: string)
    ensures |p| == |acc| + 1 && p[|acc|] == '#'
    ensures forall i :: 0 <= i < |acc| ==> !IsLowerLetter(p[i]) && LowerChar(p[i]) == LowerChar(acc[i])
  {
    Upper(acc) + "#"
  }

  /** `getAllCategoryInviteLinks(accountID)`, run against the main table `t`
      as it is when the query is sent. */
  function Listing(be: Backend, t: Table, acc: string): seq<Key> {
    be.query(t, ListingPrefix(acc))
  }

  /** The key condition of the query (src/database.mjs:198-206): an item of
      the main table in the partition `WHATSAPP#INVITELINKS` whose SK starts
      with `p`. */
  predicate UnderPrefix(t: Table, p: string, k: Key) {
    k in t && k.pk == InviteLinksPK && p <= k.sk
  }

  /** The query returns only items its key condition matches. */
  ghost predicate QuerySound(be: Backend) {
    forall t: Table, p: string, k: Key :: k in be.query(t, p) ==> UnderPrefix(t, p, k)
  }

  /** The query returns every item its key condition matches: the result
      fits in the single page the code reads. */
  ghost predicate QueryComplete(be: Backend) {
    forall t: Table, p: string, k: Key :: UnderPrefix(t, p, k) ==> k in be.query(t, p)
  }

  predicate IsStr(v: Value) { v.Str? }

  /** A list every element of which has a `replace` method. */
  predicate IsStringList(v: Value) {
    v.Arr? && forall i :: 0 <= i < |v.items| ==> IsStr(v.items[i])
  }

  /** The normalised campaign names of a list of strings. */
  function NormalizeAll(v: Value): (r: seq<string>)
    requires IsStringList(v)
    ensures |r| == |v.items|
    ensures forall i :: 0 <= i < |r| ==> r[i] == NormalizeCampaign(v.items[i].s)
  {
    seq(|v.items|, i requires 0 <= i < |v.items| => NormalizeCampaign(v.items[i].s))
  }

  /** src/database.mjs:41-42: the entry's first own key (`undefined`, printed
      "undefined", when it has none) and its campaign list, normalised.  A
      nullish entry, or a list that is not an array of strings, throws. */
  function ParseEntry(entry: Value): (r: Result<Entry>)
    ensures IsNullish(entry) ==> r == Err(TypeError)
    ensures r.Err? ==> r.error == TypeError
    ensures r.Ok? <==> (!IsNullish(entry) && IsStringList(Prop(entry, Render(FirstOwnKey(entry).value)).value))
    ensures r.Ok? ==> r.value.account == Render(FirstOwnKey(entry).value)
    ensures r.Ok? ==> r.value.requested == NormalizeAll(Prop(entry, r.value.account).value)
  {
    match FirstOwnKey(entry)
    case Err(e) => Err(e)
    case Ok(key) =>
      var acc := Render(key);
      var list := Prop(entry, acc).value;
      if IsStringList(list) then Ok(Entry(acc, NormalizeAll(list))) else Err(TypeError)
  }

  /** src/database.mjs:44-46: an entry with an empty account ID or no
      campaigns is passed over. */
  predicate Skipped(e: Entry) {
    e.account == "" || e.requested == []
  }

  /** The two write passes of an account, each write awaited in turn: the
      first rejected write throws, and the writes before it stay applied.
      The listing is read between the passes, from the table the upserts
      left, and every listed item whose SK is not in `valid` is cleared. */
  function WritePasses(be: Backend, t: Table, acc: string, upserts: seq<Item>, valid: set<string>, now: string): (r: Outcome)
    ensures r.error.None? || r.error == Some(WriteFailed)
  {
    var upserted := Commit(t, upserts, be.replies);
    if upserted.aborted then Outcome(Some(WriteFailed), upserted.table)
    else
      var clears := ClearingWrites(Listing(be, upserted.table, acc), valid, now);
      var cleared := Commit(upserted.table, clears, be.replies);
      Outcome(if cleared.aborted then Some(WriteFailed) else None, cleared.table)
  }

  /** When the service acknowledges everything, both passes apply in full,
      the clearing pass over the listing of the upserted table. */
  lemma WritePassesAllAcked(be: Backend, t: Table, acc: string, upserts: seq<Item>, valid: set<string>, now: string)
    requires AllAcked(be.replies)
    ensures WritePasses(be, t, acc, upserts, valid, now)
         == Outcome(None, Apply(t, upserts + ClearingWrites(Listing(be, Apply(t, upserts), acc), valid, now)))
  {
    var clears := ClearingWrites(Listing(be, Apply(t, upserts), acc), valid, now);
    CommitOutcome(t, upserts, be.replies);
    CommitOutcome(Apply(t, upserts), clears, be.replies);
    ApplyConcat(t, upserts, clears);
  }

  /** When the service rejects the update of some key, an account that writes
      that key throws: an upsert, or a clearing write of the listing read
      after the upserts. */
  lemma WritePassesRejected(be: Backend, t: Table, acc: string, upserts: seq<Item>, valid: set<string>, now: string, i: nat)
    requires var clears := ClearingWrites(Listing(be, Commit(t, upserts, be.replies).table, acc), valid, now);
      i < |upserts + clears| && !Accepted(be.replies, (upserts + clears)[i])
    ensures WritePasses(be, t, acc, upserts, valid, now).error == Some(WriteFailed)
  {
    var clears := ClearingWrites(Listing(be, Commit(t, upserts, be.replies).table, acc), valid, now);
    CommitOutcome(t, upserts, be.replies);
    if i < |upserts| {
      assert (upserts + clears)[i] == upserts[i];
    } else {
      assert (upserts + clears)[i] == clears[i - |upserts|];
      CommitOutcome(Commit(t, upserts, be.replies).table, clears, be.replies);
    }
  }

  /** One account: read its tables, upsert one record per bucket, list the
      invite-links items under the account's prefix, and clear the stale ones.
      The first query of a missing account table throws before any write. */
  function ProcessAccount(be: Backend, t: Table, acc: string, requested: seq<string>, now: string): (r: Outcome)
    ensures Lower(acc) !in be.tables ==> r == Outcome(Some(MissingTable), t)
    ensures r.error.None? || r.error == Some(MissingTable) || r.error == Some(WriteFailed)
  {
    if Lower(acc) !in be.tables then Outcome(Some(MissingTable), t)
    else
      var tbl := be.tables[Lower(acc)];
      WritePasses(be, t, acc, Upserts(acc, requested, tbl, now), ValidSortKeys(tbl, requested), now)
  }

  /** One iteration of the `for...of` loop at src/database.mjs:40-146. */
  function ProcessEntry(be: Backend, t: Table, entry: Value, now: string): (r: Outcome)
    ensures ParseEntry(entry).Err? ==> r == Outcome(Some(TypeError), t)
    ensures ParseEntry(entry).Ok? && Skipped(ParseEntry(entry).value) ==> r == Outcome(None, t)
  {
    match ParseEntry(entry)
    case Err(e) => Outcome(Some(e), t)
    case Ok(p) =>
      if Skipped(p) then Outcome(None, t)
      else ProcessAccount(be, t, p.account, p.requested, now)
  }

  /** A loop over entries whose `i`-th iteration is `step(table, entry, i)`;
      the first error ends it. */
  function Loop(step: (Table, Value, nat) -> Outcome, t: Table, entries: seq<Value>, first: nat): (r: Outcome)
    ensures (forall t': Table, e: Value, i: nat :: step(t', e, i).error.None?) ==> r.error.None?
    decreases |entries|
  {
    if entries == [] then Outcome(None, t)
    else
      var o := step(t, entries[0], first);
      if o.error.Some? then o
      else Loop(step, o.table, entries[1..], first + 1)
  }

  function EntryStep(be: Backend): (Table, Value, nat) -> Outcome {
    (t: Table, e: Value, i: nat) => ProcessEntry(be, t, e, be.clock(i))
  }

  /** The loop over the entries, from the `first`-th on. */
  function ProcessEntries(be: Backend, t: Table, entries: seq<Value>, first: nat): (r: Outcome)
    ensures entries == [] ==> r == Outcome(None, t)
  {
    Loop(EntryStep(be), t, entries, first)
  }

  /** `updateInviteLinks(event)` with the configured table name `tableName`.
      An unset name throws in `initializeClient`; a nullish event throws on
      `event.credentials` (an undefined event defaults to `{}`); `accounts`
      must be a non-empty array.  All three return false before any storage
      access. */
  function UpdateInviteLinks(be: Backend, tableName: Option<string>, t: Table, event: Value): (r: RunResult)
    ensures !Present(tableName) ==> r == RunResult(false, t)
    ensures !AccountsValid(event) ==> r == RunResult(false, t)
    ensures Present(tableName) && AccountsValid(event) ==>
      var o := ProcessEntries(be, t, Prop(event, "accounts").value.items, 0);
      r.ok == o.error.None? && r.table == o.table
  {
    if !Present(tableName) then RunResult(false, t)
    else
      var ev := if event.Undefined? then Obj(EmptyDict()) else event;
      match Prop(ev, "accounts")
      case Err(_) => RunResult(false, t)
      case Ok(accounts) =>
        if !accounts.Arr? || accounts.items == [] then RunResult(false, t)
        else
          var o := ProcessEntries(be, t, accounts.items, 0);
          RunResult(o.error.None?, o.table)
  }

  /** `event.accounts` is a non-empty array. */
  predicate AccountsValid(event: Value) {
    !IsNullish(event) && Prop(event, "accounts").Ok?
    && Prop(event, "accounts").value.Arr? && Prop(event, "accounts").value.items != []
  }

  // ------------------------------------------------------------ the loop

  /** Running two runs of entries back to back is running their concatenation:
      the second part starts from the table the first left, unless the first threw. */
  lemma {:induction false} LoopConcat(step: (Table, Value, nat) -> Outcome, t: Table, a: seq<Value>, b: seq<Value>, first: nat)
    ensures var o := Loop(step, t, a, first);
      Loop(step, t, a + b, first) == if o.error.Some? then o else Loop(step, o.table, b, first + |a|)
    decreases |a|
  {
    if a == [] {
      assert a + b == b;
    } else {
      assert (a + b)[0] == a[0];
      assert (a + b)[1..] == a[1..] + b;
      var o := step(t, a[0], first);
      if o.error.None? {
        LoopConcat(step, o.table, a[1..], b, first + 1);
      }
    }
  }

  /** A loop whose steps fail exactly on the entries `bad` picks out finishes
      without an error exactly when no entry is bad. */
  lemma {:induction false} LoopSucceeds(step: (Table, Value, nat) -> Outcome, good: Value -> bool, t: Table, entries: seq<Value>, first: nat)
    requires forall t: Table, e: Value, i: nat :: step(t, e, i).error.None? <==> good(e)
    ensures Loop(step, t, entries, first).error.None? <==> forall i :: 0 <= i < |entries| ==> good(entries[i])
    decreases |entries|
  {
    if entries != [] {
      var o := step(t, entries[0], first);
      LoopSucceeds(step, good, o.table, entries[1..], first + 1);
      assert forall i :: 1 <= i < |entries| ==> entries[i] == entries[1..][i - 1];
    }
  }

  lemma ProcessEntriesConcat(be: Backend, t: Table, a: seq<Value>, b: seq<Value>, first: nat)
    ensures var o := ProcessEntries(be, t, a, first);
      ProcessEntries(be, t, a + b, first) == if o.error.Some? then o else ProcessEntries(be, o.table, b, first + |a|)
  {
    LoopConcat(EntryStep(be), t, a, b, first);
  }

  /** An entry that can run to the end: it parses, and unless it is passed
      over, its account table exists. */
  predicate Runnable(be: Backend, entry: Value) {
    ParseEntry(entry).Ok?
    && (Skipped(ParseEntry(entry).value) || Lower(ParseEntry(entry).value.account) in be.tables)
  }

  /** The service acknowledges every update. */
  predicate AllAcked(replies: map<Key, Reply>) {
    forall k :: k in replies ==> replies[k].Acked?
  }

  /** The main table between an account's two write passes when every
      upsert is acknowledged; the listing is read from it. */
  function Upserted(be: Backend, t: Table, acc: string, requested: seq<string>, now: string): Table
    requires Lower(acc) in be.tables
  {
    Apply(t, Upserts(acc, requested, be.tables[Lower(acc)], now))
  }

  /** When the service acknowledges everything, one account applies its whole
      plan: the upserts, then the clearing writes for the items listed after them. */
  lemma ProcessAccountAllAcked(be: Backend, t: Table, acc: string, requested: seq<string>, now: string)
    requires AllAcked(be.replies) && Lower(acc) in be.tables
    ensures ProcessAccount(be, t, acc, requested, now)
         == Outcome(None, Apply(t, AccountPlan(acc, requested, be.tables[Lower(acc)],
                                               Listing(be, Upserted(be, t, acc, requested, now), acc), now)))
  {
    var tbl := be.tables[Lower(acc)];
    WritePassesAllAcked(be, t, acc, Upserts(acc, requested, tbl, now), ValidSortKeys(tbl, requested), now);
  }

  /** When the service acknowledges everything, an entry fails exactly when it is not runnable. */
  lemma ProcessEntryAllAcked(be: Backend, t: Table, entry: Value, now: string)
    requires AllAcked(be.replies)
    ensures ProcessEntry(be, t, entry, now).error.None? <==> Runnable(be, entry)
  {
    var p := ParseEntry(entry);
    if p.Ok? && !Skipped(p.value) && Lower(p.value.account) in be.tables {
      ProcessAccountAllAcked(be, t, p.value.account, p.value.requested, now);
    }
  }

  /** When the service acknowledges everything, the loop finishes without an
      error exactly when every entry is runnable. */
  lemma ProcessEntriesSucceeds(be: Backend, t: Table, entries: seq<Value>, first: nat)
    requires AllAcked(be.replies)
    ensures ProcessEntries(be, t, entries, first).error.None?
        <==> forall i :: 0 <= i < |entries| ==> Runnable(be, entries[i])
  {
    forall t': Table, e: Value, i: nat
      ensures EntryStep(be)(t', e, i).error.None? <==> Runnable(be, e)
    {
      ProcessEntryAllAcked(be, t', e, be.clock(i));
    }
    LoopSucceeds(EntryStep(be), e => Runnable(be, e), t, entries, first);
  }

  /** The first iteration of a loop, then the rest. */
  lemma LoopCons(step: (Table, Value, nat) -> Outcome, t: Table, x: Value, rest: seq<Value>, first: nat)
    ensures var o := step(t, x, first);
      Loop(step, t, [x] + rest, first) == if o.error.Some? then o else Loop(step, o.table, rest, first + 1)
  {
    assert ([x] + rest)[0] == x;
    assert ([x] + rest)[1..] == rest;
  }

  /** A step that throws after the run of `before` ends the loop there. */
  lemma LoopStops(step: (Table, Value, nat) -> Outcome, t: Table, before: seq<Value>, x: Value, after: seq<Value>, first: nat, i: nat, e: Error)
    requires i == first + |before|
    requires Loop(step, t, before, first).error.None?
    requires step(Loop(step, t, before, first).table, x, i) == Outcome(Some(e), Loop(step, t, before, first).table)
    ensures Loop(step, t, before + [x] + after, first) == Outcome(Some(e), Loop(step, t, before, first).table)
  {
    assert before + [x] + after == before + ([x] + after);
    LoopConcat(step, t, before, [x] + after, first);
    LoopCons(step, Loop(step, t, before, first).table, x, after, first + |before|);
  }

  /** An entry that throws ends the run with `false`, after the writes of the
      entries before it and without any write of its own or of a later entry. */
  lemma BadEntryStopsRun(be: Backend, t: Table, before: seq<Value>, bad: Value, after: seq<Value>)
    requires ParseEntry(bad).Err?
    requires ProcessEntries(be, t, before, 0).error.None?
    ensures ProcessEntries(be, t, before + [bad] + after, 0)
         == Outcome(Some(TypeError), ProcessEntries(be, t, before, 0).table)
  {
    var step := EntryStep(be);
    var o := Loop(step, t, before, 0);
    assert o == ProcessEntries(be, t, before, 0);
    assert o.error.None?;
    ThrowingStep(be, o.table, bad, |before|);
    assert step(o.table, bad, |before|) == Outcome(Some(TypeError), o.table);
    LoopStops(step, t, before, bad, after, 0, |before|, TypeError);
  }

  lemma ThrowingStep(be: Backend, t: Table, bad: Value, i: nat)
    requires ParseEntry(bad).Err?
    ensures EntryStep(be)(t, bad, i) == Outcome(Some(TypeError), t)
  {
    assert EntryStep(be)(t, bad, i) == ProcessEntry(be, t, bad, be.clock(i));
  }

  /** An entry that is passed over neither reads nor writes: the run goes on
      from the same table. */
  lemma SkippedEntryIsInert(be: Backend, t: Table, entry: Value, rest: seq<Value>, first: nat)
    requires ParseEntry(entry).Ok? && Skipped(ParseEntry(entry).value)
    ensures ProcessEntries(be, t, [entry] + rest, first) == ProcessEntries(be, t, rest, first + 1)
  {
    LoopCons(EntryStep(be), t, entry, rest, first);
    assert EntryStep(be)(t, entry, first) == ProcessEntry(be, t, entry, be.clock(first));
  }

  /** An entry without own keys always throws: its list is read from the
      property "undefined", which it cannot have. */
  lemma KeylessEntryThrows(entry: Value)
    requires FirstOwnKey(entry) == Ok(None)
    requires entry.Obj? ==> entry.props.Valid()
    ensures ParseEntry(entry) == Err(TypeError)
  {
    assert !IsArrayIndex("undefined") by {
      assert !IsDigit("undefined"[0]);
    }
  }

  // ------------------------------------------------------------ one account

  /** After an account's iteration with every write acknowledged, each listed
      item whose SK was not produced holds an empty code list, the run time,
      and blank `Campaign` and `Category`, and keeps `Domain` and `AccountSK`. */
  lemma ListedStaleItemCleared(be: Backend, t: Table, acc: string, requested: seq<string>, now: string, k: Key)
    requires AllAcked(be.replies) && Lower(acc) in be.tables && now != ""
    requires k in Listing(be, Upserted(be, t, acc, requested, now), acc)
    requires k.sk !in ValidSortKeys(be.tables[Lower(acc)], requested)
    ensures var after := ProcessAccount(be, t, acc, requested, now).table;
      && View(after, k, "InviteCodes") == Some(L([]))
      && View(after, k, "Updated") == Some(S(now))
      && View(after, k, "Campaign") == Some(S(""))
      && View(after, k, "Category") == Some(S(""))
      && View(after, k, "Domain") == View(t, k, "Domain")
      && View(after, k, "AccountSK") == View(t, k, "AccountSK")
  {
    ProcessAccountAllAcked(be, t, acc, requested, now);
    StaleItemsCleared(t, acc, requested, be.tables[Lower(acc)],
                      Listing(be, Upserted(be, t, acc, requested, now), acc), now, k);
  }

  /** With a complete query, every invite-links record under the account's
      prefix that the account does not produce is cleared, whatever run or
      account wrote it. */
  lemma StaleRecordUnderPrefixCleared(be: Backend, t: Table, acc: string, requested: seq<string>, now: string, k: Key)
    requires AllAcked(be.replies) && QueryComplete(be) && Lower(acc) in be.tables && now != ""
    requires UnderPrefix(t, ListingPrefix(acc), k)
    requires k.sk !in ValidSortKeys(be.tables[Lower(acc)], requested)
    ensures var after := ProcessAccount(be, t, acc, requested, now).table;
      && View(after, k, "InviteCodes") == Some(L([]))
      && View(after, k, "Updated") == Some(S(now))
      && View(after, k, "Campaign") == Some(S(""))
      && View(after, k, "Category") == Some(S(""))
      && View(after, k, "Domain") == View(t, k, "Domain")
      && View(after, k, "AccountSK") == View(t, k, "AccountSK")
  {
    UpsertsMiss(acc, requested, be.tables[Lower(acc)], now, k);
    ApplyUntouched(t, Upserts(acc, requested, be.tables[Lower(acc)], now), k);
    assert UnderPrefix(Upserted(be, t, acc, requested, now), ListingPrefix(acc), k);
    ListedStaleItemCleared(be, t, acc, requested, now, k);
  }

  /** No upsert of the account writes a key whose SK the account does not produce. */
  lemma UpsertsMiss(acc: string, requested: seq<string>, tbl: AccountTable, now: string, k: Key)
    requires k.sk !in ValidSortKeys(tbl, requested)
    ensures !Touches(Upserts(acc, requested, tbl, now), k)
  {
    ValidSortKeysAreUpserted(acc, requested, tbl, now);
  }

  /** An item the listing does not return, and whose SK the account does not
      produce, comes out of the account's iteration exactly as it went in. */
  lemma UnlistedItemKept(be: Backend, t: Table, acc: string, requested: seq<string>, now: string, k: Key)
    requires AllAcked(be.replies) && Lower(acc) in be.tables
    requires k !in Listing(be, Upserted(be, t, acc, requested, now), acc)
    requires k.sk !in ValidSortKeys(be.tables[Lower(acc)], requested)
    ensures var after := ProcessAccount(be, t, acc, requested, now).table;
      (k in after <==> k in t) && (k in t ==> after[k] == t[k])
  {
    var tbl := be.tables[Lower(acc)];
    var ups := Upserts(acc, requested, tbl, now);
    var fetched := Listing(be, Upserted(be, t, acc, requested, now), acc);
    var clears := ClearingWrites(fetched, ValidSortKeys(tbl, requested), now);
    ProcessAccountAllAcked(be, t, acc, requested, now);
    ValidSortKeysAreUpserted(acc, requested, tbl, now);
    ClearingWritesCount(fetched, ValidSortKeys(tbl, requested), now);
    PlanAvoids(t, ups, clears, k);
  }

  /** With a sound query, a record outside the account's prefix, or outside
      the invite-links partition, that the account does not produce comes out
      of the account's iteration exactly as it went in. */
  lemma OutsidePrefixKept(be: Backend, t: Table, acc: string, requested: seq<string>, now: string, k: Key)
    requires AllAcked(be.replies) && QuerySound(be) && Lower(acc) in be.tables
    requires !(k.pk == InviteLinksPK && ListingPrefix(acc) <= k.sk)
    requires k.sk !in ValidSortKeys(be.tables[Lower(acc)], requested)
    ensures var after := ProcessAccount(be, t, acc, requested, now).table;
      (k in after <==> k in t) && (k in t ==> after[k] == t[k])
  {
    UnlistedItemKept(be, t, acc, requested, now, k);
  }

  lemma PlanAvoids(t: Table, ups: seq<Item>, clears: seq<Item>, k: Key)
    requires forall i :: 0 <= i < |ups| ==> ups[i].sk != k.sk
    requires multiset(KeysOf(clears))[k] == 0
    ensures (k in Apply(t, ups + clears) <==> k in t) && (k in t ==> Apply(t, ups + clears)[k] == t[k])
  {
    forall i | 0 <= i < |ups + clears|
      ensures KeyOf((ups + clears)[i]) != k
    {
      if i < |ups| {
        assert (ups + clears)[i] == ups[i];
      } else {
        var j := i - |ups|;
        assert (ups + clears)[i] == clears[j];
        assert KeysOf(clears)[j] == KeyOf(clears[j]);
        assert KeysOf(clears)[j] in multiset(KeysOf(clears));
      }
    }
    ApplyUntouched(t, ups + clears, k);
  }

  /** The listing is read under the prefix "ACCOUNT#", while the records the
      account writes are keyed by campaign and category alone: for the
      account "acme" and the campaign "promo", the record "PROMO" lies
      outside the prefix "ACME#", so by `OutsidePrefixKept` the account never
      clears it once the campaign stops producing it. */
  lemma ListingPrefixMissesRecords()
    ensures ListingPrefix("acme") == "ACME#"
    ensures SortKey("promo", NoCategory) == "PROMO"
    ensures !(ListingPrefix("acme") <= SortKey("promo", NoCategory))
  {
    assert Upper("acme") == "ACME";
    assert Upper("promo") == "PROMO";
  }
}
