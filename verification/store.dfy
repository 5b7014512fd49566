/** The main table as an abstract map from primary key to attributes, and
    `updateInviteLinksItem` (src/database.mjs:213-271): a partial `SET`
    update whose attribute list depends on which fields the item carries. */
module Store {
  import opened Base

  datatype AttrValue = S(s: string) | L(items: seq<string>) | N(n: int) | B(b: bool)

  type Record = map<string, AttrValue>

  datatype Key = Key(pk: string, sk: string)

  type Table = map<Key, Record>

  /** The object handed to `updateInviteLinksItem`.  Every non-key field may
      be absent, and absence is kept apart from an empty value. */
  datatype Item = Item(
    pk: string,
    sk: string,
    accountSK: Option<string>,
    campaign: Option<string>,
    category: Option<string>,
    domain: Option<string>,
    inviteCodes: Option<seq<string>>,
    updated: Option<string>)

  function KeyOf(item: Item): Key {
    Key(item.pk, item.sk)
  }

  /** The attributes `updateInviteLinksItem` can ever name in its SET clause. */
  const UpdatableAttributes: set<string> :=
    {"AccountSK", "Campaign", "Category", "Domain", "InviteCodes", "Updated"}

  /** The assignments of the SET clause built at src/database.mjs:218-238. */
  function SetClause(item: Item): (m: map<string, AttrValue>)
    ensures m.Keys <= UpdatableAttributes
  {
    var withAccount := if Present(item.accountSK) then map["AccountSK" := S(item.accountSK.value)] else map[];
    var withNames := withAccount["Campaign" := S(OrEmpty(item.campaign))]["Category" := S(OrEmpty(item.category))];
    var withDomain := if item.domain.Some? then withNames["Domain" := S(OrEmpty(item.domain))] else withNames;
    var withCodes := if item.inviteCodes.Some? then withDomain["InviteCodes" := L(item.inviteCodes.value)] else withDomain;
    if Present(item.updated) then withCodes["Updated" := S(item.updated.value)] else withCodes
  }

  /** An update of a key that does not exist yet starts from the key attributes alone. */
  function NewRecord(k: Key): Record {
    map["PK" := S(k.pk), "SK" := S(k.sk)]
  }

  /** The record an update at `k` starts from. */
  function Prior(t: Table, k: Key): Record {
    if k in t then t[k] else NewRecord(k)
  }

  function Attr(r: Record, a: string): Option<AttrValue> {
    if a in r then Some(r[a]) else None
  }

  /** The `UpdateCommand` sent for `item`: only the attributes the presence
      rules select change, on the item's key alone. */
  function UpdateItem(t: Table, item: Item): (r: Table)
    ensures r.Keys == t.Keys + {KeyOf(item)}
    ensures forall k :: k in t && k != KeyOf(item) ==> r[k] == t[k]
    ensures var now, before := r[KeyOf(item)], Prior(t, KeyOf(item));
      && Attr(now, "Campaign") == Some(S(OrEmpty(item.campaign)))
      && Attr(now, "Category") == Some(S(OrEmpty(item.category)))
      && Attr(now, "AccountSK") == (if Present(item.accountSK) then Some(S(item.accountSK.value)) else Attr(before, "AccountSK"))
      && Attr(now, "Domain") == (if item.domain.Some? then Some(S(OrEmpty(item.domain))) else Attr(before, "Domain"))
      && Attr(now, "InviteCodes") == (if item.inviteCodes.Some? then Some(L(item.inviteCodes.value)) else Attr(before, "InviteCodes"))
      && Attr(now, "Updated") == (if Present(item.updated) then Some(S(item.updated.value)) else Attr(before, "Updated"))
      && forall a :: a !in UpdatableAttributes ==> Attr(now, a) == Attr(before, a)
  {
    var k := KeyOf(item);
    AttrOfMerge(Prior(t, k), SetClause(item));
    t[k := Prior(t, k) + SetClause(item)]
  }

  /** A SET clause overrides exactly the attributes it names. */
  lemma AttrOfMerge(before: Record, m: map<string, AttrValue>)
    ensures forall a :: Attr(before + m, a) == if a in m then Some(m[a]) else Attr(before, a)
  {
  }

  /** What the storage service answers to one update. */
  datatype Reply = Acked(status: int) | Rejected

  datatype WriteOutcome = Written(ok: bool, table: Table) | Raised

  /** `updateInviteLinksItem`: a rejected update throws out of the function;
      an acknowledged one is applied, and the function returns whether the
      acknowledgement carried HTTP status 200. */
  function UpdateInviteLinksItem(t: Table, item: Item, reply: Reply): (r: WriteOutcome)
    ensures r.Raised? <==> reply.Rejected?
    ensures r.Written? ==> (r.ok <==> reply.status == 200)
    ensures r.Written? ==> r.table == UpdateItem(t, item)
  {
    match reply
    case Rejected => Raised
    case Acked(status) => Written(status == 200, UpdateItem(t, item))
  }

  /** A clearing write names only the key, an empty code list and the run time:
      `InviteCodes` becomes empty and `Campaign`/`Category` become "", while
      `Domain` and `AccountSK` keep whatever they held. */
  lemma ClearingWriteEffect(t: Table, k: Key, now: string)
    requires now != ""
    ensures var r := UpdateItem(t, Item(k.pk, k.sk, None, None, None, None, Some([]), Some(now)))[k];
      && Attr(r, "InviteCodes") == Some(L([]))
      && Attr(r, "Updated") == Some(S(now))
      && Attr(r, "Campaign") == Some(S("")) && Attr(r, "Category") == Some(S(""))
      && Attr(r, "Domain") == Attr(Prior(t, k), "Domain")
      && Attr(r, "AccountSK") == Attr(Prior(t, k), "AccountSK")
  {
  }

  // ------------------------------------------------------------ sequences of writes

  /** The table after the writes of `ws`, in order, all acknowledged. */
  function Apply(t: Table, ws: seq<Item>): Table
    decreases ws
  {
    if ws == [] then t else Apply(UpdateItem(t, ws[0]), ws[1..])
  }

  function ReplyFor(replies: map<Key, Reply>, k: Key): Reply {
    if k in replies then replies[k] else Acked(200)
  }

  predicate Accepted(replies: map<Key, Reply>, w: Item) {
    ReplyFor(replies, KeyOf(w)).Acked?
  }

  /** How many writes, from the front, the service acknowledges before the
      first one it rejects. */
  function AcceptedPrefix(ws: seq<Item>, replies: map<Key, Reply>): (n: nat)
    ensures n <= |ws|
    ensures forall j :: 0 <= j < n ==> Accepted(replies, ws[j])
    ensures n < |ws| ==> !Accepted(replies, ws[n])
  {
    if ws == [] || !Accepted(replies, ws[0]) then 0
    else 1 + AcceptedPrefix(ws[1..], replies)
  }

  datatype Committed = Committed(aborted: bool, table: Table)

  /** Issuing the writes one after another with `await`: the first rejected
      write throws, and the writes before it stay applied. */
  function Commit(t: Table, ws: seq<Item>, replies: map<Key, Reply>): (r: Committed)
    ensures r.aborted <==> AcceptedPrefix(ws, replies) < |ws|
    ensures r.table == Apply(t, ws[..AcceptedPrefix(ws, replies)])
    decreases ws
  {
    if ws == [] then Committed(false, t)
    else match UpdateInviteLinksItem(t, ws[0], ReplyFor(replies, KeyOf(ws[0])))
      case Raised => Committed(true, t)
      case Written(_, t1) =>
        assert ws[..AcceptedPrefix(ws, replies)][1..] == ws[1..][..AcceptedPrefix(ws[1..], replies)];
        Commit(t1, ws[1..], replies)
  }

  /** A run in which every write is acknowledged applies all of them, and
      one that aborts has hit a rejected write. */
  lemma CommitOutcome(t: Table, ws: seq<Item>, replies: map<Key, Reply>)
    ensures !Commit(t, ws, replies).aborted <==> forall i :: 0 <= i < |ws| ==> Accepted(replies, ws[i])
    ensures !Commit(t, ws, replies).aborted ==> Commit(t, ws, replies).table == Apply(t, ws)
  {
    assert ws[..|ws|] == ws;
  }

  // ------------------------------------------------------------ last writer wins

  /** The value the last write of `ws` that names attribute `a` on key `k` assigns. */
  function LastSet(ws: seq<Item>, k: Key, a: string): Option<AttrValue> {
    if ws == [] then None
    else
      var later := LastSet(ws[1..], k, a);
      if later.Some? then later
      else if KeyOf(ws[0]) == k && a in SetClause(ws[0]) then Some(SetClause(ws[0])[a])
      else None
  }

  predicate Touches(ws: seq<Item>, k: Key) {
    exists i :: 0 <= i < |ws| && KeyOf(ws[i]) == k
  }

  function View(t: Table, k: Key, a: string): Option<AttrValue> {
    if k in t then Attr(t[k], a) else None
  }

  /** The value of `a` at `k` when no write of the sequence names it. */
  function Untouched(t: Table, ws: seq<Item>, k: Key, a: string): Option<AttrValue> {
    if k in t then Attr(t[k], a)
    else if Touches(ws, k) then Attr(NewRecord(k), a)
    else None
  }

  /** Per key and attribute, the table after a sequence of writes holds the
      value of the last write that named it, and otherwise what it held before. */
  lemma {:induction false} ApplyLastWriterWins(t: Table, ws: seq<Item>, k: Key, a: string)
    ensures k in Apply(t, ws) <==> k in t || Touches(ws, k)
    ensures View(Apply(t, ws), k, a)
         == if LastSet(ws, k, a).Some? then LastSet(ws, k, a) else Untouched(t, ws, k, a)
    decreases ws
  {
    if ws != [] {
      var t1 := UpdateItem(t, ws[0]);
      ApplyLastWriterWins(t1, ws[1..], k, a);
      assert Touches(ws, k) <==> KeyOf(ws[0]) == k || Touches(ws[1..], k) by {
        if Touches(ws[1..], k) {
          var i :| 0 <= i < |ws[1..]| && KeyOf(ws[1..][i]) == k;
          assert KeyOf(ws[i + 1]) == k;
        }
        if Touches(ws, k) && KeyOf(ws[0]) != k {
          var i :| 0 <= i < |ws| && KeyOf(ws[i]) == k;
          assert KeyOf(ws[1..][i - 1]) == k;
        }
      }
    }
  }

  lemma {:induction false} ApplyConcat(t: Table, a: seq<Item>, b: seq<Item>)
    ensures Apply(t, a + b) == Apply(Apply(t, a), b)
    decreases a
  {
    if a == [] {
      assert a + b == b;
    } else {
      assert (a + b)[0] == a[0];
      assert (a + b)[1..] == a[1..] + b;
      ApplyConcat(UpdateItem(t, a[0]), a[1..], b);
    }
  }

  lemma {:induction false} LastSetConcat(a: seq<Item>, b: seq<Item>, k: Key, x: string)
    ensures LastSet(a + b, k, x) == if LastSet(b, k, x).Some? then LastSet(b, k, x) else LastSet(a, k, x)
  {
    if a == [] {
      assert a + b == b;
    } else {
      assert (a + b)[0] == a[0];
      assert (a + b)[1..] == a[1..] + b;
      LastSetConcat(a[1..], b, k, x);
    }
  }

  lemma TouchesConcat(a: seq<Item>, b: seq<Item>, k: Key)
    ensures Touches(a + b, k) <==> Touches(a, k) || Touches(b, k)
  {
    if Touches(a + b, k) {
      var i :| 0 <= i < |a + b| && KeyOf((a + b)[i]) == k;
      if i >= |a| {
        assert KeyOf(b[i - |a|]) == k;
      }
    }
    if Touches(b, k) {
      var i :| 0 <= i < |b| && KeyOf(b[i]) == k;
      assert KeyOf((a + b)[i + |a|]) == k;
    }
    if Touches(a, k) {
      var i :| 0 <= i < |a| && KeyOf(a[i]) == k;
      assert KeyOf((a + b)[i]) == k;
    }
  }

  /** Two tables with the same keys and the same view of every attribute are equal. */
  lemma SameViewSameTable(t1: Table, t2: Table)
    requires forall k :: k in t1 <==> k in t2
    requires forall k, a :: View(t1, k, a) == View(t2, k, a)
    ensures t1 == t2
  {
    forall k | k in t1
      ensures t1[k] == t2[k]
    {
      forall a
        ensures a in t1[k] <==> a in t2[k]
        ensures a in t1[k] ==> t1[k][a] == t2[k][a]
      {
        assert View(t1, k, a) == View(t2, k, a);
      }
    }
  }

  /** Replaying the same writes is harmless: applying a sequence of updates
      twice leaves the table as applying it once. */
  lemma ApplyIdempotent(t: Table, ws: seq<Item>)
    ensures Apply(Apply(t, ws), ws) == Apply(t, ws)
  {
    var once := Apply(t, ws);
    ApplyConcat(t, ws, ws);
    forall k
      ensures k in Apply(t, ws + ws) <==> k in once
    {
      ApplyLastWriterWins(t, ws + ws, k, "PK");
      ApplyLastWriterWins(t, ws, k, "PK");
      TouchesConcat(ws, ws, k);
    }
    forall k, a
      ensures View(Apply(t, ws + ws), k, a) == View(once, k, a)
    {
      ApplyLastWriterWins(t, ws + ws, k, a);
      ApplyLastWriterWins(t, ws, k, a);
      LastSetConcat(ws, ws, k, a);
      TouchesConcat(ws, ws, k);
    }
    SameViewSameTable(Apply(t, ws + ws), once);
  }

  lemma {:induction false} LastSetUntouched(ws: seq<Item>, k: Key, a: string)
    requires !Touches(ws, k)
    ensures LastSet(ws, k, a) == None
  {
    if ws != [] {
      assert !Touches(ws[1..], k);
      LastSetUntouched(ws[1..], k, a);
    }
  }

  /** When a single write of the sequence names key `k`, that write decides
      every attribute it assigns there. */
  lemma {:induction false} LastSetSingle(ws: seq<Item>, k: Key, a: string, i: nat)
    requires i < |ws| && KeyOf(ws[i]) == k
    requires forall j :: 0 <= j < |ws| && j != i ==> KeyOf(ws[j]) != k
    ensures LastSet(ws, k, a) == if a in SetClause(ws[i]) then Some(SetClause(ws[i])[a]) else None
  {
    if i == 0 {
      assert !Touches(ws[1..], k);
      LastSetUntouched(ws[1..], k, a);
    } else {
      assert ws[1..][i - 1] == ws[i];
      LastSetSingle(ws[1..], k, a, i - 1);
    }
  }

  /** When every write naming key `k` assigns `v` to attribute `a`, and one does, `a` ends as `v`. */
  lemma {:induction false} LastSetUniform(ws: seq<Item>, k: Key, a: string, v: AttrValue)
    requires Touches(ws, k)
    requires forall i :: 0 <= i < |ws| && KeyOf(ws[i]) == k ==> a in SetClause(ws[i]) && SetClause(ws[i])[a] == v
    ensures LastSet(ws, k, a) == Some(v)
  {
    assert forall i :: 0 <= i < |ws[1..]| ==> ws[1..][i] == ws[i + 1];
    if Touches(ws[1..], k) {
      LastSetUniform(ws[1..], k, a, v);
    } else {
      LastSetUntouched(ws[1..], k, a);
    }
  }

  /** Writes to other keys leave a key's record as it was. */
  lemma ApplyUntouched(t: Table, ws: seq<Item>, k: Key)
    requires !Touches(ws, k)
    ensures k in Apply(t, ws) <==> k in t
    ensures k in t ==> Apply(t, ws)[k] == t[k]
  {
    forall a
      ensures View(Apply(t, ws), k, a) == View(t, k, a)
    {
      ApplyLastWriterWins(t, ws, k, a);
      LastSetUntouched(ws, k, a);
    }
    ApplyLastWriterWins(t, ws, k, "PK");
    if k in t {
      forall a
        ensures a in Apply(t, ws)[k] <==> a in t[k]
        ensures a in t[k] ==> Apply(t, ws)[k][a] == t[k][a]
      {
        assert View(Apply(t, ws), k, a) == View(t, k, a);
      }
    }
  }
}
