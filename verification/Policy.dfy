/**
 What the backend offers of an add-on's declared operations: every declaration of an id is
 folded with the backend's own policy, the more restrictive answer winning on each dimension.
 */
module Policy {
  import opened Text

  const MEMBER := "member"
  const ADMIN := "admin"

  datatype ParamSpec = ParamSpec(name: string, kind: string, required: bool, secret: bool)

  datatype OperationPolicy = OperationPolicy(scope: string, confirm: bool, params: seq<ParamSpec>)

  /** One declaration in a manifest. */
  datatype Operation = Operation(
    id: string, scope: string, confirm: bool, secretParams: seq<string>, available: bool, reason: string)

  datatype Effective = Effective(
    id: string, scope: string, confirm: bool, secretParams: seq<string>, params: seq<ParamSpec>,
    available: bool, reason: string)

  type Table = map<string, OperationPolicy>

  const OPERATIONS: Table := map[
    "password.set" := OperationPolicy(MEMBER, false, [ParamSpec("password", "string", true, true)]),
    "password.rotate" := OperationPolicy(ADMIN, true, []),
    "account.adopt" := OperationPolicy(ADMIN, true, [ParamSpec("username", "string", true, false)]),
    "account.purge" := OperationPolicy(ADMIN, true, [ParamSpec("elevated_key", "string", true, true)]),
    "activity.get" := OperationPolicy(ADMIN, false, [ParamSpec("since", "string", false, false)]),
    "health.get" := OperationPolicy(ADMIN, false, []),
    "account.release" := OperationPolicy(ADMIN, true, []),
    "storage.status" := OperationPolicy(MEMBER, false, [])
  ]

  // ---------------------------------------------------------------- sorted sets of strings

  ghost function Elems(s: seq<string>): set<string> {
    set x | x in s
  }

  ghost predicate NoDup(s: seq<string>) {
    forall i, j :: 0 <= i < j < |s| ==> s[i] != s[j]
  }

  /** The one listing of a set: ascending, each element once. */
  ghost predicate Lists(s: seq<string>, elems: set<string>) {
    Ascending(s) && NoDup(s) && Elems(s) == elems
  }

  function Unique(s: seq<string>): (r: seq<string>)
    ensures NoDup(r) && Elems(r) == Elems(s)
  {
    if s == [] then []
    else
      var n := |s| - 1;
      var rest := Unique(s[..n]);
      assert s == s[..n] + [s[n]];
      assert s[n] in rest <==> s[n] in Elems(rest);
      if s[n] in rest then
        assert Elems(s) == Elems(s[..n]);
        rest
      else
        assert Elems(rest + [s[n]]) == Elems(rest) + {s[n]};
        rest + [s[n]]
  }

  function Dedupe(s: seq<string>): seq<string> {
    Sorted(Unique(s))
  }

  lemma {:induction false} NoDupCounts(s: seq<string>, x: string)
    requires NoDup(s)
    ensures multiset(s)[x] == if x in s then 1 else 0
  {
    if s != [] {
      var n := |s| - 1;
      assert s == s[..n] + [s[n]];
      NoDupCounts(s[..n], x);
    }
  }

  lemma SortedLists(s: seq<string>)
    requires NoDup(s)
    ensures Lists(Sorted(s), Elems(s))
  {
    var t := Sorted(s);
    forall x ensures x in t <==> x in s { assert x in multiset(t) <==> x in multiset(s); }
    forall i, j | 0 <= i < j < |t| ensures t[i] != t[j] {
      NoDupCounts(s, t[i]);
      if t[i] == t[j] { TwiceCounted(t, i, j); }
    }
  }

  lemma TwiceCounted(t: seq<string>, i: nat, j: nat)
    requires i < j < |t| && t[i] == t[j]
    ensures multiset(t)[t[i]] >= 2
  {
    assert t == t[..j] + [t[j]] + t[j + 1..];
    assert t[i] in t[..j];
  }

  lemma DedupeLists(s: seq<string>)
    ensures Lists(Dedupe(s), Elems(s))
  {
    SortedLists(Unique(s));
  }

  lemma ListingUnique(s: seq<string>, t: seq<string>, elems: set<string>)
    requires Lists(s, elems) && Lists(t, elems)
    ensures s == t
  {
    forall x ensures multiset(s)[x] == multiset(t)[x] {
      NoDupCounts(s, x);
      NoDupCounts(t, x);
      assert x in s <==> x in Elems(s);
      assert x in t <==> x in Elems(t);
    }
    AscendingUnique(s, t);
  }

  /** Each value once, in the order first seen, then sorted. */
  method DedupeStrings(s: seq<string>) returns (out: seq<string>)
    ensures out == Dedupe(s) && Lists(out, Elems(s))
  {
    DedupeLists(s);
    if s == [] { return s; }
    var seen: set<string> := {};
    out := [];
    for i := 0 to |s|
      invariant out == Unique(s[..i]) && seen == Elems(out)
    {
      assert s[..i + 1][..i] == s[..i];
      if s[i] !in seen {
        seen := seen + {s[i]};
        out := out + [s[i]];
      }
    }
    assert s[..|s|] == s;
    out := Sorted(out);
  }

  // ---------------------------------------------------------------- the four dimensions

  /** Admin wins any disagreement, and an unrecognised scope is read as admin. */
  function MostRestrictiveScope(policy: string, manifest: string): string {
    if policy == ADMIN || manifest != MEMBER then ADMIN else MEMBER
  }

  function NonEmpty(s: seq<string>): seq<string> {
    if s == [] then []
    else
      var n := |s| - 1;
      if s[n] == "" then NonEmpty(s[..n]) else NonEmpty(s[..n]) + [s[n]]
  }

  function SecretNames(params: seq<ParamSpec>): seq<string> {
    if params == [] then []
    else
      var n := |params| - 1;
      if params[n].secret then SecretNames(params[..n]) + [params[n].name] else SecretNames(params[..n])
  }

  /** The names that must never be logged: the policy's and the manifest's together. */
  ghost function SecretSet(p: OperationPolicy, declared: seq<string>): set<string> {
    (Elems(SecretNames(p.params)) + Elems(declared)) - {""}
  }

  function Secrets(p: OperationPolicy, declared: seq<string>): seq<string> {
    Dedupe(NonEmpty(SecretNames(p.params) + declared))
  }

  lemma {:induction false} NonEmptyElems(s: seq<string>)
    ensures Elems(NonEmpty(s)) == Elems(s) - {""}
  {
    if s != [] {
      var n := |s| - 1;
      NonEmptyElems(s[..n]);
      assert s == s[..n] + [s[n]];
      assert Elems(s) == Elems(s[..n]) + {s[n]};
      assert Elems(NonEmpty(s[..n]) + [s[n]]) == Elems(NonEmpty(s[..n])) + {s[n]};
    }
  }

  lemma SecretsList(p: OperationPolicy, declared: seq<string>)
    ensures Lists(Secrets(p, declared), SecretSet(p, declared))
  {
    var all := SecretNames(p.params) + declared;
    NonEmptyElems(all);
    DedupeLists(NonEmpty(all));
    assert Elems(all) == Elems(SecretNames(p.params)) + Elems(declared);
  }

  /** One more candidate name, unless it is empty or already there. */
  method Add(n: string, out0: seq<string>, ghost so: seq<string>) returns (out: seq<string>)
    requires out0 == Unique(NonEmpty(so))
    ensures out == Unique(NonEmpty(so + [n]))
  {
    assert (so + [n])[..|so|] == so;
    ghost var kept := NonEmpty(so);
    assert (kept + [n])[..|kept|] == kept;
    out := if n != "" && n !in out0 then out0 + [n] else out0;
  }

  lemma NothingNamed()
    ensures SecretNames([]) == [] && Unique(NonEmpty([])) == []
  {
  }

  lemma SecretNamesStep(params: seq<ParamSpec>, i: nat)
    requires i < |params|
    ensures SecretNames(params[..i + 1]) == SecretNames(params[..i]) + if params[i].secret then [params[i].name] else []
  {
    assert params[..i + 1][..i] == params[..i];
  }

  method UnionSecretParams(p: OperationPolicy, declared: seq<string>) returns (out: seq<string>)
    ensures out == Secrets(p, declared) && Lists(out, SecretSet(p, declared))
  {
    SecretsList(p, declared);
    NothingNamed();
    hide SecretNames, Unique, NonEmpty, Lists, SecretSet;
    out := [];
    ghost var so: seq<string> := [];
    for i := 0 to |p.params|
      invariant so == SecretNames(p.params[..i]) && out == Unique(NonEmpty(so))
    {
      SecretNamesStep(p.params, i);
      if p.params[i].secret {
        out := Add(p.params[i].name, out, so);
        so := so + [p.params[i].name];
      }
    }
    assert p.params[..|p.params|] == p.params;
    for i := 0 to |declared|
      invariant so == SecretNames(p.params) + declared[..i] && out == Unique(NonEmpty(so))
    {
      out := Add(declared[i], out, so);
      so := so + [declared[i]];
    }
    assert declared[..|declared|] == declared;
    out := Sorted(out);
  }

  const NO_REASON := "the add-on reported this operation unavailable without a reason"

  /** One declaration bounded by policy. */
  function Bounded(p: OperationPolicy, o: Operation): Effective {
    Effective(o.id, MostRestrictiveScope(p.scope, o.scope), p.confirm || o.confirm, Secrets(p, o.secretParams),
              p.params, o.available, if !o.available && o.reason == "" then NO_REASON else o.reason)
  }

  /** Two declarations of one id. */
  function MostRestrictiveOperation(a: Effective, b: Effective): Effective {
    Effective(a.id, MostRestrictiveScope(a.scope, b.scope), a.confirm || b.confirm,
              Dedupe(a.secretParams + b.secretParams), a.params, a.available && b.available,
              if !a.available && a.reason != "" then a.reason else if !b.available then b.reason else "")
  }

  // ---------------------------------------------------------------- the meet of all declarations

  ghost predicate Declares(ops: seq<Operation>, id: string) {
    exists o :: o in ops && o.id == id
  }

  ghost predicate SomeNarrows(ops: seq<Operation>, id: string) {
    exists o :: o in ops && o.id == id && o.scope != MEMBER
  }

  ghost predicate SomeConfirms(ops: seq<Operation>, id: string) {
    exists o :: o in ops && o.id == id && o.confirm
  }

  ghost predicate AllAvailable(ops: seq<Operation>, id: string) {
    forall o :: o in ops && o.id == id ==> o.available
  }

  ghost predicate SomeHides(ops: seq<Operation>, id: string, n: string) {
    exists o :: o in ops && o.id == id && n in o.secretParams
  }

  /** The backend itself declares a parameter of that name secret. */
  ghost predicate PolicyHides(p: OperationPolicy, n: string) {
    exists i :: 0 <= i < |p.params| && p.params[i].secret && p.params[i].name == n
  }

  lemma {:induction false} SecretNamesMean(params: seq<ParamSpec>, n: string)
    ensures n in SecretNames(params) <==> exists i :: 0 <= i < |params| && params[i].secret && params[i].name == n
  {
    if params != [] {
      var m := |params| - 1;
      SecretNamesMean(params[..m], n);
      assert params == params[..m] + [params[m]];
    }
  }

  /** The row for an id: on every dimension the meet of the policy and all its declarations. */
  ghost predicate IsMeet(p: OperationPolicy, ops: seq<Operation>, id: string, e: Effective) {
    && e.id == id && e.params == p.params
    && e.scope == (if p.scope == ADMIN || SomeNarrows(ops, id) then ADMIN else MEMBER)
    && (e.confirm <==> p.confirm || SomeConfirms(ops, id))
    && (e.available <==> AllAvailable(ops, id))
    && Ascending(e.secretParams) && NoDup(e.secretParams)
    && (forall n :: n in e.secretParams <==> n != "" && (PolicyHides(p, n) || SomeHides(ops, id, n)))
  }

  lemma PolicyHidesMeans(p: OperationPolicy, n: string)
    ensures PolicyHides(p, n) <==> n in SecretNames(p.params)
  {
    SecretNamesMean(p.params, n);
  }

  lemma MeetFirst(p: OperationPolicy, ops: seq<Operation>, o: Operation)
    requires !Declares(ops, o.id)
    ensures IsMeet(p, ops + [o], o.id, Bounded(p, o))
  {
    SecretsList(p, o.secretParams);
    var ops', e := ops + [o], Bounded(p, o);
    assert forall x :: x in ops' && x.id == o.id <==> x == o;
    forall n ensures n in e.secretParams <==> n != "" && (PolicyHides(p, n) || SomeHides(ops', o.id, n)) {
      assert n in e.secretParams <==> n in SecretSet(p, o.secretParams);
      PolicyHidesMeans(p, n);
      if n in o.secretParams { assert o in ops'; }
    }
  }

  lemma MeetStep(p: OperationPolicy, ops: seq<Operation>, e: Effective, o: Operation)
    requires IsMeet(p, ops, o.id, e)
    ensures IsMeet(p, ops + [o], o.id, MostRestrictiveOperation(e, Bounded(p, o)))
  {
    hide Secrets, Dedupe, SecretNames, PolicyHides;
    var ops', f := ops + [o], MostRestrictiveOperation(e, Bounded(p, o));
    assert forall x :: x in ops' <==> x in ops || x == o;
    assert SomeNarrows(ops', o.id) <==> SomeNarrows(ops, o.id) || o.scope != MEMBER;
    assert SomeConfirms(ops', o.id) <==> SomeConfirms(ops, o.id) || o.confirm;
    SecretsList(p, o.secretParams);
    var both := e.secretParams + Secrets(p, o.secretParams);
    DedupeLists(both);
    forall n ensures n in f.secretParams <==> n != "" && (PolicyHides(p, n) || SomeHides(ops', o.id, n)) {
      PolicyHidesMeans(p, n);
      assert n in f.secretParams <==> n in Elems(both);
      assert n in Secrets(p, o.secretParams) <==> n in SecretSet(p, o.secretParams);
      assert SomeHides(ops', o.id, n) <==> SomeHides(ops, o.id, n) || n in o.secretParams;
    }
  }

  lemma MeetOther(p: OperationPolicy, ops: seq<Operation>, id: string, e: Effective, o: Operation)
    requires IsMeet(p, ops, id, e) && o.id != id
    ensures IsMeet(p, ops + [o], id, e)
  {
    MeetSameSet(p, ops, ops + [o], id, e);
  }

  /** Only which declarations of the id there are matters: not their order, nor how often each is made. */
  lemma MeetSameSet(p: OperationPolicy, ops: seq<Operation>, ops': seq<Operation>, id: string, e: Effective)
    requires IsMeet(p, ops, id, e)
    requires forall o: Operation :: o.id == id ==> (o in ops <==> o in ops')
    ensures IsMeet(p, ops', id, e)
  {
    forall n ensures SomeHides(ops, id, n) <==> SomeHides(ops', id, n) {}
  }

  /** Why an id is unavailable: what its first unavailable declaration said. */
  function FirstReason(ops: seq<Operation>, id: string): string {
    if ops == [] then ""
    else
      var n := |ops| - 1;
      var before := FirstReason(ops[..n], id);
      if before != "" then before
      else if ops[n].id == id && !ops[n].available then (if ops[n].reason == "" then NO_REASON else ops[n].reason)
      else ""
  }

  /** It is the first such declaration in the manifest's order, and a silent one is given words. */
  lemma {:induction false} FirstReasonMeans(ops: seq<Operation>, id: string, k: nat)
    requires k < |ops| && ops[k].id == id && !ops[k].available
    requires forall j :: 0 <= j < k && ops[j].id == id ==> ops[j].available
    ensures FirstReason(ops, id) ==
      if ops[k].reason != "" then ops[k].reason
      else "the add-on reported this operation unavailable without a reason"
  {
    var n := |ops| - 1;
    if k < n {
      FirstReasonMeans(ops[..n], id, k);
    } else {
      NothingUnavailable(ops[..n], id);
    }
  }

  lemma {:induction false} NothingUnavailable(ops: seq<Operation>, id: string)
    requires forall j :: 0 <= j < |ops| && ops[j].id == id ==> ops[j].available
    ensures FirstReason(ops, id) == ""
  {
    if ops != [] { NothingUnavailable(ops[..|ops| - 1], id); }
  }

  ghost predicate Explained(ops: seq<Operation>, e: Effective) {
    if e.available then FirstReason(ops, e.id) == "" else e.reason == FirstReason(ops, e.id) != ""
  }

  // ---------------------------------------------------------------- resolving a manifest

  ghost predicate Resolved(table: Table, ops: seq<Operation>, rows: seq<Effective>) {
    && (forall i, j :: 0 <= i < j < |rows| ==> rows[i].id != rows[j].id && StrLeq(rows[i].id, rows[j].id))
    && (forall i :: 0 <= i < |rows| ==> rows[i].id in table && IsMeet(table[rows[i].id], ops, rows[i].id, rows[i]))
    && (forall id :: id in table && Declares(ops, id) <==> HasRow(rows, id))
  }

  ghost predicate HasRow(rows: seq<Effective>, id: string) {
    exists i :: 0 <= i < |rows| && rows[i].id == id
  }

  ghost predicate RowIs(p: OperationPolicy, ops: seq<Operation>, id: string, e: Effective) {
    IsMeet(p, ops, id, e) && Explained(ops, e)
  }

  lemma RowOther(p: OperationPolicy, ops: seq<Operation>, id: string, e: Effective, o: Operation)
    requires RowIs(p, ops, id, e) && o.id != id
    ensures RowIs(p, ops + [o], id, e)
  {
    MeetOther(p, ops, id, e, o);
    assert (ops + [o])[..|ops|] == ops;
  }

  lemma RowStep(p: OperationPolicy, ops: seq<Operation>, e: Effective, o: Operation)
    requires RowIs(p, ops, o.id, e)
    ensures RowIs(p, ops + [o], o.id, MostRestrictiveOperation(e, Bounded(p, o)))
  {
    hide IsMeet, Explained, MostRestrictiveOperation, Bounded;
    MeetStep(p, ops, e, o);
    MeetId(p, ops, o.id, e);
    ExplainedStep(p, ops, e, o);
  }

  lemma ExplainedStep(p: OperationPolicy, ops: seq<Operation>, e: Effective, o: Operation)
    requires e.id == o.id && Explained(ops, e)
    ensures Explained(ops + [o], MostRestrictiveOperation(e, Bounded(p, o)))
  {
    hide Dedupe, Secrets;
    assert (ops + [o])[..|ops|] == ops;
  }

  lemma MeetId(p: OperationPolicy, ops: seq<Operation>, id: string, e: Effective)
    requires IsMeet(p, ops, id, e)
    ensures e.id == id
  {
  }

  lemma RowFirst(p: OperationPolicy, ops: seq<Operation>, o: Operation)
    requires !Declares(ops, o.id)
    ensures RowIs(p, ops + [o], o.id, Bounded(p, o))
  {
    MeetFirst(p, ops, o);
    assert forall j :: 0 <= j < |ops| ==> ops[j] in ops;
    NothingUnavailable(ops, o.id);
    assert (ops + [o])[..|ops|] == ops;
  }

  /** The fold so far: one entry per known declared id, the meet of what has been read of it. */
  ghost predicate Folded(table: Table, ops: seq<Operation>, byId: map<string, Effective>) {
    && (forall id :: id in byId <==> id in table && Declares(ops, id))
    && (forall id :: id in byId ==> RowIs(table[id], ops, id, byId[id]))
  }

  lemma DeclaresStep(ops: seq<Operation>, o: Operation)
    ensures forall id :: Declares(ops + [o], id) <==> Declares(ops, id) || id == o.id
  {
    assert forall x :: x in ops + [o] <==> x in ops || x == o;
  }

  lemma FoldStep(table: Table, ops: seq<Operation>, byId: map<string, Effective>, o: Operation)
    requires Folded(table, ops, byId)
    ensures o.id !in table ==> Folded(table, ops + [o], byId)
    ensures o.id in table ==>
      var e := Bounded(table[o.id], o);
      Folded(table, ops + [o], byId[o.id := if o.id in byId then MostRestrictiveOperation(byId[o.id], e) else e])
  {
    hide RowIs, Declares, MostRestrictiveOperation, Bounded;
    var ops' := ops + [o];
    DeclaresStep(ops, o);
    forall id | id in byId && id != o.id ensures RowIs(table[id], ops', id, byId[id]) {
      RowOther(table[id], ops, id, byId[id], o);
    }
    if o.id in table {
      if o.id in byId {
        RowStep(table[o.id], ops, byId[o.id], o);
      } else {
        RowFirst(table[o.id], ops, o);
      }
    }
  }

  ghost function UnknownIds(table: Table, ops: seq<Operation>): set<string> {
    set o | o in ops && o.id !in table :: o.id
  }

  lemma UnknownStep(table: Table, ops: seq<Operation>, o: Operation)
    ensures UnknownIds(table, ops + [o]) == UnknownIds(table, ops) + if o.id in table then {} else {o.id}
  {
    assert forall x :: x in ops + [o] <==> x in ops || x == o;
  }

  lemma FoldResolves(table: Table, ops: seq<Operation>, byId: map<string, Effective>, rows: seq<Effective>)
    requires Folded(table, ops, byId)
    requires forall i :: 0 <= i < |rows| ==> rows[i].id in byId && rows[i] == byId[rows[i].id]
    requires forall i, j :: 0 <= i < j < |rows| ==> rows[i].id != rows[j].id && StrLeq(rows[i].id, rows[j].id)
    requires forall id :: id in byId ==> HasRow(rows, id)
    ensures Resolved(table, ops, rows)
    ensures forall i :: 0 <= i < |rows| ==> Explained(ops, rows[i])
  {
    assert forall i :: 0 <= i < |rows| ==> RowIs(table[rows[i].id], ops, rows[i].id, rows[i]);
    hide IsMeet, Explained, Declares;
  }

  lemma FoldIds(table: Table, ops: seq<Operation>, byId: map<string, Effective>)
    requires Folded(table, ops, byId)
    ensures forall id :: id in byId ==> byId[id].id == id
  {
  }

  /** Intersects a manifest's declarations with policy, one row per id, whatever order maps iterate in. */
  method ResolveOperations(table: Table, ops: seq<Operation>) returns (rows: seq<Effective>, unknown: seq<string>)
    ensures Resolved(table, ops, rows)
    ensures forall i :: 0 <= i < |rows| ==> Explained(ops, rows[i])
    ensures Lists(unknown, UnknownIds(table, ops))
  {
    hide Folded, Resolved, UnknownIds, Explained, Lists;
    var byId: map<string, Effective> := map[];
    unknown := [];
    assert Folded(table, ops[..0], byId) && UnknownIds(table, ops[..0]) == {} by { NothingRead(table); }
    for i := 0 to |ops|
      invariant Folded(table, ops[..i], byId)
      invariant Elems(unknown) == UnknownIds(table, ops[..i])
    {
      var o := ops[i];
      assert ops[..i + 1] == ops[..i] + [o];
      FoldStep(table, ops[..i], byId, o);
      UnknownStep(table, ops[..i], o);
      if o.id !in table {
        assert Elems(unknown + [o.id]) == Elems(unknown) + {o.id};
        unknown := unknown + [o.id];
      } else {
        var e := Bounded(table[o.id], o);
        if o.id in byId {
          e := MostRestrictiveOperation(byId[o.id], e);
        }
        byId := byId[o.id := e];
      }
    }
    assert ops[..|ops|] == ops;
    FoldIds(table, ops, byId);
    rows := SortedRows(byId);
    FoldResolves(table, ops, byId, rows);
    unknown := DedupeStrings(unknown);
  }

  lemma NothingRead(table: Table)
    ensures Folded(table, [], map[]) && UnknownIds(table, []) == {}
  {
  }

  /** The values of a map, collected in any order and sorted by id. */
  method SortedRows(byId: map<string, Effective>) returns (rows: seq<Effective>)
    requires forall id :: id in byId ==> byId[id].id == id
    ensures forall i :: 0 <= i < |rows| ==> rows[i].id in byId && rows[i] == byId[rows[i].id]
    ensures forall i, j :: 0 <= i < j < |rows| ==> rows[i].id != rows[j].id && StrLeq(rows[i].id, rows[j].id)
    ensures forall id :: id in byId ==> HasRow(rows, id)
  {
    hide Sorted, StrLeq;
    var left, ids := byId.Keys, [];
    while left != {}
      invariant NoDup(ids) && Elems(ids) !! left && Elems(ids) + left == byId.Keys
      decreases left
    {
      var id :| id in left;
      assert id !in Elems(ids);
      assert Elems(ids + [id]) == Elems(ids) + {id};
      ids := ids + [id];
      left := left - {id};
    }
    SortedLists(ids);
    ids := Sorted(ids);
    forall i | 0 <= i < |ids| ensures ids[i] in byId { assert ids[i] in Elems(ids); }
    rows := seq(|ids|, i requires 0 <= i < |ids| => byId[ids[i]]);
    forall id | id in byId ensures HasRow(rows, id) {
      assert id in Elems(ids);
      var i :| 0 <= i < |ids| && ids[i] == id;
      assert rows[i].id == id;
    }
  }

  // ---------------------------------------------------------------- what the fold promises

  /** `f` admits no more than `e` does. */
  ghost predicate Narrower(f: Effective, e: Effective) {
    && f.id == e.id
    && (e.scope == ADMIN ==> f.scope == ADMIN)
    && (e.confirm ==> f.confirm)
    && (f.available ==> e.available)
    && (forall n :: n in e.secretParams ==> n in f.secretParams)
  }

  /** Adding declarations only narrows what is offered. */
  lemma MoreOnlyNarrows(table: Table, ops: seq<Operation>, rows: seq<Effective>,
                        ops': seq<Operation>, rows': seq<Effective>, i: nat)
    requires Resolved(table, ops, rows) && Resolved(table, ops', rows')
    requires forall o :: o in ops ==> o in ops'
    requires i < |rows|
    ensures exists j :: 0 <= j < |rows'| && Narrower(rows'[j], rows[i])
  {
    var id := rows[i].id;
    assert HasRow(rows, id);
    assert Declares(ops', id);
    assert HasRow(rows', id);
    var j :| 0 <= j < |rows'| && rows'[j].id == id;
    assert forall n :: SomeHides(ops, id, n) ==> SomeHides(ops', id, n);
    assert Narrower(rows'[j], rows[i]);
  }

  /** Permuting or repeating declarations changes no row, except which reason is quoted. */
  lemma OrderDoesNotMatter(table: Table, ops: seq<Operation>, rows: seq<Effective>,
                           ops': seq<Operation>, rows': seq<Effective>)
    requires Resolved(table, ops, rows) && Resolved(table, ops', rows')
    requires forall o :: o in ops <==> o in ops'
    ensures |rows| == |rows'|
    ensures forall i :: 0 <= i < |rows| ==> rows[i].(reason := "") == rows'[i].(reason := "")
  {
    var ids, ids' := Ids(rows), Ids(rows');
    assert forall id :: Declares(ops, id) <==> Declares(ops', id);
    IdsList(table, ops, rows);
    IdsList(table, ops', rows');
    assert Elems(ids) == Elems(ids');
    ListingUnique(ids, ids', Elems(ids));
    forall i | 0 <= i < |rows| ensures rows[i].(reason := "") == rows'[i].(reason := "") {
      assert ids[i] == ids'[i];
      MeetSameSet(table[ids[i]], ops, ops', ids[i], rows[i]);
      MeetUnique(table[ids[i]], ops', ids[i], rows[i], rows'[i]);
    }
  }

  function Ids(rows: seq<Effective>): seq<string> {
    seq(|rows|, i requires 0 <= i < |rows| => rows[i].id)
  }

  lemma IdsList(table: Table, ops: seq<Operation>, rows: seq<Effective>)
    requires Resolved(table, ops, rows)
    ensures Ascending(Ids(rows)) && NoDup(Ids(rows))
    ensures forall id :: id in Elems(Ids(rows)) <==> id in table && Declares(ops, id)
  {
    forall id ensures id in Elems(Ids(rows)) <==> HasRow(rows, id) {
      if HasRow(rows, id) {
        var i :| 0 <= i < |rows| && rows[i].id == id;
        assert Ids(rows)[i] == id;
      }
    }
  }

  lemma MeetUnique(p: OperationPolicy, ops: seq<Operation>, id: string, e: Effective, f: Effective)
    requires IsMeet(p, ops, id, e) && IsMeet(p, ops, id, f)
    ensures e.(reason := "") == f.(reason := "")
  {
    assert Elems(e.secretParams) == Elems(f.secretParams);
    ListingUnique(e.secretParams, f.secretParams, Elems(e.secretParams));
  }

  /**
   What no manifest can loosen: which operations a member may be offered, which ask first, and
   which parameters stay out of the logs.
   */
  lemma PolicyHolds(ops: seq<Operation>, rows: seq<Effective>, i: nat)
    requires Resolved(OPERATIONS, ops, rows) && i < |rows|
    ensures rows[i].id !in {"password.set", "storage.status"} ==> rows[i].scope == "admin"
    ensures rows[i].id in {"password.rotate", "account.adopt", "account.purge", "account.release"} ==> rows[i].confirm
    ensures rows[i].id == "password.set" ==> "password" in rows[i].secretParams
    ensures rows[i].id == "account.purge" ==> "elevated_key" in rows[i].secretParams
  {
    var p := OPERATIONS[rows[i].id];
    if rows[i].id == "password.set" { assert PolicyHides(p, "password") by { assert p.params[0].secret; } }
    if rows[i].id == "account.purge" { assert PolicyHides(p, "elevated_key") by { assert p.params[0].secret; } }
  }

  /** And nothing more is withheld: a plain member declaration alone is offered as it stands. */
  lemma MemberOffered(o: Operation, rows: seq<Effective>)
    requires Resolved(OPERATIONS, [o], rows)
    requires o.id in {"password.set", "storage.status"} && o.scope == "member" && !o.confirm && o.available
    ensures |rows| == 1 && rows[0].id == o.id && rows[0].scope == "member" && !rows[0].confirm && rows[0].available
  {
    assert |rows| >= 2 ==> rows[0].id != rows[1].id;
    assert o in [o] && Declares([o], o.id);
    assert HasRow(rows, o.id);
    forall k | 0 <= k < |rows| ensures rows[k].id == o.id {
      assert HasRow(rows, rows[k].id);
      assert Declares([o], rows[k].id);
    }
  }

  /** No manifest can put the one irreversible operation in a member's hands, or its key in a log. */
  lemma PurgeStaysGuarded(ops: seq<Operation>, rows: seq<Effective>, i: nat)
    requires Resolved(OPERATIONS, ops, rows) && i < |rows| && rows[i].id == "account.purge"
    ensures rows[i].scope == ADMIN && rows[i].confirm && "elevated_key" in rows[i].secretParams
  {
    PolicyHolds(ops, rows, i);
  }
}
