/**
 Reading accounts off the target: group ids become names, the machine's own accounts and
 groups are left out, and one account's state has a fingerprint.
 */
module Subjects {
  import opened Options
  import opened Text

  /** The most rows one read keeps. */
  const READ_CAP: nat := 5000
  const SYSTEM_UID_CEILING: int := 1000

  /** The middleware's record key, kept as the token it arrived as. */
  type Id = string

  datatype Account = Account(
    username: string, uid: int, locked: bool, smb: bool, passwordDisabled: bool, builtin: bool,
    groups: seq<Id>, home: string)

  datatype Row = Row(id: Id, account: Account)

  datatype GroupRow = GroupRow(id: Id, name: string, builtin: bool)

  datatype Subject = Subject(
    id: Id, username: string, uid: int, groups: seq<string>, home: string,
    enabled: bool, smbEnabled: bool, passwordSet: bool, builtinGroups: seq<Id>)

  // ---------------------------------------------------------------- the group table

  /** Both directions of one group read, and the names of the machine's own groups. */
  datatype Index = Index(byId: map<Id, string>, byName: map<string, Id>, builtin: set<string>)

  function IndexOf(rows: seq<GroupRow>): Index {
    if rows == [] then Index(map[], map[], {})
    else
      var ix, g := IndexOf(rows[..|rows| - 1]), rows[|rows| - 1];
      Index(ix.byId[g.id := g.name], ix.byName[g.name := g.id], if g.builtin then ix.builtin + {g.name} else ix.builtin)
  }

  ghost function IdsIn(rows: seq<GroupRow>): set<Id> { set r | r in rows :: r.id }

  ghost function NamesIn(rows: seq<GroupRow>): set<string> { set r | r in rows :: r.name }

  ghost function BuiltinIn(rows: seq<GroupRow>): set<string> { set r | r in rows && r.builtin :: r.name }

  lemma InOneMore(rows: seq<GroupRow>, g: GroupRow)
    ensures IdsIn(rows + [g]) == IdsIn(rows) + {g.id} && NamesIn(rows + [g]) == NamesIn(rows) + {g.name}
    ensures BuiltinIn(rows + [g]) == BuiltinIn(rows) + if g.builtin then {g.name} else {}
  {
    assert forall r :: r in rows + [g] <==> r in rows || r == g;
  }

  /** Exactly the ids and names listed, and the names of the built-in rows. */
  lemma {:induction false} IndexKeys(rows: seq<GroupRow>)
    ensures IndexOf(rows).byId.Keys == IdsIn(rows) && IndexOf(rows).byName.Keys == NamesIn(rows)
    ensures IndexOf(rows).builtin == BuiltinIn(rows)
  {
    if rows != [] {
      var n := |rows| - 1;
      IndexKeys(rows[..n]);
      hide IdsIn, NamesIn, BuiltinIn;
      InOneMore(rows[..n], rows[n]);
      assert rows == rows[..n] + [rows[n]];
    }
  }

  ghost predicate LastOfId(rows: seq<GroupRow>, i: int) {
    0 <= i < |rows| && forall j :: i < j < |rows| ==> rows[j].id != rows[i].id
  }

  ghost predicate LastOfName(rows: seq<GroupRow>, i: int) {
    0 <= i < |rows| && forall j :: i < j < |rows| ==> rows[j].name != rows[i].name
  }

  /** Of several rows for one id or one name, the last decides. */
  lemma {:induction false} LastDecides(rows: seq<GroupRow>, i: nat)
    requires i < |rows|
    ensures var ix, r := IndexOf(rows), rows[i];
      && r.id in ix.byId && r.name in ix.byName
      && (LastOfId(rows, i) ==> ix.byId[r.id] == r.name)
      && (LastOfName(rows, i) ==> ix.byName[r.name] == r.id)
  {
    var n := |rows| - 1;
    if i < n {
      var front := rows[..n];
      LastDecides(front, i);
      assert front[i] == rows[i];
      if LastOfId(rows, i) {
        forall j | i < j < n ensures front[j].id != front[i].id { assert front[j] == rows[j]; }
      }
      if LastOfName(rows, i) {
        forall j | i < j < n ensures front[j].name != front[i].name { assert front[j] == rows[j]; }
      }
    }
  }

  ghost predicate Indexes(rows: seq<GroupRow>, ix: Index) {
    && ix.byId.Keys == IdsIn(rows) && ix.byName.Keys == NamesIn(rows) && ix.builtin == BuiltinIn(rows)
    && (forall i :: LastOfId(rows, i) ==> rows[i].id in ix.byId && ix.byId[rows[i].id] == rows[i].name)
    && (forall i :: LastOfName(rows, i) ==> rows[i].name in ix.byName && ix.byName[rows[i].name] == rows[i].id)
  }

  lemma IndexMeans(rows: seq<GroupRow>)
    ensures Indexes(rows, IndexOf(rows))
  {
    IndexKeys(rows);
    hide IndexOf, IdsIn, NamesIn, BuiltinIn;
    forall i | 0 <= i < |rows|
      ensures rows[i].id in IndexOf(rows).byId && rows[i].name in IndexOf(rows).byName
      ensures LastOfId(rows, i) ==> IndexOf(rows).byId[rows[i].id] == rows[i].name
      ensures LastOfName(rows, i) ==> IndexOf(rows).byName[rows[i].name] == rows[i].id
    {
      LastDecides(rows, i);
    }
  }

  method GroupIndex(rows: seq<GroupRow>) returns (ix: Index)
    ensures ix == IndexOf(rows) && Indexes(rows, ix)
  {
    IndexMeans(rows);
    hide Indexes;
    ix := Index(map[], map[], {});
    for i := 0 to |rows|
      invariant ix == IndexOf(rows[..i])
    {
      var g := rows[i];
      assert rows[..i + 1][..i] == rows[..i];
      ix := ix.(byId := ix.byId[g.id := g.name], byName := ix.byName[g.name := g.id]);
      if g.builtin {
        ix := ix.(builtin := ix.builtin + {g.name});
      }
    }
    assert rows[..|rows|] == rows;
  }

  /** The two directions undo each other. */
  ghost predicate OneToOne(ix: Index) {
    && (forall id :: id in ix.byId ==> ix.byId[id] in ix.byName && ix.byName[ix.byId[id]] == id)
    && (forall n :: n in ix.byName ==> ix.byName[n] in ix.byId && ix.byId[ix.byName[n]] == n)
  }

  ghost predicate DistinctRows(rows: seq<GroupRow>) {
    forall i, j :: 0 <= i < j < |rows| ==> rows[i].id != rows[j].id && rows[i].name != rows[j].name
  }

  /** A table that lists no id and no name twice is read one-to-one. */
  lemma {:induction false} DistinctRowsOneToOne(rows: seq<GroupRow>)
    requires DistinctRows(rows)
    ensures OneToOne(IndexOf(rows))
  {
    if rows != [] {
      var n := |rows| - 1;
      DistinctRowsOneToOne(rows[..n]);
      if rows[n].id in IndexOf(rows[..n]).byId || rows[n].name in IndexOf(rows[..n]).byName {
        var i := IndexedFrom(rows[..n], rows[n].id, rows[n].name);
      }
    }
  }

  lemma {:induction false} IndexedFrom(rows: seq<GroupRow>, id: Id, name: string) returns (i: nat)
    requires id in IndexOf(rows).byId || name in IndexOf(rows).byName
    ensures i < |rows| && (rows[i].id == id || rows[i].name == name)
  {
    var n := |rows| - 1;
    if rows[n].id == id || rows[n].name == name {
      i := n;
    } else {
      i := IndexedFrom(rows[..n], id, name);
    }
  }

  predicate IsBuiltin(ix: Index, id: Id) { id in ix.byId && ix.byId[id] in ix.builtin }

  predicate IsManaged(ix: Index, id: Id) { id in ix.byId && ix.byId[id] !in ix.builtin }

  /** The managed memberships, by name. An id the table does not list is skipped. */
  function Names(ix: Index, ids: seq<Id>): seq<string> {
    if ids == [] then []
    else
      var n := |ids| - 1;
      if IsManaged(ix, ids[n]) then Names(ix, ids[..n]) + [ix.byId[ids[n]]] else Names(ix, ids[..n])
  }

  /** The built-in memberships, by id, kept so that a full replace can write them back. */
  function Builtins(ix: Index, ids: seq<Id>): seq<Id> {
    if ids == [] then []
    else
      var n := |ids| - 1;
      if IsBuiltin(ix, ids[n]) then Builtins(ix, ids[..n]) + [ids[n]] else Builtins(ix, ids[..n])
  }

  /** The names a mapping speaks as the ids a write takes; a built-in or unknown name refuses. */
  function IdsFor(ix: Index, names: seq<string>): Option<seq<Id>> {
    if names == [] then Some([])
    else
      var n := |names| - 1;
      var rest := IdsFor(ix, names[..n]);
      if rest.None? || names[n] in ix.builtin || names[n] !in ix.byName then None
      else Some(rest.value + [ix.byName[names[n]]])
  }

  method GroupIdsFor(ix: Index, names: seq<string>) returns (ids: Option<seq<Id>>)
    ensures ids == IdsFor(ix, names)
    ensures ids.Some? <==> forall n :: n in names ==> n !in ix.builtin && n in ix.byName
  {
    var out: seq<Id> := [];
    for i := 0 to |names|
      invariant IdsFor(ix, names[..i]) == Some(out)
      invariant forall n :: n in names[..i] ==> n !in ix.builtin && n in ix.byName
    {
      assert names[..i + 1][..i] == names[..i];
      if names[i] in ix.builtin || names[i] !in ix.byName {
        RefusedFrom(ix, names, i + 1);
        return None;
      }
      out := out + [ix.byName[names[i]]];
    }
    assert names[..|names|] == names;
    ids := Some(out);
  }

  lemma {:induction false} RefusedFrom(ix: Index, names: seq<string>, i: nat)
    requires i <= |names| && IdsFor(ix, names[..i]).None?
    ensures IdsFor(ix, names).None?
    decreases |names| - i
  {
    if i < |names| {
      assert names[..i + 1][..i] == names[..i];
      RefusedFrom(ix, names, i + 1);
    } else {
      assert names[..i] == names;
    }
  }

  // ---------------------------------------------------------------- reading rows

  predicate System(a: Account) { a.builtin || a.uid < SYSTEM_UID_CEILING }

  /** TrueNAS's home for an account without one. */
  function HomeOf(raw: string): string {
    if raw == "/var/empty" || raw == "/nonexistent" then "" else raw
  }

  function SubjectOf(ix: Index, id: Id, a: Account): Subject {
    Subject(id, a.username, a.uid, Names(ix, a.groups), HomeOf(a.home), !a.locked, a.smb, !a.passwordDisabled,
            Builtins(ix, a.groups))
  }

  function ReadAll(ix: Index, rows: seq<Row>): seq<Subject> {
    if rows == [] then []
    else
      var rest, r := ReadAll(ix, rows[..|rows| - 1]), rows[|rows| - 1];
      if System(r.account) then rest else rest + [SubjectOf(ix, r.id, r.account)]
  }

  method ReadMemberships(ix: Index, ids: seq<Id>) returns (names: seq<string>, builtins: seq<Id>)
    ensures names == Names(ix, ids) && builtins == Builtins(ix, ids)
  {
    names, builtins := [], [];
    for i := 0 to |ids|
      invariant names == Names(ix, ids[..i]) && builtins == Builtins(ix, ids[..i])
    {
      assert ids[..i + 1][..i] == ids[..i];
      if ids[i] in ix.byId && ix.byId[ids[i]] in ix.builtin {
        builtins := builtins + [ids[i]];
      } else if ids[i] in ix.byId {
        names := names + [ix.byId[ids[i]]];
      }
    }
    assert ids[..|ids|] == ids;
  }

  /** The state read: truncation is decided on what the target sent, before anything is dropped. */
  method ReadSubjects(ix: Index, sent: seq<Row>) returns (subjects: seq<Subject>, truncated: bool)
    ensures truncated <==> |sent| > 5000
    ensures subjects == ReadAll(ix, if truncated then sent[..READ_CAP] else sent)
  {
    truncated := |sent| > READ_CAP;
    var rows := if truncated then sent[..READ_CAP] else sent;
    subjects := [];
    for i := 0 to |rows|
      invariant subjects == ReadAll(ix, rows[..i])
    {
      assert rows[..i + 1][..i] == rows[..i];
      var a := rows[i].account;
      if !System(a) {
        var names, builtins := ReadMemberships(ix, a.groups);
        subjects := subjects + [Subject(rows[i].id, a.username, a.uid, names, HomeOf(a.home), !a.locked, a.smb,
                                        !a.passwordDisabled, builtins)];
      }
    }
    assert rows[..|rows|] == rows;
  }

  lemma {:induction false} ReadIffSent(ix: Index, rows: seq<Row>, s: Subject)
    ensures s in ReadAll(ix, rows) <==>
      exists i :: 0 <= i < |rows| && !rows[i].account.builtin && rows[i].account.uid >= 1000 &&
        s == SubjectOf(ix, rows[i].id, rows[i].account)
  {
    if rows != [] {
      var n := |rows| - 1;
      assert forall i :: 0 <= i < n ==> rows[..n][i] == rows[i];
      ReadIffSent(ix, rows[..n], s);
    }
  }

  /** Rows are read in the order they were sent, each on its own. */
  lemma {:induction false} ReadConcat(ix: Index, a: seq<Row>, b: seq<Row>)
    ensures ReadAll(ix, a + b) == ReadAll(ix, a) + ReadAll(ix, b)
    decreases |b|
  {
    if b == [] {
      assert a + b == a;
    } else {
      var n := |b| - 1;
      assert (a + b)[..|a| + n] == a + b[..n];
      ReadConcat(ix, a, b[..n]);
    }
  }

  // ---------------------------------------------------------------- memberships through read and write

  lemma {:induction false} NamesConcat(ix: Index, a: seq<Id>, b: seq<Id>)
    ensures Names(ix, a + b) == Names(ix, a) + Names(ix, b)
    ensures Builtins(ix, a + b) == Builtins(ix, a) + Builtins(ix, b)
    decreases |b|
  {
    if b == [] {
      assert a + b == a;
    } else {
      var n := |b| - 1;
      assert (a + b)[..|a| + n] == a + b[..n];
      NamesConcat(ix, a, b[..n]);
    }
  }

  /** What is written for a list of names is read back as that list, and touches no built-in group. */
  lemma {:induction false} WrittenIsRead(ix: Index, names: seq<string>)
    requires OneToOne(ix) && IdsFor(ix, names).Some?
    ensures Names(ix, IdsFor(ix, names).value) == names
    ensures Builtins(ix, IdsFor(ix, names).value) == []
    ensures |IdsFor(ix, names).value| == |names|
  {
    if names != [] {
      var n := |names| - 1;
      WrittenIsRead(ix, names[..n]);
      var rest := IdsFor(ix, names[..n]).value;
      NamesConcat(ix, rest, [ix.byName[names[n]]]);
      assert [ix.byName[names[n]]][..0] == [];
      assert names == names[..n] + [names[n]];
    }
  }

  lemma {:induction false} BuiltinsKept(ix: Index, ids: seq<Id>)
    ensures Builtins(ix, Builtins(ix, ids)) == Builtins(ix, ids)
    ensures Names(ix, Builtins(ix, ids)) == []
  {
    if ids != [] {
      var n := |ids| - 1;
      var rest := Builtins(ix, ids[..n]);
      BuiltinsKept(ix, ids[..n]);
      assert (rest + [ids[n]])[..|rest|] == rest;
    }
  }

  lemma {:induction false} NamesCount(ix: Index, ids: seq<Id>, name: string)
    requires OneToOne(ix)
    ensures multiset(Names(ix, ids))[name] ==
      if name in ix.byName && name !in ix.builtin then multiset(ids)[ix.byName[name]] else 0
  {
    if ids != [] {
      var n := |ids| - 1;
      assert ids == ids[..n] + [ids[n]];
      NamesCount(ix, ids[..n], name);
    }
  }

  lemma {:induction false} BuiltinsCount(ix: Index, ids: seq<Id>, id: Id)
    ensures multiset(Builtins(ix, ids))[id] == if IsBuiltin(ix, id) then multiset(ids)[id] else 0
  {
    if ids != [] {
      var n := |ids| - 1;
      assert ids == ids[..n] + [ids[n]];
      BuiltinsCount(ix, ids[..n], id);
    }
  }

  /** The order in which a target stores memberships shows in nothing read back. */
  lemma OrderUnread(ix: Index, a: seq<Id>, b: seq<Id>)
    requires OneToOne(ix) && multiset(a) == multiset(b)
    ensures multiset(Names(ix, a)) == multiset(Names(ix, b))
    ensures multiset(Builtins(ix, a)) == multiset(Builtins(ix, b))
  {
    forall x ensures multiset(Names(ix, a))[x] == multiset(Names(ix, b))[x] {
      NamesCount(ix, a, x);
      NamesCount(ix, b, x);
    }
    forall x ensures multiset(Builtins(ix, a))[x] == multiset(Builtins(ix, b))[x] {
      BuiltinsCount(ix, a, x);
      BuiltinsCount(ix, b, x);
    }
  }

  // ---------------------------------------------------------------- the fingerprint

  function SameSet(a: seq<string>, b: seq<string>): bool {
    |a| == |b| && Sorted(a) == Sorted(b)
  }

  lemma SameSetMeans(a: seq<string>, b: seq<string>)
    ensures SameSet(a, b) <==> multiset(a) == multiset(b)
  {
    SortedCanonical(a, b);
    assert |a| == |multiset(a)| && |b| == |multiset(b)|;
  }

  function FingerprintFields(s: Option<Subject>): seq<string> {
    if s.None? then ["absent"]
    else
      var s := s.value;
      ["present", s.username, FormatInt(s.uid), FormatBool(s.enabled), FormatBool(s.smbEnabled)] + Sorted(s.groups)
  }

  /** The bytes a subject's state is hashed as. */
  function FingerprintBytes(s: Option<Subject>): string {
    Frames(FingerprintFields(s))
  }

  /** The state a plan is approved against. */
  ghost predicate SameState(s: Option<Subject>, t: Option<Subject>) {
    if s.None? || t.None? then s == t
    else
      var s, t := s.value, t.value;
      s.username == t.username && s.uid == t.uid && s.enabled == t.enabled && s.smbEnabled == t.smbEnabled &&
      multiset(s.groups) == multiset(t.groups)
  }

  /** Two subjects are hashed as the same bytes exactly when their states are the same. */
  lemma FingerprintExact(s: Option<Subject>, t: Option<Subject>)
    ensures FingerprintBytes(s) == FingerprintBytes(t) <==> SameState(s, t)
  {
    var x, y := FingerprintFields(s), FingerprintFields(t);
    if x == y {
      FieldsExact(s, t);
    } else if FingerprintBytes(s) == FingerprintBytes(t) {
      FramesInjective(x, y);
    }
    if SameState(s, t) && s.Some? {
      SortedCanonical(s.value.groups, t.value.groups);
    }
  }

  lemma FieldsExact(s: Option<Subject>, t: Option<Subject>)
    requires FingerprintFields(s) == FingerprintFields(t)
    ensures SameState(s, t)
  {
    var x, y := FingerprintFields(s), FingerprintFields(t);
    assert x[0] == y[0];
    if s.Some? && t.Some? {
      assert x[1] == y[1] && x[2] == y[2] && x[3] == y[3] && x[4] == y[4];
      FormatIntInjective(s.value.uid, t.value.uid);
      assert Sorted(s.value.groups) == x[5..] == y[5..] == Sorted(t.value.groups);
      SortedCanonical(s.value.groups, t.value.groups);
    }
  }
}
