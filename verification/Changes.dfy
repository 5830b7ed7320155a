/**
 What one step of the add-on may change, stated over plain values: accounts, bindings, folder
 owners and SMB wishes before and after it.
 */
module Changes {
  import opened Options
  import opened Subjects
  import opened Target
  import opened Converge
  import opened Locating
  import opened Invariants

  // ---------------------------------------------------------------- who an account is

  /** The target holds an account that is the subject's: by bound name, by in-range bound uid, or by derived name. */
  ghost predicate HasAccount(r: Range, users: map<Id, Account>, bindings: map<string, Binding>, s: string,
                             derived: Option<string>) {
    if s in bindings then
      || OnTarget(users, ByName(bindings[s].username))
      || (Within(r, bindings[s].uid) && OnTarget(users, ByUid(bindings[s].uid)))
    else derived.Some? && OnTarget(users, ByName(derived.value))
  }

  /** The subject has a name to go by and no account, on a target one read can list. */
  ghost predicate Vacant(r: Range, users: map<Id, Account>, bindings: map<string, Binding>, s: string,
                         derived: Option<string>) {
    (s in bindings || derived.Some?) && |users| <= READ_CAP && !HasAccount(r, users, bindings, s, derived)
  }

  /** The account a binding resolves to: the one with its uid, or the one with its name when no account has that uid. */
  ghost predicate Denotes(users: map<Id, Account>, b: Binding, id: Id) {
    && id in users
    && if b.uid != 0 && exists i :: i in users && users[i].uid == b.uid then users[id].uid == b.uid
       else users[id].username == b.username
  }

  function Fold(s: string): string {
    seq(|s|, i requires 0 <= i < |s| => if 'A' <= s[i] <= 'Z' then ((s[i] as int) + 32) as char else s[i])
  }

  /** The name is that of the account the add-on logs in with, letter case aside. */
  predicate IsSelf(self: Option<string>, username: string) {
    self.Some? && Fold(username) == Fold(self.value)
  }

  /** An account of that name is there, and it is known not to be the add-on's own. */
  ghost predicate Purgeable(users: map<Id, Account>, name: string, self: Option<string>) {
    OnName(users, name) && self.Some? && !IsSelf(self, name)
  }

  /** A password the account can be used with, and SMB switched on with it or left alone. */
  function WithPassword(a: Account, on: bool): Account {
    a.(passwordDisabled := false, smb := a.smb || on)
  }

  /** The name the subject's account goes by: the bound one, or the derived one for a subject not bound yet. */
  ghost function NameFor(bindings: map<string, Binding>, s: string, derived: Option<string>): string {
    if s in bindings then bindings[s].username else if derived.Some? then derived.value else ""
  }

  ghost predicate KeepsNames(was: map<Id, Account>, now: map<Id, Account>) {
    forall i :: i in was ==> i in now && now[i].username == was[i].username && now[i].uid == was[i].uid
  }

  /** One account, and it matches. */
  ghost predicate OnlyMatch(users: map<Id, Account>, k: Key) {
    exists i :: i in users && users.Keys == {i} && Matches(k, users[i])
  }

  lemma SoleRow(users: map<Id, Account>, k: Key, rows: seq<Row>)
    requires |rows| == 1 && rows[0].id in users && users[rows[0].id] == rows[0].account
    requires forall i :: i in users ==> Row(i, users[i]) in rows
    ensures |users| == 1 && (OnlyMatch(users, k) <==> Matches(k, users[rows[0].id]))
  {
    assert users.Keys == {rows[0].id};
    assert |users| == |users.Keys|;
  }

  ghost predicate OnName(users: map<Id, Account>, name: string) {
    exists i :: i in users && users[i].username == name
  }

  /** The account of that name takes a password, and SMB with it. */
  ghost predicate SmbUsable(users: map<Id, Account>, name: string) {
    exists id :: id in users && users[id].username == name && users[id].smb && !users[id].passwordDisabled
  }

  /** One account more, with that name, number and home and without SMB. */
  ghost predicate Adds(was: map<Id, Account>, now: map<Id, Account>, id: Id, name: string, uid: int, home: string) {
    && id !in was && id in now && now == was[id := now[id]]
    && now[id].username == name && now[id].uid == uid && now[id].home == home && !now[id].smb
  }

  /** The home a new account is made with: a folder of its own where one is due and the place is free. */
  ghost function NewHome(d: Desired, owners: map<string, int>, readable: bool, name: string): string {
    var path := d.homeRoot + "/" + name;
    if LacksHome(d, "") && readable && path !in owners then path else "/var/empty"
  }

  // ---------------------------------------------------------------- numbers

  /** Every in-range number on the target, of an account or of a group, is at or below the mark. */
  ghost predicate NumbersBelow(r: Range, users: map<Id, Account>, groups: map<Id, int>, mark: int) {
    && (forall i :: i in users && Within(r, users[i].uid) ==> users[i].uid <= mark)
    && (forall g :: g in groups && Within(r, groups[g]) ==> groups[g] <= mark)
  }

  /** The last number gone: nothing below 1 is ever handed out. */
  function Last(mark: int): int {
    if mark < 0 then 0 else mark
  }

  /** Just above the mark, 0, or a number on the target. */
  ghost predicate JustAbove(r: Range, users: map<Id, Account>, groups: map<Id, int>, mark: int, n: int) {
    || n - 1 == mark || n - 1 == 0
    || (exists i :: i in users && Within(r, users[i].uid) && users[i].uid == n - 1)
    || (exists g :: g in groups && Within(r, groups[g]) && groups[g] == n - 1)
  }

  /** Where every number on the target was at or below the mark it still is, and one number more is gone at most. */
  ghost predicate Counted(r: Range, users: map<Id, Account>, groups: map<Id, int>, mark: int,
                          users': map<Id, Account>, groups': map<Id, int>, mark': int, one: bool) {
    NumbersBelow(r, users, groups, mark) ==>
      && NumbersBelow(r, users', groups', mark')
      && (mark' == mark || (one && mark' == Last(mark) + 1))
      && (users'.Keys != users.Keys && one ==> mark' == Last(mark) + 1)
  }

  /** No account has an in-range number it did not have. */
  ghost predicate NoNewNumber(r: Range, was: map<Id, Account>, now: map<Id, Account>) {
    forall i :: i in now && Within(r, now[i].uid) ==> i in was && was[i].uid == now[i].uid
  }

  lemma SameKeysSameNumbers(r: Range, was: map<Id, Account>, now: map<Id, Account>)
    requires KeepsNames(was, now) && now.Keys == was.Keys
    ensures NoNewNumber(r, was, now)
  {
    assert forall i :: i in now ==> i in was.Keys;
  }

  lemma NotCounted(r: Range, users: map<Id, Account>, users': map<Id, Account>, groups: map<Id, int>, mark: int,
                   one: bool)
    requires NoNewNumber(r, users, users') && (one ==> users'.Keys == users.Keys)
    ensures Counted(r, users, groups, mark, users', groups, mark, one)
  {
  }

  /** The personal group of a new account has its number; every other group is as it was. */
  ghost predicate GroupStep(was: map<Id, int>, now: map<Id, int>, id: Id, mark: int, made: bool) {
    && (now == was || (now - {id} == was - {id} && (id in now ==> now[id] == mark)))
    && (made ==> id in now && now[id] == mark)
  }

  lemma NumberCounted(r: Range, users: map<Id, Account>, groups: map<Id, int>, mark: int,
                      users': map<Id, Account>, groups': map<Id, int>, n: int, id: Id, name: string, home: string)
    requires mark < n && 0 < n && JustAbove(r, users, groups, mark, n)
    requires users' == users || Adds(users, users', id, name, n, home)
    requires GroupStep(groups, groups', id, n, false)
    ensures Counted(r, users, groups, mark, users', groups', n, true)
  {
    if NumbersBelow(r, users, groups, mark) {
      forall g | g in groups' && Within(r, groups'[g]) ensures groups'[g] <= n {
        if g != id && groups' != groups {
          assert g in groups' - {id} && (groups' - {id})[g] == groups'[g];
          assert g in groups - {id};
        }
      }
    }
  }

  lemma OneMoreKey(was: map<Id, Account>, now: map<Id, Account>, id: Id, name: string, uid: int, home: string)
    requires Adds(was, now, id, name, uid, home)
    ensures now.Keys == was.Keys + {id} && |now| == |was| + 1
  {
    assert |now| == |now.Keys| && |was| == |was.Keys|;
  }

  /** A folder once there never changes hands. */
  ghost predicate KeepsOwners(was: map<string, int>, now: map<string, int>) {
    forall p :: p in was ==> p in now && now[p] == was[p]
  }

  /** Nothing is forgotten, no folder changes hands, and a number first used was first claimed. */
  ghost predicate Grown(created: set<int>, given: set<(int, string)>, owners: map<string, int>, mark: int,
                        created': set<int>, given': set<(int, string)>, owners': map<string, int>, mark': int) {
    && created <= created' && given <= given' && KeepsOwners(owners, owners') && mark <= mark'
    && forall u :: u in created' ==> u in created || mark < u
  }

  lemma NotGrown(created: set<int>, given: set<(int, string)>, owners: map<string, int>, mark: int)
    ensures Grown(created, given, owners, mark, created, given, owners, mark)
  {
  }

  /** Nothing has SMB now that did not have it before. */
  ghost predicate NoNewSmb(was: map<Id, Account>, now: map<Id, Account>) {
    forall i :: i in now && now[i].smb ==> i in was && was[i].smb
  }

  /** No account that was there has changed, except the one the subject was read from. */
  ghost predicate OnlyAt(was: map<Id, Account>, now: map<Id, Account>, at: Option<Subject>) {
    forall i :: i in was ==> i in now && (now[i] == was[i] || (at.Some? && at.value.id == i))
  }

  /** What was located is the subject's own account as the target holds it, and never against an in-range bound uid. */
  ghost predicate IsTheirs(r: Range, ix: Index, users: map<Id, Account>, bindings: map<string, Binding>, s: string,
                           at: Option<Subject>) {
    at.Some? ==>
      && s in bindings && at.value.id in users && !System(users[at.value.id])
      && at.value == SubjectOf(ix, at.value.id, users[at.value.id])
      && (at.value.username == bindings[s].username || (Within(r, bindings[s].uid) && at.value.uid == bindings[s].uid))
      && (Within(r, bindings[s].uid) ==> at.value.uid == bindings[s].uid)
  }

  ghost predicate IsRead(ix: Index, users: map<Id, Account>, at: Option<Subject>) {
    at.Some? ==> at.value.id in users && at.value == SubjectOf(ix, at.value.id, users[at.value.id])
  }

  lemma TheirsIsRead(r: Range, ix: Index, users: map<Id, Account>, bindings: map<string, Binding>, s: string,
                     at: Option<Subject>)
    requires IsTheirs(r, ix, users, bindings, s, at)
    ensures IsRead(ix, users, at)
  {
  }

  lemma Unmoved(users: map<Id, Account>, at: Option<Subject>)
    ensures AccountStep(users, users, at) && KeepsNames(users, users)
  {
  }

  /** The digest tells these two states apart if anything does. */
  ghost predicate Distinguishes(hash: string -> string, s: Option<Subject>, t: Option<Subject>) {
    hash(FingerprintBytes(s)) == hash(FingerprintBytes(t)) ==> FingerprintBytes(s) == FingerprintBytes(t)
  }

  lemma FoundIsHeld(r: Range, ix: Index, users: map<Id, Account>, bindings: map<string, Binding>, s: string,
                    derived: Option<string>, at: Option<Subject>)
    requires IsTheirs(r, ix, users, bindings, s, at) && at.Some?
    ensures HasAccount(r, users, bindings, s, derived)
  {
  }

  lemma NamedIsHeld(users: map<Id, Account>, name: string)
    requires exists i :: i in users && !System(users[i]) && users[i].username == name
    ensures OnTarget(users, ByName(name))
  {
  }

  /** The bound name is on an account whose uid is not the bound one. */
  ghost predicate Conflicted(r: Range, users: map<Id, Account>, b: Binding) {
    && Within(r, b.uid)
    && exists i :: i in users && !System(users[i]) && users[i].username == b.username && users[i].uid != b.uid
  }

  /** Every binding still there, to the name it had. */
  ghost predicate KeepsBound(was: map<string, Binding>, now: map<string, Binding>, but: set<string>) {
    forall t :: t in was && t !in but ==> t in now && now[t].username == was[t].username
  }

  /** What one subject's step may do to the accounts: nothing to others, no new SMB, no name moved. */
  ghost predicate AccountStep(was: map<Id, Account>, now: map<Id, Account>, at: Option<Subject>) {
    OnlyAt(was, now, at) && KeepsNames(was, now) && NoNewSmb(was, now)
  }

  lemma AccountStepAt(users: map<Id, Account>, s: Subject, a: Account)
    requires s.id in users && a.username == users[s.id].username
    requires a.uid == users[s.id].uid && (a.smb ==> users[s.id].smb)
    ensures AccountStep(users, users, Some(s)) && AccountStep(users, users[s.id := a], Some(s))
  {
  }

  lemma AccountStepNew(users: map<Id, Account>, users': map<Id, Account>, id: Id, name: string, uid: int,
                       home: string)
    requires Adds(users, users', id, name, uid, home)
    ensures AccountStep(users, users', None)
  {
  }

  /** What it may do to the bindings: its own only, the wish only when recorded, and never the name while all agree. */
  ghost predicate BindingStep(was: map<string, Binding>, now: map<string, Binding>, s: string, recorded: bool,
                              agree: bool) {
    && OnlyBinding(was, now, s)
    && KeepsWishes(was, now, if recorded then {s} else {})
    && (agree ==> KeepsBound(was, now, {}))
  }

  lemma BindingCompose(a: map<string, Binding>, b: map<string, Binding>, c: map<string, Binding>, s: string,
                       recorded: bool, agree: bool)
    ensures BindingStep(a, a, s, false, agree) && BindingStep(b, b, s, false, agree)
    ensures BindingStep(a, b, s, false, agree) && BindingStep(b, c, s, recorded, true) ==>
      BindingStep(a, c, s, recorded, agree)
  {
  }

  lemma Rebinds(bindings: map<string, Binding>, s: string, b: Binding, agree: bool)
    requires s in bindings ==> b.wantsSmb == bindings[s].wantsSmb && (agree ==> b.username == bindings[s].username)
    ensures BindingStep(bindings, bindings, s, false, agree) && BindingStep(bindings, bindings[s := b], s, false, agree)
  {
  }

  /** The account an apply succeeded on: as desired, and the one its binding names. */
  ghost predicate Lands(ix: Index, d: Desired, users: map<Id, Account>, b: Binding, id: Id, agree: bool, name: string) {
    && id in users && (OneToOne(ix) ==> Desires(ix, d, users[id]))
    && (agree ==> users[id].username == b.username == name)
  }

  /**
   The subject is bound to that name with SMB wanted off, and no account of that name has it;
   with `here`, there is one.
   */
  ghost predicate OffFor(users: map<Id, Account>, bindings: map<string, Binding>, s: string, name: string, here: bool) {
    && s in bindings && bindings[s].username == name && bindings[s].wantsSmb == Some(false)
    && (forall i :: i in users && users[i].username == name ==> !users[i].smb)
    && (here ==> OnName(users, name))
  }

  /** Whoever had SMB off for good still does, except for the subjects in `but`. */
  ghost predicate KeepsOff(users: map<Id, Account>, bindings: map<string, Binding>, users': map<Id, Account>,
                           bindings': map<string, Binding>, but: set<string>, removes: bool) {
    forall s, name, here :: s !in but && (removes ==> !here) && OffFor(users, bindings, s, name, here) ==>
      OffFor(users', bindings', s, name, here)
  }

  lemma OffCompose(users: map<Id, Account>, bindings: map<string, Binding>, users': map<Id, Account>,
                   bindings': map<string, Binding>, users'': map<Id, Account>, bindings'': map<string, Binding>,
                   but: set<string>, removes: bool, all: set<string>, any: bool)
    requires KeepsOff(users, bindings, users', bindings', all, any)
    requires KeepsOff(users', bindings', users'', bindings'', but, removes)
    requires but <= all && (removes ==> any)
    ensures KeepsOff(users, bindings, users'', bindings'', all, any)
  {
    forall s, name, here | s !in all && (any ==> !here) && OffFor(users, bindings, s, name, here)
      ensures OffFor(users'', bindings'', s, name, here)
    {
      assert OffFor(users', bindings', s, name, here);
    }
  }

  lemma OffStill(users: map<Id, Account>, bindings: map<string, Binding>, users': map<Id, Account>,
                 bindings': map<string, Binding>, but: set<string>, s: string, name: string, here: bool)
    requires KeepsOff(users, bindings, users', bindings', but, !here)
    requires s !in but && OffFor(users, bindings, s, name, here)
    ensures OffFor(users', bindings', s, name, here)
  {
  }

  /** An apply unsettles its own subject only, and only when it wants SMB on. */
  lemma ApplyKeeps(users: map<Id, Account>, bindings: map<string, Binding>, users': map<Id, Account>,
                   bindings': map<string, Binding>, s: string, at: Option<Subject>, recorded: bool, on: bool,
                   agree: bool)
    requires AccountStep(users, users', at) && BindingStep(bindings, bindings', s, recorded, agree)
    requires recorded && !on ==> s in bindings' && bindings'[s].wantsSmb == Some(false)
    ensures KeepsNames(users, users') && KeepsWishes(bindings, bindings', if recorded then {s} else {})
    ensures agree ==> KeepsOff(users, bindings, users', bindings', if on then {s} else {}, false)
  {
    forall t, name, here | agree && t !in (if on then {s} else {}) && OffFor(users, bindings, t, name, here)
      ensures OffFor(users', bindings', t, name, here)
    {
      OnNameKept(users, users', name);
    }
  }

  lemma OnNameKept(users: map<Id, Account>, users': map<Id, Account>, name: string)
    requires KeepsNames(users, users')
    ensures OnName(users, name) ==> OnName(users', name)
  {
    if OnName(users, name) {
      var i :| i in users && users[i].username == name;
      assert users'[i].username == name;
    }
  }

  /** A password that switches SMB on does so for the account of a subject who wants it on. */
  lemma OffWithPassword(users: map<Id, Account>, bindings: map<string, Binding>, s: string, id: Id)
    requires BindingsAgree(users, bindings) && s in bindings && Denotes(users, bindings[s], id)
    ensures var users' := users[id := WithPassword(users[id], bindings[s].wantsSmb == Some(true))];
      KeepsOff(users, bindings, users', bindings, {}, false)
    ensures KeepsOff(users, bindings, users[id := WithPassword(users[id], false)], bindings, {}, false)
  {
    forall name ensures OnName(users, name) ==>
      OnName(users[id := WithPassword(users[id], bindings[s].wantsSmb == Some(true))], name) &&
      OnName(users[id := WithPassword(users[id], false)], name)
    {
      OnNameKept(users, users[id := WithPassword(users[id], bindings[s].wantsSmb == Some(true))], name);
      OnNameKept(users, users[id := WithPassword(users[id], false)], name);
    }
  }

  /** A purge takes away its own subject's account only. */
  lemma OffWithPurge(users: map<Id, Account>, bindings: map<string, Binding>, s: string, id: Id)
    requires BindingsAgree(users, bindings) && s in bindings && Denotes(users, bindings[s], id)
    ensures KeepsOff(users, bindings, users - {id}, bindings, {s}, false)
    ensures KeepsOff(users, bindings, users - {id}, bindings - {s}, {s}, false)
  {
    forall t, name, here | t != s && OffFor(users, bindings, t, name, here)
      ensures here ==> OnName(users - {id}, name)
    {
      if here {
        var i :| i in users && users[i].username == name;
        assert i in users - {id} && (users - {id})[i].username == name;
      }
    }
  }

  /** Every binding outside `but` still there, with the SMB wish it had. */
  ghost predicate KeepsWishes(was: map<string, Binding>, now: map<string, Binding>, but: set<string>) {
    forall t :: t in was && t !in but ==> t in now && now[t].wantsSmb == was[t].wantsSmb
  }

  /** No binding but the subject's own has changed. */
  ghost predicate OnlyBinding(was: map<string, Binding>, now: map<string, Binding>, s: string) {
    now - {s} == was - {s}
  }

  /** The wish is on the binding, and the account is listed as off exactly when it was for off. */
  ghost predicate WishKept(want: bool, b: Binding, id: Id, was: set<Id>, now: set<Id>) {
    b.wantsSmb == Some(want) && now == if want then was - {id} else was + {id}
  }

  /** A new account made with the desired groups and lock has them. */
  lemma NewIsDesired(ix: Index, d: Desired, a: Account)
    requires OneToOne(ix) && !a.smb
    requires Group in d.managed ==> IdsFor(ix, d.groups) == Some(a.groups)
    requires Enabled in d.managed ==> a.locked == !d.enabled
    ensures Desires(ix, d, a)
  {
    if Group in d.managed { WrittenIsRead(ix, d.groups); }
  }

  lemma AppliedDesires(ix: Index, d: Desired, id: Id, a: Account, stat: Stat, q: QuotaRead, b: Account)
    requires OneToOne(ix) && ConvergeCalls(ix, d, SubjectOf(ix, id, a), stat, q).Done?
    requires var calls := ConvergeCalls(ix, d, SubjectOf(ix, id, a), stat, q).calls;
      b == if calls != [] && calls[0].UpdateUser? then Patched(a, calls[0].patch) else a
    ensures Desires(ix, d, b)
  {
    hide ConvergeCalls, Desires, OneToOne;
    ConvergesInOne(ix, d, id, a, stat, q, b);
  }

  lemma DesiresAnyRoot(ix: Index, d: Desired, root: string, a: Account)
    ensures Desires(ix, d.(homeRoot := root), a) <==> Desires(ix, d, a)
  {
  }

  lemma WishesCompose(a: map<string, Binding>, b: map<string, Binding>, c: map<string, Binding>, but: set<string>)
    ensures KeepsWishes(a, a, {})
    ensures KeepsWishes(a, b, {}) && KeepsWishes(b, c, but) ==> KeepsWishes(a, c, but)
  {
  }

  lemma WishesWeaken(was: map<string, Binding>, now: map<string, Binding>, but: set<string>, more: set<string>)
    requires KeepsWishes(was, now, but) && but <= more
    ensures KeepsWishes(was, now, more)
  {
  }

  /** For an account that does not exist yet, a folder that is there at all is someone else's. */
  lemma NewHomeIsFree(d: Desired, name: string, owners: map<string, int>, readable: bool)
    ensures var h := DecideHome(d, name, "", -1, StatOf(owners, Join(d.homeRoot, name), readable));
      && (h.Some? <==> (LacksHome(d, "") ==> readable))
      && (h.Some? ==> (if h.value.path != "" then h.value.path else "/var/empty") == NewHome(d, owners, readable, name))
      && (h.Some? && h.value.path != "" ==> h.value.path !in owners)
  {
    HomeGiven(d, name, "", -1, StatOf(owners, Join(d.homeRoot, name), readable));
  }

  /**
   A folder that is already there is handed to an account exactly when that account's number owns
   it: so never to a number no folder belongs to, and always to one that is used a second time.
   */
  lemma TakesOverIff(d: Desired, name: string, owners: map<string, int>, uid: nat)
    requires Home in d.managed && d.wantsHome && (Enabled in d.managed ==> d.enabled) && d.homeRoot != ""
    ensures var path := Join(d.homeRoot, name);
      var h := DecideHome(d, name, "", uid, StatOf(owners, path, true));
      (h.Some? && h.value.path != "" && h.value.path in owners) <==> (path in owners && owners[path] == uid)
  {
  }

  function StatOf(owners: map<string, int>, path: string, readable: bool): Stat {
    if !readable then Stat.Unreadable else if path in owners then OwnedBy(owners[path]) else Free
  }

  /** A created account's home is its own: the folder belongs to its number. */
  lemma HomesAreOwned(r: Range, users: map<Id, Account>, owners: map<string, int>, mark: int, created: set<int>,
                      given: set<(int, string)>)
    requires HomeOk(r, users, owners, mark, created, given)
    ensures forall i :: Homed(users, created, i) ==> users[i].home in owners && owners[users[i].home] == users[i].uid
  {
    forall i | Homed(users, created, i) ensures users[i].home in owners && owners[users[i].home] == users[i].uid {
      assert (users[i].uid, users[i].home) in given;
    }
  }

  /** A number first used after the mark had no folder then, so its home was not there either. */
  lemma HomesWereFree(r: Range, users: map<Id, Account>, was: map<string, int>, now: map<string, int>, mark: int,
                      mark': int,
                      created: set<int>, given: set<(int, string)>)
    requires HomeOk(r, users, now, mark', created, given) && KeepsOwners(was, now) && FoldersClaimed(r, was, mark)
    requires forall u :: u in created ==> mark < u
    ensures forall i :: Homed(users, created, i) ==> users[i].home !in was
  {
    forall i | Homed(users, created, i) ensures users[i].home !in was {
      assert (users[i].uid, users[i].home) in given;
    }
  }
}
