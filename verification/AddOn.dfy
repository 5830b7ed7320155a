/**
 The add-on at work on one target: applies, passwords, adoption, release and purge, with its
 own bindings and identity numbers, over runs in which any call may fail, or take effect and
 lose its answer.
 */
module AddOns {
  import opened Options
  import opened Subjects
  import opened Target
  import opened Converge
  import opened Locating
  import opened Invariants
  import opened Changes

  /** A call works, is refused with no effect, or takes effect and is reported as failed. */
  datatype Fate = Works | Refused | Lost

  /**
   Everything outside the add-on that one apply depends on: whether the target honours query
   filters, the record id it gives a new account, and how each call and each store write ends.
   */
  datatype Env = Env(
    filtered: bool, stored: bool, newId: Id, validName: bool, groupCreate: Fate, orphanSeen: bool, undone: bool,
    statReadable: bool, userCreate: Fate, readBack: bool, update: Fate, quota: QuotaRead, quotaSet: bool,
    remembered: bool)

  /** The answer of a one-account lookup. */
  datatype Resolved = Found(id: Id) | Missing | Ambiguous

  class AddOn {
    const range: Range
    // The digest fingerprints are compared by.
    const hash: string -> string

    // The target.
    var users: map<Id, Account>
    // Each group's gid.
    var groups: map<Id, int>
    var owners: map<string, int>
    // Calls the target turned down by its credential and SMB rules.
    var refusals: nat

    // The add-on's own store.
    var bindings: map<string, Binding>
    var highWater: Option<int>
    var homeRoot: string

    // Accounts whose last successful apply that managed SMB wanted it off.
    ghost var off: set<Id>
    // Numbers accounts were created with, and folders given to numbers, over the whole run.
    ghost var created: set<int>
    ghost var given: set<(int, string)>

    /** The last number that may be in use: the stored mark, or just below the range. */
    ghost function Mark(): int
      reads this
    {
      MarkOf(range, highWater)
    }

    ghost predicate SmbSafe()
      reads this
    {
      SmbOk(range, users, bindings, off, Mark())
    }

    ghost predicate HomesSafe()
      reads this
    {
      HomeOk(range, users, owners, Mark(), created, given)
    }

    /** The target as it is found and the store as it was left. */
    constructor (range: Range, hash: string -> string, users: map<Id, Account>, groups: map<Id, int>,
                 owners: map<string, int>, bindings: map<string, Binding>, highWater: Option<int>, homeRoot: string)
      ensures this.range == range && this.hash == hash
      ensures this.users == users && this.groups == groups && this.owners == owners && refusals == 0
      ensures this.bindings == bindings && this.highWater == highWater && this.homeRoot == homeRoot
      ensures off == {} && created == {} && given == {}
    {
      this.range, this.hash, this.users, this.groups, this.owners, refusals := range, hash, users, groups, owners, 0;
      this.bindings, this.highWater, this.homeRoot := bindings, highWater, homeRoot;
      off, created, given := {}, {}, {};
    }

    /** Every in-range number on the target is at or below the mark. */
    ghost predicate Numbered()
      reads this
    {
      NumbersBelow(range, users, groups, Mark())
    }

    twostate predicate Counts(one: bool)
      reads this
    {
      Counted(range, old(users), old(groups), old(Mark()), users, groups, Mark(), one)
    }

    /** As things stand, the account can be made. */
    ghost predicate Makes(name: string, ix: Index, d: Desired, env: Env)
      reads this
    {
      CanMake(range, Mark(), users, groups, owners, name, ix, d, env)
    }

    /** As things stand, creating the account for the subject would succeed. */
    ghost predicate Creates(s: string, name: string, ix: Index, d: Desired, env: Env)
      reads this
    {
      CreateWorks(range, Mark(), users, groups, owners, bindings, s, name, ix, d, env)
    }

    /** Over any stretch of a run nothing is forgotten, and a number first used in it was first claimed in it. */
    twostate predicate Grew()
      reads this
    {
      Grown(old(created), old(given), old(owners), old(Mark()), created, given, owners, Mark())
    }

    // -------------------------------------------------------------- identity numbers

    /** The next number above both the stored mark and the highest seen on the target. */
    method ClaimId(observed: int) returns (claimed: Option<int>)
      modifies `highWater
      ensures claimed.None? ==> highWater == old(highWater)
      ensures claimed.Some? <==> old(Mark()) < range.ceiling && observed < range.ceiling
      ensures claimed.Some? ==> Within(range, claimed.value)
      ensures claimed.Some? ==> claimed.value - 1 == if observed > old(Mark()) then observed else old(Mark())
      ensures claimed.Some? ==> highWater == claimed && Mark() == claimed.value
    {
      var last := range.floor - 1;
      if highWater.Some? && highWater.value > last {
        last := highWater.value;
      }
      if observed > last {
        last := observed;
      }
      if last + 1 > range.ceiling { return None; }
      highWater := Some(last + 1);
      claimed := highWater;
    }

    /** A number free as a uid and as a gid: above every in-range one of either. */
    method NextIdentity() returns (claimed: Option<int>)
      modifies `highWater
      ensures claimed.None? ==> highWater == old(highWater)
      ensures claimed.Some? <==> NumberLeft(range, old(Mark()), users, groups)
      ensures claimed.Some? ==> Within(range, claimed.value) && claimed.value > old(Mark()) && Mark() == claimed.value
      ensures claimed.Some? ==> claimed.value > 0 && JustAbove(range, users, groups, old(Mark()), claimed.value)
      ensures claimed.Some? ==> forall i :: i in users && Within(range, users[i].uid) ==> users[i].uid < claimed.value
      ensures claimed.Some? ==> forall g :: g in groups && Within(range, groups[g]) ==> groups[g] < claimed.value
    {
      var uids := map i | i in users :: users[i].uid;
      var uid := HighestIn(range, uids);
      assert forall i :: i in users ==> i in uids && uids[i] == users[i].uid;
      var gid := HighestIn(range, groups);
      claimed := ClaimId(if gid > uid then gid else uid);
    }

    // -------------------------------------------------------------- bindings

    /** Binds only when no other subject holds the username; check and put are one transaction. */
    method BindIfFree(s: string, b: Binding) returns (ok: bool)
      modifies `bindings
      ensures ok <==> forall t :: t in old(bindings) && t != s ==> old(bindings)[t].username != b.username
      ensures bindings == if ok then old(bindings)[s := b] else old(bindings)
    {
      var left := bindings.Keys;
      while left != {}
        invariant left <= bindings.Keys && bindings == old(bindings)
        invariant forall t :: t in bindings && t !in left && t != s ==> bindings[t].username != b.username
        decreases left
      {
        var t :| t in left;
        if t != s && bindings[t].username == b.username { return false; }
        left := left - {t};
      }
      bindings := bindings[s := b];
      ok := true;
    }

    // -------------------------------------------------------------- calls to the target

    /** `user.query` with one exact-key filter, which a target may ignore. */
    method Query(k: Key, filtered: bool) returns (sent: seq<Row>)
      ensures Answers(users, k, sent)
      ensures filtered ==> forall r :: r in sent ==> Matches(k, r.account)
      ensures forall i :: i in users && (!filtered || Matches(k, users[i])) ==> Row(i, users[i]) in sent
      ensures |sent| <= |users| && forall m, n :: 0 <= m < n < |sent| ==> sent[m].id != sent[n].id
    {
      sent := [];
      var left := users.Keys;
      while left != {}
        invariant left <= users.Keys
        invariant forall r :: r in sent ==> r.id in users && r.id !in left && users[r.id] == r.account
        invariant filtered ==> forall r :: r in sent ==> Matches(k, r.account)
        invariant |sent| + |left| <= |users| && forall m, n :: 0 <= m < n < |sent| ==> sent[m].id != sent[n].id
        invariant forall i :: i in users && i !in left && (!filtered || Matches(k, users[i])) ==>
          Row(i, users[i]) in sent
        decreases left
      {
        var i :| i in left;
        if !filtered || Matches(k, users[i]) {
          sent := sent + [Row(i, users[i])];
        }
        left := left - {i};
      }
    }

    /**
     Exactly one account by one key, or why not. The key is not compared again on this side, so
     where the target ignores the filter the only account there is answers for any key.
     */
    method LookupOne(k: Key, filtered: bool) returns (r: Resolved)
      ensures r.Found? ==> r.id in users
      ensures r.Found? ==> (Matches(k, users[r.id]) <==> filtered || OnlyMatch(users, k))
      ensures filtered && r.Found? ==> forall i :: i in users && Matches(k, users[i]) ==> i == r.id
      ensures filtered ==> (r.Missing? <==> forall i :: i in users ==> !Matches(k, users[i]))
      ensures filtered && r.Ambiguous? ==>
        exists i, j :: i in users && j in users && i != j && Matches(k, users[i]) && Matches(k, users[j])
      ensures !filtered ==> (r.Found? <==> |users| == 1)
    {
      hide OnlyMatch;
      var rows := Query(k, filtered);
      if |rows| > 1 {
        assert rows[0] in rows && rows[1] in rows && rows[0].id != rows[1].id;
        return Ambiguous;
      }
      if |rows| == 0 { return Missing; }
      assert rows[0] in rows;
      if !filtered { SoleRow(users, k, rows); }
      r := Found(rows[0].id);
    }

    /** The record of a bound account: by uid first, by name when no account has that uid. */
    method RecordId(b: Binding, filtered: bool) returns (r: Resolved)
      ensures r.Found? ==> r.id in users
      ensures filtered && r.Found? ==> Denotes(users, b, r.id)
      ensures filtered && DistinctAccounts(users) && OnName(users, b.username) ==> r.Found?
      ensures !filtered ==> (r.Found? <==> |users| == 1)
    {
      if b.uid != 0 {
        r := LookupOne(ByUid(b.uid), filtered);
        if !r.Missing? { return; }
        assert filtered ==> forall i :: i in users ==> !Matches(ByUid(b.uid), users[i]);
      }
      r := LookupOne(ByName(b.username), filtered);
    }

    /** `user.update`, refused when the credential and SMB rules say so. */
    method UserUpdate(id: Id, p: Patch, fate: Fate) returns (ok: bool)
      requires id in users
      requires p.home.Some? ==> p.home.value !in owners || owners[p.home.value] == users[id].uid
      modifies `users, `owners, `refusals, `given
      ensures refusals == if UpdateAllowed(old(users)[id], p) then old(refusals) else old(refusals) + 1
      ensures users ==
        if UpdateAllowed(old(users)[id], p) && !fate.Refused? then old(users)[id := Patched(old(users)[id], p)]
        else old(users)
      ensures old(SmbSafe()) && (p.smb == Some(true) ==> id !in off) ==> SmbSafe()
      ensures old(HomesSafe()) ==> HomesSafe()
      ensures ok <==> fate.Works? && UpdateAllowed(old(users)[id], p)
      ensures owners ==
        if p.home.Some? && UpdateAllowed(old(users)[id], p) && !fate.Refused?
        then Owned(old(owners), p.home.value, old(users)[id].uid) else old(owners)
      ensures ok && p.home.Some? ==> (users[id].uid, p.home.value) in given
      ensures old(given) <= given && KeepsOwners(old(owners), owners)
      ensures KeepsNames(old(users), users)
    {
      hide SmbOk, HomeOk;
      if !UpdateAllowed(users[id], p) {
        refusals := refusals + 1;
        return false;
      }
      if fate.Refused? { return false; }
      if SmbSafe() && (p.smb == Some(true) ==> id !in off) { SmbUpdate(range, users, bindings, off, Mark(), id, p); }
      if HomesSafe() { HomeUpdate(range, users, owners, Mark(), created, given, id, p); }
      ghost var uid := users[id].uid;
      users := users[id := Patched(users[id], p)];
      if p.home.Some? {
        owners := Owned(owners, p.home.value, users[id].uid);
        given := given + {(uid, p.home.value)};
      }
      ok := fate.Works?;
    }

    /** `user.create`, refused when the name or number is taken or the rules say so. */
    method UserCreate(id: Id, a: Account, fate: Fate, ghost mark: int) returns (ok: bool)
      requires Within(range, a.uid) && mark < a.uid <= Mark()
      requires forall i :: i in users && Within(range, users[i].uid) ==> users[i].uid < a.uid
      requires !a.smb && (HomeOf(a.home) == "" || a.home !in owners)
      modifies `users, `owners, `refusals, `created, `given
      ensures refusals == if CreateAllowed(a, false) then old(refusals) else old(refusals) + 1
      ensures users == old(users) || (id !in old(users) && users == old(users)[id := a])
      ensures ok ==> id !in old(users) && users == old(users)[id := a]
      ensures old(SmbOk(range, users, bindings, off, mark)) ==> SmbSafe()
      ensures old(HomeOk(range, users, owners, mark, created, given)) ==> HomesSafe()
      ensures old(given) <= given && KeepsOwners(old(owners), owners)
      ensures created == if users == old(users) then old(created) else old(created) + {a.uid}
      ensures owners ==
        if users != old(users) && a.home !in {"/var/empty", "/nonexistent", ""} then old(owners)[a.home := a.uid]
        else old(owners)
      ensures ok <==> fate.Works? && CreateAllowed(a, false) && id !in old(users) && !OnName(old(users), a.username)
    {
      hide SmbOk, HomeOk;
      if SmbOk(range, users, bindings, off, mark) { SmbMark(range, users, bindings, off, mark, Mark()); }
      if HomeOk(range, users, owners, mark, created, given) {
        HomeMark(range, users, owners, mark, created, given, Mark());
      }
      if !CreateAllowed(a, false) {
        refusals := refusals + 1;
        return false;
      }
      if id in users || fate.Refused? || exists i :: i in users && users[i].username == a.username { return false; }
      if SmbOk(range, users, bindings, off, mark) { SmbCreate(range, users, bindings, off, mark, id, a, Mark()); }
      if HomeOk(range, users, owners, mark, created, given) {
        HomeCreate(range, users, owners, mark, created, given, id, a, Mark());
      }
      users := users[id := a];
      created := created + {a.uid};
      if HomeOf(a.home) != "" {
        owners := owners[a.home := a.uid];
        given := given + {(a.uid, a.home)};
      }
      ok := fate.Works?;
    }

    // -------------------------------------------------------------- one apply

    /** Brings an existing account onto the desired state. */
    method ConvergeAccount(ix: Index, d: Desired, s: Subject, env: Env) returns (ok: bool)
      requires s.id in users && s == SubjectOf(ix, s.id, users[s.id])
      modifies `users, `owners, `refusals, `given
      ensures old(SmbSafe()) ==> SmbSafe() && refusals == old(refusals)
      ensures old(HomesSafe()) ==> HomesSafe()
      ensures s.id in users && users == old(users)[s.id := users[s.id]] && users[s.id].username == s.username
      ensures ok && Field.Smb in d.managed && !d.smbEnabled ==> !users[s.id].smb
      ensures ok && OneToOne(ix) ==> Desires(ix, d, users[s.id])
      ensures AsPlanned(ix, d, Some(s), old(owners), env, old(users), users, ok)
      ensures ok ==> Converges(ix, d, s, old(owners), env)
      ensures old(SmbSafe()) && Converges(ix, d, s, old(owners), env) ==> ok
      ensures old(given) <= given && KeepsOwners(old(owners), owners)
      ensures AccountStep(old(users), users, Some(s))
    {
      hide ConvergeCalls, SmbOk, HomeOk, IdsFor, Names, Builtins, Desires, OneToOne, AccountStep, KeepsNames, LacksHome;
      ghost var a := users[s.id];
      var stat := StatOf(owners, Join(d.homeRoot, s.username), env.statReadable);
      var r := ConvergeCalls(ix, d, s, stat, env.quota);
      Unmoved(users, Some(s));
      if r.Fails? { return false; }
      PatchShape(ix, d, s, stat, env.quota);
      UpdatesOwn(ix, d, s, stat, env.quota);
      AccountStepAt(users, s, a);
      NothingPatched(a, r.calls);
      ok := r.calls != [] && r.calls[0].SetQuota? ==> env.quotaSet;
      if r.calls != [] && r.calls[0].UpdateUser? {
        NeverBare(s.id, r.calls[0].patch);
        AccountStepAt(users, s, Patched(users[s.id], r.calls[0].patch));
        ok := UserUpdate(s.id, r.calls[0].patch, env.update);
      }
      if ok && OneToOne(ix) { AppliedDesires(ix, d, s.id, a, stat, env.quota, users[s.id]); }
    }

    /** An update that neither enables SMB nor touches the credential breaks no rule. */
    lemma NeverBare(id: Id, p: Patch)
      requires id in users && p.smb != Some(true) && p.passwordDisabled.None?
      ensures SmbSafe() ==> UpdateAllowed(users[id], p)
    {
    }

    /** A claimed number, a personal group and an account with both, or nothing that counts. */
    method MakeAccount(name: string, ix: Index, d: Desired, env: Env) returns (uid: Option<int>)
      modifies `users, `groups, `owners, `refusals, `highWater, `created, `given
      ensures refusals == old(refusals)
      ensures old(SmbSafe()) ==> SmbSafe()
      ensures old(HomesSafe()) ==> HomesSafe()
      ensures users == old(users) ||
        (Mark() > old(Mark()) && AddsFor(d, old(owners), env, old(users), users, name, Mark()))
      ensures uid.Some? <==> CanMake(range, old(Mark()), old(users), old(groups), old(owners), name, ix, d, env)
      ensures uid.Some? ==> uid.value == Mark() && AddsFor(d, old(owners), env, old(users), users, name, Mark())
      ensures uid.Some? && OneToOne(ix) ==> env.newId in users && Desires(ix, d, users[env.newId])
      ensures GroupStep(old(groups), groups, env.newId, Mark(), uid.Some?)
      ensures Grew() && Counts(true)
    {
      hide SmbOk, HomeOk, IdsFor, Adds, Desires, OneToOne, Creatable, NumberLeft, Counted, JustAbove, NewHome;
      hide GroupStep;
      NothingCounted(true);
      NoGroup(groups, env.newId, Mark());
      if !env.validName { return None; }
      var want := Decide(None, d, NO_HOME);
      var ids := if want.groups.Some? then IdsFor(ix, want.groups.value) else Some([]);
      if ids.None? { return None; }
      ghost var mark := Mark();
      uid := NextIdentity();
      if uid.Some? {
        var ok := CreateNumbered(name, uid.value, ids.value, want.locked == Some(true), d, env, mark);
        GroupOutcome(old(groups), groups, uid.value, env, ok);
        NumberCounted(range, old(users), old(groups), mark, users, groups, uid.value, env.newId, name,
                      NewHome(d, old(owners), env.statReadable, name));
        if !ok { return None; }
        if OneToOne(ix) { NewIsDesired(ix, d, users[env.newId]); }
      }
    }

    /** The personal group. One made by a call whose answer was lost is found again, empty, and taken. */
    method MakeGroup(id: Id, gid: int, fate: Fate, orphanSeen: bool) returns (ok: bool)
      modifies `groups
      ensures groups == if fate.Refused? then old(groups) else old(groups)[id := gid]
      ensures ok <==> fate.Works? || (fate.Lost? && orphanSeen)
    {
      if fate.Refused? { return false; }
      groups := groups[id := gid];
      ok := fate.Works? || orphanSeen;
    }

    /** The personal group first, then the account in it; a refused account takes the group with it. */
    method CreateNumbered(name: string, uid: int, ids: seq<Id>, locked: bool, d: Desired, env: Env, ghost mark: int)
      returns (ok: bool)
      requires Within(range, uid) && mark < uid == Mark()
      requires forall i :: i in users && Within(range, users[i].uid) ==> users[i].uid < uid
      modifies `users, `groups, `owners, `refusals, `created, `given
      ensures refusals == old(refusals)
      ensures old(SmbOk(range, users, bindings, off, mark)) ==> SmbSafe()
      ensures old(HomeOk(range, users, owners, mark, created, given)) ==> HomesSafe()
      ensures users == old(users) || AddsFor(d, old(owners), env, old(users), users, name, uid)
      ensures ok <==> GroupMade(env) && Creatable(old(users), old(owners), name, d, env)
      ensures ok ==> AddsFor(d, old(owners), env, old(users), users, name, uid)
      ensures groups ==
        if env.groupCreate.Refused? then old(groups)
        else if ok || env.groupCreate.Lost? || !env.undone then old(groups)[env.newId := uid]
        else old(groups) - {env.newId}
      ensures ok ==> env.newId in users && users[env.newId].groups == ids
      ensures ok ==> users[env.newId].locked == locked && !users[env.newId].smb
      ensures created == old(created) || created == old(created) + {uid}
      ensures old(given) <= given && KeepsOwners(old(owners), owners)
    {
      hide SmbOk, HomeOk, Adds, Within, Creatable, NewHome;
      Raised(mark);
      ok := MakeGroup(env.newId, uid, env.groupCreate, env.orphanSeen);
      if ok {
        ok := CreateHomed(name, uid, ids, locked, d, env, mark);
        if !ok && env.groupCreate.Works? && env.undone {
          groups := groups - {env.newId};
        }
      }
    }

    /** The account, with a home when its folder is free. */
    method CreateHomed(name: string, uid: int, ids: seq<Id>, locked: bool, d: Desired, env: Env, ghost mark: int)
      returns (ok: bool)
      requires Within(range, uid) && mark < uid == Mark()
      requires forall i :: i in users && Within(range, users[i].uid) ==> users[i].uid < uid
      modifies `users, `owners, `refusals, `created, `given
      ensures refusals == old(refusals)
      ensures old(SmbOk(range, users, bindings, off, mark)) ==> SmbSafe()
      ensures old(HomeOk(range, users, owners, mark, created, given)) ==> HomesSafe()
      ensures users == old(users) || AddsFor(d, old(owners), env, old(users), users, name, uid)
      ensures ok <==> Creatable(old(users), old(owners), name, d, env)
      ensures ok ==> AddsFor(d, old(owners), env, old(users), users, name, uid)
      ensures ok ==> env.newId in users && users[env.newId].groups == ids
      ensures ok ==> users[env.newId].locked == locked && !users[env.newId].smb
      ensures created == old(created) || created == old(created) + {uid}
      ensures old(given) <= given && KeepsOwners(old(owners), owners)
    {
      hide SmbOk, HomeOk, DecideHome, StatOf, Within, NewHome, LacksHome;
      Raised(mark);
      var home := DecideHome(d, name, "", -1, StatOf(owners, Join(d.homeRoot, name), env.statReadable));
      NewHomeIsFree(d, name, owners, env.statReadable);
      if home.None? { return false; }
      var path := if home.value.path != "" then home.value.path else "/var/empty";
      ok := UserCreate(env.newId, Account(name, uid, locked, false, true, false, ids, path), env.userCreate, mark);
    }

    lemma NothingCounted(one: bool)
      ensures Counted(range, users, groups, Mark(), users, groups, Mark(), one)
    {
      NotCounted(range, users, users, groups, Mark(), one);
    }

    /** A raised mark breaks nothing. */
    lemma Raised(mark: int)
      requires mark <= Mark()
      ensures SmbOk(range, users, bindings, off, mark) ==> SmbSafe()
      ensures HomeOk(range, users, owners, mark, created, given) ==> HomesSafe()
    {
      if SmbOk(range, users, bindings, off, mark) { SmbMark(range, users, bindings, off, mark, Mark()); }
      if HomeOk(range, users, owners, mark, created, given) {
        HomeMark(range, users, owners, mark, created, given, Mark());
      }
    }

    /** Makes the account as part of the convergence and records whose it is. */
    method CreateAndConverge(s: string, b: Binding, ix: Index, d: Desired, env: Env) returns (ok: bool)
      requires if s in bindings then bindings[s] == b else b.wantsSmb.None?
      modifies `users, `groups, `owners, `refusals, `highWater, `bindings, `created, `given
      ensures old(SmbSafe()) ==> SmbSafe()
      ensures refusals == old(refusals)
      ensures old(HomesSafe()) ==> HomesSafe()
      ensures BindingStep(old(bindings), bindings, s, false, true)
      ensures users == old(users) ||
        (Mark() > old(Mark()) && AddsFor(d, old(owners), env, old(users), users, b.username, Mark()))
      ensures ok <==> old(Creates(s, b.username, ix, d, env))
      ensures ok ==> AddsFor(d, old(owners), env, old(users), users, b.username, Mark())
      // The binding follows the account, also where the account cannot be read back afterwards.
      ensures bindings ==
        if old(Makes(b.username, ix, d, env)) && NameFree(old(bindings), s, b.username)
        then old(bindings)[s := Binding(b.username, Mark(), b.wantsSmb)] else old(bindings)
      ensures ok && OneToOne(ix) ==> env.newId in users && Desires(ix, d, users[env.newId])
      ensures GroupStep(old(groups), groups, env.newId, Mark(), ok)
      ensures Grew() && Counts(true)
    {
      hide SmbOk, HomeOk, Desires, OneToOne, BindingStep, Grown, CanMake, Counted, NewHome, Adds;
      ghost var was, home := users, NewHome(d, owners, env.statReadable, b.username);
      var uid := MakeAccount(b.username, ix, d, env);
      BindingCompose(bindings, bindings, bindings, s, false, true);
      if uid.None? { return false; }
      ghost var before := bindings;
      Rebinds(before, s, Binding(b.username, uid.value, b.wantsSmb), true);
      ok := BindIfFree(s, Binding(b.username, uid.value, b.wantsSmb));
      if ok && SmbOk(range, users, before, off, Mark()) { BindsCreated(was, before, s, b, env.newId, home); }
      ok := ok && env.readBack;
    }

    lemma BindsCreated(was: map<Id, Account>, before: map<string, Binding>, s: string, b: Binding, id: Id, home: string)
      requires SmbOk(range, users, before, off, Mark()) && Adds(was, users, id, b.username, Mark(), home)
      requires b.wantsSmb == Some(true) ==> s in before && before[s] == b
      requires forall t :: t in before && t != s ==> before[t].username != b.username
      ensures SmbOk(range, users, before[s := Binding(b.username, Mark(), b.wantsSmb)], off, Mark())
    {
      SmbBind(range, users, before, off, Mark(), s, Binding(b.username, Mark(), b.wantsSmb));
    }

    /** Where the subject's account is, read from whatever the target sends. */
    method LocateFor(s: string, derived: Option<string>, ix: Index, filtered: bool) returns (l: Located)
      ensures IsTheirs(range, ix, users, bindings, s, SubjectAt(l))
      ensures l.Here? ==> s in bindings && l.binding.username == l.subject.username
      ensures l.Here? ==> l.binding.wantsSmb == bindings[s].wantsSmb
      ensures l.Here? ==> l.binding.uid == if Within(range, l.subject.uid) then l.subject.uid else bindings[s].uid
      ensures l.Absent? ==> l.binding.username == NameFor(bindings, s, derived)
      ensures l.Absent? ==> if s in bindings then bindings[s] == l.binding else l.binding.wantsSmb.None?
      ensures MayCreate(l) ==> !HasAccount(range, users, bindings, s, derived)
      ensures Vacant(range, users, bindings, s, derived) ==> MayCreate(l)
      ensures s in bindings && |users| <= READ_CAP && HasAccount(range, users, bindings, s, derived) && !l.Here? ==>
        Conflicted(range, users, bindings[s])
    {
      hide OnTarget, System, SubjectOf, Answers;
      var bound := if s in bindings then Some(bindings[s]) else None;
      var byName, byUid := [], [];
      if bound.Some? || derived.Some? {
        byName := Query(NameKey(bound, derived), filtered);
      }
      if bound.Some? {
        byUid := Query(ByUid(bound.value.uid), filtered);
      }
      l := LocateAccount(range, ix, bound, derived, byName, byUid, users);
      if l.Here? { FoundIsHeld(range, ix, users, bindings, s, derived, SubjectAt(l)); }
      if l.Taken? { NamedIsHeld(users, if bound.Some? then bound.value.username else derived.value); }
    }

    /** The same, and the binding brought up to date with what was found. */
    method FindAccount(s: string, derived: Option<string>, ix: Index, env: Env) returns (l: Located)
      modifies `bindings
      ensures IsTheirs(range, ix, users, old(bindings), s, SubjectAt(l))
      ensures old(SmbSafe()) ==> SmbSafe()
      ensures BindingStep(old(bindings), bindings, s, false, old(SmbSafe()))
      ensures !l.Here? ==> bindings == old(bindings)
      ensures l.Here? ==> s in bindings
      ensures l.Here? && old(SmbSafe()) ==>
        bindings[s].username == l.subject.username == NameFor(old(bindings), s, derived)
      ensures l.Here? && env.stored ==>
        bindings[s].username == l.subject.username && bindings[s].uid == UidKept(range, old(bindings)[s], l.subject.uid)
      ensures l.Absent? ==> l.binding.username == NameFor(old(bindings), s, derived)
      ensures l.Absent? ==> if s in bindings then bindings[s] == l.binding else l.binding.wantsSmb.None?
      ensures MayCreate(l) ==> !HasAccount(range, users, old(bindings), s, derived)
      ensures Vacant(range, users, old(bindings), s, derived) ==> MayCreate(l)
      ensures s in old(bindings) && |users| <= READ_CAP && !l.Here? ==>
        (HasAccount(range, users, old(bindings), s, derived) ==> Conflicted(range, users, old(bindings)[s]))
    {
      hide SmbOk, BindingStep, HasAccount, Conflicted, IsTheirs, Vacant;
      l := LocateFor(s, derived, ix, env.filtered);
      Rebinds(bindings, s, if s in bindings then bindings[s] else Binding("", 0, None), SmbSafe());
      if l.Here? {
        if SmbSafe() { Relocates(s, ix, l); }
        Rebinds(bindings, s, l.binding, SmbSafe());
        if l.binding != bindings[s] && env.stored {
          bindings := bindings[s := l.binding];
        }
      }
    }

    /** With bindings and target in agreement, finding an account never moves its name. */
    lemma Relocates(s: string, ix: Index, l: Located)
      requires SmbSafe() && l.Here? && s in bindings && IsTheirs(range, ix, users, bindings, s, SubjectAt(l))
      requires l.binding.username == l.subject.username && l.binding.wantsSmb == bindings[s].wantsSmb
      requires l.binding.uid in {bindings[s].uid, l.subject.uid}
      ensures bindings[s].username == l.subject.username
      ensures SmbOk(range, users, bindings[s := l.binding], off, Mark())
    {
      SmbBind(range, users, bindings, off, Mark(), s, l.binding);
    }

    /** Keeps what an apply asked for SMB on the subject's binding. */
    method RememberWanted(s: string, want: bool, ghost id: Id)
      requires s in bindings
      modifies `bindings, `off
      ensures bindings == old(bindings)[s := old(bindings)[s].(wantsSmb := Some(want))]
      ensures BindingStep(old(bindings), bindings, s, true, true)
      ensures off == if want then old(off) - {id} else old(off) + {id}
      ensures old(SmbSafe()) && id in users && users[id].username == old(bindings)[s].username ==>
        ((want || !users[id].smb) ==> SmbSafe())
    {
      hide SmbOk;
      if SmbSafe() && id in users && users[id].username == bindings[s].username && (want || !users[id].smb) {
        SmbWant(range, users, bindings, off, Mark(), s, id, want);
      }
      bindings := bindings[s := bindings[s].(wantsSmb := Some(want))];
      off := if want then off - {id} else off + {id};
    }

    /**
     One apply: find the account, check the plan still holds, then create or converge it. `at` is
     the subject's account as it was found, if there is one, and `id` the one a success is about.
     */
    method Apply(s: string, derived: Option<string>, desired: Desired, fingerprint: string, ix: Index, env: Env)
      returns (ok: bool, ghost at: Option<Subject>, ghost id: Id)
      modifies `users, `groups, `owners, `refusals, `highWater, `bindings, `created, `given, `off
      // What becomes of the wish, and of everybody else's binding.
      ensures ok ==> s in bindings
      ensures Remembers(ok, desired, env) ==> WishKept(desired.smbEnabled, bindings[s], id, old(off), off)
      ensures !Remembers(ok, desired, env) ==> off == old(off)
      ensures BindingStep(old(bindings), bindings, s, Remembers(ok, desired, env), old(SmbSafe()))
      // Success, and exactly when there is one.
      ensures ok ==> Lands(ix, desired, users, bindings[s], id, old(SmbSafe()), NameFor(old(bindings), s, derived))
      ensures at.Some? && fingerprint == hash(FingerprintBytes(at)) && old(SmbSafe()) ==>
        (ok <==> Converges(ix, desired.(homeRoot := homeRoot), at.value, old(owners), env))
      ensures Vacant(range, old(users), old(bindings), s, derived) && fingerprint == hash(FingerprintBytes(None)) ==>
        at.None? && (ok <==> old(Creates(s, NameFor(bindings, s, derived), ix, desired.(homeRoot := homeRoot), env)))
      ensures at.None? && s in old(bindings) && |old(users)| <= READ_CAP ==>
        (HasAccount(range, old(users), old(bindings), s, derived) ==> Conflicted(range, old(users), old(bindings)[s]))
      // Only the subject's own account is written to, as planned, and only if it is what was planned for.
      ensures IsTheirs(range, ix, old(users), old(bindings), s, at) && AccountStep(old(users), users, at)
      ensures AsPlanned(ix, desired.(homeRoot := homeRoot), at, old(owners), env, old(users), users, ok)
      ensures fingerprint != hash(FingerprintBytes(at)) ==>
        !ok && unchanged(`users, `groups, `owners, `refusals, `highWater)
      // An account is made only where the subject has none.
      ensures at.Some? || HasAccount(range, old(users), old(bindings), s, derived) ==>
        users.Keys == old(users).Keys && unchanged(`groups, `highWater, `created)
      // It gets the home that is due, a personal group and its number; its name and number are what is bound.
      ensures Enrols(desired.(homeRoot := homeRoot), at, old(owners), env, old(users), users,
                     NameFor(old(bindings), s, derived), Mark(), ok)
      ensures GroupStep(old(groups), groups, env.newId, Mark(), ok && at.None?)
      ensures ok && at.None? ==> id == env.newId && IsBoundTo(bindings[s], NameFor(old(bindings), s, derived), Mark())
      ensures at.Some? && s in old(bindings) && env.stored ==>
        s in bindings && IsBoundTo(bindings[s], at.value.username, UidKept(range, old(bindings)[s], at.value.uid))
      // What every step keeps.
      ensures old(SmbSafe()) ==> SmbSafe() && refusals == old(refusals)
      ensures old(HomesSafe()) ==> HomesSafe()
      ensures Grew() && Counts(true)
    {
      hide SmbOk, HomeOk, FingerprintBytes, HasAccount, SubjectOf, AccountStep, Counted, Enrols, GroupStep;
      hide BindingStep, Lands, IsTheirs, IsRead, Grown;
      hide Conflicted, Converges, WishKept, NameFor, MarkOf, Desires, OneToOne, Within, AsPlanned, CreateWorks, Vacant;
      ghost var before := bindings;
      var l := FindAccount(s, derived, ix, env);
      at := SubjectAt(l);
      ghost var found := bindings;
      TheirsIsRead(range, ix, users, before, s, at);
      ok, id := Carry(s, l, desired, fingerprint, ix, env, NameFor(before, s, derived));
      BindingCompose(before, found, bindings, s, Remembers(ok, desired, env), old(SmbSafe()));
      if ok { LandsFor(ix, desired, users, bindings[s], id, Named(l, s, found), old(SmbSafe()), NameAt(l)); }
    }

    /** What an apply does with what it found: nothing, unless that is what was planned for. */
    method Carry(s: string, l: Located, desired: Desired, fingerprint: string, ix: Index, env: Env, ghost name: string)
      returns (ok: bool, ghost id: Id)
      requires IsRead(ix, users, SubjectAt(l)) && (l.Here? ==> s in bindings) && (l.Absent? ==> NameAt(l) == name)
      requires l.Absent? ==> if s in bindings then bindings[s] == l.binding else l.binding.wantsSmb.None?
      modifies `users, `groups, `owners, `refusals, `highWater, `bindings, `created, `given, `off
      ensures old(SmbSafe()) && Named(l, s, old(bindings)) ==> SmbSafe() && refusals == old(refusals)
      ensures old(HomesSafe()) ==> HomesSafe()
      ensures Grew()
      ensures AccountStep(old(users), users, SubjectAt(l))
      ensures BindingStep(old(bindings), bindings, s, Remembers(ok, desired, env), true)
      ensures !Proceeds(hash, l, fingerprint) ==> !ok && unchanged(`users, `groups, `owners, `refusals, `highWater)
      ensures !MayCreate(l) ==> users.Keys == old(users).Keys && unchanged(`groups, `highWater, `created)
      ensures ok ==> Proceeds(hash, l, fingerprint) && s in bindings
      ensures ok ==> Lands(ix, desired, users, bindings[s], id, Named(l, s, old(bindings)), NameAt(l))
      ensures Remembers(ok, desired, env) ==> WishKept(desired.smbEnabled, bindings[s], id, old(off), off)
      ensures !Remembers(ok, desired, env) ==> off == old(off)
      ensures AsPlanned(ix, desired.(homeRoot := homeRoot), SubjectAt(l), old(owners), env, old(users), users, ok)
      ensures l.Here? && ok ==> Converges(ix, desired.(homeRoot := homeRoot), l.subject, old(owners), env)
      ensures l.Here? && Proceeds(hash, l, fingerprint) && old(SmbSafe()) ==>
        (Converges(ix, desired.(homeRoot := homeRoot), l.subject, old(owners), env) ==> ok)
      ensures l.Absent? && Proceeds(hash, l, fingerprint) ==>
        (ok <==> old(Creates(s, NameAt(l), ix, desired.(homeRoot := homeRoot), env)))
      ensures l.Here? ==> s in bindings && SameAccount(bindings[s], old(bindings)[s])
      ensures ok && !l.Here? ==> id == env.newId && IsBoundTo(bindings[s], name, Mark())
      ensures Enrols(desired.(homeRoot := homeRoot), SubjectAt(l), old(owners), env, old(users), users, name, Mark(),
                     ok)
      ensures GroupStep(old(groups), groups, env.newId, Mark(), ok && !l.Here?)
      ensures Counts(true)
    {
      hide SmbOk, HomeOk, FingerprintBytes, AccountStep, BindingStep, Lands, Counted, AddsFor;
      hide Grown, Converges, WishKept, MarkOf, CreateWorks;
      Unpatched(ix, desired.(homeRoot := homeRoot), users, owners, env, SubjectAt(l));
      hide AsPlanned, IsRead;
      NotGrown(created, given, owners, Mark());
      NothingCounted(true);
      BindingCompose(bindings, bindings, bindings, s, false, true);
      Unmoved(users, SubjectAt(l));
      id := "";
      ok := Proceeds(hash, l, fingerprint);
      if ok {
        ghost var found := bindings;
        ok, id := Settle(s, l, desired.(homeRoot := homeRoot), ix, env);
        if ok { LandsAnyRoot(ix, desired, homeRoot, users, bindings[s], id, Named(l, s, found), NameAt(l)); }
      }
    }

    /** The writing half, and the wish that goes with it. */
    method Settle(s: string, l: Located, d: Desired, ix: Index, env: Env) returns (ok: bool, ghost id: Id)
      requires l.Here? || l.Absent?
      requires IsRead(ix, users, SubjectAt(l)) && (l.Here? ==> s in bindings)
      requires l.Absent? ==> if s in bindings then bindings[s] == l.binding else l.binding.wantsSmb.None?
      modifies `users, `groups, `owners, `refusals, `highWater, `bindings, `created, `given, `off
      ensures old(SmbSafe()) && Named(l, s, old(bindings)) ==> SmbSafe() && refusals == old(refusals)
      ensures old(HomesSafe()) ==> HomesSafe()
      ensures Grew()
      ensures AccountStep(old(users), users, SubjectAt(l))
      ensures BindingStep(old(bindings), bindings, s, Remembers(ok, d, env), true)
      ensures l.Here? ==> users.Keys == old(users).Keys && unchanged(`groups, `highWater, `created)
      ensures ok ==> s in bindings && Lands(ix, d, users, bindings[s], id, Named(l, s, old(bindings)), NameAt(l))
      ensures Remembers(ok, d, env) ==> WishKept(d.smbEnabled, bindings[s], id, old(off), off)
      ensures !Remembers(ok, d, env) ==> off == old(off)
      ensures AsPlanned(ix, d, SubjectAt(l), old(owners), env, old(users), users, ok)
      ensures l.Here? && ok ==> Converges(ix, d, l.subject, old(owners), env)
      ensures l.Here? && old(SmbSafe()) && Converges(ix, d, l.subject, old(owners), env) ==> ok
      ensures l.Absent? ==> (ok <==> old(Creates(s, NameAt(l), ix, d, env)))
      ensures l.Here? ==> s in bindings && SameAccount(bindings[s], old(bindings)[s])
      ensures ok && l.Absent? ==> id == env.newId && IsBoundTo(bindings[s], NameAt(l), Mark())
      ensures Enrols(d, SubjectAt(l), old(owners), env, old(users), users, NameAt(l), Mark(), ok)
      ensures GroupStep(old(groups), groups, env.newId, Mark(), ok && l.Absent?)
      ensures Counts(true)
    {
      hide SmbOk, HomeOk, AccountStep, BindingStep, IsRead, Converges, Grown, Desires, OneToOne, AsPlanned, CreateWorks;
      hide Counted, Enrols, GroupStep;
      ghost var before := bindings;
      ok, id := WriteAccount(s, l, d, ix, env);
      if Remembers(ok, d, env) {
        ghost var written := bindings;
        RememberWanted(s, d.smbEnabled, id);
        BindingCompose(before, written, bindings, s, true, true);
      }
    }

    /** Makes the account where there is none, converges it where there is one. */
    method WriteAccount(s: string, l: Located, d: Desired, ix: Index, env: Env) returns (ok: bool, ghost id: Id)
      requires l.Here? || l.Absent?
      requires IsRead(ix, users, SubjectAt(l)) && (l.Here? ==> s in bindings)
      requires l.Absent? ==> if s in bindings then bindings[s] == l.binding else l.binding.wantsSmb.None?
      modifies `users, `groups, `owners, `refusals, `highWater, `bindings, `created, `given
      ensures old(SmbSafe()) ==> SmbSafe() && refusals == old(refusals)
      ensures old(HomesSafe()) ==> HomesSafe()
      ensures Grew()
      ensures AccountStep(old(users), users, SubjectAt(l))
      ensures BindingStep(old(bindings), bindings, s, false, true)
      ensures l.Here? ==> users.Keys == old(users).Keys && unchanged(`groups, `highWater, `created)
      ensures ok ==> s in bindings && Lands(ix, d, users, bindings[s], id, Named(l, s, old(bindings)), NameAt(l))
      ensures ok && Field.Smb in d.managed && !d.smbEnabled ==> !users[id].smb
      ensures AsPlanned(ix, d, SubjectAt(l), old(owners), env, old(users), users, ok)
      ensures l.Here? && ok ==> Converges(ix, d, l.subject, old(owners), env)
      ensures l.Here? && old(SmbSafe()) && Converges(ix, d, l.subject, old(owners), env) ==> ok
      ensures l.Absent? ==> (ok <==> old(Creates(s, NameAt(l), ix, d, env)))
      ensures l.Here? ==> bindings == old(bindings)
      ensures ok && l.Absent? ==> id == env.newId && IsBoundTo(bindings[s], NameAt(l), Mark())
      ensures Enrols(d, SubjectAt(l), old(owners), env, old(users), users, NameAt(l), Mark(), ok)
      ensures GroupStep(old(groups), groups, env.newId, Mark(), ok && l.Absent?)
      ensures Counts(true)
    {
      hide SmbOk, HomeOk, BindingStep, Desires, OneToOne, Converges, KeepsOwners, AccountStep, AsPlanned, CanMake;
      hide Counted, NewHome, NoNewNumber, KeepsNames, NameFree;
      ghost var was := users;
      Unmoved(users, SubjectAt(l));
      BindingCompose(bindings, bindings, bindings, s, false, true);
      if l.Absent? {
        id := env.newId;
        ok := CreateAndConverge(s, l.binding, ix, d, env);
        if users != was {
          AccountStepNew(was, users, id, l.binding.username, Mark(),
                         NewHome(d, old(owners), env.statReadable, l.binding.username));
        }
        NothingAt(ix, d, old(owners), env, was, users, ok);
      } else {
        id := l.subject.id;
        ok := ConvergeAccount(ix, d, l.subject, env);
        StepKeepsNumbers(range, was, users, SubjectAt(l));
        NotCounted(range, was, users, groups, Mark(), true);
      }
    }

    /** An apply of a plan made for `planned`: if the account moved since, vanished or appeared, nothing is written. */
    method ApplyPlanned(s: string, derived: Option<string>, desired: Desired, planned: Option<Subject>, ix: Index,
                        env: Env)
      returns (ok: bool, ghost at: Option<Subject>, ghost id: Id)
      modifies `users, `groups, `owners, `refusals, `highWater, `bindings, `created, `given, `off
      ensures IsTheirs(range, ix, old(users), old(bindings), s, at) && AccountStep(old(users), users, at)
      ensures Distinguishes(hash, planned, at) && !SameState(planned, at) ==>
        !ok && unchanged(`users, `groups, `owners, `refusals, `highWater)
      ensures ok ==>
        s in bindings && Lands(ix, desired, users, bindings[s], id, old(SmbSafe()), NameFor(old(bindings), s, derived))
      ensures AsPlanned(ix, desired.(homeRoot := homeRoot), at, old(owners), env, old(users), users, ok)
      ensures at.Some? && SameState(planned, at) && old(SmbSafe()) ==>
        (ok <==> Converges(ix, desired.(homeRoot := homeRoot), at.value, old(owners), env))
      ensures Vacant(range, old(users), old(bindings), s, derived) && planned.None? ==>
        at.None? && (ok <==> old(Creates(s, NameFor(bindings, s, derived), ix, desired.(homeRoot := homeRoot), env)))
    {
      hide SmbOk, HomeOk, FingerprintBytes, AccountStep, BindingStep, IsTheirs, Converges, SameState, Lands, AsPlanned;
      hide CreateWorks, Vacant;
      ok, at, id := Apply(s, derived, desired, hash(FingerprintBytes(planned)), ix, env);
      FingerprintExact(planned, at);
    }

    // -------------------------------------------------------------- one-shot operations

    /** A new password, password authentication with it, and SMB with both when asked for: one call. */
    method SetCredential(id: Id, on: bool, fate: Fate) returns (ok: bool)
      requires id in users
      modifies `users, `owners, `refusals, `given
      ensures refusals == old(refusals)
      ensures old(SmbSafe()) && (on ==> id !in off) ==> SmbSafe()
      ensures old(HomesSafe()) ==> HomesSafe()
      ensures ok <==> fate.Works?
      ensures users == if fate.Refused? then old(users) else old(users)[id := WithPassword(old(users)[id], on)]
      ensures Grew() && KeepsNames(old(users), users)
    {
      hide SmbOk, HomeOk;
      ok := UserUpdate(id, Patch(None, None, if on then Some(true) else None, None, true, Some(false)), fate);
    }

    /** The member's own password. It alone may turn SMB on, and does so exactly when the last wish says so. */
    method SetPassword(s: string, fate: Fate) returns (ok: bool)
      modifies `users, `owners, `refusals, `given
      ensures refusals == old(refusals)
      ensures old(SmbSafe()) ==> SmbSafe()
      ensures old(HomesSafe()) ==> HomesSafe()
      ensures users.Keys == old(users).Keys
      ensures ok || users != old(users) ==> s in bindings
      ensures ok || users != old(users) ==>
        exists id :: Denotes(old(users), bindings[s], id) &&
          users == old(users)[id := WithPassword(old(users)[id], bindings[s].wantsSmb == Some(true))]
      ensures old(SmbSafe()) ==> KeepsOff(old(users), bindings, users, bindings, {}, false)
      ensures Grew()
      ensures KeepsNames(old(users), users)
      ensures old(SmbSafe()) && s in bindings && fate.Works? && OnName(users, bindings[s].username) ==> ok
    {
      hide SmbOk, HomeOk, KeepsOff, Denotes, DistinctAccounts, Grown, KeepsNames, WithPassword, OnName;
      NobodyMoved({}, false);
      NotGrown(created, given, owners, Mark());
      Unmoved(users, None);
      if s !in bindings { return false; }
      if SmbSafe() { AccountsDistinct(); }
      var r := RecordId(bindings[s], true);
      if !r.Found? { return false; }
      if SmbSafe() { OnOnlyWhenWanted(s, r.id); }
      if SmbSafe() { SparesOff(s, r.id); }
      ok := SetCredential(r.id, bindings[s].wantsSmb == Some(true), fate);
    }

    /** An account last applied with SMB off is not one a subject who wants SMB on resolves to. */
    lemma OnOnlyWhenWanted(s: string, id: Id)
      requires SmbSafe() && s in bindings && Denotes(users, bindings[s], id)
      ensures bindings[s].wantsSmb == Some(true) ==> id !in off
    {
    }

    lemma NobodyMoved(but: set<string>, removes: bool)
      ensures KeepsOff(users, bindings, users, bindings, but, removes)
    {
    }

    lemma SparesOff(s: string, id: Id)
      requires SmbSafe() && s in bindings && Denotes(users, bindings[s], id)
      ensures var users' := users[id := WithPassword(users[id], bindings[s].wantsSmb == Some(true))];
        KeepsOff(users, bindings, users', bindings, {}, false)
      ensures KeepsOff(users, bindings, users[id := WithPassword(users[id], false)], bindings, {}, false)
      ensures KeepsOff(users, bindings, users - {id}, bindings, {s}, false)
      ensures KeepsOff(users, bindings, users - {id}, bindings - {s}, {s}, false)
    {
      hide KeepsOff;
      OffWithPassword(users, bindings, s, id);
      OffWithPurge(users, bindings, s, id);
    }

    lemma AccountsDistinct()
      requires SmbSafe()
      ensures DistinctAccounts(users)
    {
    }

    /** A new password nobody sees. SMB is left as it is. */
    method Rotate(s: string, fate: Fate) returns (ok: bool)
      modifies `users, `owners, `refusals, `given
      ensures refusals == old(refusals)
      ensures old(SmbSafe()) ==> SmbSafe()
      ensures old(HomesSafe()) ==> HomesSafe()
      ensures users.Keys == old(users).Keys
      ensures ok || users != old(users) ==> s in bindings
      ensures ok || users != old(users) ==>
        exists id :: Denotes(old(users), bindings[s], id) &&
          users == old(users)[id := WithPassword(old(users)[id], false)]
      ensures old(SmbSafe()) ==> KeepsOff(old(users), bindings, users, bindings, {}, false)
      ensures Grew()
      ensures KeepsNames(old(users), users)
      ensures old(SmbSafe()) && s in bindings && fate.Works? && OnName(users, bindings[s].username) ==> ok
    {
      hide SmbOk, HomeOk, KeepsOff, Denotes, DistinctAccounts, Grown, KeepsNames, WithPassword, OnName;
      NobodyMoved({}, false);
      NotGrown(created, given, owners, Mark());
      Unmoved(users, None);
      if s !in bindings { return false; }
      if SmbSafe() { AccountsDistinct(); }
      var r := RecordId(bindings[s], true);
      if !r.Found? { return false; }
      if SmbSafe() { SparesOff(s, r.id); }
      ok := SetCredential(r.id, false, fate);
    }

    /** Forgets a binding and touches the target not at all. */
    method Release(s: string)
      modifies `bindings
      ensures bindings == old(bindings) - {s}
      ensures KeepsOff(users, old(bindings), users, bindings, {s}, false)
      ensures old(SmbSafe()) ==> SmbSafe()
      ensures KeepsWishes(old(bindings), bindings, {s})
    {
      hide SmbOk;
      if SmbSafe() { SmbUnbind(range, users, bindings, off, Mark(), s); }
      bindings := bindings - {s};
    }

    /** `user.delete`, on one record. */
    method UserDelete(id: Id, fate: Fate) returns (ok: bool)
      modifies `users, `off
      ensures users == (if fate.Refused? then old(users) else old(users) - {id})
      ensures off == (if fate.Refused? then old(off) else old(off) - {id})
      ensures ok <==> fate.Works?
      ensures KeepsOff(old(users), bindings, users, bindings, {}, true)
      ensures old(SmbSafe()) ==> SmbSafe()
      ensures old(HomesSafe()) ==> HomesSafe()
      ensures NoNewNumber(range, old(users), users)
    {
      hide SmbOk, HomeOk;
      if !fate.Refused? {
        if SmbSafe() { SmbDelete(range, users, bindings, off, Mark(), id); }
        if HomesSafe() { HomeDelete(range, users, owners, Mark(), created, given, id); }
        users := users - {id};
        off := off - {id};
      }
      ok := fate.Works?;
    }

    /**
     Deletes the account, and its binding with it when the store allows. `self` is the account this
     add-on itself logs in with; not knowing it refuses.
     */
    method Purge(s: string, self: Option<string>, fate: Fate, unbound: bool) returns (ok: bool)
      modifies `users, `bindings, `off
      ensures old(SmbSafe()) ==> SmbSafe()
      ensures old(HomesSafe()) ==> HomesSafe()
      ensures KeepsWishes(old(bindings), bindings, {s})
      ensures bindings == old(bindings) - (if ok && unbound then {s} else {})
      ensures ok || users != old(users) ==> s in old(bindings)
      ensures ok || users != old(users) ==>
        exists id :: Denotes(old(users), old(bindings)[s], id) && users == old(users) - {id} && off == old(off) - {id}
      ensures old(SmbSafe()) ==> KeepsOff(old(users), old(bindings), users, bindings, {s}, false)
      ensures self.None? ==> users == old(users)
      ensures old(SmbSafe()) && s in old(bindings) && Purgeable(old(users), old(bindings)[s].username, self) ==>
        (ok <==> fate.Works?) && (users != old(users) <==> !fate.Refused?)
      ensures old(SmbSafe()) ==> forall i :: i in old(users) && IsSelf(self, old(users)[i].username) ==> i in users
      ensures NoNewNumber(range, old(users), users)
    {
      NobodyMoved({s}, false);
      SameKeysSameNumbers(range, users, users);
      hide SmbOk, HomeOk, KeepsOff, Denotes, IsSelf, DistinctAccounts, NoNewNumber;
      if s !in bindings || self.None? || IsSelf(self, bindings[s].username) { return false; }
      if SmbSafe() { AccountsDistinct(); }
      var r := RecordId(bindings[s], true);
      if !r.Found? { return false; }
      if SmbSafe() {
        SparesOff(s, r.id);
        DenotesByName(s, users, r.id);
      }
      ok := UserDelete(r.id, fate);
      if ok && unbound { Release(s); }
    }

    /** Binds an account the operator named, changing nothing on it. */
    method Adopt(s: string, username: string, self: Option<string>, ix: Index) returns (ok: bool)
      modifies `bindings
      ensures old(SmbSafe()) ==> SmbSafe()
      ensures KeepsWishes(old(bindings), bindings, {}) && KeepsOff(users, old(bindings), users, bindings, {}, false)
      ensures ok ==> s in bindings && bindings[s].username == username
      ensures ok && s !in old(bindings) ==> bindings[s].wantsSmb.None? && OnTarget(users, ByName(username))
      ensures ok && s !in old(bindings) ==>
        exists id :: id in users && !System(users[id]) &&
          users[id].username == username && users[id].uid == bindings[s].uid
      ensures !ok || s in old(bindings) ==> bindings == old(bindings)
      ensures bindings == old(bindings) || bindings == old(bindings)[s := bindings[s]]
      ensures IsSelf(self, username) ==> !ok
      ensures s != "" && username != "" && !IsSelf(self, username) && s !in old(bindings) && !ok ==>
        || (exists t :: t in bindings && bindings[t].username == username)
        || !OnTarget(users, ByName(username)) || |users| > READ_CAP
    {
      hide SmbOk, OnTarget, IsSelf;
      if username == "" || s == "" || IsSelf(self, username) { return false; }
      if s in bindings { return bindings[s].username == username; }
      var sent := Query(ByName(username), false);
      var l := SubjectWhere(ix, ByName(username), sent, users);
      if l.found.None? { return false; }
      var account := l.found.value;
      var b := Binding(account.username, account.uid, None);
      assert OnTarget(users, ByName(username)) by { OnTargetBy(ByName(username), account.id); }
      ghost var before := bindings;
      ok := BindIfFree(s, b);
      if ok && SmbOk(range, users, before, off, Mark()) { AdoptsNamed(before, s, b, account.id); }
    }

    lemma OnTargetBy(k: Key, id: Id)
      requires id in users && !System(users[id]) && Matches(k, users[id])
      ensures OnTarget(users, k)
    {
    }

    lemma AdoptsNamed(before: map<string, Binding>, s: string, b: Binding, id: Id)
      requires SmbOk(range, users, before, off, Mark()) && id in users
      requires b == Binding(users[id].username, users[id].uid, None)
      requires forall t :: t in before && t != s ==> before[t].username != b.username
      ensures SmbOk(range, users, before[s := b], off, Mark())
    {
      SmbBind(range, users, before, off, Mark(), s, b);
    }

    // -------------------------------------------------------------- other hands

    method SetHomeRoot(root: string)
      modifies `homeRoot
      ensures homeRoot == root
    {
      homeRoot := root;
    }

    /** Somebody renames an account on the target. */
    method Rename(id: Id, name: string)
      modifies `users
      ensures users == if id in old(users) then old(users)[id := old(users)[id].(username := name)] else old(users)
      ensures old(HomesSafe()) ==> HomesSafe()
      ensures NoNewNumber(range, old(users), users)
    {
      hide HomeOk;
      if id in users {
        if HomesSafe() { HomeRename(range, users, owners, Mark(), created, given, id, name); }
        users := users[id := users[id].(username := name)];
      }
    }

    /** Somebody makes an account with a number outside the add-on's range. */
    method MakeOutside(id: Id, a: Account)
      requires !Within(range, a.uid)
      modifies `users
      ensures users == if id in old(users) then old(users) else old(users)[id := a]
      ensures old(HomesSafe()) ==> HomesSafe()
      ensures NoNewNumber(range, old(users), users)
    {
      hide HomeOk;
      if id !in users {
        if HomesSafe() { HomeOutside(range, users, owners, Mark(), created, given, id, a, "", a.uid); }
        users := users[id := a];
      }
    }

    /** Somebody makes a folder for a number outside the add-on's range. */
    method MakeFolder(path: string, owner: int)
      requires !Within(range, owner)
      modifies `owners
      ensures owners == Owned(old(owners), path, owner) && Grew()
      ensures old(HomesSafe()) ==> HomesSafe()
    {
      hide HomeOk;
      if HomesSafe() {
        var nobody := Account("", owner, false, false, false, false, [], "");
        HomeOutside(range, users, owners, Mark(), created, given, "", nobody, path, owner);
      }
      owners := Owned(owners, path, owner);
    }

    // -------------------------------------------------------------- runs

    method TakeApply(s: string, derived: Option<string>, d: Desired, fingerprint: string, ix: Index, env: Env)
      modifies `users, `groups, `owners, `refusals, `highWater, `bindings, `created, `given, `off
      ensures old(SmbSafe()) ==> SmbSafe() && refusals == old(refusals)
      ensures old(HomesSafe()) ==> HomesSafe()
      ensures Grew()
      ensures KeepsWishes(old(bindings), bindings, if Field.Smb in d.managed && env.remembered then {s} else {})
      ensures Field.Smb !in d.managed || !d.smbEnabled ==> old(off) <= off
      ensures KeepsNames(old(users), users)
      ensures Counts(true)
      ensures old(SmbSafe()) ==>
        KeepsOff(old(users), old(bindings), users, bindings,
                 if Field.Smb in d.managed && d.smbEnabled then {s} else {}, false)
    {
      hide SmbOk, HomeOk, KeepsWishes, KeepsOff, AccountStep, BindingStep;
      hide Lands, IsTheirs, HasAccount, Conflicted, Converges;
      hide FingerprintBytes, NameFor, KeepsNames, Grown, Counted, Enrols, GroupStep, IsBoundTo;
      ghost var before, accounts, agree := bindings, users, SmbSafe();
      ghost var at;
      ghost var id;
      var ok;
      ok, at, id := Apply(s, derived, d, fingerprint, ix, env);
      ApplyKeeps(accounts, before, users, bindings, s, at, Remembers(ok, d, env),
                 Field.Smb in d.managed && d.smbEnabled, agree);
      WishesWeaken(before, bindings, if Remembers(ok, d, env) then {s} else {},
                   if Field.Smb in d.managed && env.remembered then {s} else {});
    }

    method Take(step: Step)
      requires Possible(range, step)
      modifies `users, `groups, `owners, `refusals, `highWater, `bindings, `created, `given, `off, `homeRoot
      ensures old(SmbSafe()) && !Tampers(step) ==> SmbSafe() && refusals == old(refusals)
      ensures old(HomesSafe()) ==> HomesSafe()
      ensures Grew()
      ensures KeepsWishes(old(bindings), bindings, Rewishes(step))
      ensures !SwitchesOn(step) && !Deletes(step) ==> old(off) <= off
      ensures !Tampers(step) && !Deletes(step) ==> KeepsNames(old(users), users)
      ensures old(SmbSafe()) && !Tampers(step) ==>
        KeepsOff(old(users), old(bindings), users, bindings, Unsettles(step), step.Remove?)
      ensures Counts(step.Apply?)
    {
      hide SmbOk, HomeOk, KeepsWishes, KeepsOff, AccountStep, BindingStep;
      hide Lands, IsTheirs, HasAccount, Conflicted, Converges;
      hide FingerprintBytes, NameFor, OnTarget, Denotes, Owned, KeepsNames, Grown, Counted, NoNewNumber;
      ghost var before, was := bindings, users;
      NotGrown(created, given, owners, Mark());
      WishesCompose(before, before, before, {});
      NobodyMoved({}, false);
      Unmoved(users, None);
      SameKeysSameNumbers(range, users, users);
      match step {
        case Apply(s, derived, d, fingerprint, ix, env) =>
          TakeApply(s, derived, d, fingerprint, ix, env);
        case SetPassword(s, fate) =>
          var _ := SetPassword(s, fate);
          SameKeysSameNumbers(range, was, users);
        case Rotate(s, fate) =>
          var _ := Rotate(s, fate);
          SameKeysSameNumbers(range, was, users);
        case Release(s) => Release(s);
        case Purge(s, self, fate, unbound) => var _ := Purge(s, self, fate, unbound);
        case Adopt(s, username, self, ix) => var _ := Adopt(s, username, self, ix);
        case SetHomeRoot(root) => SetHomeRoot(root);
        case Remove(id) => var _ := UserDelete(id, Works);
        case Rename(id, name) => Rename(id, name);
        case MakeOutside(id, a) => MakeOutside(id, a);
        case MakeFolder(path, owner) => MakeFolder(path, owner);
      }
      if !step.Apply? { NotCounted(range, was, users, groups, Mark(), false); }
    }

    /** Any run keeps what its steps keep. */
    method Run(steps: seq<Step>)
      requires forall step :: step in steps ==> Possible(range, step)
      modifies `users, `groups, `owners, `refusals, `highWater, `bindings, `created, `given, `off, `homeRoot
      ensures old(SmbSafe()) && (forall step :: step in steps ==> !Tampers(step)) ==>
        SmbSafe() && refusals == old(refusals)
      ensures old(HomesSafe()) ==> HomesSafe()
      ensures Grew()
      ensures forall s :: s in old(bindings) && (forall step :: step in steps ==> s !in Rewishes(step)) ==>
        s in bindings && bindings[s].wantsSmb == old(bindings)[s].wantsSmb
      ensures (forall step :: step in steps ==> !SwitchesOn(step) && !Deletes(step)) ==> old(off) <= off
      ensures (forall step :: step in steps ==> !Tampers(step) && !Deletes(step)) ==> KeepsNames(old(users), users)
      ensures old(SmbSafe()) && (forall step :: step in steps ==> !Tampers(step)) ==>
        KeepsOff(old(users), old(bindings), users, bindings, AllUnsettled(steps), AnyRemoved(steps))
      // Numbers run out no faster than applies are made.
      ensures old(Numbered()) ==> Numbered() && Last(Mark()) <= Last(old(Mark())) + Applies(steps, |steps|)
    {
      hide KeepsOff, Unsettles, NumbersBelow;
      NobodyMoved(AllUnsettled(steps), AnyRemoved(steps));
      hide SmbOk, HomeOk, Tampers, Rewishes, SwitchesOn, Deletes, Possible;
      for n := 0 to |steps|
        invariant old(SmbSafe()) && (forall step :: step in steps ==> !Tampers(step)) ==>
          SmbSafe() && refusals == old(refusals)
        invariant old(HomesSafe()) ==> HomesSafe()
        invariant Grew()
        invariant forall s :: s in old(bindings) && (forall step :: step in steps ==> s !in Rewishes(step)) ==>
          s in bindings && bindings[s].wantsSmb == old(bindings)[s].wantsSmb
        invariant (forall step :: step in steps ==> !SwitchesOn(step) && !Deletes(step)) ==> old(off) <= off
        invariant (forall step :: step in steps ==> !Tampers(step) && !Deletes(step)) ==> KeepsNames(old(users), users)
        invariant old(SmbSafe()) && (forall step :: step in steps ==> !Tampers(step)) ==>
          KeepsOff(old(users), old(bindings), users, bindings, AllUnsettled(steps), AnyRemoved(steps))
        invariant old(Numbered()) ==> Numbered() && Last(Mark()) <= Last(old(Mark())) + Applies(steps, n)
      {
        assert steps[n] in steps;
        ghost var accounts, before := users, bindings;
        Take(steps[n]);
        if old(SmbSafe()) && forall step :: step in steps ==> !Tampers(step) {
          OffCompose(old(users), old(bindings), accounts, before, users, bindings,
                     Unsettles(steps[n]), steps[n].Remove?, AllUnsettled(steps), AnyRemoved(steps));
        }
      }
    }

    /**
     While there are numbers left for all of them, everyone gets an account: the numbers are handed
     out one by one, none skipped.
     */
    method EnrolAll(people: seq<Newcomer>) returns (all: bool)
      requires Numbered() && Last(Mark()) + |people| <= range.ceiling && |users| + |people| <= READ_CAP
      requires forall n :: n in people ==> Smooth(n) && IsNew(users, bindings, n)
      requires forall i, j :: 0 <= i < j < |people| ==> Apart(people[i], people[j])
      modifies `users, `groups, `owners, `refusals, `highWater, `bindings, `created, `given, `off
      ensures all && Numbered()
      ensures forall j :: 0 <= j < |people| ==>
        IsIn(users, groups, bindings, people[j], Last(old(Mark())) + 1 + j)
    {
      hide NumbersBelow, IsNew, IsIn, Apart, Smooth;
      all := true;
      for k := 0 to |people|
        invariant Numbered() && all && Last(Mark()) == Last(old(Mark())) + k && |users| == |old(users)| + k
        invariant forall j :: k <= j < |people| ==> IsNew(users, bindings, people[j])
        invariant forall j :: 0 <= j < k ==> IsIn(users, groups, bindings, people[j], Last(old(Mark())) + 1 + j)
      {
        ghost var was, wasGroups, bound, first := users, groups, bindings, Last(old(Mark())) + 1;
        assert people[k] in people;
        var ok := Enrol(people[k]);
        ghost var home := users[people[k].env.newId].home;
        forall j | k < j < |people| ensures IsNew(users, bindings, people[j]) {
          StillNew(was, users, bound, bindings, groups, people[k], Mark(), home, people[j]);
        }
        forall j | 0 <= j < k ensures IsIn(users, groups, bindings, people[j], first + j) {
          StillIn(was, users, wasGroups, groups, bound, bindings, people[k], Mark(), home, people[j], first + j);
        }
        all := all && ok;
      }
    }

    method Enrol(n: Newcomer) returns (ok: bool)
      requires Numbered() && Last(Mark()) < range.ceiling && |users| <= READ_CAP
      requires Smooth(n) && IsNew(users, bindings, n)
      modifies `users, `groups, `owners, `refusals, `highWater, `bindings, `created, `given, `off
      ensures ok && Numbered() && Mark() == Last(old(Mark())) + 1 && |users| == |old(users)| + 1
      ensures n.env.newId in users && IsIn(users, groups, bindings, n, Mark())
      ensures Adds(old(users), users, n.env.newId, n.name, Mark(), users[n.env.newId].home)
      ensures OnlyBinding(old(bindings), bindings, n.s)
      ensures GroupStep(old(groups), groups, n.env.newId, Mark(), true)
    {
      hide SmbOk, HomeOk, AccountStep, KeepsWishes, KeepsBound, IsTheirs, HasAccount, Conflicted, Converges, Desires;
      hide OneToOne, FingerprintBytes, Grown, CreateWorks, Vacant, NameFor, IsNew, Smooth, NumbersBelow, AsPlanned;
      hide NewHome;
      NewIsVacant(range, Mark(), users, groups, owners, bindings, n, homeRoot);
      ghost var was, home := users, NewHome(n.desired.(homeRoot := homeRoot), owners, n.env.statReadable, n.name);
      ghost var at;
      ghost var id;
      ok, at, id := Apply(n.s, Some(n.name), n.desired, hash(FingerprintBytes(None)), n.ix, n.env);
      OneMoreKey(was, users, n.env.newId, n.name, Mark(), home);
    }

    /** Once an apply wanted SMB on, the next password the member sets leaves it on. */
    method OnFromNextPassword(s: string, derived: Option<string>, desired: Desired, fingerprint: string, ix: Index,
                              env: Env,
                              steps: seq<Step>, fate: Fate)
      returns (applied: bool, changed: bool)
      requires forall step :: step in steps ==> Possible(range, step) && !Tampers(step) && s !in Rewishes(step)
      modifies `users, `groups, `owners, `refusals, `highWater, `bindings, `created, `given, `off, `homeRoot
      ensures old(SmbSafe()) && Remembers(applied, desired, env) && desired.smbEnabled && changed ==>
        s in bindings && SmbUsable(users, bindings[s].username)
      ensures old(SmbSafe()) ==> refusals == old(refusals)
    {
      hide SmbOk, HomeOk, AccountStep, BindingStep, IsTheirs, HasAccount, Conflicted, Converges, KeepsOff, KeepsOwners;
      hide FingerprintBytes, Desires, OneToOne, Tampers, Possible, KeepsWishes, KeepsNames, Rewishes;
      ghost var at;
      ghost var id';
      applied, at, id' := Apply(s, derived, desired, fingerprint, ix, env);
      Run(steps);
      ghost var was := users;
      changed := SetPassword(s, fate);
      if changed && old(SmbSafe()) {
        ghost var on := bindings[s].wantsSmb == Some(true);
        ghost var id :| Denotes(was, bindings[s], id) && users == was[id := WithPassword(was[id], on)];
        DenotesByName(s, was, id);
      }
    }

    /** While bindings and target agree, the account a binding resolves to has its name. */
    lemma DenotesByName(s: string, was: map<Id, Account>, id: Id)
      requires s in bindings && Denotes(was, bindings[s], id)
      requires SmbOk(range, was, bindings, off, Mark())
      ensures id in was && was[id].username == bindings[s].username
    {
    }

    /**
     Once an apply wanted SMB off for a subject, nothing turns it on until an apply for that subject
     wants it on, whatever happens to everybody else; an account removed and made again included.
     */
    method OffUntilWantedOn(s: string, derived: Option<string>, desired: Desired, fingerprint: string, ix: Index,
                            env: Env,
                            steps: seq<Step>)
      returns (applied: bool)
      requires forall step :: step in steps ==> Possible(range, step) && !Tampers(step) && s !in Unsettles(step)
      modifies `users, `groups, `owners, `refusals, `highWater, `bindings, `created, `given, `off, `homeRoot
      ensures old(SmbSafe()) && Remembers(applied, desired, env) && !desired.smbEnabled ==>
        OffFor(users, bindings, s, NameFor(old(bindings), s, derived), forall step :: step in steps ==> !step.Remove?)
      ensures old(SmbSafe()) ==> refusals == old(refusals)
    {
      hide SmbOk, HomeOk, AccountStep, BindingStep, IsTheirs, HasAccount;
      hide Conflicted, Converges, KeepsOff, KeepsOwners, Unsettles;
      hide OffFor, FingerprintBytes, Desires, OneToOne, Tampers, Possible, KeepsWishes, KeepsNames;
      ghost var at;
      ghost var id;
      applied, at, id := Apply(s, derived, desired, fingerprint, ix, env);
      ghost var accounts, bound := users, bindings;
      ghost var here := forall step :: step in steps ==> !step.Remove?;
      if old(SmbSafe()) && Remembers(applied, desired, env) && !desired.smbEnabled {
        OffNow(s, id, here);
      }
      Run(steps);
      if old(SmbSafe()) && Remembers(applied, desired, env) && !desired.smbEnabled {
        OffStill(accounts, bound, users, bindings, AllUnsettled(steps), s, NameFor(old(bindings), s, derived), here);
      }
    }

    /** An account listed as off, under the bound name, is the only one of that name. */
    lemma OffNow(s: string, id: Id, here: bool)
      requires SmbSafe() && s in bindings && id in users && id in off
      requires users[id].username == bindings[s].username && bindings[s].wantsSmb == Some(false)
      ensures OffFor(users, bindings, s, bindings[s].username, here)
    {
    }

    lemma NeverBareSmb()
      requires SmbSafe()
      ensures NoBareSmb(users)
    {
    }
  }

  /** Someone to make an account for. */
  datatype Newcomer = Newcomer(s: string, name: string, desired: Desired, ix: Index, env: Env)

  /** The calls work, and what has to be read for it can be. */
  ghost predicate Smooth(n: Newcomer) {
    && n.env.validName && n.env.groupCreate.Works? && n.env.userCreate.Works? && n.env.readBack
    && (Group in n.desired.managed ==> IdsFor(n.ix, n.desired.groups).Some?)
    && (Home in n.desired.managed && n.desired.wantsHome ==> n.env.statReadable)
  }

  /** Not known to the add-on yet, and neither its name nor the record id it will get is in use. */
  ghost predicate IsNew(users: map<Id, Account>, bindings: map<string, Binding>, n: Newcomer) {
    n.s !in bindings && !OnName(users, n.name) && n.env.newId !in users && NameFree(bindings, n.s, n.name)
  }

  ghost predicate Apart(n: Newcomer, m: Newcomer) {
    n.s != m.s && n.name != m.name && n.env.newId != m.env.newId
  }

  /** The newcomer has an account with that number, and is bound to it. */
  ghost predicate IsIn(users: map<Id, Account>, groups: map<Id, int>, bindings: map<string, Binding>, n: Newcomer,
                       uid: int) {
    && n.env.newId in users && users[n.env.newId].username == n.name && users[n.env.newId].uid == uid
    && n.env.newId in groups && groups[n.env.newId] == uid
    && n.s in bindings && bindings[n.s].username == n.name && bindings[n.s].uid == uid
  }

  lemma NewIsVacant(r: Range, mark: int, users: map<Id, Account>, groups: map<Id, int>, owners: map<string, int>,
                    bindings: map<string, Binding>, n: Newcomer, root: string)
    requires IsNew(users, bindings, n) && Smooth(n) && NumbersBelow(r, users, groups, mark) && |users| <= READ_CAP
    requires Last(mark) < r.ceiling
    ensures Vacant(r, users, bindings, n.s, Some(n.name)) && NameFor(bindings, n.s, Some(n.name)) == n.name
    ensures var d := n.desired.(homeRoot := root);
      CreateWorks(r, mark, users, groups, owners, bindings, n.s, n.name, n.ix, d, n.env)
  {
  }

  lemma StillNew(users: map<Id, Account>, users': map<Id, Account>, bindings: map<string, Binding>,
                 bindings': map<string, Binding>, groups': map<Id, int>, n: Newcomer, uid: int, home: string,
                 m: Newcomer)
    requires IsNew(users, bindings, m) && Apart(n, m)
    requires Adds(users, users', n.env.newId, n.name, uid, home)
    requires OnlyBinding(bindings, bindings', n.s) && IsIn(users', groups', bindings', n, uid)
    ensures IsNew(users', bindings', m)
  {
    OtherBindings(bindings, bindings', n.s);
  }

  lemma OtherBindings(was: map<string, Binding>, now: map<string, Binding>, s: string)
    requires OnlyBinding(was, now, s)
    ensures forall t :: t != s ==> (t in now <==> t in was)
    ensures forall t :: t != s && t in was ==> now[t] == was[t]
  {
    forall t | t != s ensures (t in now <==> t in was) && (t in was ==> now[t] == was[t]) {
      assert t in now - {s} <==> t in was - {s};
      if t in was { assert (now - {s})[t] == (was - {s})[t]; }
    }
  }

  lemma StillIn(users: map<Id, Account>, users': map<Id, Account>, groups: map<Id, int>, groups': map<Id, int>,
                bindings: map<string, Binding>, bindings': map<string, Binding>, n: Newcomer, uid: int, home: string,
                m: Newcomer, uid': int)
    requires IsIn(users, groups, bindings, m, uid') && Apart(m, n)
    requires Adds(users, users', n.env.newId, n.name, uid, home) && OnlyBinding(bindings, bindings', n.s)
    requires GroupStep(groups, groups', n.env.newId, uid, true)
    ensures IsIn(users', groups', bindings', m, uid')
  {
    OtherBindings(bindings, bindings', n.s);
    if groups' != groups { assert m.env.newId in groups - {n.env.newId}; }
  }

  /**
   Every run from a store and a target that agree, with no in-range number above the stored mark
   in use: no folder is given to two numbers, no two created accounts share a home, none gets a
   folder that was there, and, while nobody changes who an account is, the target turns nothing
   down by its credential and SMB rules.
   */
  method RunFromStart(r: Range, hash: string -> string, users: map<Id, Account>, groups: map<Id, int>,
                      owners: map<string, int>,
                      bindings: map<string, Binding>, highWater: Option<int>, homeRoot: string, steps: seq<Step>)
    returns (a: AddOn)
    requires DistinctAccounts(users) && NoBareSmb(users) && BindingsAgree(users, bindings)
    requires BelowMark(r, users, bindings, MarkOf(r, highWater)) && FoldersClaimed(r, owners, MarkOf(r, highWater))
    requires forall step :: step in steps ==> Possible(r, step)
    ensures forall g, h :: g in a.given && h in a.given && g.1 == h.1 ==> g == h
    ensures forall i, j :: Homed(a.users, a.created, i) && Homed(a.users, a.created, j) && i != j ==>
      a.users[i].home != a.users[j].home
    ensures forall i :: Homed(a.users, a.created, i) ==> a.users[i].home !in owners
    ensures forall i :: Homed(a.users, a.created, i) ==>
      a.users[i].home in a.owners && a.owners[a.users[i].home] == a.users[i].uid
    ensures (forall step :: step in steps ==> !Tampers(step)) ==> a.refusals == 0 && NoBareSmb(a.users)
  {
    hide SmbOk, HomeOk, Homed, KeepsOwners, Possible, Tampers, MarkOf, FoldersClaimed, BelowMark, BindingsAgree;
    ghost var mark := MarkOf(r, highWater);
    StartOk(r, users, owners, bindings, mark);
    a := new AddOn(r, hash, users, groups, owners, bindings, highWater, homeRoot);
    a.Run(steps);
    HomesNeverShared(r, a.users, a.owners, a.Mark(), a.created, a.given);
    HomesAreOwned(r, a.users, a.owners, a.Mark(), a.created, a.given);
    HomesWereFree(r, a.users, owners, a.owners, mark, a.Mark(), a.created, a.given);
    if a.SmbSafe() { a.NeverBareSmb(); }
  }

  lemma StartOk(r: Range, users: map<Id, Account>, owners: map<string, int>, bindings: map<string, Binding>, mark: int)
    requires DistinctAccounts(users) && NoBareSmb(users) && BindingsAgree(users, bindings)
    requires BelowMark(r, users, bindings, mark) && FoldersClaimed(r, owners, mark)
    ensures SmbOk(r, users, bindings, {}, mark) && HomeOk(r, users, owners, mark, {}, {})
  {
  }

  // ---------------------------------------------------------------- runs

  datatype Step =
    | Apply(s: string, derived: Option<string>, desired: Desired, fingerprint: string, ix: Index, env: Env)
    | SetPassword(s: string, fate: Fate)
    | Rotate(s: string, fate: Fate)
    | Release(s: string)
    | Purge(s: string, self: Option<string>, fate: Fate, unbound: bool)
    | Adopt(s: string, username: string, self: Option<string>, ix: Index)
    | SetHomeRoot(root: string)
    | Remove(id: Id)
    | Rename(id: Id, name: string)
    | MakeOutside(id: Id, a: Account)
    | MakeFolder(path: string, owner: int)

  /** The range is this add-on's own: other hands use numbers outside it. */
  predicate Possible(r: Range, step: Step) {
    match step
    case MakeOutside(_, a) => !Within(r, a.uid)
    case MakeFolder(_, owner) => !Within(r, owner)
    case _ => true
  }

  /** How many of the first `n` steps are applies. */
  function Applies(steps: seq<Step>, n: nat): nat
    requires n <= |steps|
  {
    if n == 0 then 0 else Applies(steps, n - 1) + if steps[n - 1].Apply? then 1 else 0
  }

  /** Somebody else changes who an account is. */
  predicate Tampers(step: Step) { step.Rename? || step.MakeOutside? }

  predicate Deletes(step: Step) { step.Purge? || step.Remove? }

  predicate SwitchesOn(step: Step) { step.Apply? && Field.Smb in step.desired.managed && step.desired.smbEnabled }

  /** The subjects who may have SMB on again after the step. */
  function Unsettles(step: Step): set<string> {
    match step
    case Apply(s, _, _, _, _, _) => if SwitchesOn(step) then {s} else {}
    case Release(s) => {s}
    case Purge(s, _, _, _) => {s}
    case _ => {}
  }

  ghost function AllUnsettled(steps: seq<Step>): set<string> {
    set step, s | step in steps && s in Unsettles(step) :: s
  }

  ghost predicate AnyRemoved(steps: seq<Step>) {
    exists step :: step in steps && step.Remove?
  }

  /** The subjects whose SMB wish the step may change. */
  function Rewishes(step: Step): set<string> {
    match step
    case Apply(s, _, d, _, _, env) => if Field.Smb in d.managed && env.remembered then {s} else {}
    case Release(s) => {s}
    case Purge(s, _, _, _) => {s}
    case _ => {}
  }

  /** The calls an apply makes on an account found like this. */
  function CallsAt(ix: Index, d: Desired, s: Subject, owners: map<string, int>, env: Env): Converged {
    ConvergeCalls(ix, d, s, StatOf(owners, Join(d.homeRoot, s.username), env.statReadable), env.quota)
  }

  /** Everything the apply reads can be read, and its first call, if it makes any, works. */
  predicate Converges(ix: Index, d: Desired, s: Subject, owners: map<string, int>, env: Env) {
    var r := CallsAt(ix, d, s, owners, env);
    r.Done? && (r.calls == [] || if r.calls[0].UpdateUser? then env.update.Works? else env.quotaSet)
  }

  /** Exactly which reads and calls a success hangs on: none that the desired state does not need. */
  lemma ConvergesIff(ix: Index, d: Desired, s: Subject, owners: map<string, int>, env: Env)
    ensures var stat := StatOf(owners, d.homeRoot + "/" + s.username, env.statReadable);
      Converges(ix, d, s, owners, env) <==>
        && (Group in d.managed && multiset(s.groups) != multiset(d.groups) ==> IdsFor(ix, d.groups).Some?)
        && (LacksHome(d, s.home) ==> env.statReadable)
        && (if Differs(d, s, stat) then env.update.Works?
            else (LimitAsked(d, s.home) ==> env.quota.QuotaRead?) &&
                 (LimitOwed(d, s.home, s.uid, env.quota) ==> env.quotaSet))
  {
    var stat := StatOf(owners, d.homeRoot + "/" + s.username, env.statReadable);
    DoneIff(ix, d, s, stat, env.quota);
    if CallsAt(ix, d, s, owners, env).Done? { CallsAre(ix, d, s, stat, env.quota); }
    hide ConvergeCalls, LacksHome, LimitAsked, LimitOwed, IdsFor;
  }

  /** The account is as the decided update leaves it, or, without success, as it was. */
  ghost predicate AsPlanned(ix: Index, d: Desired, at: Option<Subject>, owners: map<string, int>, env: Env,
                            was: map<Id, Account>, now: map<Id, Account>, ok: bool) {
    at.Some? ==>
      var id, r := at.value.id, CallsAt(ix, d, at.value, owners, env);
      && id in was && id in now
      && ((r.Done? && now[id] == Patched(was[id], PatchOf(r.calls))) || (!ok && now[id] == was[id]))
  }

  lemma Unpatched(ix: Index, d: Desired, users: map<Id, Account>, owners: map<string, int>, env: Env,
                  at: Option<Subject>)
    requires IsRead(ix, users, at)
    ensures AsPlanned(ix, d, at, owners, env, users, users, false)
  {
  }

  lemma NothingAt(ix: Index, d: Desired, owners: map<string, int>, env: Env, was: map<Id, Account>,
                  now: map<Id, Account>, ok: bool)
    ensures AsPlanned(ix, d, None, owners, env, was, now, ok)
  {
  }

  /** The account of that name is there now, with the number just claimed and the home that is due. */
  ghost predicate AddsFor(d: Desired, owners: map<string, int>, env: Env, was: map<Id, Account>,
                          now: map<Id, Account>, name: string, mark: int) {
    Adds(was, now, env.newId, name, mark, NewHome(d, owners, env.statReadable, name))
  }

  /** Where no account was found one is made, or, without success, perhaps none is. */
  ghost predicate Enrols(d: Desired, at: Option<Subject>, owners: map<string, int>, env: Env, was: map<Id, Account>,
                         now: map<Id, Account>, name: string, mark: int, ok: bool) {
    at.None? ==> AddsFor(d, owners, env, was, now, name, mark) || (!ok && now == was)
  }

  predicate IsBoundTo(b: Binding, name: string, uid: int) {
    b.username == name && b.uid == uid
  }

  /** The binding is to the same account; only its wish may differ. */
  predicate SameAccount(b: Binding, was: Binding) {
    IsBoundTo(b, was.username, was.uid)
  }

  /** A located account's number replaces the bound one when it is one of the add-on's own. */
  function UidKept(r: Range, b: Binding, uid: int): int {
    if Within(r, uid) then uid else b.uid
  }

  lemma GroupOutcome(was: map<Id, int>, now: map<Id, int>, uid: int, env: Env, ok: bool)
    requires ok ==> GroupMade(env)
    requires now ==
      if env.groupCreate.Refused? then was
      else if ok || env.groupCreate.Lost? || !env.undone then was[env.newId := uid] else was - {env.newId}
    ensures GroupStep(was, now, env.newId, uid, ok) && GroupStep(was, now, env.newId, uid, false)
  {
  }

  lemma NoGroup(groups: map<Id, int>, id: Id, mark: int)
    ensures GroupStep(groups, groups, id, mark, false)
  {
  }

  lemma StepKeepsNumbers(r: Range, was: map<Id, Account>, now: map<Id, Account>, at: Option<Subject>)
    requires AccountStep(was, now, at) && now.Keys == was.Keys
    ensures NoNewNumber(r, was, now)
  {
    SameKeysSameNumbers(r, was, now);
  }

  /** Success keeps every built-in membership and everything the plan does not manage. */
  lemma PlannedKeeps(ix: Index, d: Desired, s: Subject, owners: map<string, int>, env: Env,
                     was: map<Id, Account>, now: map<Id, Account>)
    requires OneToOne(ix) && IsRead(ix, was, Some(s)) && AsPlanned(ix, d, Some(s), owners, env, was, now, true)
    ensures Desires(ix, d, now[s.id])
    ensures multiset(Builtins(ix, now[s.id].groups)) == multiset(Builtins(ix, was[s.id].groups))
    ensures Group !in d.managed ==> multiset(now[s.id].groups) == multiset(was[s.id].groups)
    ensures Enabled !in d.managed ==> now[s.id].locked == was[s.id].locked
    ensures Field.Smb !in d.managed || d.smbEnabled ==> now[s.id].smb == was[s.id].smb
    ensures var path := d.homeRoot + "/" + s.username;
      now[s.id].home ==
        if LacksHome(d, s.home) && env.statReadable && (path in owners ==> owners[path] == s.uid && s.uid >= 0)
        then path else was[s.id].home
  {
    hide ConvergeCalls, OneToOne, Desires, Builtins, LacksHome;
    NothingPatched(was[s.id], CallsAt(ix, d, s, owners, env).calls);
    var stat := StatOf(owners, Join(d.homeRoot, s.username), env.statReadable);
    ConvergesInOne(ix, d, s.id, was[s.id], stat, env.quota, now[s.id]);
    PatchShape(ix, d, s, stat, env.quota);
  }

  lemma NothingPatched(a: Account, calls: seq<Mutation>)
    ensures !(calls != [] && calls[0].UpdateUser?) ==> Patched(a, PatchOf(calls)) == a
  {
  }

  /** A number is left that neither the mark nor anything on the target has reached. */
  ghost predicate NumberLeft(r: Range, mark: int, users: map<Id, Account>, groups: map<Id, int>) {
    && mark < r.ceiling && 0 < r.ceiling
    && (forall i :: i in users && Within(r, users[i].uid) ==> users[i].uid < r.ceiling)
    && (forall g :: g in groups && Within(r, groups[g]) ==> groups[g] < r.ceiling)
  }

  predicate GroupMade(env: Env) {
    env.groupCreate.Works? || (env.groupCreate.Lost? && env.orphanSeen)
  }

  /** The account can be made: its home can be decided, its record id and name are free, and the call works. */
  ghost predicate Creatable(users: map<Id, Account>, owners: map<string, int>, name: string, d: Desired, env: Env) {
    && (LacksHome(d, "") ==> env.statReadable)
    && env.userCreate.Works? && env.newId !in users && !OnName(users, name)
  }

  /** And everything before it: a valid name, groups that resolve, a number left and a personal group. */
  ghost predicate CanMake(r: Range, mark: int, users: map<Id, Account>, groups: map<Id, int>, owners: map<string, int>,
                          name: string, ix: Index, d: Desired, env: Env) {
    && env.validName && (Group in d.managed ==> IdsFor(ix, d.groups).Some?) && NumberLeft(r, mark, users, groups)
    && GroupMade(env) && Creatable(users, owners, name, d, env)
  }

  /** And after it: nobody else is bound to the name, and the account can be read back. */
  ghost predicate CreateWorks(r: Range, mark: int, users: map<Id, Account>, groups: map<Id, int>,
                              owners: map<string, int>,
                              bindings: map<string, Binding>, s: string, name: string, ix: Index, d: Desired,
                              env: Env) {
    && CanMake(r, mark, users, groups, owners, name, ix, d, env)
    && NameFree(bindings, s, name) && env.readBack
  }

  /** Nobody but the subject is bound to the name. */
  ghost predicate NameFree(bindings: map<string, Binding>, s: string, name: string) {
    forall t :: t in bindings && t != s ==> bindings[t].username != name
  }

  /** Only for a located account, or an absence no cut list stands behind, and only if it is as it was planned for. */
  predicate Proceeds(hash: string -> string, l: Located, fingerprint: string) {
    && (l.Here? || (l.Absent? && !l.cut))
    && fingerprint == hash(FingerprintBytes(SubjectAt(l)))
  }

  /** The name a write is made under. */
  function NameAt(l: Located): string
    requires l.Here? || l.Absent?
  {
    if l.Here? then l.subject.username else l.binding.username
  }

  /** An account that was found goes by the bound name. */
  ghost predicate Named(l: Located, s: string, bindings: map<string, Binding>) {
    l.Here? ==> s in bindings && bindings[s].username == l.subject.username
  }

  lemma LandsAnyRoot(ix: Index, d: Desired, root: string, users: map<Id, Account>, b: Binding, id: Id, agree: bool,
                     name: string)
    requires Lands(ix, d.(homeRoot := root), users, b, id, agree, name)
    ensures Lands(ix, d, users, b, id, agree, name)
  {
    if OneToOne(ix) { DesiresAnyRoot(ix, d, root, users[id]); }
  }

  lemma LandsFor(ix: Index, d: Desired, users: map<Id, Account>, b: Binding, id: Id, agree: bool, agree': bool,
                 name: string)
    requires Lands(ix, d, users, b, id, agree, name) && (agree' ==> agree)
    ensures Lands(ix, d, users, b, id, agree', name)
    ensures (!agree' ==> forall other :: Lands(ix, d, users, b, id, agree', other))
  {
  }

  function SubjectAt(l: Located): Option<Subject> {
    if l.Here? then Some(l.subject) else None
  }

  /** A successful apply that managed SMB and whose wish reached the store. */
  predicate Remembers(ok: bool, d: Desired, env: Env) {
    ok && Field.Smb in d.managed && env.remembered
  }

  function MarkOf(r: Range, stored: Option<int>): int {
    if stored.Some? && stored.value > r.floor - 1 then stored.value else r.floor - 1
  }

  /** The highest in-range number in a table, 0 when there is none. */
  method HighestIn(r: Range, numbers: map<Id, int>) returns (m: int)
    ensures forall i :: i in numbers && Within(r, numbers[i]) ==> numbers[i] <= m
    ensures m >= 0 && (m == 0 || exists i :: i in numbers && Within(r, numbers[i]) && numbers[i] == m)
  {
    m := 0;
    var left := numbers.Keys;
    while left != {}
      invariant left <= numbers.Keys
      invariant forall i :: i in numbers && i !in left && Within(r, numbers[i]) ==> numbers[i] <= m
      invariant m >= 0 && (m == 0 || exists i :: i in numbers && Within(r, numbers[i]) && numbers[i] == m)
      decreases left
    {
      var i :| i in left;
      if Within(r, numbers[i]) && numbers[i] > m {
        m := numbers[i];
      }
      left := left - {i};
    }
  }
}
