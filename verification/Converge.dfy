/**
 The entitlement plane for one account: what a desired state needs, decided once, read by the
 plan to say what would happen and by the apply to do it.
 */
module Converge {
  import opened Options
  import opened Subjects
  import opened Target

  datatype Field = Group | Enabled | Smb | Home | HomeQuota

  datatype Desired = Desired(
    managed: set<Field>, groups: seq<string>, enabled: bool, smbEnabled: bool,
    wantsHome: bool, homeRoot: string, homeQuota: nat, homeUnlimited: bool)

  // ---------------------------------------------------------------- home folders

  /** What the target says about the folder a home would go to. */
  datatype Stat = Free | OwnedBy(uid: int) | Unreadable

  /** `path` is set when the home should be made there; `noted` when the outcome says why not. */
  datatype HomeDecision = HomeDecision(path: string, noted: bool)

  const NO_HOME: HomeDecision := HomeDecision("", false)

  function Join(root: string, name: string): (p: string)
    ensures p != ""
  {
    root + "/" + name
  }

  /** Never moved, never someone else's. `uid` is -1 for an account that does not exist yet. */
  function DecideHome(d: Desired, username: string, current: string, uid: int, stat: Stat): Option<HomeDecision> {
    if Home !in d.managed || !d.wantsHome then Some(NO_HOME)
    else if Enabled in d.managed && !d.enabled then Some(NO_HOME)
    else if d.homeRoot == "" then Some(HomeDecision("", true))
    else if current != "" then Some(NO_HOME)
    else
      match stat
      case Free => Some(HomeDecision(Join(d.homeRoot, username), false))
      case Unreadable => None
      case OwnedBy(owner) =>
        if uid >= 0 && owner == uid then Some(HomeDecision(Join(d.homeRoot, username), false))
        else Some(HomeDecision("", true))
  }

  /** A role gives a home, the account is not being switched off, there is a place for homes, and it has none yet. */
  ghost predicate LacksHome(d: Desired, current: string) {
    && Home in d.managed && d.wantsHome && (Enabled in d.managed ==> d.enabled)
    && d.homeRoot != "" && current == ""
  }

  /** The home is made: in a folder that is free, or that this very number owns. */
  ghost predicate GivesHome(d: Desired, current: string, uid: int, stat: Stat) {
    LacksHome(d, current) && (stat.Free? || (uid >= 0 && stat == OwnedBy(uid)))
  }

  /** Exactly when a home is made, where, when that cannot be told, and when the outcome says why not. */
  lemma HomeGiven(d: Desired, username: string, current: string, uid: int, stat: Stat)
    ensures var h := DecideHome(d, username, current, uid, stat);
      && (h.None? <==> LacksHome(d, current) && stat.Unreadable?)
      && (h.Some? && h.value.path != "" <==> GivesHome(d, current, uid, stat))
      && (GivesHome(d, current, uid, stat) ==> h.value.path == d.homeRoot + "/" + username)
      && (h.Some? && h.value.noted <==>
          || (LacksHome(d.(homeRoot := "/"), "") && d.homeRoot == "")
          || (LacksHome(d, current) && stat.OwnedBy? && !GivesHome(d, current, uid, stat)))
  {
  }

  /** What a quota read says about one home: where homes may go, its dataset, the user's rows in it. */
  datatype QuotaRead = QuotaUnreadable | QuotaRead(inPlace: bool, dataset: string, rows: seq<(int, int)>)

  datatype Owed = QuotaFails | NotOwed | Owed(dataset: string, want: nat)

  function WantedQuota(d: Desired): nat {
    if d.homeUnlimited then 0 else d.homeQuota
  }

  predicate QuotaSet(rows: seq<(int, int)>, uid: int, want: nat) {
    (exists i :: 0 <= i < |rows| && rows[i].0 == uid && rows[i].1 == want) || (want == 0 && rows == [])
  }

  function QuotaOwed(d: Desired, home: string, uid: int, q: QuotaRead): Owed {
    if HomeQuota !in d.managed || home == "" || (d.homeQuota == 0 && !d.homeUnlimited) then NotOwed
    else if q.QuotaUnreadable? then QuotaFails
    else if !q.inPlace || q.dataset == "" || QuotaSet(q.rows, uid, WantedQuota(d)) then NotOwed
    else Owed(q.dataset, WantedQuota(d))
  }

  /** A limit is managed and given for an account that has a home. */
  ghost predicate LimitAsked(d: Desired, home: string) {
    HomeQuota in d.managed && home != "" && (d.homeUnlimited || d.homeQuota > 0)
  }

  /** It is not on the home's dataset yet: no row says it, and no row at all is not what is wanted. */
  ghost predicate LimitOwed(d: Desired, home: string, uid: int, q: QuotaRead) {
    && LimitAsked(d, home) && q.QuotaRead? && q.inPlace && q.dataset != ""
    && (if d.homeUnlimited then (uid, 0) !in q.rows && q.rows != [] else (uid, d.homeQuota) !in q.rows)
  }

  lemma LimitGiven(d: Desired, home: string, uid: int, q: QuotaRead)
    ensures var o := QuotaOwed(d, home, uid, q);
      && (o.QuotaFails? <==> LimitAsked(d, home) && q.QuotaUnreadable?)
      && (o.Owed? <==> LimitOwed(d, home, uid, q))
      && (o.Owed? ==> o.dataset == q.dataset && o.want == if d.homeUnlimited then 0 else d.homeQuota)
  {
    if q.QuotaRead? {
      forall want: nat
        ensures (uid, want) in q.rows <==> exists i :: 0 <= i < |q.rows| && q.rows[i].0 == uid && q.rows[i].1 == want
      {
      }
    }
  }

  // ---------------------------------------------------------------- the decision

  datatype Change = Change(
    groups: Option<seq<string>>, locked: Option<bool>, smbOff: bool, smbPending: bool, home: HomeDecision)

  function Decide(current: Option<Subject>, d: Desired, home: HomeDecision): Change {
    Change(
      if Group in d.managed && (current.None? || !SameSet(current.value.groups, d.groups)) then Some(d.groups)
      else None,
      if Enabled in d.managed && (current.None? || current.value.enabled != d.enabled) then Some(!d.enabled) else None,
      current.Some? && Smb in d.managed && current.value.smbEnabled && !d.smbEnabled,
      current.Some? && Smb in d.managed && !current.value.smbEnabled && d.smbEnabled,
      home)
  }

  predicate Writes(c: Change) {
    c.groups.Some? || c.locked.Some? || c.smbOff || c.home.path != ""
  }

  function ApplyTo(c: Change, s: Subject): Subject {
    s.(groups := Or(c.groups, s.groups), enabled := if c.locked.Some? then !c.locked.value else s.enabled,
       smbEnabled := s.smbEnabled && !c.smbOff, home := if c.home.path != "" then c.home.path else s.home)
  }

  // ---------------------------------------------------------------- the plan

  datatype Plan = Blocked | NoChange | Apply(after: Subject)

  function PlanExisting(d: Desired, s: Subject, stat: Stat, q: QuotaRead): Plan {
    var home := DecideHome(d, s.username, s.home, s.uid, stat);
    if home.None? then Blocked
    else
      var c := Decide(Some(s), d, home.value);
      var after := ApplyTo(c, s);
      if !Writes(c) && !QuotaOwed(d, after.home, s.uid, q).Owed? then NoChange else Apply(after)
  }

  // ---------------------------------------------------------------- the apply

  datatype Mutation =
    | UpdateUser(id: Id, patch: Patch)
    | SetQuota(dataset: string, uid: int, want: nat)

  /** The update a decided change is sent as: managed groups by id, plus the built-in memberships. */
  function PatchFor(c: Change, ids: seq<Id>, builtins: seq<Id>): Patch {
    Patch(if c.groups.Some? then Some(ids + builtins) else None, c.locked, if c.smbOff then Some(false) else None,
          if c.home.path != "" then Some(c.home.path) else None, false, None)
  }

  datatype Converged = Fails | Done(calls: seq<Mutation>)

  function QuotaCalls(o: Owed, uid: int): seq<Mutation> {
    if o.Owed? then [SetQuota(o.dataset, uid, o.want)] else []
  }

  /** The mutating calls an apply makes on an existing account, in order. */
  function ConvergeCalls(ix: Index, d: Desired, s: Subject, stat: Stat, q: QuotaRead): Converged {
    var c := Decide(Some(s), d, NO_HOME);
    var ids := if c.groups.Some? then IdsFor(ix, c.groups.value) else Some([]);
    if ids.None? then Fails
    else
      var home := DecideHome(d, s.username, s.home, s.uid, stat);
      if home.None? then Fails
      else
        var c' := c.(home := home.value);
        var owed := QuotaOwed(d, if c'.home.path != "" then c'.home.path else s.home, s.uid, q);
        if Writes(c') then Done([UpdateUser(s.id, PatchFor(c', ids.value, s.builtinGroups))] + QuotaCalls(owed, s.uid))
        else if owed.QuotaFails? then Fails
        else Done(QuotaCalls(owed, s.uid))
  }

  function CallsOf(r: Converged): seq<Mutation> {
    if r.Done? then r.calls else []
  }

  // ---------------------------------------------------------------- plan and apply agree

  /** The update names a field exactly when the planned after-state differs in it. */
  ghost predicate CarriesExactly(ix: Index, p: Patch, before: Subject, after: Subject) {
    && (p.groups.Some? <==> multiset(before.groups) != multiset(after.groups))
    && (p.groups.Some? ==> IdsFor(ix, after.groups).Some? &&
                           p.groups.value == IdsFor(ix, after.groups).value + before.builtinGroups)
    && p.locked == (if before.enabled != after.enabled then Some(!after.enabled) else None)
    && p.smb == (if before.smbEnabled != after.smbEnabled then Some(after.smbEnabled) else None)
    && p.home == (if before.home != after.home then Some(after.home) else None)
    && !p.password && p.passwordDisabled.None?
  }

  /**
   With the same reads and resolvable groups, the plan says something would happen exactly
   when the apply makes a mutating call.
   */
  lemma PlanIsApply(ix: Index, d: Desired, s: Subject, stat: Stat, q: QuotaRead)
    requires Group in d.managed ==> IdsFor(ix, d.groups).Some?
    ensures PlanExisting(d, s, stat, q).Apply? <==> CallsOf(ConvergeCalls(ix, d, s, stat, q)) != []
    ensures PlanExisting(d, s, stat, q).Blocked? <==> LacksHome(d, s.home) && stat.Unreadable?
    ensures PlanExisting(d, s, stat, q).Apply? <==>
      && !(LacksHome(d, s.home) && stat.Unreadable?)
      && (Differs(d, s, stat) || LimitOwed(d, HomeAfter(d, s, stat), s.uid, q))
  {
    HomeGiven(d, s.username, s.home, s.uid, stat);
    LimitGiven(d, HomeAfter(d, s, stat), s.uid, q);
    SameSetMeans(s.groups, d.groups);
    hide SameSet, IdsFor, QuotaOwed, DecideHome, LimitOwed, LacksHome, LimitAsked;
  }

  /** And the call carries exactly the planned difference: a limit alone when nothing else differs. */
  lemma PlanIsWritten(ix: Index, d: Desired, s: Subject, stat: Stat, q: QuotaRead)
    requires Group in d.managed ==> IdsFor(ix, d.groups).Some?
    requires PlanExisting(d, s, stat, q).Apply?
    ensures var after, calls := PlanExisting(d, s, stat, q).after, CallsOf(ConvergeCalls(ix, d, s, stat, q));
      if after == s then |calls| == 1 && calls[0].SetQuota?
      else exists p :: calls != [] && calls[0] == UpdateUser(s.id, p) && CarriesExactly(ix, p, s, after)
  {
    var home := DecideHome(d, s.username, s.home, s.uid, stat);
    var c := Decide(Some(s), d, home.value);
    var ids := if c.groups.Some? then IdsFor(ix, d.groups).value else [];
    hide SameSet, IdsFor, QuotaOwed, DecideHome, CarriesExactly;
    if Writes(c) {
      HomeIsNew(d, s, stat);
      ChangeIsCarried(ix, d, s, home.value);
    }
  }

  lemma ChangeIsCarried(ix: Index, d: Desired, s: Subject, home: HomeDecision)
    requires Group in d.managed ==> IdsFor(ix, d.groups).Some?
    requires home.path != "" ==> s.home == ""
    ensures var c := Decide(Some(s), d, home);
      var ids := if c.groups.Some? then IdsFor(ix, d.groups).value else [];
      && CarriesExactly(ix, PatchFor(c, ids, s.builtinGroups), s, ApplyTo(c, s))
      && (Writes(c) ==> ApplyTo(c, s) != s)
      && (Smb in d.managed ==> (c.smbPending <==> ApplyTo(c, s).smbEnabled != d.smbEnabled))
      && (Smb !in d.managed ==> !c.smbPending)
  {
    SameSetMeans(s.groups, d.groups);
    hide SameSet, IdsFor;
  }

  lemma HomeIsNew(d: Desired, s: Subject, stat: Stat)
    ensures var h := DecideHome(d, s.username, s.home, s.uid, stat); h.Some? && h.value.path != "" ==> s.home == ""
  {
  }

  // ---------------------------------------------------------------- one apply converges

  /** A faithful target stores what the update says; it may list memberships in any order. */
  ghost predicate Updates(a: Account, p: Patch, b: Account) {
    b.(groups := []) == Patched(a, p).(groups := []) && multiset(b.groups) == multiset(Patched(a, p).groups)
  }

  /** The account after the calls of one apply. */
  ghost predicate AfterApply(a: Account, calls: seq<Mutation>, b: Account) {
    if calls != [] && calls[0].UpdateUser? then Updates(a, calls[0].patch, b) else b == a
  }

  ghost predicate AllListed(ix: Index, ids: seq<Id>) {
    forall id :: id in ids ==> id in ix.byId
  }

  ghost predicate Desires(ix: Index, d: Desired, b: Account) {
    && (Group in d.managed ==> multiset(Names(ix, b.groups)) == multiset(d.groups))
    && (Enabled in d.managed ==> !b.locked == d.enabled)
    && (Smb in d.managed && !d.smbEnabled ==> !b.smb)
  }

  /** The one update of an apply, or the empty patch when it sends none. */
  function PatchOf(calls: seq<Mutation>): Patch {
    if calls != [] && calls[0].UpdateUser? then calls[0].patch else Patch(None, None, None, None, false, None)
  }

  /** What the update of a finished apply says, field by field. */
  lemma PatchShape(ix: Index, d: Desired, s: Subject, stat: Stat, q: QuotaRead)
    requires ConvergeCalls(ix, d, s, stat, q).Done?
    ensures var p := PatchOf(ConvergeCalls(ix, d, s, stat, q).calls);
      && (p.groups.Some? <==> Group in d.managed && multiset(s.groups) != multiset(d.groups))
      && (p.groups.Some? ==> IdsFor(ix, d.groups).Some?)
      && (p.groups.Some? ==> p.groups.value == IdsFor(ix, d.groups).value + s.builtinGroups)
      && p.locked == (if Enabled in d.managed && s.enabled != d.enabled then Some(!d.enabled) else None)
      && p.smb == (if Smb in d.managed && s.smbEnabled && !d.smbEnabled then Some(false) else None)
      && p.passwordDisabled.None? && !p.password
      && p.home == (if GivesHome(d, s.home, s.uid, stat) then Some(d.homeRoot + "/" + s.username) else None)
  {
    HomeGiven(d, s.username, s.home, s.uid, stat);
    SameSetMeans(s.groups, d.groups);
    hide GivesHome, DecideHome, SameSet, IdsFor, QuotaOwed;
  }

  /** The update has something to say. */
  ghost predicate Differs(d: Desired, s: Subject, stat: Stat) {
    || (Group in d.managed && multiset(s.groups) != multiset(d.groups))
    || (Enabled in d.managed && s.enabled != d.enabled)
    || (Smb in d.managed && s.smbEnabled && !d.smbEnabled)
    || GivesHome(d, s.home, s.uid, stat)
  }

  /** The home the account has after the update. */
  ghost function HomeAfter(d: Desired, s: Subject, stat: Stat): string {
    if GivesHome(d, s.home, s.uid, stat) then d.homeRoot + "/" + s.username else s.home
  }

  /**
   Exactly when an apply can be carried out: groups that change resolve, the folder can be read where
   a home hangs on it, and the limit can be read where nothing else is written.
   */
  lemma DoneIff(ix: Index, d: Desired, s: Subject, stat: Stat, q: QuotaRead)
    ensures ConvergeCalls(ix, d, s, stat, q).Done? <==>
      && (Group in d.managed && multiset(s.groups) != multiset(d.groups) ==> IdsFor(ix, d.groups).Some?)
      && (LacksHome(d, s.home) ==> !stat.Unreadable?)
      && (!Differs(d, s, stat) && LimitAsked(d, s.home) ==> q.QuotaRead?)
  {
    HomeGiven(d, s.username, s.home, s.uid, stat);
    LimitGiven(d, HomeAfter(d, s, stat), s.uid, q);
    SameSetMeans(s.groups, d.groups);
    hide DecideHome, SameSet, IdsFor, QuotaOwed, LimitOwed, LimitAsked, LacksHome;
  }

  /** And the calls it then makes: one update when something differs, and one limit when it is owed. */
  lemma CallsAre(ix: Index, d: Desired, s: Subject, stat: Stat, q: QuotaRead)
    requires ConvergeCalls(ix, d, s, stat, q).Done?
    ensures var calls := ConvergeCalls(ix, d, s, stat, q).calls;
      calls ==
        (if Differs(d, s, stat) then [UpdateUser(s.id, PatchOf(calls))] else []) +
        (if LimitOwed(d, HomeAfter(d, s, stat), s.uid, q)
         then [SetQuota(q.dataset, s.uid, if d.homeUnlimited then 0 else d.homeQuota)] else [])
  {
    HomeGiven(d, s.username, s.home, s.uid, stat);
    LimitGiven(d, HomeAfter(d, s, stat), s.uid, q);
    SameSetMeans(s.groups, d.groups);
    hide DecideHome, SameSet, IdsFor, QuotaOwed, LimitOwed, LimitAsked, LacksHome;
  }

  lemma UpdatesOwn(ix: Index, d: Desired, s: Subject, stat: Stat, q: QuotaRead)
    ensures var calls := CallsOf(ConvergeCalls(ix, d, s, stat, q));
      calls != [] && calls[0].UpdateUser? ==> calls[0].id == s.id
  {
  }

  lemma AfterPatch(a: Account, calls: seq<Mutation>, b: Account)
    requires AfterApply(a, calls, b)
    ensures Updates(a, PatchOf(calls), b)
  {
  }

  /** Every managed field as desired, every built-in membership kept, everything unmanaged untouched. */
  lemma ConvergesInOne(ix: Index, d: Desired, id: Id, a: Account, stat: Stat, q: QuotaRead, b: Account)
    requires OneToOne(ix)
    requires ConvergeCalls(ix, d, SubjectOf(ix, id, a), stat, q).Done?
    requires AfterApply(a, ConvergeCalls(ix, d, SubjectOf(ix, id, a), stat, q).calls, b)
    ensures Desires(ix, d, b)
    ensures multiset(Builtins(ix, b.groups)) == multiset(Builtins(ix, a.groups))
    ensures Group !in d.managed ==> multiset(b.groups) == multiset(a.groups)
    ensures Enabled !in d.managed ==> b.locked == a.locked
    ensures Smb !in d.managed || d.smbEnabled ==> b.smb == a.smb
    ensures b.username == a.username && b.uid == a.uid && b.passwordDisabled == a.passwordDisabled
  {
    hide ConvergeCalls, IdsFor, Names, Builtins, OneToOne;
    var s := SubjectOf(ix, id, a);
    PatchShape(ix, d, s, stat, q);
    AfterPatch(a, ConvergeCalls(ix, d, s, stat, q).calls, b);
    if Group in d.managed && multiset(s.groups) != multiset(d.groups) {
      ReplacedGroups(ix, d.groups, a.groups, b.groups);
    } else {
      OrderUnread(ix, a.groups, b.groups);
    }
  }

  /** A full replace of the managed groups, read back. */
  lemma ReplacedGroups(ix: Index, names: seq<string>, was: seq<Id>, now: seq<Id>)
    requires OneToOne(ix) && IdsFor(ix, names).Some?
    requires multiset(now) == multiset(IdsFor(ix, names).value + Builtins(ix, was))
    ensures multiset(Names(ix, now)) == multiset(names)
    ensures multiset(Builtins(ix, now)) == multiset(Builtins(ix, was))
  {
    hide OneToOne, IdsFor, Names, Builtins;
    var ids, kept := IdsFor(ix, names).value, Builtins(ix, was);
    OrderUnread(ix, now, ids + kept);
    NamesConcat(ix, ids, kept);
    WrittenIsRead(ix, names);
    BuiltinsKept(ix, was);
    assert names + [] == names && [] + kept == kept;
  }

  /** What the quota table reads after the calls of one apply. */
  ghost predicate QuotaAfter(q: QuotaRead, calls: seq<Mutation>, q': QuotaRead) {
    if calls != [] && calls[|calls| - 1].SetQuota?
    then q'.QuotaRead? && QuotaSet(q'.rows, calls[|calls| - 1].uid, calls[|calls| - 1].want)
    else q' == q
  }

  /**
   Applying the same desired state again makes no mutating call at all, whatever the target says
   of a folder the first apply made.
   */
  lemma SecondApplyIsQuiet(ix: Index, d: Desired, id: Id, a: Account, stat: Stat, q: QuotaRead, b: Account,
                           stat': Stat, q': QuotaRead)
    requires OneToOne(ix)
    requires ConvergeCalls(ix, d, SubjectOf(ix, id, a), stat, q).Done?
    requires AfterApply(a, ConvergeCalls(ix, d, SubjectOf(ix, id, a), stat, q).calls, b)
    requires QuotaAfter(q, ConvergeCalls(ix, d, SubjectOf(ix, id, a), stat, q).calls, q')
    requires PatchOf(ConvergeCalls(ix, d, SubjectOf(ix, id, a), stat, q).calls).home.None? ==> stat' == stat
    requires d.homeRoot != "" ==> d.homeRoot + "/" + a.username !in {"/var/empty", "/nonexistent"}
    ensures CallsOf(ConvergeCalls(ix, d, SubjectOf(ix, id, b), stat', q')) == []
    ensures var home := SubjectOf(ix, id, b).home;
      ConvergeCalls(ix, d, SubjectOf(ix, id, b), stat', q') == Done([]) <==>
        (LacksHome(d, home) ==> !stat'.Unreadable?) && (LimitAsked(d, home) ==> q'.QuotaRead?)
  {
    var s, t := SubjectOf(ix, id, a), SubjectOf(ix, id, b);
    ConvergesInOne(ix, d, id, a, stat, q, b);
    PatchShape(ix, d, s, stat, q);
    AfterPatch(a, ConvergeCalls(ix, d, s, stat, q).calls, b);
    Settled(ix, d, s, stat, q, stat', q');
    hide ConvergeCalls, IdsFor, Names, Builtins, OneToOne, QuotaOwed, DecideHome;
    assert t.home == Or(PatchOf(ConvergeCalls(ix, d, s, stat, q).calls).home, s.home);
    QuietWhenDesired(ix, d, t, stat', q');
    HomeGiven(d, t.username, t.home, t.uid, stat');
    DoneIff(ix, d, t, stat', q');
  }

  /** After an apply, neither the home nor its limit is owed any more. */
  lemma Settled(ix: Index, d: Desired, s: Subject, stat: Stat, q: QuotaRead, stat': Stat, q': QuotaRead)
    requires ConvergeCalls(ix, d, s, stat, q).Done?
    requires QuotaAfter(q, ConvergeCalls(ix, d, s, stat, q).calls, q')
    requires PatchOf(ConvergeCalls(ix, d, s, stat, q).calls).home.None? ==> stat' == stat
    ensures var home := Or(PatchOf(ConvergeCalls(ix, d, s, stat, q).calls).home, s.home);
      && (var h := DecideHome(d, s.username, home, s.uid, stat'); h.Some? ==> h.value.path == "")
      && !QuotaOwed(d, home, s.uid, q').Owed?
  {
    hide IdsFor, SameSet;
  }

  lemma QuietWhenDesired(ix: Index, d: Desired, t: Subject, stat: Stat, q: QuotaRead)
    requires Group in d.managed ==> multiset(t.groups) == multiset(d.groups)
    requires Enabled in d.managed ==> t.enabled == d.enabled
    requires Smb in d.managed && !d.smbEnabled ==> !t.smbEnabled
    requires var h := DecideHome(d, t.username, t.home, t.uid, stat); h.Some? ==> h.value.path == ""
    requires !QuotaOwed(d, t.home, t.uid, q).Owed?
    ensures CallsOf(ConvergeCalls(ix, d, t, stat, q)) == []
  {
    SameSetMeans(t.groups, d.groups);
    hide SameSet, DecideHome, QuotaOwed;
  }

  /**
   The full replace keeps every membership outside the managed groups exactly when the group
   table lists every membership: an unlisted one is never read, so it is never written back.
   */
  lemma UnlistedIsLost(ix: Index, names: seq<string>, was: seq<Id>, now: seq<Id>)
    requires OneToOne(ix) && IdsFor(ix, names).Some?
    requires multiset(now) == multiset(IdsFor(ix, names).value + Builtins(ix, was))
    ensures (forall id :: id in was && !IsManaged(ix, id) ==> id in now) <==> AllListed(ix, was)
  {
    var ids := IdsFor(ix, names).value;
    forall id ensures id in now <==> id in ids || id in Builtins(ix, was) {
      assert id in now <==> id in multiset(now);
      assert id in ids + Builtins(ix, was) <==> id in multiset(ids + Builtins(ix, was));
    }
    forall id ensures id in ids ==> IsManaged(ix, id) { IdsAreManaged(ix, names, id); }
    forall id ensures id in Builtins(ix, was) <==> id in was && IsBuiltin(ix, id) {
      BuiltinsCount(ix, was, id);
      assert id in was <==> id in multiset(was);
      assert id in Builtins(ix, was) <==> id in multiset(Builtins(ix, was));
    }
  }

  /** One such input: a membership of a group no table lists is gone after an apply of no groups. */
  lemma UnlistedExample()
    ensures var ix := Index(map[], map[], {});
      && OneToOne(ix) && IdsFor(ix, []).Some? && "7" in ["7"] && !IsManaged(ix, "7")
      && "7" !in IdsFor(ix, []).value + Builtins(ix, ["7"])
  {
    assert ["7"][..0] == [];
  }

  lemma {:induction false} IdsAreManaged(ix: Index, names: seq<string>, id: Id)
    requires OneToOne(ix) && IdsFor(ix, names).Some?
    ensures id in IdsFor(ix, names).value ==> IsManaged(ix, id)
  {
    if names != [] { IdsAreManaged(ix, names[..|names| - 1], id); }
  }
}
