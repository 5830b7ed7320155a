/**
 What every step of the add-on keeps, stated over plain values: the SMB promise made to a
 subject and the ownership of home folders. Each lemma is one kind of step.
 */
module Invariants {
  import opened Options
  import opened Subjects
  import opened Target
  import opened Locating

  // ---------------------------------------------------------------- SMB and passwords

  ghost predicate DistinctAccounts(users: map<Id, Account>) {
    forall i, j :: i in users && j in users && i != j ==>
      users[i].username != users[j].username && users[i].uid != users[j].uid
  }

  /** The target never holds an SMB account whose password authentication is disabled. */
  ghost predicate NoBareSmb(users: map<Id, Account>) {
    forall i :: i in users ==> !(users[i].smb && users[i].passwordDisabled)
  }

  /** A binding that knows an account's uid knows its name, and no two bindings share a name. */
  ghost predicate BindingsAgree(users: map<Id, Account>, bindings: map<string, Binding>) {
    && (forall s, i :: s in bindings && i in users && users[i].uid == bindings[s].uid ==>
          users[i].username == bindings[s].username)
    && (forall s, t :: s in bindings && t in bindings && s != t ==> bindings[s].username != bindings[t].username)
  }

  /** An account last applied with SMB off has it off, and no binding to it asks for it on. */
  ghost predicate OffHolds(users: map<Id, Account>, bindings: map<string, Binding>, off: set<Id>) {
    && (forall i :: i in off ==> i in users && !users[i].smb)
    && (forall i, s :: i in off && i in users && s in bindings && bindings[s].username == users[i].username ==>
          bindings[s].wantsSmb != Some(true))
  }

  /** No in-range number above the high-water mark is in use. */
  ghost predicate BelowMark(r: Range, users: map<Id, Account>, bindings: map<string, Binding>, mark: int) {
    && (forall i :: i in users && Within(r, users[i].uid) ==> users[i].uid <= mark)
    && (forall s :: s in bindings && Within(r, bindings[s].uid) ==> bindings[s].uid <= mark)
  }

  ghost predicate SmbOk(r: Range, users: map<Id, Account>, bindings: map<string, Binding>, off: set<Id>, mark: int) {
    && DistinctAccounts(users) && NoBareSmb(users) && BindingsAgree(users, bindings)
    && OffHolds(users, bindings, off) && BelowMark(r, users, bindings, mark)
  }

  lemma SmbUpdate(r: Range, users: map<Id, Account>, bindings: map<string, Binding>, off: set<Id>, mark: int, id: Id,
                  p: Patch)
    requires SmbOk(r, users, bindings, off, mark) && id in users && UpdateAllowed(users[id], p)
    requires p.smb == Some(true) ==> id !in off
    ensures SmbOk(r, users[id := Patched(users[id], p)], bindings, off, mark)
  {
  }

  lemma SmbCreate(r: Range, users: map<Id, Account>, bindings: map<string, Binding>, off: set<Id>, mark: int,
                  id: Id, a: Account, mark': int)
    requires SmbOk(r, users, bindings, off, mark) && id !in users && mark <= mark'
    requires forall i :: i in users ==> users[i].username != a.username && users[i].uid != a.uid
    requires Within(r, a.uid) && mark < a.uid <= mark' && !a.smb
    ensures SmbOk(r, users[id := a], bindings, off, mark')
  {
  }

  lemma SmbBind(r: Range, users: map<Id, Account>, bindings: map<string, Binding>, off: set<Id>, mark: int, s: string,
                b: Binding)
    requires SmbOk(r, users, bindings, off, mark)
    requires forall t :: t in bindings && t != s ==> bindings[t].username != b.username
    requires forall i :: i in users && users[i].uid == b.uid ==> users[i].username == b.username
    requires Within(r, b.uid) ==> b.uid <= mark
    requires b.wantsSmb == Some(true) ==> forall i :: i in off && i in users ==> users[i].username != b.username
    ensures SmbOk(r, users, bindings[s := b], off, mark)
  {
  }

  /** The account as an apply left it, and the wish it recorded on the binding. */
  lemma SmbWant(r: Range, users: map<Id, Account>, bindings: map<string, Binding>, off: set<Id>, mark: int,
                s: string, id: Id, want: bool)
    requires SmbOk(r, users, bindings, off, mark) && s in bindings && id in users
    requires users[id].username == bindings[s].username && (!want ==> !users[id].smb)
    ensures SmbOk(r, users, bindings[s := bindings[s].(wantsSmb := Some(want))],
                  if want then off - {id} else off + {id}, mark)
  {
  }

  lemma SmbUnbind(r: Range, users: map<Id, Account>, bindings: map<string, Binding>, off: set<Id>, mark: int, s: string)
    requires SmbOk(r, users, bindings, off, mark)
    ensures SmbOk(r, users, bindings - {s}, off, mark)
  {
  }

  lemma SmbDelete(r: Range, users: map<Id, Account>, bindings: map<string, Binding>, off: set<Id>, mark: int, id: Id)
    requires SmbOk(r, users, bindings, off, mark)
    ensures SmbOk(r, users - {id}, bindings, off - {id}, mark)
  {
  }

  lemma SmbMark(r: Range, users: map<Id, Account>, bindings: map<string, Binding>, off: set<Id>, mark: int, mark': int)
    requires SmbOk(r, users, bindings, off, mark) && mark <= mark'
    ensures SmbOk(r, users, bindings, off, mark')
  {
  }

  // ---------------------------------------------------------------- identities and home folders

  /** Numbers in use are claimed, and one this add-on created an account with names one account at most. */
  ghost predicate CreatedOnce(r: Range, users: map<Id, Account>, mark: int, created: set<int>) {
    && (forall u :: u in created ==> Within(r, u) && u <= mark)
    && (forall i :: i in users && Within(r, users[i].uid) ==> users[i].uid <= mark)
    && (forall i, j :: i in users && j in users && users[i].uid == users[j].uid && users[i].uid in created ==> i == j)
  }

  /** No folder belongs to a number that has not been claimed yet. */
  ghost predicate FoldersClaimed(r: Range, owners: map<string, int>, mark: int) {
    forall p :: p in owners && Within(r, owners[p]) ==> owners[p] <= mark
  }

  /** A folder ever given to a number belongs to that number, and every created account's home was given to it. */
  ghost predicate HomesGiven(users: map<Id, Account>, owners: map<string, int>, created: set<int>,
                             given: set<(int, string)>) {
    && (forall g :: g in given ==> g.1 in owners && owners[g.1] == g.0)
    && (forall i :: i in users && users[i].uid in created && HomeOf(users[i].home) != "" ==>
          (users[i].uid, users[i].home) in given)
  }

  ghost predicate HomeOk(r: Range, users: map<Id, Account>, owners: map<string, int>, mark: int,
                         created: set<int>, given: set<(int, string)>) {
    && CreatedOnce(r, users, mark, created) && FoldersClaimed(r, owners, mark)
    && HomesGiven(users, owners, created, given)
  }

  /** The folder is made for this number if nobody has it. */
  function Owned(owners: map<string, int>, path: string, uid: int): map<string, int> {
    if path in owners then owners else owners[path := uid]
  }

  lemma HomeUpdate(r: Range, users: map<Id, Account>, owners: map<string, int>, mark: int, created: set<int>,
                   given: set<(int, string)>, id: Id, p: Patch)
    requires HomeOk(r, users, owners, mark, created, given) && id in users
    requires p.home.Some? ==> p.home.value !in owners || owners[p.home.value] == users[id].uid
    ensures var users' := users[id := Patched(users[id], p)];
      if p.home.None? then HomeOk(r, users', owners, mark, created, given)
      else HomeOk(r, users', Owned(owners, p.home.value, users[id].uid), mark, created,
                  given + {(users[id].uid, p.home.value)})
  {
  }

  lemma HomeCreate(r: Range, users: map<Id, Account>, owners: map<string, int>, mark: int, created: set<int>,
                   given: set<(int, string)>, id: Id, a: Account, mark': int)
    requires HomeOk(r, users, owners, mark, created, given) && id !in users && mark < a.uid <= mark'
    requires Within(r, a.uid) && forall i :: i in users ==> users[i].uid != a.uid
    ensures HomeOf(a.home) == "" ==> HomeOk(r, users[id := a], owners, mark', created + {a.uid}, given)
    ensures a.home !in owners ==>
      HomeOk(r, users[id := a], owners[a.home := a.uid], mark', created + {a.uid}, given + {(a.uid, a.home)})
  {
  }

  lemma HomeMark(r: Range, users: map<Id, Account>, owners: map<string, int>, mark: int, created: set<int>,
                 given: set<(int, string)>, mark': int)
    requires HomeOk(r, users, owners, mark, created, given) && mark <= mark'
    ensures HomeOk(r, users, owners, mark', created, given)
  {
  }

  lemma HomeDelete(r: Range, users: map<Id, Account>, owners: map<string, int>, mark: int, created: set<int>,
                   given: set<(int, string)>, id: Id)
    requires HomeOk(r, users, owners, mark, created, given)
    ensures HomeOk(r, users - {id}, owners, mark, created, given)
  {
  }

  /** Somebody renames an account by hand. */
  lemma HomeRename(r: Range, users: map<Id, Account>, owners: map<string, int>, mark: int, created: set<int>,
                   given: set<(int, string)>, id: Id, name: string)
    requires HomeOk(r, users, owners, mark, created, given) && id in users
    ensures HomeOk(r, users[id := users[id].(username := name)], owners, mark, created, given)
  {
  }

  /** Somebody makes an account, or a folder, with a number outside the add-on's range. */
  lemma HomeOutside(r: Range, users: map<Id, Account>, owners: map<string, int>, mark: int, created: set<int>,
                    given: set<(int, string)>, id: Id, a: Account, path: string, owner: int)
    requires HomeOk(r, users, owners, mark, created, given)
    ensures id !in users && !Within(r, a.uid) ==> HomeOk(r, users[id := a], owners, mark, created, given)
    ensures !Within(r, owner) ==> HomeOk(r, users, Owned(owners, path, owner), mark, created, given)
  {
  }

  /** No folder is ever given to two numbers, and no two created accounts have one home. */
  lemma HomesNeverShared(r: Range, users: map<Id, Account>, owners: map<string, int>, mark: int, created: set<int>,
                         given: set<(int, string)>)
    requires HomeOk(r, users, owners, mark, created, given)
    ensures forall g, h :: g in given && h in given && g.1 == h.1 ==> g == h
    ensures forall i, j :: Homed(users, created, i) && Homed(users, created, j) && i != j ==>
      users[i].home != users[j].home
  {
    forall g, h | g in given && h in given && g.1 == h.1 ensures g == h {
      assert owners[g.1] == g.0 && owners[h.1] == h.0;
    }
    forall i, j | Homed(users, created, i) && Homed(users, created, j) && i != j
      ensures users[i].home != users[j].home
    {
      assert (users[i].uid, users[i].home) in given && (users[j].uid, users[j].home) in given;
    }
  }

  /** An account this add-on created, with a home. */
  ghost predicate Homed(users: map<Id, Account>, created: set<int>, i: Id) {
    i in users && users[i].uid in created && HomeOf(users[i].home) != ""
  }
}
