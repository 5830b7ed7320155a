/**
 Finding a subject's account before an apply touches anything: by its binding first and by
 the derived name second, through exact-key lookups that a target may answer badly.
 */
module Locating {
  import opened Options
  import opened Subjects

  datatype Binding = Binding(username: string, uid: int, wantsSmb: Option<bool>)

  /** The identity numbers this add-on hands out. */
  datatype Range = Range(floor: int, ceiling: int)

  predicate Within(r: Range, n: int) { r.floor <= n <= r.ceiling }

  // ---------------------------------------------------------------- one lookup

  datatype Key = ByName(name: string) | ByUid(uid: int)

  predicate Matches(k: Key, a: Account) {
    match k
    case ByName(name) => a.username == name
    case ByUid(uid) => a.uid == uid
  }

  /** The account found, and whether the list it was looked for in had been cut short. */
  datatype Lookup = Lookup(found: Option<Subject>, cut: bool)

  /**
   What may be relied on of any answer to a query: its rows are accounts on the target, and a
   list the read cap did not cut holds every account that matches. A target that ignores the
   filter and sends its whole list, capped, satisfies this too.
   */
  ghost predicate Answers(accounts: map<Id, Account>, k: Key, sent: seq<Row>) {
    && (forall r :: r in sent ==> r.id in accounts && accounts[r.id] == r.account)
    && (|sent| <= READ_CAP ==>
          forall id :: id in accounts && Matches(k, accounts[id]) ==> Row(id, accounts[id]) in sent)
  }

  ghost predicate OnTarget(accounts: map<Id, Account>, k: Key) {
    exists id :: id in accounts && !System(accounts[id]) && Matches(k, accounts[id])
  }

  /** The key is compared on this side too, so an ignored filter cannot hand back a stranger. */
  method SubjectWhere(ix: Index, k: Key, sent: seq<Row>, ghost accounts: map<Id, Account>) returns (l: Lookup)
    requires Answers(accounts, k, sent)
    ensures l.found.Some? ==> var s := l.found.value;
      && s.id in accounts && s == SubjectOf(ix, s.id, accounts[s.id])
      && !System(accounts[s.id]) && Matches(k, accounts[s.id])
    ensures l.found.None? && !l.cut ==> !OnTarget(accounts, k)
    ensures l.cut <==> |sent| > READ_CAP
  {
    var subjects, truncated := ReadSubjects(ix, sent);
    ghost var rows := if truncated then sent[..READ_CAP] else sent;
    for i := 0 to |subjects|
      invariant forall j :: 0 <= j < i ==> !MatchesSubject(k, subjects[j])
    {
      if (k.ByName? && subjects[i].username == k.name) || (k.ByUid? && subjects[i].uid == k.uid) {
        ReadIffSent(ix, rows, subjects[i]);
        ghost var r :|
          0 <= r < |rows| && !System(rows[r].account) && subjects[i] == SubjectOf(ix, rows[r].id, rows[r].account);
        assert rows[r] in sent;
        return Lookup(Some(subjects[i]), truncated);
      }
    }
    if !truncated {
      NotRead(ix, k, sent, accounts, subjects);
    }
    l := Lookup(None, truncated);
  }

  predicate MatchesSubject(k: Key, s: Subject) {
    match k
    case ByName(name) => s.username == name
    case ByUid(uid) => s.uid == uid
  }

  lemma NotRead(ix: Index, k: Key, sent: seq<Row>, accounts: map<Id, Account>, subjects: seq<Subject>)
    requires Answers(accounts, k, sent) && |sent| <= READ_CAP && subjects == ReadAll(ix, sent)
    requires forall j :: 0 <= j < |subjects| ==> !MatchesSubject(k, subjects[j])
    ensures !OnTarget(accounts, k)
  {
    forall id | id in accounts && !System(accounts[id]) ensures !Matches(k, accounts[id]) {
      if Matches(k, accounts[id]) {
        var s := SubjectOf(ix, id, accounts[id]);
        assert Row(id, accounts[id]) in sent;
        ReadIffSent(ix, sent, s);
      }
    }
  }

  // ---------------------------------------------------------------- locating the account

  datatype Located =
    | Here(subject: Subject, binding: Binding)
    | Taken(username: string, uid: int)
    | Absent(binding: Binding, cut: bool)
    | NoIdentity

  /** `byName` is the lookup of the bound or derived name, `byUid` that of the bound uid. */
  function Locate(range: Range, bound: Option<Binding>, derived: Option<string>, byName: Lookup,
                  byUid: Lookup): Located {
    match bound
    case Some(b) =>
      var owned := Within(range, b.uid);
      if byName.found.Some? then
        var found := byName.found.value;
        if owned && found.uid != b.uid then Taken(found.username, found.uid)
        else Here(found, if !owned && Within(range, found.uid) then b.(uid := found.uid) else b)
      else if !owned then Absent(b, byName.cut)
      else if byUid.found.Some? then Here(byUid.found.value, b.(username := byUid.found.value.username))
      else Absent(b, byName.cut || byUid.cut)
    case None =>
      if derived.None? then NoIdentity
      else if byName.found.Some? then Taken(derived.value, byName.found.value.uid)
      else Absent(Binding(derived.value, 0, None), byName.cut)
  }

  /** The key of the first lookup. */
  function NameKey(bound: Option<Binding>, derived: Option<string>): Key
    requires bound.Some? || derived.Some?
  {
    if bound.Some? then ByName(bound.value.username) else ByName(derived.value)
  }

  /** An apply creates an account only for a located absence that no cut list stands behind. */
  predicate MayCreate(l: Located) {
    l.Absent? && !l.cut
  }

  /** Both lookups, made on whatever the target sends, and the decision on them. */
  method LocateAccount(range: Range, ix: Index, bound: Option<Binding>, derived: Option<string>,
                       sentByName: seq<Row>, sentByUid: seq<Row>, ghost accounts: map<Id, Account>)
    returns (l: Located)
    requires (bound.Some? || derived.Some?) ==> Answers(accounts, NameKey(bound, derived), sentByName)
    requires bound.Some? ==> Answers(accounts, ByUid(bound.value.uid), sentByUid)
    // No account is created beside one the subject already has, or beside an unbound one of that name.
    ensures MayCreate(l) && bound.Some? ==> !OnTarget(accounts, ByName(bound.value.username))
    ensures MayCreate(l) && bound.Some? && Within(range, bound.value.uid) ==>
      !OnTarget(accounts, ByUid(bound.value.uid))
    ensures MayCreate(l) && bound.None? ==> derived.Some? && !OnTarget(accounts, ByName(derived.value))
    // An account that is converged is the subject's own: by name or by uid, never against an in-range uid.
    ensures l.Here? ==> bound.Some? && l.subject.id in accounts && !System(accounts[l.subject.id])
    ensures l.Here? ==> l.subject == SubjectOf(ix, l.subject.id, accounts[l.subject.id])
    ensures l.Here? && l.subject.username != bound.value.username ==> Within(range, bound.value.uid)
    ensures l.Here? ==> l.subject.username == bound.value.username || l.subject.uid == bound.value.uid
    ensures l.Here? ==> l.binding.username == l.subject.username
    ensures l.Here? && Within(range, bound.value.uid) ==> l.subject.uid == bound.value.uid == l.binding.uid
    ensures l.Here? ==> l.binding.uid == if Within(range, l.subject.uid) then l.subject.uid else bound.value.uid
    ensures l.Here? ==> l.binding.wantsSmb == bound.value.wantsSmb
    ensures l.Absent? ==> bound.Some? || derived.Some?
    ensures l.Absent? ==> l.binding == if bound.Some? then bound.value else Binding(derived.value, 0, None)
    ensures l.NoIdentity? <==> bound.None? && derived.None?
    // A conflict is a real one: the bound name on an account with another uid, or the derived name in use.
    ensures l.Taken? && bound.Some? ==> Within(range, bound.value.uid) && l.uid != bound.value.uid
    ensures l.Taken? && bound.Some? ==>
      exists id :: id in accounts && !System(accounts[id]) &&
        accounts[id].username == bound.value.username && accounts[id].uid == l.uid
    ensures l.Taken? && bound.None? ==> derived.Some?
    ensures l.Taken? && bound.None? ==>
      exists id :: id in accounts && !System(accounts[id]) &&
        accounts[id].username == derived.value && accounts[id].uid == l.uid
    ensures l.Taken? ==> l.username == if bound.Some? then bound.value.username else derived.value
    ensures l.Absent? && l.cut ==> |sentByName| > READ_CAP || |sentByUid| > READ_CAP
  {
    if bound.None? && derived.None? { return NoIdentity; }
    var byName := SubjectWhere(ix, NameKey(bound, derived), sentByName, accounts);
    var byUid := Lookup(None, false);
    if bound.Some? && byName.found.None? && Within(range, bound.value.uid) {
      byUid := SubjectWhere(ix, ByUid(bound.value.uid), sentByUid, accounts);
    }
    l := Locate(range, bound, derived, byName, byUid);
  }
}
