/**
 The part of TrueNAS the add-on writes to: what a `user.update` changes and which credential
 and SMB combinations the target refuses, as recorded from a real one.
 */
module Target {
  import opened Options
  import opened Subjects

  /** The fields of one `user.update`. An absent field is left as it is. */
  datatype Patch = Patch(
    groups: Option<seq<Id>>, locked: Option<bool>, smb: Option<bool>, home: Option<string>,
    password: bool, passwordDisabled: Option<bool>)

  function Or<T>(o: Option<T>, otherwise: T): T {
    if o.Some? then o.value else otherwise
  }

  function Patched(a: Account, p: Patch): Account {
    a.(groups := Or(p.groups, a.groups), locked := Or(p.locked, a.locked), smb := Or(p.smb, a.smb),
       home := Or(p.home, a.home), passwordDisabled := Or(p.passwordDisabled, a.passwordDisabled))
  }

  /** SMB needs password authentication, and can be switched on only together with a new password. */
  predicate UpdateAllowed(a: Account, p: Patch) {
    var b := Patched(a, p);
    && !(b.smb && b.passwordDisabled)
    && (p.smb == Some(true) ==> p.password)
  }

  /** A new account needs a credential decision, and SMB needs password authentication. */
  predicate CreateAllowed(a: Account, password: bool) {
    && (password || a.passwordDisabled)
    && !(a.smb && a.passwordDisabled)
  }

  function Nothing(): Patch { Patch(None, None, None, None, false, None) }

  /**
   The rules as recorded, of any account: what a create must decide, that SMB and a disabled password
   never go together, that a password alone enables nothing, and that SMB is switched on with a new
   password and enabled authentication in the same call or not at all.
   */
  lemma RecordedRules(a: Account, name: string, uid: int, q: Patch)
    ensures var base := Account(name, uid, false, false, false, false, [], "");
      && !CreateAllowed(base, false)
      && !CreateAllowed(base.(smb := true, passwordDisabled := true), false)
      && CreateAllowed(base.(passwordDisabled := true), false)
    ensures UpdateAllowed(a, Nothing().(password := true)) <==> !(a.smb && a.passwordDisabled)
    ensures Patched(a, Nothing().(password := true)) == a
    ensures !UpdateAllowed(a, Nothing().(smb := Some(true)))
    ensures UpdateAllowed(a, Nothing().(password := true, passwordDisabled := Some(false), smb := Some(true)))
    ensures UpdateAllowed(a, q) && Patched(a, q).smb && q.smb.Some? ==> q.password && !Patched(a, q).passwordDisabled
    ensures UpdateAllowed(a, q.(password := true)) <==> !(Patched(a, q).smb && Patched(a, q).passwordDisabled)
  {
  }
}
