/**
 The records of the mutation log and the hash chain through them. SHA-256 is a
 parameter `hash`; what tamper evidence needs of it is stated where it is needed.
 */
module Chain {
  import opened Text

  type Hash = string -> string

  /** The digest a record should carry, as a function of the record. */
  type Digest = Record -> string

  datatype Record = Record(
    seqNo: nat, at: string, operation: string, subject: string, actor: string,
    callId: string, outcome: string, prev: string, digest: string)

  // ---------------------------------------------------------------- what is hashed

  function PreImage(r: Record): string {
    Frames([Decimal(r.seqNo), r.at, r.operation, r.subject, r.actor, r.callId, r.outcome, r.prev])
  }

  function DigestOf(hash: Hash): Digest {
    (r: Record) => hash(PreImage(r))
  }

  /** The digest deliberately leaves out the digest field itself. */
  ghost predicate ExcludesItself(digest: Digest) {
    forall r: Record, d :: digest(r.(digest := d)) == digest(r)
  }

  /** Two records are hashed as the same bytes only if all eight fields agree. */
  lemma PreImageInjective(r: Record, s: Record)
    ensures PreImage(r) == PreImage(s) <==> r.(digest := s.digest) == s
  {
    if PreImage(r) == PreImage(s) {
      var x := [Decimal(r.seqNo), r.at, r.operation, r.subject, r.actor, r.callId, r.outcome, r.prev];
      var y := [Decimal(s.seqNo), s.at, s.operation, s.subject, s.actor, s.callId, s.outcome, s.prev];
      FramesInjective(x, y);
      assert x[0] == y[0] && x[1] == y[1] && x[2] == y[2] && x[3] == y[3];
      assert x[4] == y[4] && x[5] == y[5] && x[6] == y[6] && x[7] == y[7];
      DecimalInjective(r.seqNo, s.seqNo);
    }
  }

  // ---------------------------------------------------------------- the chain

  /** `s` is a record that may directly follow `r`. */
  predicate Follows(r: Record, s: Record) {
    s.seqNo == r.seqNo + 1 && s.prev == r.digest
  }

  /** An unbroken, unaltered run of records, starting anywhere. */
  ghost predicate Linked(digest: Digest, rs: seq<Record>) {
    && (forall i :: 0 <= i < |rs| ==> rs[i].digest == digest(rs[i]))
    && (forall i, j :: 0 <= i < j < |rs| && j == i + 1 ==> Follows(rs[i], rs[j]))
  }

  /** A linked run from the very first record. */
  ghost predicate FromStart(digest: Digest, rs: seq<Record>) {
    Linked(digest, rs) && (rs != [] ==> rs[0].seqNo == 1 && rs[0].prev == "")
  }

  function Head(rs: seq<Record>): string {
    if rs == [] then "" else rs[|rs| - 1].digest
  }

  lemma {:induction false} LinkedNumbers(digest: Digest, rs: seq<Record>, i: nat)
    requires Linked(digest, rs) && i < |rs|
    ensures rs[i].seqNo == rs[0].seqNo + i
  {
    if i > 0 {
      LinkedNumbers(digest, rs, i - 1);
      assert Follows(rs[i - 1], rs[i]);
    }
  }

  /** The record a writer at the end of `rs` appends next continues the chain. */
  lemma ExtendFromStart(digest: Digest, rs: seq<Record>, r: Record)
    requires FromStart(digest, rs)
    requires r.seqNo == |rs| + 1 && r.prev == Head(rs) && r.digest == digest(r)
    ensures FromStart(digest, rs + [r])
  {
    if rs != [] { LinkedNumbers(digest, rs, |rs| - 1); }
  }

  // ---------------------------------------------------------------- tamper evidence

  /** The digest tells the records of this list apart. */
  ghost predicate CollisionFree(digest: Digest, rs: seq<Record>) {
    forall r, s :: r in rs && s in rs && digest(r) == digest(s) ==> r.(digest := s.digest) == s
  }

  /** A hash without collisions on what is hashed gives such a digest. */
  lemma HashCollisionFree(hash: Hash, rs: seq<Record>)
    requires forall r, s :: r in rs && s in rs && hash(PreImage(r)) == hash(PreImage(s)) ==> PreImage(r) == PreImage(s)
    ensures CollisionFree(DigestOf(hash), rs) && ExcludesItself(DigestOf(hash))
  {
    forall r, s | r in rs && s in rs && DigestOf(hash)(r) == DigestOf(hash)(s) ensures r.(digest := s.digest) == s {
      PreImageInjective(r, s);
    }
    forall r: Record, d ensures DigestOf(hash)(r.(digest := d)) == DigestOf(hash)(r) {
      PreImageInjective(r.(digest := d), r);
    }
  }

  /** Two verified logs with one head agree, record for record, counting back from it. */
  lemma {:induction false} CommonSuffix(digest: Digest, a: seq<Record>, b: seq<Record>, back: nat)
    requires Linked(digest, a) && Linked(digest, b) && a != [] && b != []
    requires Head(a) == Head(b)
    requires CollisionFree(digest, a + b)
    requires back < |a| && back < |b|
    ensures a[|a| - 1 - back] == b[|b| - 1 - back]
    decreases back
  {
    var i, j := |a| - 1 - back, |b| - 1 - back;
    if back > 0 {
      CommonSuffix(digest, a, b, back - 1);
      assert Follows(a[i], a[i + 1]) && Follows(b[j], b[j + 1]);
    }
    assert a[i] in a + b && b[j] in a + b;
  }

  /** Verified logs that open with one record and end in one head are the same log. */
  lemma SameEndsSameLog(digest: Digest, a: seq<Record>, b: seq<Record>)
    requires Linked(digest, a) && Linked(digest, b) && a != [] && b != []
    requires a[0].seqNo == b[0].seqNo
    requires Head(a) == Head(b) && CollisionFree(digest, a + b)
    ensures a == b
  {
    assert |a| == |b| by {
      CommonSuffix(digest, a, b, 0);
      LinkedNumbers(digest, a, |a| - 1);
      LinkedNumbers(digest, b, |b| - 1);
    }
    forall i | 0 <= i < |a| ensures a[i] == b[i] {
      CommonSuffix(digest, a, b, |a| - 1 - i);
    }
  }

  /**
   Nothing past the first record can be altered, inserted or removed under an unchanged
   head: replacing any stretch of a verified log by another verified stretch is the identity.
   */
  lemma SpliceDetected(digest: Digest, front: seq<Record>, was: seq<Record>, now: seq<Record>, back: seq<Record>)
    requires front != []
    requires Linked(digest, front + was + back) && Linked(digest, front + now + back)
    requires Head(front + was + back) == Head(front + now + back)
    requires CollisionFree(digest, (front + was + back) + (front + now + back))
    ensures was == now
  {
    var a, b := front + was + back, front + now + back;
    SameEndsSameLog(digest, a, b);
    assert was == a[|front|..|a| - |back|] == b[|front|..|b| - |back|] == now;
  }

  /** What the chain alone cannot see: cutting records off the end leaves a log that verifies. */
  lemma TruncationUnseen(digest: Digest, rs: seq<Record>, n: nat)
    requires FromStart(digest, rs) && n <= |rs|
    ensures FromStart(digest, rs[..n])
    ensures 0 < n < |rs| ==> rs[n - 1].seqNo < rs[|rs| - 1].seqNo
  {
    if 0 < n < |rs| {
      LinkedNumbers(digest, rs, n - 1);
      LinkedNumbers(digest, rs, |rs| - 1);
    }
  }
}
