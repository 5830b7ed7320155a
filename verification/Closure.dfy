/**
 The mapping-rule closure with end dates: which roles somebody holds once every
 chain of rules has been followed, and when each of them ends.

 `Ends` is an in-place fixpoint over a rule graph that may contain cycles. What it
 must compute is stated without reference to passes or rule order, by `BestEnds`:
 a role is held exactly when some base role leads to it along a chain of rules, and
 it ends when the longest-lasting of those base roles ends.
 */
module Closure {

  /** An instant. The zero instant stands for "never ends". */
  type Time = int

  const NEVER: Time := 0

  datatype MappingRule = MappingRule(
    sourceProject: string, sourceRole: string, targetProject: string, targetRole: string)

  /** A rule seen through the caller's key function. */
  datatype Edge<K> = Edge(src: K, tgt: K)

  function EdgeOf<K>(r: MappingRule, key: (string, string) -> K): Edge<K> {
    Edge(key(r.sourceProject, r.sourceRole), key(r.targetProject, r.targetRole))
  }

  function Edges<K>(rules: seq<MappingRule>, key: (string, string) -> K): (es: seq<Edge<K>>)
    ensures |es| == |rules|
  {
    seq(|rules|, i requires 0 <= i < |rules| => EdgeOf(rules[i], key))
  }

  // ---------------------------------------------------------------- the order on ends

  /** `a` ends no later than `b`. */
  predicate NoLater(a: Time, b: Time) {
    b == NEVER || (a != NEVER && a <= b)
  }

  /** The end of something held through either of two sources: their least upper bound. */
  function Later(a: Time, b: Time): (r: Time)
    ensures NoLater(a, r) && NoLater(b, r)
    ensures forall c :: NoLater(a, c) && NoLater(b, c) ==> NoLater(r, c)
  {
    if a == NEVER || b == NEVER then NEVER
    else if b > a then b
    else a
  }

  /** `m` holds everything `n` holds, for no longer. */
  ghost predicate Below<K(!new)>(m: map<K, Time>, n: map<K, Time>) {
    forall k {:trigger k in n} {:trigger n[k]} :: k in m ==> k in n && NoLater(m[k], n[k])
  }

  // ---------------------------------------------------------------- chains of rules

  /** `p` is a chain of rules leading from `a` to `b`. */
  ghost predicate Links<K>(edges: seq<Edge<K>>, a: K, p: seq<Edge<K>>, b: K) {
    && (forall e :: e in p ==> e in edges)
    && (if p == [] then a == b else p[0].src == a && p[|p| - 1].tgt == b)
    && (forall i :: 0 < i < |p| ==> p[i - 1].tgt == p[i].src)
  }

  ghost predicate Reaches<K(!new)>(edges: seq<Edge<K>>, a: K, b: K) {
    exists p :: Links(edges, a, p, b)
  }

  /**
   What the closure means: a role is held iff a chain leads to it from a base role, and
   its end is attained by one such base role and exceeded by none.
   */
  ghost predicate BestEnds<K(!new)>(base: map<K, Time>, edges: seq<Edge<K>>, out: map<K, Time>) {
    && Sound(base, edges, out)
    && Complete(base, edges, out)
  }

  ghost predicate Sound<K(!new)>(base: map<K, Time>, edges: seq<Edge<K>>, out: map<K, Time>) {
    forall k :: k in out ==> Supported(base, edges, k, out[k])
  }

  ghost predicate Complete<K(!new)>(base: map<K, Time>, edges: seq<Edge<K>>, out: map<K, Time>) {
    forall a, k :: a in base && Reaches(edges, a, k) ==> k in out && NoLater(base[a], out[k])
  }

  ghost predicate Supported<K(!new)>(base: map<K, Time>, edges: seq<Edge<K>>, k: K, end: Time) {
    exists a :: a in base && base[a] == end && Reaches(edges, a, k)
  }

  /** Every rule whose source `m` holds has been followed into `m'`. */
  ghost predicate Applied<K>(edges: seq<Edge<K>>, m: map<K, Time>, m': map<K, Time>) {
    forall e :: e in edges && e.src in m ==> e.tgt in m' && NoLater(m[e.src], m'[e.tgt])
  }

  /** No rule has anything left to add to `m`. */
  ghost predicate Closed<K>(edges: seq<Edge<K>>, m: map<K, Time>) {
    Applied(edges, m, m)
  }

  // ---------------------------------------------------------------- what that says of rules and instants

  /** Something that ends at `end` still lasts at instant `t`; the zero instant never ends. */
  predicate Lasts(end: Time, t: Time) {
    end == 0 || t < end
  }

  /** A chain of rules, each from the role the one before it gives, leading from role `a` to role `b`. */
  ghost predicate RuleChain<K>(rules: seq<MappingRule>, key: (string, string) -> K, a: K, p: seq<MappingRule>, b: K)
    decreases |p|
  {
    if p == [] then a == b
    else
      && p[0] in rules && key(p[0].sourceProject, p[0].sourceRole) == a
      && RuleChain(rules, key, key(p[0].targetProject, p[0].targetRole), p[1..], b)
  }

  /** At instant `t` some base role lasts that a chain of rules leads from. */
  ghost predicate Given<K(!new)>(base: map<K, Time>, rules: seq<MappingRule>, key: (string, string) -> K, k: K,
                                 t: Time) {
    exists a, p :: a in base && Lasts(base[a], t) && RuleChain(rules, key, a, p, k)
  }

  ghost predicate HeldAt<K>(out: map<K, Time>, k: K, t: Time) {
    k in out && Lasts(out[k], t)
  }

  lemma {:induction false} ChainLinks<K(!new)>(rules: seq<MappingRule>, key: (string, string) -> K,
                                               a: K, p: seq<MappingRule>, b: K)
    requires RuleChain(rules, key, a, p, b)
    ensures Reaches(Edges(rules, key), a, b)
    decreases |p|
  {
    var edges := Edges(rules, key);
    if p == [] {
      assert Links(edges, a, [], b);
    } else {
      ChainLinks(rules, key, key(p[0].targetProject, p[0].targetRole), p[1..], b);
      var q :| Links(edges, key(p[0].targetProject, p[0].targetRole), q, b);
      var i :| 0 <= i < |rules| && rules[i] == p[0];
      var e := edges[i];
      assert e.src == a && e.tgt == key(p[0].targetProject, p[0].targetRole);
      assert Links(edges, a, [e] + q, b);
    }
  }

  lemma {:induction false} LinksChain<K>(rules: seq<MappingRule>, key: (string, string) -> K,
                                         a: K, p: seq<Edge<K>>, b: K) returns (q: seq<MappingRule>)
    requires Links(Edges(rules, key), a, p, b)
    ensures RuleChain(rules, key, a, q, b)
    decreases |p|
  {
    if p == [] {
      q := [];
    } else {
      var edges, rest := Edges(rules, key), p[1..];
      assert p[0] in edges;
      var i :| 0 <= i < |edges| && edges[i] == p[0];
      assert forall e :: e in rest ==> e in p;
      if rest != [] { assert p[0].tgt == p[1].src == rest[0].src; }
      assert Links(edges, p[0].tgt, rest, b);
      var tail := LinksChain(rules, key, p[0].tgt, rest, b);
      q := [rules[i]] + tail;
      assert q[1..] == tail;
    }
  }

  /** A role is held at an instant exactly when something that gives it is: for as long, and no longer. */
  lemma HeldWhileGiven<K(!new)>(base: map<K, Time>, rules: seq<MappingRule>, key: (string, string) -> K,
                                out: map<K, Time>, k: K, t: Time)
    requires BestEnds(base, Edges(rules, key), out)
    ensures HeldAt(out, k, t) <==> Given(base, rules, key, k, t)
  {
    var edges := Edges(rules, key);
    if HeldAt(out, k, t) {
      assert Supported(base, edges, k, out[k]);
      var a :| a in base && base[a] == out[k] && Reaches(edges, a, k);
      var p :| Links(edges, a, p, k);
      var q := LinksChain(rules, key, a, p, k);
    }
    if Given(base, rules, key, k, t) {
      var a, p :| a in base && Lasts(base[a], t) && RuleChain(rules, key, a, p, k);
      ChainLinks(rules, key, a, p, k);
    }
  }

  lemma HeldMeans<K(!new)>(base: map<K, Time>, rules: seq<MappingRule>, key: (string, string) -> K, out: map<K, Time>)
    requires BestEnds(base, Edges(rules, key), out)
    ensures forall k, t :: HeldAt(out, k, t) <==> Given(base, rules, key, k, t)
  {
    hide BestEnds, HeldAt, Given;
    forall k, t ensures HeldAt(out, k, t) <==> Given(base, rules, key, k, t) {
      HeldWhileGiven(base, rules, key, out, k, t);
    }
  }

  // ---------------------------------------------------------------- path shortening

  /** Distinct elements drawn from `s` are at most as many as `s` has positions. */
  lemma {:induction false} Pigeonhole<T>(p: seq<T>, s: seq<T>)
    requires forall x :: x in p ==> x in s
    requires forall i, j :: 0 <= i < j < |p| ==> p[i] != p[j]
    ensures |p| <= |s|
  {
    if p != [] {
      assert p[0] in s;
      var i :| 0 <= i < |s| && s[i] == p[0];
      var s' := s[..i] + s[i + 1..];
      forall x | x in p[1..] ensures x in s' {
        assert x in p && x != p[0] && x in s;
        var j :| 0 <= j < |s| && s[j] == x;
        assert s' [if j < i then j else j - 1] == x;
      }
      Pigeonhole(p[1..], s');
    }
  }

  /** A chain longer than the rule list repeats a rule, and the loop can be cut out. */
  lemma {:induction false} Shorten<K>(edges: seq<Edge<K>>, a: K, p: seq<Edge<K>>, b: K) returns (q: seq<Edge<K>>)
    requires Links(edges, a, p, b)
    ensures Links(edges, a, q, b) && |q| <= |edges|
    decreases |p|
  {
    if |p| <= |edges| { return p; }
    if forall i, j :: 0 <= i < j < |p| ==> p[i] != p[j] { Pigeonhole(p, edges); }
    var i, j :| 0 <= i < j < |p| && p[i] == p[j];
    q := Shorten(edges, a, p[..i + 1] + p[j + 1..], b);
  }

  // ---------------------------------------------------------------- following chains

  /** Everything a chain of at most `n` rules carries has arrived in `m`. */
  ghost predicate Carried<K(!new)>(base: map<K, Time>, edges: seq<Edge<K>>, n: nat, m: map<K, Time>) {
    forall a, p, k :: a in base && |p| <= n && Links(edges, a, p, k) ==> k in m && NoLater(base[a], m[k])
  }

  /** The state of the fixpoint after `n` passes. */
  ghost predicate After<K(!new)>(base: map<K, Time>, edges: seq<Edge<K>>, n: nat, m: map<K, Time>) {
    Sound(base, edges, m) && Below(base, m) && Carried(base, edges, n, m)
  }

  /** One full pass carries every value at least one rule further. */
  lemma OneFurther<K(!new)>(base: map<K, Time>, edges: seq<Edge<K>>, n: nat, m: map<K, Time>, m': map<K, Time>)
    requires Carried(base, edges, n, m)
    requires Below(m, m') && Applied(edges, m, m')
    ensures Carried(base, edges, n + 1, m')
  {
    forall a, p: seq<Edge<K>>, k | a in base && |p| <= n + 1 && Links(edges, a, p, k)
      ensures k in m' && NoLater(base[a], m'[k])
    {
      if |p| == n + 1 {
        var last := p[n];
        assert last in p;
        assert Links(edges, a, p[..n], last.src);
      }
    }
  }

  lemma {:induction false} ClosedCarries<K(!new)>(edges: seq<Edge<K>>, m: map<K, Time>, a: K, p: seq<Edge<K>>, k: K)
    requires Closed(edges, m) && a in m && Links(edges, a, p, k)
    ensures k in m && NoLater(m[a], m[k])
    decreases |p|
  {
    if p != [] {
      var n := |p| - 1;
      var last := p[n];
      assert last in p;
      ClosedCarries(edges, m, a, p[..n], last.src);
    }
  }

  /** A closed map above the base is above everything the base supports. */
  lemma ClosedIsComplete<K(!new)>(base: map<K, Time>, edges: seq<Edge<K>>, m: map<K, Time>)
    requires Below(base, m) && Closed(edges, m)
    ensures Complete(base, edges, m)
  {
    forall a, k | a in base && Reaches(edges, a, k) ensures k in m && NoLater(base[a], m[k]) {
      var p :| Links(edges, a, p, k);
      ClosedCarries(edges, m, a, p, k);
    }
  }

  /** As many passes as there are rules are always enough, cycles included. */
  lemma EnoughPasses<K(!new)>(base: map<K, Time>, edges: seq<Edge<K>>, m: map<K, Time>)
    requires Carried(base, edges, |edges|, m)
    ensures Complete(base, edges, m)
  {
    forall a, k | a in base && Reaches(edges, a, k) ensures k in m && NoLater(base[a], m[k]) {
      var p :| Links(edges, a, p, k);
      var q := Shorten(edges, a, p, k);
    }
  }

  lemma Extend<K(!new)>(base: map<K, Time>, edges: seq<Edge<K>>, e: Edge<K>, end: Time)
    requires e in edges && Supported(base, edges, e.src, end)
    ensures Supported(base, edges, e.tgt, end)
  {
    var a :| a in base && base[a] == end && Reaches(edges, a, e.src);
    var p :| Links(edges, a, p, e.src);
    assert Links(edges, a, p + [e], e.tgt);
  }

  lemma BaseSupported<K(!new)>(base: map<K, Time>, edges: seq<Edge<K>>)
    ensures After(base, edges, 0, base)
  {
    forall k | k in base ensures Supported(base, edges, k, base[k]) {
      assert Links(edges, k, [], k);
    }
  }

  /** Either way the passes stop, the meaning has been reached. */
  lemma Finished<K(!new)>(base: map<K, Time>, edges: seq<Edge<K>>, passes: nat, out: map<K, Time>)
    requires After(base, edges, passes, out)
    requires passes == |edges| || Closed(edges, out)
    ensures BestEnds(base, edges, out) && Closed(edges, out)
  {
    if passes == |edges| {
      EnoughPasses(base, edges, out);
    } else {
      ClosedIsComplete(base, edges, out);
    }
    BestIsClosed(base, edges, out);
  }

  lemma NextPass<K(!new)>(base: map<K, Time>, edges: seq<Edge<K>>, n: nat, m: map<K, Time>, m': map<K, Time>)
    requires After(base, edges, n, m)
    requires Sound(base, edges, m') && Below(m, m') && Applied(edges, m, m')
    ensures After(base, edges, n + 1, m')
  {
    assert Below(base, m');
    OneFurther(base, edges, n, m, m');
  }

  // ---------------------------------------------------------------- the fixpoint

  lemma AfterIsSound<K(!new)>(base: map<K, Time>, edges: seq<Edge<K>>, n: nat, m: map<K, Time>)
    requires After(base, edges, n, m)
    ensures Sound(base, edges, m)
  {
  }

  lemma UnchangedIsClosed<K>(edges: seq<Edge<K>>, m: map<K, Time>, m': map<K, Time>)
    requires Applied(edges, m, m')
    ensures m == m' ==> Closed(edges, m')
  {
  }

  /** One pass over the rules, updating `m` rule by rule. */
  method Pass<K(==, !new)>(m: map<K, Time>, rules: seq<MappingRule>, key: (string, string) -> K,
                           ghost base: map<K, Time>)
    returns (out: map<K, Time>, changed: bool)
    requires Sound(base, Edges(rules, key), m)
    ensures Sound(base, Edges(rules, key), out)
    ensures Below(m, out) && Applied(Edges(rules, key), m, out)
    ensures !changed ==> out == m
  {
    ghost var edges := Edges(rules, key);
    out, changed := m, false;
    for i := 0 to |rules|
      invariant Sound(base, edges, out)
      invariant Below(m, out)
      invariant forall j :: 0 <= j < i && edges[j].src in m ==>
          edges[j].tgt in out && NoLater(m[edges[j].src], out[edges[j].tgt])
      invariant !changed ==> out == m
    {
      var r := rules[i];
      var s := key(r.sourceProject, r.sourceRole);
      if s in out {
        var t := key(r.targetProject, r.targetRole);
        assert edges[i] == Edge(s, t);
        Extend(base, edges, edges[i], out[s]);
        var next := if t in out then Later(out[t], out[s]) else out[s];
        if t !in out || next != out[t] {
          out := out[t := next];
          changed := true;
        }
      }
    }
  }

  /**
   Base plus every role a chain of rules derives from it, each with the time it ends.
   At most `|rules|` passes, whatever the rules, and the result is a fixpoint.
   */
  method Ends<K(==, !new)>(base: map<K, Time>, rules: seq<MappingRule>, key: (string, string) -> K)
    returns (out: map<K, Time>)
    ensures BestEnds(base, Edges(rules, key), out)
    ensures Closed(Edges(rules, key), out)
    ensures forall k, t :: HeldAt(out, k, t) <==> Given(base, rules, key, k, t)
  {
    hide After, BestEnds, Closed, HeldAt, Given;
    ghost var edges := Edges(rules, key);
    out := base;
    BaseSupported(base, edges);
    var i, changed := 0, true;
    while i < |rules| && changed
      invariant 0 <= i <= |rules|
      invariant After(base, edges, i, out)
      invariant !changed ==> Closed(edges, out)
    {
      ghost var before := out;
      AfterIsSound(base, edges, i, out);
      out, changed := Pass(out, rules, key, base);
      NextPass(base, edges, i, before, out);
      UnchangedIsClosed(edges, before, out);
      i := i + 1;
    }
    Finished(base, edges, i, out);
    HeldMeans(base, rules, key, out);
  }

  // ---------------------------------------------------------------- what the meaning implies

  lemma BestIsClosed<K(!new)>(base: map<K, Time>, edges: seq<Edge<K>>, out: map<K, Time>)
    requires BestEnds(base, edges, out)
    ensures Closed(edges, out) && Below(base, out)
  {
    forall e | e in edges && e.src in out ensures e.tgt in out && NoLater(out[e.src], out[e.tgt]) {
      Extend(base, edges, e, out[e.src]);
    }
    forall k | k in base ensures k in out && NoLater(base[k], out[k]) {
      assert Links(edges, k, [], k);
    }
  }

  lemma BestIsBelow<K(!new)>(base: map<K, Time>, edges: seq<Edge<K>>, out: map<K, Time>, m: map<K, Time>)
    requires Sound(base, edges, out) && Complete(base, edges, m)
    ensures Below(out, m)
  {
    forall k | k in out ensures k in m && NoLater(out[k], m[k]) {
      assert Supported(base, edges, k, out[k]);
    }
  }

  /** The meaning determines the answer, so passes, order and early exit cannot show in it. */
  lemma BestEndsUnique<K(!new)>(base: map<K, Time>, edges: seq<Edge<K>>, m: map<K, Time>, n: map<K, Time>)
    requires BestEnds(base, edges, m) && BestEnds(base, edges, n)
    ensures m == n
  {
    BestIsBelow(base, edges, m, n);
    BestIsBelow(base, edges, n, m);
    forall k | k in m ensures k in n && m[k] == n[k] {}
    forall k | k in n ensures k in m {}
  }

  /** The closure is the least map above the base that the rules leave alone. */
  lemma LeastFixpoint<K(!new)>(base: map<K, Time>, edges: seq<Edge<K>>, out: map<K, Time>, m: map<K, Time>)
    requires BestEnds(base, edges, out)
    requires Below(base, m) && Closed(edges, m)
    ensures Below(base, out) && Closed(edges, out) && Below(out, m)
  {
    BestIsClosed(base, edges, out);
    ClosedIsComplete(base, edges, m);
    BestIsBelow(base, edges, out, m);
  }

  lemma ReachesMore<K(!new)>(edges: seq<Edge<K>>, edges': seq<Edge<K>>, a: K, k: K)
    requires forall e :: e in edges ==> e in edges'
    requires Reaches(edges, a, k)
    ensures Reaches(edges', a, k)
  {
    var p :| Links(edges, a, p, k);
    assert Links(edges', a, p, k);
  }

  /** More base, longer base and more rules never shorten or remove an answer. */
  lemma EndsMonotone<K(!new)>(base: map<K, Time>, edges: seq<Edge<K>>, out: map<K, Time>,
                              base': map<K, Time>, edges': seq<Edge<K>>, out': map<K, Time>)
    requires BestEnds(base, edges, out) && BestEnds(base', edges', out')
    requires Below(base, base')
    requires forall e :: e in edges ==> e in edges'
    ensures Below(out, out')
  {
    forall k | k in out ensures k in out' && NoLater(out[k], out'[k]) {
      assert Supported(base, edges, k, out[k]);
      var a :| a in base && base[a] == out[k] && Reaches(edges, a, k);
      ReachesMore(edges, edges', a, k);
      assert a in base' && NoLater(base[a], base'[a]);
    }
  }

  /** Only which rules there are matters: not their order, and not how often each is listed. */
  lemma EndsIgnoreRuleOrder<K(!new)>(base: map<K, Time>, edges: seq<Edge<K>>, edges': seq<Edge<K>>,
                                     out: map<K, Time>, out': map<K, Time>)
    requires forall e :: e in edges <==> e in edges'
    requires BestEnds(base, edges, out) && BestEnds(base, edges', out')
    ensures out == out'
  {
    EndsMonotone(base, edges, out, base, edges', out');
    EndsMonotone(base, edges', out', base, edges, out);
    forall k | k in out ensures k in out' && out[k] == out'[k] {}
    forall k | k in out' ensures k in out {}
  }

  /** Closing a closure changes nothing. */
  lemma EndsIdempotent<K(!new)>(base: map<K, Time>, edges: seq<Edge<K>>, out: map<K, Time>, again: map<K, Time>)
    requires BestEnds(base, edges, out) && BestEnds(out, edges, again)
    ensures again == out
  {
    assert Complete(out, edges, out) by {
      BestIsClosed(base, edges, out);
      ClosedIsComplete(out, edges, out);
    }
    assert Sound(out, edges, out) by { BaseSupported(out, edges); }
    BestEndsUnique(out, edges, again, out);
  }

  /** Which roles are held does not depend on the dates. */
  lemma DomainIgnoresDates<K(!new)>(base: map<K, Time>, edges: seq<Edge<K>>, out: map<K, Time>,
                                    base': map<K, Time>, out': map<K, Time>)
    requires base.Keys == base'.Keys
    requires BestEnds(base, edges, out) && BestEnds(base', edges, out')
    ensures out.Keys == out'.Keys
  {
    forall k | k in out ensures k in out' { assert Supported(base, edges, k, out[k]); }
    forall k | k in out' ensures k in out { assert Supported(base', edges, k, out'[k]); }
  }

  // ---------------------------------------------------------------- closure and fired rules

  ghost predicate Held<K(!new)>(base: map<K, bool>, edges: seq<Edge<K>>, k: K) {
    exists a :: a in base && base[a] && Reaches(edges, a, k)
  }

  /** `Ends` without the dates: exactly the roles some held base role reaches. */
  method ClosureOf<K(==, !new)>(base: map<K, bool>, rules: seq<MappingRule>, key: (string, string) -> K)
    returns (out: map<K, bool>)
    ensures forall k :: k in out <==> Held(base, Edges(rules, key), k)
    ensures forall k :: k in out <==> Granted(base, rules, key, k)
    ensures forall k :: k in out ==> out[k]
  {
    var dated := map k | k in base && base[k] :: NEVER;
    var ends := Ends(dated, rules, key);
    out := map k | k in ends :: true;
    ghost var edges := Edges(rules, key);
    forall k | k in ends ensures Held(base, edges, k) { assert Supported(dated, edges, k, ends[k]); }
    forall k | Held(base, edges, k) ensures k in ends {
      var a :| a in base && base[a] && Reaches(edges, a, k);
      assert a in dated;
    }
    hide Held, Granted, BestEnds, HeldAt, Given, Closed;
    forall k ensures Held(base, edges, k) <==> Granted(base, rules, key, k) { HeldIsGranted(base, rules, key, k); }
  }

  /** A chain of rules leads to the role from a held base role. */
  ghost predicate Granted<K(!new)>(base: map<K, bool>, rules: seq<MappingRule>, key: (string, string) -> K, k: K) {
    exists a, p :: a in base && base[a] && RuleChain(rules, key, a, p, k)
  }

  lemma HeldIsGranted<K(!new)>(base: map<K, bool>, rules: seq<MappingRule>, key: (string, string) -> K, k: K)
    ensures Held(base, Edges(rules, key), k) <==> Granted(base, rules, key, k)
  {
    var edges := Edges(rules, key);
    if Held(base, edges, k) {
      var a :| a in base && base[a] && Reaches(edges, a, k);
      var p :| Links(edges, a, p, k);
      var q := LinksChain(rules, key, a, p, k);
    }
    if Granted(base, rules, key, k) {
      var a, p :| a in base && base[a] && RuleChain(rules, key, a, p, k);
      ChainLinks(rules, key, a, p, k);
    }
  }

  /** The rules, in order, whose source is in the closure. */
  function FiredOf<K(==)>(closure: map<K, bool>, rules: seq<MappingRule>,
                     key: (string, string) -> K): (out: seq<MappingRule>)
    ensures forall r :: r in out <==>
        r in rules && var s := key(r.sourceProject, r.sourceRole); s in closure && closure[s]
  {
    if rules == [] then []
    else
      var r := rules[|rules| - 1];
      var rest := FiredOf(closure, rules[..|rules| - 1], key);
      var s := key(r.sourceProject, r.sourceRole);
      if s in closure && closure[s] then rest + [r] else rest
  }

  method Fired<K(==)>(closure: map<K, bool>, rules: seq<MappingRule>, key: (string, string) -> K)
    returns (out: seq<MappingRule>)
    ensures out == FiredOf(closure, rules, key)
  {
    out := [];
    for i := 0 to |rules|
      invariant out == FiredOf(closure, rules[..i], key)
    {
      var s := key(rules[i].sourceProject, rules[i].sourceRole);
      assert rules[..i + 1][..i] == rules[..i];
      if s in closure && closure[s] {
        out := out + [rules[i]];
      }
    }
    assert rules[..|rules|] == rules;
  }

  /** A single rule fires exactly when its source is held. */
  lemma FiredOne<K>(closure: map<K, bool>, r: MappingRule, key: (string, string) -> K)
    ensures var s := key(r.sourceProject, r.sourceRole);
      FiredOf(closure, [r], key) == if s in closure && closure[s] then [r] else []
  {
    assert [r][..0] == [] && FiredOf(closure, [], key) == [];
  }

  lemma FiredStep<K>(closure: map<K, bool>, rules: seq<MappingRule>, r: MappingRule, key: (string, string) -> K)
    ensures FiredOf(closure, rules + [r], key) == FiredOf(closure, rules, key) + FiredOf(closure, [r], key)
  {
    assert (rules + [r])[..|rules|] == rules;
    FiredOne(closure, r, key);
  }

  lemma Joined(ab: seq<MappingRule>, a: seq<MappingRule>, b: seq<MappingRule>, c: seq<MappingRule>)
    requires ab == a + b
    ensures ab + c == a + (b + c)
  {
  }

  /** Firing keeps order and multiplicity: what two lists of rules fire together is what each fires, joined. */
  lemma {:induction false} FiredConcat<K>(closure: map<K, bool>, a: seq<MappingRule>, b: seq<MappingRule>,
                                          key: (string, string) -> K)
    ensures FiredOf(closure, a + b, key) == FiredOf(closure, a, key) + FiredOf(closure, b, key)
    decreases |b|
  {
    if b == [] {
      assert a + b == a;
    } else {
      var n := |b| - 1;
      assert a + b == (a + b[..n]) + [b[n]] && b == b[..n] + [b[n]];
      FiredConcat(closure, a, b[..n], key);
      FiredStep(closure, a + b[..n], b[n], key);
      FiredStep(closure, b[..n], b[n], key);
      hide FiredOf;
      Joined(FiredOf(closure, a + b[..n], key), FiredOf(closure, a, key), FiredOf(closure, b[..n], key),
             FiredOf(closure, [b[n]], key));
    }
  }

  /** Every derived role is explained: a chain of fired rules leads to it from a base role. */
  lemma FiredExplains<K(!new)>(base: map<K, bool>, rules: seq<MappingRule>, key: (string, string) -> K,
                               closure: map<K, bool>, k: K)
    requires forall x :: x in closure <==> Held(base, Edges(rules, key), x)
    requires forall x :: x in closure ==> closure[x]
    requires k in closure && (k !in base || !base[k])
    ensures exists a, p :: a in base && base[a] && p != [] &&
                           Links(Edges(FiredOf(closure, rules, key), key), a, p, k)
  {
    var edges := Edges(rules, key);
    var fired := FiredOf(closure, rules, key);
    var a :| a in base && base[a] && Reaches(edges, a, k);
    var p :| Links(edges, a, p, k);
    forall e | e in p ensures e in Edges(fired, key) {
      var i :| 0 <= i < |p| && p[i] == e;
      assert Links(edges, a, p[..i], e.src);
      assert Held(base, edges, e.src);
      var j :| 0 <= j < |rules| && edges[j] == e;
      assert rules[j] in fired;
      var f :| 0 <= f < |fired| && fired[f] == rules[j];
      assert Edges(fired, key)[f] == e;
    }
    assert Links(Edges(fired, key), a, p, k);
  }
}
