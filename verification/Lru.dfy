/**
 The last-known-good cache: a recency list of elements and a map into it that must agree.
 `Exec` is what it refines, a bounded list of entries, most recent first; the lemmas about
 runs say what that list means in terms of the calls alone.
 */
module Lru {
  import opened Options

  datatype Entry<F> = Entry(key: string, facts: F, at: int)

  datatype Op<F> =
    | Put(key: string, facts: F, at: int)
    | Get(key: string)
    | Drop(key: string)

  // ---------------------------------------------------------------- the recency list

  function Index<F>(s: seq<Entry<F>>, key: string): (i: nat)
    ensures i <= |s|
    ensures i < |s| ==> s[i].key == key
    ensures forall j :: 0 <= j < i ==> s[j].key != key
  {
    if s == [] || s[0].key == key then 0 else 1 + Index(s[1..], key)
  }

  ghost predicate Holds<F>(s: seq<Entry<F>>, key: string) {
    exists i :: 0 <= i < |s| && s[i].key == key
  }

  ghost predicate DistinctKeys<F>(s: seq<Entry<F>>) {
    forall i, j :: 0 <= i < j < |s| ==> s[i].key != s[j].key
  }

  /** Taking out position `i` of a list. */
  function Cut<T>(s: seq<T>, i: nat): seq<T>
    requires i < |s|
  {
    s[..i] + s[i + 1..]
  }

  lemma CutAt<T>(s: seq<T>, i: nat)
    requires i < |s|
    ensures |Cut(s, i)| == |s| - 1
    ensures forall j :: 0 <= j < |s| - 1 ==> Cut(s, i)[j] == s[if j < i then j else j + 1]
  {
  }

  function Without<F>(s: seq<Entry<F>>, key: string): seq<Entry<F>> {
    var i := Index(s, key);
    if i < |s| then Cut(s, i) else s
  }

  function Room(cap: int): nat { if cap < 0 then 0 else cap }

  function AfterPut<F>(cap: int, s: seq<Entry<F>>, e: Entry<F>): seq<Entry<F>> {
    Trimmed(cap, [e] + Without(s, e.key))
  }

  /** The last entry goes when there is no room for it. */
  function Trimmed<F>(cap: int, s: seq<Entry<F>>): seq<Entry<F>> {
    if |s| > Room(cap) then s[..|s| - 1] else s
  }

  function AfterGet<F>(s: seq<Entry<F>>, key: string): seq<Entry<F>> {
    var i := Index(s, key);
    if i < |s| then [s[i]] + Without(s, key) else s
  }

  function Found<F>(s: seq<Entry<F>>, key: string): Option<Entry<F>> {
    var i := Index(s, key);
    if i < |s| then Some(s[i]) else None
  }

  function After<F>(cap: int, s: seq<Entry<F>>, op: Op<F>): seq<Entry<F>> {
    match op
    case Put(key, facts, at) => AfterPut(cap, s, Entry(key, facts, at))
    case Get(key) => AfterGet(s, key)
    case Drop(key) => Without(s, key)
  }

  function Exec<F>(cap: int, ops: seq<Op<F>>): seq<Entry<F>> {
    if ops == [] then [] else After(cap, Exec(cap, ops[..|ops| - 1]), ops[|ops| - 1])
  }

  // ---------------------------------------------------------------- the cache itself

  class Element<F> {
    var value: Entry<F>

    constructor (value: Entry<F>)
      ensures this.value == value
    {
      this.value := value;
    }
  }

  /** List and map hold the same keys, each once, and the map points at each key's element. */
  ghost predicate Agree<F>(order: seq<Element<F>>, contents: seq<Entry<F>>, items: map<string, Element<F>>) {
    && |order| == |contents| && DistinctKeys(contents)
    && (forall i, j :: 0 <= i < j < |order| ==> order[i] != order[j])
    && (forall i :: 0 <= i < |contents| ==> contents[i].key in items && items[contents[i].key] == order[i])
    && (forall k :: k in items ==> Holds(contents, k))
  }

  lemma AgreeDistinct<F>(order: seq<Element<F>>, contents: seq<Entry<F>>, items: map<string, Element<F>>)
    requires Agree(order, contents, items)
    ensures |order| == |contents|
    ensures forall i, j :: 0 <= i < |order| && 0 <= j < |order| && i != j ==> order[i] != order[j]
  {
  }

  lemma AgreeCut<F>(order: seq<Element<F>>, contents: seq<Entry<F>>, items: map<string, Element<F>>, i: nat)
    requires Agree(order, contents, items) && i < |order|
    ensures Agree(Cut(order, i), Cut(contents, i), items - {contents[i].key})
    ensures order[i] !in Cut(order, i)
  {
    var o, c, m := Cut(order, i), Cut(contents, i), items - {contents[i].key};
    CutAt(order, i);
    CutAt(contents, i);
    hide Cut;
    forall k | k in m ensures Holds(c, k) {
      var j :| 0 <= j < |contents| && contents[j].key == k;
      assert c[if j < i then j else j - 1].key == k;
    }
  }

  lemma AgreePush<F>(order: seq<Element<F>>, contents: seq<Entry<F>>, items: map<string, Element<F>>,
                     e: Element<F>, entry: Entry<F>)
    requires Agree(order, contents, items) && entry.key !in items && e !in order
    ensures Agree([e] + order, [entry] + contents, items[entry.key := e])
  {
    var o, c, m := [e] + order, [entry] + contents, items[entry.key := e];
    forall k | k in m ensures Holds(c, k) {
      if k == entry.key {
        assert c[0].key == k;
      } else {
        var j :| 0 <= j < |contents| && contents[j].key == k;
        assert c[j + 1].key == k;
      }
    }
  }

  /** Unlinking an element and linking it in front again, with a new entry for the same key. */
  lemma AgreeMove<F>(order: seq<Element<F>>, contents: seq<Entry<F>>, items: map<string, Element<F>>,
                     i: nat, entry: Entry<F>)
    requires Agree(order, contents, items) && i < |order| && entry.key == contents[i].key
    ensures Agree([order[i]] + Cut(order, i), [entry] + Cut(contents, i), items)
  {
    AgreeCut(order, contents, items, i);
    var m := items - {entry.key};
    AgreePush(Cut(order, i), Cut(contents, i), m, order[i], entry);
    assert m[entry.key := order[i]] == items;
  }

  /** Where a key stands in an agreeing list; past the end when it is not held. */
  lemma Located<F>(order: seq<Element<F>>, contents: seq<Entry<F>>, items: map<string, Element<F>>, key: string)
    requires Agree(order, contents, items)
    ensures |order| == |contents|
    ensures key in items <==> Index(contents, key) < |contents|
    ensures key in items ==> order[Index(contents, key)] == items[key]
    ensures forall j :: 0 <= j < |order| && key in items && order[j] == items[key] ==> j == Index(contents, key)
  {
    if key in items { assert Holds(contents, key); }
  }

  class Cache<F> {
    const cap: int
    var order: seq<Element<F>>
    var items: map<string, Element<F>>

    /** What the list holds, most recent first. */
    ghost var contents: seq<Entry<F>>
    /** Every element this cache ever made. */
    ghost var elements: set<Element<F>>

    ghost predicate Valid()
      reads this, elements
    {
      && Agree(order, contents, items)
      && |contents| <= Room(cap)
      && (forall i :: 0 <= i < |order| && i < |contents| ==> order[i] in elements && order[i].value == contents[i])
    }

    constructor (capacity: int)
      ensures Valid() && contents == [] && elements == {} && cap == capacity
    {
      cap, order, items, contents, elements := capacity, [], map[], [], {};
    }

    method Put(key: string, facts: F, at: int)
      requires Valid()
      modifies this, elements
      ensures Valid() && fresh(elements - old(elements))
      ensures contents == old(AfterPut(cap, contents, Entry(key, facts, at)))
    {
      hide Agree, Index;
      Located(order, contents, items, key);
      if key in items {
        var e := items[key];
        var n :| 0 <= n < |order| && order[n] == e;
        Renew(n, Entry(key, facts, at));
      } else {
        Insert(Entry(key, facts, at));
      }
    }

    /** A key already held: its element gets the new entry and moves to the front. */
    method Renew(n: nat, entry: Entry<F>)
      requires Valid() && n < |order| == |contents| && contents[n].key == entry.key
      modifies this, elements
      ensures Valid() && elements == old(elements)
      ensures contents == [entry] + Cut(old(contents), n)
    {
      hide Agree;
      var e := order[n];
      AgreeMove(order, contents, items, n, entry);
      assert forall i :: 0 <= i < |order| && i != n ==> order[i] != e by { AgreeDistinct(order, contents, items); }
      e.value := entry;
      order, contents := [e] + Cut(order, n), [entry] + Cut(contents, n);
    }

    /** A key not held yet, evicting the last of the list when there is no room. */
    method Insert(entry: Entry<F>)
      requires Valid() && entry.key !in items
      modifies this
      ensures Valid() && fresh(elements - old(elements))
      ensures contents == Trimmed(cap, [entry] + old(contents))
    {
      hide Agree;
      var e := new Element(entry);
      AgreePush(order, contents, items, e, entry);
      AgreeDistinct(order, contents, items);
      order, contents, elements := [e] + order, [entry] + contents, elements + {e};
      items := items[entry.key := e];
      if |order| > cap {
        Evict();
      }
    }

    /** The last of the list goes. */
    method Evict()
      requires Agree(order, contents, items) && 0 < |order| == |contents| <= Room(cap) + 1
      requires forall i :: 0 <= i < |order| ==> order[i] in elements && order[i].value == contents[i]
      modifies `order, `contents, `items
      ensures Valid() && contents == old(contents)[..|old(contents)| - 1]
    {
      hide Agree;
      var n := |order| - 1;
      AgreeCut(order, contents, items, n);
      assert Cut(order, n) == order[..n] && Cut(contents, n) == contents[..n];
      items := items - {order[n].value.key};
      order, contents := order[..n], contents[..n];
    }

    method Get(key: string) returns (hit: Option<Entry<F>>)
      requires Valid()
      modifies `order, `contents
      ensures Valid()
      ensures hit == old(Found(contents, key)) && contents == old(AfterGet(contents, key))
    {
      hide Agree, Index, Cut;
      Located(order, contents, items, key);
      if key !in items { return None; }
      var e := items[key];
      var n :| 0 <= n < |order| && order[n] == e;
      AgreeMove(order, contents, items, n, contents[n]);
      CutAt(order, n);
      CutAt(contents, n);
      order, contents := [e] + Cut(order, n), [contents[n]] + Cut(contents, n);
      hit := Some(e.value);
    }

    method Drop(key: string)
      requires Valid()
      modifies this
      ensures Valid() && elements == old(elements)
      ensures contents == old(Without(contents, key))
    {
      hide Agree, Index, Cut;
      Located(order, contents, items, key);
      if key in items {
        var e := items[key];
        var n :| 0 <= n < |order| && order[n] == e;
        AgreeCut(order, contents, items, n);
        CutAt(order, n);
        CutAt(contents, n);
        order, contents := Cut(order, n), Cut(contents, n);
        items := items - {key};
      }
    }

    method Len() returns (n: nat)
      requires Valid()
      ensures n == |contents| <= Room(cap)
    {
      n := |order|;
    }
  }

  // ---------------------------------------------------------------- what a run means

  /** The value last put for a key since it was last dropped. */
  function LastPut<F>(ops: seq<Op<F>>, key: string): Option<Entry<F>> {
    if ops == [] then None
    else
      var op := ops[|ops| - 1];
      if op.key != key || op.Get? then LastPut(ops[..|ops| - 1], key)
      else if op.Put? then Some(Entry(key, op.facts, op.at))
      else None
  }

  /** When a key was last put, or got while it was held; -1 for never. */
  function LastTouch<F>(cap: int, ops: seq<Op<F>>, key: string): (t: int)
    ensures -1 <= t < |ops|
  {
    if ops == [] then -1
    else
      var n := |ops| - 1;
      var op := ops[n];
      if op.key == key && (op.Put? || (op.Get? && Found(Exec(cap, ops[..n]), key).Some?)) then n
      else LastTouch(cap, ops[..n], key)
  }

  ghost function KeysOf<F>(ops: seq<Op<F>>): set<string> {
    set i | 0 <= i < |ops| :: ops[i].key
  }

  /** The keys touched more recently than this one. */
  ghost function Fresher<F>(cap: int, ops: seq<Op<F>>, key: string): set<string> {
    set k | k in KeysOf(ops) && LastTouch(cap, ops, k) > LastTouch(cap, ops, key)
  }

  ghost function Keys<F>(s: seq<Entry<F>>): set<string> {
    set i | 0 <= i < |s| :: s[i].key
  }

  /** Each key once, holding what was put for it, in falling order of touch. */
  ghost predicate Fits<F>(s: seq<Entry<F>>, put: string -> Option<Entry<F>>, touch: string -> int) {
    && DistinctKeys(s)
    && (forall i :: 0 <= i < |s| ==> put(s[i].key) == Some(s[i]) && touch(s[i].key) >= 0)
    && (forall i, j :: 0 <= i < j < |s| ==> touch(s[i].key) > touch(s[j].key))
  }

  lemma FitsWithout<F>(s: seq<Entry<F>>, key: string, put: string -> Option<Entry<F>>, touch: string -> int,
                       put': string -> Option<Entry<F>>, touch': string -> int)
    requires Fits(s, put, touch)
    requires forall k :: k != key ==> put(k) == put'(k) && touch(k) == touch'(k)
    ensures Fits(Without(s, key), put', touch')
    ensures forall j :: 0 <= j < |Without(s, key)| ==> Without(s, key)[j] in s && Without(s, key)[j].key != key
    ensures |Without(s, key)| == if Index(s, key) < |s| then |s| - 1 else |s|
  {
    hide Cut, Index, Fits;
    var i := Index(s, key);
    FitsElsewhere(s, key, put, touch, put', touch', i);
  }

  lemma FitsElsewhere<F>(s: seq<Entry<F>>, key: string, put: string -> Option<Entry<F>>, touch: string -> int,
                         put': string -> Option<Entry<F>>, touch': string -> int, i: nat)
    requires Fits(s, put, touch) && i <= |s|
    requires forall k :: k != key ==> put(k) == put'(k) && touch(k) == touch'(k)
    requires i < |s| ==> s[i].key == key
    requires forall j :: 0 <= j < i ==> s[j].key != key
    ensures var t := if i < |s| then Cut(s, i) else s;
      && Fits(t, put', touch') && |t| == (if i < |s| then |s| - 1 else |s|)
      && (forall j :: 0 <= j < |t| ==> t[j] in s && t[j].key != key)
  {
    var t := if i < |s| then Cut(s, i) else s;
    if i < |s| {
      CutAt(s, i);
      FitsCut(s, put, touch, i);
    }
    hide Cut;
    forall j | 0 <= j < |t| ensures t[j] in s && t[j].key != key {
      var k := if i < |s| && j >= i then j + 1 else j;
      assert t[j] == s[k];
      if i < k { DistinctAt(s, put, touch, i, k); }
    }
    FitsRenamed(t, key, put, touch, put', touch');
  }

  lemma DistinctAt<F>(s: seq<Entry<F>>, put: string -> Option<Entry<F>>, touch: string -> int, i: nat, j: nat)
    requires Fits(s, put, touch) && i < j < |s|
    ensures s[i].key != s[j].key
  {
  }

  lemma FitsCut<F>(s: seq<Entry<F>>, put: string -> Option<Entry<F>>, touch: string -> int, i: nat)
    requires Fits(s, put, touch) && i < |s|
    ensures Fits(Cut(s, i), put, touch)
  {
    var t := Cut(s, i);
    CutAt(s, i);
    hide Cut;
    forall j, k | 0 <= j < k < |t| ensures t[j].key != t[k].key && touch(t[j].key) > touch(t[k].key) {
      assert t[j] == s[if j < i then j else j + 1] && t[k] == s[if k < i then k else k + 1];
    }
  }

  lemma FitsRenamed<F>(s: seq<Entry<F>>, key: string, put: string -> Option<Entry<F>>, touch: string -> int,
                       put': string -> Option<Entry<F>>, touch': string -> int)
    requires Fits(s, put, touch) && forall j :: 0 <= j < |s| ==> s[j].key != key
    requires forall k :: k != key ==> put(k) == put'(k) && touch(k) == touch'(k)
    ensures Fits(s, put', touch')
  {
  }

  lemma FitsPush<F>(cap: int, s: seq<Entry<F>>, e: Entry<F>, put: string -> Option<Entry<F>>, touch: string -> int)
    requires Fits(s, put, touch) && put(e.key) == Some(e) && touch(e.key) >= 0
    requires forall i :: 0 <= i < |s| ==> s[i].key != e.key && touch(s[i].key) < touch(e.key)
    ensures Fits([e] + s, put, touch) && Fits(Trimmed(cap, [e] + s), put, touch)
  {
  }

  ghost predicate Recent<F>(cap: int, ops: seq<Op<F>>) {
    var s := Exec(cap, ops);
    |s| <= Room(cap) && Fits(s, k => LastPut(ops, k), k => LastTouch(cap, ops, k))
  }

  /** A key put and not dropped is missing only if as many keys as there is room for were touched since. */
  ghost predicate EvictedLast<F>(cap: int, ops: seq<Op<F>>) {
    forall k :: LastPut(ops, k).Some? && !Holds(Exec(cap, ops), k) ==> |Fresher(cap, ops, k)| >= Room(cap)
  }

  lemma SnocOp<F>(cap: int, ops: seq<Op<F>>, op: Op<F>)
    ensures Exec(cap, ops + [op]) == After(cap, Exec(cap, ops), op)
    ensures forall k :: op.key != k ==>
      LastPut(ops + [op], k) == LastPut(ops, k) && LastTouch(cap, ops + [op], k) == LastTouch(cap, ops, k)
    ensures LastPut(ops + [op], op.key) ==
      (if op.Get? then LastPut(ops, op.key) else if op.Put? then Some(Entry(op.key, op.facts, op.at)) else None)
    ensures LastTouch(cap, ops + [op], op.key) ==
      if op.Put? || (op.Get? && Found(Exec(cap, ops), op.key).Some?) then |ops| else LastTouch(cap, ops, op.key)
  {
    assert (ops + [op])[..|ops|] == ops;
  }

  lemma RecentStep<F>(cap: int, ops: seq<Op<F>>, op: Op<F>)
    requires Recent(cap, ops)
    ensures Recent(cap, ops + [op])
  {
    var s, ops' := Exec(cap, ops), ops + [op];
    var put', touch' := (k: string) => LastPut(ops', k), (k: string) => LastTouch(cap, ops', k);
    SnocOp(cap, ops, op);
    var rest := Without(s, op.key);
    FitsWithout(s, op.key, k => LastPut(ops, k), k => LastTouch(cap, ops, k), put', touch');
    hide Without, LastPut, LastTouch, Exec;
    match op
    case Put(key, facts, at) =>
      FitsPush(cap, rest, Entry(key, facts, at), put', touch');
    case Get(key) =>
      if Index(s, key) < |s| {
        FitsPush(cap, rest, s[Index(s, key)], put', touch');
      } else {
        assert rest == s by { NotHeld(s, key); }
      }
    case Drop(_) =>
  }

  lemma NotHeld<F>(s: seq<Entry<F>>, key: string)
    ensures Index(s, key) == |s| <==> !Holds(s, key)
    ensures !Holds(s, key) ==> Without(s, key) == s
  {
  }

  /** On every run: list and map agree, and a hit is the last value put since the last drop. */
  lemma {:induction false} AlwaysRecent<F>(cap: int, ops: seq<Op<F>>)
    ensures Recent(cap, ops)
  {
    if ops != [] {
      var n := |ops| - 1;
      AlwaysRecent(cap, ops[..n]);
      RecentStep(cap, ops[..n], ops[n]);
      assert ops == ops[..n] + [ops[n]];
    }
  }

  lemma HitIsLastPut<F>(cap: int, ops: seq<Op<F>>, key: string)
    ensures Found(Exec(cap, ops), key).Some? ==> Found(Exec(cap, ops), key) == LastPut(ops, key)
  {
    AlwaysRecent(cap, ops);
  }

  /** A put that finds no room removes exactly the held key touched longest ago. */
  lemma EvictsLeastRecent<F>(cap: int, ops: seq<Op<F>>, key: string, facts: F, at: int)
    requires !Holds(Exec(cap, ops), key) && |Exec(cap, ops)| == cap > 0
    ensures var s, n := Exec(cap, ops), cap - 1;
      && Exec(cap, ops + [Put(key, facts, at)]) == [Entry(key, facts, at)] + s[..n]
      && forall j :: 0 <= j < n ==> LastTouch(cap, ops, s[n].key) < LastTouch(cap, ops, s[j].key)
  {
    AlwaysRecent(cap, ops);
    NotHeld(Exec(cap, ops), key);
    SnocOp(cap, ops, Put(key, facts, at));
  }

  // ---------------------------------------------------------------- who is evicted

  lemma {:induction false} SubsetSize<T>(a: set<T>, b: set<T>)
    requires a <= b
    ensures |a| <= |b|
  {
    if a != {} {
      var x :| x in a;
      SubsetSize(a - {x}, b - {x});
    }
  }

  lemma {:induction false} KeysSize<F>(s: seq<Entry<F>>)
    requires DistinctKeys(s)
    ensures |Keys(s)| == |s|
  {
    if s != [] {
      var n := |s| - 1;
      KeysSize(s[..n]);
      assert Keys(s) == Keys(s[..n]) + {s[n].key};
      assert s[n].key !in Keys(s[..n]);
    }
  }

  lemma {:induction false} TouchedIsKey<F>(cap: int, ops: seq<Op<F>>, key: string)
    requires LastTouch(cap, ops, key) >= 0
    ensures key in KeysOf(ops)
  {
    var n := |ops| - 1;
    if ops[n].key != key || LastTouch(cap, ops, key) != n {
      TouchedIsKey(cap, ops[..n], key);
      assert forall i :: 0 <= i < n ==> ops[..n][i] == ops[i];
    }
  }

  /** The key a put pushes out was touched before every key that stays. */
  lemma PushedOut<F>(cap: int, ops: seq<Op<F>>, op: Op<F>, k: string)
    requires Recent(cap, ops) && op.Put? && k != op.key
    requires Holds(Exec(cap, ops), k) && !Holds(Exec(cap, ops + [op]), k)
    ensures |Fresher(cap, ops + [op], k)| >= Room(cap)
  {
    var s, ops' := Exec(cap, ops), ops + [op];
    var s' := Exec(cap, ops');
    SnocOp(cap, ops, op);
    RecentStep(cap, ops, op);
    var n := |s| - 1;
    assert s' == [Entry(op.key, op.facts, op.at)] + s[..n] && k == s[n].key && |s| == Room(cap) by {
      PutShape(cap, s, Entry(op.key, op.facts, op.at), k);
    }
    forall x | x in Keys(s') ensures x in Fresher(cap, ops', k) {
      var i :| 0 <= i < |s'| && s'[i].key == x;
      assert LastTouch(cap, ops', x) >= 0;
      TouchedIsKey(cap, ops', x);
      if i > 0 { assert x == s[i - 1].key; }
    }
    KeysSize(s');
    SubsetSize(Keys(s'), Fresher(cap, ops', k));
  }

  /** A put keeps every other key, except that without room the last one goes. */
  lemma PutShape<F>(cap: int, s: seq<Entry<F>>, e: Entry<F>, k: string)
    requires DistinctKeys(s) && |s| <= Room(cap) && k != e.key && Holds(s, k)
    ensures var n := |s| - 1;
      || Holds(AfterPut(cap, s, e), k)
      || (AfterPut(cap, s, e) == [e] + s[..n] && k == s[n].key && |s| == Room(cap))
  {
    hide DistinctKeys, Index, AfterPut;
    var j :| 0 <= j < |s| && s[j].key == k;
    PutIs(cap, s, e);
    var i := Index(s, e.key);
    if i < |s| {
      CutAt(s, i);
      assert i != j;
      HeldAt([e] + Cut(s, i), if j < i then j + 1 else j, k);
    } else if |s| < Room(cap) {
      HeldAt([e] + s, j + 1, k);
    } else if j < |s| - 1 {
      HeldAt([e] + s[..|s| - 1], j + 1, k);
    }
  }

  lemma PutIs<F>(cap: int, s: seq<Entry<F>>, e: Entry<F>)
    requires 0 < |s| <= Room(cap)
    ensures var i := Index(s, e.key);
      AfterPut(cap, s, e) ==
        if i < |s| then [e] + Cut(s, i)
        else if |s| < Room(cap) then [e] + s
        else [e] + s[..|s| - 1]
  {
    hide Index;
    assert ([e] + s)[..|s|] == [e] + s[..|s| - 1];
  }

  lemma HeldAt<F>(s: seq<Entry<F>>, i: nat, key: string)
    requires i < |s| && s[i].key == key
    ensures Holds(s, key)
  {
  }

  lemma EvictedStep<F>(cap: int, ops: seq<Op<F>>, op: Op<F>)
    requires Recent(cap, ops) && EvictedLast(cap, ops)
    ensures EvictedLast(cap, ops + [op])
  {
    var s, ops' := Exec(cap, ops), ops + [op];
    SnocOp(cap, ops, op);
    forall k | LastPut(ops', k).Some? && !Holds(Exec(cap, ops'), k) ensures |Fresher(cap, ops', k)| >= Room(cap) {
      if Room(cap) > 0 {
        StaysIn(cap, s, op, k);
        if Holds(s, k) {
          PushedOut(cap, ops, op, k);
        } else {
          NotHeld(s, k);
          assert forall i :: 0 <= i < |ops| ==> ops'[i] == ops[i];
          assert Fresher(cap, ops, k) <= Fresher(cap, ops', k);
          SubsetSize(Fresher(cap, ops, k), Fresher(cap, ops', k));
        }
      }
    }
  }

  /** Only a drop of its own key or a put of another can take a key out. */
  lemma StaysIn<F>(cap: int, s: seq<Entry<F>>, op: Op<F>, k: string)
    requires Room(cap) > 0
    ensures op.Put? && op.key == k ==> Holds(After(cap, s, op), k)
    ensures !op.Put? && (op.Get? || op.key != k) && Holds(s, k) ==> Holds(After(cap, s, op), k)
  {
    var t, i := After(cap, s, op), Index(s, op.key);
    if i < |s| { CutAt(s, i); }
    if op.Put? && op.key == k { assert t[0].key == k; }
    if !op.Put? && (op.Get? || op.key != k) && Holds(s, k) {
      var j :| 0 <= j < |s| && s[j].key == k;
      if i == |s| {
        assert t == s;
      } else if op.Get? {
        assert t[if j == i then 0 else if j < i then j + 1 else j].key == k;
      } else {
        assert t[if j < i then j else j - 1].key == k;
      }
    }
  }

  /** On every run a key put and not dropped is lost only to as many fresher keys as there is room for. */
  lemma {:induction false} AlwaysEvictedLast<F>(cap: int, ops: seq<Op<F>>)
    ensures EvictedLast(cap, ops)
  {
    if ops != [] {
      var n := |ops| - 1;
      AlwaysEvictedLast(cap, ops[..n]);
      AlwaysRecent(cap, ops[..n]);
      EvictedStep(cap, ops[..n], ops[n]);
      assert ops == ops[..n] + [ops[n]];
    }
  }

  /** A cache over any run of calls: what it holds and what it answered. */
  method Serve<F>(capacity: int, ops: seq<Op<F>>) returns (c: Cache<F>, hits: seq<Option<Entry<F>>>)
    ensures c.Valid() && c.cap == capacity && c.contents == Exec(capacity, ops) && |hits| == |ops|
    ensures forall n :: 0 <= n < |ops| && ops[n].Get? && hits[n].Some? ==> hits[n] == LastPut(ops[..n], ops[n].key)
    ensures forall n :: 0 <= n < |ops| && ops[n].Get? ==>
      (hits[n].Some? <==> Holds(Exec(capacity, ops[..n]), ops[n].key))
  {
    hide Agree, LastPut, Exec, Index, Found, Holds, AfterPut, AfterGet, Without;
    c := new Cache(capacity);
    hits := [];
    RunStarts<F>(capacity);
    for n := 0 to |ops|
      invariant c.Valid() && fresh(c) && fresh(c.elements)
      invariant c.cap == capacity && c.contents == Exec(capacity, ops[..n])
      invariant |hits| == n
      invariant forall k :: 0 <= k < n && ops[k].Get? && hits[k].Some? ==> hits[k] == LastPut(ops[..k], ops[k].key)
      invariant forall k :: 0 <= k < n && ops[k].Get? ==>
        (hits[k].Some? <==> Holds(Exec(capacity, ops[..k]), ops[k].key))
    {
      var hit := None;
      RunStep(capacity, ops, n);
      match ops[n] {
        case Put(key, facts, at) => c.Put(key, facts, at);
        case Get(key) => hit := c.Get(key);
        case Drop(key) => c.Drop(key);
      }
      hits := hits + [hit];
    }
    assert ops[..|ops|] == ops;
  }

  lemma RunStarts<F>(cap: int)
    ensures Exec<F>(cap, []) == []
  {
  }

  lemma RunStep<F>(cap: int, ops: seq<Op<F>>, n: nat)
    requires n < |ops|
    ensures Exec(cap, ops[..n + 1]) == After(cap, Exec(cap, ops[..n]), ops[n])
    ensures var found := Found(Exec(cap, ops[..n]), ops[n].key);
      && (found.Some? ==> found == LastPut(ops[..n], ops[n].key))
      && (found.Some? <==> Holds(Exec(cap, ops[..n]), ops[n].key))
  {
    assert ops[..n + 1][..n] == ops[..n];
    HitIsLastPut(cap, ops[..n], ops[n].key);
    NotHeld(Exec(cap, ops[..n]), ops[n].key);
  }
}
