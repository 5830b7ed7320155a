/**
 Strings as the add-on digests them: decimal numbers, length-prefixed fields, and the
 byte order `sort.Strings` uses. A `char` stands for one byte of a Go string.
 */
module Text {

  // ---------------------------------------------------------------- decimal numbers

  predicate IsDigit(c: char) { '0' <= c <= '9' }

  function Digit(d: nat): (c: char)
    requires d < 10
    ensures IsDigit(c)
  {
    ('0' as int + d) as char
  }

  function Decimal(n: nat): (s: string)
    ensures s != [] && forall c :: c in s ==> IsDigit(c)
  {
    if n < 10 then [Digit(n)] else Decimal(n / 10) + [Digit(n % 10)]
  }

  function ParseDecimal(s: string): (n: nat)
    requires forall c :: c in s ==> IsDigit(c)
  {
    if s == [] then 0
    else
      var last := s[|s| - 1];
      assert last in s && IsDigit(last) && last as int >= '0' as int;
      10 * ParseDecimal(s[..|s| - 1]) + (last as int - '0' as int)
  }

  lemma {:induction false} DecimalRoundTrip(n: nat)
    ensures ParseDecimal(Decimal(n)) == n
  {
    if n >= 10 {
      DecimalRoundTrip(n / 10);
      var s := Decimal(n);
      assert s[..|s| - 1] == Decimal(n / 10);
    }
  }

  lemma DecimalInjective(m: nat, n: nat)
    requires Decimal(m) == Decimal(n)
    ensures m == n
  {
    DecimalRoundTrip(m);
    DecimalRoundTrip(n);
  }

  /** A signed number, as `strconv.FormatInt` writes it. */
  function FormatInt(n: int): string {
    if n < 0 then "-" + Decimal(-n) else Decimal(n)
  }

  lemma FormatIntInjective(m: int, n: int)
    requires FormatInt(m) == FormatInt(n)
    ensures m == n
  {
    if m < 0 && n < 0 {
      assert Decimal(-m) == FormatInt(m)[1..] == FormatInt(n)[1..] == Decimal(-n);
      DecimalInjective(-m, -n);
    } else if m >= 0 && n >= 0 {
      DecimalInjective(m, n);
    } else {
      var p := if m >= 0 then m else n;
      assert Decimal(p)[0] in Decimal(p);
    }
  }

  function FormatBool(b: bool): string { if b then "true" else "false" }

  // ---------------------------------------------------------------- length-prefixed fields

  function Frame(f: string): (s: string)
    ensures s != []
  {
    Decimal(|f|) + ":" + f
  }

  /** The bytes a list of fields is hashed as. */
  function Frames(fields: seq<string>): string {
    if fields == [] then "" else Frame(fields[0]) + Frames(fields[1..])
  }

  /** A framed field can be read off the front of any bytes, in one way only. */
  lemma FrameSplits(a: string, x: string, b: string, y: string)
    requires Frame(a) + x == Frame(b) + y
    ensures a == b && x == y
  {
    var u, v := Decimal(|a|), Decimal(|b|);
    var s := Frame(a) + x;
    assert s[|u|] == ':' && s[|v|] == ':';
    forall i | 0 <= i < |u| ensures s[i] != ':' { assert s[i] == u[i] && u[i] in u; }
    forall i | 0 <= i < |v| ensures s[i] != ':' { assert s[i] == v[i] && v[i] in v; }
    assert |u| == |v|;
    assert u == s[..|u|] == v;
    DecimalInjective(|a|, |b|);
    var n := |u| + 1;
    assert a == s[n..n + |a|] == b;
    assert x == s[n + |a|..] == y;
  }

  /** Field lists are uniquely decodable, whatever characters and however many fields. */
  lemma {:induction false} FramesInjective(xs: seq<string>, ys: seq<string>)
    requires Frames(xs) == Frames(ys)
    ensures xs == ys
    decreases |xs|
  {
    if xs != [] && ys != [] {
      FrameSplits(xs[0], Frames(xs[1..]), ys[0], Frames(ys[1..]));
      FramesInjective(xs[1..], ys[1..]);
      assert xs == [xs[0]] + xs[1..] && ys == [ys[0]] + ys[1..];
    }
  }

  // ---------------------------------------------------------------- byte order

  predicate StrLeq(a: string, b: string) {
    a == [] || (b != [] && (a[0] < b[0] || (a[0] == b[0] && StrLeq(a[1..], b[1..]))))
  }

  lemma {:induction false} StrLeqTotal(a: string, b: string)
    ensures StrLeq(a, b) || StrLeq(b, a)
    ensures StrLeq(a, b) && StrLeq(b, a) ==> a == b
    decreases |a|
  {
    if a != [] && b != [] && a[0] == b[0] {
      StrLeqTotal(a[1..], b[1..]);
      assert a == [a[0]] + a[1..] && b == [b[0]] + b[1..];
    }
  }

  /** The order of a dictionary: by the first character that differs, and a prefix before what it begins. */
  lemma {:induction false} StrLeqMeans(a: string, b: string)
    ensures StrLeq(a, b) <==> a <= b || exists i :: 0 <= i < |a| && i < |b| && a[..i] == b[..i] && a[i] < b[i]
    decreases |a|
  {
    if a != [] && b != [] && a[0] == b[0] {
      var s, t := a[1..], b[1..];
      StrLeqMeans(s, t);
      if i :| 0 <= i < |s| && i < |t| && s[..i] == t[..i] && s[i] < t[i] {
        assert a[..i + 1] == [a[0]] + s[..i] && b[..i + 1] == [b[0]] + t[..i];
      }
      if i :| 0 <= i < |a| && i < |b| && a[..i] == b[..i] && a[i] < b[i] {
        assert i > 0 && s[..i - 1] == a[..i][1..] && t[..i - 1] == b[..i][1..];
        assert s[i - 1] == a[i] && t[i - 1] == b[i];
      }
      assert a == [a[0]] + s && b == [b[0]] + t;
      assert s <= t <==> a <= b;
    } else if a != [] && b != [] {
      assert a[0] < b[0] ==> a[..0] == b[..0];
      OneFirst(a, b);
    }
  }

  lemma OneFirst(a: string, b: string)
    ensures forall i :: 0 < i <= |a| && i <= |b| && a[..i] == b[..i] ==> a[0] == b[0]
  {
    forall i | 0 < i <= |a| && i <= |b| && a[..i] == b[..i] ensures a[0] == b[0] {
      assert a[0] == a[..i][0] && b[..i][0] == b[0];
    }
  }

  lemma {:induction false} StrLeqTransitive(a: string, b: string, c: string)
    requires StrLeq(a, b) && StrLeq(b, c)
    ensures StrLeq(a, c)
    decreases |a|
  {
    if a != [] && a[0] == b[0] == c[0] {
      StrLeqTransitive(a[1..], b[1..], c[1..]);
    }
  }

  ghost predicate Ascending(s: seq<string>) {
    forall i, j :: 0 <= i < j < |s| ==> StrLeq(s[i], s[j])
  }

  function Insert(x: string, s: seq<string>): (r: seq<string>)
    requires Ascending(s)
    ensures Ascending(r)
    ensures multiset(r) == multiset(s) + multiset{x}
  {
    if s == [] then [x]
    else if StrLeq(x, s[0]) then
      BeforeAll(x, s);
      [x] + s
    else
      StrLeqTotal(x, s[0]);
      var rest := Insert(x, s[1..]);
      AfterFirst(x, s, rest);
      [s[0]] + rest
  }

  lemma BeforeAll(x: string, s: seq<string>)
    requires Ascending(s) && s != [] && StrLeq(x, s[0])
    ensures Ascending([x] + s)
  {
    hide StrLeq;
    var t := [x] + s;
    forall i, j | 0 <= i < j < |t| ensures StrLeq(t[i], t[j]) {
      if i == 0 && j > 1 { StrLeqTransitive(x, s[0], s[j - 1]); }
    }
  }

  lemma AfterFirst(x: string, s: seq<string>, rest: seq<string>)
    requires Ascending(s) && s != [] && StrLeq(s[0], x)
    requires Ascending(rest) && multiset(rest) == multiset(s[1..]) + multiset{x}
    ensures Ascending([s[0]] + rest) && multiset([s[0]] + rest) == multiset(s) + multiset{x}
  {
    hide StrLeq;
    assert s == [s[0]] + s[1..];
    forall k | 0 <= k < |rest| ensures StrLeq(s[0], rest[k]) {
      assert rest[k] in multiset(rest);
      assert rest[k] == x || rest[k] in s[1..];
    }
  }

  /** `sort.Strings`. */
  function Sorted(s: seq<string>): (r: seq<string>)
    ensures Ascending(r)
    ensures multiset(r) == multiset(s)
  {
    if s == [] then []
    else
      assert s == [s[0]] + s[1..];
      Insert(s[0], Sorted(s[1..]))
  }

  lemma FirstIsLeast(s: seq<string>, x: string)
    requires Ascending(s) && x in s
    ensures StrLeq(s[0], x)
  {
    StrLeqTotal(x, x);
  }

  /** There is only one ascending arrangement of a bag of strings. */
  lemma {:induction false} AscendingUnique(s: seq<string>, t: seq<string>)
    requires Ascending(s) && Ascending(t) && multiset(s) == multiset(t)
    ensures s == t
    decreases |s|
  {
    assert |s| == |multiset(s)| == |t|;
    if s != [] {
      assert s[0] == t[0] by {
        assert s[0] in multiset(t) && t[0] in multiset(s);
        FirstIsLeast(s, t[0]);
        FirstIsLeast(t, s[0]);
        StrLeqTotal(s[0], t[0]);
      }
      assert s == [s[0]] + s[1..] && t == [t[0]] + t[1..];
      assert multiset(s[1..]) == multiset(s) - multiset{s[0]};
      assert multiset(t[1..]) == multiset(t) - multiset{t[0]};
      AscendingUnique(s[1..], t[1..]);
    }
  }

  lemma SortedCanonical(s: seq<string>, t: seq<string>)
    ensures Sorted(s) == Sorted(t) <==> multiset(s) == multiset(t)
  {
    if multiset(s) == multiset(t) { AscendingUnique(Sorted(s), Sorted(t)); }
  }
}
