/** Small shared vocabulary: optional values, extrema of finite sets and
    counting. Nothing here is specific to VCF Doctor. */
module Basics {

  datatype Option<+T> = None | Some(value: T)

  function Max(a: int, b: int): int { if a < b then b else a }
  function Min(a: int, b: int): int { if a < b then a else b }

  lemma Inhabited<T>(s: set<T>) returns (x: T)
    requires s != {}
    ensures x in s
  {
    x :| x in s;
  }

  lemma {:induction false} LeastExists(s: set<int>)
    requires s != {}
    ensures exists m :: m in s && forall x :: x in s ==> m <= x
    decreases |s|
  {
    var y := Inhabited(s);
    var rest := s - {y};
    if rest != {} {
      LeastExists(rest);
      var m :| m in rest && forall x :: x in rest ==> m <= x;
      var w := if m < y then m else y;
      assert w in s;
      forall x | x in s ensures w <= x { assert x == y || x in rest; }
    } else {
      assert s == {y};
    }
  }

  lemma {:induction false} GreatestExists(s: set<int>)
    requires s != {}
    ensures exists m :: m in s && forall x :: x in s ==> x <= m
    decreases |s|
  {
    var y := Inhabited(s);
    var rest := s - {y};
    if rest != {} {
      GreatestExists(rest);
      var m :| m in rest && forall x :: x in rest ==> x <= m;
      var w := if y < m then m else y;
      assert w in s;
      forall x | x in s ensures x <= w { assert x == y || x in rest; }
    } else {
      assert s == {y};
    }
  }

  function Least(s: set<int>): (m: int)
    requires s != {}
    ensures m in s
    ensures forall x :: x in s ==> m <= x
  {
    LeastExists(s);
    var m :| m in s && forall x :: x in s ==> m <= x;
    m
  }

  function Greatest(s: set<int>): (m: int)
    requires s != {}
    ensures m in s
    ensures forall x :: x in s ==> x <= m
  {
    GreatestExists(s);
    var m :| m in s && forall x :: x in s ==> x <= m;
    m
  }

  /** A subset is no larger, and a proper subset is smaller. */
  lemma SubsetSize<T>(a: set<T>, b: set<T>)
    requires a <= b
    ensures |a| <= |b|
    ensures a != b ==> |a| < |b|
  {
    assert b == a + (b - a);
  }

  /** How often x occurs. */
  function Count(s: seq<int>, x: int): nat {
    if s == [] then 0 else Count(s[..|s| - 1], x) + (if s[|s| - 1] == x then 1 else 0)
  }

  lemma {:induction false} CountConcat(a: seq<int>, b: seq<int>, x: int)
    ensures Count(a + b, x) == Count(a, x) + Count(b, x)
    decreases |b|
  {
    if b == [] {
      assert a + b == a;
    } else {
      var n := |b| - 1;
      CountConcat(a, b[..n], x);
      assert (a + b)[..|a + b| - 1] == a + b[..n];
    }
  }

  lemma CountHead(a: int, s: seq<int>, x: int)
    ensures Count([a] + s, x) == (if a == x then 1 else 0) + Count(s, x)
  {
    CountConcat([a], s, x);
    assert [a][..0] == [];
  }

  lemma CountLast(s: seq<int>, a: int, x: int)
    ensures Count(s + [a], x) == Count(s, x) + (if a == x then 1 else 0)
  {
    assert (s + [a])[..|s|] == s;
  }

  lemma {:induction false} CountIndex(s: seq<int>, x: int) returns (i: nat)
    requires Count(s, x) > 0
    ensures i < |s| && s[i] == x
    decreases |s|
  {
    var n := |s| - 1;
    if s[n] == x {
      i := n;
    } else {
      i := CountIndex(s[..n], x);
    }
  }

  /** A sequence whose every value occurs no more often is no longer. */
  lemma {:induction false} FewerCounts(a: seq<int>, b: seq<int>)
    requires forall x :: Count(a, x) <= Count(b, x)
    ensures |a| <= |b|
    decreases |a|
  {
    if a != [] {
      var n := |a| - 1;
      var v := a[n];
      assert Count(a, v) > 0;
      var i := CountIndex(b, v);
      var b' := b[..i] + b[i + 1..];
      forall x ensures Count(a[..n], x) <= Count(b', x) {
        assert Count(a, x) <= Count(b, x);
        assert b == (b[..i] + [v]) + b[i + 1..];
        CountConcat(b[..i] + [v], b[i + 1..], x);
        CountConcat(b[..i], [v], x);
        CountConcat(b[..i], b[i + 1..], x);
        assert [v][..0] == [];
        assert Count([v], x) == if v == x then 1 else 0;
      }
      FewerCounts(a[..n], b');
    }
  }
}
