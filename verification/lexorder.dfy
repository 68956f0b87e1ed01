/**
  Byte-wise string order, as PHP compares two non-numeric strings
  (`strcmp`: the first differing character decides, and a proper prefix
  sorts first), and a descending sort under it, as `rsort` applies to the
  backup file names.  Characters compare by code point, which is the
  order of their UTF-8 bytes.
 */
module LexOrder {

  /** `strcmp(a, b) < 0`. */
  predicate Less(a: string, b: string)
    decreases |a|
  {
    if |a| == 0 then |b| > 0
    else |b| > 0 && (a[0] < b[0] || (a[0] == b[0] && Less(a[1..], b[1..])))
  }

  predicate LessEq(a: string, b: string)
  {
    a == b || Less(a, b)
  }

  lemma {:induction false} LessIrreflexive(a: string)
    ensures !Less(a, a)
    decreases |a|
  {
    if |a| > 0 {
      LessIrreflexive(a[1..]);
    }
  }

  lemma {:induction false} LessTransitive(a: string, b: string, c: string)
    requires Less(a, b) && Less(b, c)
    ensures Less(a, c)
    decreases |a|
  {
    if |a| > 0 && a[0] == b[0] && b[0] == c[0] {
      LessTransitive(a[1..], b[1..], c[1..]);
    }
  }

  /** Any two different strings are ordered one way. */
  lemma {:induction false} LessTotal(a: string, b: string)
    ensures a == b || Less(a, b) || Less(b, a)
    decreases |a|
  {
    if |a| > 0 && |b| > 0 && a[0] == b[0] {
      LessTotal(a[1..], b[1..]);
      if a[1..] == b[1..] {
        assert a == [a[0]] + a[1..] && b == [b[0]] + b[1..];
      }
    }
  }

  lemma LessAsymmetric(a: string, b: string)
    requires Less(a, b)
    ensures !Less(b, a)
  {
    if Less(b, a) {
      LessTransitive(a, b, a);
      LessIrreflexive(a);
    }
  }

  lemma LessEqTransitive(a: string, b: string, c: string)
    requires LessEq(a, b) && LessEq(b, c)
    ensures LessEq(a, c)
  {
    if a != b && b != c {
      LessTransitive(a, b, c);
    }
  }

  /** A common prefix does not change the order. */
  lemma {:induction false} LessPrefix(p: string, a: string, b: string)
    ensures Less(p + a, p + b) <==> Less(a, b)
    decreases |p|
  {
    if |p| > 0 {
      assert (p + a)[1..] == p[1..] + a;
      assert (p + b)[1..] == p[1..] + b;
      LessPrefix(p[1..], a, b);
    } else {
      assert p + a == a && p + b == b;
    }
  }

  /** Between equal-length strings that differ, the order ignores whatever follows. */
  lemma {:induction false} LessEqualLength(a: string, b: string, x: string, y: string)
    requires |a| == |b| && a != b
    ensures Less(a + x, b + y) <==> Less(a, b)
    decreases |a|
  {
    assert |a| > 0;
    if a[0] == b[0] {
      assert (a + x)[1..] == a[1..] + x;
      assert (b + y)[1..] == b[1..] + y;
      LessEqualLength(a[1..], b[1..], x, y);
    }
  }

  /** Descending order: no element is below a later one. */
  predicate SortedDesc(s: seq<string>)
  {
    forall i, j :: 0 <= i < j < |s| ==> LessEq(s[j], s[i])
  }

  /** Inserts `x` into a descending list in front of the first element not above it. */
  function Insert(x: string, s: seq<string>): (r: seq<string>)
    requires SortedDesc(s)
    ensures multiset(r) == multiset(s) + multiset{x}
    ensures SortedDesc(r)
  {
    if |s| == 0 then [x]
    else if LessEq(s[0], x) then
      AllBelow(s, x);
      ConsSorted(x, s);
      [x] + s
    else
      SortedTail(s);
      var t := Insert(x, s[1..]);
      InsertBehind(x, s, t);
      [s[0]] + t
  }

  /** Every element of a descending list is at most `x` when its first is. */
  lemma AllBelow(s: seq<string>, x: string)
    requires SortedDesc(s) && |s| > 0 && LessEq(s[0], x)
    ensures forall e :: e in multiset(s) ==> LessEq(e, x)
  {
    forall e | e in multiset(s)
      ensures LessEq(e, x)
    {
      var k :| 0 <= k < |s| && s[k] == e;
      LessEqTransitive(s[k], s[0], x);
    }
  }

  /** No element of a descending list's tail exceeds its first. */
  lemma TailBelowHead(s: seq<string>)
    requires SortedDesc(s) && |s| > 0
    ensures forall e :: e in multiset(s[1..]) ==> LessEq(e, s[0])
  {
    forall e | e in multiset(s[1..])
      ensures LessEq(e, s[0])
    {
      var k :| 0 <= k < |s[1..]| && s[1..][k] == e;
      assert s[k + 1] == e;
    }
  }

  lemma SortedTail(s: seq<string>)
    requires SortedDesc(s) && |s| > 0
    ensures SortedDesc(s[1..])
  {
    forall i, j | 0 <= i < j < |s| - 1
      ensures LessEq(s[1..][j], s[1..][i])
    {
      assert s[1..][j] == s[j + 1] && s[1..][i] == s[i + 1];
    }
  }

  /** `x` goes behind the first element `s[0]` when it is below it: the
      first element stays in front of the insertion into the rest. */
  lemma InsertBehind(x: string, s: seq<string>, t: seq<string>)
    requires SortedDesc(s) && |s| > 0 && !LessEq(s[0], x)
    requires SortedDesc(t) && multiset(t) == multiset(s[1..]) + multiset{x}
    ensures SortedDesc([s[0]] + t)
    ensures multiset([s[0]] + t) == multiset(s) + multiset{x}
  {
    LessTotal(x, s[0]);
    TailBelowHead(s);
    ConsSorted(s[0], t);
    assert [s[0]] + s[1..] == s;
  }

  /** A head no element of a descending tail exceeds keeps the list descending. */
  lemma ConsSorted(h: string, t: seq<string>)
    requires SortedDesc(t) && forall e :: e in multiset(t) ==> LessEq(e, h)
    ensures SortedDesc([h] + t)
  {
    forall i, j | 0 <= i < j < |t| + 1
      ensures LessEq(([h] + t)[j], ([h] + t)[i])
    {
      assert t[j - 1] in multiset(t);
    }
  }

  /** `rsort`: the same names in descending order. */
  function SortDesc(s: seq<string>): (r: seq<string>)
    ensures multiset(r) == multiset(s)
    ensures |r| == |s|
    ensures SortedDesc(r)
  {
    if |s| == 0 then []
    else
      assert [s[0]] + s[1..] == s;
      Insert(s[0], SortDesc(s[1..]))
  }
}
