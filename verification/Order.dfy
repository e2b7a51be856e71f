/** The order of strings by code point, and the sorted listing of a finite set of strings. */
module Order {

  predicate Less(a: string, b: string)
    decreases a
  {
    b != [] && (a == [] || a[0] < b[0] || (a[0] == b[0] && Less(a[1..], b[1..])))
  }

  lemma {:induction false} Trichotomy(a: string, b: string)
    ensures a == b || Less(a, b) || Less(b, a)
    decreases a
  {
    if a != [] && b != [] && a[0] == b[0] {
      Trichotomy(a[1..], b[1..]);
      assert a == [a[0]] + a[1..] && b == [b[0]] + b[1..];
    }
  }

  lemma {:induction false} Asymmetric(a: string, b: string)
    requires Less(a, b)
    ensures !Less(b, a) && a != b
    decreases a
  {
    if a != [] && a[0] == b[0] {
      Asymmetric(a[1..], b[1..]);
    }
  }

  lemma {:induction false} Transitive(a: string, b: string, c: string)
    requires Less(a, b) && Less(b, c)
    ensures Less(a, c)
    decreases a
  {
    if a != [] && a[0] == b[0] && b[0] == c[0] {
      Transitive(a[1..], b[1..], c[1..]);
    }
  }

  /** The order is by the first character that differs; a text comes before what it is a prefix of. */
  lemma {:induction false} LessIsLexical(a: string, b: string)
    ensures Less(a, b) <==>
            exists k :: 0 <= k <= |a| && k < |b| && a[..k] == b[..k] && (k < |a| ==> a[k] < b[k])
    decreases a
  {
    if b != [] && a != [] && a[0] == b[0] {
      LessIsLexical(a[1..], b[1..]);
      if Less(a, b) {
        var k :| 0 <= k <= |a[1..]| && k < |b[1..]| && a[1..][..k] == b[1..][..k] && (k < |a[1..]| ==> a[1..][k] < b[1..][k]);
        assert a[..k + 1] == [a[0]] + a[1..][..k] && b[..k + 1] == [b[0]] + b[1..][..k];
      }
      if k :| 0 <= k <= |a| && k < |b| && a[..k] == b[..k] && (k < |a| ==> a[k] < b[k]) {
        assert k > 0;
        assert a[1..][..k - 1] == a[..k][1..] && b[1..][..k - 1] == b[..k][1..];
      }
    } else if b != [] {
      if Less(a, b) { assert a[..0] == b[..0]; }
      if k :| 0 <= k <= |a| && k < |b| && a[..k] == b[..k] && (k < |a| ==> a[k] < b[k]) {
        if k > 0 { assert a[..k][0] == b[..k][0]; }
      }
    }
  }

  ghost predicate IsFirst(m: string, s: set<string>) {
    m in s && forall x :: x in s ==> x == m || Less(m, x)
  }

  lemma {:induction false} HasFirst(s: set<string>)
    requires s != {}
    ensures exists m :: IsFirst(m, s)
  {
    var x :| x in s;
    var rest := s - {x};
    if rest == {} {
      assert s == {x};
      assert IsFirst(x, s);
    } else {
      HasFirst(rest);
      var m :| IsFirst(m, rest);
      Trichotomy(m, x);
      if Less(m, x) {
        assert IsFirst(m, s);
      } else {
        forall y | y in rest && y != m ensures Less(x, y) { Transitive(x, m, y); }
        assert IsFirst(x, s);
      }
    }
  }

  lemma FirstIsUnique(a: string, b: string, s: set<string>)
    requires IsFirst(a, s) && IsFirst(b, s)
    ensures a == b
  {
    if a != b { Asymmetric(a, b); }
  }

  ghost function First(s: set<string>): (m: string)
    requires s != {}
    ensures IsFirst(m, s)
  {
    HasFirst(s);
    var m :| IsFirst(m, s);
    m
  }

  /** The elements of `s` in order. */
  ghost function Sorted(s: set<string>): seq<string> {
    if s == {} then [] else [First(s)] + Sorted(s - {First(s)})
  }

  method SortSet(s: set<string>) returns (r: seq<string>)
    ensures r == Sorted(s)
    decreases s
  {
    if s == {} { return []; }
    HasFirst(s);
    var m :| m in s && forall x :: x in s ==> x == m || Less(m, x);
    FirstIsUnique(m, First(s), s);
    r := SortSet(s - {m});
    r := [m] + r;
  }

  /** The listing holds exactly the elements of the set, in strictly increasing order. */
  lemma {:induction false} SortedIsListing(s: set<string>)
    ensures forall x :: x in Sorted(s) <==> x in s
    ensures forall i, j :: 0 <= i < j < |Sorted(s)| ==> Less(Sorted(s)[i], Sorted(s)[j])
  {
    if s != {} {
      var m := First(s);
      SortedIsListing(s - {m});
      var rest := Sorted(s - {m});
      forall i, j | 0 <= i < j < |Sorted(s)| ensures Less(Sorted(s)[i], Sorted(s)[j]) {
        assert Sorted(s)[j] == rest[j - 1] && rest[j - 1] in rest;
        if i > 0 { assert Sorted(s)[i] == rest[i - 1]; }
      }
    }
  }
}
