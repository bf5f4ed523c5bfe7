/** Frame file names and their order. The capture process names its files so
    that sorting the names sorts the frames by capture time; the worker relies
    on Python's `sorted` over `str`, that is code-point lexicographic order in
    which a proper prefix comes first. */
module FrameNames {

  /** Python's `a < b` on `str`. */
  predicate Less(a: string, b: string)
    ensures Less(a, b) ==> a != b
    decreases |a|
  {
    if |a| == 0 then |b| > 0
    else if |b| == 0 then false
    else if a[0] != b[0] then a[0] < b[0]
    else Less(a[1..], b[1..])
  }

  lemma {:induction false} LessAsymmetric(a: string, b: string)
    ensures Less(a, b) ==> !Less(b, a)
    decreases |a|
  {
    if |a| > 0 && |b| > 0 && a[0] == b[0] {
      LessAsymmetric(a[1..], b[1..]);
    }
  }

  lemma {:induction false} LessTransitive(a: string, b: string, c: string)
    requires Less(a, b) && Less(b, c)
    ensures Less(a, c)
    decreases |a|
  {
    if |a| > 0 && a[0] == b[0] && b[0] == c[0] {
      LessTransitive(a[1..], b[1..], c[1..]);
    }
  }

  lemma {:induction false} LessTotal(a: string, b: string)
    ensures a == b || Less(a, b) || Less(b, a)
    decreases |a|
  {
    if |a| > 0 && |b| > 0 && a[0] == b[0] {
      LessTotal(a[1..], b[1..]);
      if a[1..] == b[1..] {
        assert a == [a[0]] + a[1..] && b == [b[0]] + b[1..];
      }
    }
  }

  /** Ascending order as `sorted` leaves it: no element is below an earlier one. */
  predicate Sorted(s: seq<string>)
  {
    forall i, j :: 0 <= i < j < |s| ==> !Less(s[j], s[i])
  }

  /** Inserts one name into an ascending list after every name not above it. */
  function Insert(x: string, s: seq<string>): (r: seq<string>)
    ensures multiset(r) == multiset(s) + multiset{x}
    decreases |s|
  {
    if s == [] || Less(x, s[0]) then [x] + s
    else
      assert s == [s[0]] + s[1..];
      [s[0]] + Insert(x, s[1..])
  }

  /** Python's `sorted` on a list of names (an insertion sort). */
  function Sort(s: seq<string>): (r: seq<string>)
    ensures multiset(r) == multiset(s)
    decreases |s|
  {
    if s == [] then []
    else
      assert s == [s[0]] + s[1..];
      Insert(s[0], Sort(s[1..]))
  }

  lemma {:induction false} InsertSorted(x: string, s: seq<string>)
    requires Sorted(s)
    ensures Sorted(Insert(x, s))
    decreases |s|
  {
    if s == [] || Less(x, s[0]) {
      forall j | 0 < j < |s| + 1
        ensures !Less(([x] + s)[j], x)
      {
        var y := s[j - 1];
        LessAsymmetric(s[0], s[0]);
        assert !Less(y, s[0]);
        LessAsymmetric(x, s[0]);
        LessTotal(y, s[0]);
        if Less(y, x) {
          LessTransitive(y, x, s[0]);
        }
      }
    } else {
      InsertSorted(x, s[1..]);
      var r := Insert(x, s[1..]);
      LessTotal(x, s[0]);
      forall j | 0 <= j < |r|
        ensures !Less(r[j], s[0])
      {
        assert r[j] in multiset(r);
        if r[j] != x {
          assert r[j] in multiset(s[1..]);
          var k :| 0 <= k < |s[1..]| && s[1..][k] == r[j];
          assert s[k + 1] == r[j];
        }
      }
    }
  }

  lemma {:induction false} SortSorted(s: seq<string>)
    ensures Sorted(Sort(s))
    decreases |s|
  {
    if s != [] {
      SortSorted(s[1..]);
      InsertSorted(s[0], Sort(s[1..]));
    }
  }

  /** The names a list holds. */
  function Elements(s: seq<string>): set<string>
  {
    set m | m in s
  }

  /** `n` is the newest name of `names`: every other name sorts before it. */
  predicate IsNewest(n: string, names: set<string>)
  {
    n in names && forall m :: m in names && m != n ==> Less(m, n)
  }

  lemma {:induction false} NewestExists(names: set<string>)
    requires names != {}
    ensures exists n :: IsNewest(n, names)
    decreases names
  {
    var x :| x in names;
    if names != {x} {
      NewestExists(names - {x});
      var g :| IsNewest(g, names - {x});
      LessTotal(g, x);
      if Less(g, x) {
        forall m | m in names && m != x
          ensures Less(m, x)
        {
          if m != g {
            LessTransitive(m, g, x);
          }
        }
        assert IsNewest(x, names);
      } else {
        assert IsNewest(g, names);
      }
    } else {
      assert IsNewest(x, names);
    }
  }

  lemma NewestUnique(n: string, n': string, names: set<string>)
    requires IsNewest(n, names) && IsNewest(n', names)
    ensures n == n'
  {
    if n != n' {
      LessAsymmetric(n, n');
    }
  }

  /** The newest name of a non-empty directory listing. */
  ghost function Newest(names: set<string>): (n: string)
    requires names != {}
    ensures IsNewest(n, names)
  {
    NewestExists(names);
    var n :| IsNewest(n, names);
    n
  }

  /** The last name `sorted` yields is the newest, and the others are exactly
      the rest of the listing. */
  lemma LastIsNewest(s: seq<string>, names: set<string>)
    requires Sorted(s) && s != []
    requires multiset(s) == multiset(names)
    ensures IsNewest(s[|s| - 1], names)
    ensures Elements(s[..|s| - 1]) == names - {s[|s| - 1]}
  {
    var last := s[|s| - 1];
    assert last in multiset(names);
    forall m | m in names && m != last
      ensures Less(m, last)
    {
      assert m in multiset(s);
      var k :| 0 <= k < |s| && s[k] == m;
      LessTotal(m, last);
    }
    assert s == s[..|s| - 1] + [last];
    assert multiset(s) == multiset(s[..|s| - 1]) + multiset{last};
    forall m
      ensures m in s[..|s| - 1] <==> m in names - {last}
    {
      assert multiset(s)[m] == multiset(names)[m];
      assert m in s[..|s| - 1] <==> m in multiset(s[..|s| - 1]);
    }
  }
}
