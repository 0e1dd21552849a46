/** The order in which a JAR listing is sorted: name, then version, then hash, each
    compared the way Go compares strings. */
module JarOrder {

  datatype MavenJar = MavenJar(name: string, version: string, sha256: string)

  /** Lexicographic order by character code. */
  predicate StringLess(a: string, b: string) {
    if b == [] then false
    else if a == [] then true
    else if a[0] != b[0] then a[0] < b[0]
    else StringLess(a[1..], b[1..])
  }

  predicate JarLess(a: MavenJar, b: MavenJar) {
    if a.name != b.name then StringLess(a.name, b.name)
    else if a.version != b.version then StringLess(a.version, b.version)
    else StringLess(a.sha256, b.sha256)
  }

  /** What a sorting routine driven by JarLess promises: no later element is less than an
      earlier one. It does not say in which order equivalent elements come out. */
  ghost predicate Sorted(jars: seq<MavenJar>) {
    forall i, j :: 0 <= i < j < |jars| ==> !JarLess(jars[j], jars[i])
  }

  // ---- JarLess is a strict total order on whole records ----

  lemma {:induction false} StringTrichotomy(a: string, b: string)
    ensures StringLess(a, b) ==> !StringLess(b, a)
    ensures !StringLess(a, b) && !StringLess(b, a) ==> a == b
  {
    if a != [] && b != [] && a[0] == b[0] {
      StringTrichotomy(a[1..], b[1..]);
      assert a == [a[0]] + a[1..] && b == [b[0]] + b[1..];
    }
  }

  lemma {:induction false} StringTransitive(a: string, b: string, c: string)
    requires StringLess(a, b) && StringLess(b, c)
    ensures StringLess(a, c)
  {
    if a != [] && a[0] == b[0] == c[0] {
      StringTransitive(a[1..], b[1..], c[1..]);
    }
  }

  /** Two records that neither precede each other are the same record. */
  lemma JarTrichotomy(a: MavenJar, b: MavenJar)
    ensures JarLess(a, b) ==> !JarLess(b, a)
    ensures !JarLess(a, b) && !JarLess(b, a) ==> a == b
  {
    StringTrichotomy(a.name, b.name);
    StringTrichotomy(a.version, b.version);
    StringTrichotomy(a.sha256, b.sha256);
  }

  lemma JarTransitive(a: MavenJar, b: MavenJar, c: MavenJar)
    requires JarLess(a, b) && JarLess(b, c)
    ensures JarLess(a, c)
  {
    if a.name == b.name == c.name {
      if a.version == b.version == c.version {
        StringTransitive(a.sha256, b.sha256, c.sha256);
      } else if a.version != b.version && b.version != c.version {
        StringTransitive(a.version, b.version, c.version);
        StringTrichotomy(a.version, b.version);
      }
    } else if a.name != b.name && b.name != c.name {
      StringTransitive(a.name, b.name, c.name);
      StringTrichotomy(a.name, b.name);
    }
  }

  /** If a is not after b and b is not after c, a is not after c. */
  lemma JarNotAfterTransitive(a: MavenJar, b: MavenJar, c: MavenJar)
    requires !JarLess(b, a) && !JarLess(c, b)
    ensures !JarLess(c, a)
  {
    JarTrichotomy(a, b);
    JarTrichotomy(b, c);
    JarTrichotomy(a, c);
    if JarLess(a, b) && JarLess(b, c) {
      JarTransitive(a, b, c);
    }
  }

  /** The first of a sorted sequence comes after none of the others. */
  lemma FirstIsLeast(xs: seq<MavenJar>, x: MavenJar)
    requires Sorted(xs) && x in multiset(xs)
    ensures !JarLess(x, xs[0])
  {
    var i :| 0 <= i < |xs| && xs[i] == x;
    JarTrichotomy(x, x);
  }

  /** Sorting leaves no freedom: a multiset of records has one sorted arrangement. */
  lemma {:induction false} SortedIsUnique(xs: seq<MavenJar>, ys: seq<MavenJar>)
    requires Sorted(xs) && Sorted(ys) && multiset(xs) == multiset(ys)
    ensures xs == ys
  {
    assert |xs| == |multiset(xs)| == |multiset(ys)| == |ys|;
    if xs != [] {
      assert xs[0] in multiset(ys) && ys[0] in multiset(xs);
      FirstIsLeast(xs, ys[0]);
      FirstIsLeast(ys, xs[0]);
      JarTrichotomy(xs[0], ys[0]);
      HeadAndTail(xs);
      HeadAndTail(ys);
      SortedIsUnique(xs[1..], ys[1..]);
    }
  }

  lemma HeadAndTail(xs: seq<MavenJar>)
    requires xs != []
    ensures xs == [xs[0]] + xs[1..]
    ensures multiset(xs[1..]) == multiset(xs) - multiset{xs[0]}
  {
    assert xs == [xs[0]] + xs[1..];
    assert multiset(xs) == multiset{xs[0]} + multiset(xs[1..]);
  }

  // ---- which order it is ----

  /** Dictionary order by position: a is a proper prefix of b, or has the smaller character at the
      first position where the two differ. */
  ghost predicate TextBefore(a: string, b: string) {
    || (|a| < |b| && b[..|a|] == a)
    || exists k :: 0 <= k < |a| && k < |b| && a[..k] == b[..k] && a[k] < b[k]
  }

  /** The first of name, version and hash in which two records differ decides. */
  ghost predicate RecordBefore(x: MavenJar, y: MavenJar) {
    || TextBefore(x.name, y.name)
    || (x.name == y.name && TextBefore(x.version, y.version))
    || (x.name == y.name && x.version == y.version && TextBefore(x.sha256, y.sha256))
  }

  /** Ascending, with equal records side by side. */
  ghost predicate InOrder(jars: seq<MavenJar>) {
    forall i, j :: 0 <= i < j < |jars| ==> jars[i] == jars[j] || RecordBefore(jars[i], jars[j])
  }

  lemma {:induction false} StringLessIsBefore(a: string, b: string)
    requires StringLess(a, b)
    ensures TextBefore(a, b)
  {
    if a != [] {
      if a[0] != b[0] {
        assert a[..0] == b[..0];
      } else {
        StringLessIsBefore(a[1..], b[1..]);
        assert a == [a[0]] + a[1..] && b == [a[0]] + b[1..];
        if k :| 0 <= k < |a[1..]| && k < |b[1..]| && a[1..][..k] == b[1..][..k] && a[1..][k] < b[1..][k] {
          assert a[..k + 1] == [a[0]] + a[1..][..k] && b[..k + 1] == [a[0]] + b[1..][..k];
        } else {
          assert b[..|a|] == [a[0]] + b[1..][..|a| - 1];
        }
      }
    }
  }

  /** Sorted by the comparison means ascending by name, then version, then hash. */
  lemma SortedIsInOrder(jars: seq<MavenJar>)
    requires Sorted(jars)
    ensures InOrder(jars)
  {
    forall i, j | 0 <= i < j < |jars|
      ensures jars[i] == jars[j] || RecordBefore(jars[i], jars[j])
    {
      var x, y := jars[i], jars[j];
      JarTrichotomy(x, y);
      if JarLess(x, y) {
        if x.name != y.name {
          StringLessIsBefore(x.name, y.name);
        } else if x.version != y.version {
          StringLessIsBefore(x.version, y.version);
        } else {
          StringLessIsBefore(x.sha256, y.sha256);
        }
      }
    }
  }

  // ---- a sorted arrangement exists ----

  function Insert(x: MavenJar, jars: seq<MavenJar>): (r: seq<MavenJar>)
    ensures multiset(r) == multiset(jars) + multiset{x}
  {
    if jars == [] then [x]
    else if JarLess(jars[0], x) then
      assert jars == [jars[0]] + jars[1..];
      [jars[0]] + Insert(x, jars[1..])
    else [x] + jars
  }

  function Sort(jars: seq<MavenJar>): (r: seq<MavenJar>)
    ensures multiset(r) == multiset(jars)
  {
    if jars == [] then []
    else
      assert jars == [jars[0]] + jars[1..];
      Insert(jars[0], Sort(jars[1..]))
  }

  lemma {:induction false} InsertKeepsSorted(x: MavenJar, jars: seq<MavenJar>)
    requires Sorted(jars)
    ensures Sorted(Insert(x, jars))
  {
    if jars != [] {
      var r := Insert(x, jars);
      JarTrichotomy(jars[0], x);
      if JarLess(jars[0], x) {
        InsertKeepsSorted(x, jars[1..]);
        forall j | 0 < j < |r| ensures !JarLess(r[j], r[0]) {
          assert r[j] == Insert(x, jars[1..])[j - 1];
          assert r[j] in multiset(Insert(x, jars[1..]));
          assert r[j] == x || r[j] in jars[1..];
        }
      } else {
        forall j | 0 < j < |r| ensures !JarLess(r[j], r[0]) {
          if j > 1 { JarNotAfterTransitive(x, jars[0], jars[j - 1]); }
        }
      }
    }
  }

  lemma {:induction false} SortSorts(jars: seq<MavenJar>)
    ensures Sorted(Sort(jars))
  {
    if jars != [] {
      SortSorts(jars[1..]);
      InsertKeepsSorted(jars[0], Sort(jars[1..]));
    }
  }
}
