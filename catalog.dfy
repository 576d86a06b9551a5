/** The country catalogue (the list loaded once from countries.json) and the
    pure computations both pages make on it: selecting a level (region and
    subregion), and the sorted, duplicate-free lists that fill the region and
    subregion selectors. */
module Catalog {
  import opened Seqs

  datatype Country = Country(name: string, code: string, region: string, subregion: string)

  /** Which property of a country a `.map(c => c.x)` reads. */
  datatype Field = Name | Code | Region | Subregion

  function Get(c: Country, f: Field): string
  {
    match f
    case Name => c.name
    case Code => c.code
    case Region => c.region
    case Subregion => c.subregion
  }

  /** `cs.map(c => c.f)`. */
  function Project(cs: seq<Country>, f: Field): (r: seq<string>)
    ensures |r| == |cs|
    ensures forall i :: 0 <= i < |cs| ==> r[i] == Get(cs[i], f)
  {
    if cs == [] then [] else [Get(cs[0], f)] + Project(cs[1..], f)
  }

  lemma {:induction false} ProjectAppend(a: seq<Country>, b: seq<Country>, f: Field)
    ensures Project(a + b, f) == Project(a, f) + Project(b, f)
  {
    if a == [] {
      assert a + b == b;
    } else {
      assert (a + b)[1..] == a[1..] + b;
      ProjectAppend(a[1..], b, f);
    }
  }

  /** Removing one country removes its value from the projection's multiset. */
  lemma ProjectRemove(b: seq<Country>, i: nat, f: Field)
    requires i < |b|
    ensures multiset(Project(b, f)) == multiset(Project(b[..i] + b[i + 1..], f)) + multiset{Get(b[i], f)}
  {
    assert b == b[..i] + [b[i]] + b[i + 1..];
    ProjectAppend(b[..i] + [b[i]], b[i + 1..], f);
    ProjectAppend(b[..i], [b[i]], f);
    ProjectAppend(b[..i], b[i + 1..], f);
  }

  /** Taking the first element off `a` and one equal element off `b` keeps
      the sub-multiset relation. */
  lemma SubMultisetRemove(a: seq<Country>, b: seq<Country>, i: nat)
    requires a != [] && i < |b| && b[i] == a[0]
    requires multiset(a) <= multiset(b)
    ensures multiset(a[1..]) <= multiset(b[..i] + b[i + 1..])
  {
    var b' := b[..i] + b[i + 1..];
    assert b == b[..i] + [b[i]] + b[i + 1..];
    assert a == [a[0]] + a[1..];
    assert multiset(b) == multiset(b') + multiset{a[0]};
    assert multiset(a) == multiset(a[1..]) + multiset{a[0]};
    forall y ensures multiset(a[1..])[y] <= multiset(b')[y] {
      assert multiset(a)[y] <= multiset(b)[y];
    }
  }

  /** Projecting a sub-multiset gives a sub-multiset: sampling countries without
      replacement samples their names (or codes) without replacement. */
  lemma {:induction false} ProjectSubMultiset(a: seq<Country>, b: seq<Country>, f: Field)
    requires multiset(a) <= multiset(b)
    ensures multiset(Project(a, f)) <= multiset(Project(b, f))
    decreases |a|
  {
    if a != [] {
      assert a[0] in multiset(b);
      var i :| 0 <= i < |b| && b[i] == a[0];
      SubMultisetRemove(a, b, i);
      ProjectSubMultiset(a[1..], b[..i] + b[i + 1..], f);
      ProjectRemove(b, i, f);
      assert Project(a, f) == [Get(a[0], f)] + Project(a[1..], f);
    }
  }

  /** The countries of one level: `DB.filter(c => c.region === region &&
      c.subregion === subregion)`. */
  function Level(db: seq<Country>, region: string, subregion: string): (r: seq<Country>)
    ensures forall c :: c in r <==> c in db && c.region == region && c.subregion == subregion
    ensures multiset(r) <= multiset(db)
  {
    Filter((c: Country) => c.region == region && c.subregion == subregion, db)
  }

  /** Selecting a level keeps catalogue order: it distributes over concatenation. */
  lemma LevelAppend(a: seq<Country>, b: seq<Country>, region: string, subregion: string)
    ensures Level(a + b, region, subregion) == Level(a, region, subregion) + Level(b, region, subregion)
  {
    FilterAppend((c: Country) => c.region == region && c.subregion == subregion, a, b);
  }

  /** `DB.filter(c => c.region === region)`. */
  function InRegion(db: seq<Country>, region: string): (r: seq<Country>)
    ensures forall c :: c in r <==> c in db && c.region == region
  {
    Filter((c: Country) => c.region == region, db)
  }

  /** The default order of `Array.prototype.sort` on strings: lexicographic by
      character code. */
  predicate Below(a: string, b: string)
  {
    a == [] || (b != [] && (a[0] < b[0] || (a[0] == b[0] && Below(a[1..], b[1..]))))
  }

  lemma {:induction false} BelowTotal(a: string, b: string)
    ensures Below(a, b) || Below(b, a)
  {
    if a != [] && b != [] && a[0] == b[0] {
      BelowTotal(a[1..], b[1..]);
    }
  }

  lemma {:induction false} BelowTransitive(a: string, b: string, c: string)
    requires Below(a, b) && Below(b, c)
    ensures Below(a, c)
  {
    if a != [] && b != [] && c != [] && a[0] == b[0] == c[0] {
      BelowTransitive(a[1..], b[1..], c[1..]);
    }
  }

  lemma {:induction false} BelowAntisymmetric(a: string, b: string)
    requires Below(a, b) && Below(b, a)
    ensures a == b
  {
    if a != [] && b != [] {
      BelowAntisymmetric(a[1..], b[1..]);
      assert a == [a[0]] + a[1..] && b == [b[0]] + b[1..];
    }
  }

  ghost predicate Sorted(s: seq<string>)
  {
    forall i, j :: 0 <= i < j < |s| ==> Below(s[i], s[j])
  }

  /** Inserts `x` before the first element it is below. */
  function Insert(x: string, s: seq<string>): (r: seq<string>)
    ensures multiset(r) == multiset(s) + multiset{x}
  {
    if s == [] || Below(x, s[0]) then [x] + s
    else
      assert s == [s[0]] + s[1..];
      [s[0]] + Insert(x, s[1..])
  }

  lemma {:induction false} InsertSorted(x: string, s: seq<string>)
    requires Sorted(s)
    ensures Sorted(Insert(x, s))
  {
    if s == [] || Below(x, s[0]) {
      var r := [x] + s;
      forall j | 0 <= j < |s| ensures Below(x, s[j]) {
        if j > 0 {
          BelowTransitive(x, s[0], s[j]);
        }
      }
      forall i, j | 0 <= i < j < |r| ensures Below(r[i], r[j]) {
        assert r[j] == s[j - 1];
        if i > 0 {
          assert r[i] == s[i - 1];
        }
      }
    } else {
      BelowTotal(x, s[0]);
      InsertSorted(x, s[1..]);
      var t := Insert(x, s[1..]);
      forall k | 0 <= k < |t| ensures Below(s[0], t[k]) {
        assert t[k] in multiset(t);
        if t[k] != x {
          assert t[k] in s[1..];
        }
      }
    }
  }

  /** `.sort()` on a list of strings (insertion sort standing in for the
      library sort; `SortIsTheSort` shows every correct sort agrees). */
  function Sort(s: seq<string>): (r: seq<string>)
    ensures multiset(r) == multiset(s)
  {
    if s == [] then []
    else
      assert s == [s[0]] + s[1..];
      Insert(s[0], Sort(s[1..]))
  }

  lemma {:induction false} SortSorted(s: seq<string>)
    ensures Sorted(Sort(s))
  {
    if s != [] {
      SortSorted(s[1..]);
      InsertSorted(s[0], Sort(s[1..]));
    }
  }

  lemma {:induction false} BelowReflexive(a: string)
    ensures Below(a, a)
  {
    if a != [] {
      BelowReflexive(a[1..]);
    }
  }

  /** The first element of a sorted list is below every element. */
  lemma HeadIsLeast(s: seq<string>, x: string)
    requires Sorted(s) && x in s
    ensures Below(s[0], x)
  {
    var j :| 0 <= j < |s| && s[j] == x;
    if j == 0 {
      BelowReflexive(x);
    }
  }

  lemma SortedTail(s: seq<string>)
    requires Sorted(s) && s != []
    ensures Sorted(s[1..])
  {
    var t := s[1..];
    forall i, j | 0 <= i < j < |t| ensures Below(t[i], t[j]) {
      assert t[i] == s[i + 1] && t[j] == s[j + 1];
    }
  }

  /** Two sorted lists with the same elements start with the same one. */
  lemma SortedSameHead(a: seq<string>, b: seq<string>)
    requires Sorted(a) && Sorted(b) && multiset(a) == multiset(b) && a != []
    ensures b != [] && a[0] == b[0]
  {
    assert a[0] in multiset(b);
    assert b[0] in multiset(a);
    HeadIsLeast(a, b[0]);
    HeadIsLeast(b, a[0]);
    BelowAntisymmetric(a[0], b[0]);
  }

  lemma SameTail(a: seq<string>, b: seq<string>)
    requires a != [] && b != [] && a[0] == b[0] && multiset(a) == multiset(b)
    ensures multiset(a[1..]) == multiset(b[1..])
  {
    assert a == [a[0]] + a[1..] && b == [b[0]] + b[1..];
    assert multiset(a[1..]) == multiset(a) - multiset{a[0]};
    assert multiset(b[1..]) == multiset(b) - multiset{b[0]};
  }

  /** Two sorted lists with the same elements are the same list: a list has
      exactly one sorted arrangement. */
  lemma {:induction false} SortedEqual(a: seq<string>, b: seq<string>)
    requires Sorted(a) && Sorted(b) && multiset(a) == multiset(b)
    ensures a == b
    decreases |a|
  {
    if a != [] {
      SortedSameHead(a, b);
      SameTail(a, b);
      SortedTail(a);
      SortedTail(b);
      SortedEqual(a[1..], b[1..]);
      assert a == [a[0]] + a[1..] && b == [b[0]] + b[1..];
    }
  }

  /** Any sorted rearrangement of `s` is `Sort(s)`, so the library sort and
      this insertion sort agree on every list. */
  lemma SortIsTheSort(s: seq<string>, r: seq<string>)
    requires Sorted(r) && multiset(r) == multiset(s)
    ensures r == Sort(s)
  {
    SortSorted(s);
    SortedEqual(r, Sort(s));
  }

  /** `unique(list).sort()`: what the selectors show. */
  function SortedUnique(s: seq<string>): (r: seq<string>)
  {
    Sort(Unique(s))
  }

  lemma SortedUniqueSpec(s: seq<string>)
    ensures Sorted(SortedUnique(s)) && Distinct(SortedUnique(s))
    ensures forall x :: x in SortedUnique(s) <==> x in s
  {
    UniqueSpec(s);
    SortSorted(Unique(s));
    DistinctSubMultiset(Sort(Unique(s)), Unique(s));
    forall x ensures x in SortedUnique(s) <==> x in Unique(s) {
      assert x in SortedUnique(s) <==> x in multiset(SortedUnique(s));
    }
  }

  /** `unique(DB.map(c => c.region)).sort()`: the region selector. */
  function Regions(db: seq<Country>): (r: seq<string>)
  {
    SortedUnique(Project(db, Region))
  }

  lemma RegionsSpec(db: seq<Country>)
    ensures Sorted(Regions(db)) && Distinct(Regions(db))
    ensures forall x :: x in Regions(db) <==> exists c :: c in db && c.region == x
  {
    SortedUniqueSpec(Project(db, Region));
    forall x ensures x in Project(db, Region) <==> exists c :: c in db && c.region == x {
      if exists c :: c in db && c.region == x {
        var c :| c in db && c.region == x;
        var i :| 0 <= i < |db| && db[i] == c;
        assert Project(db, Region)[i] == x;
      }
    }
  }

  /** `unique(DB.filter(c => c.region === region).map(c => c.subregion)).sort()`:
      the subregion selector for one region. */
  function Subregions(db: seq<Country>, region: string): (r: seq<string>)
  {
    SortedUnique(Project(InRegion(db, region), Subregion))
  }

  lemma SubregionsSpec(db: seq<Country>, region: string)
    ensures Sorted(Subregions(db, region)) && Distinct(Subregions(db, region))
    ensures forall x :: x in Subregions(db, region) <==>
      exists c :: c in db && c.region == region && c.subregion == x
  {
    var inRegion := InRegion(db, region);
    SortedUniqueSpec(Project(inRegion, Subregion));
    forall x ensures x in Project(inRegion, Subregion) <==>
      exists c :: c in db && c.region == region && c.subregion == x
    {
      if exists c :: c in db && c.region == region && c.subregion == x {
        var c :| c in db && c.region == region && c.subregion == x;
        assert c in inRegion;
        var i :| 0 <= i < |inRegion| && inRegion[i] == c;
        assert Project(inRegion, Subregion)[i] == x;
      }
    }
  }
}
