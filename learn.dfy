/** The flashcards page: a level selected with the region and subregion
    selectors, its countries shuffled into a deck, and a pointer moved by the
    "next" and "previous" buttons, wrapping around at both ends. The shuffle,
    the de-duplication and the selector lists are those of the quiz page. */
module Learn {
  import opened Seqs
  import opened Catalog
  import opened Shuffling

  /** The pointer after "next": `(pointer + 1) % length`, the first card after
      the last. */
  function NextIndex(p: nat, len: nat): (q: nat)
    requires len > 0
    ensures q < len
    ensures p < len ==> q == (if p == len - 1 then 0 else p + 1)
  {
    (p + 1) % len
  }

  /** The pointer after "previous": `(pointer - 1 + length) % length`, the last
      card before the first. With `pointer >= 0` the dividend is never
      negative, so JavaScript's `%` and Dafny's agree. */
  function PrevIndex(p: nat, len: nat): (q: nat)
    requires len > 0
    ensures q < len
    ensures p < len ==> q == (if p == 0 then len - 1 else p - 1)
  {
    (p - 1 + len) % len
  }

  /** "Previous" undoes "next" and "next" undoes "previous". */
  lemma NextPrevInverse(p: nat, len: nat)
    requires p < len
    ensures PrevIndex(NextIndex(p, len), len) == p
    ensures NextIndex(PrevIndex(p, len), len) == p
  {
  }

  /** The pointer after `k` clicks on "next". */
  function Advance(p: nat, k: nat, len: nat): (q: nat)
    requires len > 0
    ensures q < len || (k == 0 && q == p)
  {
    if k == 0 then p else NextIndex(Advance(p, k - 1, len), len)
  }

  lemma MulAtLeast(x: int, y: int)
    requires x >= 1 && y >= 0
    ensures x * y >= y
  {
    assert x * y == (x - 1) * y + y;
  }

  /** The remainder is the unique `r` in `0..len` with `a == q * len + r`. */
  lemma ModOf(a: int, q: int, r: int, len: int)
    requires len > 0 && 0 <= r < len && a == q * len + r
    ensures a % len == r
  {
    var q' := a / len;
    var d := q - q';
    assert d * len == a % len - r by {
      assert a == q' * len + a % len;
      assert q * len - q' * len == d * len;
    }
    if d > 0 {
      MulAtLeast(d, len);
    } else if d < 0 {
      MulAtLeast(-d, len);
    }
  }

  lemma ModSucc(a: nat, len: nat)
    requires len > 0
    ensures (a % len + 1) % len == (a + 1) % len
  {
    var q := a / len;
    var r := a % len;
    if r + 1 == len {
      ModOf(a + 1, q + 1, 0, len);
      ModOf(r + 1, 1, 0, len);
    } else {
      ModOf(a + 1, q, r + 1, len);
      ModOf(r + 1, 0, r + 1, len);
    }
  }

  /** `k` clicks on "next" move the pointer `k` cards on, modulo the deck. */
  lemma {:induction false} AdvanceShifts(p: nat, k: nat, len: nat)
    requires p < len
    ensures Advance(p, k, len) == (p + k) % len
  {
    if k > 0 {
      AdvanceShifts(p, k - 1, len);
      ModSucc(p + k - 1, len);
    }
  }

  /** A full round of "next" clicks comes back to the starting card, and the
      round from the first card shows every card, in deck order. */
  lemma FullRound(p: nat, len: nat)
    requires p < len
    ensures Advance(p, len, len) == p
    ensures forall j :: 0 <= j < len ==> Advance(0, j, len) == j
  {
    AdvanceShifts(p, len, len);
    ModOf(p + len, 1, p, len);
    forall j | 0 <= j < len ensures Advance(0, j, len) == j {
      AdvanceShifts(0, j, len);
      ModOf(j, 0, j, len);
    }
  }

  /** What `renderCurrent` shows: the "no countries" screen with both buttons
      disabled and progress "0/0", or one card with its 1-based position. */
  datatype Screen = NoCountries | Card(country: Country, position: nat, total: nat)

  /** Whether "previous" and "next" are enabled: exactly when a card is shown. */
  function ButtonsEnabled(v: Screen): bool
  {
    v.Card?
  }

  /** `renderCurrent` on a pool and a pointer: the card at `pointer % length`,
      its progress `(pointer % length) + 1` of `length`. */
  function Render(pool: seq<Country>, pointer: nat): (v: Screen)
    ensures v.NoCountries? <==> pool == []
    ensures ButtonsEnabled(v) <==> pool != []
    ensures v.Card? ==> (1 <= v.position <= v.total == |pool|
                         && v.country == pool[v.position - 1])
  {
    if pool == [] then NoCountries
    else Card(pool[pointer % |pool|], pointer % |pool| + 1, |pool|)
  }

  /** After `k` clicks on "next" from a freshly refreshed pool the page shows
      card `k mod length`, numbered one more. */
  lemma ShownAfterClicks(pool: seq<Country>, k: nat)
    requires pool != []
    ensures Render(pool, Advance(0, k, |pool|)) == Card(pool[k % |pool|], k % |pool| + 1, |pool|)
  {
    var len := |pool|;
    var j := k % len;
    AdvanceShifts(0, k, len);
    assert Advance(0, k, len) == j;
    ModOf(j, 0, j, len);
  }

  /** The first value of a freshly filled selector, or "" when it has no options. */
  function FirstOr(options: seq<string>): (v: string)
  {
    if options == [] then "" else options[0]
  }

  /** The page's state: the catalogue, the two selectors' values, the
      subregion selector's options, the shuffled deck and the pointer. */
  class Flashcards {
    const db: seq<Country>
    var region: string
    var subregion: string
    var subregionOptions: seq<string>
    var currentPool: seq<Country>
    var pointer: nat

    /** The pointer is on a card, or at 0 when the deck is empty. */
    ghost predicate Valid()
      reads this
    {
      pointer == 0 || pointer < |currentPool|
    }

    constructor (db: seq<Country>)
      ensures Valid()
      ensures this.db == db && currentPool == [] && pointer == 0
      ensures region == "" && subregion == "" && subregionOptions == []
    {
      this.db := db;
      region, subregion, subregionOptions := "", "", [];
      currentPool, pointer := [], 0;
    }

    /** `refreshPool`: the deck becomes a shuffle of the countries of the
        selected region and subregion, and the pointer goes back to the
        first card. */
    method RefreshPool()
      modifies this`currentPool, this`pointer
      ensures Valid()
      ensures pointer == 0
      ensures multiset(currentPool) == multiset(Level(db, region, subregion))
      ensures forall c :: c in currentPool <==> c in db && c.region == region && c.subregion == subregion
    {
      var level := Level(db, region, subregion);
      currentPool := Shuffle(level);
      pointer := 0;
      forall c ensures c in currentPool <==> c in level {
        assert c in currentPool <==> c in multiset(currentPool);
      }
    }

    /** `populateSubregions(region)`: fills the subregion selector with the
        sorted, distinct subregions of `region`, selects the first one (none
        when there are none) and refreshes the deck. The deck is read from the
        region selector's value, which the region change handler has just set
        to `region`. */
    method PopulateSubregions(r: string)
      modifies this`subregionOptions, this`subregion, this`currentPool, this`pointer
      ensures Valid()
      ensures subregionOptions == Subregions(db, r)
      ensures subregion == FirstOr(subregionOptions)
      ensures pointer == 0
      ensures multiset(currentPool) == multiset(Level(db, region, subregion))
    {
      subregionOptions := Subregions(db, r);
      subregion := FirstOr(subregionOptions);
      RefreshPool();
    }

    /** The region selector's change handler: select `r`, then repopulate. */
    method ChooseRegion(r: string)
      modifies this`region, this`subregionOptions, this`subregion, this`currentPool, this`pointer
      ensures Valid()
      ensures region == r && subregionOptions == Subregions(db, r)
      ensures subregion == FirstOr(subregionOptions)
      ensures pointer == 0
      ensures multiset(currentPool) == multiset(Level(db, r, subregion))
    {
      region := r;
      PopulateSubregions(r);
    }

    /** The subregion selector's change handler: select `s`, then refresh. */
    method ChooseSubregion(s: string)
      modifies this`subregion, this`currentPool, this`pointer
      ensures Valid()
      ensures subregion == s && pointer == 0
      ensures multiset(currentPool) == multiset(Level(db, region, s))
    {
      subregion := s;
      RefreshPool();
    }

    /** The "next" button: ignored on an empty deck, otherwise one card on,
        from the last back to the first. */
    method Next()
      requires Valid()
      modifies this`pointer
      ensures Valid()
      ensures currentPool == [] ==> pointer == old(pointer)
      ensures currentPool != [] ==> pointer == NextIndex(old(pointer), |currentPool|)
    {
      if |currentPool| == 0 {
        return;
      }
      pointer := NextIndex(pointer, |currentPool|);
    }

    /** The "previous" button: ignored on an empty deck, otherwise one card
        back, from the first round to the last. */
    method Prev()
      requires Valid()
      modifies this`pointer
      ensures Valid()
      ensures currentPool == [] ==> pointer == old(pointer)
      ensures currentPool != [] ==> pointer == PrevIndex(old(pointer), |currentPool|)
    {
      if |currentPool| == 0 {
        return;
      }
      pointer := PrevIndex(pointer, |currentPool|);
    }

    /** What the page currently shows. On a valid state the card shown is the
        one the pointer is on. */
    function View(): (v: Screen)
      requires Valid()
      reads this
      ensures v.NoCountries? <==> currentPool == []
      ensures v.Card? ==> v.country == currentPool[pointer] && v.position == pointer + 1
    {
      Render(currentPool, pointer)
    }
  }
}
