/**
 * The weekday catalogue of the tour decorator: a Hash from the seven
 * weekday names to their zero-based ordinals (sunday 0 ... saturday 6),
 * built once per decorator and kept in its `@week_days_by_name` field.
 */
module TourDecorators {
  import opened RubyHash

  /** The weekday symbols in the order the decorator lists them. */
  const WEEK_DAY_NAMES: seq<Symbol> :=
    ["sunday", "monday", "tuesday", "wednesday", "thursday", "friday", "saturday"]

  /** `map.with_index(from) { |x, index| [x, index] }`: each element paired with its position, counted from `from`. */
  function WithIndex<T>(s: seq<T>, from: int): (r: seq<(T, int)>)
    ensures |r| == |s|
    ensures forall i :: 0 <= i < |s| ==> r[i] == (s[i], from + i)
  {
    if s == [] then [] else [(s[0], from)] + WithIndex(s[1..], from + 1)
  }

  /** The Hash `week_days_by_name` builds: the names paired with their indices, turned into a Hash. */
  function WeekDaysHash(): (h: Hash<Symbol, int>)
    ensures Distinct(Keys(h))
    ensures forall name :: name in Keys(h) <==> name in WEEK_DAY_NAMES
  {
    var pairs := WithIndex(WEEK_DAY_NAMES, 0);
    assert Keys(pairs) == WEEK_DAY_NAMES;
    assert forall name :: name in Keys(ToH(pairs)) <==> name in WEEK_DAY_NAMES by {
      forall name ensures name in Keys(ToH(pairs)) <==> name in WEEK_DAY_NAMES {
        ToHKeySet(pairs, name);
      }
    }
    ToH(pairs)
  }

  /** The seven names are pairwise different. */
  lemma WeekDayNamesDistinct()
    ensures Distinct(WEEK_DAY_NAMES)
  {
  }

  /** Since the names are distinct, `to_h` keeps all seven pairs in order: entry i is (name i, i). */
  lemma WeekDaysHashEntries()
    ensures |WeekDaysHash()| == 7
    ensures forall i :: 0 <= i < 7 ==> WeekDaysHash()[i] == (WEEK_DAY_NAMES[i], i)
  {
    var pairs := WithIndex(WEEK_DAY_NAMES, 0);
    WeekDayNamesDistinct();
    assert Keys(pairs) == WEEK_DAY_NAMES;
    ToHOfDistinctKeys(pairs);
  }

  /** The keys of the catalogue are the seven names, sunday first. */
  lemma WeekDaysKeys()
    ensures Keys(WeekDaysHash()) == WEEK_DAY_NAMES
  {
    var h := WeekDaysHash();
    WeekDaysHashEntries();
    var ks := Keys(h);
    forall i | 0 <= i < 7 ensures ks[i] == WEEK_DAY_NAMES[i] {
      assert h[i] == (WEEK_DAY_NAMES[i], i);
    }
  }

  /**
   * Since the keys are sunday ... saturday in that order, each name has the
   * same index among the keys as in the week, and that index is its position.
   */
  lemma WeekDaysKeyOrder(name: Symbol)
    ensures IndexOf(Keys(WeekDaysHash()), name) == IndexOf(WEEK_DAY_NAMES, name)
    ensures forall i :: 0 <= i < 7 ==> IndexOf(Keys(WeekDaysHash()), WEEK_DAY_NAMES[i]) == Some(i)
    ensures IndexOf(Keys(WeekDaysHash()), "sunday") == Some(0)
  {
    WeekDaysKeys();
    WeekDayNamesDistinct();
    forall i | 0 <= i < 7 ensures IndexOf(WEEK_DAY_NAMES, WEEK_DAY_NAMES[i]) == Some(i) {
      IndexOfDistinct(WEEK_DAY_NAMES, i);
    }
    assert WEEK_DAY_NAMES[0] == "sunday";
  }

  /** Each weekday name maps to its zero-based position; any other symbol maps to nil. */
  lemma WeekDayOrdinals(name: Symbol)
    ensures forall i :: 0 <= i < 7 ==> Get(WeekDaysHash(), WEEK_DAY_NAMES[i]) == Some(i)
    ensures name !in WEEK_DAY_NAMES ==> Get(WeekDaysHash(), name) == None
  {
    var h := WeekDaysHash();
    WeekDaysHashEntries();
    WeekDaysKeys();
    WeekDayNamesDistinct();
    forall i | 0 <= i < 7 ensures Get(h, WEEK_DAY_NAMES[i]) == Some(i) {
      GetOfDistinctKeys(h, i);
    }
  }

  /** The values are 0 ... 6, each once, so a value is present exactly when it is in 0..6. */
  lemma WeekDayValues(v: int)
    ensures Values(WeekDaysHash()) == [0, 1, 2, 3, 4, 5, 6]
    ensures Distinct(Values(WeekDaysHash()))
    ensures v in Values(WeekDaysHash()) <==> 0 <= v <= 6
  {
    var h := WeekDaysHash();
    WeekDaysHashEntries();
    var vs := Values(h);
    forall i | 0 <= i < 7 ensures vs[i] == i {
      assert h[i] == (WEEK_DAY_NAMES[i], i);
    }
    assert vs == [0, 1, 2, 3, 4, 5, 6];
    if v in vs {
      var i :| 0 <= i < 7 && vs[i] == v;
    }
    if 0 <= v <= 6 {
      assert vs[v] == v;
    }
  }

  /** `key` of ordinal v is the v-th weekday, and no other value has a key. */
  lemma WeekDayOfOrdinal(v: int)
    ensures 0 <= v <= 6 ==> Key(WeekDaysHash(), v) == Some(WEEK_DAY_NAMES[v])
    ensures !(0 <= v <= 6) ==> Key(WeekDaysHash(), v) == None
  {
    var h := WeekDaysHash();
    WeekDayValues(v);
    if 0 <= v <= 6 {
      WeekDaysHashEntries();
      KeyOfDistinctValues(h, v);
      assert h[v] == (WEEK_DAY_NAMES[v], v);
    }
  }

  /** No two symbols share an ordinal, so names and ordinals are in bijection. */
  lemma WeekDayOrdinalsInjective(a: Symbol, b: Symbol)
    ensures Get(WeekDaysHash(), a).Some? && Get(WeekDaysHash(), a) == Get(WeekDaysHash(), b) ==> a == b
  {
    var h := WeekDaysHash();
    if Get(h, a).Some? && Get(h, a) == Get(h, b) {
      WeekDaysHashEntries();
      var i := Get(h, a).value;
      assert (a, i) in h && (b, i) in h;
    }
  }

  /** The decorator around a tour; only its weekday catalogue is modelled. */
  class TourDecorator {
    /** `@week_days_by_name`: nil until `week_days_by_name` first runs. */
    var weekDaysByName: Option<Hash<Symbol, int>>

    /** The memo is nil or holds the catalogue. */
    ghost predicate Valid()
      reads this
    {
      weekDaysByName == None || weekDaysByName == Some(WeekDaysHash())
    }

    /** A new decorator has not built the catalogue yet. */
    constructor ()
      ensures Valid() && weekDaysByName == None
    {
      weekDaysByName := None;
    }

    /**
     * `week_days_by_name`: `@week_days_by_name ||= ...`. The first call builds
     * the Hash and stores it; a later call returns the stored Hash unchanged.
     */
    method WeekDaysByName() returns (h: Hash<Symbol, int>)
      modifies this
      ensures old(weekDaysByName) == None ==> h == WeekDaysHash()
      ensures old(weekDaysByName) != None ==> h == old(weekDaysByName).value
      ensures weekDaysByName == Some(h)
      ensures old(Valid()) ==> Valid() && h == WeekDaysHash()
    {
      if weekDaysByName == None {
        weekDaysByName := Some(WeekDaysHash());
      }
      h := weekDaysByName.value;
    }
  }

  /** Two calls on the same decorator return equal Hashes, whatever the memo held before. */
  method RepeatedCalls(d: TourDecorator) returns (first: Hash<Symbol, int>, second: Hash<Symbol, int>)
    modifies d
    ensures first == second
    ensures old(d.Valid()) ==> first == WeekDaysHash()
  {
    first := d.WeekDaysByName();
    second := d.WeekDaysByName();
  }
}
