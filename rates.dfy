/**
 * Selection state of the rate chart (src/rates.js): at most two
 * institutions are active at a time, kept in insertion order; activating a
 * third evicts the oldest.  Activation darkens the institution's selector
 * badge and lazily creates its circles; deactivation reads those circles,
 * so it must only reach institutions activated before.
 */
module Rates {
  import opened JsNumbers
  import opened JsArrays
  import opened Rows
  import opened Groups

  /** A rate view of the category selector: `d[divident] / d[divisor]`, as a percentage. */
  datatype RateView = RateView(name: string, dividend: Measure, divisor: Measure)

  /** The active keys, in insertion order, after `toggleGroup(key)` (src/rates.js:207-221). */
  function Toggled(active: seq<string>, key: string): (r: seq<string>)
    ensures key in r <==> key !in active
    ensures forall k :: k in r && k != key ==> k in active
  {
    if key in active then Remove(active, key)
    else if |active + [key]| >= 3 then
      assert (active + [key])[1..][|active| - 1] == key;
      (active + [key])[1..]
    else active + [key]
  }

  /** The last two elements of `s`: what a capacity-2 oldest-first eviction keeps. */
  function LastTwo(s: seq<string>): seq<string> {
    if |s| <= 2 then s else s[|s| - 2..]
  }

  /** The keys of `keys` that are default institutions, in order. */
  function Defaulted(keys: seq<string>, defaults: seq<string>): (r: seq<string>)
    ensures forall x :: x in r <==> x in keys && x in defaults
  {
    if keys == [] then []
    else
      var init, last := keys[..|keys| - 1], keys[|keys| - 1];
      assert forall x :: x in keys <==> x in init || x == last;
      Defaulted(init, defaults) + if last in defaults then [last] else []
  }

  /** One step of the constructor loop: the next key is new, and toggling it on when it is a default extends the selection. */
  lemma SelectionStep(keys: seq<string>, defaults: seq<string>, i: int)
    requires Distinct(keys) && 0 <= i < |keys|
    ensures keys[i] !in keys[..i]
    ensures forall k :: k in keys[..i + 1] <==> k in keys[..i] || k == keys[i]
    ensures Defaulted(keys[..i + 1], defaults) ==
      Defaulted(keys[..i], defaults) + if keys[i] in defaults then [keys[i]] else []
    ensures Selection(Defaulted(keys[..i + 1], defaults)) ==
      if keys[i] in defaults then Toggled(Selection(Defaulted(keys[..i], defaults)), keys[i])
      else Selection(Defaulted(keys[..i], defaults))
  {
    var key := keys[i];
    assert keys[..i + 1] == keys[..i] + [key];
    assert keys[..i + 1][..i] == keys[..i];
    forall j | 0 <= j < i
      ensures keys[..i][j] != key
    {
    }
    if key in defaults {
      assert Defaulted(keys[..i + 1], defaults) == Defaulted(keys[..i], defaults) + [key];
      var ds := Defaulted(keys[..i + 1], defaults);
      assert ds[..|ds| - 1] == Defaulted(keys[..i], defaults);
    } else {
      assert Defaulted(keys[..i + 1], defaults) == Defaulted(keys[..i], defaults);
    }
  }

  /** Taking the defaults commutes with concatenation, so it keeps group order and multiplicity. */
  lemma {:induction false} DefaultedAppend(a: seq<string>, b: seq<string>, defaults: seq<string>)
    ensures Defaulted(a + b, defaults) == Defaulted(a, defaults) + Defaulted(b, defaults)
  {
    if b == [] {
      assert a + b == a;
    } else {
      var init, last := b[..|b| - 1], b[|b| - 1];
      assert (a + b)[..|a + b| - 1] == a + init;
      DefaultedAppend(a, init, defaults);
    }
  }

  /** The active keys after toggling each of `keys` in turn, starting from none. */
  function Selection(keys: seq<string>): seq<string> {
    if keys == [] then [] else Toggled(Selection(keys[..|keys| - 1]), keys[|keys| - 1])
  }

  /** Toggling an active key removes exactly that key and keeps the others in order. */
  lemma ToggleOff(active: seq<string>, i: int)
    requires Distinct(active) && 0 <= i < |active|
    ensures Toggled(active, active[i]) == active[..i] + active[i + 1..]
  {
    RemoveAt(active, i);
  }

  /**
   * Toggling an inactive key appends it; when that makes three, the oldest
   * key, which is not the one just added, is evicted.
   */
  lemma ToggleOn(active: seq<string>, key: string)
    requires key !in active && |active| <= 2
    ensures |active| < 2 ==> Toggled(active, key) == active + [key]
    ensures |active| == 2 ==> Toggled(active, key) == [active[1], key] && active[0] != key
  {
  }

  /** The selection never holds a key twice nor more than two keys. */
  lemma ToggleCapacity(active: seq<string>, key: string)
    requires Distinct(active) && |active| <= 2
    ensures Distinct(Toggled(active, key)) && |Toggled(active, key)| <= 2
  {
    if key in active {
      var i :| 0 <= i < |active| && active[i] == key;
      RemoveAt(active, i);
    }
  }

  /** One toggle changes the membership of the toggled key and at most one evicted key. */
  lemma ToggleChangesAtMostTwo(active: seq<string>, key: string, k: string)
    requires Distinct(active) && |active| <= 2
    requires k != key && (k in active <==> k !in Toggled(active, key))
    ensures key !in active && |active| == 2 && k == active[0]
  {
    assert key in active ==> (k in Toggled(active, key) <==> k in active);
  }

  /** The last of distinct keys is not among the two before it. */
  lemma LastOfDistinct(init: seq<string>, last: string)
    requires Distinct(init + [last])
    ensures last !in LastTwo(init)
  {
    forall j | 0 <= j < |LastTwo(init)|
      ensures LastTwo(init)[j] != last
    {
      var i := if |init| <= 2 then j else |init| - 2 + j;
      assert LastTwo(init)[j] == (init + [last])[i];
      assert (init + [last])[|init|] == last;
    }
  }

  /** Toggling distinct keys, one after the other, keeps the last two of them. */
  lemma {:induction false} SelectionOfDistinct(keys: seq<string>)
    requires Distinct(keys)
    ensures Selection(keys) == LastTwo(keys)
  {
    if keys != [] {
      var init, last := keys[..|keys| - 1], keys[|keys| - 1];
      assert keys == init + [last];
      SelectionOfDistinct(init);
      LastOfDistinct(init, last);
      var t := LastTwo(init);
      assert keys[..|keys| - 1] == init;
      assert Selection(keys) == Toggled(t, last);
      if |init| >= 2 {
        assert Toggled(t, last) == (t + [last])[1..];
        assert (t + [last])[1..] == keys[|keys| - 2..];
      } else {
        assert Toggled(t, last) == t + [last] == keys;
      }
    }
  }

  lemma DefaultedDistinct(keys: seq<string>, defaults: seq<string>)
    requires Distinct(keys)
    ensures Distinct(Defaulted(keys, defaults))
  {
    if keys != [] {
      var init, last := keys[..|keys| - 1], keys[|keys| - 1];
      DefaultedDistinct(init, defaults);
      assert last !in Defaulted(init, defaults);
    }
  }

  /**
   * The initial selection: the last two default institutions in chart order
   * (src/rates.js:136-141 toggles each default in turn).
   */
  lemma InitialSelection(keys: seq<string>, defaults: seq<string>)
    requires Distinct(keys)
    ensures Selection(Defaulted(keys, defaults)) == LastTwo(Defaulted(keys, defaults))
  {
    DefaultedDistinct(keys, defaults);
    SelectionOfDistinct(Defaulted(keys, defaults));
  }

  /** The rate chart's institutions and selection state. */
  class RateChart {
    /** The keys of `groups`: every institution with a selector. */
    var groups: set<string>
    /** `activeGroups`, in insertion order. */
    var active: seq<string>
    /** Institutions whose selector badge is dark. */
    var dark: set<string>
    /** Institutions whose `obj.circles` has been created. */
    var circles: set<string>
    /** The rate views of the category selector. */
    const views: seq<RateView>
    /** The selected rate view. */
    var category: RateView

    ghost predicate Valid()
      reads this
    {
      Distinct(active) && |active| <= 2 &&
      (forall k :: k in active ==> k in circles) &&
      circles <= groups &&
      forall k :: k in dark <==> k in active
    }

    /** `getPercentage(d)`: the rounded percentage of the current view, NaN or infinite on a zero divisor. */
    function Percentage(d: Row): (r: Number)
      reads this
      ensures var part, whole := Value(d, category.dividend), Value(d, category.divisor);
        (whole > 0 ==> r.Int? && 2 * whole * r.value - whole <= 200 * part < 2 * whole * r.value + whole) &&
        (whole == 0 ==> r.NaN? || r.Infinity?)
    {
      RoundedPercent(Value(d, category.dividend), Value(d, category.divisor))
    }

    /**
     * Builds a selector for every institution of the chart data, in order,
     * toggling the default institutions on as it goes (src/rates.js:136-141).
     */
    constructor (keys: seq<string>, defaults: seq<string>, views: seq<RateView>)
      requires Distinct(keys) && views != []
      ensures Valid()
      ensures forall k :: k in groups <==> k in keys
      ensures active == Selection(Defaulted(keys, defaults))
      ensures forall k :: k in circles <==> k in keys && k in defaults
      ensures this.views == views && category == views[0]
    {
      this.views := views;
      groups := {};
      active := [];
      dark := {};
      circles := {};
      category := views[0];
      new;
      for i := 0 to |keys|
        invariant Valid()
        invariant forall k :: k in groups <==> k in keys[..i]
        invariant active == Selection(Defaulted(keys[..i], defaults))
        invariant forall k :: k in circles <==> k in Defaulted(keys[..i], defaults)
        invariant category == views[0]
      {
        var key := keys[i];
        SelectionStep(keys, defaults, i);
        AddGroup(key, key in defaults);
      }
      assert keys[..|keys|] == keys;
    }

    /** One step of the constructor loop: a selector for `key`, toggled on when it is a default. */
    method AddGroup(key: string, isDefault: bool)
      requires Valid() && key !in groups
      modifies this
      ensures Valid()
      ensures groups == old(groups) + {key}
      ensures active == if isDefault then Toggled(old(active), key) else old(active)
      ensures circles == if isDefault then old(circles) + {key} else old(circles)
      ensures category == old(category)
    {
      groups := groups + {key};
      if isDefault {
        ToggleGroup(key);
      }
    }

    /** Darkens the badge and, the first time, creates the institution's circles. */
    method ActivateGroup(key: string)
      requires key in groups
      modifies this
      ensures dark == old(dark) + {key}
      ensures circles == old(circles) + {key}
      ensures groups == old(groups) && active == old(active) && category == old(category)
    {
      dark := dark + {key};
      if key !in circles {
        circles := circles + {key};
      }
    }

    /** Clears the badge and hides the circles, which must exist. */
    method DeactivateGroup(key: string)
      requires key in circles
      modifies this
      ensures dark == old(dark) - {key}
      ensures groups == old(groups) && active == old(active) && circles == old(circles) && category == old(category)
    {
      dark := dark - {key};
    }

    /** `toggleGroup(key)`: src/rates.js:207-221. */
    method ToggleGroup(key: string)
      requires Valid() && key in groups
      modifies this
      ensures Valid()
      ensures active == Toggled(old(active), key)
      ensures circles == if key in old(active) then old(circles) else old(circles) + {key}
      ensures groups == old(groups) && category == old(category)
    {
      ToggleCapacity(active, key);
      if key in active {
        active := Remove(active, key);
        DeactivateGroup(key);
      } else {
        active := active + [key];
        ActivateGroup(key);
        if |active| >= 3 {
          var first := active[0];
          forall k ensures k in active[1..] <==> k in active && k != first {
            if k in active && k != first {
              var j :| 0 <= j < |active| && active[j] == k;
              assert active[1..][j - 1] == k;
            }
          }
          active := active[1..];
          DeactivateGroup(first);
        }
      }
    }

    /** The category selector: `category = rateViews[categoryIndex]`. */
    method SelectCategory(index: int)
      requires 0 <= index < |views|
      modifies this
      ensures category == views[index]
      ensures groups == old(groups) && active == old(active) && dark == old(dark) && circles == old(circles)
    {
      category := views[index];
    }
  }
}
