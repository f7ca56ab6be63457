/**
 * Selection state of the success-rate chart (src/successRate.js): a plain
 * set of active institutions toggled by their selectors, and hover
 * highlighting that never undoes a selection.
 */
module SuccessRate {
  import opened JsArrays
  import opened ToggleSets

  /** The default institutions among `keys`. */
  function DefaultSet(keys: seq<string>, defaults: seq<string>): (r: set<string>)
    ensures forall k :: k in r <==> k in keys && k in defaults
  {
    set k | k in keys && k in defaults
  }

  class SuccessChart {
    /** The keys of `groups`. */
    var groups: set<string>
    /** `activeGroups` */
    var active: set<string>
    /** Institutions whose selector badge is dark. */
    var dark: set<string>
    /** Institutions whose dots are displayed. */
    var dotsShown: set<string>
    /** Institutions whose line is displayed. */
    var lineShown: set<string>

    ghost predicate Valid()
      reads this
    {
      active <= groups && dark == active && active <= dotsShown && active <= lineShown
    }

    /**
     * Creates a group per institution in chart order and toggles the default
     * institutions on (src/successRate.js:68-73).
     */
    constructor (keys: seq<string>, defaults: seq<string>)
      requires Distinct(keys)
      ensures Valid()
      ensures forall k :: k in groups <==> k in keys
      ensures active == DefaultSet(keys, defaults)
      ensures dark == active && dotsShown == active && lineShown == active
    {
      groups := {};
      active := {};
      dark := {};
      dotsShown := {};
      lineShown := {};
      new;
      for i := 0 to |keys|
        invariant Valid()
        invariant forall k :: k in groups <==> k in keys[..i]
        invariant active == DefaultSet(keys[..i], defaults)
        invariant dotsShown == active && lineShown == active
      {
        var key := keys[i];
        assert keys[..i + 1] == keys[..i] + [key];
        assert key !in keys[..i] by {
          forall j | 0 <= j < i
            ensures keys[..i][j] != key
          {
          }
        }
        groups := groups + {key};
        if key in defaults {
          ToggleGroup(key);
        }
      }
      assert keys[..|keys|] == keys;
    }

    /** Hover or selection: shows the line and dots; darkens the badge only of a selected key. */
    method ActivateGroup(key: string)
      requires key in groups
      modifies this
      ensures dark == (if key in active then old(dark) + {key} else old(dark))
      ensures dotsShown == old(dotsShown) + {key} && lineShown == old(lineShown) + {key}
      ensures groups == old(groups) && active == old(active)
    {
      if key in active {
        dark := dark + {key};
      }
      lineShown := lineShown + {key};
      dotsShown := dotsShown + {key};
    }

    /** Hover-out or deselection: a no-op for selected keys; otherwise clears the badge and dots and, if `hideLine` is set, the line. */
    method DeactivateGroup(key: string, hideLine: bool)
      requires key in groups
      modifies this
      ensures key in old(active) ==>
        dark == old(dark) && dotsShown == old(dotsShown) && lineShown == old(lineShown)
      ensures key !in old(active) ==>
        dark == old(dark) - {key} && dotsShown == old(dotsShown) - {key} &&
        lineShown == (if hideLine then old(lineShown) - {key} else old(lineShown))
      ensures groups == old(groups) && active == old(active)
    {
      if key in active {
        return;
      }
      dark := dark - {key};
      dotsShown := dotsShown - {key};
      if hideLine {
        lineShown := lineShown - {key};
      }
    }

    /**
     * `toggleGroup(key)`: src/successRate.js:197-222. Selecting shows the
     * dots, line and badge; deselecting clears the badge and dots but keeps
     * the line until the pointer leaves. A circle click passes the row's
     * name (src/successRate.js:95); for a name without a group, reading its
     * line throws before anything changes.
     */
    method ToggleGroup(key: string)
      requires Valid()
      modifies this
      ensures Valid()
      ensures key in groups ==> active == Flip(old(active), key)
      ensures key in groups && key in old(active) ==>
        dark == old(dark) - {key} && dotsShown == old(dotsShown) - {key} && lineShown == old(lineShown)
      ensures key in groups && key !in old(active) ==>
        dark == old(dark) + {key} && dotsShown == old(dotsShown) + {key} && lineShown == old(lineShown) + {key}
      ensures key !in groups ==>
        active == old(active) && dark == old(dark) && dotsShown == old(dotsShown) && lineShown == old(lineShown)
      ensures groups == old(groups)
    {
      if key !in groups {
        return;
      }
      if key in active {
        active := active - {key};
        DeactivateGroup(key, false);
      } else {
        active := active + {key};
        ActivateGroup(key);
      }
    }

    /** Hovering never changes the selection, and keeps the chart consistent. */
    method Hover(key: string)
      requires Valid() && key in groups
      modifies this
      ensures Valid()
      ensures active == old(active) && groups == old(groups) && dark == old(dark)
      ensures dotsShown == old(dotsShown) + {key} && lineShown == old(lineShown) + {key}
    {
      ActivateGroup(key);
    }

    /** Hover-out of a key, hiding its line unless it is selected. */
    method Unhover(key: string)
      requires Valid() && key in groups
      modifies this
      ensures Valid()
      ensures active == old(active) && groups == old(groups)
      ensures key in active ==>
        dark == old(dark) && dotsShown == old(dotsShown) && lineShown == old(lineShown)
      ensures key !in active ==>
        dark == old(dark) - {key} && dotsShown == old(dotsShown) - {key} && lineShown == old(lineShown) - {key}
      ensures key in active <==> key in lineShown
    {
      DeactivateGroup(key, true);
    }
  }
}
