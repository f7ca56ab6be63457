/**
 * The main success-rate chart (src/main.js): one group per label built from
 * the loaded rows, and a toggle set of selected institutions whose groups
 * carry an `isActive` flag that hovering also raises.
 */
module MainChart {
  import opened Wrappers
  import opened JsNumbers
  import opened JsArrays
  import opened JsObjects
  import opened Rows
  import opened ToggleSets

  /** What `makeGroup` keeps of a group: its rows and the label position, the y position of its last bubble. */
  datatype Group = Group(rows: seq<Row>, labelPos: Number)

  datatype GroupError = EmptyGroup(key: string)

  /** `makeGroup(key, rows)`; reading `transparency` of the missing last bubble of an empty group throws. */
  function MakeGroup(key: string, rows: seq<Row>, y: Number -> Number): Result<Group, GroupError> {
    if rows == [] then Failure(EmptyGroup(key))
    else Success(Group(rows, y(rows[|rows| - 1].transparency)))
  }

  /** The index of the first label from `start` on that has no rows, if any. */
  function FirstEmptyFrom(labels: seq<string>, data: seq<Row>, start: nat): (r: Option<nat>)
    requires start <= |labels|
    ensures r.None? <==> forall i :: start <= i < |labels| ==> WithName(data, labels[i]) != []
    ensures r.Some? ==>
      start <= r.value < |labels| && WithName(data, labels[r.value]) == [] &&
      forall i :: start <= i < r.value ==> WithName(data, labels[i]) != []
    decreases |labels| - start
  {
    if start == |labels| then None
    else if WithName(data, labels[start]) == [] then Some(start)
    else FirstEmptyFrom(labels, data, start + 1)
  }

  /** The index of the first label that has no rows, if any. */
  function FirstEmpty(labels: seq<string>, data: seq<Row>): Option<nat> {
    FirstEmptyFrom(labels, data, 0)
  }

  /**
   * The group-building loop as written (src/main.js:195-200): the first label
   * whose filtered rows are empty aborts it with an error.
   */
  method MakeGroups(labels: seq<string>, data: seq<Row>, y: Number -> Number)
    returns (r: Result<JsObject<string, Group>, GroupError>)
    requires Distinct(labels)
    ensures r.Failure? <==> FirstEmpty(labels, data).Some?
    ensures r.Failure? ==> r.error == EmptyGroup(labels[FirstEmpty(labels, data).value])
    ensures r.Success? ==> Keys(r.value) == labels
    ensures r.Success? ==> forall i :: 0 <= i < |labels| ==>
      r.value[i].1.rows == WithName(data, labels[i]) && r.value[i].1.rows != []
  {
    var groups: JsObject<string, Group> := [];
    for i := 0 to |labels|
      invariant |groups| == i
      invariant forall j :: 0 <= j < i ==> groups[j].0 == labels[j]
      invariant forall j :: 0 <= j < i ==>
        groups[j].1.rows == WithName(data, labels[j]) && groups[j].1.rows != []
    {
      var key := labels[i];
      var g := MakeGroup(key, WithName(data, key), y);
      if g.Failure? {
        return Failure(g.error);
      }
      Absent(groups, key);
      PutKeys(groups, key, g.value);
      groups := Put(groups, key, g.value);
    }
    return Success(groups);
  }

  /** A label such as the synthetic average, which names no loaded row, makes the loop fail. */
  lemma UnmatchedLabelFails(labels: seq<string>, data: seq<Row>, key: string)
    requires key in labels && forall r :: r in data ==> r.name != key
    ensures FirstEmpty(labels, data).Some?
  {
    var i :| 0 <= i < |labels| && labels[i] == key;
    NoRowsNamed(data, key);
  }

  /** The labels that have at least one row, in label order. */
  function LabelsWithRows(labels: seq<string>, data: seq<Row>): (r: seq<string>)
    ensures forall k :: k in r <==> k in labels && WithName(data, k) != []
  {
    if labels == [] then []
    else
      var init, last := labels[..|labels| - 1], labels[|labels| - 1];
      assert labels == init + [last];
      LabelsWithRows(init, data) + if WithName(data, last) == [] then [] else [last]
  }

  lemma LabelsWithRowsSnoc(labels: seq<string>, data: seq<Row>, i: nat)
    requires i < |labels|
    ensures LabelsWithRows(labels[..i + 1], data) ==
      LabelsWithRows(labels[..i], data) + if WithName(data, labels[i]) == [] then [] else [labels[i]]
  {
    assert labels[..i + 1][..i] == labels[..i];
  }

  /** Groups built for the labels before `i` do not hold label `i`. */
  lemma FreshLabel<V>(groups: JsObject<string, V>, labels: seq<string>, data: seq<Row>, i: nat)
    requires Distinct(labels) && i < |labels|
    requires Keys(groups) == LabelsWithRows(labels[..i], data)
    ensures Get(groups, labels[i]).None?
  {
    forall j | 0 <= j < |groups|
      ensures groups[j].0 != labels[i]
    {
      assert groups[j].0 == Keys(groups)[j];
      assert groups[j].0 in labels[..i];
    }
    Absent(groups, labels[i]);
  }

  /**
   * The group-building loop with labels that have no rows skipped: it always
   * succeeds, and every group it builds has a last bubble.
   */
  method MakeNonEmptyGroups(labels: seq<string>, data: seq<Row>, y: Number -> Number)
    returns (groups: JsObject<string, Group>)
    requires Distinct(labels)
    ensures Keys(groups) == LabelsWithRows(labels, data)
    ensures UniqueKeys(groups)
    ensures forall i :: 0 <= i < |groups| ==>
      groups[i].1.rows == WithName(data, groups[i].0) && groups[i].1.rows != []
  {
    groups := [];
    for i := 0 to |labels|
      invariant Keys(groups) == LabelsWithRows(labels[..i], data)
      invariant UniqueKeys(groups)
      invariant forall j :: 0 <= j < |groups| ==>
        groups[j].1.rows == WithName(data, groups[j].0) && groups[j].1.rows != []
    {
      var key := labels[i];
      LabelsWithRowsSnoc(labels, data, i);
      var g := MakeGroup(key, WithName(data, key), y);
      if g.Success? {
        FreshLabel(groups, labels, data, i);
        PutKeys(groups, key, g.value);
        KeysSnoc(groups, key, g.value);
        ghost var next := groups + [(key, g.value)];
        assert next[|groups|].1.rows == WithName(data, next[|groups|].0);
        groups := Put(groups, key, g.value);
        assert groups == next;
      }
    }
    assert labels[..|labels|] == labels;
  }

  class MainChart {
    /** The keys of `groups`, in label order. */
    const keys: seq<string>
    /** `groups[key].isActive` */
    var isActive: map<string, bool>
    /** `activeGroups` */
    var active: set<string>
    /** Groups whose line is displayed and whose bubbles carry the `active` class. */
    var shown: set<string>

    /** The groups whose `isActive` flag is set. */
    ghost function Flagged(): set<string>
      reads this
    {
      set k | k in isActive && isActive[k]
    }

    /**
     * Every selected group is flagged. A circle click can also select a row
     * name without a group; such a name carries no flag.
     */
    ghost predicate Valid()
      reads this
    {
      (forall k :: k in isActive <==> k in keys) &&
      (forall k :: k in active && k in isActive ==> isActive[k]) &&
      Flagged() <= shown &&
      (forall k :: k in shown ==> k in isActive)
    }

    /** The state after the groups are built: no flag set, nothing selected or shown. */
    constructor (groups: JsObject<string, Group>)
      requires UniqueKeys(groups)
      ensures Valid()
      ensures keys == Keys(groups)
      ensures active == {} && shown == {}
      ensures forall k :: k in isActive ==> !isActive[k]
    {
      keys := Keys(groups);
      isActive := map k | k in Keys(groups) :: false;
      active := {};
      shown := {};
    }

    /** `activateGroup(key)`: src/main.js:55-65. */
    method ActivateGroup(key: string)
      requires key in isActive
      modifies this
      ensures isActive == old(isActive)[key := true]
      ensures shown == old(shown) + {key}
      ensures active == old(active)
    {
      isActive := isActive[key := true];
      shown := shown + {key};
    }

    /** `refreshAllActiveGroups()`: re-activates every flagged group, which a valid chart already shows. */
    method RefreshAllActiveGroups()
      requires Valid()
      modifies this
      ensures Valid()
      ensures isActive == old(isActive) && shown == old(shown) && active == old(active)
    {
      for i := 0 to |keys|
        invariant Valid()
        invariant isActive == old(isActive) && shown == old(shown) && active == old(active)
      {
        var key := keys[i];
        if isActive[key] {
          ActivateGroup(key);
          assert isActive == old(isActive);
        }
      }
    }

    /** `deactivateGroup(key)`: does nothing to a selected key; otherwise clears its flag and hides it. */
    method DeactivateGroup(key: string)
      requires Valid() && key in isActive
      modifies this
      ensures Valid()
      ensures key in old(active) ==> isActive == old(isActive) && shown == old(shown)
      ensures key !in old(active) ==>
        isActive == old(isActive)[key := false] && shown == old(shown) - {key}
      ensures active == old(active)
    {
      if key in active {
        return;
      }
      isActive := isActive[key := false];
      shown := shown - {key};
      RefreshAllActiveGroups();
    }

    /**
     * `toggleGroup(key)`: flips the selection of `key` and shows exactly the
     * selected state. A circle click passes the row's name (src/main.js:191);
     * for a name without a group the selection still flips, and then reading
     * its missing group throws before anything else changes.
     */
    method ToggleGroup(key: string)
      requires Valid()
      modifies this
      ensures Valid()
      ensures active == Flip(old(active), key)
      ensures key in isActive ==>
        isActive == old(isActive)[key := key in active] &&
        shown == if key in active then old(shown) + {key} else old(shown) - {key}
      ensures key !in isActive ==> isActive == old(isActive) && shown == old(shown)
    {
      if key in active {
        active := active - {key};
        if key in isActive {
          DeactivateGroup(key);
        }
      } else {
        active := active + {key};
        if key in isActive {
          ActivateGroup(key);
        }
      }
    }

    /**
     * Hovering a group flags and shows it but never changes the selection; a
     * circle of a name without a group throws at once and changes nothing.
     */
    method Hover(key: string)
      requires Valid()
      modifies this
      ensures Valid()
      ensures active == old(active)
      ensures key in isActive ==> isActive == old(isActive)[key := true] && shown == old(shown) + {key}
      ensures key !in isActive ==> isActive == old(isActive) && shown == old(shown)
    {
      if key in isActive {
        ActivateGroup(key);
      }
    }

    /**
     * Leaving a group hides it exactly when it is not selected; leaving a
     * circle of a name without a group changes nothing, whether it returns
     * early as selected or throws on the missing group.
     */
    method Unhover(key: string)
      requires Valid()
      modifies this
      ensures Valid()
      ensures active == old(active)
      ensures key in active || key !in isActive ==> isActive == old(isActive) && shown == old(shown)
      ensures key !in active && key in isActive ==>
        isActive == old(isActive)[key := false] && shown == old(shown) - {key}
      ensures key in isActive ==> (key in shown <==> key in active)
    {
      if key in isActive {
        DeactivateGroup(key);
      }
    }
  }
}
