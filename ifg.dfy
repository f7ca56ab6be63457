/**
 * The earlier chart (js/ifg.js): the selection lives in the URL as a stack of
 * institution keys joined by `&`; every route change resets all groups and
 * replays the stack, flipping a group's flag once per occurrence.
 */
module Ifg {
  import opened Wrappers
  import opened JsNumbers
  import opened JsArrays
  import opened Rows

  const Separator: char := '&'
  /** The route of an empty selection. */
  const EmptyRoute: string := "!"

  /** The route `updateNav` navigates to for `stack`. */
  function Encode(stack: seq<string>): string {
    if |stack| > 0 then Join(stack, Separator) else EmptyRoute
  }

  /** The pieces that name a group, in order. */
  function KnownPieces(pieces: seq<string>, keys: seq<string>): (r: seq<string>)
    ensures forall p :: p in r <==> p in pieces && p in keys
  {
    if pieces == [] then []
    else
      var init, last := pieces[..|pieces| - 1], pieces[|pieces| - 1];
      assert pieces == init + [last];
      KnownPieces(init, keys) + if last in keys then [last] else []
  }

  /** Filtering the pieces commutes with concatenation, so it keeps their order and multiplicity. */
  lemma {:induction false} KnownPiecesAppend(a: seq<string>, b: seq<string>, keys: seq<string>)
    ensures KnownPieces(a + b, keys) == KnownPieces(a, keys) + KnownPieces(b, keys)
  {
    if b == [] {
      assert a + b == a;
    } else {
      var init, last := b[..|b| - 1], b[|b| - 1];
      assert a + b == (a + init) + [last];
      assert (a + b)[..|a + b| - 1] == a + init;
      KnownPiecesAppend(a, init, keys);
    }
  }

  /** The stack `show` rebuilds from a route. */
  function Decode(route: string, keys: seq<string>): seq<string> {
    KnownPieces(Split(route, Separator), keys)
  }

  lemma {:induction false} KnownPiecesAll(pieces: seq<string>, keys: seq<string>)
    requires forall p :: p in pieces ==> p in keys
    ensures KnownPieces(pieces, keys) == pieces
  {
    if pieces != [] {
      var init, last := pieces[..|pieces| - 1], pieces[|pieces| - 1];
      assert pieces == init + [last];
      KnownPiecesAll(init, keys);
    }
  }

  /** Decoding the route of a stack of known keys restores the stack. */
  lemma DecodeEncode(stack: seq<string>, keys: seq<string>)
    requires forall p :: p in stack ==> p in keys && Separator !in p
    requires EmptyRoute !in keys
    ensures Decode(Encode(stack), keys) == stack
  {
    if stack == [] {
      SplitNoSeparator(EmptyRoute, Separator);
      assert KnownPieces([EmptyRoute], keys) == [];
    } else {
      SplitJoin(stack, Separator);
      KnownPiecesAll(stack, keys);
    }
  }

  /** `toggleOnStack(key, add)` on the stack's value. */
  function OnStack(stack: seq<string>, key: string, add: bool): seq<string> {
    if add then stack + [key] else Remove(stack, key)
  }

  /** Adding counts one more occurrence of `key`, even when it is already there; removing drops every occurrence; other keys keep their counts. */
  lemma OnStackCounts(stack: seq<string>, key: string, add: bool, k: string)
    ensures Count(OnStack(stack, key, add), k) ==
      if k != key then Count(stack, k) else if add then Count(stack, k) + 1 else 0
  {
    if add {
      CountSnoc(stack, key, k);
    } else {
      RemoveCounts(stack, key, k);
    }
  }

  /** Adding makes `key` a member; removing leaves no occurrence of it; other members stay. */
  lemma OnStackMembers(stack: seq<string>, key: string, add: bool)
    ensures forall k :: k in OnStack(stack, key, add) <==> (k in stack && k != key) || (k == key && add)
  {
  }

  /**
   * When the ticked boxes are the known keys on the stack, ticking or
   * unticking a key's box together with pushing or removing it keeps them so.
   */
  lemma TicksFollowStack(checked: set<string>, stack: seq<string>, isActive: map<string, bool>, key: string)
    requires forall k :: k in checked <==> k in stack && k in isActive
    ensures var add := key !in checked;
      var ticked := if key !in isActive then checked else if add then checked + {key} else checked - {key};
      forall k :: k in ticked <==> k in OnStack(stack, key, add) && k in isActive
  {
    OnStackMembers(stack, key, key !in checked);
  }

  /** Pushing a key and flipping its flag keeps every flag equal to the parity of its key's count. */
  lemma ParityFlip(flags: map<string, bool>, stack: seq<string>, p: string)
    requires p in flags
    requires forall k :: k in flags ==> (flags[k] <==> Count(stack, k) % 2 == 1)
    ensures forall k :: k in flags[p := !flags[p]] ==>
      (flags[p := !flags[p]][k] <==> Count(stack + [p], k) % 2 == 1)
  {
    forall k | k in flags[p := !flags[p]]
      ensures flags[p := !flags[p]][k] <==> Count(stack + [p], k) % 2 == 1
    {
      CountSnoc(stack, p, k);
    }
  }

  /** One point of the path `getLineData` produces; `rad` is set on left copies only. */
  datatype LinePoint = LinePoint(row: Row, x: int, y: Number, rad: Option<int>, defined: bool)

  /** The horizontal offset of the copies: half the gap between the first two bubbles less 50, rounded. */
  function Radius(g: seq<Row>, x: int -> int): int
    requires |g| >= 2
  {
    RoundDiv(x(g[1].year) - x(g[0].year) - 50, 2)
  }

  /**
   * `getLineData(groupData)` with the scales as functions: every bubble gets a
   * centre point, every bubble but the first a left copy and every bubble but
   * the last a right copy, all on the bubble's y.
   */
  method GetLineData(g: seq<Row>, x: int -> int, y: Number -> Number) returns (pts: seq<LinePoint>)
    ensures |pts| == if g == [] then 0 else 3 * |g| - 2
    ensures forall i :: 0 <= i < |g| ==>
      pts[3 * i] == LinePoint(g[i], x(g[i].year), y(g[i].transparency), None, true)
    ensures forall i :: 0 < i < |g| ==>
      pts[3 * i - 1] == LinePoint(g[i], x(g[i].year) - Radius(g, x), y(g[i].transparency), Some(Radius(g, x)), true)
    ensures forall i :: 0 <= i < |g| - 1 ==>
      pts[3 * i + 1] == LinePoint(g[i], x(g[i].year) + Radius(g, x), y(g[i].transparency), None, true)
  {
    pts := [];
    var dist: Option<int> := None;
    for i := 0 to |g|
      invariant |pts| == if i == 0 then 0 else if i < |g| then 3 * i - 1 else 3 * |g| - 2
      invariant i > 0 && |g| >= 2 ==> dist == Some(Radius(g, x))
      invariant forall j :: 0 <= j < i ==>
        pts[3 * j] == LinePoint(g[j], x(g[j].year), y(g[j].transparency), None, true)
      invariant forall j :: 0 < j < i ==>
        pts[3 * j - 1] == LinePoint(g[j], x(g[j].year) - Radius(g, x), y(g[j].transparency), Some(Radius(g, x)), true)
      invariant forall j :: 0 <= j < i && j < |g| - 1 ==>
        pts[3 * j + 1] == LinePoint(g[j], x(g[j].year) + Radius(g, x), y(g[j].transparency), None, true)
    {
      if i < |g| - 1 {
        dist := Some(RoundDiv(x(g[1].year) - x(g[0].year) - 50, 2));
      }
      var rad := dist;
      if i > 0 {
        pts := pts + [LinePoint(g[i], x(g[i].year) - rad.value, y(g[i].transparency), rad, true)];
      }
      pts := pts + [LinePoint(g[i], x(g[i].year), y(g[i].transparency), None, true)];
      if i < |g| - 1 {
        pts := pts + [LinePoint(g[i], x(g[i].year) + rad.value, y(g[i].transparency), None, true)];
      }
    }
  }

  /**
   * Whether `activeInForeground` can read the group of the stack's top: the
   * stack is empty or its top is a group key (js/ifg.js:139-141).
   */
  predicate TopIsGroup(stack: seq<string>, isActive: map<string, bool>) {
    stack == [] || stack[|stack| - 1] in isActive
  }

  /** How a call of the router's `show` ends. */
  datatype ShowOutcome =
    | Redirected(route: string)
    | Shown
      /** `activeInForeground` threw on a stack whose top is not a group key. */
    | Threw

  class IfgChart {
    /** The keys of `groups`, in the order of the colour table. */
    const keys: seq<string>
    /** The route `show` redirects an initial empty route to. */
    const defaultInstitution: string
    /** `groups[key].isActive` */
    var isActive: map<string, bool>
    /** Groups whose line is displayed and whose bubbles are filled. */
    var shown: set<string>
    var stack: seq<string>
    /** The `activeGroups` counter. */
    var activeCount: int
    /** Keys whose checkbox is ticked. */
    var checked: set<string>
    var initial: bool

    /** The groups whose `isActive` flag is set. */
    ghost function Flagged(): set<string>
      reads this
    {
      set k | k in isActive && isActive[k]
    }

    /** Every flagged group is shown, and only groups are shown. */
    ghost predicate Consistent()
      reads this
    {
      (forall k :: k in isActive <==> k in keys) &&
      (forall k :: k in shown ==> k in isActive) &&
      Flagged() <= shown
    }

    /** In addition, the ticked checkboxes are the known keys on the stack. */
    ghost predicate Valid()
      reads this
    {
      Consistent() && forall k :: k in checked <==> k in stack && k in isActive
    }

    constructor (groupKeys: seq<string>, defaultKey: string)
      ensures Valid()
      ensures keys == groupKeys && defaultInstitution == defaultKey
      ensures stack == [] && checked == {} && shown == {} && activeCount == 0 && initial
      ensures forall k :: k in isActive ==> !isActive[k]
    {
      keys := groupKeys;
      defaultInstitution := defaultKey;
      isActive := map k | k in groupKeys :: false;
      shown := {};
      stack := [];
      activeCount := 0;
      checked := {};
      initial := true;
    }

    /** `activateGroup(key)()`: shows the group. */
    method ActivateGroup(key: string)
      requires key in isActive
      modifies this
      ensures shown == old(shown) + {key}
      ensures isActive == old(isActive) && stack == old(stack) && checked == old(checked)
      ensures activeCount == old(activeCount) && initial == old(initial)
    {
      shown := shown + {key};
    }

    /** `refreshAllActiveGroups()`: re-activates every flagged group, which a consistent chart already shows. */
    method RefreshAllActiveGroups()
      requires Consistent()
      modifies this
      ensures Consistent()
      ensures shown == old(shown) && isActive == old(isActive) && stack == old(stack) && checked == old(checked)
      ensures activeCount == old(activeCount) && initial == old(initial)
    {
      for i := 0 to |keys|
        invariant Consistent()
        invariant shown == old(shown) && isActive == old(isActive) && stack == old(stack) && checked == old(checked)
        invariant activeCount == old(activeCount) && initial == old(initial)
      {
        if isActive[keys[i]] {
          ActivateGroup(keys[i]);
        }
      }
    }

    /** `deactivateGroup(key)()`: leaves a flagged group alone and hides any other. */
    method DeactivateGroup(key: string)
      requires Consistent() && key in isActive
      modifies this
      ensures Consistent()
      ensures shown == if old(isActive)[key] then old(shown) else old(shown) - {key}
      ensures isActive == old(isActive) && stack == old(stack) && checked == old(checked)
      ensures activeCount == old(activeCount) && initial == old(initial)
    {
      if isActive[key] {
        return;
      }
      shown := shown - {key};
      RefreshAllActiveGroups();
    }

    /** `permanentlyActivateGroup(key)()`: flips the flag and shows or hides the group to match. */
    method PermanentlyActivateGroup(key: string)
      requires Consistent() && key in isActive
      modifies this
      ensures Consistent()
      ensures isActive == old(isActive)[key := !old(isActive)[key]]
      ensures shown == if isActive[key] then old(shown) + {key} else old(shown) - {key}
      ensures stack == old(stack) && checked == old(checked)
      ensures activeCount == old(activeCount) && initial == old(initial)
    {
      isActive := isActive[key := !isActive[key]];
      if isActive[key] {
        ActivateGroup(key);
      } else {
        DeactivateGroup(key);
      }
    }

    /**
     * The router's `show(args)`: an empty first route is redirected to the
     * default institution; any other route resets every group and replays
     * the known keys of the route in order. When the old stack's top is not
     * a group key, the reset of the first group reaches `activeInForeground`,
     * which throws a TypeError: the checkboxes are already cleared and that
     * group is unflagged and hidden, but the stack is never rebuilt.
     */
    method Show(args: string) returns (outcome: ShowOutcome)
      requires Consistent() && (initial ==> Valid())
      modifies this
      ensures Consistent() && !initial
      ensures !outcome.Threw? ==> Valid()
      ensures old(initial) && args == "" ==>
        outcome == Redirected(defaultInstitution) && stack == old(stack) && checked == old(checked) &&
        isActive == old(isActive) && shown == old(shown) && activeCount == old(activeCount)
      ensures !(old(initial) && args == "") && !TopIsGroup(old(stack), old(isActive)) && keys != [] ==>
        outcome == Threw && stack == old(stack) && checked == {} && activeCount == old(activeCount) &&
        isActive == old(isActive)[keys[0] := false] && shown == old(shown) - {keys[0]}
      ensures !(old(initial) && args == "") && (TopIsGroup(old(stack), old(isActive)) || keys == []) ==>
        outcome == Shown && stack == Decode(args, keys) && activeCount == |stack| &&
        (forall k :: k in isActive ==> (isActive[k] <==> Count(stack, k) % 2 == 1)) &&
        shown == Flagged()
    {
      if initial && args == "" {
        initial := false;
        return Redirected(defaultInstitution);
      }
      initial := false;
      checked := {};
      if !TopIsGroup(stack, isActive) && keys != [] {
        isActive := isActive[keys[0] := false];
        DeactivateGroup(keys[0]);
        return Threw;
      }
      outcome := Shown;
      ResetGroups();
      ReplayStack(Split(args, Separator));
      RefreshAllActiveGroups();
    }

    /** The reset in `show`: every flag cleared, every group hidden, the stack and counter emptied. */
    method ResetGroups()
      requires Consistent()
      modifies this
      ensures Consistent()
      ensures shown == {} && forall k :: k in isActive ==> !isActive[k]
      ensures stack == [] && activeCount == 0
      ensures checked == old(checked) && initial == old(initial)
    {
      for i := 0 to |keys|
        invariant Consistent() && checked == old(checked) && initial == old(initial)
        invariant forall j :: 0 <= j < i ==> !isActive[keys[j]] && keys[j] !in shown
      {
        isActive := isActive[keys[i] := false];
        DeactivateGroup(keys[i]);
      }
      activeCount := 0;
      stack := [];
    }

    /**
     * What replaying a stack establishes: the counter is its length, the ticked
     * boxes are its keys, a flag is set exactly for keys that occur an odd
     * number of times, and exactly the flagged groups are shown.
     */
    ghost predicate Replayed()
      reads this
    {
      activeCount == |stack| &&
      (forall k :: k in checked <==> k in stack) &&
      (forall k :: k in isActive ==> (isActive[k] <==> Count(stack, k) % 2 == 1)) &&
      shown == Flagged()
    }

    /** One known piece of the route in `show`: pushed, ticked, counted, and its group flipped. */
    method PushPiece(p: string)
      requires Consistent() && Replayed() && p in isActive
      modifies this
      ensures Consistent() && Replayed()
      ensures stack == old(stack) + [p] && initial == old(initial)
    {
      ParityFlip(isActive, stack, p);
      ghost var flagged := Flagged();
      stack := stack + [p];
      checked := checked + {p};
      activeCount := activeCount + 1;
      PermanentlyActivateGroup(p);
      assert Flagged() == if isActive[p] then flagged + {p} else flagged - {p};
    }

    /** The replay in `show`: each known piece of the route in order. */
    method ReplayStack(pieces: seq<string>)
      requires Consistent() && stack == [] && activeCount == 0 && checked == {} && shown == {}
      requires forall k :: k in isActive ==> !isActive[k]
      modifies this
      ensures Consistent() && Replayed()
      ensures stack == KnownPieces(pieces, keys) && initial == old(initial)
    {
      assert Flagged() == {};
      for i := 0 to |pieces|
        invariant Consistent() && Replayed() && initial == old(initial)
        invariant stack == KnownPieces(pieces[..i], keys)
      {
        assert pieces[..i + 1] == pieces[..i] + [pieces[i]];
        if pieces[i] in isActive {
          PushPiece(pieces[i]);
        }
      }
      assert pieces[..|pieces|] == pieces;
    }

    /**
     * The checkbox flip in `navigateToKey`: a group's box is ticked or
     * unticked; a key without a box reads as unticked and stays so.
     */
    method TickBox(key: string) returns (wasChecked: bool)
      modifies this
      ensures wasChecked == (key in old(checked))
      ensures checked ==
        if key !in isActive then old(checked) else if wasChecked then old(checked) - {key} else old(checked) + {key}
      ensures old(Valid()) ==>
        forall k :: k in checked <==> k in OnStack(stack, key, !wasChecked) && k in isActive
      ensures stack == old(stack) && isActive == old(isActive) && shown == old(shown)
      ensures activeCount == old(activeCount) && initial == old(initial)
    {
      wasChecked := key in checked;
      if Valid() {
        TicksFollowStack(checked, stack, isActive, key);
      }
      if key in isActive {
        checked := if wasChecked then checked - {key} else checked + {key};
      }
    }

    /** `toggleOnStack(key, add)`. */
    method ToggleOnStack(key: string, add: bool)
      modifies this
      ensures stack == OnStack(old(stack), key, add)
      ensures forall k ::
                Count(stack, k) ==
                if k != key then Count(old(stack), k) else if add then Count(old(stack), k) + 1 else 0
      ensures isActive == old(isActive) && shown == old(shown) && checked == old(checked)
      ensures activeCount == old(activeCount) && initial == old(initial)
    {
      forall k {
        OnStackCounts(stack, key, add, k);
      }
      stack := OnStack(stack, key, add);
    }

    /** `updateNav()`: the route it navigates to. */
    method UpdateNav() returns (route: string)
      ensures route == Encode(stack)
    {
      if |stack| > 0 {
        route := Join(stack, Separator);
      } else {
        route := EmptyRoute;
      }
    }

    /**
     * `navigateToKey(key)()`: ticks an unticked group's checkbox and pushes
     * the key, or unticks it and removes the key; the route it navigates to
     * decodes back to the new stack.
     */
    method NavigateToKey(key: string) returns (route: string)
      requires Consistent()
      modifies this
      ensures Consistent() && (old(Valid()) ==> Valid())
      ensures isActive == old(isActive) && shown == old(shown)
      ensures activeCount == old(activeCount) && initial == old(initial)
      ensures stack == OnStack(old(stack), key, key !in old(checked))
      ensures key in isActive ==> (key in checked <==> key !in old(checked))
      ensures forall k :: k != key ==> (k in checked <==> k in old(checked))
      ensures route == Encode(stack)
      ensures (forall k :: k in stack ==> k in keys && Separator !in k) && EmptyRoute !in keys ==>
        Decode(route, keys) == stack
    {
      var wasChecked := TickBox(key);
      ToggleOnStack(key, !wasChecked);
      route := UpdateNav();
      ghost var known := (forall k :: k in stack ==> k in keys && Separator !in k) && EmptyRoute !in keys;
      assert known ==> Decode(route, keys) == stack by {
        if known {
          DecodeEncode(stack, keys);
        }
      }
    }
  }
}
