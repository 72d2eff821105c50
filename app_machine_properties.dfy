/**
 What the app machine's transition table promises: the initial configuration,
 the effect of each event on the selection, the guards of DESELECT_ITEM, the
 events ignored in each state, and the invariants kept by runs of events.
 */
module AppMachineProperties {
  import opened AppMachine

  /** `a` is `b` with some entries left out, the others in their original order. */
  ghost predicate IsSublist(a: seq<File>, b: seq<File>)
    decreases |b|
  {
    if a == [] then true
    else if b == [] then false
    else if a[0] == b[0] then IsSublist(a[1..], b[1..])
    else IsSublist(a, b[1..])
  }

  lemma {:induction false} SublistPrepend(a: seq<File>, x: File, b: seq<File>)
    requires IsSublist(a, b)
    ensures IsSublist(a, [x] + b)
    decreases |b|, 1
  {
    if a != [] {
      assert ([x] + b)[1..] == b;
      if a[0] == x { SublistTail(a, b); }
    }
  }

  lemma {:induction false} SublistTail(a: seq<File>, b: seq<File>)
    requires a != [] && IsSublist(a, b)
    ensures IsSublist(a[1..], b)
    decreases |b|, 0
  {
    if a[0] != b[0] {
      SublistTail(a, b[1..]);
    }
    SublistPrepend(a[1..], b[0], b[1..]);
    assert [b[0]] + b[1..] == b;
  }

  // ---- the filter behind removeItemFromSelection ----

  /** Filtering keeps the remaining entries in their original relative order. */
  lemma {:induction false} FilterOutIdKeepsOrder(s: seq<File>, id: int)
    ensures IsSublist(FilterOutId(s, id), s)
    decreases |s|
  {
    if s != [] {
      FilterOutIdKeepsOrder(s[1..], id);
      var t := FilterOutId(s[1..], id);
      if s[0].id != id {
        assert ([s[0]] + t)[1..] == t;
      } else {
        SublistPrepend(t, s[0], s[1..]);
        assert [s[0]] + s[1..] == s;
      }
    }
  }

  /** Filtering distributes over concatenation: it works entry by entry, front to back. */
  lemma {:induction false} FilterOutIdAppend(a: seq<File>, b: seq<File>, id: int)
    ensures FilterOutId(a + b, id) == FilterOutId(a, id) + FilterOutId(b, id)
    decreases |a|
  {
    if a == [] {
      assert a + b == b;
    } else {
      var ab := a + b;
      assert ab != [] && ab[0] == a[0] && ab[1..] == a[1..] + b;
      FilterOutIdAppend(a[1..], b, id);
      if a[0].id != id {
        assert FilterOutId(ab, id) == [a[0]] + FilterOutId(a[1..] + b, id);
        assert FilterOutId(a, id) == [a[0]] + FilterOutId(a[1..], id);
      } else {
        assert FilterOutId(ab, id) == FilterOutId(a[1..] + b, id);
        assert FilterOutId(a, id) == FilterOutId(a[1..], id);
      }
    }
  }

  /** An entry not carrying `id` survives the filter, so distinct ids stay distinct. */
  lemma {:induction false} FilterOutIdDistinct(s: seq<File>, id: int)
    requires DistinctIds(s)
    ensures DistinctIds(FilterOutId(s, id))
    decreases |s|
  {
    if s != [] {
      var t := FilterOutId(s[1..], id);
      FilterOutIdDistinct(s[1..], id);
      FilterOutIdCounts(s[1..], id);
      if s[0].id != id {
        forall k | 0 <= k < |t| ensures t[k].id != s[0].id {
          assert t[k] in multiset(t);
          assert t[k] in s[1..];
          var j :| 0 <= j < |s[1..]| && s[1..][j] == t[k];
          assert s[j + 1] == t[k];
        }
        var r := [s[0]] + t;
        forall i, j | 0 <= i < j < |r| ensures r[i].id != r[j].id {
          if i > 0 { assert r[i] == t[i - 1] && r[j] == t[j - 1]; }
          else { assert r[j] == t[j - 1]; }
        }
      }
    }
  }

  /** With distinct ids, deselecting a selected id removes exactly one entry. */
  lemma {:induction false} FilterOutIdRemovesOne(s: seq<File>, id: int)
    requires DistinctIds(s)
    requires exists k :: 0 <= k < |s| && s[k].id == id
    ensures |FilterOutId(s, id)| == |s| - 1
    decreases |s|
  {
    var k :| 0 <= k < |s| && s[k].id == id;
    if k == 0 {
      forall j | 0 <= j < |s[1..]| ensures s[1..][j].id != id {
        assert s[1..][j] == s[j + 1];
      }
      FilterOutIdAbsent(s[1..], id);
    } else {
      assert s[1..][k - 1].id == id;
      FilterOutIdRemovesOne(s[1..], id);
    }
  }

  /** A sequence with no entry carrying `id` passes the filter unchanged. */
  lemma {:induction false} FilterOutIdAbsent(s: seq<File>, id: int)
    requires forall k :: 0 <= k < |s| ==> s[k].id != id
    ensures FilterOutId(s, id) == s
    decreases |s|
  {
    if s != [] {
      assert forall k :: 0 <= k < |s[1..]| ==> s[1..][k].id != id;
      FilterOutIdAbsent(s[1..], id);
      assert [s[0]] + s[1..] == s;
    }
  }

  // ---- initial configuration ----

  /** The machine starts in browsing with nothing selected and six files with distinct ids 0 to 5. */
  lemma InitialConfigShape()
    ensures InitialConfig().state == Browsing
    ensures InitialConfig().ctx.selectedItems == []
    ensures |InitialConfig().ctx.items| == 6
    ensures forall k :: 0 <= k < 6 ==> InitialConfig().ctx.items[k].id == k
    ensures DistinctIds(InitialConfig().ctx.items)
  {
  }

  // ---- one event at a time ----

  /** SELECT_ITEM outside deleting leads to selecting and appends the item, even one already selected. */
  lemma SelectItemAppends(c: Config, x: File)
    requires c.state != Deleting
    ensures Step(c, User(SelectItem(x))).state == Selecting
    ensures Step(c, User(SelectItem(x))).ctx.selectedItems == c.ctx.selectedItems + [x]
    ensures IsSelected(Step(c, User(SelectItem(x))).ctx, x.id)
  {
  }

  /** SELECT_ALL_ITEMS outside deleting leads to selecting with the selection equal to the item list. */
  lemma SelectAllSelectsItems(c: Config)
    requires c.state != Deleting
    ensures Step(c, User(SelectAllItems)).state == Selecting
    ensures Step(c, User(SelectAllItems)).ctx.selectedItems == c.ctx.items
    ensures AllItemsSelected(Step(c, User(SelectAllItems)).ctx)
  {
  }

  /** The two DESELECT_ITEM guards never both hold, and one holds exactly when the selection is non-empty. */
  lemma DeselectGuardsExclusive(ctx: Context)
    ensures !(LastItemSelected(ctx) && MoreItemsSelected(ctx))
    ensures LastItemSelected(ctx) || MoreItemsSelected(ctx) <==> ctx.selectedItems != []
  {
  }

  /**
   DESELECT_ITEM in selecting: at length 1 it leads to browsing, above 1 it
   stays in selecting, and at length 0 it is ignored. When a guard fires,
   every entry with the item's id goes and the rest keep their order.
   */
  lemma DeselectItemInSelecting(c: Config, x: File)
    requires c.state == Selecting
    ensures var r := Step(c, User(DeselectItem(x)));
      && (|c.ctx.selectedItems| == 0 ==> r == c)
      && (|c.ctx.selectedItems| == 1 ==> r.state == Browsing)
      && (|c.ctx.selectedItems| > 1 ==> r.state == Selecting)
      && r.ctx.items == c.ctx.items
      && IsSublist(r.ctx.selectedItems, c.ctx.selectedItems)
      && (forall y :: multiset(r.ctx.selectedItems)[y] ==
            if y.id == x.id then 0 else multiset(c.ctx.selectedItems)[y])
  {
    FilterOutIdKeepsOrder(c.ctx.selectedItems, x.id);
    FilterOutIdCounts(c.ctx.selectedItems, x.id);
  }

  /** RESET_SELECTION in selecting leads to browsing with an empty selection. */
  lemma ResetSelectionInSelecting(c: Config)
    requires c.state == Selecting
    ensures Step(c, User(ResetSelection)) == Config(Browsing, Context(c.ctx.items, []))
  {
  }

  /** SELECT_ALL_ITEMS then RESET_SELECTION, from browsing or selecting, ends in browsing with nothing selected. */
  lemma SelectAllThenReset(c: Config)
    requires c.state != Deleting
    ensures Run(c, [User(SelectAllItems), User(ResetSelection)]) == Config(Browsing, Context(c.ctx.items, []))
  {
  }

  /** DELETE_SELECTION in selecting leads to deleting with the context unchanged. */
  lemma DeleteSelectionInSelecting(c: Config)
    requires c.state == Selecting
    ensures Step(c, User(DeleteSelection)) == Config(Deleting, c.ctx)
  {
  }

  /** The delete request succeeding leads to browsing with an empty selection; failing, back to selecting with the selection kept. */
  lemma DeleteSettles(c: Config)
    requires c.state == Deleting
    ensures Step(c, Settled(Done)) == Config(Browsing, Context(c.ctx.items, []))
    ensures Step(c, Settled(Error)) == Config(Selecting, c.ctx)
  {
  }

  /** In browsing only SELECT_ITEM and SELECT_ALL_ITEMS have handlers; everything else is ignored. */
  lemma BrowsingIgnoresUnhandled(c: Config, input: Input)
    requires c.state == Browsing
    requires !(input.User? && (input.event.SelectItem? || input.event.SelectAllItems?))
    ensures Step(c, input) == c
  {
  }

  /** No event has a handler for SELECTION_DELETED, so it never changes anything. */
  lemma SelectionDeletedIgnored(c: Config)
    ensures Step(c, User(SelectionDeleted)) == c
  {
  }

  // ---- runs of inputs ----

  lemma {:induction false} RunAppend(c: Config, a: seq<Input>, b: seq<Input>)
    ensures Run(c, a + b) == Run(Run(c, a), b)
    decreases |a|
  {
    if a != [] {
      assert (a + b)[1..] == a[1..] + b;
      RunAppend(Step(c, a[0]), a[1..], b);
    } else {
      assert a + b == b;
    }
  }

  /** While the delete request is outstanding, no sequence of events changes the state or the context. */
  lemma {:induction false} DeletingIgnoresEvents(c: Config, events: seq<Input>)
    requires c.state == Deleting
    requires forall k :: 0 <= k < |events| ==> events[k].User?
    ensures Run(c, events) == c
    decreases |events|
  {
    if events != [] {
      DeletingIgnoresEvents(c, events[1..]);
    }
  }

  // ---- the selection invariant, for the events the view can send ----

  /**
   The selection invariant: ids are distinct, every selected entry is an item,
   the item list is non-empty with distinct ids, and the machine is browsing
   exactly when nothing is selected.
   */
  ghost predicate Consistent(c: Config)
  {
    && |c.ctx.items| > 0
    && DistinctIds(c.ctx.items)
    && DistinctIds(c.ctx.selectedItems)
    && (forall y :: y in c.ctx.selectedItems ==> y in c.ctx.items)
    && (c.state == Browsing <==> c.ctx.selectedItems == [])
  }

  /**
   The inputs the view can produce in configuration `c`: a row click sends
   SELECT_ITEM for an item whose row is not selected and DESELECT_ITEM for one
   whose row is; every other input may come at any time.
   */
  predicate FromView(c: Config, input: Input)
  {
    match input
    case User(SelectItem(x)) => x in c.ctx.items && !IsSelected(c.ctx, x.id)
    case User(DeselectItem(x)) => IsSelected(c.ctx, x.id)
    case _ => true
  }

  /** Every input of `inputs` is one the view can produce at the point it arrives. */
  ghost predicate AllFromView(c: Config, inputs: seq<Input>)
    decreases |inputs|
  {
    inputs == [] || (FromView(c, inputs[0]) && AllFromView(Step(c, inputs[0]), inputs[1..]))
  }

  lemma InitialConsistent()
    ensures Consistent(InitialConfig())
  {
  }

  /** Each input the view can send keeps the selection invariant. */
  lemma StepKeepsConsistent(c: Config, input: Input)
    requires Consistent(c) && FromView(c, input)
    ensures Consistent(Step(c, input))
  {
    var sel := c.ctx.selectedItems;
    match input
    case User(SelectItem(x)) =>
      if c.state != Deleting {
        var r := sel + [x];
        forall i, j | 0 <= i < j < |r| ensures r[i].id != r[j].id {
          if j == |sel| { assert r[i] == sel[i]; } else { assert r[i] == sel[i] && r[j] == sel[j]; }
        }
      }
    case User(DeselectItem(x)) =>
      if c.state == Selecting && sel != [] {
        var r := FilterOutId(sel, x.id);
        FilterOutIdDistinct(sel, x.id);
        FilterOutIdRemovesOne(sel, x.id);
        FilterOutIdCounts(sel, x.id);
        forall y | y in r ensures y in c.ctx.items {
          assert y in multiset(r);
        }
      }
    case _ =>
  }

  /** Any run of inputs the view can send keeps the selection invariant. */
  lemma {:induction false} RunKeepsConsistent(c: Config, inputs: seq<Input>)
    requires Consistent(c) && AllFromView(c, inputs)
    ensures Consistent(Run(c, inputs))
    decreases |inputs|
  {
    if inputs != [] {
      StepKeepsConsistent(c, inputs[0]);
      RunKeepsConsistent(Step(c, inputs[0]), inputs[1..]);
    }
  }

  /** From the start, whatever the view sends, the machine is browsing exactly when nothing is selected. */
  lemma ReachableBrowsingIffEmpty(inputs: seq<Input>)
    requires AllFromView(InitialConfig(), inputs)
    ensures var r := Run(InitialConfig(), inputs);
      (r.state == Browsing <==> r.ctx.selectedItems == []) && DistinctIds(r.ctx.selectedItems)
  {
    InitialConsistent();
    RunKeepsConsistent(InitialConfig(), inputs);
  }

  // ---- where the machine alone does not keep the invariant ----

  /**
   The DESELECT_ITEM guards look at the length before filtering: deselecting an
   id that is not selected, with one entry selected, leads to browsing while
   the entry stays selected.
   */
  lemma DeselectUnselectedKeepsEntry(c: Config, x: File)
    requires c.state == Selecting && |c.ctx.selectedItems| == 1 && !IsSelected(c.ctx, x.id)
    ensures Step(c, User(DeselectItem(x))).state == Browsing
    ensures Step(c, User(DeselectItem(x))).ctx.selectedItems == c.ctx.selectedItems
  {
  }

  /**
   SELECT_ITEM does not de-duplicate, so the same file selected twice and then
   deselected leaves selecting with nothing selected.
   */
  lemma DeselectDuplicateEmptiesSelecting(c: Config, x: File)
    requires c.state == Selecting && c.ctx.selectedItems == [x, x]
    ensures Step(c, User(DeselectItem(x))) == Config(Selecting, Context(c.ctx.items, []))
  {
    assert FilterOutId([x], x.id) == FilterOutId([], x.id);
  }

  /** A run from the start that ends browsing with a file still selected. */
  lemma StaleSelectionReachable()
    ensures var f0 := InitialItems()[0];
      Run(InitialConfig(), [User(SelectItem(f0)), User(DeselectItem(InitialItems()[1]))])
        == Config(Browsing, Context(InitialItems(), [f0]))
  {
    var f0, f1 := InitialItems()[0], InitialItems()[1];
    var c1 := Step(InitialConfig(), User(SelectItem(f0)));
    assert c1 == Config(Selecting, Context(InitialItems(), [f0]));
    DeselectUnselectedKeepsEntry(c1, f1);
    var c2 := Step(c1, User(DeselectItem(f1)));
    var es := [User(SelectItem(f0)), User(DeselectItem(f1))];
    assert es[1..] == [User(DeselectItem(f1))];
    assert Run(c2, []) == c2;
    assert Run(c1, es[1..]) == Run(c2, es[1..][1..]);
  }

  // ---- worked scenarios ----

  /** Select files 1 and 2, deselect 1 (still selecting, {2}), deselect 2 (browsing, nothing selected). */
  lemma ScenarioSelectDeselect()
    ensures var f1, f2 := InitialItems()[1], InitialItems()[2];
      var c0 := InitialConfig();
      var c1 := Step(c0, User(SelectItem(f1)));
      var c2 := Step(c1, User(SelectItem(f2)));
      var c3 := Step(c2, User(DeselectItem(f1)));
      var c4 := Step(c3, User(DeselectItem(f2)));
      && c1 == Config(Selecting, Context(InitialItems(), [f1]))
      && c2 == Config(Selecting, Context(InitialItems(), [f1, f2]))
      && c3 == Config(Selecting, Context(InitialItems(), [f2]))
      && c4 == Config(Browsing, Context(InitialItems(), []))
  {
  }
}
