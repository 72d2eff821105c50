/**
 The app machine of the file browser: a three-state workflow (browsing,
 selecting, deleting) over a context holding the item list and the current
 selection. The declarative transition table and its four `assign` actions are
 modelled as a total step function; an event the current state has no handler
 for is ignored, as the statechart interpreter does.
 */
module AppMachine {

  /** A file row. Its modification date is opaque data and is not modelled. */
  datatype File = File(id: int, title: string, owner: string)

  datatype State = Browsing | Selecting | Deleting

  /** The extended state: the full item list and the current selection. */
  datatype Context = Context(items: seq<File>, selectedItems: seq<File>)
  {
    // The four context actions. None of them assigns `items`.

    /** addItemToSelection: the selection is concatenated with the item, without de-duplication. */
    function AddItemToSelection(item: File): (r: Context)
      ensures r.items == items
      ensures |r.selectedItems| == |selectedItems| + 1
      ensures r.selectedItems[..|selectedItems|] == selectedItems
      ensures r.selectedItems[|selectedItems|] == item
    {
      this.(selectedItems := selectedItems + [item])
    }

    /** addAllItemsToSelection: the selection becomes the item list. */
    function AddAllItemsToSelection(): (r: Context)
      ensures r.items == items
      ensures AllItemsSelected(r)
      ensures forall k :: 0 <= k < |items| ==> IsSelected(r, items[k].id)
    {
      this.(selectedItems := items)
    }

    /** removeItemFromSelection: every entry with the item's id leaves the selection. */
    function RemoveItemFromSelection(item: File): (r: Context)
      ensures r.items == items
      ensures forall id :: IsSelected(r, id) <==> IsSelected(this, id) && id != item.id
    {
      FilterOutIdSelected(this, item.id);
      this.(selectedItems := FilterOutId(selectedItems, item.id))
    }

    /** resetSelection: nothing stays selected. */
    function ResetSelection(): (r: Context)
      ensures r.items == items
      ensures forall id :: !IsSelected(r, id)
    {
      this.(selectedItems := [])
    }
  }

  /** The events the machine declares. */
  datatype Event =
    | SelectItem(item: File)
    | SelectAllItems
    | DeselectItem(item: File)
    | DeleteSelection
    | SelectionDeleted
    | ResetSelection

  /** How the delete request invoked in `deleting` settles. */
  datatype Outcome = Done | Error

  /** What the machine is sent: an event, or the settlement of the invoked delete request. */
  datatype Input = User(event: Event) | Settled(outcome: Outcome)

  /** A machine configuration: the active state and the context. */
  datatype Config = Config(state: State, ctx: Context)

  /** Every id occurs at most once in `s`. */
  predicate DistinctIds(s: seq<File>)
  {
    forall i, j :: 0 <= i < j < |s| ==> s[i].id != s[j].id
  }

  /** The view's per-row "selected" flag: some selected entry carries `id`. */
  predicate IsSelected(ctx: Context, id: int)
  {
    exists k :: 0 <= k < |ctx.selectedItems| && ctx.selectedItems[k].id == id
  }

  /** The view's "all items selected" flag, a comparison of lengths. */
  predicate AllItemsSelected(ctx: Context)
  {
    |ctx.selectedItems| == |ctx.items|
  }

  /** The six files the machine starts with. */
  function InitialItems(): (r: seq<File>)
    ensures |r| == 6
    ensures forall k :: 0 <= k < |r| ==> r[k].id == k
    ensures DistinctIds(r)
  {
    [ File(0, "Summer Photos", "Anthony Stevens"),
      File(1, "Surfing", "Scott Masterson"),
      File(2, "Beach Concerts", "Jonathan Lee"),
      File(3, "Sandcastles", "Aaron Bennett"),
      File(4, "Boardwalk", "Mary Johnson"),
      File(5, "Beach Picnics", "Janet Perkins") ]
  }

  /** The machine starts browsing the six files with nothing selected. */
  function InitialConfig(): (r: Config)
    ensures r.state == Browsing && r.ctx.selectedItems == [] && r.ctx.items == InitialItems()
    ensures !AllItemsSelected(r.ctx)
  {
    Config(Browsing, Context(InitialItems(), []))
  }

  /**
   Array filter keeping the entries whose id differs from `id`; what it keeps
   is stated by FilterOutIdCounts below.
   */
  function FilterOutId(s: seq<File>, id: int): (r: seq<File>)
    ensures forall k :: 0 <= k < |r| ==> r[k].id != id
    ensures |r| <= |s|
  {
    if s == [] then []
    else
      if s[0].id != id then [s[0]] + FilterOutId(s[1..], id)
      else FilterOutId(s[1..], id)
  }

  /** Every entry carrying `id` goes; every other entry stays as often as it occurred. */
  lemma {:induction false} FilterOutIdCounts(s: seq<File>, id: int)
    ensures forall y :: multiset(FilterOutId(s, id))[y] == if y.id == id then 0 else multiset(s)[y]
    decreases |s|
  {
    if s != [] {
      FilterOutIdCounts(s[1..], id);
      assert s == [s[0]] + s[1..];
    }
  }

  /** Every id still selected after filtering out `id` was selected before and differs from `id`, and conversely. */
  lemma FilterOutIdSelected(ctx: Context, id: int)
    ensures forall id' ::
      IsSelected(ctx.(selectedItems := FilterOutId(ctx.selectedItems, id)), id') <==> IsSelected(ctx, id') && id' != id
  {
    var s := ctx.selectedItems;
    var r := FilterOutId(s, id);
    FilterOutIdCounts(s, id);
    forall id' ensures IsSelected(ctx.(selectedItems := r), id') <==> IsSelected(ctx, id') && id' != id {
      if IsSelected(ctx.(selectedItems := r), id') {
        var k :| 0 <= k < |r| && r[k].id == id';
        assert r[k] in multiset(r);
        assert r[k] in s;
        var j :| 0 <= j < |s| && s[j] == r[k];
      }
      if IsSelected(ctx, id') && id' != id {
        var k :| 0 <= k < |s| && s[k].id == id';
        assert s[k] in multiset(s);
        assert s[k] in r;
        var j :| 0 <= j < |r| && r[j] == s[k];
      }
    }
  }

  // The two guards of DESELECT_ITEM, evaluated on the selection before it changes.

  /** The entry being deselected is the last one. */
  predicate LastItemSelected(ctx: Context)
    ensures LastItemSelected(ctx) ==> ctx.selectedItems != [] && ctx.selectedItems[1..] == []
  {
    |ctx.selectedItems| == 1
  }

  /** More entries stay selected. */
  predicate MoreItemsSelected(ctx: Context)
    ensures MoreItemsSelected(ctx) <==> ctx.selectedItems != [] && !LastItemSelected(ctx)
  {
    |ctx.selectedItems| > 1
  }

  /**
   The transition table. Pairs with no handler leave the configuration as it
   is; `deleting` has no handlers for events at all and reacts only to the
   settlement of its delete request, which is delivered in no other state.
   */
  function Step(c: Config, input: Input): (r: Config)
    ensures r.ctx.items == c.ctx.items
    ensures c.state == Deleting && input.User? ==> r == c
    ensures c.state != Deleting && input.Settled? ==> r == c
    ensures r.state == Deleting ==> r == c || (c.state == Selecting && input == User(DeleteSelection))
  {
    match c.state
    case Browsing =>
      (match input
       case User(SelectItem(x)) => Config(Selecting, c.ctx.AddItemToSelection(x))
       case User(SelectAllItems) => Config(Selecting, c.ctx.AddAllItemsToSelection())
       case _ => c)
    case Selecting =>
      (match input
       case User(SelectItem(x)) => Config(Selecting, c.ctx.AddItemToSelection(x))
       case User(SelectAllItems) => Config(Selecting, c.ctx.AddAllItemsToSelection())
       case User(DeselectItem(x)) =>
         if LastItemSelected(c.ctx) then Config(Browsing, c.ctx.RemoveItemFromSelection(x))
         else if MoreItemsSelected(c.ctx) then Config(Selecting, c.ctx.RemoveItemFromSelection(x))
         else c
       case User(ResetSelection) => Config(Browsing, c.ctx.ResetSelection())
       case User(DeleteSelection) => Config(Deleting, c.ctx)
       case _ => c)
    case Deleting =>
      (match input
       case Settled(Done) => Config(Browsing, c.ctx.ResetSelection())
       case Settled(Error) => Config(Selecting, c.ctx)
       case _ => c)
  }

  /** The machine processing inputs one at a time, in arrival order. */
  function Run(c: Config, inputs: seq<Input>): (r: Config)
    ensures r.ctx.items == c.ctx.items
    decreases |inputs|
  {
    if inputs == [] then c else Run(Step(c, inputs[0]), inputs[1..])
  }
}
