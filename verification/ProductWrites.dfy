/** The product writes as steps on the whole store, what every run of them keeps, and what one of them means. */
module ProductWrites {
  import opened Prelude
  import opened Sorting
  import opened VariantGrid
  import opened VariantRules
  import opened ProductRows
  import opened ProductAxes
  import opened ProductVariants

  /** Every product row, and the supply of ids none of which is handed out twice. */
  datatype Store = Store(products: map<nat, Product>, next: nat)

  datatype Outcome = Outcome(store: Store, error: Option<Error>)

  // ------------------------------------------------------------ min price

  /** The lowest price among the variants that can be ordered. */
  function LowestPrice(variants: seq<Variant>): Option<nat> {
    if variants == [] then None
    else
      var rest := LowestPrice(variants[1..]);
      if !Sellable(variants[0]) then rest
      else if rest.Some? && rest.value <= variants[0].price then rest
      else Some(variants[0].price)
  }

  /** What the cached price must be: none without a variant to order, otherwise the least of their prices. */
  ghost predicate IsMinPrice(variants: seq<Variant>, price: Option<nat>) {
    match price
    case None => forall k :: 0 <= k < |variants| ==> !Sellable(variants[k])
    case Some(m) =>
      && (exists k :: 0 <= k < |variants| && Sellable(variants[k]) && variants[k].price == m)
      && (forall k :: 0 <= k < |variants| && Sellable(variants[k]) ==> m <= variants[k].price)
  }

  lemma {:induction false} LowestIsMin(variants: seq<Variant>)
    ensures IsMinPrice(variants, LowestPrice(variants))
  {
    if variants != [] {
      var rest := variants[1..];
      LowestIsMin(rest);
      assert forall k :: 0 <= k < |rest| ==> rest[k] == variants[k + 1];
      var price := LowestPrice(variants);
      if price.Some? && Some(price.value) == LowestPrice(rest) {
        var k :| 0 <= k < |rest| && Sellable(rest[k]) && rest[k].price == price.value;
        assert variants[k + 1].price == price.value;
      }
      forall k | 0 <= k < |variants| && Sellable(variants[k]) ensures price.Some? && price.value <= variants[k].price {
        if k > 0 { assert Sellable(rest[k - 1]); }
      }
    }
  }

  lemma {:induction false} MinPriceUnique(variants: seq<Variant>, a: Option<nat>, b: Option<nat>)
    requires IsMinPrice(variants, a) && IsMinPrice(variants, b)
    ensures a == b
  {
  }

  predicate AnySellable(variants: seq<Variant>) { exists k :: 0 <= k < |variants| && Sellable(variants[k]) }

  /** A product with its price recomputed and its status set, or the refusal to sell what has nothing to sell. */
  function Settle(p: Product, status: Status, increment: nat): Result<Product, Error> {
    if status == ACTIVE && !AnySellable(p.variants) then Err(NotSellable)
    else Ok(p.(minPrice := LowestPrice(p.variants), status := status, version := p.version + increment))
  }

  /** The end of every transaction that revised a product: settle it, or fail with what failed. */
  function Finish(revised: Result<(Product, nat), Error>, status: Status,
                  increment: nat): Result<(Product, nat), Error> {
    match revised
    case Err(error) => Err(error)
    case Ok(made) =>
      match Settle(made.0, status, increment)
      case Err(error) => Err(error)
      case Ok(settled) => Ok((settled, made.1))
  }

  // --------------------------------------------------------------- invariant

  ghost predicate ProductValid(p: Product, next: nat, max: nat) {
    && (if p.deleted then forall k :: 0 <= k < |p.variants| ==> p.variants[k].deleted
        else GridValid(p.axes, p.variants, next) && GridCount(AxesOf(p.axes)) <= max)
    && IsMinPrice(p.variants, p.minPrice)
    && (p.status == ACTIVE ==> p.minPrice.Some?)
  }

  ghost predicate StoreValid(s: Store, max: nat) {
    && (forall id :: id in s.products ==> id < s.next)
    && (forall id {:trigger ProductValid(s.products[id], s.next, max)} ::
            id in s.products ==> ProductValid(s.products[id], s.next, max))
  }

  predicate LiveProduct(s: Store, id: nat) { id in s.products && !s.products[id].deleted }

  // ------------------------------------------------------------------ writes

  datatype NewProduct = NewProduct(
    name: string, status: Status, axes: seq<Axis>, overrides: seq<VariantOverride>, defaults: Defaults)

  /** A blank row: no variants, and axes that are in order when the request's are. */
  ghost predicate Blanked(p: Product, next: nat, axes: seq<Axis>) {
    |p.axes| == |axes| && p.variants == [] && !p.deleted && (GoodAxes(axes) ==> AxesValid(p.axes, next))
  }

  /** The row as inserted: a draft whose axes have no choices yet. */
  function BlankProduct(name: string, axes: seq<Axis>, next: nat): (p: Product)
    ensures Blanked(p, next + |axes|, axes)
  {
    BlankAxesValid(axes, next);
    Product(name, DRAFT, None, 0, Blank(axes, next), [], false)
  }

  lemma {:induction false} BlankAxesValid(axes: seq<Axis>, next: nat)
    ensures GoodAxes(axes) ==> AxesValid(Blank(axes, next), next + |axes|)
  {
    if GoodAxes(axes) {
      assert forall i :: 0 <= i < |axes| ==> Names(axes)[i] == axes[i].name;
      BlankValid(axes, next);
    }
  }

  /**
   * What a request makes of a blank row; `refused` is the verdict on the attribute values, which is another
   * component's.
   */
  function Created(blank: Product, next: nat, max: nat, input: NewProduct, refused: bool): Result<(Product, nat), Error>
    requires |blank.axes| == |input.axes|
  {
    var planned := PlanVariants(input.axes, input.overrides, max);
    if planned.Err? then Err(PlanRefused(planned.error))
    else if refused then Err(AttributesRefused)
    else Finish(Revise(blank, next, max, input.axes, input.overrides, Some(input.defaults)), input.status, 0)
  }

  /** A product row as first inserted, and the id supply after it. */
  datatype Draft = Draft(row: Product, next: nat)

  function DraftOf(s: Store, input: NewProduct): (d: Draft)
    ensures Blanked(d.row, d.next, input.axes) && s.next < d.next
  {
    Draft(BlankProduct(input.name, input.axes, s.next + 1), s.next + 1 + |input.axes|)
  }

  /** A listing created from its draft, or nothing. */
  function Create(s: Store, max: nat, d: Draft, input: NewProduct, refused: bool): Outcome
    requires |d.row.axes| == |input.axes|
  {
    match Created(d.row, d.next, max, input, refused)
    case Err(error) => Outcome(s, Some(error))
    case Ok(done) => Outcome(Store(s.products[s.next := done.0], done.1), None)
  }

  datatype Edit = Edit(
    version: nat, name: Option<string>, status: Option<Status>, options: Option<seq<Axis>>,
    overrides: seq<VariantOverride>, defaults: Option<Defaults>, touchesAttributes: bool)

  /** What an edit makes of a live row. */
  function Edited(p: Product, next: nat, max: nat, edit: Edit, refused: bool): Result<(Product, nat), Error> {
    var status := edit.status.GetOr(p.status);
    if p.version != edit.version then Err(VersionConflict)
    else if (edit.touchesAttributes || status == ACTIVE) && refused then Err(AttributesRefused)
    else if edit.options.Some? && !SameAxes(p.axes, edit.options.value) then Err(AxesChanged)
    else Finish(Revise(p.(name := edit.name.GetOr(p.name)), next, max, edit.options.GetOr(AxesOf(p.axes)),
                       edit.overrides, edit.defaults),
                status, 1)
  }

  function Update(s: Store, max: nat, id: nat, edit: Edit, refused: bool): Outcome {
    if !LiveProduct(s, id) then Outcome(s, Some(NotFound))
    else match Edited(s.products[id], s.next, max, edit, refused)
      case Err(error) => Outcome(s, Some(error))
      case Ok(done) => Outcome(Store(s.products[id := done.0], done.1), None)
  }

  predicate IdOrder(a: nat, b: nat) { a <= b }

  /** The selection without repeats, in lock order. */
  function Selection(ids: seq<nat>): seq<nat> { Sort(IdOrder, Unique(ids)) }

  /** Each element once, where it first stands. */
  function Unique(ids: seq<nat>): seq<nat> {
    if ids == [] then []
    else
      var last := |ids| - 1;
      Unique(ids[..last]) + (if ids[last] in ids[..last] then [] else [ids[last]])
  }

  function SettleEach(products: map<nat, Product>, ids: seq<nat>, status: Status,
                      refused: set<nat>): Result<map<nat, Product>, Error>
    requires forall id :: id in ids ==> id in products
  {
    if ids == [] then Ok(products)
    else if status == ACTIVE && ids[0] in refused then Err(AttributesRefused)
    else match Settle(products[ids[0]], status, 1)
      case Err(error) => Err(error)
      case Ok(p) => SettleEach(products[ids[0] := p], ids[1..], status, refused)
  }

  predicate AllLive(s: Store, ids: seq<nat>) { forall i :: 0 <= i < |ids| ==> LiveProduct(s, ids[i]) }

  function ChangeStatuses(s: Store, ids: seq<nat>, status: Status, refused: set<nat>): Outcome {
    var selection := Selection(ids);
    if !AllLive(s, selection) then Outcome(s, Some(NotFound))
    else match SettleEach(s.products, selection, status, refused)
      case Err(error) => Outcome(s, Some(error))
      case Ok(products) => Outcome(s.(products := products), None)
  }

  function Retired(variants: seq<Variant>): (after: seq<Variant>)
    ensures |after| == |variants|
  {
    seq(|variants|, k requires 0 <= k < |variants| =>
      if variants[k].deleted then variants[k] else variants[k].(deleted := true, isActive := false))
  }

  function Remove(s: Store, id: nat): Outcome {
    if !LiveProduct(s, id) then Outcome(s, Some(NotFound))
    else
      var p := s.products[id];
      Outcome(s.(products := s.products[id := p.(variants := Retired(p.variants), deleted := true, status := INACTIVE,
                                                 minPrice := None, version := p.version + 1)]), None)
  }

  // ------------------------------------------------------ what one step keeps

  lemma {:induction false} GridValidLater(stored: seq<StoredAxis>, variants: seq<Variant>, next: nat, later: nat)
    requires GridValid(stored, variants, next) && next <= later
    ensures GridValid(stored, variants, later)
  {
    AxesValidLater(stored, next, later);
    forall k | 0 <= k < |variants| ensures VariantValid(stored, later, variants[k]) {
      assert VariantValid(stored, next, variants[k]);
    }
  }

  lemma {:induction false} ProductValidLater(p: Product, next: nat, later: nat, max: nat)
    requires ProductValid(p, next, max) && next <= later
    ensures ProductValid(p, later, max)
  {
    if !p.deleted { GridValidLater(p.axes, p.variants, next, later); }
  }

  lemma {:induction false} StoredIn(s: Store, max: nat, id: nat, p: Product, next: nat)
    requires StoreValid(s, max) && s.next <= next && id < next && ProductValid(p, next, max)
    ensures StoreValid(Store(s.products[id := p], next), max)
  {
    var after := Store(s.products[id := p], next);
    forall k | k in after.products ensures ProductValid(after.products[k], next, max) {
      if k != id {
        assert ProductValid(s.products[k], s.next, max);
        ProductValidLater(s.products[k], s.next, next, max);
      }
    }
  }

  /** Settling restores the cached price, and lets a listing on sale only with something to order. */
  lemma {:induction false} SettledValid(p: Product, status: Status, increment: nat, next: nat, max: nat)
    requires !p.deleted && GridValid(p.axes, p.variants, next) && GridCount(AxesOf(p.axes)) <= max
    requires Settle(p, status, increment).Ok?
    ensures ProductValid(Settle(p, status, increment).value, next, max)
  {
    LowestIsMin(p.variants);
  }

  /** A new product starts with no variant at all, so only the rest of the grid invariant holds before. */
  lemma {:induction false} CreatedGrid(p: Product, next: nat, max: nat, axes: seq<Axis>,
                                       overrides: seq<VariantOverride>, defaults: Option<Defaults>)
    requires Blanked(p, next, axes) && Revise(p, next, max, axes, overrides, defaults).Ok?
    ensures var (after, next') := Revise(p, next, max, axes, overrides, defaults).value;
            next <= next' && GridValid(after.axes, after.variants, next')
            && GridCount(AxesOf(after.axes)) == GridCount(axes) <= max
  {
    AcceptedIff(axes, overrides, max);
    PlansAreGrid(p.axes, axes, overrides, max, next);
    NextMonotone(p.axes, axes, next, 0, |axes|);
    RevisedProduct(p.axes, axes, next);
    LaidGridValid(ReviseAll(p.axes, axes, next), KeyedPlans(p, next, max, axes, overrides), [], defaults,
                  NextAt(p.axes, axes, next, |axes|));
  }

  lemma {:induction false} CreatedValid(blank: Product, next: nat, max: nat, input: NewProduct, refused: bool)
    requires Blanked(blank, next, input.axes) && Created(blank, next, max, input, refused).Ok?
    ensures var done := Created(blank, next, max, input, refused).value;
            next <= done.1 && ProductValid(done.0, done.1, max)
  {
    CreatedGrid(blank, next, max, input.axes, input.overrides, Some(input.defaults));
    FinishedValid(next, max, Revise(blank, next, max, input.axes, input.overrides, Some(input.defaults)), input.status,
                  0);
  }

  lemma {:induction false} FinishedValid(next: nat, max: nat, revised: Result<(Product, nat), Error>, status: Status,
                                         increment: nat)
    requires Finish(revised, status, increment).Ok?
    requires var (p, n) := revised.value;
             next <= n && !p.deleted && GridValid(p.axes, p.variants, n) && GridCount(AxesOf(p.axes)) <= max
    ensures var done := Finish(revised, status, increment).value;
            next <= done.1 && ProductValid(done.0, done.1, max)
  {
    SettledValid(revised.value.0, status, increment, revised.value.1, max);
  }

  lemma {:induction false} CreateKeeps(s: Store, max: nat, d: Draft, input: NewProduct, refused: bool)
    requires StoreValid(s, max) && Blanked(d.row, d.next, input.axes) && s.next < d.next
    ensures StoreValid(Create(s, max, d, input, refused).store, max)
  {
    var created := Created(d.row, d.next, max, input, refused);
    if created.Ok? {
      CreatedValid(d.row, d.next, max, input, refused);
      StoredIn(s, max, s.next, created.value.0, created.value.1);
    }
  }

  lemma {:induction false} EditedValid(p: Product, next: nat, max: nat, edit: Edit, refused: bool)
    requires !p.deleted && ProductValid(p, next, max) && Edited(p, next, max, edit, refused).Ok?
    ensures var done := Edited(p, next, max, edit, refused).value;
            next <= done.1 && ProductValid(done.0, done.1, max)
  {
    var renamed, axes := p.(name := edit.name.GetOr(p.name)), edit.options.GetOr(AxesOf(p.axes));
    ReviseGridValid(renamed, next, max, axes, edit.overrides, edit.defaults);
    FinishedValid(next, max, Revise(renamed, next, max, axes, edit.overrides, edit.defaults),
                  edit.status.GetOr(p.status), 1);
  }

  lemma {:induction false} UpdateKeeps(s: Store, max: nat, id: nat, edit: Edit, refused: bool)
    requires StoreValid(s, max)
    ensures StoreValid(Update(s, max, id, edit, refused).store, max)
  {
    if Update(s, max, id, edit, refused).error.None? {
      assert ProductValid(s.products[id], s.next, max);
      EditedValid(s.products[id], s.next, max, edit, refused);
      var done := Edited(s.products[id], s.next, max, edit, refused).value;
      StoredIn(s, max, id, done.0, done.1);
    }
  }

  lemma {:induction false} UniqueMembers(ids: seq<nat>, id: nat)
    ensures id in Unique(ids) <==> id in ids
  {
    if ids != [] {
      UniqueMembers(ids[..|ids| - 1], id);
      assert ids == ids[..|ids| - 1] + [ids[|ids| - 1]];
    }
  }

  lemma {:induction false} UniqueDistinct(ids: seq<nat>)
    ensures Distinct(Unique(ids))
  {
    if ids != [] {
      var front := ids[..|ids| - 1];
      UniqueDistinct(front);
      forall id { UniqueMembers(front, id); }
      assert forall i :: 0 <= i < |Unique(front)| ==> Unique(front)[i] in Unique(front);
    }
  }

  /** The lock order: every selected id once, in ascending order, whatever the request listed. */
  lemma {:induction false} SelectionSorted(ids: seq<nat>)
    ensures forall id :: id in Selection(ids) <==> id in ids
    ensures forall i, j :: 0 <= i < j < |Selection(ids)| ==> Selection(ids)[i] < Selection(ids)[j]
  {
    var s := Selection(ids);
    UniqueDistinct(ids);
    SortDistinct(IdOrder, Unique(ids));
    assert TotalPreorder(IdOrder);
    SortSorted(IdOrder, Unique(ids));
    SortMembers(IdOrder, Unique(ids));
    forall id ensures id in s <==> id in ids { UniqueMembers(ids, id); }
    forall i, j | 0 <= i < j < |s| ensures s[i] < s[j] { assert IdOrder(s[i], s[j]); }
  }

  /** Why one listing of a selection may not take the status. */
  ghost predicate Refuses(p: Product, id: nat, status: Status, refused: set<nat>) {
    status == ACTIVE && (id in refused || !AnySellable(p.variants))
  }

  /** All or nothing: every listing of the selection is settled once, or none is. */
  lemma {:induction false} SettleEachMeans(products: map<nat, Product>, ids: seq<nat>, status: Status,
                                           refused: set<nat>)
    requires Distinct(ids) && forall id :: id in ids ==> id in products
    ensures SettleEach(products, ids, status, refused).Ok? <==> forall id :: id in ids ==>
                !Refuses(products[id], id, status, refused)
    ensures SettleEach(products, ids, status, refused).Ok? ==>
              var after := SettleEach(products, ids, status, refused).value;
              && after.Keys == products.Keys
              && (forall id :: id in ids ==> Settle(products[id], status, 1) == Ok(after[id]))
              && (forall id :: id in products && id !in ids ==> after[id] == products[id])
  {
    if ids != [] {
      assert forall id :: id in ids <==> id == ids[0] || id in ids[1..];
      if !Refuses(products[ids[0]], ids[0], status, refused) {
        var p := Settle(products[ids[0]], status, 1).value;
        assert ids[0] !in ids[1..];
        SettleEachMeans(products[ids[0] := p], ids[1..], status, refused);
      }
    }
  }

  lemma {:induction false} ChangeStatusesKeeps(s: Store, max: nat, ids: seq<nat>, status: Status, refused: set<nat>)
    requires StoreValid(s, max)
    ensures StoreValid(ChangeStatuses(s, ids, status, refused).store, max)
  {
    var selection := Selection(ids);
    SelectionSorted(ids);
    if ChangeStatuses(s, ids, status, refused).error.None? {
      SettleEachMeans(s.products, selection, status, refused);
      var after := SettleEach(s.products, selection, status, refused).value;
      forall id | id in after ensures ProductValid(after[id], s.next, max) {
        assert ProductValid(s.products[id], s.next, max);
        if id in selection {
          assert LiveProduct(s, id);
          SettledValid(s.products[id], status, 1, s.next, max);
        }
      }
    }
  }

  lemma {:induction false} RemoveKeeps(s: Store, max: nat, id: nat)
    requires StoreValid(s, max)
    ensures StoreValid(Remove(s, id).store, max)
  {
    if LiveProduct(s, id) {
      StoredIn(s, max, id, Remove(s, id).store.products[id], s.next);
    }
  }

  // -------------------------------------------------------------------- runs

  datatype Op =
    | CreateOp(input: NewProduct, refused: bool)
    | UpdateOp(id: nat, edit: Edit, refused: bool)
    | StatusOp(ids: seq<nat>, status: Status, refusedIds: set<nat>)
    | RemoveOp(id: nat)

  function Step(s: Store, max: nat, op: Op): Outcome {
    match op
    case CreateOp(input, refused) => Create(s, max, DraftOf(s, input), input, refused)
    case UpdateOp(id, edit, refused) => Update(s, max, id, edit, refused)
    case StatusOp(ids, status, refused) => ChangeStatuses(s, ids, status, refused)
    case RemoveOp(id) => Remove(s, id)
  }

  function Run(s: Store, max: nat, ops: seq<Op>): Store
    decreases |ops|
  {
    if ops == [] then s else Run(Step(s, max, ops[0]).store, max, ops[1..])
  }

  lemma {:induction false} StepKeeps(s: Store, max: nat, op: Op)
    requires StoreValid(s, max)
    ensures StoreValid(Step(s, max, op).store, max)
  {
    match op
    case CreateOp(input, refused) => CreateKeeps(s, max, DraftOf(s, input), input, refused);
    case UpdateOp(id, edit, refused) => UpdateKeeps(s, max, id, edit, refused);
    case StatusOp(ids, status, refused) => ChangeStatusesKeeps(s, max, ids, status, refused);
    case RemoveOp(id) => RemoveKeeps(s, max, id);
  }

  /** Whatever is written, in whatever order: every product's grid, prices and status stay consistent. */
  lemma {:induction false} RunKeeps(s: Store, max: nat, ops: seq<Op>)
    requires StoreValid(s, max)
    ensures StoreValid(Run(s, max, ops), max)
    decreases |ops|
  {
    if ops != [] {
      StepKeeps(s, max, ops[0]);
      RunKeeps(Step(s, max, ops[0]).store, max, ops[1..]);
    }
  }

  /** A refused write leaves every row as it was. */
  lemma {:induction false} RefusedChangesNothing(s: Store, max: nat, op: Op)
    requires Step(s, max, op).error.Some?
    ensures Step(s, max, op).store == s
  {
  }

  /**
   * What the invariant says of a live listing: one live variant per combination on offer, and no more that can be sold.
   */
  lemma {:induction false} ExactlyOneVariant(s: Store, max: nat, id: nat, c: Combination) returns (k: nat)
    requires StoreValid(s, max) && LiveProduct(s, id) && IsCombination(AxesOf(s.products[id].axes), c)
    ensures var p := s.products[id];
            && Offered(p.axes, c) && k < |p.variants|
            && (forall l :: 0 <= l < |p.variants| ==>
                  (!p.variants[l].deleted && p.variants[l].choiceIds == IdsFor(p.axes, c) <==> l == k))
  {
    var p := s.products[id];
    assert ProductValid(p, s.next, max);
    OfferedIffCombination(p.axes, c);
    var ids := IdsFor(p.axes, c);
    assert HasLive(p.variants, ids);
    k :| 0 <= k < |p.variants| && !p.variants[k].deleted && p.variants[k].choiceIds == ids;
    forall l | 0 <= l < |p.variants| && l != k ensures !(!p.variants[l].deleted && p.variants[l].choiceIds == ids) {
      OnlyOneLive(p.axes, p.variants, s.next, Min(k, l), Max(k, l));
    }
  }

  /**
   * Settling derives the price from the variants as they are, refuses a sale with nothing to sell, and changes nothing
   * else.
   */
  lemma {:induction false} SettleMeans(p: Product, status: Status, increment: nat)
    ensures Settle(p, status, increment).Ok? <==> status != ACTIVE || exists k ::
                0 <= k < |p.variants| && Sellable(p.variants[k])
    ensures Settle(p, status, increment).Ok? ==>
              var after := Settle(p, status, increment).value;
              && IsMinPrice(p.variants, after.minPrice) && after.status == status
              && after.version == p.version + increment
              && after.axes == p.axes && after.variants == p.variants && after.name == p.name
              && after.deleted == p.deleted
  {
    LowestIsMin(p.variants);
  }

  /** A removed listing keeps its rows, sells nothing, and no later write reaches it. */
  lemma {:induction false} RemovedForGood(s: Store, max: nat, id: nat, op: Op)
    requires LiveProduct(s, id) && StoreValid(s, max)
    ensures Remove(s, id).error.None?
    ensures var after := Remove(s, id).store;
            && after.products.Keys == s.products.Keys
            && (forall k :: k in s.products && k != id ==> after.products[k] == s.products[k])
            && var p := after.products[id];
               && p.deleted && p.status == INACTIVE && p.minPrice == None && p.version == s.products[id].version + 1
               && |p.variants| == |s.products[id].variants|
               && (forall k :: 0 <= k < |p.variants| ==> p.variants[k].deleted && !Sellable(p.variants[k]))
               && (Step(after, max, op).error.None? ==> id in Step(after, max, op).store.products
                                                        && Step(after, max, op).store.products[id] == p)
  {
    var after := Remove(s, id).store;
    match op
    case CreateOp(input, refused) =>
    case UpdateOp(other, edit, refused) =>
    case StatusOp(ids, status, refused) =>
      SelectionSorted(ids);
      if AllLive(after, Selection(ids)) {
        assert id !in Selection(ids);
        SettleEachMeans(after.products, Selection(ids), status, refused);
      }
    case RemoveOp(other) =>
  }

  // ------------------------------------------------------------ lost updates

  /**
   * An edit is written from the current version only, bumps it once, and sets the name and status it gives or keeps
   * them.
   */
  lemma {:induction false} EditMeans(p: Product, next: nat, max: nat, edit: Edit, refused: bool)
    requires Edited(p, next, max, edit, refused).Ok?
    ensures var after := Edited(p, next, max, edit, refused).value.0;
            && p.version == edit.version && after.version == p.version + 1 && after.deleted == p.deleted
            && (if edit.name.Some? then after.name == edit.name.value else after.name == p.name)
            && (if edit.status.Some? then after.status == edit.status.value else after.status == p.status)
  {
  }

  /** Of two edits made from one version, at most one is written. */
  lemma {:induction false} SecondEditLoses(s: Store, max: nat, id: nat, first: Edit, second: Edit, refused: bool,
                                           refused': bool)
    requires Update(s, max, id, first, refused).error.None? && second.version == first.version
    ensures Update(Update(s, max, id, first, refused).store, max, id, second, refused').error == Some(VersionConflict)
  {
    EditMeans(s.products[id], s.next, max, first, refused);
    var after := Update(s, max, id, first, refused).store;
    assert LiveProduct(after, id) && after.products[id].version == second.version + 1;
  }
}
