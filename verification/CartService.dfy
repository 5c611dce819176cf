/** The cart service: the lines of one cart rewritten in place, each write proved against its specification. */
module CartService {
  import opened Prelude
  import Spec = Cart

  type Line = Spec.Line
  type Catalogue = Spec.Catalogue

  class Lines {
    const l: Spec.Limits
    var lines: seq<Line>
    var next: nat

    function Contents(): Spec.State reads this { Spec.State(lines, next) }

    ghost predicate Valid() reads this { Spec.Inv(l, Contents()) }

    constructor (l: Spec.Limits)
      ensures Valid() && this.l == l && Contents() == Spec.State([], 0)
    {
      this.l, lines, next := l, [], 0;
    }

    /** Whether a quantity of a variant may be ordered now, and why not. */
    method AssertOrderable(c: Catalogue, v: nat, quantity: nat) returns (error: Option<Spec.CartError>)
      ensures error == Spec.Orderable(c, v, quantity)
    {
      if v !in c || !c[v].live { return Some(Spec.Unavailable); }
      var variant := c[v];
      if !variant.isActive || !variant.productLive || !variant.productActive { return Some(Spec.Unavailable); }
      var limit := Spec.LimitOf(variant);
      if limit.Some? && quantity > limit.value { return Some(Spec.PurchaseLimit(limit.value)); }
      if quantity > variant.stock { return Some(Spec.StockExceeded(variant.stock)); }
      return None;
    }

    /** The line of a variant, by its unique index. */
    method FindVariant(v: nat) returns (at: Option<nat>)
      ensures at == Spec.Held(lines, v)
    {
      var i := |lines|;
      assert lines[..i] == lines;
      while i > 0
        invariant 0 <= i <= |lines|
        invariant forall j :: i <= j < |lines| ==> lines[j].variant != v
        invariant Spec.Held(lines, v) == Spec.Held(lines[..i], v)
      {
        assert lines[..i][..i - 1] == lines[..i - 1];
        i := i - 1;
        if lines[i].variant == v { return Some(i); }
      }
      return None;
    }

    method Add(c: Catalogue, item: Spec.Item) returns (error: Option<Spec.CartError>)
      requires Valid() && 1 <= item.quantity <= l.itemMax
      modifies this
      ensures Valid()
      ensures match Spec.Add(l, old(Contents()), c, item)
              case Err(e) => error == Some(e) && Contents() == old(Contents())
              case Ok(after) => error == None && Contents() == after
    {
      Spec.StepKeeps(l, Contents(), c, Spec.AddOp(item));
      var held := FindVariant(item.variant);
      var wanted := (match held case None => 0 case Some(i) => lines[i].quantity) + item.quantity;
      error := AssertOrderable(c, item.variant, wanted);
      if error.Some? { return; }
      if held.None? {
        if |lines| >= l.lineMax { return Some(Spec.CartFull); }
        var variant := c[item.variant];
        lines := lines + [Spec.Line(next, item.variant, variant.seller, wanted, variant.price)];
        next := next + 1;
        return None;
      }
      lines := lines[held.value := lines[held.value].(quantity := wanted)];
      return None;
    }

    method Update(c: Catalogue, id: nat, quantity: nat) returns (error: Option<Spec.CartError>)
      requires Valid() && 1 <= quantity <= l.itemMax
      modifies this`lines
      ensures Valid()
      ensures match Spec.Update(old(Contents()), c, id, quantity)
              case Err(e) => error == Some(e) && Contents() == old(Contents())
              case Ok(after) => error == None && Contents() == after
    {
      Spec.StepKeeps(l, Contents(), c, Spec.UpdateOp(id, quantity));
      var held := Spec.LineAt(lines, id);
      if held.None? { return Some(Spec.NotFound); }
      error := AssertOrderable(c, lines[held.value].variant, quantity);
      if error.Some? { return; }
      lines := lines[held.value := lines[held.value].(quantity := quantity)];
      return None;
    }

    /** Deletes the listed lines; ids of other carts are not among them and are ignored. */
    method Remove(ids: set<nat>)
      requires Valid()
      modifies this`lines
      ensures Valid()
      ensures Contents() == Spec.Remove(old(Contents()), ids)
    {
      Spec.StepKeeps(l, Contents(), map[], Spec.RemoveOp(ids));
      lines := Filter((x: Line) => x.id !in ids, lines);
    }

    /** Merges a list of items: nothing is refused, what cannot be held is capped or skipped, a full cart ends it. */
    method Merge(c: Catalogue, items: seq<Spec.Item>)
      requires Valid() && forall i :: 0 <= i < |items| ==> 1 <= items[i].quantity <= l.itemMax
      modifies this
      ensures Valid()
      ensures Contents() == Spec.Merge(l, old(Contents()), c, items)
    {
      ghost var start := Contents();
      Spec.MergeMeans(l, start, c, items, 0);
      for n := 0 to |items|
        invariant Spec.MergeUpTo(l, start, c, items, n) == Spec.Progress(Contents(), false, n)
      {
        var full := MergeItem(c, items[n]);
        if full {
          Stay(start, c, items, n + 1, |items|);
          return;
        }
      }
    }

    /** One item of a merge; whether it found the cart full. */
    method MergeItem(c: Catalogue, item: Spec.Item) returns (full: bool)
      requires item.quantity >= 1
      modifies this
      ensures full == Spec.Stops(l, old(Contents()), c, item)
      ensures full ==> Contents() == old(Contents())
      ensures !full ==> Contents() == Spec.MergeOne(l, old(Contents()), c, item)
    {
      if item.variant !in c || !c[item.variant].live || !c[item.variant].isActive { return false; }
      var variant := c[item.variant];
      if !variant.productLive || !variant.productActive { return false; }
      var held := FindVariant(item.variant);
      var cap := Spec.Cap(l, variant);
      var quantity := Min((match held case None => 0 case Some(i) => lines[i].quantity) + item.quantity, cap);
      if quantity < 1 { return false; }
      if held.None? {
        if |lines| >= l.lineMax { return true; }
        lines := lines + [Spec.Line(next, item.variant, variant.seller, quantity, variant.price)];
        next := next + 1;
      } else {
        lines := lines[held.value := lines[held.value].(quantity := quantity)];
      }
      return false;
    }

    /** Once full, a merge stays as it is. */
    lemma {:induction false} Stay(s: Spec.State, c: Catalogue, items: seq<Spec.Item>, m: nat, n: nat)
      requires m <= n <= |items| && Spec.MergeUpTo(l, s, c, items, m).full
      ensures Spec.MergeUpTo(l, s, c, items, n) == Spec.MergeUpTo(l, s, c, items, m)
    {
      if m < n { Stay(s, c, items, m, n - 1); }
    }
  }
}
