// The handler registry as the program keeps it: nodes that are linked, filled and
// emptied in place (esp_event.c).  Every operation does to the nodes what its
// counterpart in EventTree does to the tree they stand for.

module EventLoop {
  import opened Machine
  import T = EventTree
  import O = EventOrder

  ghost predicate Distinct<N>(nodes: seq<N>) {
    forall j, k :: 0 <= j < k < |nodes| ==> nodes[j] != nodes[k]
  }

  // ---- Lists of handlers ----

  /// handler_instances_add: a handler goes to the end of the list.  `mem` is the
  /// number of allocations that will succeed; two are needed.
  method InstancesAdd(hs: seq<T.Handler>, h: T.Handler, mem: nat) returns (r: seq<T.Handler>, ok: bool)
    ensures ok <==> mem >= 2
    ensures r == if ok then hs + [h] else hs
  {
    if mem < 2 {
      return hs, false;
    }
    return hs + [h], true;
  }

  /// handler_instances_remove: the first handler with this context goes.
  method InstancesRemove(hs: seq<T.Handler>, ctx: nat) returns (r: seq<T.Handler>, ok: bool)
    ensures (r, ok) == T.RemoveHandler(hs, ctx)
  {
    for i := 0 to |hs|
      invariant forall j :: 0 <= j < i ==> hs[j].ctx != ctx
    {
      if hs[i].ctx == ctx {
        RemoveAt(hs, ctx, i);
        return hs[..i] + hs[i + 1..], true;
      }
    }
    RemoveAt(hs, ctx, |hs|);
    return hs, false;
  }

  lemma {:induction false} RemoveAt(hs: seq<T.Handler>, ctx: nat, i: nat)
    requires i <= |hs| && (forall j :: 0 <= j < i ==> hs[j].ctx != ctx) && (i < |hs| ==> hs[i].ctx == ctx)
    ensures T.RemoveHandler(hs, ctx) == if i < |hs| then (hs[..i] + hs[i + 1..], true) else (hs, false)
  {
    if i == 0 {
      assert i < |hs| ==> hs[..0] + hs[1..] == hs[1..];
    } else {
      assert hs[0].ctx != ctx;
      RemoveAt(hs[1..], ctx, i - 1);
      assert i < |hs| ==> [hs[0]] + (hs[1..][..i - 1] + hs[1..][i..]) == hs[..i] + hs[i + 1..];
      assert [hs[0]] + hs[1..] == hs;
    }
  }

  // ---- Id nodes ----

  class IdNode {
    const id: int
    var handlers: seq<T.Handler>

    constructor (id: int, handlers: seq<T.Handler>)
      ensures this.id == id && this.handlers == handlers
    {
      this.id, this.handlers := id, handlers;
    }

    ghost function View(): T.IdNode
      reads this
    {
      T.IdNode(id, handlers)
    }

    method Add(h: T.Handler, mem: nat) returns (ok: bool)
      modifies this
      ensures ok <==> mem >= 2
      ensures handlers == if ok then old(handlers) + [h] else old(handlers)
    {
      handlers, ok := InstancesAdd(handlers, h, mem);
    }

    method Remove(ctx: nat) returns (found: bool)
      modifies this
      ensures (handlers, found) == T.RemoveHandler(old(handlers), ctx)
    {
      handlers, found := InstancesRemove(handlers, ctx);
    }
  }

  ghost function IdViews(ids: seq<IdNode>): (r: seq<T.IdNode>)
    reads ids
    ensures |r| == |ids| && forall i :: 0 <= i < |ids| ==> r[i] == ids[i].View()
  {
    seq(|ids|, i requires 0 <= i < |ids| reads ids => ids[i].View())
  }

  method FindId(ids: seq<IdNode>, id: int) returns (found: nat)
    ensures found == T.LastId(IdViews(ids), id)
  {
    found := |ids|;
    for i := 0 to |ids|
      invariant found == |ids| || (found < i && ids[found].id == id)
      invariant forall j :: 0 <= j < i && (found == |ids| || found < j) ==> ids[j].id != id
    {
      if ids[i].id == id {
        found := i;
      }
    }
    ghost var v := IdViews(ids);
    assert forall j :: 0 <= j < |v| ==> v[j].id == ids[j].id;
    ghost var k := T.LastId(v, id);
    assert k < |v| ==> v[k].id == id;
    assert found < |v| ==> v[found].id == id;
  }

  class BaseNode {
    const base: nat
    var handlers: seq<T.Handler>
    var ids: seq<IdNode>
    ghost var Repr: set<object>

    constructor (base: nat)
      ensures this.base == base && handlers == [] && ids == [] && Valid() && fresh(Repr)
    {
      this.base, handlers, ids := base, [], [];
      Repr := {this};
    }

    ghost predicate Valid()
      reads this, Repr
    {
      this in Repr && Distinct(ids) && forall j :: 0 <= j < |ids| ==> ids[j] in Repr
    }

    ghost function View(): T.BaseNode
      reads this, ids
    {
      T.BaseNode(base, handlers, IdViews(ids))
    }

    /// base_node_add_handler
    method Add(p: T.Pattern, h: T.Handler, mem: nat) returns (ok: bool)
      requires Valid() && !p.AnyEvent?
      modifies Repr
      ensures Valid() && fresh(Repr - old(Repr))
      ensures mem >= 3 ==> ok
      ensures View() == if ok then T.AddToBase(old(View()), p, h) else old(View())
    {
      if p.OfBase? {
        var hs;
        hs, ok := InstancesAdd(handlers, h, mem);
        handlers := hs;
        assert IdViews(ids) == old(IdViews(ids));
      } else {
        ok := AddToId(p.id, h, mem);
      }
    }

    /// The part of base_node_add_handler for a specific id: the last id node with
    /// this id gets the handler, or a new node at the end.
    method AddToId(id: int, h: T.Handler, mem: nat) returns (ok: bool)
      requires Valid()
      modifies Repr
      ensures Valid() && fresh(Repr - old(Repr)) && handlers == old(handlers)
      ensures mem >= 3 ==> ok
      ensures IdViews(ids) == if ok then T.AddToIds(old(IdViews(ids)), id, h) else old(IdViews(ids))
    {
      hide T.LastId;
      ghost var v := IdViews(ids);
      var found := FindId(ids, id);
      if found == |ids| {
        ok := NewId(id, h, mem);
      } else {
        ok := ids[found].Add(h, mem);
        assert IdViews(ids) == v[found := ids[found].View()];
      }
    }

    method NewId(id: int, h: T.Handler, mem: nat) returns (ok: bool)
      requires Valid()
      modifies this
      ensures Valid() && fresh(Repr - old(Repr)) && handlers == old(handlers)
      ensures mem >= 3 ==> ok
      ensures IdViews(ids) == old(IdViews(ids)) + if ok then [T.IdNode(id, [h])] else []
    {
      if mem < 1 {
        return false;
      }
      var hs;
      hs, ok := InstancesAdd([], h, mem - 1);
      if ok {
        assert hs == [h];
        var node := new IdNode(id, hs);
        ids, Repr := ids + [node], Repr + {node};
      }
    }

    /// base_node_remove_handler
    method Remove(p: T.Pattern, ctx: nat) returns (ok: bool)
      requires Valid() && !p.AnyEvent?
      modifies Repr
      ensures Valid() && Repr == old(Repr)
      ensures (View(), ok) == T.RemoveFromBase(old(View()), p, ctx)
    {
      if p.OfBase? {
        var hs;
        hs, ok := InstancesRemove(handlers, ctx);
        handlers := hs;
        assert IdViews(ids) == old(IdViews(ids));
      } else {
        ok := RemoveFromId(p.id, ctx);
      }
    }

    /// The part of base_node_remove_handler for a specific id.
    method RemoveFromId(id: int, ctx: nat) returns (ok: bool)
      requires Valid()
      modifies Repr
      ensures Valid() && Repr == old(Repr) && handlers == old(handlers)
      ensures (IdViews(ids), ok) == T.RemoveFromIds(old(IdViews(ids)), id, ctx)
    {
      ghost var v := IdViews(ids);
      hide T.RemoveFromIds, T.RemoveHandler, Onto;
      OntoNothing(T.RemoveFromIds(v, id, ctx));
      assert v[0..] == v && IdViews(ids)[..0] == [];
      for i := 0 to |ids|
        invariant ids == old(ids) && handlers == old(handlers) && Repr == old(Repr)
        invariant forall j :: i <= j < |ids| ==> ids[j].View() == v[j]
        invariant T.RemoveFromIds(v, id, ctx) == Onto(IdViews(ids)[..i], T.RemoveFromIds(v[i..], id, ctx))
      {
        ghost var now := IdViews(ids);
        var node := ids[i];
        RemoveIdsStep(v, i, id, ctx);
        if node.id == id {
          var found := node.Remove(ctx);
          if found && node.handlers == [] {
            assert IdViews(ids[..i]) == now[..i];
            UnlinkId(i, v[i + 1..]);
            OntoAll(now[..i], v[i + 1..], true);
            return true;
          }
        }
        OntoMore(now, i, node.View(), T.RemoveFromIds(v[i + 1..], id, ctx));
        assert IdViews(ids) == now[i := node.View()];
      }
      RemoveIdsNone(id, ctx);
      assert v[|v|..] == [] && IdViews(ids)[..|v|] == IdViews(ids);
      OntoAll(IdViews(ids), [], false);
      assert IdViews(ids) + [] == IdViews(ids);
      return false;
    }

    method UnlinkId(k: nat, ghost rest: seq<T.IdNode>)
      requires Valid() && k < |ids| && IdViews(ids[k + 1..]) == rest
      modifies this`ids
      ensures Valid() && IdViews(ids) == old(IdViews(ids[..k])) + rest
    {
      ids := ids[..k] + ids[k + 1..];
    }

    /// The handlers of this node that an event `id` of its base runs.
    method Run(id: int) returns (ran: seq<T.Reg>)
      ensures ran == T.Tag(T.OfBase(base), handlers) + T.RunIds(base, IdViews(ids), id)
    {
      ran := T.Tag(T.OfBase(base), handlers);
      ghost var v := IdViews(ids);
      assert v[0..] == v;
      for i := 0 to |ids|
        invariant T.RunIds(base, v, id) == T.RunIds(base, v[i..], id)
      {
        assert v[i..][0] == v[i] && v[i..][1..] == v[i + 1..];
        if ids[i].id == id {
          return ran + T.Tag(T.OfId(base, id), ids[i].handlers);
        }
      }
    }
  }

  lemma RemoveIdsStep(v: seq<T.IdNode>, i: nat, id: int, ctx: nat)
    requires i < |v|
    ensures
      var (hs, found) := if v[i].id == id then T.RemoveHandler(v[i].handlers, ctx) else (v[i].handlers, false);
      T.RemoveFromIds(v[i..], id, ctx) ==
        if found && hs == [] then (v[i + 1..], true)
        else Onto([T.IdNode(v[i].id, hs)], T.RemoveFromIds(v[i + 1..], id, ctx))
  {
    assert v[i..][0] == v[i] && v[i..][1..] == v[i + 1..];
  }

  lemma RemoveIdsNone(id: int, ctx: nat)
    ensures T.RemoveFromIds([], id, ctx) == ([], false)
  {
  }

  // ---- Base nodes ----

  class LoopNode {
    var handlers: seq<T.Handler>
    var bases: seq<BaseNode>
    ghost var Repr: set<object>

    constructor ()
      ensures handlers == [] && bases == [] && Valid() && fresh(Repr)
    {
      handlers, bases := [], [];
      Repr := {this};
    }

    ghost predicate Valid()
      reads this, Repr
    {
      && this in Repr
      && (forall j :: 0 <= j < |bases| ==>
            bases[j] in Repr && bases[j].Repr <= Repr && this !in bases[j].Repr && bases[j].Valid())
      && (forall j, k :: 0 <= j < k < |bases| ==> bases[j].Repr !! bases[k].Repr)
    }

    ghost function BaseViews(): (r: seq<T.BaseNode>)
      requires Valid()
      reads this, Repr
      ensures |r| == |bases| && forall i :: 0 <= i < |bases| ==> r[i] == bases[i].View()
    {
      seq(|bases|, i requires 0 <= i < |bases| && Valid() reads this, Repr => bases[i].View())
    }

    ghost function View(): T.LoopNode
      requires Valid()
      reads this, Repr
    {
      T.LoopNode(handlers, BaseViews())
    }

    method FindBase(base: nat) returns (found: nat)
      requires Valid()
      ensures found == T.LastBase(BaseViews(), base)
    {
      found := |bases|;
      for i := 0 to |bases|
        invariant found == |bases| || (found < i && bases[found].base == base)
        invariant forall j :: 0 <= j < i && (found == |bases| || found < j) ==> bases[j].base != base
      {
        if bases[i].base == base {
          found := i;
        }
      }
      ghost var v := BaseViews();
      assert forall j :: 0 <= j < |v| ==> v[j].base == bases[j].base;
      ghost var k := T.LastBase(v, base);
      assert k < |v| ==> v[k].base == base;
      assert found < |v| ==> v[found].base == base;
    }

    method NewBase(p: T.Pattern, h: T.Handler, mem: nat) returns (ok: bool)
      requires Valid() && !p.AnyEvent?
      modifies this
      ensures Valid() && fresh(Repr - old(Repr)) && handlers == old(handlers)
      ensures mem >= 4 ==> ok
      ensures BaseViews() ==
        old(BaseViews()) + if ok then [T.AddToBase(T.BaseNode(p.base, [], []), p, h)] else []
    {
      hide T.AddToBase;
      if mem < 1 {
        return false;
      }
      var node := new BaseNode(p.base);
      ok := node.Add(p, h, mem - 1);
      if ok {
        bases, Repr := bases + [node], Repr + node.Repr;
      }
    }

    method AddAt(k: nat, p: T.Pattern, h: T.Handler, mem: nat) returns (ok: bool)
      requires Valid() && !p.AnyEvent? && k < |bases|
      modifies Repr
      ensures Valid() && fresh(Repr - old(Repr)) && handlers == old(handlers)
      ensures mem >= 4 ==> ok
      ensures ok ==> BaseViews() == old(BaseViews()[k := T.AddToBase(bases[k].View(), p, h)])
      ensures !ok ==> BaseViews() == old(BaseViews())
    {
      hide T.AddToBase;
      ok := bases[k].Add(p, h, mem);
      Repr := Repr + bases[k].Repr;
    }

    /// loop_node_add_handler
    method Add(p: T.Pattern, h: T.Handler, mem: nat) returns (ok: bool)
      requires Valid()
      modifies Repr
      ensures Valid() && fresh(Repr - old(Repr))
      ensures mem >= 4 ==> ok
      ensures View() == if ok then T.AddToLoop(old(View()), p, h) else old(View())
    {
      if p.AnyEvent? {
        var hs;
        hs, ok := InstancesAdd(handlers, h, mem);
        handlers := hs;
        assert BaseViews() == old(BaseViews());
        return;
      }
      hide T.AddToBase, T.LastBase, T.NeedsBaseNode;
      var needs, found := Search(p);
      if needs {
        ok := NewBase(p, h, mem);
      } else {
        ok := AddAt(found, p, h, mem);
      }
    }

    /// The base node for a new handler, unless it needs one of its own.
    method Search(p: T.Pattern) returns (needs: bool, found: nat)
      requires Valid() && !p.AnyEvent?
      ensures needs == T.NeedsBaseNode(BaseViews(), p)
      ensures found == T.LastBase(BaseViews(), p.base)
    {
      found := FindBase(p.base);
      hide T.LastBase;
      needs := || found == |bases|
        || (p.OfBase? && bases[found].ids != [])
        || (p.OfBase? && bases[|bases| - 1].base != p.base && bases[|bases| - 1].ids != []);
    }

    /// loop_node_remove_handler
    method Remove(p: T.Pattern, ctx: nat) returns (ok: bool)
      requires Valid()
      modifies Repr
      ensures Valid() && Repr == old(Repr)
      ensures (View(), ok) == T.RemoveFromLoop(old(View()), p, ctx)
    {
      if p.AnyEvent? {
        var hs;
        hs, ok := InstancesRemove(handlers, ctx);
        handlers := hs;
        assert BaseViews() == old(BaseViews());
      } else {
        ok := RemoveFromBases(p, ctx);
      }
    }

    method RemoveFromBases(p: T.Pattern, ctx: nat) returns (ok: bool)
      requires Valid() && !p.AnyEvent?
      modifies Repr
      ensures Valid() && Repr == old(Repr) && handlers == old(handlers)
      ensures (BaseViews(), ok) == T.RemoveFromBases(old(BaseViews()), p, ctx)
    {
      ghost var v := BaseViews();
      hide T.RemoveFromBases, T.VisitBase, Onto;
      OntoNothing(T.RemoveFromBases(v, p, ctx));
      assert v[0..] == v && v[..0] == [];
      for i := 0 to |bases|
        invariant Valid() && bases == old(bases) && handlers == old(handlers) && Repr == old(Repr)
        invariant BaseViews()[i..] == v[i..]
        invariant T.RemoveFromBases(v, p, ctx) == Onto(BaseViews()[..i], T.RemoveFromBases(v[i..], p, ctx))
      {
        ghost var now := BaseViews();
        assert now[i] == now[i..][0] == v[i] && now[i + 1..] == now[i..][1..] == v[i + 1..];
        RemoveBasesStep(v, i, p, ctx);
        var gone := Visit(i, p, ctx);
        if gone {
          OntoAll(now[..i], v[i + 1..], true);
          return true;
        }
        OntoMore(now, i, BaseViews()[i], T.RemoveFromBases(v[i + 1..], p, ctx));
      }
      RemoveBasesNone(p, ctx);
      assert v[|v|..] == [] && BaseViews()[..|v|] == BaseViews();
      OntoAll(BaseViews(), [], false);
      assert BaseViews() + [] == BaseViews();
      return false;
    }

    /// One turn of the loop in loop_node_remove_handler: a base node that this leaves
    /// empty is unlinked.
    method Visit(k: nat, p: T.Pattern, ctx: nat) returns (gone: bool)
      requires Valid() && !p.AnyEvent? && k < |bases|
      modifies this`bases, bases[k].Repr
      ensures Valid() && Repr == old(Repr) && handlers == old(handlers)
      ensures !gone ==> bases == old(bases)
      ensures
        var (n, res) := T.VisitBase(old(bases[k].View()), p, ctx);
        && gone == (res && n.handlers == [] && n.ids == [])
        && BaseViews() == if gone then old(BaseViews()[..k] + BaseViews()[k + 1..]) else old(BaseViews())[k := n]
    {
      if bases[k].base != p.base {
        return false;
      }
      hide T.RemoveFromBase;
      ghost var v := BaseViews();
      var res := RemoveAt(k, p, ctx);
      gone := res && bases[k].handlers == [] && bases[k].ids == [];
      if gone {
        Unlink(k);
        assert v[k := T.RemoveFromBase(v[k], p, ctx).0][..k] == v[..k];
      }
    }

    method RemoveAt(k: nat, p: T.Pattern, ctx: nat) returns (ok: bool)
      requires Valid() && !p.AnyEvent? && k < |bases|
      modifies bases[k].Repr
      ensures Valid() && Repr == old(Repr) && bases == old(bases) && handlers == old(handlers)
      ensures ok == T.RemoveFromBase(old(bases[k].View()), p, ctx).1
      ensures BaseViews() == old(BaseViews()[k := T.RemoveFromBase(bases[k].View(), p, ctx).0])
    {
      ok := bases[k].Remove(p, ctx);
    }

    method Unlink(k: nat)
      requires Valid() && k < |bases|
      modifies this`bases
      ensures Valid() && BaseViews() == old(BaseViews()[..k] + BaseViews()[k + 1..])
    {
      bases := bases[..k] + bases[k + 1..];
    }

    /// The handlers of this node that an event `(base, id)` runs.
    method Run(base: nat, id: int) returns (ran: seq<T.Reg>)
      requires Valid()
      ensures ran == T.Tag(T.AnyEvent, handlers) + T.RunBases(BaseViews(), base, id)
    {
      ran := T.Tag(T.AnyEvent, handlers);
      ghost var start := ran;
      ghost var v := BaseViews();
      assert v[0..] == v;
      for i := 0 to |bases|
        invariant ran + T.RunBases(v[i..], base, id) == start + T.RunBases(v, base, id)
      {
        assert v[i..][0] == v[i] && v[i..][1..] == v[i + 1..];
        if bases[i].base == base {
          var more := bases[i].Run(id);
          Regroup(ran, more, T.RunBases(v[i + 1..], base, id));
          ran := ran + more;
        } else {
          assert [] + T.RunBases(v[i + 1..], base, id) == T.RunBases(v[i + 1..], base, id);
        }
      }
    }
  }

  lemma RemoveBasesStep(v: seq<T.BaseNode>, i: nat, p: T.Pattern, ctx: nat)
    requires i < |v| && !p.AnyEvent?
    ensures
      var (n, res) := T.VisitBase(v[i], p, ctx);
      T.RemoveFromBases(v[i..], p, ctx) ==
        if res && n.handlers == [] && n.ids == [] then (v[i + 1..], true)
        else Onto([n], T.RemoveFromBases(v[i + 1..], p, ctx))
  {
    assert v[i..][0] == v[i] && v[i..][1..] == v[i + 1..];
  }

  lemma RemoveBasesNone(p: T.Pattern, ctx: nat)
    requires !p.AnyEvent?
    ensures T.RemoveFromBases([], p, ctx) == ([], false)
  {
  }

  // ---- The loop ----

  const ANY_ID: int := -1
  datatype Outcome = Registered | InvalidArg | NoMemory

  /// The handlers a base and an id ask for; a specific id of any base is refused.
  function PatternOf(base: Option<nat>, id: int): Option<T.Pattern> {
    match base
    case None => if id == ANY_ID then Some(T.AnyEvent) else None
    case Some(b) => if id == ANY_ID then Some(T.OfBase(b)) else Some(T.OfId(b, id))
  }

  /// Whether a registration for `base` and `id` is meant for the event `(b, i)`.
  predicate MeantFor(base: Option<nat>, id: int, b: nat, i: int) {
    (base == None || base.value == b) && (id == ANY_ID || id == i)
  }

  /// The instance `ctx`, if it was registered for the same events.
  ghost predicate Named(e: T.Reg, base: Option<nat>, id: int, ctx: nat) {
    e.handler.ctx == ctx && forall b: nat, i: int :: T.Matches(e.pat, b, i) <==> MeantFor(base, id, b, i)
  }

  lemma PatternMeans(base: Option<nat>, id: int, b: nat, i: int)
    requires PatternOf(base, id).Some?
    ensures T.Matches(PatternOf(base, id).value, b, i) <==> MeantFor(base, id, b, i)
  {
  }

  /// Only the same pattern matches the same events.
  lemma PatternDecides(p: T.Pattern, q: T.Pattern)
    requires forall b: nat, i: int :: T.Matches(p, b, i) <==> T.Matches(q, b, i)
    ensures p == q
  {
    var b, i := if p.AnyEvent? then 0 else p.base, if p.OfId? then p.id else 0;
    assert T.Matches(p, b, i) && T.Matches(q, b, i);
    assert T.Matches(p, b, i + 1) <==> T.Matches(q, b, i + 1);
    assert T.Matches(p, b + 1, i) <==> T.Matches(q, b + 1, i);
  }

  lemma NamedMeans(e: T.Reg, base: Option<nat>, id: int, ctx: nat)
    requires PatternOf(base, id).Some?
    ensures Named(e, base, id, ctx) <==> e.pat == PatternOf(base, id).value && e.handler.ctx == ctx
  {
    var p := PatternOf(base, id).value;
    forall b: nat, i: int
      ensures T.Matches(p, b, i) <==> MeantFor(base, id, b, i)
    {
      PatternMeans(base, id, b, i);
    }
    if Named(e, base, id, ctx) {
      PatternDecides(e.pat, p);
    }
  }

  /// What one more entry at the end adds to each event.
  lemma LastMatches(live: seq<T.Reg>, e: T.Reg, base: Option<nat>, id: int)
    requires PatternOf(base, id) == Some(e.pat)
    ensures forall b: nat, i: int ::
      O.Matching(live + [e], b, i) == O.Matching(live, b, i) + if MeantFor(base, id, b, i) then [e] else []
  {
    forall b: nat, i: int
      ensures O.Matching(live + [e], b, i) == O.Matching(live, b, i) + if MeantFor(base, id, b, i) then [e] else []
    {
      O.MatchingConcat(live, [e], b, i);
      PatternMeans(base, id, b, i);
    }
  }

  /// `after` is `before` without the named instance, if that is there.
  ghost predicate TakenOut(before: seq<T.Reg>, after: seq<T.Reg>, base: Option<nat>, id: int, ctx: nat) {
    || (exists k: nat :: k < |before| && Named(before[k], base, id, ctx) && after == before[..k] + before[k + 1..])
    || ((forall e <- before :: !Named(e, base, id, ctx)) && after == before)
  }

  lemma DropTakesOut(s: seq<T.Reg>, base: Option<nat>, id: int, ctx: nat)
    requires O.Distinct(s) && PatternOf(base, id).Some?
    ensures TakenOut(s, O.Drop(s, PatternOf(base, id).value, ctx), base, id, ctx)
  {
    hide Named, O.Drop;
    var p := PatternOf(base, id).value;
    forall e | e in s
      ensures Named(e, base, id, ctx) <==> e.pat == p && e.handler.ctx == ctx
    {
      NamedMeans(e, base, id, ctx);
    }
    if k: nat :| k < |s| && Named(s[k], base, id, ctx) {
      assert s[k] in s;
      O.DropAt(s, p, ctx, k);
    } else {
      O.DropAbsent(s, p, ctx);
    }
  }

  class Loop {
    var nodes: seq<LoopNode>
    ghost var Repr: set<object>
    /// The live registrations, oldest first.
    ghost var live: seq<T.Reg>

    constructor ()
      ensures Valid() && fresh(Repr) && live == []
    {
      nodes, Repr, live := [], {this}, [];
      new;
      assert Views() == [];
    }

    ghost predicate Linked()
      reads this, Repr
    {
      && this in Repr
      && (forall j :: 0 <= j < |nodes| ==>
            nodes[j] in Repr && nodes[j].Repr <= Repr && this !in nodes[j].Repr && nodes[j].Valid())
      && (forall j, k :: 0 <= j < k < |nodes| ==> nodes[j].Repr !! nodes[k].Repr)
    }

    ghost function Views(): (r: seq<T.LoopNode>)
      requires Linked()
      reads this, Repr
      ensures |r| == |nodes| && forall i :: 0 <= i < |nodes| ==> r[i] == nodes[i].View()
    {
      seq(|nodes|, i requires 0 <= i < |nodes| && Linked() reads this, Repr => nodes[i].View())
    }

    /// The nodes hold the live registrations, in an order no event can tell from
    /// the order of registration.
    ghost predicate Valid()
      reads this, Repr
    {
      Linked() && O.Refines(Views(), live)
    }

    method AddNew(p: T.Pattern, h: T.Handler, mem: nat) returns (ok: bool)
      requires Linked()
      modifies this
      ensures Linked() && fresh(Repr - old(Repr)) && live == old(live)
      ensures mem >= 5 ==> ok
      ensures Views() == old(Views()) + if ok then [T.AddToLoop(T.LoopNode([], []), p, h)] else []
    {
      hide T.AddToLoop;
      if mem < 1 {
        return false;
      }
      var node := new LoopNode();
      assert node.View() == T.LoopNode([], []);
      ok := node.Add(p, h, mem - 1);
      if ok {
        nodes, Repr := nodes + [node], Repr + node.Repr;
      }
    }

    method AddLast(p: T.Pattern, h: T.Handler, mem: nat) returns (ok: bool)
      requires Linked() && nodes != []
      modifies Repr
      ensures Linked() && fresh(Repr - old(Repr)) && live == old(live)
      ensures mem >= 5 ==> ok
      ensures ok ==> Views() == old(Views()[|nodes| - 1 := T.AddToLoop(nodes[|nodes| - 1].View(), p, h)])
      ensures !ok ==> Views() == old(Views())
    {
      hide T.AddToLoop;
      var k := |nodes| - 1;
      ok := nodes[k].Add(p, h, mem);
      Repr := Repr + nodes[k].Repr;
    }

    /// esp_event_handler_register_with_internal
    method Register(base: Option<nat>, id: int, h: T.Handler, mem: nat) returns (err: Outcome)
      requires Valid() && forall e <- live :: e.handler.ctx != h.ctx
      modifies Repr
      ensures Valid() && fresh(Repr - old(Repr))
      ensures err == InvalidArg <==> base == None && id != ANY_ID
      ensures mem >= 5 ==> err != NoMemory
      ensures err != Registered ==> live == old(live)
      // The handler runs behind the earlier ones, for exactly the events it is meant for.
      ensures err == Registered ==>
        && |live| == |old(live)| + 1 && live[..|live| - 1] == old(live) && live[|live| - 1].handler == h
        && forall b: nat, i: int :: O.Matching(live, b, i) ==
             O.Matching(old(live), b, i) + if MeantFor(base, id, b, i) then [live[|live| - 1]] else []
    {
      if base == None && id != ANY_ID {
        return InvalidArg;
      }
      var p := PatternOf(base, id).value;
      hide O.Refines, T.Add, O.Matching, MeantFor;
      ghost var v := Views();
      var ok := Add(p, h, mem);
      if ok {
        O.RegisterRefines(v, live, p, h);
        LastMatches(live, T.Reg(p, h), base, id);
        SetLive(live + [T.Reg(p, h)]);
        err := Registered;
      } else {
        err := NoMemory;
      }
    }

    ghost method SetLive(regs: seq<T.Reg>)
      requires Linked()
      modifies this`live
      ensures live == regs && Linked() && Views() == old(Views())
    {
      live := regs;
    }

    /// esp_event_handler_unregister_with_internal
    method Unregister(base: Option<nat>, id: int, ctx: nat) returns (ok: bool)
      requires Valid()
      modifies Repr
      ensures Valid() && Repr == old(Repr)
      ensures ok <==> !(base == None && id != ANY_ID)
      ensures !ok ==> live == old(live)
      ensures ok ==> TakenOut(old(live), live, base, id, ctx)
    {
      if base == None && id != ANY_ID {
        return false;
      }
      var p := PatternOf(base, id).value;
      assert O.Distinct(live);
      hide O.Refines, T.Remove, O.Drop, O.Distinct, TakenOut;
      ghost var v := Views();
      Remove(p, ctx);
      DropTakesOut(live, base, id, ctx);
      O.UnregisterRefines(v, live, p, ctx);
      SetLive(O.Drop(live, p, ctx));
      return true;
    }

    /// The search for the loop node that takes a new handler.
    method Add(p: T.Pattern, h: T.Handler, mem: nat) returns (ok: bool)
      requires Linked()
      modifies Repr
      ensures Linked() && fresh(Repr - old(Repr)) && live == old(live)
      ensures mem >= 5 ==> ok
      ensures Views() == if ok then T.Add(old(Views()), p, h) else old(Views())
    {
      hide T.AddToLoop;
      if nodes == [] || (p.AnyEvent? && nodes[|nodes| - 1].bases != []) {
        ok := AddNew(p, h, mem);
      } else {
        ok := AddLast(p, h, mem);
      }
    }

    /// The search for the loop node that holds a handler.
    method Remove(p: T.Pattern, ctx: nat)
      requires Linked()
      modifies Repr
      ensures Linked() && Repr == old(Repr) && live == old(live)
      ensures Views() == T.Remove(old(Views()), p, ctx)
    {
      ghost var v := Views();
      hide T.Remove, T.RemoveFromLoop;
      assert v[0..] == v && v[..0] == [];
      for i := 0 to |nodes|
        invariant Linked() && nodes == old(nodes) && live == old(live) && Repr == old(Repr)
        invariant Views()[i..] == v[i..]
        invariant T.Remove(v, p, ctx) == Views()[..i] + T.Remove(v[i..], p, ctx)
      {
        ghost var now := Views();
        assert now[i] == now[i..][0] == v[i] && now[i + 1..] == now[i..][1..] == v[i + 1..];
        RemoveLoopsStep(v, i, p, ctx);
        var gone := Visit(i, p, ctx);
        if gone {
          return;
        }
        Slide(now, i, Views()[i], T.Remove(v[i + 1..], p, ctx));
      }
      RemoveLoopsNone(p, ctx);
      assert v[|v|..] == [] && Views()[..|v|] == Views();
      assert Views() + [] == Views();
    }

    /// One turn of the loop: a loop node that this leaves empty is unlinked.
    method Visit(k: nat, p: T.Pattern, ctx: nat) returns (gone: bool)
      requires Linked() && k < |nodes|
      modifies this`nodes, nodes[k].Repr
      ensures Linked() && Repr == old(Repr) && live == old(live)
      ensures !gone ==> nodes == old(nodes)
      ensures
        var (n, res) := T.RemoveFromLoop(old(nodes[k].View()), p, ctx);
        && gone == (res && n.handlers == [] && n.bases == [])
        && Views() == if gone then old(Views()[..k] + Views()[k + 1..]) else old(Views())[k := n]
    {
      hide T.RemoveFromLoop;
      ghost var v := Views();
      var res := RemoveAt(k, p, ctx);
      gone := res && nodes[k].bases == [] && nodes[k].handlers == [];
      if gone {
        Unlink(k);
        assert v[k := T.RemoveFromLoop(v[k], p, ctx).0][..k] == v[..k];
      }
    }

    method RemoveAt(k: nat, p: T.Pattern, ctx: nat) returns (ok: bool)
      requires Linked() && k < |nodes|
      modifies nodes[k].Repr
      ensures Linked() && Repr == old(Repr) && nodes == old(nodes) && live == old(live)
      ensures ok == T.RemoveFromLoop(old(nodes[k].View()), p, ctx).1
      ensures Views() == old(Views()[k := T.RemoveFromLoop(nodes[k].View(), p, ctx).0])
    {
      hide T.RemoveFromLoop;
      ok := nodes[k].Remove(p, ctx);
    }

    method Unlink(k: nat)
      requires Linked() && k < |nodes|
      modifies this`nodes
      ensures Linked() && Views() == old(Views()[..k] + Views()[k + 1..])
    {
      nodes := nodes[..k] + nodes[k + 1..];
    }

    /// The dispatch of one event in esp_event_loop_run.
    method Run(base: nat, id: int) returns (ran: seq<T.Reg>)
      requires Valid()
      ensures ran == O.Matching(live, base, id)
    {
      hide O.Refines, O.Matching, T.Dispatch, T.RunBases;
      ghost var v := Views();
      O.DispatchRefines(v, live, base, id);
      ran := [];
      assert v[0..] == v && v[|v|..] == [];
      for i := 0 to |nodes|
        invariant ran + T.Dispatch(v[i..], base, id) == T.Dispatch(v, base, id)
      {
        DispatchStep(v, i, base, id);
        var more := nodes[i].Run(base, id);
        Regroup(ran, more, T.Dispatch(v[i + 1..], base, id));
        ran := ran + more;
      }
      DispatchNone(base, id);
    }
  }

  lemma DispatchStep(v: T.Tree, i: nat, base: nat, id: int)
    requires i < |v|
    ensures T.Dispatch(v[i..], base, id) ==
      T.Tag(T.AnyEvent, v[i].handlers) + T.RunBases(v[i].bases, base, id) + T.Dispatch(v[i + 1..], base, id)
  {
    assert v[i..][0] == v[i] && v[i..][1..] == v[i + 1..];
  }

  lemma DispatchNone(base: nat, id: int)
    ensures T.Dispatch([], base, id) == []
  {
  }

  lemma Regroup<N>(a: seq<N>, b: seq<N>, c: seq<N>)
    ensures a + (b + c) == a + b + c
  {
  }

  lemma Slide<N>(now: seq<N>, i: nat, n: N, rest: seq<N>)
    requires i < |now|
    ensures now[i := n][i + 1..] == now[i + 1..]
    ensures now[i := n][..i + 1] + rest == now[..i] + ([n] + rest)
  {
    assert now[i := n][..i + 1] == now[..i] + [n];
  }

  lemma RemoveLoopsStep(v: seq<T.LoopNode>, i: nat, p: T.Pattern, ctx: nat)
    requires i < |v|
    ensures
      var (n, res) := T.RemoveFromLoop(v[i], p, ctx);
      T.Remove(v[i..], p, ctx) ==
        if res && n.handlers == [] && n.bases == [] then v[i + 1..]
        else [n] + T.Remove(v[i + 1..], p, ctx)
  {
    assert v[i..][0] == v[i] && v[i..][1..] == v[i + 1..];
  }

  lemma RemoveLoopsNone(p: T.Pattern, ctx: nat)
    ensures T.Remove([], p, ctx) == []
  {
  }

  /// A result found behind a part of a list that stays.
  ghost function Onto<N>(kept: seq<N>, rest: (seq<N>, bool)): (seq<N>, bool) {
    (kept + rest.0, rest.1)
  }

  lemma OntoNothing<N>(rest: (seq<N>, bool))
    ensures Onto([], rest) == rest
  {
    assert [] + rest.0 == rest.0;
  }

  lemma OntoMore<N>(now: seq<N>, i: nat, n: N, rest: (seq<N>, bool))
    requires i < |now|
    ensures now[i := n][i + 1..] == now[i + 1..]
    ensures Onto(now[i := n][..i + 1], rest) == Onto(now[..i], Onto([n], rest))
  {
    Slide(now, i, n, rest.0);
  }

  lemma OntoAll<N>(kept: seq<N>, rest: seq<N>, ok: bool)
    ensures Onto(kept, (rest, ok)) == (kept + rest, ok)
  {
  }
}
