// The handler registry of an event loop as a value (esp_event.c).
//
// Handlers live at three levels: loop nodes hold the handlers of every event and
// a list of base nodes; base nodes hold the handlers of every event of a base and
// a list of id nodes; id nodes hold the handlers of one event.

module EventTree {

  /// What a handler was registered for: every event, one base, or one event.
  datatype Pattern = AnyEvent | OfBase(base: nat) | OfId(base: nat, id: int)

  /// A handler instance; `ctx` is the address of its context, which identifies it.
  datatype Handler = Handler(ctx: nat, fn: nat, arg: nat)

  datatype Reg = Reg(pat: Pattern, handler: Handler)

  datatype IdNode = IdNode(id: int, handlers: seq<Handler>)
  datatype BaseNode = BaseNode(base: nat, handlers: seq<Handler>, ids: seq<IdNode>)
  datatype LoopNode = LoopNode(handlers: seq<Handler>, bases: seq<BaseNode>)
  type Tree = seq<LoopNode>

  /// Whether a handler registered for `p` runs for the event `(base, id)`.
  predicate Matches(p: Pattern, base: nat, id: int) {
    match p
    case AnyEvent => true
    case OfBase(b) => b == base
    case OfId(b, i) => b == base && i == id
  }

  /// Whether some event runs handlers of both patterns.
  predicate Overlap(p: Pattern, q: Pattern) {
    match p
    case AnyEvent => true
    case OfBase(b) => q.AnyEvent? || q.base == b
    case OfId(b, i) => q.AnyEvent? || (q.base == b && (q.OfId? ==> q.id == i))
  }

  lemma OverlapMeaning(p: Pattern, q: Pattern)
    ensures Overlap(p, q) <==> exists b: nat, i :: Matches(p, b, i) && Matches(q, b, i)
  {
    if Overlap(p, q) {
      var b := if !p.AnyEvent? then p.base else if !q.AnyEvent? then q.base else 0;
      var i := if p.OfId? then p.id else if q.OfId? then q.id else 0;
      assert Matches(p, b, i) && Matches(q, b, i);
    }
  }

  // ---- The flat list a tree stands for ----

  function Tag(p: Pattern, hs: seq<Handler>): (r: seq<Reg>)
    ensures |r| == |hs| && forall i :: 0 <= i < |hs| ==> r[i] == Reg(p, hs[i])
  {
    seq(|hs|, i requires 0 <= i < |hs| => Reg(p, hs[i]))
  }

  function IdEntries(b: nat, ids: seq<IdNode>): seq<Reg> {
    if ids == [] then [] else Tag(OfId(b, ids[0].id), ids[0].handlers) + IdEntries(b, ids[1..])
  }

  function OneBase(n: BaseNode): seq<Reg> {
    Tag(OfBase(n.base), n.handlers) + IdEntries(n.base, n.ids)
  }

  function BaseEntries(bases: seq<BaseNode>): seq<Reg> {
    if bases == [] then [] else OneBase(bases[0]) + BaseEntries(bases[1..])
  }

  function OneLoop(n: LoopNode): seq<Reg> {
    Tag(AnyEvent, n.handlers) + BaseEntries(n.bases)
  }

  /// All registrations, in the order of the lists.
  function Entries(t: Tree): seq<Reg> {
    if t == [] then [] else OneLoop(t[0]) + Entries(t[1..])
  }

  // ---- Dispatch of one event ----

  function RunIds(b: nat, ids: seq<IdNode>, id: int): seq<Reg> {
    if ids == [] then []
    else if ids[0].id == id then Tag(OfId(b, id), ids[0].handlers)
    else RunIds(b, ids[1..], id)
  }

  function RunBases(bases: seq<BaseNode>, base: nat, id: int): seq<Reg> {
    if bases == [] then [] else
      (if bases[0].base == base then Tag(OfBase(base), bases[0].handlers) + RunIds(base, bases[0].ids, id) else [])
      + RunBases(bases[1..], base, id)
  }

  /// The handlers run for the event `(base, id)`, in order.
  function Dispatch(t: Tree, base: nat, id: int): seq<Reg> {
    if t == [] then [] else
      Tag(AnyEvent, t[0].handlers) + RunBases(t[0].bases, base, id) + Dispatch(t[1..], base, id)
  }

  // ---- Registration ----

  function LastId(ids: seq<IdNode>, id: int): (k: nat)
    ensures k <= |ids|
    ensures k < |ids| ==> ids[k].id == id
    ensures forall j :: k < j < |ids| ==> ids[j].id != id
    ensures k == |ids| ==> forall j :: 0 <= j < |ids| ==> ids[j].id != id
  {
    if ids == [] then 0 else
      var n := |ids| - 1;
      if ids[n].id == id then n else
        var k := LastId(ids[..n], id);
        if k == n then n + 1 else k
  }

  function LastBase(bases: seq<BaseNode>, base: nat): (k: nat)
    ensures k <= |bases|
    ensures k < |bases| ==> bases[k].base == base
    ensures forall j :: k < j < |bases| ==> bases[j].base != base
    ensures k == |bases| ==> forall j :: 0 <= j < |bases| ==> bases[j].base != base
  {
    if bases == [] then 0 else
      var n := |bases| - 1;
      if bases[n].base == base then n else
        var k := LastBase(bases[..n], base);
        if k == n then n + 1 else k
  }

  function AddToIds(ids: seq<IdNode>, id: int, h: Handler): seq<IdNode> {
    var k := LastId(ids, id);
    if k == |ids| then ids + [IdNode(id, [h])]
    else ids[k := ids[k].(handlers := ids[k].handlers + [h])]
  }

  function AddToBase(n: BaseNode, p: Pattern, h: Handler): BaseNode
    requires !p.AnyEvent?
  {
    if p.OfBase? then n.(handlers := n.handlers + [h])
    else n.(ids := AddToIds(n.ids, p.id, h))
  }

  /// Whether a handler needs a base node of its own, to stay behind earlier ones.
  predicate NeedsBaseNode(bases: seq<BaseNode>, p: Pattern)
    requires !p.AnyEvent?
  {
    var k := LastBase(bases, p.base);
    || k == |bases|
    || (p.OfBase? && bases[k].ids != [])
    || (p.OfBase? && bases[|bases| - 1].base != p.base && bases[|bases| - 1].ids != [])
  }

  function AddToBases(bases: seq<BaseNode>, p: Pattern, h: Handler): seq<BaseNode>
    requires !p.AnyEvent?
  {
    if NeedsBaseNode(bases, p) then bases + [AddToBase(BaseNode(p.base, [], []), p, h)]
    else var k := LastBase(bases, p.base); bases[k := AddToBase(bases[k], p, h)]
  }

  function AddToLoop(n: LoopNode, p: Pattern, h: Handler): LoopNode {
    if p.AnyEvent? then n.(handlers := n.handlers + [h])
    else n.(bases := AddToBases(n.bases, p, h))
  }

  predicate NeedsLoopNode(t: Tree, p: Pattern) {
    t == [] || (p.AnyEvent? && t[|t| - 1].bases != [])
  }

  function Add(t: Tree, p: Pattern, h: Handler): Tree {
    if NeedsLoopNode(t, p) then t + [AddToLoop(LoopNode([], []), p, h)]
    else t[|t| - 1 := AddToLoop(t[|t| - 1], p, h)]
  }

  // ---- Removal.  The flag says whether the code reports success to its caller. ----

  function RemoveHandler(hs: seq<Handler>, ctx: nat): (seq<Handler>, bool) {
    if hs == [] then (hs, false)
    else if hs[0].ctx == ctx then (hs[1..], true)
    else var (r, ok) := RemoveHandler(hs[1..], ctx); ([hs[0]] + r, ok)
  }

  function RemoveFromIds(ids: seq<IdNode>, id: int, ctx: nat): (seq<IdNode>, bool) {
    if ids == [] then (ids, false) else
      var n := ids[0];
      var (hs, found) := if n.id == id then RemoveHandler(n.handlers, ctx) else (n.handlers, false);
      if found && hs == [] then (ids[1..], true)
      else var (r, ok) := RemoveFromIds(ids[1..], id, ctx); ([n.(handlers := hs)] + r, ok)
  }

  function RemoveFromBase(n: BaseNode, p: Pattern, ctx: nat): (BaseNode, bool)
    requires !p.AnyEvent?
  {
    if p.OfBase? then var (hs, ok) := RemoveHandler(n.handlers, ctx); (n.(handlers := hs), ok)
    else var (ids, ok) := RemoveFromIds(n.ids, p.id, ctx); (n.(ids := ids), ok)
  }

  /// What the removal loop does to one base node.
  function VisitBase(n: BaseNode, p: Pattern, ctx: nat): (BaseNode, bool)
    requires !p.AnyEvent?
  {
    if n.base == p.base then RemoveFromBase(n, p, ctx) else (n, false)
  }

  function RemoveFromBases(bases: seq<BaseNode>, p: Pattern, ctx: nat): (seq<BaseNode>, bool)
    requires !p.AnyEvent?
  {
    if bases == [] then (bases, false) else
      var (n, res) := VisitBase(bases[0], p, ctx);
      if res && n.handlers == [] && n.ids == [] then (bases[1..], true)
      else var (r, ok) := RemoveFromBases(bases[1..], p, ctx); ([n] + r, ok)
  }

  function RemoveFromLoop(n: LoopNode, p: Pattern, ctx: nat): (LoopNode, bool) {
    if p.AnyEvent? then var (hs, ok) := RemoveHandler(n.handlers, ctx); (n.(handlers := hs), ok)
    else var (bases, ok) := RemoveFromBases(n.bases, p, ctx); (n.(bases := bases), ok)
  }

  function Remove(t: Tree, p: Pattern, ctx: nat): Tree {
    if t == [] then t else
      var (n, res) := RemoveFromLoop(t[0], p, ctx);
      if res && n.handlers == [] && n.bases == [] then t[1..]
      else [n] + Remove(t[1..], p, ctx)
  }
}
