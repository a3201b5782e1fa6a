// The handler registry refines a flat list: whatever was registered and
// unregistered before, an event runs the live handlers that match it, each once,
// in the order of their registration.

module EventOrder {
  import opened EventTree

  // ---- Flat lists ----

  /// The entries that run for `(base, id)`.
  function Matching(s: seq<Reg>, base: nat, id: int): seq<Reg> {
    if s == [] then [] else When(s[0], base, id) + Matching(s[1..], base, id)
  }

  function When(e: Reg, base: nat, id: int): seq<Reg> {
    if Matches(e.pat, base, id) then [e] else []
  }

  /// The list without the instance `ctx` registered for `p`.
  function Drop(s: seq<Reg>, p: Pattern, ctx: nat): seq<Reg> {
    if s == [] then [] else Unless(s[0], p, ctx) + Drop(s[1..], p, ctx)
  }

  function Unless(e: Reg, p: Pattern, ctx: nat): seq<Reg> {
    if e.pat == p && e.handler.ctx == ctx then [] else [e]
  }

  ghost predicate Distinct(s: seq<Reg>) {
    forall i, j :: 0 <= i < j < |s| ==> s[i].handler.ctx != s[j].handler.ctx
  }

  ghost predicate Absent(s: seq<Reg>, p: Pattern, ctx: nat) {
    forall e <- s :: !(e.pat == p && e.handler.ctx == ctx)
  }

  lemma {:induction false} MatchingConcat(s: seq<Reg>, t: seq<Reg>, base: nat, id: int)
    ensures Matching(s + t, base, id) == Matching(s, base, id) + Matching(t, base, id)
  {
    if s == [] {
      assert s + t == t;
    } else {
      hide When;
      MatchingConcat(s[1..], t, base, id);
      assert (s + t)[1..] == s[1..] + t && (s + t)[0] == s[0];
    }
  }

  lemma {:induction false} DropConcat(s: seq<Reg>, t: seq<Reg>, p: Pattern, ctx: nat)
    ensures Drop(s + t, p, ctx) == Drop(s, p, ctx) + Drop(t, p, ctx)
  {
    if s == [] {
      assert s + t == t;
    } else {
      hide Unless;
      DropConcat(s[1..], t, p, ctx);
      assert (s + t)[1..] == s[1..] + t && (s + t)[0] == s[0];
    }
  }

  lemma {:induction false} DropAbsent(s: seq<Reg>, p: Pattern, ctx: nat)
    requires Absent(s, p, ctx)
    ensures Drop(s, p, ctx) == s
  {
    if s != [] {
      DropAbsent(s[1..], p, ctx);
    }
  }

  /// Contexts are unique, so that at most one entry goes.
  lemma {:induction false} DropAt(s: seq<Reg>, p: Pattern, ctx: nat, k: nat)
    requires Distinct(s) && k < |s| && s[k].pat == p && s[k].handler.ctx == ctx
    ensures Drop(s, p, ctx) == s[..k] + s[k + 1..]
  {
    var rest := s[1..];
    assert forall j :: 0 <= j < |rest| ==> rest[j] == s[j + 1];
    if k == 0 {
      DropAbsent(rest, p, ctx);
      assert s[..0] + s[1..] == rest;
    } else {
      assert s[0].handler.ctx != s[k].handler.ctx;
      assert rest[k - 1] == s[k];
      DropAt(rest, p, ctx, k - 1);
      assert [s[0]] + (rest[..k - 1] + rest[k..]) == s[..k] + s[k + 1..];
    }
  }

  lemma {:induction false} DropMembers(s: seq<Reg>, p: Pattern, ctx: nat)
    ensures forall e :: e in Drop(s, p, ctx) <==> e in s && !(e.pat == p && e.handler.ctx == ctx)
  {
    if s != [] {
      DropMembers(s[1..], p, ctx);
    }
  }

  lemma {:induction false} DropDistinct(s: seq<Reg>, p: Pattern, ctx: nat)
    requires Distinct(s)
    ensures Distinct(Drop(s, p, ctx))
  {
    if s != [] {
      var t := s[1..];
      assert forall i, j :: 0 <= i < j < |t| ==> t[i] == s[i + 1] && t[j] == s[j + 1];
      DropDistinct(t, p, ctx);
      DropMembers(t, p, ctx);
      forall e | e in Drop(t, p, ctx)
        ensures e.handler.ctx != s[0].handler.ctx
      {
        var k :| 0 <= k < |t| && t[k] == e;
        assert s[k + 1] == e;
      }
    }
  }

  lemma {:induction false} MatchingDrop(s: seq<Reg>, p: Pattern, ctx: nat, base: nat, id: int)
    ensures Matching(Drop(s, p, ctx), base, id) == Drop(Matching(s, base, id), p, ctx)
  {
    if s != [] {
      var head := if s[0].pat == p && s[0].handler.ctx == ctx then [] else [s[0]];
      MatchingConcat(head, Drop(s[1..], p, ctx), base, id);
      MatchingDrop(s[1..], p, ctx, base, id);
      var kept := if Matches(s[0].pat, base, id) then [s[0]] else [];
      DropConcat(kept, Matching(s[1..], base, id), p, ctx);
    }
  }

  lemma {:induction false} MatchingNone(s: seq<Reg>, base: nat, id: int)
    requires forall e <- s :: !Matches(e.pat, base, id)
    ensures Matching(s, base, id) == []
  {
    if s != [] {
      MatchingNone(s[1..], base, id);
    }
  }

  lemma {:induction false} MatchingAll(s: seq<Reg>, base: nat, id: int)
    requires forall e <- s :: Matches(e.pat, base, id)
    ensures Matching(s, base, id) == s
  {
    if s != [] {
      MatchingAll(s[1..], base, id);
    }
  }

  // ---- Well-formed trees ----

  ghost predicate OkIds(ids: seq<IdNode>) {
    && (forall j, k :: 0 <= j < k < |ids| ==> ids[j].id != ids[k].id)
    && (forall n <- ids :: n.handlers != [])
  }

  ghost predicate OkBase(n: BaseNode) {
    OkIds(n.ids) && (n.handlers != [] || n.ids != [])
  }

  ghost predicate OkLoop(n: LoopNode) {
    (forall b <- n.bases :: OkBase(b)) && (n.handlers != [] || n.bases != [])
  }

  /// Ids are unique within a base node, and no node is empty.
  ghost predicate OkTree(t: Tree) {
    forall n <- t :: OkLoop(n)
  }

  // ---- Dispatch is a filter of the tree's entries ----

  lemma {:induction false} NoIdMatch(b: nat, ids: seq<IdNode>, base: nat, id: int)
    requires b != base || forall n <- ids :: n.id != id
    ensures Matching(IdEntries(b, ids), base, id) == []
  {
    if ids != [] {
      NoIdMatch(b, ids[1..], base, id);
      var head := Tag(OfId(b, ids[0].id), ids[0].handlers);
      MatchingNone(head, base, id);
      MatchingConcat(head, IdEntries(b, ids[1..]), base, id);
    }
  }

  lemma {:induction false} RunIdsFilters(b: nat, ids: seq<IdNode>, id: int)
    requires OkIds(ids)
    ensures RunIds(b, ids, id) == Matching(IdEntries(b, ids), b, id)
  {
    if ids != [] {
      var head := Tag(OfId(b, ids[0].id), ids[0].handlers);
      MatchingConcat(head, IdEntries(b, ids[1..]), b, id);
      if ids[0].id == id {
        MatchingAll(head, b, id);
        forall n | n in ids[1..] ensures n.id != id {
          var k :| 1 <= k < |ids| && ids[k] == n;
        }
        NoIdMatch(b, ids[1..], b, id);
      } else {
        MatchingNone(head, b, id);
        RunIdsFilters(b, ids[1..], id);
      }
    }
  }

  lemma {:induction false} RunBasesFilters(bases: seq<BaseNode>, base: nat, id: int)
    requires forall b <- bases :: OkBase(b)
    ensures RunBases(bases, base, id) == Matching(BaseEntries(bases), base, id)
  {
    if bases != [] {
      var n := bases[0];
      assert OkBase(n);
      var own := Tag(OfBase(n.base), n.handlers);
      RunBasesFilters(bases[1..], base, id);
      MatchingConcat(OneBase(n), BaseEntries(bases[1..]), base, id);
      MatchingConcat(own, IdEntries(n.base, n.ids), base, id);
      if n.base == base {
        MatchingAll(own, base, id);
        RunIdsFilters(base, n.ids, id);
      } else {
        MatchingNone(own, base, id);
        NoIdMatch(n.base, n.ids, base, id);
      }
    }
  }

  lemma {:induction false} DispatchFilters(t: Tree, base: nat, id: int)
    requires OkTree(t)
    ensures Dispatch(t, base, id) == Matching(Entries(t), base, id)
  {
    if t != [] {
      var own := Tag(AnyEvent, t[0].handlers);
      assert OkLoop(t[0]);
      DispatchFilters(t[1..], base, id);
      RunBasesFilters(t[0].bases, base, id);
      MatchingConcat(OneLoop(t[0]), Entries(t[1..]), base, id);
      MatchingConcat(own, BaseEntries(t[0].bases), base, id);
      MatchingAll(own, base, id);
    }
  }

  // ---- Registration inserts where no later entry overlaps ----

  /// `after` is `before` with `r` put at position `k`, and no event runs both `r`
  /// and an entry behind it.
  ghost predicate Inserted(before: seq<Reg>, after: seq<Reg>, r: Reg, k: nat) {
    && k <= |before|
    && after == before[..k] + [r] + before[k..]
    && forall j :: k <= j < |before| ==> !Overlap(r.pat, before[j].pat)
  }

  lemma InsertedWithin(before: seq<Reg>, after: seq<Reg>, r: Reg, k: nat, left: seq<Reg>, right: seq<Reg>)
    requires Inserted(before, after, r, k)
    requires forall e <- right :: !Overlap(r.pat, e.pat)
    ensures Inserted(left + before + right, left + after + right, r, |left| + k)
  {
    var b, a := left + before + right, left + after + right;
    assert b[..|left| + k] == left + before[..k];
    assert b[|left| + k..] == before[k..] + right;
    assert a == b[..|left| + k] + [r] + b[|left| + k..];
  }

  lemma {:induction false} IdEntriesConcat(b: nat, x: seq<IdNode>, y: seq<IdNode>)
    ensures IdEntries(b, x + y) == IdEntries(b, x) + IdEntries(b, y)
  {
    if x == [] {
      assert x + y == y;
    } else {
      var head := Tag(OfId(b, x[0].id), x[0].handlers);
      calc {
        IdEntries(b, x + y);
        { assert (x + y)[1..] == x[1..] + y; }
        head + IdEntries(b, x[1..] + y);
        { IdEntriesConcat(b, x[1..], y); }
        head + (IdEntries(b, x[1..]) + IdEntries(b, y));
        head + IdEntries(b, x[1..]) + IdEntries(b, y);
      }
    }
  }

  lemma {:induction false} BaseEntriesConcat(x: seq<BaseNode>, y: seq<BaseNode>)
    ensures BaseEntries(x + y) == BaseEntries(x) + BaseEntries(y)
  {
    if x == [] {
      assert x + y == y;
    } else {
      var head := OneBase(x[0]);
      calc {
        BaseEntries(x + y);
        { assert (x + y)[1..] == x[1..] + y; }
        head + BaseEntries(x[1..] + y);
        { BaseEntriesConcat(x[1..], y); }
        head + (BaseEntries(x[1..]) + BaseEntries(y));
        head + BaseEntries(x[1..]) + BaseEntries(y);
      }
    }
  }

  lemma {:induction false} EntriesConcat(x: Tree, y: Tree)
    ensures Entries(x + y) == Entries(x) + Entries(y)
  {
    if x == [] {
      assert x + y == y;
    } else {
      var head := OneLoop(x[0]);
      calc {
        Entries(x + y);
        { assert (x + y)[1..] == x[1..] + y; }
        head + Entries(x[1..] + y);
        { EntriesConcat(x[1..], y); }
        head + (Entries(x[1..]) + Entries(y));
        head + Entries(x[1..]) + Entries(y);
      }
    }
  }

  lemma {:induction false} IdEntriesAt(b: nat, ids: seq<IdNode>, k: nat)
    requires k < |ids|
    ensures IdEntries(b, ids) ==
      IdEntries(b, ids[..k]) + Tag(OfId(b, ids[k].id), ids[k].handlers) + IdEntries(b, ids[k + 1..])
  {
    IdEntriesConcat(b, ids[..k], ids[k..]);
    assert ids == ids[..k] + ids[k..] && ids[k..][1..] == ids[k + 1..];
  }

  lemma {:induction false} BaseEntriesAt(bases: seq<BaseNode>, k: nat)
    requires k < |bases|
    ensures BaseEntries(bases) == BaseEntries(bases[..k]) + OneBase(bases[k]) + BaseEntries(bases[k + 1..])
  {
    BaseEntriesConcat(bases[..k], bases[k..]);
    assert bases == bases[..k] + bases[k..] && bases[k..][1..] == bases[k + 1..];
  }

  lemma {:induction false} IdPatterns(b: nat, ids: seq<IdNode>)
    ensures forall e <- IdEntries(b, ids) :: e.pat.OfId? && e.pat.base == b && exists n <- ids :: n.id == e.pat.id
  {
    if ids != [] {
      IdPatterns(b, ids[1..]);
      assert ids[0] in ids;
    }
  }

  lemma {:induction false} BasePatterns(bases: seq<BaseNode>)
    ensures forall e <- BaseEntries(bases) :: !e.pat.AnyEvent? && exists n <- bases :: n.base == e.pat.base
  {
    if bases != [] {
      BasePatterns(bases[1..]);
      IdPatterns(bases[0].base, bases[0].ids);
      assert bases[0] in bases;
    }
  }

  lemma AddToIdsInserts(b: nat, ids: seq<IdNode>, id: int, h: Handler) returns (k: nat)
    requires OkIds(ids)
    ensures OkIds(AddToIds(ids, id, h)) && AddToIds(ids, id, h) != []
    ensures Inserted(IdEntries(b, ids), IdEntries(b, AddToIds(ids, id, h)), Reg(OfId(b, id), h), k)
  {
    hide LastId;
    var r := Reg(OfId(b, id), h);
    var at := LastId(ids, id);
    if at == |ids| {
      IdEntriesConcat(b, ids, [IdNode(id, [h])]);
      assert IdEntries(b, [IdNode(id, [h])]) == [r];
      hide IdEntries;
      k := |IdEntries(b, ids)|;
    } else {
      hide IdEntries;
      var n := ids[at];
      var left, right := ids[..at], ids[at + 1..];
      var ids' := AddToIds(ids, id, h);
      IdEntriesAt(b, ids, at);
      IdEntriesAt(b, ids', at);
      assert ids'[..at] == left && ids'[at + 1..] == right;
      var own := Tag(OfId(b, id), n.handlers);
      assert Tag(OfId(b, id), ids'[at].handlers) == own + [r];
      IdPatterns(b, right);
      InsertedWithin(own, own + [r], r, |own|, IdEntries(b, left), IdEntries(b, right));
      k := |IdEntries(b, left)| + |own|;
    }
  }

  lemma AddToBaseInserts(n: BaseNode, p: Pattern, h: Handler) returns (k: nat)
    requires OkIds(n.ids) && !p.AnyEvent? && p.base == n.base && (p.OfBase? ==> n.ids == [])
    ensures OkBase(AddToBase(n, p, h))
    ensures Inserted(OneBase(n), OneBase(AddToBase(n, p, h)), Reg(p, h), k)
  {
    var own := Tag(OfBase(n.base), n.handlers);
    if p.OfBase? {
      k := |own|;
      assert OneBase(AddToBase(n, p, h)) == own + [Reg(p, h)];
    } else {
      var j := AddToIdsInserts(n.base, n.ids, p.id, h);
      var e, e' := IdEntries(n.base, n.ids), IdEntries(n.base, AddToIds(n.ids, p.id, h));
      InsertedWithin(e, e', Reg(p, h), j, own, []);
      assert own + e + [] == own + e && own + e' + [] == own + e';
      k := |own| + j;
    }
  }

  lemma AddAtBase(bases: seq<BaseNode>, at: nat, p: Pattern, h: Handler) returns (k: nat)
    requires !p.AnyEvent? && forall n <- bases :: OkBase(n)
    requires at < |bases| && bases[at].base == p.base && (p.OfBase? ==> bases[at].ids == [])
    requires forall j :: at < j < |bases| ==> bases[j].base != p.base
    ensures forall n <- bases[at := AddToBase(bases[at], p, h)] :: OkBase(n)
    ensures Inserted(BaseEntries(bases), BaseEntries(bases[at := AddToBase(bases[at], p, h)]), Reg(p, h), k)
  {
    hide OneBase, AddToBase;
    var n := bases[at];
    assert OkBase(n);
    var j := AddToBaseInserts(n, p, h);
    var n' := AddToBase(n, p, h);
    var left, right := bases[..at], bases[at + 1..];
    var bases' := bases[at := n'];
    BaseEntriesAt(bases, at);
    BaseEntriesAt(bases', at);
    assert bases'[..at] == left && bases'[at + 1..] == right;
    BasePatterns(right);
    InsertedWithin(OneBase(n), OneBase(n'), Reg(p, h), j, BaseEntries(left), BaseEntries(right));
    k := |BaseEntries(left)| + j;
  }

  lemma AddToBasesInserts(bases: seq<BaseNode>, p: Pattern, h: Handler) returns (k: nat)
    requires !p.AnyEvent? && forall n <- bases :: OkBase(n)
    ensures AddToBases(bases, p, h) != [] && forall n <- AddToBases(bases, p, h) :: OkBase(n)
    ensures Inserted(BaseEntries(bases), BaseEntries(AddToBases(bases, p, h)), Reg(p, h), k)
  {
    if NeedsBaseNode(bases, p) {
      var n := BaseNode(p.base, [], []);
      var n' := AddToBase(n, p, h);
      var _ := AddToBaseInserts(n, p, h);
      BaseEntriesConcat(bases, [n']);
      assert BaseEntries([n']) == OneBase(n') == [Reg(p, h)];
      k := |BaseEntries(bases)|;
    } else {
      k := AddAtBase(bases, LastBase(bases, p.base), p, h);
    }
  }

  lemma AddToLoopInserts(n: LoopNode, p: Pattern, h: Handler) returns (k: nat)
    requires (forall b <- n.bases :: OkBase(b)) && (p.AnyEvent? ==> n.bases == [])
    ensures OkLoop(AddToLoop(n, p, h))
    ensures Inserted(OneLoop(n), OneLoop(AddToLoop(n, p, h)), Reg(p, h), k)
  {
    var own := Tag(AnyEvent, n.handlers);
    if p.AnyEvent? {
      k := |own|;
      assert OneLoop(AddToLoop(n, p, h)) == own + [Reg(p, h)];
    } else {
      var j := AddToBasesInserts(n.bases, p, h);
      var e, e' := BaseEntries(n.bases), BaseEntries(AddToBases(n.bases, p, h));
      InsertedWithin(e, e', Reg(p, h), j, own, []);
      assert own + e + [] == own + e && own + e' + [] == own + e';
      k := |own| + j;
    }
  }

  /// A registration keeps the tree well formed and puts one entry where no event
  /// runs both it and an entry behind it.
  lemma AddInserts(t: Tree, p: Pattern, h: Handler) returns (k: nat)
    requires OkTree(t)
    ensures OkTree(Add(t, p, h))
    ensures Inserted(Entries(t), Entries(Add(t, p, h)), Reg(p, h), k)
  {
    if NeedsLoopNode(t, p) {
      k := AddNewInserts(t, p, h);
    } else {
      k := AddLastInserts(t, p, h);
    }
    hide Entries, AddToLoop, Overlap, OkLoop;
  }

  lemma AddNewInserts(t: Tree, p: Pattern, h: Handler) returns (k: nat)
    requires OkTree(t)
    ensures var t' := t + [AddToLoop(LoopNode([], []), p, h)];
      OkTree(t') && Inserted(Entries(t), Entries(t'), Reg(p, h), k)
  {
    var n' := AddToLoop(LoopNode([], []), p, h);
    var _ := AddToLoopInserts(LoopNode([], []), p, h);
    EntriesConcat(t, [n']);
    assert Entries([n']) == OneLoop(n') == [Reg(p, h)];
    hide Entries, AddToLoop, OneLoop;
    k := |Entries(t)|;
  }

  lemma EntriesOne(n: LoopNode)
    ensures Entries([n]) == OneLoop(n)
  {
    assert [n][1..] == [];
    assert OneLoop(n) + [] == OneLoop(n);
  }

  lemma AddLastInserts(t: Tree, p: Pattern, h: Handler) returns (k: nat)
    requires OkTree(t) && !NeedsLoopNode(t, p)
    ensures var t' := t[|t| - 1 := AddToLoop(t[|t| - 1], p, h)];
      OkTree(t') && Inserted(Entries(t), Entries(t'), Reg(p, h), k)
  {
    var last := |t| - 1;
    var n := t[last];
    assert OkLoop(n);
    var n' := AddToLoop(n, p, h);
    var j := AddToLoopInserts(n, p, h);
    EntriesOne(n);
    EntriesOne(n');
    hide Entries, AddToLoop, OneLoop, OkLoop, Overlap;
    assert t == t[..last] + [n] && t[last := n'] == t[..last] + [n'];
    EntriesConcat(t[..last], [n]);
    EntriesConcat(t[..last], [n']);
    InsertedWithin(OneLoop(n), OneLoop(n'), Reg(p, h), j, Entries(t[..last]), []);
    assert Entries(t[..last]) + OneLoop(n) + [] == Entries(t);
    assert Entries(t[..last]) + OneLoop(n') + [] == Entries(t[last := n']);
    k := |Entries(t[..last])| + j;
  }

  // ---- Removal drops exactly the named instance ----

  lemma DistinctParts(s: seq<Reg>, t: seq<Reg>)
    requires Distinct(s + t)
    ensures Distinct(s) && Distinct(t)
    ensures forall e, f :: e in s && f in t ==> e.handler.ctx != f.handler.ctx
  {
    var st := s + t;
    assert forall i :: 0 <= i < |s| ==> st[i] == s[i];
    assert forall i :: 0 <= i < |t| ==> st[|s| + i] == t[i];
  }

  lemma AbsentParts(s: seq<Reg>, t: seq<Reg>, p: Pattern, ctx: nat)
    ensures Absent(s + t, p, ctx) <==> Absent(s, p, ctx) && Absent(t, p, ctx)
    ensures Distinct(s + t) ==> Absent(s, p, ctx) || Absent(t, p, ctx)
  {
    if Distinct(s + t) {
      DistinctParts(s, t);
    }
    assert forall e :: e in s + t <==> e in s || e in t;
  }

  lemma {:induction false} RemoveHandlerDrops(p: Pattern, hs: seq<Handler>, ctx: nat)
    requires Distinct(Tag(p, hs))
    ensures var (r, ok) := RemoveHandler(hs, ctx);
      && Tag(p, r) == Drop(Tag(p, hs), p, ctx)
      && (ok <==> !Absent(Tag(p, hs), p, ctx))
      && (!ok ==> r == hs)
  {
    hide Distinct;
    if hs != [] {
      var s := Tag(p, hs);
      var t := Tag(p, hs[1..]);
      assert s == [s[0]] + t && s[1..] == t;
      assert forall e :: e in s <==> e == s[0] || e in t;
      DistinctParts([s[0]], t);
      if hs[0].ctx == ctx {
        DropAbsent(t, p, ctx);
      } else {
        RemoveHandlerDrops(p, hs[1..], ctx);
        TagCons(p, hs[0], RemoveHandler(hs[1..], ctx).0);
        assert hs == [hs[0]] + hs[1..];
      }
    }
  }

  lemma TagCons(p: Pattern, h: Handler, hs: seq<Handler>)
    ensures Tag(p, [h] + hs) == [Reg(p, h)] + Tag(p, hs)
  {
  }

  ghost predicate HasId(ids: seq<IdNode>, id: int) {
    exists m <- ids :: m.id == id
  }

  /// Nodes keep their ids, and only a reported success shortens the list.
  lemma {:induction false} RemoveFromIdsShape(ids: seq<IdNode>, id: int, ctx: nat)
    requires forall n <- ids :: n.handlers != []
    ensures var (r, ok) := RemoveFromIds(ids, id, ctx);
      && (!ok ==> |r| == |ids|)
      && (forall n <- r :: n.handlers != [] && HasId(ids, n.id))
  {
    if ids != [] {
      assert ids[0] in ids;
      RemoveFromIdsShape(ids[1..], id, ctx);
      RemoveHandlerKeeps(ids[0].handlers, ctx);
      assert forall m <- ids[1..] :: m in ids;
    }
  }

  lemma {:induction false} RemoveFromIdsUnique(ids: seq<IdNode>, id: int, ctx: nat)
    requires OkIds(ids)
    ensures OkIds(RemoveFromIds(ids, id, ctx).0)
  {
    RemoveFromIdsShape(ids, id, ctx);
    if ids != [] {
      var rest := ids[1..];
      RemoveFromIdsUnique(rest, id, ctx);
      RemoveFromIdsShape(rest, id, ctx);
      forall n | n in RemoveFromIds(rest, id, ctx).0 ensures n.id != ids[0].id {
        assert HasId(rest, n.id);
      }
    }
  }

  lemma {:induction false} RemoveHandlerKeeps(hs: seq<Handler>, ctx: nat)
    ensures var (r, ok) := RemoveHandler(hs, ctx);
      if ok then |r| == |hs| - 1 else r == hs
  {
    if hs != [] {
      RemoveHandlerKeeps(hs[1..], ctx);
    }
  }

  lemma {:induction false} RemoveFromIdsDrops(b: nat, ids: seq<IdNode>, id: int, ctx: nat)
    requires Distinct(IdEntries(b, ids))
    ensures IdEntries(b, RemoveFromIds(ids, id, ctx).0) == Drop(IdEntries(b, ids), OfId(b, id), ctx)
  {
    if ids != [] {
      hide Drop, RemoveHandler;
      var p := OfId(b, id);
      var n := ids[0];
      var head, tail := Tag(OfId(b, n.id), n.handlers), IdEntries(b, ids[1..]);
      DistinctParts(head, tail);
      DropConcat(head, tail, p, ctx);
      RemoveFromIdsDrops(b, ids[1..], id, ctx);
      if n.id == id {
        RemoveHandlerDrops(p, n.handlers, ctx);
        if !Absent(head, p, ctx) {
          DropAbsent(tail, p, ctx);
        }
      } else {
        DropAbsent(head, p, ctx);
      }
    }
  }

  lemma RemoveFromBaseDrops(n: BaseNode, p: Pattern, ctx: nat)
    requires !p.AnyEvent? && n.base == p.base && OkBase(n) && Distinct(OneBase(n))
    ensures var (r, ok) := RemoveFromBase(n, p, ctx);
      && r.base == n.base && OneBase(r) == Drop(OneBase(n), p, ctx)
      && OkIds(r.ids) && (!ok ==> OkBase(r))
      && (ok ==> !Absent(OneBase(n), p, ctx))
  {
    var own, rest := Tag(OfBase(n.base), n.handlers), IdEntries(n.base, n.ids);
    DistinctParts(own, rest);
    DropConcat(own, rest, p, ctx);
    if p.OfBase? {
      RemoveHandlerDrops(p, n.handlers, ctx);
      IdPatterns(n.base, n.ids);
      DropAbsent(rest, p, ctx);
    } else {
      DropAbsent(own, p, ctx);
      RemoveFromIdsDrops(n.base, n.ids, p.id, ctx);
      RemoveFromIdsShape(n.ids, p.id, ctx);
      RemoveFromIdsUnique(n.ids, p.id, ctx);
      if Absent(rest, p, ctx) {
        RemoveFromIdsAbsent(n.base, n.ids, p.id, ctx);
      }
    }
  }

  lemma {:induction false} RemoveFromIdsAbsent(b: nat, ids: seq<IdNode>, id: int, ctx: nat)
    requires Absent(IdEntries(b, ids), OfId(b, id), ctx)
    ensures RemoveFromIds(ids, id, ctx) == (ids, false)
  {
    if ids != [] {
      var p := OfId(b, id);
      var head := Tag(OfId(b, ids[0].id), ids[0].handlers);
      assert Absent(head, p, ctx) && Absent(IdEntries(b, ids[1..]), p, ctx);
      RemoveFromIdsAbsent(b, ids[1..], id, ctx);
      if ids[0].id == id {
        RemoveHandlerAbsent(p, ids[0].handlers, ctx);
      }
      assert ids == [ids[0]] + ids[1..];
    }
  }

  lemma {:induction false} RemoveHandlerAbsent(p: Pattern, hs: seq<Handler>, ctx: nat)
    requires Absent(Tag(p, hs), p, ctx)
    ensures RemoveHandler(hs, ctx) == (hs, false)
  {
    if hs != [] {
      assert Tag(p, hs)[0] in Tag(p, hs) && Tag(p, hs)[1..] == Tag(p, hs[1..]);
      RemoveHandlerAbsent(p, hs[1..], ctx);
      assert hs == [hs[0]] + hs[1..];
    }
  }

  lemma {:induction false} RemoveFromBasesDrops(bases: seq<BaseNode>, p: Pattern, ctx: nat)
    requires !p.AnyEvent? && (forall n <- bases :: OkBase(n)) && Distinct(BaseEntries(bases))
    ensures var (r, ok) := RemoveFromBases(bases, p, ctx);
      && BaseEntries(r) == Drop(BaseEntries(bases), p, ctx)
      && (forall n <- r :: OkBase(n))
      && (!ok ==> |r| == |bases|)
      && (ok ==> !Absent(BaseEntries(bases), p, ctx))
  {
    if bases != [] {
      hide Drop, OneBase, OkBase, RemoveFromBases, Distinct, Absent, BaseEntries, VisitBase;
      RemoveBasesUnfold(bases, p, ctx);
      var head, tail := OneBase(bases[0]), BaseEntries(bases[1..]);
      DistinctParts(head, tail);
      AbsentParts(head, tail, p, ctx);
      DropConcat(head, tail, p, ctx);
      assert OkBase(bases[0]);
      VisitBaseDrops(bases[0], p, ctx);
      var (n, res) := VisitBase(bases[0], p, ctx);
      if res && n.handlers == [] && n.ids == [] {
        DropAbsent(tail, p, ctx);
        assert [] + tail == tail;
      } else {
        RemoveFromBasesDrops(bases[1..], p, ctx);
      }
    }
  }

  lemma VisitBaseDrops(n: BaseNode, p: Pattern, ctx: nat)
    requires !p.AnyEvent? && OkBase(n) && Distinct(OneBase(n))
    ensures var (m, res) := VisitBase(n, p, ctx);
      && OneBase(m) == Drop(OneBase(n), p, ctx)
      && ((res && m.handlers == [] && m.ids == []) || OkBase(m))
      && (res ==> !Absent(OneBase(n), p, ctx))
  {
    hide Drop, OneBase, RemoveFromBase, Distinct, Absent;
    if n.base == p.base {
      RemoveFromBaseDrops(n, p, ctx);
    } else {
      OtherBaseAbsent(n, p, ctx);
      DropAbsent(OneBase(n), p, ctx);
    }
  }

  /// One turn of the removal loop, and the entries around it.
  lemma RemoveBasesUnfold(bases: seq<BaseNode>, p: Pattern, ctx: nat)
    requires !p.AnyEvent? && bases != []
    ensures
      var (n, res) := VisitBase(bases[0], p, ctx);
      var (r, ok) := RemoveFromBases(bases[1..], p, ctx);
      && RemoveFromBases(bases, p, ctx) ==
           (if res && n.handlers == [] && n.ids == [] then (bases[1..], true) else ([n] + r, ok))
      && BaseEntries([n] + r) == OneBase(n) + BaseEntries(r)
      && (n.handlers == [] && n.ids == [] ==> OneBase(n) == [])
    ensures BaseEntries(bases) == OneBase(bases[0]) + BaseEntries(bases[1..])
  {
    hide RemoveFromBase;
    var n := VisitBase(bases[0], p, ctx).0;
    assert ([n] + RemoveFromBases(bases[1..], p, ctx).0)[1..] == RemoveFromBases(bases[1..], p, ctx).0;
  }

  lemma OtherBaseAbsent(n: BaseNode, p: Pattern, ctx: nat)
    requires !p.AnyEvent? && n.base != p.base
    ensures Absent(OneBase(n), p, ctx)
  {
    IdPatterns(n.base, n.ids);
  }

  lemma RemoveFromLoopDrops(n: LoopNode, p: Pattern, ctx: nat)
    requires OkLoop(n) && Distinct(OneLoop(n))
    ensures var (r, ok) := RemoveFromLoop(n, p, ctx);
      && OneLoop(r) == Drop(OneLoop(n), p, ctx)
      && (forall b <- r.bases :: OkBase(b))
      && (!ok ==> OkLoop(r))
      && (ok ==> !Absent(OneLoop(n), p, ctx))
  {
    var own, rest := Tag(AnyEvent, n.handlers), BaseEntries(n.bases);
    DistinctParts(own, rest);
    DropConcat(own, rest, p, ctx);
    if p.AnyEvent? {
      RemoveHandlerDrops(p, n.handlers, ctx);
      BasePatterns(n.bases);
      DropAbsent(rest, p, ctx);
    } else {
      DropAbsent(own, p, ctx);
      RemoveFromBasesDrops(n.bases, p, ctx);
    }
  }

  /// An unregistration removes the instance registered for exactly this pattern,
  /// if there is one, keeps every other entry in place and leaves no empty node.
  lemma {:induction false} RemoveDrops(t: Tree, p: Pattern, ctx: nat)
    requires OkTree(t) && Distinct(Entries(t))
    ensures OkTree(Remove(t, p, ctx))
    ensures Entries(Remove(t, p, ctx)) == Drop(Entries(t), p, ctx)
  {
    if t != [] {
      hide Drop, OneLoop, RemoveFromLoop;
      assert OkLoop(t[0]);
      var head, tail := OneLoop(t[0]), Entries(t[1..]);
      DistinctParts(head, tail);
      DropConcat(head, tail, p, ctx);
      RemoveDrops(t[1..], p, ctx);
      RemoveFromLoopDrops(t[0], p, ctx);
      if !Absent(head, p, ctx) {
        DropAbsent(tail, p, ctx);
      }
    }
  }

  // ---- Runs ----

  datatype Op = Register(pat: Pattern, handler: Handler) | Unregister(pat: Pattern, ctx: nat)

  function Apply(t: Tree, op: Op): Tree {
    match op
    case Register(p, h) => Add(t, p, h)
    case Unregister(p, ctx) => Remove(t, p, ctx)
  }

  /// The plain list of live registrations, oldest first.
  function ApplyFlat(live: seq<Reg>, op: Op): seq<Reg> {
    match op
    case Register(p, h) => live + [Reg(p, h)]
    case Unregister(p, ctx) => Drop(live, p, ctx)
  }

  function RunTree(ops: seq<Op>): Tree {
    if ops == [] then [] else Apply(RunTree(ops[..|ops| - 1]), ops[|ops| - 1])
  }

  function RunFlat(ops: seq<Op>): seq<Reg> {
    if ops == [] then [] else ApplyFlat(RunFlat(ops[..|ops| - 1]), ops[|ops| - 1])
  }

  /// The allocator never returns the address of a live context.
  ghost predicate Allocatable(live: seq<Reg>, op: Op) {
    op.Register? ==> forall e <- live :: e.handler.ctx != op.handler.ctx
  }

  ghost predicate Legal(ops: seq<Op>) {
    ops == [] || (Legal(ops[..|ops| - 1]) && Allocatable(RunFlat(ops[..|ops| - 1]), ops[|ops| - 1]))
  }

  /// The tree and the flat list hold the same registrations, and every event sees
  /// them in the same order.
  ghost predicate Refines(t: Tree, live: seq<Reg>) {
    && OkTree(t) && Distinct(Entries(t)) && Distinct(live)
    && (forall e :: e in Entries(t) <==> e in live)
    && (forall b: nat, i: int :: Matching(Entries(t), b, i) == Matching(live, b, i))
  }

  lemma MatchingInserted(s: seq<Reg>, s': seq<Reg>, r: Reg, k: nat, base: nat, id: int)
    requires Inserted(s, s', r, k)
    ensures Matching(s', base, id) == Matching(s, base, id) + Matching([r], base, id)
  {
    hide Matching;
    var left, right := s[..k], s[k..];
    assert s == left + right;
    MatchingConcat(left, right, base, id);
    MatchingConcat(left + [r], right, base, id);
    MatchingConcat(left, [r], base, id);
    if Matches(r.pat, base, id) {
      forall e | e in right ensures !Matches(e.pat, base, id) {
        OverlapMeaning(r.pat, e.pat);
      }
      MatchingNone(right, base, id);
    } else {
      MatchingNone([r], base, id);
    }
  }

  lemma RegisterRefines(t: Tree, live: seq<Reg>, p: Pattern, h: Handler)
    requires Refines(t, live) && Allocatable(live, Register(p, h))
    ensures Refines(Add(t, p, h), live + [Reg(p, h)])
  {
    hide Add, Entries, Matching, OkTree;
    var r := Reg(p, h);
    var k := AddInserts(t, p, h);
    var s, s' := Entries(t), Entries(Add(t, p, h));
    assert s == s[..k] + s[k..];
    assert forall e :: e in s' <==> e in s || e == r;
    InsertedDistinct(s, s', r, k);
    InsertedDistinct(live, live + [r], r, |live|);
    forall b: nat, i: int
      ensures Matching(s', b, i) == Matching(live + [r], b, i)
    {
      MatchingInserted(s, s', r, k, b, i);
      MatchingConcat(live, [r], b, i);
    }
  }

  lemma InsertedDistinct(s: seq<Reg>, s': seq<Reg>, r: Reg, k: nat)
    requires Inserted(s, s', r, k) && Distinct(s) && forall e <- s :: e.handler.ctx != r.handler.ctx
    ensures Distinct(s')
  {
    forall i, j | 0 <= i < j < |s'|
      ensures s'[i].handler.ctx != s'[j].handler.ctx
    {
      var i', j' := if i < k then i else i - 1, if j < k then j else j - 1;
      assert i != k ==> s'[i] == s[i'] && s[i'] in s;
      assert j != k ==> s'[j] == s[j'] && s[j'] in s;
    }
  }

  lemma UnregisterRefines(t: Tree, live: seq<Reg>, p: Pattern, ctx: nat)
    requires Refines(t, live)
    ensures Refines(Remove(t, p, ctx), Drop(live, p, ctx))
  {
    RemoveDrops(t, p, ctx);
    DropDistinct(Entries(t), p, ctx);
    DropDistinct(live, p, ctx);
    DropMembers(Entries(t), p, ctx);
    DropMembers(live, p, ctx);
    forall b: nat, i: int
      ensures Matching(Entries(Remove(t, p, ctx)), b, i) == Matching(Drop(live, p, ctx), b, i)
    {
      MatchingDrop(Entries(t), p, ctx, b, i);
      MatchingDrop(live, p, ctx, b, i);
    }
  }

  lemma {:induction false} RunRefines(ops: seq<Op>)
    requires Legal(ops)
    ensures Refines(RunTree(ops), RunFlat(ops))
  {
    if ops != [] {
      var before := ops[..|ops| - 1];
      RunRefines(before);
      match ops[|ops| - 1] {
        case Register(p, h) => RegisterRefines(RunTree(before), RunFlat(before), p, h);
        case Unregister(p, ctx) => UnregisterRefines(RunTree(before), RunFlat(before), p, ctx);
      }
    }
  }

  lemma DispatchRefines(t: Tree, live: seq<Reg>, base: nat, id: int)
    requires Refines(t, live)
    ensures Dispatch(t, base, id) == Matching(live, base, id)
  {
    DispatchFilters(t, base, id);
  }

  /// After any run, an event runs exactly the live handlers that match it, each
  /// once, in registration order; ids are unique in their base node and no node is
  /// empty.
  lemma DispatchIsRegistrationOrder(ops: seq<Op>, base: nat, id: int)
    requires Legal(ops)
    ensures Dispatch(RunTree(ops), base, id) == Matching(RunFlat(ops), base, id)
    ensures Distinct(RunFlat(ops)) && OkTree(RunTree(ops))
  {
    RunRefines(ops);
    DispatchRefines(RunTree(ops), RunFlat(ops), base, id);
  }
}
