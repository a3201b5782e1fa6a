// The eFuse table checker (efuse_table_gen.py): entries of one block must not
// overlap, except that a dotted name ("A.B") marks a part of its parent ("A").

module EfuseTable {

  /// An entry; entries are told apart by their position in the table.  Entries that
  /// share a name are parts of one field; `group` numbers them.
  datatype Field = Field(name: string, group: string, block: string, start: int, count: int)

  type Table = seq<Field>

  datatype Relation = IncludedIn | IntersectedWith | Wraps | Apart

  /// The nested function `check` of `verify`.
  function Check(p: Field, n: Field): Relation {
    var left, right := n.start, n.start + n.count - 1;
    var start, end := p.start, p.start + p.count - 1;
    if left <= start <= right then
      if left <= end <= right then IncludedIn else IntersectedWith
    else if left <= end <= right then IntersectedWith
    else if start <= left && right <= end then Wraps
    else Apart
  }

  ghost predicate HasBit(p: Field, bit: int) {
    p.start <= bit < p.start + p.count
  }

  ghost predicate Disjoint(p: Field, q: Field) {
    forall bit :: !(HasBit(p, bit) && HasBit(q, bit))
  }

  predicate Dotted(name: string) {
    '.' in name
  }

  /// name.split('.')
  function Split(name: string): (parts: seq<string>)
    ensures parts != [] && '.' !in parts[0]
    ensures !Dotted(name) ==> parts == [name]
    ensures Dotted(name) ==> |parts| > 1
  {
    if name == "" then [""]
    else
      var rest := Split(name[1..]);
      assert name == [name[0]] + name[1..];
      if name[0] == '.' then [""] + rest
      else [[name[0]] + rest[0]] + rest[1..]
  }

  function Root(name: string): string {
    Split(name)[0]
  }

  /// The value `name` takes in the loops over the parts of a dotted name.
  function Extend(name: string, part: string): string {
    if name == "" then part else name + "." + part
  }

  function Prefixes(name: string, parts: seq<string>): seq<string>
    decreases |parts|
  {
    if parts == [] then [] else [Extend(name, parts[0])] + Prefixes(Extend(name, parts[0]), parts[1..])
  }

  // ---- Names ----

  /// name.replace('.', '_'), the C identifier of a field.
  function Flat(name: string): (r: string)
    ensures |r| == |name|
    ensures forall k :: 0 <= k < |name| ==> r[k] == if name[k] == '.' then '_' else name[k]
  {
    seq(|name|, k requires 0 <= k < |name| => if name[k] == '.' then '_' else name[k])
  }

  function Plain(t: Table): (r: seq<string>)
    ensures |r| == |t| && forall i :: 0 <= i < |t| ==> r[i] == t[i].name
  {
    seq(|t|, i requires 0 <= i < |t| => t[i].name)
  }

  function Flats(t: Table): seq<string> {
    if t == [] then [] else (if Dotted(t[0].name) then [Flat(t[0].name)] else []) + Flats(t[1..])
  }

  /// The list `names` of verify_duplicate_name.
  function AllNames(t: Table): seq<string> {
    Plain(t) + Flats(t)
  }

  predicate Repeated(names: seq<string>, x: string) {
    multiset(names)[x] > 1
  }

  ghost predicate UniqueNames(t: Table) {
    forall i: nat :: i < |t| && t[i].name + t[i].group != "" ==> !Repeated(AllNames(t), t[i].name + t[i].group)
  }

  /// Entry `d` is another entry of the block of entry `i` and is called `name`.
  predicate IsParent(t: Table, i: nat, d: nat, name: string)
    requires i < |t| && d < |t|
  {
    i != d && t[i].block == t[d].block && t[d].name == name
  }

  // ---- What the checks mean ----

  /// `bits` is the size of a block.
  ghost predicate Fits(t: Table, bits: string -> int) {
    forall p <- t :: p.start + p.count <= bits(p.block)
  }

  ghost predicate HasParent(t: Table, i: nat, name: string)
    requires i < |t|
  {
    exists d: nat :: d < |t| && IsParent(t, i, d, name)
  }

  /// Every dotted entry has an entry for each proper prefix of its name.
  ghost predicate Structured(t: Table) {
    forall i: nat :: i < |t| && Dotted(t[i].name) ==> HasParents(t, i)
  }

  ghost predicate HasParents(t: Table, i: nat)
    requires i < |t|
  {
    var parts := Split(t[i].name);
    forall name <- Prefixes("", parts[..|parts| - 1]) :: HasParent(t, i, name)
  }

  /// The first entry called `name`, if there is one, includes entry `i`.
  ghost predicate InFirst(t: Table, i: nat, name: string)
    requires i < |t|
  {
    forall d: nat :: d < |t| && IsParent(t, i, d, name) && (forall e: nat :: e < d ==> !IsParent(t, i, e, name)) ==>
      Check(t[i], t[d]) == IncludedIn
  }

  ghost predicate InParents(t: Table, i: nat)
    requires i < |t|
  {
    forall name <- Prefixes("", Split(t[i].name)) :: InFirst(t, i, name)
  }

  /// An entry that touches another one is inside its parents, or leaves the matter
  /// to the other one, which is dotted.
  ghost predicate PairOk(t: Table, i: nat, j: nat)
    requires i < |t| && j < |t|
  {
    i != j && t[i].block == t[j].block && Check(t[i], t[j]) != Apart ==>
      if Dotted(t[i].name) then InParents(t, i) else Dotted(t[j].name)
  }

  ghost predicate NoOverlaps(t: Table) {
    forall i: nat, j: nat :: i < |t| && j < |t| ==> PairOk(t, i, j)
  }

  // ---- The checks as the program makes them ----

  method VerifyDuplicateName(t: Table) returns (ok: bool)
    ensures ok <==> UniqueNames(t)
  {
    var names := AllNames(t);
    hide Repeated, AllNames;
    ok := true;
    for i := 0 to |t|
      invariant ok <==>
        forall k: nat :: k < i && t[k].name + t[k].group != "" ==> !Repeated(names, t[k].name + t[k].group)
    {
      var fieldName := t[i].name + t[i].group;
      if fieldName != "" && Repeated(names, fieldName) {
        ok := false;
      }
    }
  }

  method VerifyFields(t: Table, bits: string -> int) returns (ok: bool)
    ensures ok <==> Fits(t, bits)
  {
    for i := 0 to |t|
      invariant forall k :: 0 <= k < i ==> t[k].start + t[k].count <= bits(t[k].block)
    {
      if t[i].start + t[i].count > bits(t[i].block) {
        assert t[i] in t;
        return false;
      }
    }
    return true;
  }

  /// The search for a parent with the flag `missed_name`.
  method FindParent(t: Table, i: nat, name: string) returns (found: bool)
    requires i < |t|
    ensures found <==> HasParent(t, i, name)
  {
    var missed := true;
    for d := 0 to |t|
      invariant missed <==> forall e: nat :: e < d ==> !IsParent(t, i, e, name)
    {
      if IsParent(t, i, d, name) {
        missed := false;
      }
    }
    return !missed;
  }

  lemma MorePrefixes(name: string, parts: seq<string>, k: nat)
    requires k < |parts|
    ensures Prefixes(name, parts[k..]) ==
      [Extend(name, parts[k])] + Prefixes(Extend(name, parts[k]), parts[k + 1..])
  {
    assert parts[k..][1..] == parts[k + 1..];
  }

  lemma NoPrefixes(name: string, parts: seq<string>)
    requires parts == []
    ensures Prefixes(name, parts) == []
  {
  }

  /// The loop of check_struct_field_name over the parts of one name.
  method CheckParts(t: Table, i: nat, parts: seq<string>) returns (ok: bool)
    requires i < |t|
    ensures ok <==> forall name <- Prefixes("", parts) :: HasParent(t, i, name)
  {
    hide HasParent, Prefixes, Extend;
    var name := "";
    ghost var done: seq<string> := [];
    for k := 0 to |parts|
      invariant Prefixes("", parts) == done + Prefixes(name, parts[k..])
      invariant forall n <- done :: HasParent(t, i, n)
    {
      MorePrefixes(name, parts, k);
      name := Extend(name, parts[k]);
      done := done + [name];
      var found := FindParent(t, i, name);
      if !found {
        assert name in Prefixes("", parts);
        return false;
      }
    }
    NoPrefixes(name, parts[|parts|..]);
    return true;
  }

  method CheckStructFieldName(t: Table) returns (ok: bool)
    ensures ok <==> Structured(t)
  {
    for i := 0 to |t|
      invariant forall k: nat :: k < i && Dotted(t[k].name) ==> HasParents(t, k)
    {
      if Dotted(t[i].name) {
        var parts := Split(t[i].name);
        var fine := CheckParts(t, i, parts[..|parts| - 1]);
        if !fine {
          return false;
        }
      }
    }
    return true;
  }

  /// The innermost loop: it stops at the first entry called `name`.
  method CheckFirst(t: Table, i: nat, name: string) returns (ok: bool)
    requires i < |t|
    ensures ok <==> InFirst(t, i, name)
  {
    for d := 0 to |t|
      invariant forall e: nat :: e < d ==> !IsParent(t, i, e, name)
    {
      if IsParent(t, i, d, name) {
        return Check(t[i], t[d]) == IncludedIn;
      }
    }
    return true;
  }

  method CheckParents(t: Table, i: nat) returns (ok: bool)
    requires i < |t|
    ensures ok <==> InParents(t, i)
  {
    var parts := Split(t[i].name);
    var name := "";
    ghost var done: seq<string> := [];
    for k := 0 to |parts|
      invariant Prefixes("", parts) == done + Prefixes(name, parts[k..])
      invariant forall n <- done :: InFirst(t, i, n)
    {
      name := Extend(name, parts[k]);
      done := done + [name];
      var fine := CheckFirst(t, i, name);
      if !fine {
        assert name in Prefixes("", parts);
        return false;
      }
    }
    return true;
  }

  method CheckOverlaps(t: Table) returns (ok: bool)
    ensures ok <==> NoOverlaps(t)
  {
    for i := 0 to |t|
      invariant forall k: nat, j: nat :: k < i && j < |t| ==> PairOk(t, k, j)
    {
      for j := 0 to |t|
        invariant forall l: nat :: l < j ==> PairOk(t, i, l)
      {
        if i != j && t[i].block == t[j].block && Check(t[i], t[j]) != Apart {
          if Dotted(t[i].name) {
            var fine := CheckParents(t, i);
            if !fine {
              assert !PairOk(t, i, j);
              return false;
            }
          } else if !Dotted(t[j].name) {
            assert !PairOk(t, i, j);
            return false;
          }
        }
      }
    }
    return true;
  }

  ghost predicate Passes(t: Table, bits: string -> int, custom: bool) {
    Fits(t, bits) && UniqueNames(t) && (!custom ==> Structured(t)) && NoOverlaps(t)
  }

  /// FuseTable.verify
  method Verify(t: Table, bits: string -> int, custom: bool) returns (ok: bool)
    ensures ok <==> Passes(t, bits, custom)
  {
    ok := VerifyFields(t, bits);
    if ok {
      ok := VerifyDuplicateName(t);
    }
    if ok && !custom {
      ok := CheckStructFieldName(t);
    }
    if ok {
      ok := CheckOverlaps(t);
    }
  }

  // ---- What is accepted, over bits and names ----

  /// The four answers for entries that have bits.
  lemma CheckMeans(p: Field, n: Field)
    requires p.count > 0 && n.count > 0
    ensures Check(p, n) == IncludedIn <==> forall bit :: HasBit(p, bit) ==> HasBit(n, bit)
    ensures Check(p, n) == Apart <==> Disjoint(p, n)
    ensures Check(p, n) == Wraps <==> HasBit(p, n.start - 1) && HasBit(p, n.start + n.count)
  {
    assert HasBit(p, p.start) && HasBit(p, p.start + p.count - 1);
    assert HasBit(n, n.start) && HasBit(n, n.start + n.count - 1);
    if Check(p, n) != Apart {
      var bit := if p.start >= n.start then p.start else n.start;
      assert HasBit(p, bit) && HasBit(n, bit);
    }
  }

  lemma FitsMeans(t: Table, bits: string -> int)
    requires forall p <- t :: p.count > 0
    ensures Fits(t, bits) <==> forall i: nat, bit :: i < |t| && HasBit(t[i], bit) ==> bit < bits(t[i].block)
  {
    if !Fits(t, bits) {
      var i: nat :| i < |t| && t[i].start + t[i].count > bits(t[i].block);
      assert HasBit(t[i], t[i].start + t[i].count - 1);
    }
  }

  /// The first entry called `name`, if there is one, has all bits of entry `i`.
  ghost predicate InsideFirst(t: Table, i: nat, name: string)
    requires i < |t|
  {
    forall d: nat :: d < |t| && IsParent(t, i, d, name) && (forall e: nat :: e < d ==> !IsParent(t, i, e, name)) ==>
      forall bit :: HasBit(t[i], bit) ==> HasBit(t[d], bit)
  }

  /// Undotted entries of a block share no bit, and a dotted entry that shares a bit with
  /// another one lies inside the first entry for each prefix of its name.
  ghost predicate WellNested(t: Table) {
    forall i: nat, j: nat :: i < |t| && j < |t| ==> NestedPair(t, i, j)
  }

  ghost predicate NestedPair(t: Table, i: nat, j: nat)
    requires i < |t| && j < |t|
  {
    i != j && t[i].block == t[j].block && !Disjoint(t[i], t[j]) ==>
      if Dotted(t[i].name) then forall name <- Prefixes("", Split(t[i].name)) :: InsideFirst(t, i, name)
      else Dotted(t[j].name)
  }

  /// For tables whose entries all have bits, the overlap check accepts exactly the well
  /// nested ones.
  lemma {:induction false} AcceptsWellNested(t: Table)
    requires forall p <- t :: p.count > 0
    ensures NoOverlaps(t) <==> WellNested(t)
  {
    forall i: nat, j: nat | i < |t| && j < |t|
      ensures PairOk(t, i, j) <==> NestedPair(t, i, j)
    {
      PairMeans(t, i, j);
    }
    hide PairOk, NestedPair;
  }

  lemma {:induction false} PairMeans(t: Table, i: nat, j: nat)
    requires i < |t| && j < |t| && forall p <- t :: p.count > 0
    ensures PairOk(t, i, j) <==> NestedPair(t, i, j)
  {
    assert t[i] in t && t[j] in t;
    CheckMeans(t[i], t[j]);
    hide Disjoint, Prefixes, Split, InFirst, InsideFirst, Check, Dotted;
    forall name | name in Prefixes("", Split(t[i].name))
      ensures InFirst(t, i, name) <==> InsideFirst(t, i, name)
    {
      InFirstMeans(t, i, name);
    }
  }

  lemma {:induction false} InFirstMeans(t: Table, i: nat, name: string)
    requires i < |t| && forall p <- t :: p.count > 0
    ensures InFirst(t, i, name) <==> InsideFirst(t, i, name)
  {
    forall d: nat | d < |t|
      ensures Check(t[i], t[d]) == IncludedIn <==> forall bit :: HasBit(t[i], bit) ==> HasBit(t[d], bit)
    {
      assert t[i] in t && t[d] in t;
      CheckMeans(t[i], t[d]);
    }
    hide Check, HasBit;
  }

  function Join(parts: seq<string>): string
    requires parts != []
  {
    if |parts| == 1 then parts[0] else parts[0] + "." + Join(parts[1..])
  }

  lemma {:induction false} JoinSplit(name: string)
    ensures Join(Split(name)) == name && forall part <- Split(name) :: !Dotted(part)
  {
    if name != "" {
      var rest := Split(name[1..]);
      JoinSplit(name[1..]);
      assert name == [name[0]] + name[1..];
      if name[0] == '.' {
        assert ([""] + rest)[1..] == rest;
        assert "" + "." + Join(rest) == name;
      } else {
        var parts := [[name[0]] + rest[0]] + rest[1..];
        assert parts[1..] == rest[1..];
        assert !Dotted(parts[0]);
      }
    }
  }

  /// `x` is the part of `name` before one of its dots.
  ghost predicate BeforeDot(name: string, x: string) {
    exists k: nat :: k < |name| && name[k] == '.' && x == name[..k]
  }

  /// `x` is the part of `name` before one of the dots behind position `n`.
  ghost predicate BeforeLaterDot(name: string, n: nat, x: string) {
    exists k: nat :: n < k < |name| && name[k] == '.' && x == name[..k]
  }

  lemma NextDot(name: string, n: nat, m: nat, x: string)
    requires n < m < |name| && name[m] == '.' && forall k: nat :: n < k < m ==> name[k] != '.'
    ensures BeforeLaterDot(name, n, x) <==> x == name[..m] || BeforeLaterDot(name, m, x)
  {
  }

  lemma NoDots(part: string)
    requires !Dotted(part)
    ensures forall j :: 0 <= j < |part| ==> part[j] != '.'
  {
    assert forall j :: 0 <= j < |part| ==> part[j] in part;
  }

  /// The proper prefixes of `acc.parts` that are longer than `acc` end before its dots.
  lemma {:induction false} PrefixesAtDots(acc: string, parts: seq<string>, x: string)
    requires acc != "" && parts != [] && forall part <- parts :: !Dotted(part)
    ensures x in Prefixes(acc, parts[..|parts| - 1]) <==>
      BeforeLaterDot(acc + "." + Join(parts), |acc|, x)
    decreases |parts|
  {
    var full := acc + "." + Join(parts);
    NoDots(parts[0]);
    if |parts| == 1 {
      assert parts[..0] == [];
      assert forall k: nat :: |acc| < k < |full| ==> full[k] == parts[0][k - |acc| - 1];
    } else {
      var acc', rest := acc + "." + parts[0], parts[1..];
      JoinMore(acc, parts);
      hide BeforeLaterDot, Join, Dotted;
      PrefixesAtDots(acc', rest, x);
      MorePrefixesInit(acc, parts);
      assert forall k: nat :: |acc| < k < |acc'| ==> full[k] == parts[0][k - |acc| - 1];
      assert full[|acc'|] == '.' && full[..|acc'|] == acc';
      NextDot(full, |acc|, |acc'|, x);
    }
  }

  lemma {:induction false} JoinMore(acc: string, parts: seq<string>)
    requires |parts| > 1
    ensures acc + "." + Join(parts) == (acc + "." + parts[0]) + "." + Join(parts[1..])
  {
  }

  lemma {:induction false} MorePrefixesInit(acc: string, parts: seq<string>)
    requires acc != "" && |parts| > 1
    ensures Prefixes(acc, parts[..|parts| - 1]) ==
      [acc + "." + parts[0]] + Prefixes(acc + "." + parts[0], parts[1..][..|parts| - 2])
  {
    assert parts[..|parts| - 1][1..] == parts[1..][..|parts| - 2];
  }

  /// A dotted name that does not start with a dot has parents exactly if there is an
  /// entry for the part before each of its dots.
  lemma {:induction false} ParentsAtDots(t: Table, i: nat)
    requires i < |t| && Dotted(t[i].name) && t[i].name[0] != '.'
    ensures HasParents(t, i) <==>
      forall k: nat :: k < |t[i].name| && t[i].name[k] == '.' ==> HasParent(t, i, t[i].name[..k])
  {
    var name := t[i].name;
    var prefixes := Prefixes("", Split(name)[..|Split(name)| - 1]);
    forall x: string
      ensures x in prefixes <==> BeforeDot(name, x)
    {
      NamePrefixes(name, x);
    }
    hide Prefixes, Split, HasParent;
    forall k: nat | k < |name| && name[k] == '.' ensures name[..k] in prefixes {
      assert BeforeDot(name, name[..k]);
    }
  }

  lemma {:induction false} NamePrefixes(name: string, x: string)
    requires Dotted(name) && name[0] != '.'
    ensures x in Prefixes("", Split(name)[..|Split(name)| - 1]) <==> BeforeDot(name, x)
  {
    var parts := Split(name);
    assert |parts| > 1;
    JoinSplit(name);
    hide Split, Dotted, BeforeDot, Prefixes;
    assert name == Join(parts) == parts[0] + "." + Join(parts[1..]);
    hide Join;
    RootAndRest(name, parts, x);
  }

  lemma {:induction false} RootAndRest(name: string, parts: seq<string>, x: string)
    requires |parts| > 1 && parts[0] != "" && name == parts[0] + "." + Join(parts[1..])
    requires forall part <- parts :: !Dotted(part)
    ensures x in Prefixes("", parts[..|parts| - 1]) <==> BeforeDot(name, x)
  {
    var root, rest := parts[0], parts[1..];
    NoDots(root);
    PrefixesAtDots(root, rest, x);
    assert parts[..|parts| - 1][0] == root && parts[..|parts| - 1][1..] == rest[..|rest| - 1];
    assert name[|root|] == '.' && name[..|root|] == root;
    assert forall k: nat :: k < |root| ==> name[k] == root[k];
    AnyDot(name, |root|, x);
    hide Join, Dotted, BeforeDot, BeforeLaterDot;
  }

  lemma AnyDot(name: string, m: nat, x: string)
    requires m < |name| && name[m] == '.' && forall k: nat :: k < m ==> name[k] != '.'
    ensures BeforeDot(name, x) <==> x == name[..m] || BeforeLaterDot(name, m, x)
  {
  }

  // ---- Soundness ----

  /// Entries with a common bit are never reported apart.
  lemma CommonBitIsSeen(p: Field, n: Field, bit: int)
    requires HasBit(p, bit) && HasBit(n, bit)
    ensures Check(p, n) != Apart
  {
  }

  /// Two different undotted entries of a block share no bit.
  lemma UndottedDisjoint(t: Table, i: nat, j: nat)
    requires NoOverlaps(t) && i < |t| && j < |t| && i != j && t[i].block == t[j].block
    requires !Dotted(t[i].name) && !Dotted(t[j].name)
    ensures Disjoint(t[i], t[j])
  {
    assert PairOk(t, i, j);
    forall bit | HasBit(t[i], bit) && HasBit(t[j], bit) ensures false {
      CommonBitIsSeen(t[i], t[j], bit);
    }
  }

  /// An entry with an undotted name, or with an entry of its block that has its root
  /// name.
  ghost predicate Rooted(t: Table, i: nat)
    requires i < |t|
  {
    Dotted(t[i].name) ==> HasParent(t, i, Root(t[i].name))
  }

  lemma StructuredIsRooted(t: Table, i: nat)
    requires Structured(t) && i < |t|
    ensures Rooted(t, i)
  {
    if Dotted(t[i].name) {
      var parts := Split(t[i].name);
      assert parts[..|parts| - 1][0] == parts[0];
      assert Prefixes("", parts[..|parts| - 1])[0] == parts[0];
    }
  }

  /// The undotted entry whose bits an entry's bits are among, if the entry has a
  /// bit in common with another one: itself, or the first entry with its root name.
  lemma Holder(t: Table, i: nat, j: nat) returns (d: nat)
    requires NoOverlaps(t) && i < |t| && Rooted(t, i)
    requires j < |t| && i != j && t[i].block == t[j].block && Check(t[i], t[j]) != Apart
    ensures d < |t| && t[d].block == t[i].block && t[d].name == Root(t[i].name) && !Dotted(t[d].name)
    ensures forall bit :: HasBit(t[i], bit) ==> HasBit(t[d], bit)
  {
    if !Dotted(t[i].name) {
      return i;
    }
    var root := Root(t[i].name);
    assert root == Prefixes("", Split(t[i].name))[0];
    var k: nat :| k < |t| && IsParent(t, i, k, root);
    d := FirstParent(t, i, root, k);
    assert PairOk(t, i, j) && InFirst(t, i, root);
  }

  lemma FirstParent(t: Table, i: nat, name: string, k: nat) returns (d: nat)
    requires i < |t| && k < |t| && IsParent(t, i, k, name)
    ensures d < |t| && IsParent(t, i, d, name) && forall e: nat :: e < d ==> !IsParent(t, i, e, name)
    decreases k
  {
    if e: nat :| e < k && IsParent(t, i, e, name) {
      d := FirstParent(t, i, name, e);
    } else {
      d := k;
    }
  }

  /// In a table that passes, custom or not, two rooted entries of a block share no bit
  /// if their root names differ or both are undotted, and no entry reaches past its
  /// block.  Unless the table is checked as a custom one, all its entries are rooted.
  lemma Sound(t: Table, bits: string -> int, custom: bool, i: nat, j: nat)
    requires Passes(t, bits, custom) && i < |t| && j < |t| && i != j && t[i].block == t[j].block
    requires custom ==> Rooted(t, i) && Rooted(t, j)
    requires Root(t[i].name) != Root(t[j].name) || (!Dotted(t[i].name) && !Dotted(t[j].name))
    ensures Disjoint(t[i], t[j])
    ensures forall bit :: HasBit(t[i], bit) ==> bit < bits(t[i].block)
  {
    if !Dotted(t[i].name) && !Dotted(t[j].name) {
      UndottedDisjoint(t, i, j);
    } else {
      if !custom {
        StructuredIsRooted(t, i);
        StructuredIsRooted(t, j);
      }
      forall bit | HasBit(t[i], bit) && HasBit(t[j], bit) ensures false {
        CommonBitIsSeen(t[i], t[j], bit);
        CommonBitIsSeen(t[j], t[i], bit);
        var d := Holder(t, i, j);
        var e := Holder(t, j, i);
        UndottedDisjoint(t, d, e);
      }
    }
    assert t[i] in t;
  }

  /// For a table of undotted entries that all have bits, the check is exact.
  lemma ExactWithoutDots(t: Table)
    requires forall p <- t :: !Dotted(p.name) && p.count > 0
    ensures NoOverlaps(t) <==>
      forall i: nat, j: nat :: i < |t| && j < |t| && i != j && t[i].block == t[j].block ==> Disjoint(t[i], t[j])
  {
    if NoOverlaps(t) {
      forall i: nat, j: nat | i < |t| && j < |t| && i != j && t[i].block == t[j].block
        ensures Disjoint(t[i], t[j])
      {
        UndottedDisjoint(t, i, j);
      }
    } else {
      var i: nat, j: nat :| i < |t| && j < |t| && !PairOk(t, i, j);
      var bit := if t[i].start >= t[j].start then t[i].start else t[j].start;
      assert HasBit(t[i], bit) && HasBit(t[j], bit);
    }
  }

  lemma {:induction false} SplitTwo(a: string, b: string)
    requires !Dotted(a) && !Dotted(b)
    ensures Split(a + "." + b) == [a, b]
    decreases |a|
  {
    var name := a + "." + b;
    if a == "" {
      assert name[0] == '.' && name[1..] == b;
    } else {
      SplitTwo(a[1..], b);
      assert name[0] == a[0] && name[1..] == a[1..] + "." + b;
      assert [a[0]] + a[1..] == a;
    }
  }

  /// For entries that are not rooted there is no such guarantee: any dotted entry
  /// whose parents are in another table passes, as a custom table, beside any
  /// undotted one that overlaps it.
  lemma CustomTableAlone(p: Field, q: Field, bits: string -> int, bit: int)
    requires Dotted(p.name) && !Dotted(q.name) && p.block == q.block
    requires q.name !in Prefixes("", Split(p.name)) && q.name != Flat(p.name)
    requires p.group == "" && q.group == "" && q.name != "" && HasBit(p, bit) && HasBit(q, bit)
    requires p.start + p.count <= bits(p.block) && q.start + q.count <= bits(q.block)
    ensures var t := [p, q];
      && Passes(t, bits, true) && !Rooted(t, 0) && Root(p.name) != Root(q.name) && !Disjoint(p, q)
  {
    var t := [p, q];
    assert Root(p.name) == Prefixes("", Split(p.name))[0];
    assert InParents(t, 0);
    UniqueTwo(p, q);
  }

  lemma UniqueTwo(p: Field, q: Field)
    requires Dotted(p.name) && !Dotted(q.name) && p.name != q.name && q.name != Flat(p.name)
    requires p.group == "" && q.group == "" && q.name != ""
    ensures UniqueNames([p, q])
  {
    hide Flat, UniqueNames;
    FlatUndotted(p.name);
    UniqueNamesMean([p, q]);
  }

  lemma FlatUndotted(name: string)
    ensures !Dotted(Flat(name))
  {
  }

  // ---- Which entries of a custom table are kept apart ----

  /// The same names, groups and blocks; only the bits may differ.
  ghost predicate SameNames(t: Table, u: Table) {
    |t| == |u| && forall k :: 0 <= k < |t| ==>
      u[k].name == t[k].name && u[k].group == t[k].group && u[k].block == t[k].block
  }

  /// Whatever bits the entries get, a custom table that passes keeps `i` and `j` apart.
  ghost predicate KeptApart(t: Table, i: nat, j: nat)
    requires i < |t| && j < |t|
  {
    forall u: Table, bits: string -> int :: SameNames(t, u) && Passes(u, bits, true) ==> Disjoint(u[i], u[j])
  }

  /// Two entries of a block with different root names are kept apart by the check of a
  /// custom table if and only if both are rooted.
  lemma {:induction false} ExactlyRooted(t: Table, i: nat, j: nat)
    requires UniqueNames(t) && i < |t| && j < |t| && t[i].block == t[j].block
    requires Root(t[i].name) != Root(t[j].name) && Root(t[i].name) != "" && Root(t[j].name) != ""
    ensures KeptApart(t, i, j) <==> Rooted(t, i) && Rooted(t, j)
  {
    hide KeptApart, UniqueNames, Root;
    if Rooted(t, i) && Rooted(t, j) {
      BothRooted(t, i, j);
    } else if !Rooted(t, i) {
      NotRooted(t, i, j);
    } else {
      NotRooted(t, j, i);
      if KeptApart(t, i, j) {
        KeptApartBack(t, i, j);
      }
    }
  }

  lemma {:induction false} BothRooted(t: Table, i: nat, j: nat)
    requires i < |t| && j < |t| && t[i].block == t[j].block && Root(t[i].name) != Root(t[j].name)
    requires Rooted(t, i) && Rooted(t, j)
    ensures KeptApart(t, i, j)
  {
    hide Passes, Rooted, Root, Disjoint;
    forall u: Table, bits: string -> int | SameNames(t, u) && Passes(u, bits, true)
      ensures Disjoint(u[i], u[j])
    {
      RootedApart(t, u, bits, i, j);
    }
  }

  lemma {:induction false} NotRooted(t: Table, i: nat, j: nat)
    requires UniqueNames(t) && i < |t| && j < |t| && t[i].block == t[j].block && !Rooted(t, i)
    requires Root(t[i].name) != Root(t[j].name) && Root(t[i].name) != "" && Root(t[j].name) != ""
    ensures !KeptApart(t, i, j)
  {
    assert Dotted(t[i].name);
    hide Passes, Rooted, UniqueNames, Placed, Large, Root, Disjoint, SameNames, Dotted;
    Meet(t, i, j);
    var u, bits := Placed(t, i, j), Large(t);
    assert SameNames(t, u) && Passes(u, bits, true);
  }

  lemma {:induction false} KeptApartBack(t: Table, i: nat, j: nat)
    requires i < |t| && j < |t| && KeptApart(t, i, j)
    ensures KeptApart(t, j, i)
  {
    hide Passes, Disjoint;
    forall u: Table, bits: string -> int | SameNames(t, u) && Passes(u, bits, true)
      ensures Disjoint(u[j], u[i])
    {
      assert Disjoint(u[i], u[j]);
      DisjointBack(u[i], u[j]);
    }
  }

  lemma DisjointBack(p: Field, q: Field)
    ensures Disjoint(p, q) ==> Disjoint(q, p)
  {
  }

  lemma RootedApart(t: Table, u: Table, bits: string -> int, i: nat, j: nat)
    requires SameNames(t, u) && Passes(u, bits, true) && i < |t| && j < |t| && t[i].block == t[j].block
    requires Root(t[i].name) != Root(t[j].name) && Rooted(t, i) && Rooted(t, j)
    ensures Disjoint(u[i], u[j])
  {
    StillRooted(t, u, i);
    StillRooted(t, u, j);
    Sound(u, bits, true, i, j);
  }

  lemma StillRooted(t: Table, u: Table, i: nat)
    requires SameNames(t, u) && i < |t| && Rooted(t, i)
    ensures Rooted(u, i)
  {
    if Dotted(t[i].name) {
      var d: nat :| d < |t| && IsParent(t, i, d, Root(t[i].name));
      assert IsParent(u, i, d, Root(u[i].name));
    }
  }

  ghost predicate FirstNamed(t: Table, k: nat)
    requires k < |t|
  {
    forall e: nat :: e < k ==> !(t[e].block == t[k].block && t[e].name == t[k].name)
  }

  /// The entries put on one bit: `j`, the dotted entries with the root name of `i`, and,
  /// if `j` is dotted, those with its root name and the first entry that has this name.
  ghost predicate Chosen(t: Table, i: nat, j: nat, k: nat)
    requires i < |t| && j < |t| && k < |t|
  {
    && t[k].block == t[i].block
    && (|| k == j
        || (Dotted(t[k].name) && Root(t[k].name) == Root(t[i].name))
        || (Dotted(t[j].name) && Root(t[k].name) == Root(t[j].name) && (Dotted(t[k].name) || FirstNamed(t, k))))
  }

  ghost function Place(t: Table, i: nat, j: nat, k: nat): Field
    requires i < |t| && j < |t| && k < |t|
  {
    t[k].(start := if Chosen(t, i, j, k) then 0 else k + 1, count := 1)
  }

  /// Blocks with a bit for every entry, and one more.
  function Large(t: Table): string -> int {
    _ => |t| + 1
  }

  ghost function Placed(t: Table, i: nat, j: nat): (u: Table)
    requires i < |t| && j < |t|
    ensures |u| == |t| && forall k :: 0 <= k < |t| ==> u[k] == Place(t, i, j, k)
  {
    seq(|t|, k requires 0 <= k < |t| => Place(t, i, j, k))
  }

  /// A table in which `i`, which is not rooted, and `j` share a bit, and which passes.
  lemma {:induction false} Meet(t: Table, i: nat, j: nat)
    requires UniqueNames(t) && i < |t| && j < |t| && t[i].block == t[j].block
    requires Dotted(t[i].name) && !Rooted(t, i)
    requires Root(t[i].name) != Root(t[j].name) && Root(t[i].name) != "" && Root(t[j].name) != ""
    ensures SameNames(t, Placed(t, i, j)) && Passes(Placed(t, i, j), Large(t), true)
    ensures !Disjoint(Placed(t, i, j)[i], Placed(t, i, j)[j])
  {
    hide UniqueNames, NoOverlaps, Rooted, Root, Fits, SameNames, Disjoint, Placed, Large;
    PlacedShape(t, i, j);
    SameUnique(t, Placed(t, i, j));
    PlacedOverlaps(t, i, j);
  }

  lemma {:induction false} PlacedShape(t: Table, i: nat, j: nat)
    requires i < |t| && j < |t| && t[i].block == t[j].block && Dotted(t[i].name)
    ensures SameNames(t, Placed(t, i, j)) && Fits(Placed(t, i, j), Large(t))
    ensures !Disjoint(Placed(t, i, j)[i], Placed(t, i, j)[j])
  {
    hide Root, FirstNamed, Dotted;
    assert HasBit(Place(t, i, j, i), 0) && HasBit(Place(t, i, j, j), 0);
  }

  lemma {:induction false} SameUnique(t: Table, u: Table)
    requires SameNames(t, u) && UniqueNames(t)
    ensures UniqueNames(u)
  {
    SameFlats(t, u);
    assert Plain(t) == Plain(u);
    hide Repeated;
  }

  lemma {:induction false} SameFlats(t: Table, u: Table)
    requires SameNames(t, u)
    ensures Flats(t) == Flats(u)
  {
    if t != [] {
      SameFlats(t[1..], u[1..]);
    }
  }

  lemma {:induction false} PlacedOverlaps(t: Table, i: nat, j: nat)
    requires i < |t| && j < |t| && t[i].block == t[j].block && !Rooted(t, i)
    requires Root(t[i].name) != Root(t[j].name) && Root(t[i].name) != "" && Root(t[j].name) != ""
    ensures NoOverlaps(Placed(t, i, j))
  {
    var u := Placed(t, i, j);
    forall a: nat, b: nat | a < |u| && b < |u|
      ensures PairOk(u, a, b)
    {
      if a != b && Check(u[a], u[b]) != Apart {
        assert Chosen(t, i, j, a) && Chosen(t, i, j, b);
        if Dotted(t[a].name) {
          ChosenInParents(t, i, j, a);
        } else if !Dotted(t[b].name) {
          OneUndotted(t, i, j, a, b);
        }
      }
    }
  }

  /// Among the entries put on one bit at most one is undotted.
  lemma OneUndotted(t: Table, i: nat, j: nat, a: nat, b: nat)
    requires i < |t| && j < |t| && a < |t| && b < |t|
    requires Chosen(t, i, j, a) && Chosen(t, i, j, b) && !Dotted(t[a].name) && !Dotted(t[b].name)
    ensures a == b
  {
    assert t[a].name == Root(t[a].name) && t[b].name == Root(t[b].name);
  }

  lemma {:induction false} ChosenInParents(t: Table, i: nat, j: nat, a: nat)
    requires i < |t| && j < |t| && a < |t| && Chosen(t, i, j, a) && Dotted(t[a].name) && !Rooted(t, i)
    requires Root(t[i].name) != "" && Root(t[j].name) != ""
    ensures InParents(Placed(t, i, j), a)
  {
    var u := Placed(t, i, j);
    PrefixRoots(t[a].name);
    forall name | name in Prefixes("", Split(u[a].name))
      ensures InFirst(u, a, name)
    {
      forall d: nat | d < |u| && IsParent(u, a, d, name) && forall e: nat :: e < d ==> !IsParent(u, a, e, name)
        ensures Check(u[a], u[d]) == IncludedIn
      {
        ChosenParent(t, i, j, a, d, name);
      }
    }
  }

  /// The first entry called as a prefix of a chosen name is chosen too.
  lemma {:induction false} ChosenParent(t: Table, i: nat, j: nat, a: nat, d: nat, name: string)
    requires i < |t| && j < |t| && a < |t| && d < |t|
    requires Chosen(t, i, j, a) && Dotted(t[a].name) && !Rooted(t, i)
    requires IsParent(t, a, d, name) && Root(name) == Root(t[a].name)
    requires forall e: nat :: e < d ==> !IsParent(Placed(t, i, j), a, e, name)
    ensures Chosen(t, i, j, d)
  {
    if !Dotted(name) {
      assert name == Root(name);
      forall e: nat | e < d
        ensures !(t[e].block == t[d].block && t[e].name == t[d].name)
      {
        assert !IsParent(Placed(t, i, j), a, e, name);
      }
      if Root(t[a].name) == Root(t[i].name) {
        assert IsParent(t, i, d, name);
      }
    }
  }

  lemma {:induction false} SplitRoot(a: string, b: string)
    ensures Root(a + "." + b) == Root(a)
    decreases |a|
  {
    var name := a + "." + b;
    if a == "" {
      assert name[0] == '.';
    } else {
      SplitRoot(a[1..], b);
      assert name[0] == a[0] && name[1..] == a[1..] + "." + b;
    }
  }

  lemma {:induction false} PrefixesKeepRoot(name: string, parts: seq<string>)
    requires name != ""
    ensures forall p <- Prefixes(name, parts) :: Root(p) == Root(name)
    decreases |parts|
  {
    if parts != [] {
      SplitRoot(name, parts[0]);
      PrefixesKeepRoot(Extend(name, parts[0]), parts[1..]);
    }
  }

  /// The prefixes of a name have its root, unless it starts with a dot.
  lemma {:induction false} PrefixRoots(name: string)
    requires Root(name) != ""
    ensures forall p <- Prefixes("", Split(name)) :: Root(p) == Root(name)
  {
    var parts := Split(name);
    assert Root(parts[0]) == parts[0];
    PrefixesKeepRoot(parts[0], parts[1..]);
  }

  // ---- Unique names ----

  lemma RepeatedAt(s: seq<string>, i: nat)
    requires i < |s|
    ensures Repeated(s, s[i]) <==> s[i] in s[..i] || s[i] in s[i + 1..]
  {
    assert s == s[..i] + [s[i]] + s[i + 1..];
  }

  lemma {:induction false} FlatsHave(t: Table, x: string)
    ensures x in Flats(t) <==> exists j: nat :: FlatAt(t, j, x)
  {
    if t != [] {
      var rest := t[1..];
      FlatsHave(rest, x);
      assert FlatAt(t, 0, x) <==> Dotted(t[0].name) && Flat(t[0].name) == x;
      if j: nat :| FlatAt(rest, j, x) {
        assert FlatAt(t, j + 1, x);
      }
      if j: nat :| FlatAt(t, j, x) {
        assert j > 0 ==> FlatAt(rest, j - 1, x);
      }
    }
  }

  /// For a table in which no name is used for several entries on purpose, the check
  /// is exact: every name is different from all others and from the C identifiers of
  /// the dotted names.
  lemma UniqueNamesMean(t: Table)
    requires forall p <- t :: p.name != "" && p.group == ""
    ensures UniqueNames(t) <==>
      && (forall i: nat, j: nat :: i < j < |t| ==> t[i].name != t[j].name)
      && (forall i: nat, j: nat :: i < |t| ==> !FlatAt(t, j, t[i].name))
  {
    var names := AllNames(t);
    forall i: nat | i < |t|
      ensures t[i].name + t[i].group == t[i].name != ""
      ensures Repeated(names, t[i].name) <==>
        || (exists j: nat :: j < |t| && j != i && t[j].name == t[i].name)
        || (exists j: nat :: FlatAt(t, j, t[i].name))
    {
      assert t[i] in t;
      OtherName(t, i);
    }
    hide FlatAt, Repeated, AllNames;
  }

  /// The C identifiers of two dotted entries are `x`.
  ghost predicate TwoFlats(t: Table, x: string) {
    exists j: nat, k: nat :: j < k < |t| && FlatAt(t, j, x) && FlatAt(t, k, x)
  }

  ghost predicate FlatAt(t: Table, j: nat, x: string) {
    j < |t| && Dotted(t[j].name) && Flat(t[j].name) == x
  }

  lemma {:induction false} FlatsTwice(t: Table, x: string)
    ensures multiset(Flats(t))[x] > 1 <==> TwoFlats(t, x)
  {
    if t != [] {
      var head, rest := if Dotted(t[0].name) then [Flat(t[0].name)] else [], t[1..];
      FlatsTwice(rest, x);
      FlatsHave(rest, x);
      assert Flats(t) == head + Flats(rest);
      assert multiset(Flats(t))[x] == multiset(head)[x] + multiset(Flats(rest))[x];
      assert multiset(head)[x] == if FlatAt(t, 0, x) then 1 else 0;
      hide Flats, Flat, Dotted;
      assert forall k: nat :: FlatAt(rest, k, x) <==> FlatAt(t, k + 1, x);
      FlatsShift(t, x);
    }
  }

  lemma FlatsShift(t: Table, x: string)
    requires t != []
    ensures TwoFlats(t, x) <==>
      TwoFlats(t[1..], x) || (FlatAt(t, 0, x) && exists k: nat :: FlatAt(t[1..], k, x))
  {
    var rest := t[1..];
    assert forall k: nat :: FlatAt(rest, k, x) <==> FlatAt(t, k + 1, x);
    if j: nat, k: nat :| j < k < |t| && FlatAt(t, j, x) && FlatAt(t, k, x) {
      assert FlatAt(rest, k - 1, x);
      assert j > 0 ==> FlatAt(rest, j - 1, x);
    }
    if j: nat, k: nat :| j < k < |rest| && FlatAt(rest, j, x) && FlatAt(rest, k, x) {
      assert FlatAt(t, j + 1, x) && FlatAt(t, k + 1, x);
    }
  }

  lemma NamesTwice(t: Table, x: string)
    ensures multiset(Plain(t))[x] > 1 <==> exists j: nat, k: nat :: j < k < |t| && t[j].name == x == t[k].name
    ensures multiset(Plain(t))[x] > 0 <==> exists j: nat :: j < |t| && t[j].name == x
  {
    var s := Plain(t);
    if j: nat, k: nat :| j < k < |t| && t[j].name == x == t[k].name {
      RepeatedAt(s, j);
      assert s[j + 1..][k - j - 1] == x;
    }
    if x in s {
      var j: nat :| j < |s| && s[j] == x;
      RepeatedAt(s, j);
      if Repeated(s, x) {
        var k: nat :| k < |s| && k != j && s[k] == x;
        assert t[j].name == x == t[k].name;
      }
    }
  }

  /// The name check in full: the name of an entry with its group number, if not empty,
  /// must not stand for two things among the names and the C identifiers of the dotted
  /// names.
  lemma UniqueNamesInFull(t: Table)
    ensures UniqueNames(t) <==>
      forall i: nat :: i < |t| && t[i].name + t[i].group != "" ==>
        var x := t[i].name + t[i].group;
        && (forall j: nat, k: nat :: j < k < |t| ==> !(t[j].name == x == t[k].name))
        && (forall j: nat, k: nat :: j < |t| && t[j].name == x ==> !FlatAt(t, k, x))
        && !TwoFlats(t, x)
  {
    forall i: nat | i < |t|
      ensures var x := t[i].name + t[i].group;
        Repeated(AllNames(t), x) <==>
          || (exists j: nat, k: nat :: j < k < |t| && t[j].name == x == t[k].name)
          || (exists j: nat, k: nat :: j < |t| && t[j].name == x && FlatAt(t, k, x))
          || TwoFlats(t, x)
    {
      RepeatedMeans(t, t[i].name + t[i].group);
    }
  }

  lemma RepeatedMeans(t: Table, x: string)
    ensures Repeated(AllNames(t), x) <==>
      || (exists j: nat, k: nat :: j < k < |t| && t[j].name == x == t[k].name)
      || (exists j: nat, k: nat :: j < |t| && t[j].name == x && FlatAt(t, k, x))
      || TwoFlats(t, x)
  {
    NamesTwice(t, x);
    FlatsTwice(t, x);
    FlatsHave(t, x);
    assert multiset(AllNames(t))[x] == multiset(Plain(t))[x] + multiset(Flats(t))[x];
    assert x in Flats(t) <==> exists k: nat :: FlatAt(t, k, x);
    hide Plain, Flats, Flat, Dotted, TwoFlats, AllNames;
  }

  lemma OtherName(t: Table, i: nat)
    requires i < |t|
    ensures Repeated(AllNames(t), t[i].name) <==>
      || (exists j: nat :: j < |t| && j != i && t[j].name == t[i].name)
      || (exists j: nat :: FlatAt(t, j, t[i].name))
  {
    var names, x := AllNames(t), t[i].name;
    RepeatedAt(names, i);
    FlatsHave(t, x);
    assert names[i + 1..] == Plain(t)[i + 1..] + Flats(t) && names[..i] == Plain(t)[..i];
    if x in Plain(t)[..i] || x in Plain(t)[i + 1..] {
      var j: nat :| j < |t| && j != i && Plain(t)[j] == x;
      assert t[j].name == x;
    }
    if j: nat :| j < |t| && j != i && t[j].name == x {
      assert j < i ==> Plain(t)[..i][j] == x;
      assert j > i ==> Plain(t)[i + 1..][j - i - 1] == x;
    }
  }

  /// The check does not compare the C identifiers of two dotted names: "A.B_C" and
  /// "A_B.C" pass, although both become A_B_C.
  lemma SameIdentifier(a: string, b: string, c: string, block: string, bits: string -> int)
    requires !Dotted(a) && !Dotted(b) && !Dotted(c) && a != "" && bits(block) >= 8
    ensures var p, q := a + "." + (b + "_" + c), (a + "_" + b) + "." + c;
      && p != q && Flat(p) == Flat(q)
      && Passes(TwoParts(a, b + "_" + c, a + "_" + b, c, block), bits, false)
  {
    var d, bc := a + "_" + b, b + "_" + c;
    var p, q := a + "." + bc, d + "." + c;
    assert p[|a|] == '.' && q[|a|] == '_';
    FlatTwo(a, bc);
    FlatTwo(d, c);
    assert Flat(p) == a + "_" + b + "_" + c == Flat(q);
    TwoPartsPass(a, bc, d, c, block, bits);
  }

  /// Two undotted entries side by side, and a dotted one in the place of each.
  function TwoParts(a: string, b: string, c: string, d: string, block: string): Table {
    [Field(a, "", block, 0, 4), Field(c, "", block, 4, 4),
     Field(a + "." + b, "", block, 0, 4), Field(c + "." + d, "", block, 4, 4)]
  }

  lemma TwoPartsPass(a: string, b: string, c: string, d: string, block: string, bits: string -> int)
    requires !Dotted(a) && !Dotted(b) && !Dotted(c) && !Dotted(d) && a != "" && bits(block) >= 8
    requires |a| < |c| && c < a + "_" + b == c + "_" + d && a + "." + b != c + "." + d
    ensures Passes(TwoParts(a, b, c, d, block), bits, false)
  {
    hide TwoParts, Split, Prefixes, Flat, Dotted, UniqueNames, InParents, HasParents, NoOverlaps;
    var t := TwoParts(a, b, c, d, block);
    TwoPartsShape(a, b, c, d, block);
    TwoPartsNames(a, b, c, d, block);
    FirstPart(t, a, b, c, d);
    SecondPart(t, a, b, c, d);
    TwoPartsOverlaps(t);
    assert Fits(t, bits) && Structured(t);
  }

  lemma TwoPartsShape(a: string, b: string, c: string, d: string, block: string)
    ensures var t := TwoParts(a, b, c, d, block);
      && |t| == 4 && t[0].block == t[1].block == t[2].block == t[3].block == block
      && t[0].start == t[2].start == 0 && t[1].start == t[3].start == 4
      && t[0].count == t[1].count == t[2].count == t[3].count == 4
      && t[0].name == a && t[1].name == c && Dotted(t[2].name) && Dotted(t[3].name)
  {
    assert (a + "." + b)[|a|] == (c + "." + d)[|c|] == '.';
  }

  lemma FirstPart(t: Table, a: string, b: string, c: string, d: string)
    requires !Dotted(a) && !Dotted(b) && a != "" && a != c && a + "." + b != c + "." + d && !Dotted(c)
    requires exists block :: t == TwoParts(a, b, c, d, block)
    ensures InParents(t, 2) && HasParents(t, 2)
  {
    SplitTwo(a, b);
    assert (a + "." + b)[|a|] == (c + "." + d)[|c|] == '.';
    PartOfOne(t, 2, 0, a, b);
  }

  lemma SecondPart(t: Table, a: string, b: string, c: string, d: string)
    requires !Dotted(c) && !Dotted(d) && c != "" && a != c && a + "." + b != c + "." + d && !Dotted(a)
    requires exists block :: t == TwoParts(a, b, c, d, block)
    ensures InParents(t, 3) && HasParents(t, 3)
  {
    SplitTwo(c, d);
    assert (a + "." + b)[|a|] == (c + "." + d)[|c|] == '.';
    PartOfOne(t, 3, 1, c, d);
  }

  lemma TwoPartsNames(a: string, b: string, c: string, d: string, block: string)
    requires !Dotted(a) && !Dotted(b) && !Dotted(c) && !Dotted(d) && a != ""
    requires |a| < |c| < |a + "_" + b| && a + "_" + b == c + "_" + d && a + "." + b != c + "." + d
    ensures UniqueNames(TwoParts(a, b, c, d, block))
  {
    FlatTwo(a, b);
    FlatTwo(c, d);
    assert (a + "." + b)[|a|] == (c + "." + d)[|c|] == '.';
    hide UniqueNames, Flat;
    UniqueNames4(TwoParts(a, b, c, d, block));
  }

  lemma TwoPartsOverlaps(t: Table)
    requires |t| == 4 && t[0].block == t[1].block == t[2].block == t[3].block
    requires t[0].start == t[2].start == 0 && t[1].start == t[3].start == 4
    requires t[0].count == t[1].count == t[2].count == t[3].count == 4
    requires !Dotted(t[0].name) && !Dotted(t[1].name)
    requires Dotted(t[2].name) && Dotted(t[3].name) && InParents(t, 2) && InParents(t, 3)
    ensures NoOverlaps(t)
  {
    hide InParents, Dotted;
  }

  lemma UniqueNames4(t: Table)
    requires |t| == 4 && forall p <- t :: p.name != "" && p.group == ""
    requires !Dotted(t[0].name) && !Dotted(t[1].name) && Dotted(t[2].name) && Dotted(t[3].name)
    requires t[0].name != t[1].name && t[2].name != t[3].name
    requires Flat(t[2].name) == Flat(t[3].name) && |t[0].name| < |t[1].name| < |Flat(t[2].name)|
    ensures UniqueNames(t)
  {
    hide Flat, UniqueNames;
    FlatUndotted(t[2].name);
    UniqueNamesMean(t);
  }

  /// An entry called `a.b` in the place of the only other entry called `a`.
  lemma PartOfOne(t: Table, i: nat, d: nat, a: string, b: string)
    requires i < |t| && d < |t| && t[i].name == a + "." + b && Split(t[i].name) == [a, b] && a != ""
    requires forall e: nat :: e < |t| ==> (IsParent(t, i, e, a) <==> e == d)
    requires forall e: nat :: e < |t| ==> !IsParent(t, i, e, a + "." + b)
    requires Check(t[i], t[d]) == IncludedIn
    ensures InParents(t, i) && HasParents(t, i)
  {
    assert Prefixes(a, [b]) == [a + "." + b];
    assert Prefixes("", [a, b]) == [a, a + "." + b];
    assert [a, b][..1] == [a] && Prefixes("", [a]) == [a];
    assert IsParent(t, i, d, a);
  }

  lemma FlatTwo(a: string, b: string)
    requires !Dotted(a) && !Dotted(b)
    ensures Flat(a + "." + b) == a + "_" + b
  {
  }

  /// An entry with a dotted name lies inside its parents whenever it touches any
  /// other entry of its block.
  lemma TouchingIsInside(t: Table, i: nat, j: nat, bit: int)
    requires NoOverlaps(t) && i < |t| && j < |t| && i != j && Rooted(t, i)
    requires t[i].block == t[j].block && Dotted(t[i].name) && HasBit(t[i], bit) && HasBit(t[j], bit)
    ensures exists d: nat :: (d < |t| && IsParent(t, i, d, Root(t[i].name)) &&
      t[d].start <= t[i].start && t[i].start + t[i].count <= t[d].start + t[d].count)
  {
    CommonBitIsSeen(t[i], t[j], bit);
    var d := Holder(t, i, j);
    assert HasBit(t[i], t[i].start) && HasBit(t[i], t[i].start + t[i].count - 1);
    assert IsParent(t, i, d, Root(t[i].name));
  }
}
