// Choosing the partition for the next update (esp_ota_get_next_update_partition).

module OtaNext {
  import opened Machine
  import opened Modular

  /// The partition table as far as the search sees it: which of the OTA subtypes
  /// have a partition.
  type Table = seq<bool>

  /// The partition the search starts from.
  datatype Start = NotOta | OtaSlot(k: nat)

  /// The OTA partitions below subtype `n`, lowest first.
  function Slots(t: Table, n: nat): (s: seq<nat>)
    requires n <= |t|
    ensures forall i :: 0 <= i < |s| ==> s[i] < n && t[s[i]]
    ensures forall i, j :: 0 <= i < j < |s| ==> s[i] < s[j]
    ensures forall k :: 0 <= k < n && t[k] ==> k in s
  {
    if n == 0 then [] else Slots(t, n - 1) + if t[n - 1] then [n - 1] else []
  }

  /// The position of a partition among the OTA partitions.
  function Rank(t: Table, k: nat): (i: nat)
    requires k < |t| && t[k]
    ensures i < |Slots(t, |t|)| && Slots(t, |t|)[i] == k
  {
    var s := Slots(t, |t|);
    assert k in s;
    RankIn(t, k, |t|);
    |Slots(t, k)|
  }

  lemma {:induction false} RankIn(t: Table, k: nat, n: nat)
    requires k < n <= |t| && t[k]
    ensures |Slots(t, k)| < |Slots(t, n)| && Slots(t, n)[|Slots(t, k)|] == k
    decreases n
  {
    if n > k + 1 {
      RankIn(t, k, n - 1);
    }
  }

  /// The cyclic successor: the lowest OTA partition after a start that is not one,
  /// the next higher one otherwise, and the lowest again after the highest.
  function Successor(t: Table, start: Start): Option<nat>
    requires start.OtaSlot? ==> start.k < |t| && t[start.k]
  {
    var s := Slots(t, |t|);
    if s == [] then None
    else match start
      case NotOta => Some(s[0])
      case OtaSlot(k) => Some(s[(Rank(t, k) + 1) % |s|])
  }

  lemma SuccessorCases(t: Table, k: nat)
    requires k < |t| && t[k]
    ensures var s := Slots(t, |t|);
      Successor(t, OtaSlot(k)) == Some(if |Slots(t, k)| + 1 < |s| then s[|Slots(t, k)| + 1] else s[0])
  {
    RankIn(t, k, |t|);
    var s, r := Slots(t, |t|), |Slots(t, k)|;
    SmallMod(r + 1, |s|);
  }

  /// No OTA partition has a subtype from `a` on and below `b`.
  ghost predicate NoneBetween(t: Table, a: nat, b: nat) {
    forall j: nat :: a <= j < b && j < |t| ==> !t[j]
  }

  /// The lowest OTA partition for a start that is not one; the next higher one, or the
  /// lowest if there is none, for a start that is.
  ghost predicate IsSuccessor(t: Table, start: Start, r: Option<nat>)
    requires start.OtaSlot? ==> start.k < |t| && t[start.k]
  {
    match r
    case None => start.NotOta? && NoneBetween(t, 0, |t|)
    case Some(n) =>
      && n < |t| && t[n]
      && match start
         case NotOta => NoneBetween(t, 0, n)
         case OtaSlot(k) =>
           if n > k then NoneBetween(t, k + 1, n) else NoneBetween(t, k + 1, |t|) && NoneBetween(t, 0, n)
  }

  lemma SuccessorMeans(t: Table, start: Start)
    requires start.OtaSlot? ==> start.k < |t| && t[start.k]
    ensures IsSuccessor(t, start, Successor(t, start))
  {
    var s := Slots(t, |t|);
    if start.OtaSlot? {
      var i := |Slots(t, start.k)|;
      SuccessorCases(t, start.k);
      RankIn(t, start.k, |t|);
      hide Successor, Rank, Slots, NoneBetween;
      Gap(t, start.k + 1, if i + 1 < |s| then s[i + 1] else |t|, i + 1);
      Gap(t, 0, s[0], 0);
    } else {
      hide Rank, Slots, NoneBetween;
      Gap(t, 0, if s == [] then |t| else s[0], 0);
    }
  }

  /// Between two neighbouring OTA partitions there is none.
  lemma Gap(t: Table, a: nat, b: nat, i: nat)
    requires i <= |Slots(t, |t|)| && (i > 0 ==> Slots(t, |t|)[i - 1] < a)
    requires i < |Slots(t, |t|)| ==> b <= Slots(t, |t|)[i]
    ensures NoneBetween(t, a, b)
  {
    hide Slots;
    var s := Slots(t, |t|);
    forall m | 0 <= m < |s|
      ensures !(a <= s[m] < b)
    {
      assert m < i - 1 ==> s[m] < s[i - 1];
      assert m > i ==> s[i] < s[m];
    }
    assert forall j: nat :: j < |t| && t[j] ==> j in s;
  }

  lemma OneSuccessor(t: Table, start: Start, r: Option<nat>, q: Option<nat>)
    requires start.OtaSlot? ==> start.k < |t| && t[start.k]
    requires IsSuccessor(t, start, r) && IsSuccessor(t, start, q)
    ensures r == q
  {
  }

  method NextUpdate(t: Table, start: Start) returns (r: Option<nat>)
    requires start.OtaSlot? ==> start.k < |t| && t[start.k]
    ensures IsSuccessor(t, start, r) && r == Successor(t, start)
  {
    hide Successor;
    SuccessorMeans(t, start);
    var default: Option<nat> := None;
    var nextIsResult := false;
    for i := 0 to |t|
      invariant if default.None? then NoneBetween(t, 0, i)
                else default.value < i && t[default.value] && NoneBetween(t, 0, default.value)
      invariant nextIsResult <==> start.OtaSlot? && start.k < i
      invariant nextIsResult ==> NoneBetween(t, start.k + 1, i)
    {
      if t[i] {
        if default.None? {
          default := Some(i);
        }
        if start == OtaSlot(i) {
          nextIsResult := true;
        } else if nextIsResult {
          OneSuccessor(t, start, Some(i), Successor(t, start));
          return Some(i);
        }
      }
    }
    OneSuccessor(t, start, default, Successor(t, start));
    return default;
  }

  /// Following the successor `m` times.
  function Iterate(t: Table, k: nat, m: nat): (r: nat)
    requires k < |t| && t[k]
    ensures r < |t| && t[r]
  {
    if m == 0 then k else
      var prev := Iterate(t, k, m - 1);
      SuccessorIsOta(t, prev);
      Successor(t, OtaSlot(prev)).value
  }

  lemma SuccessorIsOta(t: Table, k: nat)
    requires k < |t| && t[k]
    ensures Successor(t, OtaSlot(k)).Some? && var n := Successor(t, OtaSlot(k)).value; n < |t| && t[n]
  {
    SuccessorCases(t, k);
    RankIn(t, k, |t|);
  }

  lemma SuccessorRank(t: Table, k: nat)
    requires k < |t| && t[k]
    ensures var n, r := |Slots(t, |t|)|, Successor(t, OtaSlot(k));
      r.Some? && r.value < |t| && t[r.value] && Rank(t, r.value) == if Rank(t, k) + 1 < n then Rank(t, k) + 1 else 0
  {
    SuccessorIsOta(t, k);
    SuccessorCases(t, k);
    RankUnique(t, Successor(t, OtaSlot(k)).value);
  }

  lemma {:induction false} IterateRank(t: Table, k: nat, m: nat)
    requires k < |t| && t[k]
    ensures var n := |Slots(t, |t|)|;
      n > 0 && Rank(t, Iterate(t, k, m)) == (Rank(t, k) + m) % n
    decreases m
  {
    hide Successor, Rank, Slots;
    var n, r := |Slots(t, |t|)|, Rank(t, k);
    if m == 0 {
      SmallMod(r, n);
    } else {
      IterateRank(t, k, m - 1);
      SuccessorRank(t, Iterate(t, k, m - 1));
      NextMod(r + m - 1, n);
    }
  }

  /// The position of a partition is the only index that holds it.
  lemma RankUnique(t: Table, k: nat)
    requires k < |t| && t[k]
    ensures forall i :: 0 <= i < |Slots(t, |t|)| && Slots(t, |t|)[i] == k ==> i == Rank(t, k)
  {
  }

  ghost predicate VisitedOnce(t: Table, k: nat, j: nat, m: nat)
    requires k < |t| && t[k]
  {
    var n := |Slots(t, |t|)|;
    && m < n && Iterate(t, k, m) == j
    && forall l :: 0 <= l < n && Iterate(t, k, l) == j ==> l == m
  }

  /// Starting anywhere, the updates visit every OTA partition exactly once before
  /// they come back.
  lemma VisitsAll(t: Table, k: nat, j: nat) returns (m: nat)
    requires k < |t| && t[k] && j < |t| && t[j]
    ensures Iterate(t, k, |Slots(t, |t|)|) == k
    ensures VisitedOnce(t, k, j, m)
  {
    hide Iterate, Rank, Slots;
    var n := |Slots(t, |t|)|;
    var from, to := Rank(t, k), Rank(t, j);
    m := if from <= to then to - from else to + n - from;
    IterateRank(t, k, n);
    IterateRank(t, k, m);
    SmallMod(from + n, n);
    SmallMod(from + m, n);
    forall l | 0 <= l < n && Iterate(t, k, l) == j ensures l == m {
      IterateRank(t, k, l);
      SmallMod(from + l, n);
    }
  }
}
