/** Python's `list.sort(key=lambda x: x[1])` on the open list: a stable sort of
    (position, cost) entries by ascending cost, written as insertion sort. */
module StableSort {
  import opened Cells

  /** An open-list entry: a position and its cost. */
  type Entry = (Pos, int)

  predicate SortedByCost(s: seq<Entry>) {
    forall i, j | 0 <= i < j < |s| :: s[i].1 <= s[j].1
  }

  /** The entries of `s` whose cost is `k`, in their order in `s`. */
  function WithCost(s: seq<Entry>, k: int): seq<Entry> {
    if s == [] then []
    else (if s[0].1 == k then [s[0]] else []) + WithCost(s[1..], k)
  }

  /** Puts `x` before the first entry whose cost is not smaller than its own. */
  function Insert(x: Entry, t: seq<Entry>): seq<Entry> {
    if t == [] || x.1 <= t[0].1 then [x] + t else [t[0]] + Insert(x, t[1..])
  }

  function SortByCost(s: seq<Entry>): seq<Entry> {
    if s == [] then [] else Insert(s[0], SortByCost(s[1..]))
  }

  lemma {:induction false} InsertMultiset(x: Entry, t: seq<Entry>)
    ensures multiset(Insert(x, t)) == multiset{x} + multiset(t)
  {
    if t != [] && x.1 > t[0].1 {
      InsertMultiset(x, t[1..]);
      assert t == [t[0]] + t[1..];
    }
  }

  /** Inserting an entry no cheaper than `b` into entries no cheaper than
      `b` gives entries no cheaper than `b`. */
  lemma {:induction false} InsertBound(x: Entry, t: seq<Entry>, b: int)
    requires b <= x.1 && forall i | 0 <= i < |t| :: b <= t[i].1
    ensures forall i | 0 <= i < |Insert(x, t)| :: b <= Insert(x, t)[i].1
  {
    if t != [] && x.1 > t[0].1 {
      InsertBound(x, t[1..], b);
      assert Insert(x, t) == [t[0]] + Insert(x, t[1..]);
    } else {
      assert Insert(x, t) == [x] + t;
    }
  }

  lemma {:induction false} InsertSorted(x: Entry, t: seq<Entry>)
    requires SortedByCost(t)
    ensures SortedByCost(Insert(x, t))
  {
    if t != [] && x.1 > t[0].1 {
      var rest := Insert(x, t[1..]);
      InsertSorted(x, t[1..]);
      InsertBound(x, t[1..], t[0].1);
      var r := [t[0]] + rest;
      assert Insert(x, t) == r;
      forall i, j | 0 <= i < j < |r| ensures r[i].1 <= r[j].1 {
        assert r[j] == rest[j - 1];
        if i > 0 {
          assert r[i] == rest[i - 1];
        }
      }
    }
  }

  lemma WithCostCons(x: Entry, t: seq<Entry>, k: int)
    ensures WithCost([x] + t, k) == (if x.1 == k then [x] else []) + WithCost(t, k)
  {
    assert ([x] + t)[1..] == t;
  }

  /** Insertion skips only entries cheaper than `x`, none of which has the
      cost of `x`, so among equal costs `x` comes first. */
  lemma {:induction false} InsertWithCost(x: Entry, t: seq<Entry>, k: int)
    ensures WithCost(Insert(x, t), k) == (if x.1 == k then [x] else []) + WithCost(t, k)
  {
    if t == [] || x.1 <= t[0].1 {
      WithCostCons(x, t, k);
    } else {
      var rest := Insert(x, t[1..]);
      assert Insert(x, t) == [t[0]] + rest;
      InsertWithCost(x, t[1..], k);
      WithCostCons(t[0], rest, k);
      assert t == [t[0]] + t[1..];
      WithCostCons(t[0], t[1..], k);
      var hx := if x.1 == k then [x] else [];
      var h0 := if t[0].1 == k then [t[0]] else [];
      assert WithCost(Insert(x, t), k) == h0 + (hx + WithCost(t[1..], k));
      assert WithCost(t, k) == h0 + WithCost(t[1..], k);
      if x.1 == k {
        assert h0 == [];
      } else {
        assert hx == [];
      }
    }
  }

  /** The sort keeps exactly the entries it was given. */
  lemma SortKeepsEntries(s: seq<Entry>)
    ensures forall e :: e in SortByCost(s) <==> e in s
  {
    SortByCostSpec(s);
    forall e ensures e in SortByCost(s) <==> e in s {
      assert e in SortByCost(s) <==> e in multiset(SortByCost(s));
    }
  }

  /** The sort orders by cost, keeps every entry exactly as often as it was
      there, and keeps the entries of equal cost in their original order. */
  lemma {:induction false} SortByCostSpec(s: seq<Entry>)
    ensures |SortByCost(s)| == |s|
    ensures SortedByCost(SortByCost(s))
    ensures multiset(SortByCost(s)) == multiset(s)
    ensures forall k :: WithCost(SortByCost(s), k) == WithCost(s, k)
  {
    if s != [] {
      SortByCostSpec(s[1..]);
      InsertSorted(s[0], SortByCost(s[1..]));
      InsertMultiset(s[0], SortByCost(s[1..]));
      forall k ensures WithCost(SortByCost(s), k) == WithCost(s, k) {
        InsertWithCost(s[0], SortByCost(s[1..]), k);
      }
      assert s == [s[0]] + s[1..];
      assert multiset(s) == multiset{s[0]} + multiset(s[1..]);
      assert |multiset(SortByCost(s))| == |multiset(s)|;
    }
  }

  /** Sorting a list whose entries all have the same cost changes nothing. */
  lemma {:induction false} SortConstantIsIdentity(s: seq<Entry>, k: int)
    requires forall i | 0 <= i < |s| :: s[i].1 == k
    ensures SortByCost(s) == s
  {
    if s != [] {
      SortConstantIsIdentity(s[1..], k);
      assert s == [s[0]] + s[1..];
    }
  }

  /** Every cost raised by `d`. */
  function Shift(s: seq<Entry>, d: int): (r: seq<Entry>)
    ensures |r| == |s| && forall i | 0 <= i < |s| :: r[i] == (s[i].0, s[i].1 + d)
  {
    if s == [] then [] else [(s[0].0, s[0].1 + d)] + Shift(s[1..], d)
  }

  lemma ShiftAppend(o: seq<Entry>, x: Entry, d: int)
    ensures Shift(o + [x], d) == Shift(o, d) + [(x.0, x.1 + d)]
  {
    var l := Shift(o + [x], d);
    var r := Shift(o, d) + [(x.0, x.1 + d)];
    assert |l| == |r|;
    forall k | 0 <= k < |l| ensures l[k] == r[k] {
      if k < |o| {
        assert (o + [x])[k] == o[k];
      }
    }
  }

  /** An entry is in the shifted list exactly when its unshifted entry is
      in the list. */
  lemma ShiftMember(o: seq<Entry>, n: Pos, c: int, d: int)
    ensures (n, c + d) in Shift(o, d) <==> (n, c) in o
  {
    ShiftedMember(o, Shift(o, d), n, c, d);
  }

  lemma ShiftedMember(o: seq<Entry>, so: seq<Entry>, n: Pos, c: int, d: int)
    requires |so| == |o| && forall i | 0 <= i < |o| :: so[i] == (o[i].0, o[i].1 + d)
    ensures (n, c + d) in so <==> (n, c) in o
  {
    if (n, c + d) in so {
      var i :| 0 <= i < |so| && so[i] == (n, c + d);
      assert o[i] == (n, c);
    }
    if (n, c) in o {
      var i :| 0 <= i < |o| && o[i] == (n, c);
      assert so[i] == (n, c + d);
    }
  }

  /** Removing the entry at `i` commutes with the shift. */
  lemma ShiftDelete(o: seq<Entry>, i: nat, d: int)
    requires i < |o|
    ensures Shift(o, d)[..i] + Shift(o, d)[i + 1..] == Shift(o[..i] + o[i + 1..], d)
  {
    var l := Shift(o, d)[..i] + Shift(o, d)[i + 1..];
    var r := Shift(o[..i] + o[i + 1..], d);
    assert |l| == |r|;
    forall k | 0 <= k < |l| ensures l[k] == r[k] {
      if k < i {
        assert l[k] == Shift(o, d)[k];
      } else {
        assert l[k] == Shift(o, d)[k + 1];
      }
    }
  }

  lemma {:induction false} InsertShift(x: Entry, t: seq<Entry>, d: int)
    ensures Insert((x.0, x.1 + d), Shift(t, d)) == Shift(Insert(x, t), d)
  {
    if t != [] && x.1 > t[0].1 {
      InsertShift(x, t[1..], d);
      assert Shift(t, d)[1..] == Shift(t[1..], d);
      assert Shift(Insert(x, t), d) == [(t[0].0, t[0].1 + d)] + Shift(Insert(x, t[1..]), d);
    }
  }

  /** Adding the same amount to every cost does not change the order the
      sort produces. */
  lemma {:induction false} SortShift(s: seq<Entry>, d: int)
    ensures SortByCost(Shift(s, d)) == Shift(SortByCost(s), d)
  {
    if s != [] {
      SortShift(s[1..], d);
      assert Shift(s, d)[1..] == Shift(s[1..], d);
      InsertShift(s[0], SortByCost(s[1..]), d);
    }
  }
}
