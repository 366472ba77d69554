/**
 * The items a reporter tracks. Each registered promise becomes one item
 * record; the record is a distinct object, modelled here by a unique `id`.
 * The registry's two arrays are sequences of items, and `removeFromArray`
 * removes the first element with the given identity.
 */
module Tasks {
  import opened Text

  /** The rejection value of a promise; only its `message` is ever shown. */
  datatype Error = Error(message: String)

  datatype Status = Pending | Resolved | Rejected(err: Error)

  /** How a promise settled, as seen by the `update` closure. */
  datatype Outcome = Fulfilled | Failed(reason: Error)

  datatype Item = Item(id: nat, name: String, promise: nat, status: Status)

  /** The status `update` stamps on an item for an outcome. */
  function Stamp(outcome: Outcome): (s: Status)
    ensures s != Pending
    ensures s == Resolved <==> outcome == Fulfilled
    ensures s.Rejected? ==> outcome == Failed(s.err)
  {
    match outcome
    case Fulfilled => Resolved
    case Failed(err) => Rejected(err)
  }

  predicate Has(s: seq<Item>, id: nat)
  {
    exists k :: 0 <= k < |s| && s[k].id == id
  }

  /** Ids strictly increase along `s` (so they are also distinct). */
  predicate IncreasingIds(s: seq<Item>)
  {
    forall j, k :: 0 <= j < k < |s| ==> s[j].id < s[k].id
  }

  /** `arr.indexOf(item)`: the first position holding `id`, or -1. */
  function IndexOf(s: seq<Item>, id: nat): (k: int)
    ensures -1 <= k < |s|
    ensures 0 <= k ==> s[k].id == id && forall j :: 0 <= j < k ==> s[j].id != id
    ensures k == -1 <==> !Has(s, id)
  {
    if s == [] then -1
    else if s[0].id == id then 0
    else
      var k := IndexOf(s[1..], id);
      if k == -1 then -1 else k + 1
  }

  /** `removeFromArray(arr, item)`: splice out the element `indexOf` finds, if any. */
  function RemoveFromArray(s: seq<Item>, id: nat): (r: seq<Item>)
    ensures !Has(s, id) ==> r == s
    ensures Has(s, id) ==> |r| == |s| - 1
    ensures Has(s, id) ==> multiset(r) + multiset{s[IndexOf(s, id)]} == multiset(s)
  {
    var k := IndexOf(s, id);
    if k == -1 then s
    else
      assert s == s[..k] + [s[k]] + s[k + 1..];
      s[..k] + s[k + 1..]
  }

  /** Reference definition: every element whose id differs from `id`, in order. */
  function Without(s: seq<Item>, id: nat): seq<Item>
  {
    if s == [] then []
    else (if s[0].id == id then [] else [s[0]]) + Without(s[1..], id)
  }

  /** Filtering keeps exactly the elements with a different id. */
  lemma {:induction false} WithoutMembers(s: seq<Item>, id: nat)
    ensures forall x :: x in Without(s, id) <==> x in s && x.id != id
  {
    if s != [] {
      WithoutMembers(s[1..], id);
      assert s == [s[0]] + s[1..];
    }
  }

  lemma {:induction false} WithoutAbsent(s: seq<Item>, id: nat)
    requires !Has(s, id)
    ensures Without(s, id) == s
  {
    if s != [] {
      assert s[0].id != id;
      assert !Has(s[1..], id) by {
        forall k | 0 <= k < |s[1..]| ensures s[1..][k].id != id {
          assert s[1..][k] == s[k + 1];
        }
      }
      WithoutAbsent(s[1..], id);
      assert [s[0]] + s[1..] == s;
    }
  }

  /**
   * On a sequence whose identities increase (registration order), `removeFromArray` drops exactly the
   * element with that identity and keeps the relative order of the rest.
   */
  lemma {:induction false} RemoveIsWithout(s: seq<Item>, id: nat)
    requires IncreasingIds(s)
    ensures RemoveFromArray(s, id) == Without(s, id)
  {
    if s == [] {
    } else if s[0].id == id {
      TailAbsent(s);
      WithoutAbsent(s[1..], id);
      assert s[..0] + s[1..] == s[1..];
    } else {
      IncreasingTail(s);
      RemoveIsWithout(s[1..], id);
      RemoveKeepsHead(s, id);
    }
  }

  /** When the head is kept, removal and filtering both act on the tail only. */
  lemma RemoveKeepsHead(s: seq<Item>, id: nat)
    requires s != [] && s[0].id != id
    requires RemoveFromArray(s[1..], id) == Without(s[1..], id)
    ensures RemoveFromArray(s, id) == Without(s, id)
  {
    var t := s[1..];
    var k := IndexOf(t, id);
    assert Without(s, id) == [s[0]] + Without(t, id);
    if k != -1 {
      assert IndexOf(s, id) == k + 1;
      SpliceBehindHead(s, k);
    } else {
      assert IndexOf(s, id) == -1;
      assert [s[0]] + t == s;
    }
  }

  /** Splicing out position `k + 1` keeps the head and splices position `k` of the tail. */
  lemma SpliceBehindHead(s: seq<Item>, k: nat)
    requires k + 1 < |s|
    ensures s[..k + 1] + s[k + 2..] == [s[0]] + (s[1..][..k] + s[1..][k + 1..])
  {
    assert s[..k + 1] == [s[0]] + s[1..][..k];
    assert s[k + 2..] == s[1..][k + 1..];
  }

  lemma IncreasingTail(s: seq<Item>)
    requires s != [] && IncreasingIds(s)
    ensures IncreasingIds(s[1..])
  {
    forall j, k | 0 <= j < k < |s| - 1 ensures s[1..][j].id < s[1..][k].id {
      assert s[1..][j] == s[j + 1] && s[1..][k] == s[k + 1];
    }
  }

  /** The first id of an increasing sequence does not occur again. */
  lemma TailAbsent(s: seq<Item>)
    requires s != [] && IncreasingIds(s)
    ensures !Has(s[1..], s[0].id)
  {
    forall k | 0 <= k < |s[1..]| ensures s[1..][k].id != s[0].id {
      assert s[1..][k] == s[k + 1];
    }
  }

  /** Removal keeps the ids increasing. */
  lemma {:induction false} WithoutIncreasing(s: seq<Item>, id: nat)
    requires IncreasingIds(s)
    ensures IncreasingIds(Without(s, id))
  {
    if s != [] {
      var t := s[1..];
      IncreasingTail(s);
      WithoutIncreasing(t, id);
      var w := Without(t, id);
      assert Without(s, id) == (if s[0].id == id then [] else [s[0]]) + w;
      if s[0].id != id {
        HeadBelowFiltered(s, id);
        ConsIncreasing(s[0], w);
      } else {
        assert Without(s, id) == w;
      }
    }
  }

  /** The first id of an increasing sequence is below every id that survives filtering the tail. */
  lemma HeadBelowFiltered(s: seq<Item>, id: nat)
    requires s != [] && IncreasingIds(s)
    ensures forall x :: x in Without(s[1..], id) ==> s[0].id < x.id
  {
    var t := s[1..];
    WithoutMembers(t, id);
    forall x | x in Without(t, id) ensures s[0].id < x.id {
      var k :| 0 <= k < |t| && t[k] == x;
      assert t[k] == s[k + 1];
    }
  }

  /** Putting an item before an increasing sequence of larger ids keeps it increasing. */
  lemma ConsIncreasing(x: Item, w: seq<Item>)
    requires IncreasingIds(w)
    requires forall y :: y in w ==> x.id < y.id
    ensures IncreasingIds([x] + w)
  {
    var r := [x] + w;
    forall j, k | 0 <= j < k < |r| ensures r[j].id < r[k].id {
      assert r[k] == w[k - 1];
      assert w[k - 1] in w;
      if j > 0 {
        assert r[j] == w[j - 1];
      }
    }
  }

  /** The multiset of ids held in `s`. */
  function IdBag(s: seq<Item>): (b: multiset<nat>)
    ensures |b| == |s|
  {
    if s == [] then multiset{} else multiset{s[0].id} + IdBag(s[1..])
  }

  lemma {:induction false} IdBagConcat(a: seq<Item>, b: seq<Item>)
    ensures IdBag(a + b) == IdBag(a) + IdBag(b)
  {
    if a == [] {
      assert a + b == b;
    } else {
      assert (a + b)[1..] == a[1..] + b;
      IdBagConcat(a[1..], b);
    }
  }

  lemma {:induction false} IdBagHas(s: seq<Item>, id: nat)
    ensures IdBag(s)[id] > 0 <==> Has(s, id)
  {
    if s != [] {
      IdBagHas(s[1..], id);
      if Has(s[1..], id) {
        var k :| 0 <= k < |s[1..]| && s[1..][k].id == id;
        assert s[k + 1].id == id;
      }
      if Has(s, id) && s[0].id != id {
        var k :| 0 <= k < |s| && s[k].id == id;
        assert s[1..][k - 1].id == id;
      }
    }
  }

  /** The ids handed out so far: each of `0 .. n-1` exactly once. */
  function Range(n: nat): multiset<nat>
  {
    if n == 0 then multiset{} else Range(n - 1) + multiset{n - 1}
  }

  lemma {:induction false} RangeCount(n: nat, id: nat)
    ensures Range(n)[id] == if id < n then 1 else 0
  {
    if n > 0 {
      RangeCount(n - 1, id);
    }
  }

  /**
   * When two lists hold exactly the ids `0 .. n-1` between them, each of
   * those ids is in exactly one of the two lists, and no other id is in either.
   */
  lemma ExactlyOneList(pending: seq<Item>, settled: seq<Item>, n: nat)
    requires IdBag(pending) + IdBag(settled) == Range(n)
    ensures |pending| + |settled| == n
    ensures forall id: nat :: id < n ==> (Has(pending, id) <==> !Has(settled, id))
    ensures forall id: nat :: n <= id ==> !Has(pending, id) && !Has(settled, id)
  {
    RangeSize(n);
    forall id: nat
      ensures id < n ==> (Has(pending, id) <==> !Has(settled, id))
      ensures n <= id ==> !Has(pending, id) && !Has(settled, id)
    {
      OneListAt(pending, settled, n, id);
    }
  }

  lemma OneListAt(pending: seq<Item>, settled: seq<Item>, n: nat, id: nat)
    requires IdBag(pending) + IdBag(settled) == Range(n)
    ensures id < n ==> (Has(pending, id) <==> !Has(settled, id))
    ensures n <= id ==> !Has(pending, id) && !Has(settled, id)
  {
    RangeCount(n, id);
    IdBagHas(pending, id);
    IdBagHas(settled, id);
    assert (IdBag(pending) + IdBag(settled))[id] == IdBag(pending)[id] + IdBag(settled)[id];
  }

  lemma {:induction false} RangeSize(n: nat)
    ensures |Range(n)| == n
  {
    if n > 0 {
      RangeSize(n - 1);
    }
  }

  /** Every item of `s` is pending and has an id below `n`. */
  ghost predicate PendingBelow(s: seq<Item>, n: nat)
  {
    forall x :: x in s ==> x.status == Pending && x.id < n
  }

  /** Every item of `s` carries a terminal status. */
  predicate Terminal(s: seq<Item>)
  {
    forall k :: 0 <= k < |s| ==> s[k].status != Pending
  }

  /**
   * The registry's invariant over its two lists, with `n` items created so
   * far: pending items are pending, in registration order, and younger than
   * `n`; settled items are terminal; together the lists hold each id
   * `0 .. n-1` exactly once.
   */
  ghost predicate Registry(pending: seq<Item>, settled: seq<Item>, n: nat)
  {
    && PendingBelow(pending, n)
    && Terminal(settled)
    && IncreasingIds(pending)
    && IdBag(pending) + IdBag(settled) == Range(n)
  }

  /** Appending a fresh pending item with the next id keeps the invariant. */
  lemma AddKeepsRegistry(pending: seq<Item>, settled: seq<Item>, n: nat, name: String, promise: nat)
    requires Registry(pending, settled, n)
    ensures Registry(pending + [Item(n, name, promise, Pending)], settled, n + 1)
  {
    var item := Item(n, name, promise, Pending);
    AddKeepsOrder(pending, n, item);
    AddKeepsBag(pending, settled, n, item);
  }

  lemma AddKeepsOrder(pending: seq<Item>, n: nat, item: Item)
    requires PendingBelow(pending, n) && IncreasingIds(pending)
    requires item.id == n && item.status == Pending
    ensures PendingBelow(pending + [item], n + 1) && IncreasingIds(pending + [item])
  {
    var p := pending + [item];
    forall j, k | 0 <= j < k < |p| ensures p[j].id < p[k].id {
      if k == |pending| {
        assert p[j] in pending;
      }
    }
  }

  lemma AddKeepsBag(pending: seq<Item>, settled: seq<Item>, n: nat, item: Item)
    requires IdBag(pending) + IdBag(settled) == Range(n)
    requires item.id == n
    ensures IdBag(pending + [item]) + IdBag(settled) == Range(n + 1)
  {
    IdBagConcat(pending, [item]);
    IdBagSingle(item);
    var P, S, x := IdBag(pending), IdBag(settled), multiset{n};
    assert Range(n + 1) == (P + S) + x;
    assert (P + x) + S == (P + S) + x;
  }

  /**
   * Moving the pending item `id` to the end of the settled list with a
   * terminal status keeps the invariant.
   */
  lemma SettleKeepsRegistry(pending: seq<Item>, settled: seq<Item>, n: nat, id: nat, status: Status)
    requires Registry(pending, settled, n)
    requires Has(pending, id) && status != Pending
    ensures Registry(RemoveFromArray(pending, id), settled + [pending[IndexOf(pending, id)].(status := status)], n)
  {
    var k := IndexOf(pending, id);
    var item := pending[k].(status := status);
    var rest, done := RemoveFromArray(pending, id), settled + [item];
    assert rest == pending[..k] + pending[k + 1..];
    RemoveIsWithout(pending, id);
    SettleKeepsPending(pending, n, id);
    assert PendingBelow(rest, n) && IncreasingIds(rest);
    SettleKeepsTerminal(settled, item);
    SettleKeepsBag(pending, settled, k, item);
    assert IdBag(rest) + IdBag(done) == Range(n);
  }

  lemma SettleKeepsPending(pending: seq<Item>, n: nat, id: nat)
    requires PendingBelow(pending, n) && IncreasingIds(pending)
    ensures PendingBelow(Without(pending, id), n) && IncreasingIds(Without(pending, id))
  {
    WithoutIncreasing(pending, id);
    WithoutMembers(pending, id);
  }

  lemma SettleKeepsTerminal(settled: seq<Item>, item: Item)
    requires Terminal(settled) && item.status != Pending
    ensures Terminal(settled + [item])
  {
  }

  lemma SettleKeepsBag(pending: seq<Item>, settled: seq<Item>, k: nat, item: Item)
    requires k < |pending| && item.id == pending[k].id
    ensures IdBag(pending[..k] + pending[k + 1..]) + IdBag(settled + [item]) == IdBag(pending) + IdBag(settled)
  {
    RemoveBag(pending, k);
    IdBagConcat(settled, [item]);
    IdBagSingle(item);
  }

  /** Splicing out position `k` takes exactly that element's id out of the bag. */
  lemma {:induction false} RemoveBag(s: seq<Item>, k: nat)
    requires k < |s|
    ensures IdBag(s[..k] + s[k + 1..]) + multiset{s[k].id} == IdBag(s)
  {
    var t := s[1..];
    assert IdBag(s) == multiset{s[0].id} + IdBag(t);
    if k == 0 {
      assert s[..k] + s[k + 1..] == t;
    } else {
      var r := t[..k - 1] + t[k..];
      SpliceBehindHead(s, k - 1);
      assert ([s[0]] + r)[1..] == r;
      assert IdBag([s[0]] + r) == multiset{s[0].id} + IdBag(r);
      RemoveBag(t, k - 1);
      assert t[k - 1] == s[k];
    }
  }

  lemma IdBagSingle(x: Item)
    ensures IdBag([x]) == multiset{x.id}
  {
    assert [x][1..] == [];
  }
}
