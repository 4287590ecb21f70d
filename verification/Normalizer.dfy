/** Which datacenter an object belongs to: a walk up the parent links with a
    cache, safe against missing parents and cycles
    (backend/app/collectors/vsphere/normalize.py). */
module Normalizer {
  import opened Basics

  datatype RawObject = RawObject(kind: string, parent: Option<string>)

  /** Objects by managed object reference. */
  type Inventory = map<string, RawObject>

  predicate IsDatacenter(inv: Inventory, m: string) { m in inv && inv[m].kind == "Datacenter" }

  // ---- what the answer means ---------------------------------------------

  /** After exactly k parent links from m, all through objects that exist and
      are not datacenters, comes the datacenter d. */
  ghost predicate Leads(inv: Inventory, m: Option<string>, d: string, k: nat)
    decreases k
  {
    && m.Some?
    && m.value in inv
    && (if k == 0 then m.value == d && inv[d].kind == "Datacenter"
        else inv[m.value].kind != "Datacenter" && Leads(inv, inv[m.value].parent, d, k - 1))
  }

  lemma {:induction false} LeadsToOne(inv: Inventory, m: Option<string>, d: string, k: nat, d': string, k': nat)
    requires Leads(inv, m, d, k) && Leads(inv, m, d', k')
    ensures d == d' && k == k'
    decreases k
  {
    if k > 0 {
      LeadsToOne(inv, inv[m.value].parent, d, k - 1, d', k' - 1);
    }
  }

  /** The answer is the datacenter m leads to, or None if it leads to none. */
  ghost predicate Answers(inv: Inventory, m: Option<string>, answer: Option<string>) {
    match answer
    case Some(d) => exists k: nat :: Leads(inv, m, d, k)
    case None => forall d, k: nat :: !Leads(inv, m, d, k)
  }

  lemma OneAnswer(inv: Inventory, m: Option<string>, a: Option<string>, b: Option<string>)
    requires Answers(inv, m, a) && Answers(inv, m, b)
    ensures a == b
  {
    if a.Some? && b.Some? {
      var k: nat :| Leads(inv, m, a.value, k);
      var j: nat :| Leads(inv, m, b.value, j);
      LeadsToOne(inv, m, a.value, k, b.value, j);
    }
  }

  /** An object that is no datacenter has its parent's answer. */
  lemma AnswerOfParent(inv: Inventory, m: string, answer: Option<string>)
    requires m in inv && !IsDatacenter(inv, m)
    ensures Answers(inv, Some(m), answer) <==> Answers(inv, inv[m].parent, answer)
  {
    forall d, k: nat ensures Leads(inv, inv[m].parent, d, k) <==> Leads(inv, Some(m), d, k + 1) {
    }
    forall d ensures !Leads(inv, Some(m), d, 0) {
    }
    if answer.Some? && Answers(inv, Some(m), answer) {
      var k: nat :| Leads(inv, Some(m), answer.value, k);
      assert Leads(inv, inv[m].parent, answer.value, k - 1);
    }
    if answer.None? && Answers(inv, inv[m].parent, answer) {
      forall d, k: nat ensures !Leads(inv, Some(m), d, k) {
        assert k > 0 ==> !Leads(inv, inv[m].parent, d, k - 1);
      }
    }
  }

  /** The nodes walked so far: none is a datacenter, and each one's parent is
      the current node or was walked too. */
  ghost predicate Trail(inv: Inventory, seen: set<string>, cur: Option<string>) {
    forall x :: x in seen ==>
      x in inv && !IsDatacenter(inv, x)
      && (inv[x].parent == cur || (inv[x].parent.Some? && inv[x].parent.value in seen))
  }

  /** A trail that runs back into itself leads nowhere. */
  lemma {:induction false} CycleLeadsNowhere(inv: Inventory, seen: set<string>, cur: Option<string>, x: string,
                                             d: string, k: nat)
    requires Trail(inv, seen, cur) && cur.Some? && cur.value in seen && x in seen
    ensures !Leads(inv, Some(x), d, k)
    decreases k
  {
    if k > 0 {
      CycleLeadsNowhere(inv, seen, cur, inv[x].parent.value, d, k - 1);
    }
  }

  /** A walk that stops at no parent, at a missing one or at a node it has
      seen has no datacenter to find. */
  lemma NowhereLeft(inv: Inventory, seen: set<string>, cur: Option<string>)
    requires cur.None? || cur.value !in inv || (Trail(inv, seen, cur) && cur.value in seen)
    ensures Answers(inv, cur, None)
  {
    if cur.Some? && cur.value in inv {
      forall d, k: nat ensures !Leads(inv, cur, d, k) {
        CycleLeadsNowhere(inv, seen, cur, cur.value, d, k);
      }
    }
  }

  /** One step up keeps a trail. */
  lemma TrailUp(inv: Inventory, seen: set<string>, m: string)
    requires Trail(inv, seen, Some(m)) && m in inv && !IsDatacenter(inv, m) && m !in seen
    ensures Trail(inv, seen + {m}, inv[m].parent)
    ensures |inv.Keys - (seen + {m})| < |inv.Keys - seen|
  {
    SubsetSize(inv.Keys - (seen + {m}), inv.Keys - seen);
  }

  /** The walk without a cache. */
  function PlainWalk(inv: Inventory, cur: Option<string>, seen: set<string>): Option<string>
    decreases |inv.Keys - seen|
  {
    if cur.None? || cur.value in seen || cur.value !in inv then None
    else if IsDatacenter(inv, cur.value) then cur
    else
      SubsetSize(inv.Keys - (seen + {cur.value}), inv.Keys - seen);
      PlainWalk(inv, inv[cur.value].parent, seen + {cur.value})
  }

  /** The plain walk answers, although it stops at the first repeated node. */
  lemma {:induction false} PlainWalkAnswers(inv: Inventory, cur: Option<string>, seen: set<string>)
    requires Trail(inv, seen, cur)
    ensures Answers(inv, cur, PlainWalk(inv, cur, seen))
    decreases |inv.Keys - seen|
  {
    if cur.None? || cur.value in seen || cur.value !in inv {
      NowhereLeft(inv, seen, cur);
    } else if IsDatacenter(inv, cur.value) {
      assert Leads(inv, cur, cur.value, 0);
    } else {
      TrailUp(inv, seen, cur.value);
      PlainWalkAnswers(inv, inv[cur.value].parent, seen + {cur.value});
      AnswerOfParent(inv, cur.value, PlainWalk(inv, cur, seen));
    }
  }

  // ---- the cached walk ---------------------------------------------------

  class Normalizer {
    const byMoref: Inventory
    var dcCache: map<string, Option<string>>

    constructor (byMoref: Inventory)
      ensures this.byMoref == byMoref && CacheCorrect()
    {
      this.byMoref, dcCache := byMoref, map[];
    }

    /** Every cached answer is right. */
    ghost predicate CacheCorrect()
      reads this
    {
      forall m :: m in dcCache ==> Answers(byMoref, Some(m), dcCache[m])
    }

    method Remember(seen: set<string>, answer: Option<string>)
      requires CacheCorrect()
      requires forall m :: m in seen ==> Answers(byMoref, Some(m), answer)
      modifies this
      ensures CacheCorrect() && dcCache.Keys == old(dcCache.Keys) + seen
    {
      var todo := seen;
      while todo != {}
        invariant todo <= seen && CacheCorrect() && dcCache.Keys == old(dcCache.Keys) + (seen - todo)
        decreases todo
      {
        var m :| m in todo;
        dcCache := dcCache[m := answer];
        todo := todo - {m};
      }
    }

    /** Whatever was asked before, the answer is the plain walk's, and every
        cached answer stays right. */
    method DatacenterOf(moref: Option<string>) returns (answer: Option<string>)
      requires CacheCorrect()
      modifies this
      ensures CacheCorrect() && Answers(byMoref, moref, answer)
      ensures answer == PlainWalk(byMoref, moref, {})
      ensures old(dcCache.Keys) <= dcCache.Keys
    {
      PlainWalkAnswers(byMoref, moref, {});
      ghost var truth := PlainWalk(byMoref, moref, {});
      var seen: set<string> := {};
      var cur := moref;
      while cur.Some? && cur.value !in seen
        invariant CacheCorrect() && dcCache == old(dcCache)
        invariant Trail(byMoref, seen, cur)
        invariant Answers(byMoref, cur, truth)
        invariant forall m :: m in seen ==> Answers(byMoref, Some(m), truth)
        invariant moref.Some? ==> moref == cur || moref.value in seen
        decreases |byMoref.Keys - seen|
      {
        var m := cur.value;
        ghost var before := seen;
        if m in dcCache {
          OneAnswer(byMoref, cur, truth, dcCache[m]);
          return dcCache[m];
        }
        seen := seen + {m};
        if m !in byMoref {
          break;
        }
        if byMoref[m].kind == "Datacenter" {
          assert Leads(byMoref, cur, m, 0);
          OneAnswer(byMoref, cur, truth, cur);
          Remember(seen, cur);
          return cur;
        }
        AnswerOfParent(byMoref, m, truth);
        TrailUp(byMoref, before, m);
        cur := byMoref[m].parent;
      }
      NowhereLeft(byMoref, seen, cur);
      OneAnswer(byMoref, cur, truth, None);
      Remember(seen, None);
      return None;
    }
  }
}
