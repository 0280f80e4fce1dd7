/** The objects the pages of one file depend on (`collectNonPageDependencies`,
    merge_simple_pdfs.cpp:85-109): everything reachable by indirect
    references from the pages, except pages themselves, object 0 and numbers
    the file does not define. */
module Deps {
  import opened Util
  import opened Objects
  import opened Refs

  /** The numbers the walk may collect: defined objects that are not pages
      and not object 0. */
  function Eligible(objs: ObjMap, pageIds: seq<nat>): set<nat>
  {
    set k | k in objs && k !in pageIds && k != 0
  }

  /** The pages the walk starts from: those the file defines. */
  function StartPages(objs: ObjMap, pageIds: seq<nat>): set<nat>
  {
    set p | p in pageIds && p in objs
  }

  /** The eligible numbers object `src` refers to. */
  function EligibleRefs(objs: ObjMap, pageIds: seq<nat>, src: nat): set<nat>
  {
    if src in objs then ReferencedObjects(objs[src].body) * Eligible(objs, pageIds) else {}
  }

  /** Where the walk takes references from: the start pages and what it has
      collected. */
  function Sources(objs: ObjMap, pageIds: seq<nat>, S: set<nat>): set<nat>
  {
    StartPages(objs, pageIds) + S
  }

  /** The eligible numbers referred to by a start page or by a member of S. */
  function Reached(objs: ObjMap, pageIds: seq<nat>, S: set<nat>): set<nat>
  {
    set src, r | src in Sources(objs, pageIds, S) && r in EligibleRefs(objs, pageIds, src) :: r
  }

  lemma ReachedBy(objs: ObjMap, pageIds: seq<nat>, S: set<nat>, src: nat, r: nat)
    requires src in Sources(objs, pageIds, S) && r in EligibleRefs(objs, pageIds, src)
    ensures r in Reached(objs, pageIds, S)
  {
  }

  /** A set whose every source has its eligible references inside it reaches
      nothing new. */
  lemma ReachedWithin(objs: ObjMap, pageIds: seq<nat>, S: set<nat>)
    requires forall x :: x in Sources(objs, pageIds, S) ==> EligibleRefs(objs, pageIds, x) <= S
    ensures Reached(objs, pageIds, S) <= S
  {
  }

  /** S is a dependency set: eligible numbers only, and every eligible
      reference of a start page or of a member is itself a member. */
  ghost predicate Closed(objs: ObjMap, pageIds: seq<nat>, S: set<nat>)
  {
    S <= Eligible(objs, pageIds) && Reached(objs, pageIds, S) <= S
  }

  lemma ReachedMonotone(objs: ObjMap, pageIds: seq<nat>, S: set<nat>, T: set<nat>)
    requires S <= T
    ensures Reached(objs, pageIds, S) <= Reached(objs, pageIds, T)
  {
  }

  lemma ReachedEligible(objs: ObjMap, pageIds: seq<nat>, S: set<nat>)
    ensures Reached(objs, pageIds, S) <= Eligible(objs, pageIds)
  {
  }

  /** Growing a subset of a finite set shrinks what is left of it. */
  lemma {:induction false} RemainderShrinks(E: set<nat>, S: set<nat>, T: set<nat>)
    requires S <= T <= E && S != T
    ensures |E - T| < |E - S|
  {
    var x :| x in T && x !in S;
    assert E - T <= (E - S) - {x};
    SubsetCard(E - T, (E - S) - {x});
  }

  lemma {:induction false} SubsetCard(A: set<nat>, B: set<nat>)
    requires A <= B
    ensures |A| <= |B|
    decreases |B|
  {
    if A != {} {
      var x :| x in A;
      SubsetCard(A - {x}, B - {x});
    }
  }

  /** The fixpoint iteration from S: add everything S reaches until nothing
      new is reached. It ends in the least dependency set containing S. */
  function Closure(objs: ObjMap, pageIds: seq<nat>, S: set<nat>): (r: set<nat>)
    requires S <= Eligible(objs, pageIds)
    ensures S <= r && Closed(objs, pageIds, r)
    ensures forall T :: S <= T && Closed(objs, pageIds, T) ==> r <= T
    decreases |Eligible(objs, pageIds) - S|
  {
    var next := S + Reached(objs, pageIds, S);
    ReachedEligible(objs, pageIds, S);
    if next == S then S
    else
      RemainderShrinks(Eligible(objs, pageIds), S, next);
      var r := Closure(objs, pageIds, next);
      assert forall T :: S <= T && Closed(objs, pageIds, T) ==> next <= T by {
        forall T | S <= T && Closed(objs, pageIds, T)
          ensures next <= T
        {
          ReachedMonotone(objs, pageIds, S, T);
        }
      }
      r
  }

  /** The dependencies of the pages: the least dependency set. */
  function Dependencies(objs: ObjMap, pageIds: seq<nat>): (r: set<nat>)
    ensures Closed(objs, pageIds, r)
    ensures forall T :: Closed(objs, pageIds, T) ==> r <= T
  {
    Closure(objs, pageIds, {})
  }

  /** The start pages the file defines, in page order: the initial queue. */
  method StartQueue(objs: ObjMap, pageIds: seq<nat>) returns (q: seq<nat>)
    ensures forall x :: x in q <==> x in StartPages(objs, pageIds)
  {
    q := [];
    for i := 0 to |pageIds|
      invariant forall x :: x in q <==> x in pageIds[..i] && x in objs
    {
      if pageIds[i] in objs { q := q + [pageIds[i]]; }
      assert pageIds[..i + 1] == pageIds[..i] + [pageIds[i]];
    }
    assert pageIds[..|pageIds|] == pageIds;
  }

  /** One turn of the walk for the object `cur` taken off the queue: every
      eligible number it refers to that is not yet collected is collected and
      queued. */
  method Visit(objs: ObjMap, pageIds: seq<nat>, cur: nat, collected0: set<nat>, q0: seq<nat>)
    returns (collected: set<nat>, q: seq<nat>)
    requires collected0 <= Eligible(objs, pageIds) && collected0 <= Dependencies(objs, pageIds)
    requires cur in Sources(objs, pageIds, collected0)
    requires forall x :: x in q0 ==> x in Sources(objs, pageIds, collected0)
    ensures collected0 <= collected <= Eligible(objs, pageIds)
    ensures collected <= Dependencies(objs, pageIds)
    ensures EligibleRefs(objs, pageIds, cur) <= collected
    ensures collected == collected0 ==> q == q0
    ensures forall x :: x in q ==> x in Sources(objs, pageIds, collected)
    ensures forall x :: x in collected && x !in collected0 ==> x in q
    ensures forall x :: x in q0 ==> x in q
  {
    ghost var D := Dependencies(objs, pageIds);
    collected, q := collected0, q0;
    var refs := ReferencedObjects(objs[cur].body);
    var rs := refs;
    while rs != {}
      invariant rs <= refs
      invariant collected0 <= collected <= Eligible(objs, pageIds) && collected <= D
      invariant collected == collected0 ==> q == q0
      invariant forall x :: x in q ==> x in Sources(objs, pageIds, collected)
      invariant forall x :: x in collected && x !in collected0 ==> x in q
      invariant forall x :: x in q0 ==> x in q
      invariant (refs - rs) * Eligible(objs, pageIds) <= collected
      decreases rs
    {
      var rid :| rid in rs;
      rs := rs - {rid};
      if rid != 0 && rid !in pageIds && rid in objs && rid !in collected {
        ReachedBy(objs, pageIds, D, cur, rid);
        collected := collected + {rid};
        q := q + [rid];
      }
    }
  }

  /** `collectNonPageDependencies`: the breadth-first walk from the pages.
      It collects exactly the least dependency set. */
  method CollectNonPageDependencies(objs: ObjMap, pageIds: seq<nat>) returns (collected: set<nat>)
    ensures collected == Dependencies(objs, pageIds)
  {
    ghost var D := Dependencies(objs, pageIds);
    var E := Eligible(objs, pageIds);
    var q := StartQueue(objs, pageIds);
    collected := {};
    while |q| > 0
      invariant collected <= E && collected <= D
      invariant forall x :: x in q ==> x in Sources(objs, pageIds, collected)
      invariant forall x :: x in Sources(objs, pageIds, collected) && x !in q ==>
                  EligibleRefs(objs, pageIds, x) <= collected
      decreases |E - collected|, |q|
    {
      // Every queued number is defined, so the source's check for a
      // missing object never skips one.
      var cur := q[0];
      ghost var c0, qAll := collected, q;
      q := q[1..];
      collected, q := Visit(objs, pageIds, cur, collected, q);
      if collected != c0 { RemainderShrinks(E, c0, collected); }
      forall x | x in Sources(objs, pageIds, collected) && x !in q
        ensures EligibleRefs(objs, pageIds, x) <= collected
      {
        if x != cur {
          assert x in Sources(objs, pageIds, c0) && x !in qAll;
        }
      }
    }
    ReachedWithin(objs, pageIds, collected);
    assert Closed(objs, pageIds, collected);
    assert D <= collected;
  }
}
