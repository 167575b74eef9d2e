/** internal/analysis/cycles.go, tarjanSCC: Tarjan's strongly connected components.

    The recursive closure `strongConnect` and the variables it captures become a
    class. Its proof works on snapshots (`State`) of those variables, so that each
    step of the search is one lemma about values. */
module Tarjan {
  import opened Reachability
  import opened Paths

  datatype State = State(
    index: nat,
    stack: seq<Id>,
    onStack: set<Id>,
    indices: map<Id, nat>,
    lowlinks: map<Id, nat>,
    defined: set<Id>,
    sccs: seq<seq<Id>>)

  /** The graph that tarjanSCC searches: adjacency entries outside the node set are ignored. */
  ghost function Within(nodes: set<Id>, adj: map<Id, seq<Id>>): Arcs
  {
    set u, w | u in nodes && u in adj && w in adj[u] && w in nodes :: (u, w)
  }

  ghost function Emitted(sccs: seq<seq<Id>>): set<Id>
  {
    set k, x | 0 <= k < |sccs| && x in sccs[k] :: x
  }

  // ---------------------------------------------------------------- what is promised

  /** The nodes listed are exactly those mutually reachable with any one of them. */
  ghost predicate IsClass(arcs: Arcs, scc: seq<Id>)
  {
    forall x, y {:trigger Mutual(arcs, x, y)} :: x in scc ==> (y in scc <==> Mutual(arcs, x, y))
  }

  /** Every listed component is a class of mutual reachability, listed once, without repeats. */
  ghost predicate Components(arcs: Arcs, sccs: seq<seq<Id>>)
  {
    && (forall k :: 0 <= k < |sccs| ==> sccs[k] != [] && NoRepeats(sccs[k]))
    && (forall k, l, x :: 0 <= k < l < |sccs| && x in sccs[k] ==> x !in sccs[l])
    && (forall k :: 0 <= k < |sccs| ==> IsClass(arcs, sccs[k]))
  }

  /** Reverse topological order: no arc leads from a component to a later one. */
  ghost predicate ReverseTopological(arcs: Arcs, sccs: seq<seq<Id>>)
  {
    forall k, u, w :: 0 <= k < |sccs| && u in sccs[k] && (u, w) in arcs ==> w in Emitted(sccs[..k + 1])
  }

  // ---------------------------------------------------------------- the invariant

  ghost predicate Tables(nodes: set<Id>, s: State)
  {
    && s.defined <= nodes
    && s.indices.Keys == s.defined && s.lowlinks.Keys == s.defined
    && (forall v :: v in s.defined ==> s.indices[v] < s.index)
  }

  ghost predicate Stacked(stack: seq<Id>, onStack: set<Id>, indices: map<Id, nat>)
  {
    && (forall x :: x in onStack <==> x in stack)
    && onStack <= indices.Keys
    && (forall i, j :: 0 <= i < j < |stack| ==>
          stack[i] in indices && stack[j] in indices && indices[stack[i]] < indices[stack[j]])
  }

  ghost predicate Sorted(arcs: Arcs, defined: set<Id>, onStack: set<Id>, sccs: seq<seq<Id>>)
  {
    && defined == onStack + Emitted(sccs)
    && onStack !! Emitted(sccs)
    && Components(arcs, sccs)
    && ReverseTopological(arcs, sccs)
  }

  /** From y the search can get back to a node it is still working on, no younger than y. */
  ghost predicate Anchored(arcs: Arcs, indices: map<Id, nat>, gray: set<Id>, y: Id)
  {
    exists g :: g in gray && g in indices && y in indices && indices[g] <= indices[y] && Reach(arcs, y, g)
  }

  /** gray: the nodes whose strongConnect call has not returned. */
  ghost predicate Search(arcs: Arcs, defined: set<Id>, onStack: set<Id>, indices: map<Id, nat>, gray: set<Id>)
  {
    && gray <= onStack <= indices.Keys
    && (forall u, w :: u in defined && u !in gray && (u, w) in arcs ==> w in defined)
    && (forall x, y {:trigger Reach(arcs, x, y)} ::
          x in onStack && y in onStack && indices[x] <= indices[y] ==> Reach(arcs, x, y))
    && (forall y {:trigger Anchored(arcs, indices, gray, y)} :: y in onStack ==> Anchored(arcs, indices, gray, y))
  }

  ghost predicate Inv(nodes: set<Id>, arcs: Arcs, s: State, gray: set<Id>)
  {
    && Tables(nodes, s)
    && Stacked(s.stack, s.onStack, s.indices)
    && Sorted(arcs, s.defined, s.onStack, s.sccs)
    && Search(arcs, s.defined, s.onStack, s.indices, gray)
  }

  /** What a later state keeps of an earlier one. */
  ghost predicate Extends(s: State, t: State)
  {
    && s.index <= t.index
    && s.defined <= t.defined
    && s.stack <= t.stack
    && s.sccs <= t.sccs
    && s.defined <= s.indices.Keys && t.defined <= t.indices.Keys
    && s.defined <= s.lowlinks.Keys && t.defined <= t.lowlinks.Keys
    && (forall x :: x in s.defined ==> t.indices[x] == s.indices[x] && t.lowlinks[x] == s.lowlinks[x])
    && (forall x :: x in s.defined ==> (x in t.onStack <==> x in s.onStack))
    && (forall x :: x in t.defined && x !in s.defined ==> t.indices[x] >= s.index)
  }

  /** Some stack node of that index is reachable from v. */
  ghost predicate LowWitness(arcs: Arcs, s: State, v: Id, low: nat)
  {
    exists y :: y in s.onStack && y in s.indices && s.indices[y] == low && Reach(arcs, v, y)
  }

  /** No arc from a stack node numbered at least `from` reaches below `low` among those numbered under iv. */
  ghost predicate LowBound(arcs: Arcs, s: State, from: nat, iv: nat, low: nat)
  {
    forall x, y ::
      (x in s.onStack && y in s.onStack && x in s.indices && y in s.indices && s.indices[x] >= from
       && s.indices[y] < iv && (x, y) in arcs)
      ==> low <= s.indices[y]
  }

  /** What strongConnect(v) leaves in lowlinks[v]. */
  ghost predicate Returned(arcs: Arcs, s: State, t: State, v: Id)
  {
    && v in t.defined && v in t.indices && v in t.lowlinks
    && t.indices[v] == s.index
    && if v in t.onStack then
         && t.lowlinks[v] < t.indices[v]
         && LowWitness(arcs, t, v, t.lowlinks[v])
         && LowBound(arcs, t, t.indices[v], t.indices[v], t.lowlinks[v])
       else
         t.lowlinks[v] == t.indices[v] && t.stack == s.stack
  }

  /** Inside strongConnect(v), begun in state s, after the successors in `done`. */
  ghost predicate Scanning(arcs: Arcs, s: State, t: State, v: Id, done: set<Id>)
  {
    && Extends(s, t)
    && v !in s.defined
    && s.stack + [v] <= t.stack
    && v in t.onStack && v in t.defined && v in t.indices && v in t.lowlinks
    && t.indices[v] == s.index
    && t.lowlinks[v] <= t.indices[v]
    && LowWitness(arcs, t, v, t.lowlinks[v])
    && LowBound(arcs, t, t.indices[v] + 1, t.indices[v], t.lowlinks[v])
    && done <= t.defined
    && (forall w :: w in done && w in t.onStack && w in t.indices ==> t.lowlinks[v] <= t.indices[w])
  }

  // ---------------------------------------------------------------- steps of the search

  function Push(s: State, v: Id): State
  {
    s.(index := s.index + 1,
       stack := s.stack + [v],
       onStack := s.onStack + {v},
       indices := s.indices[v := s.index],
       lowlinks := s.lowlinks[v := s.index],
       defined := s.defined + {v})
  }

  lemma PushSorted(nodes: set<Id>, arcs: Arcs, s: State, gray: set<Id>, v: Id)
    requires Inv(nodes, arcs, s, gray)
    requires v in nodes && v !in s.defined
    ensures var t := Push(s, v);
      Tables(nodes, t) && Stacked(t.stack, t.onStack, t.indices) && Sorted(arcs, t.defined, t.onStack, t.sccs)
  {
    assert forall x :: x in Push(s, v).stack <==> x in s.stack || x == v;
  }

  lemma PushSearch(nodes: set<Id>, arcs: Arcs, s: State, gray: set<Id>, v: Id)
    requires Inv(nodes, arcs, s, gray)
    requires v in nodes && v !in s.defined
    requires forall g :: g in gray ==> Reach(arcs, g, v)
    ensures var t := Push(s, v); Search(arcs, t.defined, t.onStack, t.indices, gray + {v})
  {
    var t := Push(s, v);
    ReachRefl(arcs, v);
    forall x, y | x in t.onStack && y in t.onStack && t.indices[x] <= t.indices[y]
      ensures Reach(arcs, x, y)
    {
      if x != v && y == v {
        assert Anchored(arcs, s.indices, gray, x);
        var g :| g in gray && s.indices[g] <= s.indices[x] && Reach(arcs, x, g);
        ReachTrans(arcs, x, g, v);
      }
    }
    forall y | y in t.onStack
      ensures Anchored(arcs, t.indices, gray + {v}, y)
    {
      if y == v {
        assert v in gray + {v};
      } else {
        assert Anchored(arcs, s.indices, gray, y);
        var g :| g in gray && s.indices[g] <= s.indices[y] && Reach(arcs, y, g);
        assert g in gray + {v} && t.indices[g] <= t.indices[y];
      }
    }
  }

  lemma PushScanning(nodes: set<Id>, arcs: Arcs, s: State, gray: set<Id>, v: Id)
    requires Inv(nodes, arcs, s, gray)
    requires v !in s.defined
    ensures Scanning(arcs, s, Push(s, v), v, {})
  {
    var t := Push(s, v);
    ReachRefl(arcs, v);
    assert v in t.onStack && t.indices[v] == t.lowlinks[v];
  }

  function Lower(t: State, v: Id, low: nat): State
    requires v in t.lowlinks
  {
    if low < t.lowlinks[v] then t.(lowlinks := t.lowlinks[v := low]) else t
  }

  lemma LowerKeepsInv(nodes: set<Id>, arcs: Arcs, t: State, gray: set<Id>, v: Id, low: nat)
    requires Inv(nodes, arcs, t, gray) && v in t.defined
    ensures Inv(nodes, arcs, Lower(t, v, low), gray)
  {
  }

  /** The successor was already numbered: lowlinks[v] drops to its index if it is on the stack. */
  lemma ScanOld(nodes: set<Id>, arcs: Arcs, s: State, t: State, v: Id, done: set<Id>, w: Id)
    requires Tables(nodes, t) && Scanning(arcs, s, t, v, done)
    requires (v, w) in arcs && w in t.defined
    ensures Scanning(arcs, s, if w in t.onStack then Lower(t, v, t.indices[w]) else t, v, done + {w})
  {
    ReachArc(arcs, v, w);
    assert w in t.onStack ==> w in t.indices;
  }

  /** The bound survives a recursive call: a new arc below v starts in the child's subtree. */
  lemma ChildBound(nodes: set<Id>, arcs: Arcs, t: State, u: State, iv: nat, low: nat, w: Id)
    requires Tables(nodes, t) && Tables(nodes, u)
    requires Stacked(t.stack, t.onStack, t.indices) && Stacked(u.stack, u.onStack, u.indices)
    requires w !in t.defined && iv < t.index
    requires Extends(t, u) && Returned(arcs, t, u, w)
    requires LowBound(arcs, t, iv + 1, iv, low)
    ensures LowBound(arcs, u, iv + 1, iv, if u.lowlinks[w] < low then u.lowlinks[w] else low)
  {
    forall x, y | x in u.onStack && y in u.onStack && u.indices[x] >= iv + 1 && u.indices[y] < iv && (x, y) in arcs
      ensures low <= u.indices[y] || u.lowlinks[w] <= u.indices[y]
    {
      if x in t.defined {
        assert x in t.onStack && y in t.onStack;
      } else if w !in u.onStack {
        assert false;
      }
    }
  }

  lemma ExtendsTrans(s: State, t: State, u: State, v: Id, low: nat)
    requires Extends(s, t) && Extends(t, u) && v !in s.defined && v in u.lowlinks
    ensures Extends(s, Lower(u, v, low))
  {
  }

  /** The lower of the two links has a witness: the old one's is still there, or v reaches w's. */
  lemma ChildWitness(arcs: Arcs, t: State, u: State, v: Id, w: Id)
    requires Extends(t, u) && (v, w) in arcs && t.onStack <= t.defined
    requires v in t.defined && v in t.lowlinks && v in u.lowlinks && w in u.lowlinks && u.lowlinks[v] == t.lowlinks[v]
    requires LowWitness(arcs, t, v, t.lowlinks[v])
    requires u.lowlinks[w] < u.lowlinks[v] ==> LowWitness(arcs, u, w, u.lowlinks[w])
    ensures LowWitness(arcs, u, v, if u.lowlinks[w] < u.lowlinks[v] then u.lowlinks[w] else u.lowlinks[v])
  {
    hide Reach;
    if u.lowlinks[w] < u.lowlinks[v] {
      ReachArc(arcs, v, w);
      var y :| y in u.onStack && y in u.indices && u.indices[y] == u.lowlinks[w] && Reach(arcs, w, y);
      ReachTrans(arcs, v, w, y);
    } else {
      var y :| y in t.onStack && y in t.indices && t.indices[y] == t.lowlinks[v] && Reach(arcs, v, y);
      assert y in u.onStack;
    }
  }

  /** A child that stays on the stack returns a link with a witness, one that leaves it returns its index. */
  lemma ChildLow(nodes: set<Id>, arcs: Arcs, s: State, t: State, u: State, v: Id, done: set<Id>, w: Id)
    requires Tables(nodes, t) && Stacked(t.stack, t.onStack, t.indices)
    requires Scanning(arcs, s, t, v, done) && Extends(t, u) && Returned(arcs, t, u, w)
    ensures t.indices[v] < t.index && u.indices[w] == t.index && u.lowlinks[v] == t.lowlinks[v]
    ensures u.lowlinks[w] < u.lowlinks[v] ==> LowWitness(arcs, u, w, u.lowlinks[w])
    ensures t.onStack <= t.defined
  {
    hide LowWitness, LowBound;
  }

  /** The successor was visited by a recursive call that led from t to u. */
  lemma ScanChild(nodes: set<Id>, arcs: Arcs, s: State, t: State, u: State, v: Id, done: set<Id>, w: Id)
    requires Tables(nodes, t) && Tables(nodes, u)
    requires Stacked(t.stack, t.onStack, t.indices) && Stacked(u.stack, u.onStack, u.indices)
    requires Scanning(arcs, s, t, v, done)
    requires (v, w) in arcs && w !in t.defined
    requires Extends(t, u) && Returned(arcs, t, u, w)
    ensures Scanning(arcs, s, Lower(u, v, u.lowlinks[w]), v, done + {w})
  {
    ChildLow(nodes, arcs, s, t, u, v, done, w);
    ExtendsTrans(s, t, u, v, u.lowlinks[w]);
    ChildBound(nodes, arcs, t, u, t.indices[v], t.lowlinks[v], w);
    ChildWitness(arcs, t, u, v, w);
    hide Reach;
    ScannedChild(nodes, arcs, s, t, u, v, done, w);
  }

  lemma ScannedChild(nodes: set<Id>, arcs: Arcs, s: State, t: State, u: State, v: Id, done: set<Id>, w: Id)
    requires Tables(nodes, t) && Tables(nodes, u) && Stacked(t.stack, t.onStack, t.indices) && Extends(t, u)
    requires Scanning(arcs, s, t, v, done) && w in u.defined && u.indices[w] == t.index
    requires w in u.onStack ==> u.lowlinks[w] < u.indices[w]
    requires w !in u.onStack ==> u.lowlinks[w] == u.indices[w]
    requires Extends(s, Lower(u, v, u.lowlinks[w]))
    requires LowBound(arcs, u, t.indices[v] + 1, t.indices[v], if u.lowlinks[w] < t.lowlinks[v] then u.lowlinks[w] else t.lowlinks[v])
    requires LowWitness(arcs, u, v, if u.lowlinks[w] < u.lowlinks[v] then u.lowlinks[w] else u.lowlinks[v])
    ensures Scanning(arcs, s, Lower(u, v, u.lowlinks[w]), v, done + {w})
  {
    var u' := Lower(u, v, u.lowlinks[w]);
    SameStack(arcs, u, u', v);
    ChildDone(nodes, arcs, s, t, u, v, done, w);
    hide LowWitness, LowBound, Extends, Stacked;
  }

  lemma ChildDone(nodes: set<Id>, arcs: Arcs, s: State, t: State, u: State, v: Id, done: set<Id>, w: Id)
    requires Tables(nodes, t) && Tables(nodes, u) && Stacked(t.stack, t.onStack, t.indices) && Extends(t, u)
    requires Scanning(arcs, s, t, v, done) && w in u.defined && u.indices[w] == t.index
    requires w in u.onStack ==> u.lowlinks[w] < u.indices[w]
    ensures v in u.onStack && v in u.defined && u.indices[v] == t.indices[v] && u.lowlinks[v] == t.lowlinks[v]
    ensures s.stack + [v] <= u.stack && done + {w} <= u.defined
    ensures var low := if u.lowlinks[w] < u.lowlinks[v] then u.lowlinks[w] else u.lowlinks[v];
      forall x :: x in done + {w} && x in u.onStack ==> low <= u.indices[x]
  {
    hide LowWitness, LowBound;
    assert v in t.onStack;
    forall x | x in done && x in u.onStack
      ensures t.lowlinks[v] <= u.indices[x]
    {
      assert x in t.onStack && x in t.indices;
    }
  }

  /** Changing low links changes neither witnesses nor bounds. */
  lemma SameStack(arcs: Arcs, u: State, u': State, v: Id)
    requires u'.onStack == u.onStack && u'.indices == u.indices
    ensures forall low {:trigger LowWitness(arcs, u', v, low)} :: LowWitness(arcs, u', v, low) <==> LowWitness(arcs, u, v, low)
    ensures forall from, iv, low {:trigger LowBound(arcs, u', from, iv, low)} ::
      LowBound(arcs, u', from, iv, low) <==> LowBound(arcs, u, from, iv, low)
  {
  }

  /** The nodes on the stack from v upward. */
  ghost function Above(t: State, v: Id): set<Id>
    requires v in t.indices
  {
    set x | x in t.onStack && x in t.indices && t.indices[x] >= t.indices[v]
  }

  ghost function Succs(arcs: Arcs, v: Id): set<Id>
  {
    set a | a in arcs && a.0 == v :: a.1
  }

  /** Every successor of v has been scanned, and v is still gray. */
  ghost predicate Scanned(nodes: set<Id>, arcs: Arcs, s: State, t: State, gray: set<Id>, v: Id)
  {
    && Inv(nodes, arcs, s, gray)
    && Inv(nodes, arcs, t, gray + {v})
    && v !in gray
    && Scanning(arcs, s, t, v, Succs(arcs, v))
  }

  lemma ScannedBound(nodes: set<Id>, arcs: Arcs, s: State, t: State, gray: set<Id>, v: Id)
    requires Scanned(nodes, arcs, s, t, gray, v)
    ensures LowBound(arcs, t, t.indices[v], t.indices[v], t.lowlinks[v])
  {
    forall x, y | x in t.onStack && y in t.onStack && t.indices[x] >= t.indices[v] && t.indices[y] < t.indices[v] && (x, y) in arcs
      ensures t.lowlinks[v] <= t.indices[y]
    {
      if t.indices[x] == t.indices[v] {
        SameIndex(nodes, arcs, t, gray + {v}, x, v);
      }
    }
  }

  lemma SameIndex(nodes: set<Id>, arcs: Arcs, t: State, gray: set<Id>, x: Id, y: Id)
    requires Inv(nodes, arcs, t, gray) && x in t.onStack && y in t.onStack && t.indices[x] == t.indices[y]
    ensures x == y
  {
    var i :| 0 <= i < |t.stack| && t.stack[i] == x;
    var j :| 0 <= j < |t.stack| && t.stack[j] == y;
    assert i == j;
  }

  lemma RetireSearch(arcs: Arcs, defined: set<Id>, onStack: set<Id>, indices: map<Id, nat>, gray: set<Id>, v: Id, z: Id)
    requires Search(arcs, defined, onStack, indices, gray + {v})
    requires Succs(arcs, v) <= defined
    requires v in indices && z in onStack && indices[z] < indices[v] && Reach(arcs, v, z)
    ensures Search(arcs, defined, onStack, indices, gray)
  {
    assert Anchored(arcs, indices, gray + {v}, z);
    var h :| h in gray + {v} && h in indices && indices[h] <= indices[z] && Reach(arcs, z, h);
    ReachTrans(arcs, v, z, h);
    forall u, w | u in defined && u !in gray && (u, w) in arcs
      ensures w in defined
    {
      assert u == v ==> (u, w).1 in Succs(arcs, v);
    }
    forall y | y in onStack
      ensures Anchored(arcs, indices, gray, y)
    {
      assert Anchored(arcs, indices, gray + {v}, y);
      var g :| g in gray + {v} && g in indices && indices[g] <= indices[y] && Reach(arcs, y, g);
      if g == v {
        ReachTrans(arcs, y, v, h);
        assert h in gray;
      }
    }
  }

  /** v is not a root: the call returns leaving v on the stack. */
  lemma Retire(nodes: set<Id>, arcs: Arcs, s: State, t: State, gray: set<Id>, v: Id)
    requires Scanned(nodes, arcs, s, t, gray, v)
    requires v in t.lowlinks && v in t.indices && t.lowlinks[v] < t.indices[v]
    ensures Inv(nodes, arcs, t, gray) && Returned(arcs, s, t, v)
  {
    ScannedBound(nodes, arcs, s, t, gray, v);
    var z :| z in t.onStack && z in t.indices && t.indices[z] == t.lowlinks[v] && Reach(arcs, v, z);
    RetireSearch(arcs, t.defined, t.onStack, t.indices, gray, v, z);
  }

  lemma EmittedClosed(arcs: Arcs, sccs: seq<seq<Id>>)
    requires ReverseTopological(arcs, sccs)
    ensures Closed(arcs, Emitted(sccs))
  {
  }

  /** v is a root: nothing leaves the nodes above it except into components already emitted. */
  lemma RootClosed(nodes: set<Id>, arcs: Arcs, s: State, t: State, gray: set<Id>, v: Id)
    requires Scanned(nodes, arcs, s, t, gray, v)
    requires v in t.lowlinks && v in t.indices && t.lowlinks[v] == t.indices[v]
    ensures Closed(arcs, Above(t, v) + Emitted(t.sccs))
  {
    ScannedBound(nodes, arcs, s, t, gray, v);
    EmittedClosed(arcs, t.sccs);
    forall a, b | a in Above(t, v) + Emitted(t.sccs) && (a, b) in arcs
      ensures b in Above(t, v) + Emitted(t.sccs)
    {
      if a in Above(t, v) {
        assert b in t.defined;
      }
    }
  }

  /** The callers of v are older than v, and none has been emitted. */
  lemma GrayOlder(nodes: set<Id>, arcs: Arcs, s: State, t: State, gray: set<Id>, v: Id, g: Id)
    requires Scanned(nodes, arcs, s, t, gray, v) && g in gray + {v}
    ensures g in t.onStack && g in t.indices && v in t.indices && g !in Emitted(t.sccs)
    ensures g != v ==> t.indices[g] < t.indices[v]
  {
    hide Emitted, Components, ReverseTopological, LowBound, LowWitness, Anchored, Reach;
  }

  lemma AboveMutual(nodes: set<Id>, arcs: Arcs, s: State, t: State, gray: set<Id>, v: Id, x: Id)
    requires Scanned(nodes, arcs, s, t, gray, v) && v in t.indices && x in Above(t, v)
    requires Closed(arcs, Above(t, v) + Emitted(t.sccs))
    ensures Mutual(arcs, v, x)
  {
    GrayOlder(nodes, arcs, s, t, gray, v, v);
    assert Search(arcs, t.defined, t.onStack, t.indices, gray + {v});
    hide Scanned, Emitted, Reach, Closed;
    assert Reach(arcs, v, x);
    assert Anchored(arcs, t.indices, gray + {v}, x);
    var g :| g in gray + {v} && g in t.indices && t.indices[g] <= t.indices[x] && Reach(arcs, x, g);
    ReachClosed(arcs, Above(t, v) + Emitted(t.sccs), x, g);
    GrayOlder(nodes, arcs, s, t, gray, v, g);
  }

  lemma MutualAbove(nodes: set<Id>, arcs: Arcs, s: State, t: State, gray: set<Id>, v: Id, x: Id)
    requires Scanned(nodes, arcs, s, t, gray, v) && v in t.indices && Mutual(arcs, v, x)
    requires Closed(arcs, Above(t, v) + Emitted(t.sccs)) && Closed(arcs, Emitted(t.sccs))
    ensures x in Above(t, v)
  {
    GrayOlder(nodes, arcs, s, t, gray, v, v);
    hide Scanned, Emitted, Reach, Closed;
    ReachClosed(arcs, Above(t, v) + Emitted(t.sccs), v, x);
    if x in Emitted(t.sccs) {
      ReachClosed(arcs, Emitted(t.sccs), x, v);
    }
  }

  /** ... and so they are exactly v's class of mutual reachability. */
  lemma RootMutual(nodes: set<Id>, arcs: Arcs, s: State, t: State, gray: set<Id>, v: Id, x: Id)
    requires Scanned(nodes, arcs, s, t, gray, v)
    requires v in t.lowlinks && v in t.indices && t.lowlinks[v] == t.indices[v]
    ensures x in Above(t, v) <==> Mutual(arcs, v, x)
  {
    RootClosed(nodes, arcs, s, t, gray, v);
    EmittedClosed(arcs, t.sccs);
    hide Scanned, Emitted, Above, Mutual, Closed;
    if x in Above(t, v) {
      AboveMutual(nodes, arcs, s, t, gray, v, x);
    }
    if Mutual(arcs, v, x) {
      MutualAbove(nodes, arcs, s, t, gray, v, x);
    }
  }

  lemma EmittedAppend(sccs: seq<seq<Id>>, scc: seq<Id>)
    ensures Emitted(sccs + [scc]) == Emitted(sccs) + (set x | x in scc)
  {
    var all := sccs + [scc];
    forall x | x in Emitted(sccs) + (set x | x in scc)
      ensures x in Emitted(all)
    {
      if x in scc {
        assert all[|sccs|] == scc;
      } else {
        var k :| 0 <= k < |sccs| && x in sccs[k];
        assert all[k] == sccs[k];
      }
    }
  }

  lemma AppendComponents(arcs: Arcs, sccs: seq<seq<Id>>, scc: seq<Id>, v: Id)
    requires Components(arcs, sccs)
    requires v in scc && NoRepeats(scc)
    requires forall x :: x in scc ==> x !in Emitted(sccs)
    requires forall x :: x in scc <==> Mutual(arcs, v, x)
    ensures Components(arcs, sccs + [scc])
  {
    forall x, y | x in scc
      ensures y in scc <==> Mutual(arcs, x, y)
    {
      if y in scc {
        MutualTrans(arcs, x, v, y);
      } else if Mutual(arcs, x, y) {
        MutualTrans(arcs, v, x, y);
      }
    }
  }

  lemma AppendTopological(arcs: Arcs, sccs: seq<seq<Id>>, scc: seq<Id>)
    requires ReverseTopological(arcs, sccs)
    requires forall u, w :: u in scc && (u, w) in arcs ==> w in scc || w in Emitted(sccs)
    ensures ReverseTopological(arcs, sccs + [scc])
  {
    var all := sccs + [scc];
    EmittedAppend(sccs, scc);
    assert all[..|all|] == all;
    forall k, u, w | 0 <= k < |all| && u in all[k] && (u, w) in arcs
      ensures w in Emitted(all[..k + 1])
    {
      if k < |sccs| {
        assert all[k] == sccs[k] && all[..k + 1] == sccs[..k + 1];
      }
    }
  }

  function Pop(t: State, stack: seq<Id>, scc: seq<Id>): State
  {
    t.(stack := stack, onStack := t.onStack - (set x | x in scc), sccs := t.sccs + [scc])
  }

  lemma PopSorted(nodes: set<Id>, arcs: Arcs, s: State, t: State, gray: set<Id>, v: Id, scc: seq<Id>)
    requires Scanned(nodes, arcs, s, t, gray, v)
    requires v in t.lowlinks && v in t.indices && t.lowlinks[v] == t.indices[v]
    requires NoRepeats(scc) && forall x :: x in scc <==> x in Above(t, v)
    ensures var u := Pop(t, s.stack, scc); Sorted(arcs, u.defined, u.onStack, u.sccs)
  {
    hide LowBound, LowWitness, Reach, Search, Extends, IsClass, Mutual, Stacked, Tables;
    RootClosed(nodes, arcs, s, t, gray, v);
    EmittedAppend(t.sccs, scc);
    forall x
      ensures x in scc <==> Mutual(arcs, v, x)
    {
      RootMutual(nodes, arcs, s, t, gray, v, x);
    }
    AppendComponents(arcs, t.sccs, scc, v);
    AppendTopological(arcs, t.sccs, scc);
  }

  lemma PopStacked(nodes: set<Id>, arcs: Arcs, s: State, t: State, gray: set<Id>, v: Id, scc: seq<Id>)
    requires Scanned(nodes, arcs, s, t, gray, v)
    requires forall x :: x in scc <==> x in Above(t, v)
    ensures var u := Pop(t, s.stack, scc); Stacked(u.stack, u.onStack, u.indices)
  {
    hide Components, ReverseTopological, Emitted, LowWitness, LowBound, Reach, Search;
    var u := Pop(t, s.stack, scc);
    assert t.stack[|s.stack|] == v;
    forall x
      ensures x in u.onStack <==> x in s.stack
    {
      if x in u.onStack {
        var i :| 0 <= i < |t.stack| && t.stack[i] == x;
        assert i < |s.stack| && s.stack[i] == x;
      }
      if x in s.stack {
        assert x in s.onStack;
      }
    }
  }

  lemma PopSearch(nodes: set<Id>, arcs: Arcs, s: State, t: State, gray: set<Id>, v: Id, scc: seq<Id>)
    requires Scanned(nodes, arcs, s, t, gray, v)
    requires forall x :: x in scc <==> x in Above(t, v)
    ensures var u := Pop(t, s.stack, scc); Search(arcs, u.defined, u.onStack, u.indices, gray)
  {
    hide Components, ReverseTopological, Emitted, LowWitness, LowBound, Reach;
    var u := Pop(t, s.stack, scc);
    forall a, b | a in u.defined && a !in gray && (a, b) in arcs
      ensures b in u.defined
    {
      assert a == v ==> (a, b).1 in Succs(arcs, v);
    }
    forall y | y in u.onStack
      ensures Anchored(arcs, u.indices, gray, y)
    {
      assert Anchored(arcs, t.indices, gray + {v}, y);
    }
  }

  /** v is a root: the call returns having emitted its component. */
  lemma Emit(nodes: set<Id>, arcs: Arcs, s: State, t: State, gray: set<Id>, v: Id, scc: seq<Id>)
    requires Scanned(nodes, arcs, s, t, gray, v)
    requires v in t.lowlinks && v in t.indices && t.lowlinks[v] == t.indices[v]
    requires NoRepeats(scc) && forall x :: x in scc <==> x in Above(t, v)
    ensures var u := Pop(t, s.stack, scc); Inv(nodes, arcs, u, gray) && Extends(s, u) && Returned(arcs, s, u, v)
  {
    PopSorted(nodes, arcs, s, t, gray, v, scc);
    PopStacked(nodes, arcs, s, t, gray, v, scc);
    PopSearch(nodes, arcs, s, t, gray, v, scc);
  }

  lemma PoppedIsAbove(t: State, v: Id, n: nat, scc: seq<Id>)
    requires Stacked(t.stack, t.onStack, t.indices)
    requires n < |t.stack| && t.stack[n] == v && |scc| == |t.stack| - n
    requires forall i :: 0 <= i < |scc| ==> scc[i] == t.stack[|t.stack| - 1 - i]
    ensures NoRepeats(scc)
    ensures v in t.indices && forall x :: x in scc <==> x in Above(t, v)
  {
    assert v in t.onStack;
    forall x
      ensures x in scc <==> x in Above(t, v)
    {
      if x in Above(t, v) {
        var i :| 0 <= i < |t.stack| && t.stack[i] == x;
        assert i >= n;
        assert scc[|t.stack| - 1 - i] == x;
      }
      if x in scc {
        var i :| 0 <= i < |scc| && scc[i] == x;
        assert x in t.stack && x in t.onStack;
      }
    }
  }

  lemma PoppedToEntry(nodes: set<Id>, arcs: Arcs, s: State, t: State, gray: set<Id>, v: Id, n: nat)
    requires Scanned(nodes, arcs, s, t, gray, v)
    requires n < |t.stack| && t.stack[n] == v
    ensures t.stack[..n] == s.stack
  {
    assert t.stack[|s.stack|] == v;
    assert n == |s.stack|;
  }

  lemma CallerReaches(arcs: Arcs, gray: set<Id>, v: Id, w: Id)
    requires (v, w) in arcs && forall g :: g in gray ==> Reach(arcs, g, v)
    ensures forall g :: g in gray + {v} ==> Reach(arcs, g, w)
  {
    ReachArc(arcs, v, w);
    forall g | g in gray
      ensures Reach(arcs, g, w)
    {
      ReachTrans(arcs, g, v, w);
    }
  }

  ghost predicate Covered(succs: seq<Id>, n: nat, nodes: set<Id>, done: set<Id>)
    requires n <= |succs|
  {
    forall j :: 0 <= j < n && succs[j] in nodes ==> succs[j] in done
  }

  lemma CoveredNext(succs: seq<Id>, n: nat, nodes: set<Id>, before: set<Id>, after: set<Id>)
    requires n < |succs| && Covered(succs, n, nodes, before)
    requires before <= after && (succs[n] in nodes ==> succs[n] in after)
    ensures Covered(succs, n + 1, nodes, after)
  {
  }

  lemma AllScanned(nodes: set<Id>, adj: map<Id, seq<Id>>, s: State, t: State, v: Id, done: set<Id>)
    requires Scanning(Within(nodes, adj), s, t, v, done)
    requires v in adj ==> Covered(adj[v], |adj[v]|, nodes, done)
    ensures Scanning(Within(nodes, adj), s, t, v, Succs(Within(nodes, adj), v))
  {
    assert Succs(Within(nodes, adj), v) <= done;
  }

  // ---------------------------------------------------------------- the algorithm

  class Searcher {
    const nodeSet: set<Id>
    const adj: map<Id, seq<Id>>
    var index: nat
    var stack: seq<Id>
    var onStack: set<Id>
    var indices: map<Id, nat>
    var lowlinks: map<Id, nat>
    var defined: set<Id>
    var sccs: seq<seq<Id>>

    ghost function Now(): State
      reads this
    {
      State(index, stack, onStack, indices, lowlinks, defined, sccs)
    }

    constructor (nodeSet: set<Id>, adj: map<Id, seq<Id>>)
      ensures this.nodeSet == nodeSet && this.adj == adj
      ensures Now() == State(0, [], {}, map[], map[], {}, [])
    {
      this.nodeSet, this.adj := nodeSet, adj;
      index, stack, onStack, indices, lowlinks, defined, sccs := 0, [], {}, map[], map[], {}, [];
    }

    /** Pops the stack down to and including v. */
    method PopComponent(v: Id) returns (scc: seq<Id>)
      requires Stacked(stack, onStack, indices) && v in onStack
      modifies this`stack, this`onStack
      ensures NoRepeats(scc)
      ensures forall x :: x in scc <==> x in old(Above(Now(), v))
      ensures onStack == old(onStack) - (set x | x in scc)
      ensures |stack| < |old(stack)| && stack == old(stack)[..|stack|] && old(stack)[|stack|] == v
    {
      ghost var full, t := stack, Now();
      scc := [];
      while true
        invariant 0 < |stack| <= |full| && stack == full[..|stack|]
        invariant |scc| == |full| - |stack|
        invariant forall i :: 0 <= i < |scc| ==> scc[i] == full[|full| - 1 - i]
        invariant v in stack
        invariant onStack == t.onStack - (set x | x in scc)
        decreases |stack|
      {
        var w := stack[|stack| - 1];
        stack := stack[..|stack| - 1];
        onStack := onStack - {w};
        scc := scc + [w];
        if w == v {
          break;
        }
      }
      PoppedIsAbove(t, v, |stack|, scc);
    }

    method StrongConnect(v: Id, ghost gray: set<Id>)
      requires Inv(nodeSet, Within(nodeSet, adj), Now(), gray)
      requires v in nodeSet && v !in defined
      requires forall g :: g in gray ==> Reach(Within(nodeSet, adj), g, v)
      modifies this
      ensures Inv(nodeSet, Within(nodeSet, adj), Now(), gray)
      ensures Extends(old(Now()), Now())
      ensures Returned(Within(nodeSet, adj), old(Now()), Now(), v)
      decreases nodeSet - defined, 0
    {
      ghost var arcs, s := Within(nodeSet, adj), Now();
      Enter(v, gray);
      var succs := if v in adj then adj[v] else [];
      ghost var done: set<Id> := {};
      for i := 0 to |succs|
        invariant Inv(nodeSet, arcs, Now(), gray + {v})
        invariant Scanning(arcs, s, Now(), v, done)
        invariant Covered(succs, i, nodeSet, done)
      {
        var w := succs[i];
        if w in nodeSet {
          Follow(v, w, s, gray, done);
          CoveredNext(succs, i, nodeSet, done, done + {w});
          done := done + {w};
        } else {
          CoveredNext(succs, i, nodeSet, done, done);
        }
      }
      AllScanned(nodeSet, adj, s, Now(), v, done);
      Leave(v, s, gray);
    }

    /** Numbers v and pushes it. */
    method Enter(v: Id, ghost gray: set<Id>)
      requires Inv(nodeSet, Within(nodeSet, adj), Now(), gray)
      requires v in nodeSet && v !in defined
      requires forall g :: g in gray ==> Reach(Within(nodeSet, adj), g, v)
      modifies this
      ensures Now() == Push(old(Now()), v)
      ensures Inv(nodeSet, Within(nodeSet, adj), Now(), gray + {v})
      ensures Scanning(Within(nodeSet, adj), old(Now()), Now(), v, {})
    {
      PushSorted(nodeSet, Within(nodeSet, adj), Now(), gray, v);
      PushSearch(nodeSet, Within(nodeSet, adj), Now(), gray, v);
      PushScanning(nodeSet, Within(nodeSet, adj), Now(), gray, v);
      indices := indices[v := index];
      lowlinks := lowlinks[v := index];
      index := index + 1;
      defined := defined + {v};
      stack := stack + [v];
      onStack := onStack + {v};
    }

    /** The loop body for one successor w of v. */
    method Follow(v: Id, w: Id, ghost s: State, ghost gray: set<Id>, ghost done: set<Id>)
      requires Inv(nodeSet, Within(nodeSet, adj), Now(), gray + {v})
      requires Scanning(Within(nodeSet, adj), s, Now(), v, done)
      requires (v, w) in Within(nodeSet, adj)
      requires forall g :: g in gray ==> Reach(Within(nodeSet, adj), g, v)
      modifies this
      ensures Inv(nodeSet, Within(nodeSet, adj), Now(), gray + {v})
      ensures Scanning(Within(nodeSet, adj), s, Now(), v, done + {w})
      decreases nodeSet - defined, 1
    {
      hide LowWitness, LowBound, Sorted, Search, Reach;
      ghost var arcs, t := Within(nodeSet, adj), Now();
      if w !in defined {
        CallerReaches(arcs, gray, v, w);
        StrongConnect(w, gray + {v});
        ghost var u := Now();
        ScanChild(nodeSet, arcs, s, t, u, v, done, w);
        LowerKeepsInv(nodeSet, arcs, u, gray + {v}, v, u.lowlinks[w]);
        if lowlinks[w] < lowlinks[v] {
          lowlinks := lowlinks[v := lowlinks[w]];
        }
        assert Now() == Lower(u, v, u.lowlinks[w]);
      } else {
        ScanOld(nodeSet, arcs, s, t, v, done, w);
        LowerKeepsInv(nodeSet, arcs, t, gray + {v}, v, t.indices[w]);
        if w in onStack {
          if indices[w] < lowlinks[v] {
            lowlinks := lowlinks[v := indices[w]];
          }
        }
      }
    }

    /** Emits v's component if v is a root. */
    method Leave(v: Id, ghost s: State, ghost gray: set<Id>)
      requires Scanned(nodeSet, Within(nodeSet, adj), s, Now(), gray, v)
      modifies this
      ensures Inv(nodeSet, Within(nodeSet, adj), Now(), gray)
      ensures Extends(s, Now())
      ensures Returned(Within(nodeSet, adj), s, Now(), v)
    {
      ghost var t := Now();
      if lowlinks[v] == indices[v] {
        var scc := PopComponent(v);
        sccs := sccs + [scc];
        PoppedToEntry(nodeSet, Within(nodeSet, adj), s, t, gray, v, |stack|);
        assert Now() == Pop(t, s.stack, scc);
        Emit(nodeSet, Within(nodeSet, adj), s, t, gray, v, scc);
      } else {
        Retire(nodeSet, Within(nodeSet, adj), s, t, gray, v);
      }
    }
  }

  /** Between top-level calls nothing is gray, so nothing is left on the stack. */
  lemma NothingPending(nodes: set<Id>, arcs: Arcs, s: State)
    requires Inv(nodes, arcs, s, {})
    ensures s.defined == Emitted(s.sccs)
  {
    forall y
      ensures y !in s.onStack
    {
      assert !Anchored(arcs, s.indices, {}, y);
    }
  }

  /** The components partition the node set, two nodes share one exactly when each reaches
      the other inside the node set, and the list is in reverse topological order: for
      every node set, adjacency and order of iteration. */
  method TarjanSCC(nodeSet: set<Id>, adj: map<Id, seq<Id>>) returns (sccs: seq<seq<Id>>)
    ensures Emitted(sccs) == nodeSet
    ensures Components(Within(nodeSet, adj), sccs)
    ensures ReverseTopological(Within(nodeSet, adj), sccs)
  {
    var search := new Searcher(nodeSet, adj);
    ghost var arcs := Within(nodeSet, adj);
    var remaining := nodeSet;
    while remaining != {}
      invariant search.nodeSet == nodeSet && search.adj == adj
      invariant remaining <= nodeSet
      invariant Inv(nodeSet, arcs, search.Now(), {})
      invariant nodeSet - remaining <= search.defined
      decreases remaining
    {
      var id :| id in remaining;
      remaining := remaining - {id};
      if id !in search.defined {
        search.StrongConnect(id, {});
      }
    }
    NothingPending(nodeSet, arcs, search.Now());
    sccs := search.sccs;
  }
}
