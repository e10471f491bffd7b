/**
 `uacpi_namespace_do_for_each_child` (src/uacpi/namespace.c:834-936): visits the nodes below a node by following
 links, without recursion, calling one callback on the way down and another on the way up.
 */
module NamespaceWalk {
  import opened NamespaceTree

  /** A callback made: for which node, at which depth, going down or up. */
  datatype Event = Down(node: nat, depth: nat) | Up(node: nat, depth: nat)

  /**
   What the walk depends on besides the tree: which callbacks there are, which nodes have an object, an object of a
   wanted type, or are temporary, where the descending callback says to go on to the next peer, and where a callback
   says to stop.
   */
  datatype Plan = Plan(hasDown: bool, hasUp: bool, maxDepth: nat, permanentOnly: bool, objects: set<nat>,
                       wanted: set<nat>,
                       temporary: set<nat>, skip: set<nat>, stopDown: set<nat>, stopUp: set<nat>)

  predicate Stops(plan: Plan, e: Event) {
    if e.Down? then e.node in plan.stopDown else e.node in plan.stopUp
  }

  /** The test of a node's type leaves the answer for the node before in place when there is no object. */
  predicate Matches(plan: Plan, x: nat, matched: bool) {
    if x in plan.objects then x in plan.wanted else matched
  }

  predicate Called(plan: Plan, x: nat, matched: bool) {
    matched && !(plan.permanentOnly && x in plan.temporary)
  }

  /** The walk goes on to the children of a node. */
  predicate Enters(plan: Plan, x: nat, depth: nat, matched: bool) {
    && depth != plan.maxDepth
    && !(matched && plan.permanentOnly && x in plan.temporary)
    && !(Called(plan, x, matched) && plan.hasDown && x in plan.skip)
  }

  // -------------------------------------------------------------------------
  // The recursive walk

  ghost predicate Tree(kids: Kids, n: Numbers, root: nat) {
    Numbered(kids, n, root) && Closed(kids)
  }

  ghost function DownOf(plan: Plan, x: nat, depth: nat, matched: bool): (r: seq<Event>) {
    if Called(plan, x, matched) && plan.hasDown then [Down(x, depth)] else []
  }

  ghost function UpOf(plan: Plan, x: nat, depth: nat, matched: bool): (r: seq<Event>) {
    if Called(plan, x, matched) && plan.hasUp then [Up(x, depth)] else []
  }

  /** The callbacks of a part of the walk, and the answer of the last test made in it. */
  datatype Trip = Trip(events: seq<Event>, matched: bool)

  /** The callbacks for a node and what is below it. */
  ghost function Walk(kids: Kids, n: Numbers, root: nat, plan: Plan, x: nat, depth: nat, matched: bool): (r: Trip)
    requires Tree(kids, n, root) && x in kids
    decreases Post(n, x), 1, 0
  {
    var a := Matches(plan, x, matched);
    var inner := if Enters(plan, x, depth, a) then WalkKids(kids, n, root, plan, x, 0, depth + 1, a) else Trip([], a);
    var b := Matches(plan, x, inner.matched);
    Trip(DownOf(plan, x, depth, a) + inner.events + UpOf(plan, x, depth, b), b)
  }

  /** The callbacks for the children of a node, from the `i`th on. */
  ghost function WalkKids(kids: Kids, n: Numbers, root: nat, plan: Plan, x: nat, i: nat, depth: nat,
                          matched: bool): (r: Trip)
    requires Tree(kids, n, root) && x in kids && i <= |kids[x]|
    decreases Post(n, x), 0, |kids[x]| - i
  {
    if i == |kids[x]| then Trip([], matched) else
    KidBefore(kids, n, root, x, i);
    var first := Walk(kids, n, root, plan, kids[x][i], depth, matched);
    var others := WalkKids(kids, n, root, plan, x, i + 1, depth, first.matched);
    Trip(first.events + others.events, others.matched)
  }

  // -------------------------------------------------------------------------
  // Where the loop is

  /** Node `x` is `depth` levels below `start`. */
  ghost predicate Under(kids: Kids, parent: links, pos: links, root: nat, start: nat, x: nat, depth: nat)
    decreases depth
  {
    && depth > 0 && x in kids && x != root && HomeAt(kids, parent, pos, x)
    && if depth == 1 then parent[x] == start else Under(kids, parent, pos, root, start, parent[x], depth - 1)
  }

  /** The callbacks still to come once a node and everything below it are done. */
  ghost function Rest(kids: Kids, n: Numbers, parent: links, pos: links, root: nat, start: nat, plan: Plan, x: nat,
                      depth: nat, matched: bool): (r: seq<Event>)
    requires Tree(kids, n, root) && Under(kids, parent, pos, root, start, x, depth)
    decreases depth
  {
    var peers := WalkKids(kids, n, root, plan, parent[x], pos[x] + 1, depth, matched);
    peers.events
    + if depth == 1 then []
      else
        var b := Matches(plan, parent[x], peers.matched);
        UpOf(plan, parent[x], depth - 1, b) + Rest(kids, n, parent, pos, root, start, plan, parent[x], depth - 1, b)
  }

  /** What is left to do at a node. */
  ghost function Left(kids: Kids, n: Numbers, parent: links, pos: links, root: nat, start: nat, plan: Plan, x: nat,
                      depth: nat, up: bool, matched: bool): (r: seq<Event>)
    requires Tree(kids, n, root) && Under(kids, parent, pos, root, start, x, depth)
  {
    var trip := if up then var b := Matches(plan, x, matched); Trip(UpOf(plan, x, depth, b), b)
                else Walk(kids, n, root, plan, x, depth, matched);
    trip.events + Rest(kids, n, parent, pos, root, start, plan, x, depth, trip.matched)
  }

  /** From a node down to its first child. */
  lemma IntoKids(kids: Kids, n: Numbers, parent: links, pos: links, root: nat, start: nat, plan: Plan, x: nat,
                 depth: nat, matched: bool)
    requires Tree(kids, n, root) && Under(kids, parent, pos, root, start, x, depth) && kids[x] != []
    requires kids[x][0] in kids && kids[x][0] != root && HomeAt(kids, parent, pos, kids[x][0]) &&
             parent[kids[x][0]] == x && pos[kids[x][0]] == 0
    ensures Under(kids, parent, pos, root, start, kids[x][0], depth + 1)
    ensures var inner := WalkKids(kids, n, root, plan, x, 0, depth + 1, matched);
            var b := Matches(plan, x, inner.matched);
            inner.events + UpOf(plan, x, depth, b) + Rest(kids, n, parent, pos, root, start, plan, x, depth, b) ==
            Left(kids, n, parent, pos, root, start, plan, kids[x][0], depth + 1, false, matched)
  {
    hide Tree, UpOf, Walk, Matches;
    var y := kids[x][0];
    var first := Walk(kids, n, root, plan, y, depth + 1, matched);
    var others := WalkKids(kids, n, root, plan, x, 1, depth + 1, first.matched);
    var a, b, m := first.events, others.events, Matches(plan, x, others.matched);
    var u, r := UpOf(plan, x, depth, m), Rest(kids, n, parent, pos, root, start, plan, x, depth, m);
    assert WalkKids(kids, n, root, plan, x, 0, depth + 1, matched) == Trip(a + b, others.matched);
    assert Rest(kids, n, parent, pos, root, start, plan, y, depth + 1, first.matched) == b + (u + r);
    assert a + b + u + r == a + (b + (u + r));
  }

  /** From a node on to its next peer. */
  lemma OntoPeer(kids: Kids, n: Numbers, parent: links, pos: links, root: nat, start: nat, plan: Plan, x: nat,
                 depth: nat, matched: bool)
    requires Tree(kids, n, root) && Under(kids, parent, pos, root, start, x, depth)
    requires pos[x] + 1 < |kids[parent[x]]|
    requires var y := kids[parent[x]][pos[x] + 1];
             y in kids && y != root && HomeAt(kids, parent, pos, y) && parent[y] == parent[x] && pos[y] == pos[x] + 1
    ensures var y := kids[parent[x]][pos[x] + 1];
            && Under(kids, parent, pos, root, start, y, depth)
            && Rest(kids, n, parent, pos, root, start, plan, x, depth, matched)
            == Left(kids, n, parent, pos, root, start, plan, y, depth, false, matched)
  {
    hide Tree, UpOf, Walk, Matches;
    var p, i := parent[x], pos[x] + 1;
    var y := kids[p][i];
    var first := Walk(kids, n, root, plan, y, depth, matched);
    var others := WalkKids(kids, n, root, plan, p, i + 1, depth, first.matched);
    var a, b := first.events, others.events;
    assert WalkKids(kids, n, root, plan, p, i, depth, matched) == Trip(a + b, others.matched);
    if depth > 1 {
      var m := Matches(plan, p, others.matched);
      var r := UpOf(plan, p, depth - 1, m) + Rest(kids, n, parent, pos, root, start, plan, p, depth - 1, m);
      assert a + b + r == a + (b + r);
    }
  }

  // -------------------------------------------------------------------------
  // Stopping early

  /** The callbacks up to the first that says to stop. */
  ghost function Cut(plan: Plan, s: seq<Event>): (r: seq<Event>) {
    if s == [] then [] else if Stops(plan, s[0]) then [s[0]] else [s[0]] + Cut(plan, s[1..])
  }

  ghost predicate NoStop(plan: Plan, s: seq<Event>) {
    forall i {:trigger s[i]} :: 0 <= i < |s| ==> !Stops(plan, s[i])
  }

  lemma {:induction false} CutWhole(plan: Plan, s: seq<Event>)
    requires NoStop(plan, s)
    ensures Cut(plan, s) == s
  {
    if s != [] {
      CutWhole(plan, s[1..]);
    }
  }

  lemma {:induction false} CutAt(plan: Plan, s: seq<Event>, e: Event, rest: seq<Event>)
    requires NoStop(plan, s) && Stops(plan, e)
    ensures Cut(plan, s + [e] + rest) == s + [e]
  {
    if s == [] {
      assert s + [e] + rest == [e] + rest;
    } else {
      CutAt(plan, s[1..], e, rest);
      assert (s + [e] + rest)[1..] == s[1..] + [e] + rest;
    }
  }

  // -------------------------------------------------------------------------
  // The loop

  /** How far the loop is: downwards nodes by their smallest number, upwards by their own. */
  ghost function Progress(n: Numbers, x: nat, up: bool): (r: nat) {
    if up then Post(n, x) else Low(n, x)
  }

  ghost function Emitted(plan: Plan, x: nat, depth: nat, up: bool, matched: bool): (r: seq<Event>)
    ensures |r| <= 1
  {
    if up then UpOf(plan, x, depth, matched) else DownOf(plan, x, depth, matched)
  }

  /** What is left after the callback at a node. */
  ghost function LeftAfter(kids: Kids, n: Numbers, parent: links, pos: links, root: nat, start: nat, plan: Plan, x: nat,
                           depth: nat, up: bool, matched: bool): (r: seq<Event>)
    requires Tree(kids, n, root) && Under(kids, parent, pos, root, start, x, depth)
  {
    if up then Rest(kids, n, parent, pos, root, start, plan, x, depth, matched)
    else
      var inner := if Enters(plan, x, depth, matched) then WalkKids(kids, n, root, plan, x, 0, depth + 1, matched)
          else Trip([], matched);
      var b := Matches(plan, x, inner.matched);
      inner.events + UpOf(plan, x, depth, b) + Rest(kids, n, parent, pos, root, start, plan, x, depth, b)
  }

  lemma LeftSteps(kids: Kids, n: Numbers, parent: links, pos: links, root: nat, start: nat, plan: Plan, x: nat,
                  depth: nat, up: bool, matched: bool)
    requires Tree(kids, n, root) && Under(kids, parent, pos, root, start, x, depth)
    ensures var a := Matches(plan, x, matched);
            Left(kids, n, parent, pos, root, start, plan, x, depth, up, matched) ==
            Emitted(plan, x, depth, up, a) + LeftAfter(kids, n, parent, pos, root, start, plan, x, depth, up, a)
  {
    hide Tree, Rest, WalkKids;
    if !up {
      var m := Matches(plan, x, matched);
      var inner := if Enters(plan, x, depth, m) then WalkKids(kids, n, root, plan, x, 0, depth + 1, m) else Trip([], m);
      var k := Matches(plan, x, inner.matched);
      var a, b, c, r := DownOf(plan, x, depth, m), inner.events, UpOf(plan, x, depth, k),
          Rest(kids, n, parent, pos, root, start, plan, x, depth, k);
      assert a + b + c + r == a + (b + c + r);
    }
  }

  lemma FirstKid(kids: Kids, n: Numbers, child: links, next: links, parent: links, pos: links, root: nat, start: nat,
                 plan: Plan, matched: bool)
    requires Linked(kids, child, next, parent, pos, root) && Tree(kids, n, root) && start in kids && kids[start] != []
    ensures var y := kids[start][0];
            && y in kids && Under(kids, parent, pos, root, start, y, 1)
            && WalkKids(kids, n, root, plan, start, 0, 1, matched).events ==
               Left(kids, n, parent, pos, root, start, plan, y, 1, false, matched)
  {
    hide Tree, Walk;
    PeerFact(kids, child, next, parent, pos, root, start, 0);
    HomeFact(kids, child, next, parent, pos, root, kids[start][0]);
    var y := kids[start][0];
    var first := Walk(kids, n, root, plan, y, 1, matched);
    assert Rest(kids, n, parent, pos, root, start, plan, y, 1, first.matched) ==
        WalkKids(kids, n, root, plan, start, 1, 1, first.matched).events + [];
  }

  /** Down to the first child. */
  lemma MoveDown(kids: Kids, n: Numbers, child: links, next: links, parent: links, pos: links, root: nat, start: nat,
                 plan: Plan, x: nat, depth: nat, matched: bool)
    requires Linked(kids, child, next, parent, pos, root) && Tree(kids, n, root)
    requires Under(kids, parent, pos, root, start, x, depth) && x in kids && kids[x] != []
    ensures var y := kids[x][0];
            && y in kids && Under(kids, parent, pos, root, start, y, depth + 1)
            && Low(n, y) == Low(n, x) && Post(n, y) < Post(n, x)
            && (Enters(plan, x, depth, matched) ==>
                LeftAfter(kids, n, parent, pos, root, start, plan, x, depth, false, matched) ==
                  Left(kids, n, parent, pos, root, start, plan, y, depth + 1, false, matched))
  {
    hide Post, Low, Level, Walk, Rest, WalkKids;
    PeerFact(kids, child, next, parent, pos, root, x, 0);
    HomeFact(kids, child, next, parent, pos, root, kids[x][0]);
    KidBefore(kids, n, root, x, 0);
    assert NumberAt(kids, n, root, x);
    IntoKids(kids, n, parent, pos, root, start, plan, x, depth, matched);
  }

  /** Nothing below to visit: turn round at the same node. */
  lemma MoveRound(kids: Kids, n: Numbers, parent: links, pos: links, root: nat, start: nat, plan: Plan, x: nat,
                  depth: nat, matched: bool)
    requires Tree(kids, n, root) && Under(kids, parent, pos, root, start, x, depth) && x in kids
    ensures Low(n, x) <= Post(n, x) <= Post(n, root)
    ensures !Enters(plan, x, depth, matched) || kids[x] == [] ==>
              LeftAfter(kids, n, parent, pos, root, start, plan, x, depth, false, matched) ==
                Left(kids, n, parent, pos, root, start, plan, x, depth, true, matched)
  {
    hide Post, Low, Level, Rest;
    assert NumberAt(kids, n, root, x);
  }

  /** On to the next peer, or back up to the parent. */
  lemma MoveOn(kids: Kids, n: Numbers, child: links, next: links, parent: links, pos: links, root: nat, start: nat,
               plan: Plan, x: nat, depth: nat, matched: bool)
    requires Linked(kids, child, next, parent, pos, root) && Tree(kids, n, root) &&
             Under(kids, parent, pos, root, start, x, depth)
    ensures x in kids && HomeAt(kids, parent, pos, x) && x in next
    ensures next[x] == if pos[x] + 1 < |kids[parent[x]]| then kids[parent[x]][pos[x] + 1] else NULL
    ensures var left := LeftAfter(kids, n, parent, pos, root, start, plan, x, depth, true, matched);
            if next[x] != NULL then
              && next[x] in kids && Under(kids, parent, pos, root, start, next[x], depth) &&
                 Low(n, next[x]) == Post(n, x) + 1
              && left == Left(kids, n, parent, pos, root, start, plan, next[x], depth, false, matched)
            else if depth == 1 then left == []
            else
              && Under(kids, parent, pos, root, start, parent[x], depth - 1) && Post(n, x) < Post(n, parent[x])
              && left == Left(kids, n, parent, pos, root, start, plan, parent[x], depth - 1, true, matched)
  {
    hide Post, Low, Level, Walk;
    var p, i := parent[x], pos[x];
    PeerFact(kids, child, next, parent, pos, root, p, i);
    KidBefore(kids, n, root, p, i);
    if i + 1 < |kids[p]| {
      PeerFact(kids, child, next, parent, pos, root, p, i + 1);
      HomeFact(kids, child, next, parent, pos, root, kids[p][i + 1]);
      assert NumberKid(kids, n, p, i);
      OntoPeer(kids, n, parent, pos, root, start, plan, x, depth, matched);
    }
  }

  /** The first half of the loop's body: the test of the node's type, and the callback if there is one to make. */
  method Visit(plan: Plan, node: nat, depth: nat, walkingUp: bool, matched: bool, trace: seq<Event>)
    returns (matches: bool, longer: seq<Event>, nextPeer: bool, stop: bool)
    ensures matches == Matches(plan, node, matched)
    ensures longer == trace + Emitted(plan, node, depth, walkingUp, matches)
    ensures stop == StopsIn(plan, Emitted(plan, node, depth, walkingUp, matches))
    ensures !walkingUp ==> (Enters(plan, node, depth, matches) <==> !nextPeer && depth != plan.maxDepth) || stop
  {
    matches := if node in plan.objects then node in plan.wanted else matched;
    longer, nextPeer, stop := trace, false, false;
    if matches {
      if plan.permanentOnly && node in plan.temporary {
        nextPeer := true;
      } else if (if walkingUp then plan.hasUp else plan.hasDown) {
        var e := if walkingUp then Up(node, depth) else Down(node, depth);
        longer := trace + [e];
        stop := Stops(plan, e);
        nextPeer := !walkingUp && node in plan.skip;
        assert e in [e];
      }
    }
  }

  ghost predicate StopsIn(plan: Plan, s: seq<Event>) {
    exists e :: e in s && Stops(plan, e)
  }

  lemma VisitCut(plan: Plan, before: seq<Event>, e: seq<Event>, left: seq<Event>)
    requires NoStop(plan, before) && |e| <= 1
    ensures if StopsIn(plan, e) then Cut(plan, before + e + left) == before + e else NoStop(plan, before + e)
  {
    if e != [] && Stops(plan, e[0]) {
      assert e == [e[0]];
      CutAt(plan, before, e[0], left);
    }
  }

  /** `uacpi_namespace_do_for_each_child`: makes exactly the callbacks of the recursive walk. */
  method ForEachChild(ns: Namespace, start: nat, plan: Plan) returns (ok: bool, trace: seq<Event>)
    requires ns.Valid() && (start == NULL || start in ns.kids)
    ensures ok == (start != NULL && plan.maxDepth != 0 && (plan.hasDown || plan.hasUp)) && (!ok ==> trace == [])
    ensures ok ==>
            Tree(ns.kids, ns.numbers, ns.root) &&
              trace == Cut(plan, WalkKids(ns.kids, ns.numbers, ns.root, plan, start, 0, 1, false).events)
  {
    hide Linked, Numbered, Closed, Walk, WalkKids, Rest, Left, LeftAfter, Cut, NoStop, Post, Low, Under, Emitted,
      StopsIn, Enters, Matches;
    trace := [];
    ok := start != NULL && plan.maxDepth != 0 && (plan.hasDown || plan.hasUp);
    if !ok {
      return;
    }
    ghost var kids, n, root := ns.kids, ns.numbers, ns.root;
    LinkedClosed(kids, ns.child, ns.next, ns.parent, ns.pos, root);
    ghost var full := WalkKids(kids, n, root, plan, start, 0, 1, false).events;
    ChildFact(kids, ns.child, ns.next, ns.parent, ns.pos, root, start);
    NoStopEmpty(plan);
    if ns.child[start] == NULL {
      EmptyWalk(kids, n, root, plan, start);
      return;
    }
    var node, depth, walkingUp, matches := ns.child[start], 1, false, false;
    FirstKid(kids, n, ns.child, ns.next, ns.parent, ns.pos, root, start, plan, matches);
    while depth > 0
      invariant depth > 0 ==> Under(kids, ns.parent, ns.pos, root, start, node, depth) && node in kids
      invariant NoStop(plan, trace)
      invariant full == trace + if depth > 0
                then Left(kids, n, ns.parent, ns.pos, root, start, plan, node, depth, walkingUp, matches) else []
      decreases if depth > 0 then Post(n, root) + 1 - Progress(n, node, walkingUp) else 0, !walkingUp,
          Post(n, node) - Low(n, node)
    {
      LeftSteps(kids, n, ns.parent, ns.pos, root, start, plan, node, depth, walkingUp, matches);
      ghost var before := trace;
      var nextPeer, stop;
      matches, trace, nextPeer, stop := Visit(plan, node, depth, walkingUp, matches, trace);
      MoveRound(kids, n, ns.parent, ns.pos, root, start, plan, node, depth, matches);
      ghost var e, left := Emitted(plan, node, depth, walkingUp, matches),
        LeftAfter(kids, n, ns.parent, ns.pos, root, start, plan, node, depth, walkingUp, matches);
      assert before + (e + left) == before + e + left;
      VisitCut(plan, before, e, left);
      if stop {
        return;
      }
      if walkingUp {
        MoveOn(kids, n, ns.child, ns.next, ns.parent, ns.pos, root, start, plan, node, depth, matches);
        if ns.next[node] != NULL {
          node := ns.next[node];
          walkingUp := false;
          continue;
        }
        depth := depth - 1;
        node := ns.parent[node];
        continue;
      }
      ChildFact(kids, ns.child, ns.next, ns.parent, ns.pos, root, node);
      if !nextPeer && depth != plan.maxDepth && ns.child[node] != NULL {
        MoveDown(kids, n, ns.child, ns.next, ns.parent, ns.pos, root, start, plan, node, depth, matches);
        node := ns.child[node];
        depth := depth + 1;
        continue;
      }
      walkingUp := true;
    }
    assert full == trace;
    CutWhole(plan, trace);
  }

  lemma EmptyWalk(kids: Kids, n: Numbers, root: nat, plan: Plan, x: nat)
    requires Tree(kids, n, root) && x in kids && kids[x] == []
    ensures Cut(plan, WalkKids(kids, n, root, plan, x, 0, 1, false).events) == []
  {
  }

  lemma NoStopEmpty(plan: Plan)
    ensures NoStop(plan, [])
  {
  }

  // -------------------------------------------------------------------------
  // What the walk amounts to

  ghost predicate Within(n: Numbers, low: nat, high: int, s: seq<Event>) {
    forall i {:trigger s[i]} :: 0 <= i < |s| ==> low <= Post(n, s[i].node) <= high
  }

  ghost predicate Distinct(s: seq<Event>) {
    forall i, j {:trigger s[i], s[j]} :: 0 <= i < j < |s| ==> s[i] != s[j]
  }

  /** No callback is made twice. */
  lemma {:induction false} WalkOnce(kids: Kids, n: Numbers, root: nat, plan: Plan, x: nat, depth: nat, matched: bool)
    requires Tree(kids, n, root) && x in kids
    ensures var s := Walk(kids, n, root, plan, x, depth, matched).events;
            Within(n, Low(n, x), Post(n, x), s) && Distinct(s)
    decreases Post(n, x), 1, 0
  {
    hide Low, Post, Level, Matches;
    assert NumberAt(kids, n, root, x);
    var a := Matches(plan, x, matched);
    var inner := if Enters(plan, x, depth, a) then WalkKids(kids, n, root, plan, x, 0, depth + 1, a) else Trip([], a);
    if Enters(plan, x, depth, a) {
      WalkKidsOnce(kids, n, root, plan, x, 0, depth + 1, a);
      assert kids[x] == [] ==> inner.events == [];
    }
    Wrapped(n, Low(n, x), x, depth, DownOf(plan, x, depth, a), inner.events,
            UpOf(plan, x, depth, Matches(plan, x, inner.matched)));
  }

  lemma Wrapped(n: Numbers, low: nat, x: nat, depth: nat, a: seq<Event>, mid: seq<Event>, b: seq<Event>)
    requires low <= Post(n, x) && (a == [] || a == [Down(x, depth)]) && (b == [] || b == [Up(x, depth)])
    requires Within(n, low, Post(n, x) - 1, mid) && Distinct(mid)
    ensures Within(n, low, Post(n, x), a + mid + b) && Distinct(a + mid + b)
  {
    hide Post;
    var s := a + mid + b;
    forall i, j {:trigger s[i], s[j]} | 0 <= i < j < |s|
      ensures s[i] != s[j]
    {
      assert |a| <= i < |a| + |mid| ==> s[i] == mid[i - |a|];
      assert |a| <= j < |a| + |mid| ==> s[j] == mid[j - |a|];
    }
  }

  lemma {:induction false} WalkKidsOnce(kids: Kids, n: Numbers, root: nat, plan: Plan, x: nat, i: nat, depth: nat,
                                        matched: bool)
    requires Tree(kids, n, root) && x in kids && i <= |kids[x]|
    ensures var s := WalkKids(kids, n, root, plan, x, i, depth, matched).events;
            && Within(n, if i < |kids[x]| then Low(n, kids[x][i]) else 0, Post(n, x) - 1, s)
            && Distinct(s) && (i == 0 && kids[x] != [] ==> Low(n, kids[x][0]) == Low(n, x))
    decreases Post(n, x), 0, |kids[x]| - i
  {
    hide Low, Post, Level, Walk;
    assert NumberAt(kids, n, root, x);
    if i < |kids[x]| {
      KidBefore(kids, n, root, x, i);
      var first := Walk(kids, n, root, plan, kids[x][i], depth, matched);
      var others := WalkKids(kids, n, root, plan, x, i + 1, depth, first.matched);
      WalkOnce(kids, n, root, plan, kids[x][i], depth, matched);
      WalkKidsOnce(kids, n, root, plan, x, i + 1, depth, first.matched);
      assert NumberKid(kids, n, x, i) && NumberAt(kids, n, root, kids[x][i]);
      assert i + 1 == |kids[x]| ==> others.events == [];
    }
  }

  /** The nodes of a subtree, parents first, as far as `levels` levels go. */
  ghost function Preorder(kids: Kids, n: Numbers, root: nat, x: nat, levels: nat): (r: seq<nat>)
    requires Tree(kids, n, root) && x in kids
    decreases Post(n, x), 1, 0
  {
    if levels == 0 then [] else [x] + PreorderKids(kids, n, root, x, 0, levels - 1)
  }

  ghost function PreorderKids(kids: Kids, n: Numbers, root: nat, x: nat, i: nat, levels: nat): (r: seq<nat>)
    requires Tree(kids, n, root) && x in kids && i <= |kids[x]|
    decreases Post(n, x), 0, |kids[x]| - i
  {
    if i == |kids[x]| || levels == 0 then [] else
    KidBefore(kids, n, root, x, i);
    Preorder(kids, n, root, kids[x][i], levels) + PreorderKids(kids, n, root, x, i + 1, levels)
  }

  /** The nodes of a subtree, children first. */
  ghost function Postorder(kids: Kids, n: Numbers, root: nat, x: nat, levels: nat): (r: seq<nat>)
    requires Tree(kids, n, root) && x in kids
    decreases Post(n, x), 1, 0
  {
    if levels == 0 then [] else PostorderKids(kids, n, root, x, 0, levels - 1) + [x]
  }

  ghost function PostorderKids(kids: Kids, n: Numbers, root: nat, x: nat, i: nat, levels: nat): (r: seq<nat>)
    requires Tree(kids, n, root) && x in kids && i <= |kids[x]|
    decreases Post(n, x), 0, |kids[x]| - i
  {
    if i == |kids[x]| || levels == 0 then [] else
    KidBefore(kids, n, root, x, i);
    Postorder(kids, n, root, kids[x][i], levels) + PostorderKids(kids, n, root, x, i + 1, levels)
  }

  /** The nodes of the callbacks made in one direction. */
  ghost function Nodes(s: seq<Event>, down: bool): (r: seq<nat>) {
    if s == [] then [] else (if s[0].Down? == down then [s[0].node] else []) + Nodes(s[1..], down)
  }

  ghost function Keep(s: seq<nat>, wanted: set<nat>): (r: seq<nat>) {
    if s == [] then [] else (if s[0] in wanted then [s[0]] else []) + Keep(s[1..], wanted)
  }

  lemma {:induction false} NodesConcat(a: seq<Event>, b: seq<Event>, down: bool)
    ensures Nodes(a + b, down) == Nodes(a, down) + Nodes(b, down)
  {
    if a == [] {
      assert a + b == b;
    } else {
      var t, s := a[1..], a + b;
      var head: seq<nat> := if a[0].Down? == down then [a[0].node] else [];
      NodesConcat(t, b, down);
      assert s[0] == a[0] && s[1..] == t + b;
      assert Nodes(s, down) == head + Nodes(t + b, down);
      assert head + (Nodes(t, down) + Nodes(b, down)) == (head + Nodes(t, down)) + Nodes(b, down);
    }
  }

  lemma NodesOne(e: Event, down: bool)
    ensures Nodes([e], down) == if e.Down? == down then [e.node] else []
  {
    assert [e][1..] == [];
  }

  lemma KeepOne(x: nat, wanted: set<nat>)
    ensures Keep([x], wanted) == if x in wanted then [x] else []
  {
    assert [x][1..] == [];
  }

  lemma {:induction false} KeepConcat(a: seq<nat>, b: seq<nat>, wanted: set<nat>)
    ensures Keep(a + b, wanted) == Keep(a, wanted) + Keep(b, wanted)
  {
    if a == [] {
      assert a + b == b;
    } else {
      var t, s := a[1..], a + b;
      var head: seq<nat> := if a[0] in wanted then [a[0]] else [];
      KeepConcat(t, b, wanted);
      assert s[0] == a[0] && s[1..] == t + b;
      assert Keep(s, wanted) == head + Keep(t + b, wanted);
      assert head + (Keep(t, wanted) + Keep(b, wanted)) == (head + Keep(t, wanted)) + Keep(b, wanted);
    }
  }

  /** The callbacks never turn the walk away from a node's children. */
  ghost predicate Continues(plan: Plan) {
    !plan.permanentOnly && (plan.hasDown ==> plan.skip == {})
  }

  // -------------------------------------------------------------------------
  // Visits: a walk that nothing turns away, callback or not

  /** Every node of a subtree once going down and once going up, as deep as asked. */
  ghost function Visits(kids: Kids, n: Numbers, root: nat, x: nat, depth: nat, levels: nat): (r: seq<Event>)
    requires Tree(kids, n, root) && x in kids
    decreases Post(n, x), 1, 0
  {
    if levels == 0 then []
    else [Down(x, depth)] + VisitsKids(kids, n, root, x, 0, depth + 1, levels - 1) + [Up(x, depth)]
  }

  ghost function VisitsKids(kids: Kids, n: Numbers, root: nat, x: nat, i: nat, depth: nat, levels: nat): (r: seq<Event>)
    requires Tree(kids, n, root) && x in kids && i <= |kids[x]|
    decreases Post(n, x), 0, |kids[x]| - i
  {
    if i == |kids[x]| || levels == 0 then [] else
    KidBefore(kids, n, root, x, i);
    Visits(kids, n, root, kids[x][i], depth, levels) + VisitsKids(kids, n, root, x, i + 1, depth, levels)
  }

  /** Going down the visits are a preorder, going up a postorder. */
  lemma {:induction false} VisitsOrder(kids: Kids, n: Numbers, root: nat, x: nat, depth: nat, levels: nat)
    requires Tree(kids, n, root) && x in kids
    ensures var s := Visits(kids, n, root, x, depth, levels);
            Nodes(s, true) == Preorder(kids, n, root, x, levels) &&
              Nodes(s, false) == Postorder(kids, n, root, x, levels)
    decreases Post(n, x), 1, 0
  {
    hide Tree, Post, VisitsKids, PreorderKids, PostorderKids;
    if levels > 0 {
      VisitsKidsOrder(kids, n, root, x, 0, depth + 1, levels - 1);
      Bracketed(x, depth, VisitsKids(kids, n, root, x, 0, depth + 1, levels - 1));
    }
  }

  lemma Bracketed(x: nat, depth: nat, mid: seq<Event>)
    ensures var s := [Down(x, depth)] + mid + [Up(x, depth)];
            Nodes(s, true) == [x] + Nodes(mid, true) && Nodes(s, false) == Nodes(mid, false) + [x]
  {
    var a, b := [Down(x, depth)], [Up(x, depth)];
    NodesOne(a[0], true);
    NodesOne(a[0], false);
    NodesOne(b[0], true);
    NodesOne(b[0], false);
    hide Nodes;
    NodesConcat(a + mid, b, true);
    NodesConcat(a, mid, true);
    NodesConcat(a + mid, b, false);
    NodesConcat(a, mid, false);
  }

  lemma {:induction false} VisitsKidsOrder(kids: Kids, n: Numbers, root: nat, x: nat, i: nat, depth: nat, levels: nat)
    requires Tree(kids, n, root) && x in kids && i <= |kids[x]|
    ensures var s := VisitsKids(kids, n, root, x, i, depth, levels);
            Nodes(s, true) == PreorderKids(kids, n, root, x, i, levels) &&
              Nodes(s, false) == PostorderKids(kids, n, root, x, i, levels)
    decreases Post(n, x), 0, |kids[x]| - i
  {
    hide Visits, Preorder, Postorder, Post, Numbered;
    if i < |kids[x]| && levels > 0 {
      KidBefore(kids, n, root, x, i);
      VisitsOrder(kids, n, root, kids[x][i], depth, levels);
      VisitsKidsOrder(kids, n, root, x, i + 1, depth, levels);
      var a, b := Visits(kids, n, root, kids[x][i], depth, levels), VisitsKids(kids, n, root, x, i + 1, depth, levels);
      NodesConcat(a, b, true);
      NodesConcat(a, b, false);
    }
  }

  /** There is a callback for a visit's direction. */
  ghost predicate Heard(plan: Plan, e: Event) {
    if e.Down? then plan.hasDown else plan.hasUp
  }

  /** The answer of the last test in a row of visits. */
  ghost function Answer(plan: Plan, s: seq<Event>, matched: bool): (r: bool) {
    if s == [] then matched else Matches(plan, s[|s| - 1].node, Answer(plan, s[..|s| - 1], matched))
  }

  /** The visits at which the code makes a callback. */
  ghost function Made(plan: Plan, s: seq<Event>, matched: bool): (r: seq<Event>) {
    if s == [] then []
    else Made(plan, s[..|s| - 1], matched) + if Answer(plan, s, matched) && Heard(plan, s[|s| - 1]) then [s[|s| - 1]]
      else []
  }

  lemma {:induction false} MadeConcat(plan: Plan, a: seq<Event>, b: seq<Event>, matched: bool)
    ensures Answer(plan, a + b, matched) == Answer(plan, b, Answer(plan, a, matched))
    ensures Made(plan, a + b, matched) == Made(plan, a, matched) + Made(plan, b, Answer(plan, a, matched))
    decreases |b|
  {
    hide Matches, Heard;
    if b == [] {
      assert a + b == a;
    } else {
      var s, t, e := a + b, b[..|b| - 1], b[|b| - 1];
      MadeConcat(plan, a, t, matched);
      assert s[..|s| - 1] == a + t && s[|s| - 1] == e;
      var m := Answer(plan, a, matched);
      var one := if Answer(plan, s, matched) && Heard(plan, e) then [e] else [];
      assert Made(plan, s, matched) == Made(plan, a + t, matched) + one;
      assert Made(plan, a, matched) + (Made(plan, t, m) + one) == Made(plan, a, matched) + Made(plan, t, m) + one;
    }
  }

  lemma MadeOne(plan: Plan, e: Event, matched: bool)
    ensures var a := Matches(plan, e.node, matched);
            Answer(plan, [e], matched) == a && Made(plan, [e], matched) == if a && Heard(plan, e) then [e] else []
  {
    assert [e][..0] == [];
  }

  lemma {:induction false} WalkVisits(kids: Kids, n: Numbers, root: nat, plan: Plan, x: nat, depth: nat, matched: bool)
    requires Tree(kids, n, root) && x in kids && Continues(plan) && 1 <= depth <= plan.maxDepth
    ensures var s := Visits(kids, n, root, x, depth, plan.maxDepth - depth + 1);
            Walk(kids, n, root, plan, x, depth, matched) == Trip(Made(plan, s, matched), Answer(plan, s, matched))
    decreases Post(n, x), 1, 0
  {
    hide Tree, Post, Made, Answer, WalkKids, VisitsKids, Matches;
    var a := Matches(plan, x, matched);
    var mid := VisitsKids(kids, n, root, x, 0, depth + 1, plan.maxDepth - depth);
    if depth < plan.maxDepth {
      WalkKidsVisits(kids, n, root, plan, x, 0, depth + 1, a);
    } else {
      NoVisits(kids, n, root, plan, x, 0, depth + 1, a);
    }
    MadeConcat(plan, [Down(x, depth)] + mid, [Up(x, depth)], matched);
    MadeConcat(plan, [Down(x, depth)], mid, matched);
    MadeOne(plan, Down(x, depth), matched);
    MadeOne(plan, Up(x, depth), Answer(plan, mid, a));
  }

  lemma NoVisits(kids: Kids, n: Numbers, root: nat, plan: Plan, x: nat, i: nat, depth: nat, matched: bool)
    requires Tree(kids, n, root) && x in kids && i <= |kids[x]|
    ensures VisitsKids(kids, n, root, x, i, depth, 0) == [] && Made(plan, [], matched) == [] &&
            Answer(plan, [], matched) == matched
  {
  }

  lemma {:induction false} WalkKidsVisits(kids: Kids, n: Numbers, root: nat, plan: Plan, x: nat, i: nat, depth: nat,
                                          matched: bool)
    requires Tree(kids, n, root) && x in kids && i <= |kids[x]| && Continues(plan) && 1 <= depth <= plan.maxDepth
    ensures var s := VisitsKids(kids, n, root, x, i, depth, plan.maxDepth - depth + 1);
            WalkKids(kids, n, root, plan, x, i, depth, matched) ==
              Trip(Made(plan, s, matched), Answer(plan, s, matched))
    decreases Post(n, x), 0, |kids[x]| - i
  {
    hide Walk, Visits, Post, Numbered, Matches;
    if i < |kids[x]| {
      var levels := plan.maxDepth - depth + 1;
      KidBefore(kids, n, root, x, i);
      var a, b := Visits(kids, n, root, kids[x][i], depth, levels), VisitsKids(kids, n, root, x, i + 1, depth, levels);
      WalkVisits(kids, n, root, plan, kids[x][i], depth, matched);
      WalkKidsVisits(kids, n, root, plan, x, i + 1, depth, Answer(plan, a, matched));
      MadeConcat(plan, a, b, matched);
    }
  }

  // -------------------------------------------------------------------------
  // Nodes without an object

  /** The visits to nodes of a wanted type. */
  ghost function Due(plan: Plan, s: seq<Event>): (r: seq<Event>) {
    if s == [] then []
    else
      var e := s[|s| - 1];
      Due(plan, s[..|s| - 1]) + if Heard(plan, e) && e.node in plan.objects * plan.wanted then [e] else []
  }

  /** The `i`th visit is to a wanted node and none after it, up to the `j`th, is to a node with an object. */
  ghost predicate Carries(plan: Plan, s: seq<Event>, i: int, j: int)
    requires 0 <= i <= j < |s|
  {
    s[i].node in plan.objects * plan.wanted && forall k {:trigger s[k]} :: i < k <= j ==> s[k].node !in plan.objects
  }

  /** Of the nodes with an object, the last one visited up to the `j`th visit is wanted. */
  ghost predicate Carried(plan: Plan, s: seq<Event>, j: int)
    requires 0 <= j < |s|
  {
    exists i {:trigger Carries(plan, s, i, j)} :: 0 <= i <= j && Carries(plan, s, i, j)
  }

  /**
   No visit with a callback to a node without an object comes when the last one to a node with one was to a wanted
   node.
   */
  ghost predicate Undisturbed(plan: Plan, s: seq<Event>) {
    forall j {:trigger Carried(plan, s, j)} :: 0 <= j < |s| && Heard(plan, s[j]) && s[j].node !in plan.objects ==>
      !Carried(plan, s, j)
  }

  lemma CarriedPrefix(plan: Plan, s: seq<Event>, t: seq<Event>, j: int)
    requires t <= s && 0 <= j < |t|
    ensures Carried(plan, s, j) == Carried(plan, t, j)
  {
    forall i | 0 <= i <= j
      ensures Carries(plan, s, i, j) == Carries(plan, t, i, j)
    {
      assert Carries(plan, t, i, j) ==> forall k {:trigger s[k]} :: i < k <= j ==> s[k] == t[k];
      assert Carries(plan, s, i, j) ==> forall k {:trigger t[k]} :: i < k <= j ==> s[k] == t[k];
    }
  }

  lemma CarriedStep(plan: Plan, s: seq<Event>, j: int)
    requires 0 <= j < |s|
    ensures Carried(plan, s, j) == if s[j].node in plan.objects then s[j].node in plan.wanted
            else j > 0 && Carried(plan, s, j - 1)
  {
    if s[j].node in plan.objects {
      assert s[j].node in plan.wanted ==> Carries(plan, s, j, j);
    } else if Carried(plan, s, j) {
      var i :| 0 <= i <= j && Carries(plan, s, i, j);
      assert Carries(plan, s, i, j - 1);
    } else if j > 0 && Carried(plan, s, j - 1) {
      var i :| 0 <= i <= j - 1 && Carries(plan, s, i, j - 1);
      assert Carries(plan, s, i, j);
    }
  }

  lemma {:induction false} AnswerMeans(plan: Plan, s: seq<Event>, j: int)
    requires |s| == j + 1 > 0
    ensures Answer(plan, s, false) == Carried(plan, s, j)
  {
    hide Carried;
    CarriedStep(plan, s, j);
    if j > 0 {
      AnswerMeans(plan, s[..j], j - 1);
      CarriedPrefix(plan, s, s[..j], j - 1);
    }
  }

  /** Wanted nodes are never passed over; others are called for exactly if a visit is disturbed. */
  lemma {:induction false} MadeDue(plan: Plan, s: seq<Event>)
    ensures |Due(plan, s)| <= |Made(plan, s, false)|
    ensures Made(plan, s, false) == Due(plan, s) <==> Undisturbed(plan, s)
    ensures !Undisturbed(plan, s) ==> |Due(plan, s)| < |Made(plan, s, false)|
  {
    hide Carried;
    if s != [] {
      var j := |s| - 1;
      MadeDue(plan, s[..j]);
      AnswerMeans(plan, s, j);
      CarriedStep(plan, s, j);
      UndisturbedStep(plan, s, j);
    }
  }

  lemma UndisturbedStep(plan: Plan, s: seq<Event>, j: int)
    requires |s| == j + 1 > 0
    ensures Undisturbed(plan, s) <==>
            Undisturbed(plan, s[..j]) && !(Heard(plan, s[j]) && s[j].node !in plan.objects && Carried(plan, s, j))
  {
    hide Carried;
    var t := s[..j];
    forall k | 0 <= k < j
      ensures Carried(plan, s, k) == Carried(plan, t, k)
    {
      CarriedPrefix(plan, s, t, k);
    }
  }

  /** The nodes one of the callbacks, if there is one, is to be made for. */
  ghost function For(plan: Plan, down: bool): (r: set<nat>) {
    if (if down then plan.hasDown else plan.hasUp) then plan.objects * plan.wanted else {}
  }

  lemma {:induction false} DueNodes(plan: Plan, s: seq<Event>, down: bool)
    ensures Nodes(Due(plan, s), down) == Keep(Nodes(s, down), For(plan, down))
  {
    if s != [] {
      var t, e := s[..|s| - 1], s[|s| - 1];
      DueNodes(plan, t, down);
      DueOne(plan, e, down);
      var one := if Heard(plan, e) && e.node in plan.objects * plan.wanted then [e] else [];
      hide Nodes, Keep, For, Heard;
      NodesConcat(Due(plan, t), one, down);
      NodesConcat(t, [e], down);
      assert t + [e] == s;
      KeepConcat(Nodes(t, down), Nodes([e], down), For(plan, down));
    }
  }

  lemma DueOne(plan: Plan, e: Event, down: bool)
    ensures Nodes(if Heard(plan, e) && e.node in plan.objects * plan.wanted then [e] else [], down) ==
            Keep(Nodes([e], down), For(plan, down))
  {
    NodesOne(e, down);
    KeepOne(e.node, For(plan, down));
  }

  lemma {:induction false} NodesSplit(s: seq<Event>)
    ensures |Nodes(s, true)| + |Nodes(s, false)| == |s|
  {
    if s != [] {
      NodesSplit(s[1..]);
    }
  }

  /**
   A walk that nothing stops or turns away, with either callback or both: the wanted nodes below the start, as deep as
   asked, in preorder going down and in postorder going up, if and only if it is undisturbed.
   */
  method ForEachInOrder(ns: Namespace, start: nat, plan: Plan) returns (trace: seq<Event>)
    requires ns.Valid() && start in ns.kids && 0 < plan.maxDepth && (plan.hasDown || plan.hasUp)
    requires Continues(plan) && plan.stopDown == {} && plan.stopUp == {}
    ensures Tree(ns.kids, ns.numbers, ns.root)
    ensures Undisturbed(plan, VisitsKids(ns.kids, ns.numbers, ns.root, start, 0, 1, plan.maxDepth)) <==>
            && Nodes(trace, true) ==
               Keep(PreorderKids(ns.kids, ns.numbers, ns.root, start, 0, plan.maxDepth), For(plan, true))
            && Nodes(trace, false) ==
               Keep(PostorderKids(ns.kids, ns.numbers, ns.root, start, 0, plan.maxDepth), For(plan, false))
  {
    var ok;
    NullOut(ns.kids, ns.child, ns.next, ns.parent, ns.pos, ns.root);
    hide Linked, Numbered, Tree, Nodes, Keep, WalkKids, VisitsKids, PreorderKids, PostorderKids, Made, Due, Undisturbed;
    ok, trace := ForEachChild(ns, start, plan);
    CutWhole(plan, WalkKids(ns.kids, ns.numbers, ns.root, plan, start, 0, 1, false).events);
    WalkKidsVisits(ns.kids, ns.numbers, ns.root, plan, start, 0, 1, false);
    ghost var s := VisitsKids(ns.kids, ns.numbers, ns.root, start, 0, 1, plan.maxDepth);
    VisitsKidsOrder(ns.kids, ns.numbers, ns.root, start, 0, 1, plan.maxDepth);
    MadeDue(plan, s);
    DueNodes(plan, s, true);
    DueNodes(plan, s, false);
    NodesSplit(trace);
    NodesSplit(Due(plan, s));
  }

  /** If every node has an object, nothing is disturbed. */
  lemma ObjectsUndisturbed(kids: Kids, n: Numbers, root: nat, plan: Plan, x: nat, levels: nat)
    requires Tree(kids, n, root) && x in kids && kids.Keys <= plan.objects
    ensures Undisturbed(plan, VisitsKids(kids, n, root, x, 0, 1, levels))
  {
    var s := VisitsKids(kids, n, root, x, 0, 1, levels);
    VisitsKidsIn(kids, n, root, x, 0, 1, levels);
  }

  lemma {:induction false} VisitsIn(kids: Kids, n: Numbers, root: nat, x: nat, depth: nat, levels: nat)
    requires Tree(kids, n, root) && x in kids
    ensures forall i {:trigger Visits(kids, n, root, x, depth, levels)[i]} ::
            0 <= i < |Visits(kids, n, root, x, depth, levels)| ==>
              Visits(kids, n, root, x, depth, levels)[i].node in kids
    decreases Post(n, x), 1, 0
  {
    if levels > 0 {
      VisitsKidsIn(kids, n, root, x, 0, depth + 1, levels - 1);
    }
  }

  lemma {:induction false} VisitsKidsIn(kids: Kids, n: Numbers, root: nat, x: nat, i: nat, depth: nat, levels: nat)
    requires Tree(kids, n, root) && x in kids && i <= |kids[x]|
    ensures forall k {:trigger VisitsKids(kids, n, root, x, i, depth, levels)[k]} ::
            0 <= k < |VisitsKids(kids, n, root, x, i, depth, levels)| ==>
              VisitsKids(kids, n, root, x, i, depth, levels)[k].node in kids
    decreases Post(n, x), 0, |kids[x]| - i
  {
    hide Visits;
    if i < |kids[x]| && levels > 0 {
      KidBefore(kids, n, root, x, i);
      VisitsIn(kids, n, root, kids[x][i], depth, levels);
      VisitsKidsIn(kids, n, root, x, i + 1, depth, levels);
    }
  }

  lemma NullOut(kids: Kids, child: links, next: links, parent: links, pos: links, root: nat)
    requires Linked(kids, child, next, parent, pos, root)
    ensures NULL !in kids
  {
  }

  /** A wanted node followed by one without an object. */
  ghost function Pair(): (r: Kids) {
    map[1 := [2, 3], 2 := [], 3 := []]
  }

  ghost function PairNumbers(): (r: Numbers) {
    Numbers(map[1 := 2, 2 := 0, 3 := 1], map[1 := 0, 2 := 0, 3 := 1], map[1 := 0, 2 := 1, 3 := 1])
  }

  lemma PairTree()
    ensures Tree(Pair(), PairNumbers(), 1)
  {
    var kids, n := Pair(), PairNumbers();
    assert kids[1] == [2, 3] && kids[2] == [] && kids[3] == [];
    assert Post(n, 1) == 2 && Post(n, 2) == 0 && Post(n, 3) == 1;
    assert Low(n, 1) == 0 && Low(n, 2) == 0 && Low(n, 3) == 1;
    assert Level(n, 1) == 0 && Level(n, 2) == 1 && Level(n, 3) == 1;
    assert kids.Keys == n.post.Keys == n.low.Keys == n.level.Keys == {1, 2, 3};
    hide Pair, PairNumbers, Post, Low, Level;
  }

  /** The descending callback is made for both. */
  lemma CalledUnwanted()
    ensures var plan := Plan(true, false, 1, false, {1, 2}, {2}, {}, {}, {}, {});
            && Tree(Pair(), PairNumbers(), 1)
            && WalkKids(Pair(), PairNumbers(), 1, plan, 1, 0, 1, false).events == [Down(2, 1), Down(3, 1)]
  {
    PairTree();
    hide Tree, PairNumbers, Post;
    var kids, n, plan := Pair(), PairNumbers(), Plan(true, false, 1, false, {1, 2}, {2}, {}, {}, {}, {});
    assert Walk(kids, n, 1, plan, 2, 1, false) == Trip([Down(2, 1)], true);
    assert Walk(kids, n, 1, plan, 3, 1, true) == Trip([Down(3, 1)], true);
    assert WalkKids(kids, n, 1, plan, 1, 2, 1, true) == Trip([], true);
    assert WalkKids(kids, n, 1, plan, 1, 1, 1, true) == Trip([Down(3, 1)], true);
    assert WalkKids(kids, n, 1, plan, 1, 0, 1, false) == Trip([Down(2, 1)] + [Down(3, 1)], true);
  }
}
