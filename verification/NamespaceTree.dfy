/**
 The ACPI namespace (src/uacpi/namespace.c): nodes with child, peer and parent links that form an ordered tree.
 Install appends a node to its parent's children, uninstall takes a childless one out, and the teardown at the
 end removes every node but the root without recursion.
 */
module NamespaceTree {

  const NULL: nat := 0

  type links = map<nat, nat>

  // -------------------------------------------------------------------------
  // Links

  /** Children in order, for every node of the tree. */
  type Kids = map<nat, seq<nat>>

  /** A node's child link leads to its first child. */
  ghost predicate ChildAt(kids: Kids, child: links, x: nat)
    requires x in kids
  {
    x in child && child[x] == if kids[x] == [] then NULL else kids[x][0]
  }

  /** A node knows its parent and its next peer. */
  ghost predicate PeerAt(kids: Kids, next: links, parent: links, pos: links, root: nat, x: nat, i: nat)
    requires x in kids && i < |kids[x]|
  {
    var y := kids[x][i];
    && y in kids && y != root && y in parent && y in next && y in pos
    && parent[y] == x && pos[y] == i && next[y] == if i + 1 < |kids[x]| then kids[x][i + 1] else NULL
  }

  /** Every node but the root is some child of its parent. */
  ghost predicate HomeAt(kids: Kids, parent: links, pos: links, y: nat)
    requires y in kids
  {
    y in parent && y in pos && parent[y] in kids && pos[y] < |kids[parent[y]]| && kids[parent[y]][pos[y]] == y
  }

  ghost predicate Linked(kids: Kids, child: links, next: links, parent: links, pos: links, root: nat) {
    && NULL !in kids && root in kids && root in parent && parent[root] == NULL
    && (forall x {:trigger ChildAt(kids, child, x)} :: x in kids ==> ChildAt(kids, child, x))
    && (forall x, i: nat {:trigger PeerAt(kids, next, parent, pos, root, x, i)} :: x in kids && i < |kids[x]| ==>
        PeerAt(kids, next, parent, pos, root, x, i))
    && (forall y {:trigger HomeAt(kids, parent, pos, y)} :: y in kids && y != root ==> HomeAt(kids, parent, pos, y))
  }

  // -------------------------------------------------------------------------
  // Numbering: a tree has a postorder

  /**
   `post` numbers the nodes so that children come before their parent and in order; `low` is the smallest number
   at or below a node, and `level` its distance from the root.
   */
  datatype Numbers = Numbers(post: links, low: links, level: links)

  ghost function Post(n: Numbers, x: nat): (r: nat) {
    if x in n.post then n.post[x] else 0
  }

  ghost function Low(n: Numbers, x: nat): (r: nat) {
    if x in n.low then n.low[x] else 0
  }

  ghost function Level(n: Numbers, x: nat): (r: nat) {
    if x in n.level then n.level[x] else 0
  }

  ghost predicate NumberAt(kids: Kids, n: Numbers, root: nat, x: nat)
    requires x in kids
  {
    && Low(n, x) <= Post(n, x) <= Post(n, root)
    && (if kids[x] == [] then Post(n, x) == Low(n, x)
        else Post(n, x) == Post(n, kids[x][|kids[x]| - 1]) + 1 && Low(n, x) == Low(n, kids[x][0]))
  }

  ghost predicate NumberKid(kids: Kids, n: Numbers, x: nat, i: nat)
    requires x in kids && i < |kids[x]|
  {
    && Level(n, kids[x][i]) == Level(n, x) + 1
    && (i + 1 < |kids[x]| ==> Low(n, kids[x][i + 1]) == Post(n, kids[x][i]) + 1)
  }

  ghost predicate Numbered(kids: Kids, n: Numbers, root: nat) {
    && (forall x {:trigger NumberAt(kids, n, root, x)} :: x in kids ==> NumberAt(kids, n, root, x))
    && (forall x, i: nat {:trigger NumberKid(kids, n, x, i)} :: x in kids && i < |kids[x]| ==> NumberKid(kids, n, x, i))
    && (forall x, y {:trigger Post(n, x), Post(n, y)} :: x in kids && y in kids && Post(n, x) == Post(n, y) ==> x == y)
    && Level(n, root) == 0 && Low(n, root) == 0 && kids.Keys <= n.post.Keys && kids.Keys <= n.low.Keys &&
       kids.Keys <= n.level.Keys
  }

  ghost predicate Closed(kids: Kids) {
    forall x, i {:trigger kids[x][i]} :: x in kids && 0 <= i < |kids[x]| ==> kids[x][i] in kids
  }

  // -------------------------------------------------------------------------
  // Installing

  ghost function WithKid(kids: Kids, p: nat, node: nat): (r: Kids)
    requires p in kids
    ensures r.Keys == kids.Keys + {node}
  {
    kids[p := kids[p] + [node]][node := []]
  }

  lemma InstallLinked(kids: Kids, child: links, next: links, parent: links, pos: links, root: nat, p: nat, node: nat)
    requires Linked(kids, child, next, parent, pos, root)
    requires p in kids && node !in kids && node != NULL && node in child && node in next && child[node] == NULL &&
             next[node] == NULL
    ensures var c := if kids[p] == [] then child[p := node] else child;
            var n := if kids[p] == [] then next else next[kids[p][|kids[p]| - 1] := node];
            Linked(WithKid(kids, p, node), c, n, parent[node := p], pos[node := |kids[p]|], root)
  {
    var c := if kids[p] == [] then child[p := node] else child;
    var n := if kids[p] == [] then next else next[kids[p][|kids[p]| - 1] := node];
    var k, u, o := WithKid(kids, p, node), parent[node := p], pos[node := |kids[p]|];
    if kids[p] != [] {
      assert PeerAt(kids, next, parent, pos, root, p, |kids[p]| - 1);
    }
    forall x {:trigger ChildAt(k, c, x)} | x in k
      ensures ChildAt(k, c, x)
    {
      assert x != node ==> ChildAt(kids, child, x);
    }
    forall x, i: nat {:trigger PeerAt(k, n, u, o, root, x, i)} | x in k && i < |k[x]|
      ensures PeerAt(k, n, u, o, root, x, i)
    {
      if x != node && i < |kids[x]| {
        assert PeerAt(kids, next, parent, pos, root, x, i);
        SameKid(kids, next, parent, pos, root, x, i, p, |kids[p]| - 1);
      }
    }
    forall y {:trigger HomeAt(k, u, o, y)} | y in k && y != root
      ensures HomeAt(k, u, o, y)
    {
      assert y != node ==> HomeAt(kids, parent, pos, y);
    }
  }

  /** No node is a child twice. */
  lemma SameKid(kids: Kids, next: links, parent: links, pos: links, root: nat, x: nat, i: nat, p: nat, j: int)
    requires x in kids && i < |kids[x]| && p in kids && PeerAt(kids, next, parent, pos, root, x, i)
    requires forall x, i: nat {:trigger PeerAt(kids, next, parent, pos, root, x, i)} :: x in kids && i < |kids[x]| ==>
             PeerAt(kids, next, parent, pos, root, x, i)
    ensures 0 <= j < |kids[p]| && kids[x][i] == kids[p][j] ==> x == p && i == j
  {
    if 0 <= j < |kids[p]| {
      assert PeerAt(kids, next, parent, pos, root, p, j);
    }
  }

  /** The new node takes its parent's number, and everything from there on moves up by one. */
  ghost function NumbersWith(n: Numbers, p: nat, node: nat): (r: Numbers)
    requires p in n.post && p in n.level
    ensures r.post.Keys == n.post.Keys + {node} && r.low.Keys == n.low.Keys + {node} &&
            r.level.Keys == n.level.Keys + {node}
  {
    var q := n.post[p];
    Numbers((map x | x in n.post :: if n.post[x] >= q then n.post[x] + 1 else n.post[x])[node := q],
            (map x | x in n.low :: if n.low[x] > q then n.low[x] + 1 else n.low[x])[node := q],
            n.level[node := n.level[p] + 1])
  }

  lemma RenumberedAt(n: Numbers, p: nat, node: nat, x: nat)
    requires p in n.post && p in n.level && x in n.post && x in n.low && x in n.level
    ensures var m := NumbersWith(n, p, node);
            if x == node then Post(m, x) == Post(n, p) && Low(m, x) == Post(n, p) && Level(m, x) == Level(n, p) + 1
            else && Post(m, x) == (if Post(n, x) >= Post(n, p) then Post(n, x) + 1 else Post(n, x))
                 && Low(m, x) == (if Low(n, x) > Post(n, p) then Low(n, x) + 1 else Low(n, x))
                 && Level(m, x) == Level(n, x)
    ensures var m := NumbersWith(n, p, node);
            Post(m, node) == Post(n, p) && Low(m, node) == Post(n, p) && Level(m, node) == Level(n, p) + 1
  {
  }

  lemma InstallNumberAt(kids: Kids, n: Numbers, root: nat, p: nat, node: nat, x: nat)
    requires Numbered(kids, n, root) && root in kids && p in kids && node !in kids && x in kids
    requires Closed(kids)
    ensures NumberAt(WithKid(kids, p, node), NumbersWith(n, p, node), root, x)
    ensures NumberAt(WithKid(kids, p, node), NumbersWith(n, p, node), root, node)
  {
    hide NumbersWith, Post, Low, Level;
    RenumberedAt(n, p, node, p);
    RenumberedAt(n, p, node, root);
    RenumberedAt(n, p, node, x);
    assert NumberAt(kids, n, root, p) && NumberAt(kids, n, root, x);
    assert Post(n, x) == Post(n, p) ==> x == p;
    if kids[x] != [] {
      RenumberedAt(n, p, node, kids[x][0]);
      RenumberedAt(n, p, node, kids[x][|kids[x]| - 1]);
    }
  }

  lemma InstallNumberKid(kids: Kids, n: Numbers, root: nat, p: nat, node: nat, x: nat, i: nat)
    requires Numbered(kids, n, root) && root in kids && p in kids && node !in kids && x in kids &&
             i < |WithKid(kids, p, node)[x]|
    requires Closed(kids)
    ensures NumberKid(WithKid(kids, p, node), NumbersWith(n, p, node), x, i)
  {
    hide NumbersWith, Post, Low, Level;
    RenumberedAt(n, p, node, p);
    RenumberedAt(n, p, node, x);
    assert NumberAt(kids, n, root, p);
    if i < |kids[x]| {
      assert NumberKid(kids, n, x, i);
      RenumberedAt(n, p, node, kids[x][i]);
      if i + 1 < |kids[x]| {
        RenumberedAt(n, p, node, kids[x][i + 1]);
      }
    }
  }

  lemma InstallNumbered(kids: Kids, n: Numbers, root: nat, p: nat, node: nat)
    requires Numbered(kids, n, root) && root in kids && p in kids && node !in kids
    requires Closed(kids)
    ensures Numbered(WithKid(kids, p, node), NumbersWith(n, p, node), root)
  {
    hide NumbersWith, Post, Low, Level, NumberAt, NumberKid;
    var k, m := WithKid(kids, p, node), NumbersWith(n, p, node);
    forall x {:trigger NumberAt(k, m, root, x)} | x in k
      ensures NumberAt(k, m, root, x)
    {
      InstallNumberAt(kids, n, root, p, node, if x == node then p else x);
    }
    forall x, i: nat {:trigger NumberKid(k, m, x, i)} | x in k && i < |k[x]|
      ensures NumberKid(k, m, x, i)
    {
      InstallNumberKid(kids, n, root, p, node, x, i);
    }
    RenumberedAt(n, p, node, root);
    forall x, y {:trigger Post(m, x), Post(m, y)} | x in k && y in k && Post(m, x) == Post(m, y)
      ensures x == y
    {
      RenumberedAt(n, p, node, if x == node then p else x);
      RenumberedAt(n, p, node, if y == node then p else y);
    }
  }

  // -------------------------------------------------------------------------
  // Uninstalling

  ghost function WithoutKid(kids: Kids, p: nat, i: nat): (r: Kids)
    requires p in kids && i < |kids[p]|
    ensures r.Keys == kids.Keys + {p} - {kids[p][i]}
  {
    kids[p := kids[p][..i] + kids[p][i + 1..]] - {kids[p][i]}
  }

  ghost function PosWithout(parent: links, pos: links, p: nat, i: nat): (r: links) {
    map y | y in pos :: if y in parent && parent[y] == p && pos[y] > i then pos[y] - 1 else pos[y]
  }

  lemma UninstallLinked(kids: Kids, child: links, next: links, parent: links, pos: links, root: nat, p: nat, i: nat)
    requires Linked(kids, child, next, parent, pos, root) && p in kids && i < |kids[p]|
    requires kids[p][i] in kids && kids[kids[p][i]] == [] && kids[p][i] in next
    ensures var after := next[kids[p][i]];
            var c := if i == 0 then child[p := after] else child;
            var n := if i == 0 then next else next[kids[p][i - 1] := after];
            Linked(WithoutKid(kids, p, i), c, n, parent, PosWithout(parent, pos, p, i), root)
  {
    var node := kids[p][i];
    var c := if i == 0 then child[p := next[node]] else child;
    var n := if i == 0 then next else next[kids[p][i - 1] := next[node]];
    var k, o := WithoutKid(kids, p, i), PosWithout(parent, pos, p, i);
    assert PeerAt(kids, next, parent, pos, root, p, i);
    forall x {:trigger ChildAt(k, c, x)} | x in k
      ensures ChildAt(k, c, x)
    {
      assert ChildAt(kids, child, x);
    }
    forall x, j: nat {:trigger PeerAt(k, n, parent, o, root, x, j)} | x in k && j < |k[x]|
      ensures PeerAt(k, n, parent, o, root, x, j)
    {
      UninstallPeer(kids, next, parent, pos, root, p, i, x, j);
    }
    forall y {:trigger HomeAt(k, parent, o, y)} | y in k && y != root
      ensures HomeAt(k, parent, o, y)
    {
      assert HomeAt(kids, parent, pos, y);
    }
  }

  lemma UninstallPeer(kids: Kids, next: links, parent: links, pos: links, root: nat, p: nat, i: nat, x: nat, j: nat)
    requires p in kids && i < |kids[p]| && kids[p][i] in kids && kids[p][i] in next && kids[kids[p][i]] == []
    requires forall x, i: nat {:trigger PeerAt(kids, next, parent, pos, root, x, i)} :: x in kids && i < |kids[x]| ==>
             PeerAt(kids, next, parent, pos, root, x, i)
    requires x in WithoutKid(kids, p, i) && j < |WithoutKid(kids, p, i)[x]|
    ensures PeerAt(WithoutKid(kids, p, i), if i == 0 then next else next[kids[p][i - 1] := next[kids[p][i]]], parent,
                   PosWithout(parent, pos, p, i), root, x, j)
  {
    assert PeerAt(kids, next, parent, pos, root, p, i);
    if i > 0 {
      assert PeerAt(kids, next, parent, pos, root, p, i - 1);
    }
    var j0 := if x == p && j >= i then j + 1 else j;
    assert PeerAt(kids, next, parent, pos, root, x, j0);
    if j0 + 1 < |kids[x]| {
      assert PeerAt(kids, next, parent, pos, root, x, j0 + 1);
    }
  }

  /** Everything after the removed node moves down by one. */
  ghost function NumbersWithout(n: Numbers, node: nat): (r: Numbers)
    requires node in n.post
    ensures r.post.Keys == n.post.Keys && r.low.Keys == n.low.Keys && r.level.Keys == n.level.Keys
  {
    var q := n.post[node];
    Numbers(map x | x in n.post :: if n.post[x] > q then n.post[x] - 1 else n.post[x],
            map x | x in n.low :: if n.low[x] > q then n.low[x] - 1 else n.low[x], n.level)
  }

  lemma LoweredAt(n: Numbers, node: nat, x: nat)
    requires node in n.post && x in n.post && x in n.low && x in n.level
    ensures var m := NumbersWithout(n, node);
            && Post(m, x) == (if Post(n, x) > Post(n, node) then Post(n, x) - 1 else Post(n, x))
            && Low(m, x) == (if Low(n, x) > Post(n, node) then Low(n, x) - 1 else Low(n, x))
            && Level(m, x) == Level(n, x)
  {
  }

  /** A child of one parent, in one place. */
  ghost predicate Once(kids: Kids, p: nat, i: nat)
    requires p in kids && i < |kids[p]|
  {
    forall x, j {:trigger kids[x][j]} :: x in kids && 0 <= j < |kids[x]| && kids[x][j] == kids[p][i] ==>
      x == p && j == i
  }

  lemma UninstallNumberAt(kids: Kids, n: Numbers, root: nat, p: nat, i: nat, x: nat)
    requires Numbered(kids, n, root) && Closed(kids) && root in kids && p in kids && i < |kids[p]| &&
             kids[kids[p][i]] == []
    requires x in WithoutKid(kids, p, i) && kids[p][i] != root && Once(kids, p, i) && x != p
    ensures NumberAt(WithoutKid(kids, p, i), NumbersWithout(n, kids[p][i]), root, x)
  {
    hide NumbersWithout, Post, Low, Level;
    var node := kids[p][i];
    LoweredAt(n, node, root);
    LoweredAt(n, node, x);
    assert NumberAt(kids, n, root, x) && NumberAt(kids, n, root, node);
    assert Post(n, x) == Post(n, node) ==> x == node;
    if kids[x] != [] {
      var first, last := kids[x][0], kids[x][|kids[x]| - 1];
      LoweredAt(n, node, first);
      LoweredAt(n, node, last);
      assert NumberAt(kids, n, root, last);
      assert Post(n, last) == Post(n, node) ==> last == node;
    }
  }

  lemma UninstallParentAt(kids: Kids, n: Numbers, root: nat, p: nat, i: nat)
    requires Numbered(kids, n, root) && Closed(kids) && root in kids && p in kids && i < |kids[p]| &&
             kids[kids[p][i]] == []
    requires p in WithoutKid(kids, p, i) && kids[p][i] != root && Once(kids, p, i)
    ensures NumberAt(WithoutKid(kids, p, i), NumbersWithout(n, kids[p][i]), root, p)
  {
    hide NumbersWithout, Post, Low, Level;
    var node, c, last := kids[p][i], kids[p], |kids[p]| - 1;
    LoweredAt(n, node, root);
    LoweredAt(n, node, p);
    LoweredAt(n, node, c[0]);
    LoweredAt(n, node, c[last]);
    assert NumberAt(kids, n, root, p) && NumberAt(kids, n, root, node) && NumberAt(kids, n, root, c[last]);
    assert Post(n, p) == Post(n, node) ==> p == node;
    var y := c[last];
    assert Post(n, y) == Post(n, node) ==> y == node;
    if last > 0 {
      LoweredAt(n, node, c[1]);
      LoweredAt(n, node, c[last - 1]);
      assert NumberKid(kids, n, p, 0) && NumberKid(kids, n, p, last - 1);
    }
  }

  lemma UninstallNumberKid(kids: Kids, n: Numbers, root: nat, p: nat, i: nat, x: nat, j: nat)
    requires Numbered(kids, n, root) && Closed(kids) && p in kids && i < |kids[p]| && kids[kids[p][i]] == [] &&
             Once(kids, p, i)
    requires x in WithoutKid(kids, p, i) && j < |WithoutKid(kids, p, i)[x]|
    ensures NumberKid(WithoutKid(kids, p, i), NumbersWithout(n, kids[p][i]), x, j)
  {
    hide NumbersWithout, Post, Low, Level;
    var node := kids[p][i];
    var j0 := if x == p && j >= i then j + 1 else j;
    LoweredAt(n, node, x);
    LoweredAt(n, node, kids[x][j0]);
    assert NumberKid(kids, n, x, j0) && NumberAt(kids, n, root, kids[x][j0]) && NumberAt(kids, n, root, node);
    var y := kids[x][j0];
    assert Post(n, y) == Post(n, node) ==> y == node;
    if j0 + 1 < |kids[x]| {
      LoweredAt(n, node, kids[x][j0 + 1]);
      if x == p && j0 + 1 == i && i + 1 < |kids[p]| {
        LoweredAt(n, node, kids[p][i + 1]);
        assert NumberKid(kids, n, p, i);
      }
    }
  }

  lemma UninstallNumbered(kids: Kids, n: Numbers, root: nat, p: nat, i: nat)
    requires Numbered(kids, n, root) && Closed(kids) && root in kids && p in kids && i < |kids[p]| &&
             kids[kids[p][i]] == []
    requires kids[p][i] != root && Once(kids, p, i)
    ensures Numbered(WithoutKid(kids, p, i), NumbersWithout(n, kids[p][i]), root)
  {
    hide NumbersWithout, Post, Low, Level, NumberAt, NumberKid;
    var k, m, node := WithoutKid(kids, p, i), NumbersWithout(n, kids[p][i]), kids[p][i];
    forall x {:trigger NumberAt(k, m, root, x)} | x in k
      ensures NumberAt(k, m, root, x)
    {
      if x == p {
        UninstallParentAt(kids, n, root, p, i);
      } else {
        UninstallNumberAt(kids, n, root, p, i, x);
      }
    }
    forall x, j: nat {:trigger NumberKid(k, m, x, j)} | x in k && j < |k[x]|
      ensures NumberKid(k, m, x, j)
    {
      UninstallNumberKid(kids, n, root, p, i, x, j);
    }
    LoweredAt(n, node, root);
    forall x, y {:trigger Post(m, x), Post(m, y)} | x in k && y in k && Post(m, x) == Post(m, y)
      ensures x == y
    {
      LoweredAt(n, node, x);
      LoweredAt(n, node, y);
      assert Post(n, x) == Post(n, node) ==> x == node;
      assert Post(n, y) == Post(n, node) ==> y == node;
    }
  }

  lemma LinkedClosed(kids: Kids, child: links, next: links, parent: links, pos: links, root: nat)
    requires Linked(kids, child, next, parent, pos, root)
    ensures Closed(kids)
  {
    forall x, i {:trigger kids[x][i]} | x in kids && 0 <= i < |kids[x]|
      ensures kids[x][i] in kids
    {
      assert PeerAt(kids, next, parent, pos, root, x, i);
    }
  }

  lemma LinkedOnce(kids: Kids, child: links, next: links, parent: links, pos: links, root: nat, p: nat, i: nat)
    requires Linked(kids, child, next, parent, pos, root) && p in kids && i < |kids[p]|
    ensures Once(kids, p, i)
  {
    assert PeerAt(kids, next, parent, pos, root, p, i);
    forall x, j {:trigger kids[x][j]} | x in kids && 0 <= j < |kids[x]| && kids[x][j] == kids[p][i]
      ensures x == p && j == i
    {
      assert PeerAt(kids, next, parent, pos, root, x, j);
    }
  }

  // -------------------------------------------------------------------------
  // The namespace

  datatype Status = Ok | NodeDangling | InternalError | Denied

  class Namespace {
    const root: nat
    var child: links
    var next: links
    var parent: links
    var dangling: set<nat>
    ghost var kids: Kids
    ghost var pos: links
    ghost var numbers: Numbers

    ghost predicate Valid()
      reads this
    {
      && Linked(kids, child, next, parent, pos, root) && Numbered(kids, numbers, root)
      && dangling !! kids.Keys
    }

    /** A namespace with nothing but its root. */
    constructor (root: nat)
      requires root != NULL
      ensures Valid() && this.root == root && kids == map[root := []] && dangling == {}
    {
      this.root := root;
      child, next, parent := map[root := NULL], map[root := NULL], map[root := NULL];
      dangling := {};
      kids, pos := map[root := []], map[];
      numbers := Numbers(map[root := 0], map[root := 0], map[root := 0]);
    }

    /** The search for the last child in `uacpi_namespace_node_install`. */
    method LastKid(p: nat) returns (prev: nat)
      requires Linked(kids, child, next, parent, pos, root) && p in kids && kids[p] != []
      ensures prev == kids[p][|kids[p]| - 1]
    {
      hide Linked;
      ChildFact(kids, child, next, parent, pos, root, p);
      prev := child[p];
      ghost var i := 0;
      PeerFact(kids, child, next, parent, pos, root, p, 0);
      while next[prev] != NULL
        invariant 0 <= i < |kids[p]| && prev == kids[p][i] && PeerAt(kids, next, parent, pos, root, p, i)
        decreases |kids[p]| - i
      {
        prev := next[prev];
        i := i + 1;
        PeerFact(kids, child, next, parent, pos, root, p, i);
      }
      PeerFact(kids, child, next, parent, pos, root, p, i);
    }

    /** `uacpi_namespace_node_install`: a new node becomes the last child; a null parent stands for the root. */
    method Install(under: nat, node: nat) returns (status: Status)
      requires Valid() && (under == NULL || under in kids)
      requires node !in kids && node != NULL && node in child && node in next && child[node] == NULL &&
               next[node] == NULL
      modifies this
      ensures Valid() && status == (if node in old(dangling) then NodeDangling else Ok) && dangling == old(dangling)
      ensures kids == if status.Ok? then WithKid(old(kids), if under == NULL then root else under, node) else old(kids)
    {
      hide Numbered, Linked, Closed, WithKid, NumbersWith;
      var p := if under == NULL then root else under;
      RootIn(kids, child, next, parent, pos, root);
      if node in dangling {
        return NodeDangling;
      }
      LinkedClosed(kids, child, next, parent, pos, root);
      InstallLinked(kids, child, next, parent, pos, root, p, node);
      InstallNumbered(kids, numbers, root, p, node);
      ChildFact(kids, child, next, parent, pos, root, p);
      NumberedKeys(kids, numbers, root);
      if child[p] == NULL {
        child := child[p := node];
      } else {
        var prev := LastKid(p);
        next := next[prev := node];
      }
      parent := parent[node := p];
      pos := pos[node := |kids[p]|];
      numbers := NumbersWith(numbers, p, node);
      kids := WithKid(kids, p, node);
      return Ok;
    }

    /**
     The search for the peer before a node in `uacpi_namespace_node_uninstall`; null if the node is the first child.
     */
    method PrevPeer(node: nat) returns (prev: nat)
      requires Linked(kids, child, next, parent, pos, root) && node in kids && node != root
      ensures HomeAt(kids, parent, pos, node)
      ensures prev == (if pos[node] == 0 then NULL else kids[parent[node]][pos[node] - 1]) &&
              (prev == NULL <==> pos[node] == 0)
    {
      hide Linked;
      HomeFact(kids, child, next, parent, pos, root, node);
      ghost var p, j := parent[node], pos[node];
      ChildFact(kids, child, next, parent, pos, root, p);
      prev := child[parent[node]];
      if prev == node {
        LinkedOnce(kids, child, next, parent, pos, root, p, j);
        return NULL;
      }
      ghost var i := 0;
      PeerFact(kids, child, next, parent, pos, root, p, 0);
      LinkedOnce(kids, child, next, parent, pos, root, p, j);
      while next[prev] != node
        invariant 0 <= i < j && prev == kids[p][i] && PeerAt(kids, next, parent, pos, root, p, i)
        decreases j - i
      {
        prev := next[prev];
        i := i + 1;
        PeerFact(kids, child, next, parent, pos, root, p, i);
      }
      assert kids[p][i + 1] == node;
      RootIn(kids, child, next, parent, pos, root);
    }

    /**
     `uacpi_namespace_node_uninstall`: takes a childless node out and marks it dangling; refuses a node that is
     dangling, has children, or is the root.
     */
    method Uninstall(node: nat) returns (status: Status)
      requires Valid() && (node in kids || node in dangling)
      modifies this`child, this`next, this`dangling, this`kids, this`pos, this`numbers
      ensures Valid()
      ensures status == if node in old(dangling) then InternalError else if old(kids)[node] != [] then Denied
                        else if node == root then InternalError else Ok
      ensures if status.Ok? then
                && HomeAt(old(kids), parent, old(pos), node)
                && kids == WithoutKid(old(kids), parent[node], old(pos)[node]) && dangling == old(dangling) + {node}
              else kids == old(kids) && dangling == old(dangling)
    {
      hide Numbered, Linked, Closed, Once, WithoutKid, NumbersWithout, PosWithout;
      if node in dangling {
        return InternalError;
      }
      ChildFact(kids, child, next, parent, pos, root, node);
      if child[node] != NULL {
        return Denied;
      }
      RootIn(kids, child, next, parent, pos, root);
      if node != root {
        HomeFact(kids, child, next, parent, pos, root, node);
      }
      if parent[node] == NULL {
        return InternalError;
      }
      ghost var p, i := parent[node], pos[node];
      PeerFact(kids, child, next, parent, pos, root, p, i);
      LinkedClosed(kids, child, next, parent, pos, root);
      LinkedOnce(kids, child, next, parent, pos, root, p, i);
      UninstallLinked(kids, child, next, parent, pos, root, p, i);
      NumberedKeys(kids, numbers, root);
      UninstallNumbered(kids, numbers, root, p, i);
      var prev := PrevPeer(node);
      if prev == NULL {
        child := child[parent[node] := next[node]];
      } else {
        next := next[prev := next[node]];
      }
      dangling := dangling + {node};
      pos := PosWithout(parent, pos, p, i);
      numbers := NumbersWithout(numbers, node);
      kids := WithoutKid(kids, p, i);
      return Ok;
    }

    /** The inner loop of the teardown: every child of a node is uninstalled, and none is refused. */
    method Wipe(c: nat, ghost o: Origin, ghost before: seq<nat>) returns (ghost log: seq<nat>)
      requires Valid() && IsOrigin(o, parent, root) && c in o.kids && c in kids && Logged(o.kids, kids, before)
      requires Torn(o.kids, o.numbers, parent, root, kids, Post(o.numbers, c))
      modifies this`child, this`next, this`dangling, this`kids, this`pos, this`numbers
      ensures Valid() && Logged(o.kids, kids, log)
      ensures Torn(o.kids, o.numbers, parent, root, kids, Post(o.numbers, c) + 1)
    {
      hide Linked, Numbered, Wiped, Torn, Logged, Closed, WithoutKid, Post;
      log := before;
      TornWiped(o.kids, o.numbers, parent, root, kids, c);
      ghost var j := 0;
      WipedFact(o.kids, o.numbers, parent, root, kids, c, j);
      ChildFact(kids, child, next, parent, pos, root, c);
      while child[c] != NULL
        invariant 0 <= j <= |o.kids[c]| && Valid() && c in kids && c in child
        invariant kids[c] == o.kids[c][j..] && child[c] == (if kids[c] == [] then NULL else kids[c][0])
        invariant Wiped(o.kids, o.numbers, parent, root, kids, c, j) && Logged(o.kids, kids, log)
        decreases |o.kids[c]| - j
      {
        ghost var node, now := child[c], kids;
        WipeNext(o, parent, root, kids, c, j);
        PeerFact(kids, child, next, parent, pos, root, c, 0);
        var status := Uninstall(child[c]);
        assert status == Ok;
        WipeStep(o.kids, o.numbers, parent, root, now, c, j);
        assert kids.Keys == now.Keys - {node};
        LogStep(o.kids, now, kids, log, node);
        log := log + [node];
        j := j + 1;
        WipedFact(o.kids, o.numbers, parent, root, kids, c, j);
        ChildFact(kids, child, next, parent, pos, root, c);
      }
      ChildFact(kids, child, next, parent, pos, root, c);
      WipedTorn(o.kids, o.numbers, o.child, o.next, parent, o.pos, root, kids, c);
    }

    /**
     `uacpi_deinitialize_namespace`: walks the tree once, wiping the children of each node when it has been past all
     of them. It ends with the bare root, and every other node has been uninstalled exactly once.
     */
    method Deinitialize() returns (ghost log: seq<nat>)
      requires Valid()
      modifies this`child, this`next, this`dangling, this`kids, this`pos, this`numbers
      ensures Valid() && kids == map[root := []] && root in child && child[root] == NULL
      ensures (forall x {:trigger x in log} :: x in log <==> x in old(kids) && x != root)
      ensures (forall i, j {:trigger log[i], log[j]} :: 0 <= i < j < |log| ==> log[i] != log[j])
    {
      hide Linked, Numbered, Torn, Logged, Closed, Post, Low, Level;
      ghost var o := Origin(kids, numbers, child, next, pos);
      ghost var turn := Low(o.numbers, root);
      log := [];
      var current, peer, depth := root, NULL, 1;
      RootIn(kids, child, next, parent, pos, root);
      TornStart(o, parent, root, turn);
      while depth > 0
        invariant Valid() && IsOrigin(o, parent, root) && Torn(o.kids, o.numbers, parent, root, kids, turn) &&
                  Logged(o.kids, kids, log)
        invariant if depth == 0 then turn == Post(o.numbers, root) + 1 else At(o, root, current, peer, turn, depth)
        invariant turn <= Post(o.numbers, root) + 1
        decreases Post(o.numbers, root) + 1 - turn, Post(o.numbers, current) - Low(o.numbers, current)
      {
        AtCurrent(o, parent, root, kids, current, peer, turn, depth);
        ChildFact(kids, child, next, parent, pos, root, current);
        ghost var j := if peer == NULL then 0 else o.pos[peer] + 1;
        if peer != NULL {
          PeerFact(kids, child, next, parent, pos, root, current, j - 1);
        }
        peer := if peer == NULL then child[current] else next[peer];
        if peer == NULL {
          AtUp(o, parent, root, current, turn, depth);
          depth := depth - 1;
          log := Wipe(current, o, log);
          turn := turn + 1;
          peer := current;
          current := parent[current];
          continue;
        }
        AtNext(o, parent, root, kids, current, j, turn, depth);
        ChildFact(kids, child, next, parent, pos, root, peer);
        if child[peer] != NULL {
          depth := depth + 1;
          current := peer;
          peer := NULL;
        } else {
          TornLeaf(o.kids, o.numbers, o.child, o.next, parent, o.pos, root, kids, peer);
          turn := turn + 1;
        }
      }
      TornEnd(o, parent, root, kids, log);
      ChildFact(kids, child, next, parent, pos, root, root);
    }
  }

  /** Where the walk is: at a node, about to look at its first child or past one of them. */
  ghost predicate At(o: Origin, root: nat, current: nat, peer: nat, turn: nat, depth: nat) {
    && current in o.kids && depth == Level(o.numbers, current) + 1 && turn <= Post(o.numbers, current)
    && if peer == NULL then turn == Low(o.numbers, current)
       else
         && peer in o.pos && o.pos[peer] < |o.kids[current]| && o.kids[current][o.pos[peer]] == peer
         && turn == Post(o.numbers, peer) + 1
  }

  lemma TornStart(o: Origin, parent: links, root: nat, turn: nat)
    requires IsOrigin(o, parent, root) && turn == Low(o.numbers, root)
    ensures Torn(o.kids, o.numbers, parent, root, o.kids, turn) && Logged(o.kids, o.kids, []) &&
            At(o, root, root, NULL, turn, 1)
  {
    assert NumberAt(o.kids, o.numbers, root, root);
    forall x {:trigger TornAt(o.kids, o.numbers, parent, root, o.kids, turn, x)} | x in o.kids
      ensures TornAt(o.kids, o.numbers, parent, root, o.kids, turn, x)
    {
      if x != root {
        HomeFact(o.kids, o.child, o.next, parent, o.pos, root, x);
      }
    }
  }

  /** The node the walk is at still has all its children, and if it is past the last one it is that node's turn. */
  lemma AtCurrent(o: Origin, parent: links, root: nat, now: Kids, current: nat, peer: nat, turn: nat, depth: nat)
    requires IsOrigin(o, parent, root) && Torn(o.kids, o.numbers, parent, root, now, turn) &&
             At(o, root, current, peer, turn, depth)
    ensures current in now && now[current] == o.kids[current] && Low(o.numbers, current) <= Post(o.numbers, current) &&
            turn <= Post(o.numbers, root)
    ensures var j := if peer == NULL then 0 else o.pos[peer] + 1;
            if j < |o.kids[current]| then turn == Low(o.numbers, o.kids[current][j])
            else turn == Post(o.numbers, current)
  {
    hide Post, Low, Level;
    assert TornAt(o.kids, o.numbers, parent, root, now, turn, current);
    assert NumberAt(o.kids, o.numbers, root, current);
    LinkedClosed(o.kids, o.child, o.next, parent, o.pos, root);
    if current != root {
      HomeFact(o.kids, o.child, o.next, parent, o.pos, root, current);
      KidBefore(o.kids, o.numbers, root, parent[current], o.pos[current]);
    }
    if peer != NULL {
      assert NumberKid(o.kids, o.numbers, current, o.pos[peer]);
    }
  }

  /** On to the next child: down to its children, or past it if it has none. */
  lemma AtNext(o: Origin, parent: links, root: nat, now: Kids, current: nat, j: nat, turn: nat, depth: nat)
    requires IsOrigin(o, parent, root) && Torn(o.kids, o.numbers, parent, root, now, turn) && current in o.kids &&
             j < |o.kids[current]|
    requires turn <= Post(o.numbers, current) && turn == Low(o.numbers, o.kids[current][j]) &&
             depth == Level(o.numbers, current) + 1
    ensures var node := o.kids[current][j];
            && node in now && node in o.kids && now[node] == o.kids[node] && node != NULL
            && At(o, root, node, NULL, turn, depth + 1)
            && Post(o.numbers, node) - Low(o.numbers, node) < Post(o.numbers, current) - Low(o.numbers, current)
            && (o.kids[node] == [] ==> turn == Post(o.numbers, node) && At(o, root, current, node, turn + 1, depth))
  {
    hide Post, Low, Level;
    var node := o.kids[current][j];
    LinkedClosed(o.kids, o.child, o.next, parent, o.pos, root);
    PeerFact(o.kids, o.child, o.next, parent, o.pos, root, current, j);
    assert TornAt(o.kids, o.numbers, parent, root, now, turn, node);
    assert NumberAt(o.kids, o.numbers, root, node) && NumberKid(o.kids, o.numbers, current, j);
    KidBefore(o.kids, o.numbers, root, current, j);
    KidAbove(o.kids, o.numbers, root, current, j);
  }

  /** A node's smallest number is at most its children's. */
  lemma KidAbove(kids: Kids, n: Numbers, root: nat, x: nat, i: nat)
    requires Numbered(kids, n, root) && Closed(kids) && x in kids && i < |kids[x]|
    ensures Low(n, x) <= Low(n, kids[x][i])
  {
    hide Post, Low, Level;
    assert NumberAt(kids, n, root, x);
    if i > 0 {
      KidAbove(kids, n, root, x, i - 1);
      assert NumberKid(kids, n, x, i - 1) && NumberAt(kids, n, root, kids[x][i - 1]);
    }
  }

  /** Back up, past the node that has been wiped. */
  lemma AtUp(o: Origin, parent: links, root: nat, current: nat, turn: nat, depth: nat)
    requires IsOrigin(o, parent, root) && current in o.kids && turn == Post(o.numbers, current) &&
             depth == Level(o.numbers, current) + 1
    ensures turn <= Post(o.numbers, root) && current in parent && current != NULL
    ensures if depth == 1 then turn == Post(o.numbers, root)
            else At(o, root, parent[current], current, turn + 1, depth - 1)
  {
    hide Post, Low, Level;
    assert NumberAt(o.kids, o.numbers, root, current);
    LinkedClosed(o.kids, o.child, o.next, parent, o.pos, root);
    if current != root {
      HomeFact(o.kids, o.child, o.next, parent, o.pos, root, current);
      KidBefore(o.kids, o.numbers, root, parent[current], o.pos[current]);
      assert NumberKid(o.kids, o.numbers, parent[current], o.pos[current]);
    }
  }

  lemma TornEnd(o: Origin, parent: links, root: nat, now: Kids, log: seq<nat>)
    requires IsOrigin(o, parent, root) && Torn(o.kids, o.numbers, parent, root, now, Post(o.numbers, root) + 1) &&
             Logged(o.kids, now, log)
    ensures now == map[root := []]
    ensures (forall x {:trigger x in log} :: x in log <==> x in o.kids && x != root)
    ensures (forall i, j {:trigger log[i], log[j]} :: 0 <= i < j < |log| ==> log[i] != log[j])
  {
    hide Post, Low, Level;
    forall x | x in o.kids
      ensures x in now <==> x == root
    {
      assert TornAt(o.kids, o.numbers, parent, root, now, Post(o.numbers, root) + 1, x);
      if x != root {
        HomeFact(o.kids, o.child, o.next, parent, o.pos, root, x);
        assert NumberAt(o.kids, o.numbers, root, parent[x]);
      }
    }
    assert TornAt(o.kids, o.numbers, parent, root, now, Post(o.numbers, root) + 1, root);
    assert now.Keys == {root};
  }

  lemma WipedFact(kids: Kids, n: Numbers, parent: links, root: nat, now: Kids, c: nat, j: nat)
    requires Wiped(kids, n, parent, root, now, c, j) && c in now
    ensures now[c] == kids[c][j..]
  {
    assert WipedAt(kids, n, parent, root, now, c, j, c);
  }

  /** The next child to go is there, has no children, and has not gone before. */
  lemma WipeNext(o: Origin, parent: links, root: nat, now: Kids, c: nat, j: nat)
    requires IsOrigin(o, parent, root) && Wiped(o.kids, o.numbers, parent, root, now, c, j) && c in now &&
             j < |o.kids[c]|
    ensures var node := o.kids[c][j];
            node in o.kids && node in now && now[node] == [] && node != root && node != c && node !in o.kids[c][..j]
  {
    hide Post;
    var node := o.kids[c][j];
    LinkedClosed(o.kids, o.child, o.next, parent, o.pos, root);
    LinkedOnce(o.kids, o.child, o.next, parent, o.pos, root, c, j);
    PeerFact(o.kids, o.child, o.next, parent, o.pos, root, c, j);
    KidBefore(o.kids, o.numbers, root, c, j);
    assert WipedAt(o.kids, o.numbers, parent, root, now, c, j, node);
  }

  lemma LogStep(kids: Kids, now: Kids, after: Kids, log: seq<nat>, node: nat)
    requires Logged(kids, now, log) && node in kids && node in now && after.Keys == now.Keys - {node}
    ensures Logged(kids, after, log + [node])
  {
    forall x {:trigger x in log + [node]}
      ensures x in log + [node] <==> x in kids && x !in after
    {
      assert x in log + [node] <==> x in log || x == node;
    }
    forall i, j {:trigger (log + [node])[i], (log + [node])[j]} | 0 <= i < j < |log| + 1
      ensures (log + [node])[i] != (log + [node])[j]
    {
      assert log[i] in log;
    }
  }

  lemma HomeFact(kids: Kids, child: links, next: links, parent: links, pos: links, root: nat, y: nat)
    requires Linked(kids, child, next, parent, pos, root) && y in kids && y != root
    ensures HomeAt(kids, parent, pos, y) && parent[y] != NULL
  {
    assert HomeAt(kids, parent, pos, y);
  }

  lemma RootIn(kids: Kids, child: links, next: links, parent: links, pos: links, root: nat)
    requires Linked(kids, child, next, parent, pos, root)
    ensures root in kids && NULL !in kids && root in parent && parent[root] == NULL
  {
  }

  lemma NumberedKeys(kids: Kids, n: Numbers, root: nat)
    requires Numbered(kids, n, root)
    ensures kids.Keys <= n.post.Keys && kids.Keys <= n.low.Keys && kids.Keys <= n.level.Keys
  {
  }

  lemma ChildFact(kids: Kids, child: links, next: links, parent: links, pos: links, root: nat, x: nat)
    requires Linked(kids, child, next, parent, pos, root) && x in kids
    ensures x in child && child[x] == if kids[x] == [] then NULL else kids[x][0]
    ensures kids[x] != [] ==> kids[x][0] in kids && kids[x][0] != NULL
  {
    assert ChildAt(kids, child, x);
    if kids[x] != [] {
      assert PeerAt(kids, next, parent, pos, root, x, 0);
    }
  }

  lemma PeerFact(kids: Kids, child: links, next: links, parent: links, pos: links, root: nat, x: nat, i: nat)
    requires Linked(kids, child, next, parent, pos, root) && x in kids && i < |kids[x]|
    ensures PeerAt(kids, next, parent, pos, root, x, i)
    ensures i + 1 < |kids[x]| ==> kids[x][i + 1] in kids && kids[x][i + 1] != NULL
  {
    assert PeerAt(kids, next, parent, pos, root, x, i);
    if i + 1 < |kids[x]| {
      assert PeerAt(kids, next, parent, pos, root, x, i + 1);
    }
  }

  // -------------------------------------------------------------------------
  // The teardown

  /** Children come before their parent. */
  lemma KidBefore(kids: Kids, n: Numbers, root: nat, x: nat, i: nat)
    requires Numbered(kids, n, root) && Closed(kids) && x in kids && i < |kids[x]|
    ensures Post(n, kids[x][i]) < Post(n, x)
    decreases |kids[x]| - i
  {
    hide Post, Low, Level;
    assert NumberAt(kids, n, root, x);
    if i + 1 < |kids[x]| {
      assert NumberKid(kids, n, x, i) && NumberAt(kids, n, root, kids[x][i + 1]);
      KidBefore(kids, n, root, x, i + 1);
    }
  }

  /** The tree as it was before the teardown. */
  datatype Origin = Origin(kids: Kids, numbers: Numbers, child: links, next: links, pos: links)

  ghost predicate IsOrigin(o: Origin, parent: links, root: nat) {
    Linked(o.kids, o.child, o.next, parent, o.pos, root) && Numbered(o.kids, o.numbers, root)
  }

  /** What has been removed, each node once. */
  ghost predicate Logged(kids: Kids, now: Kids, log: seq<nat>) {
    && (forall x {:trigger x in log} :: x in log <==> x in kids && x !in now)
    && (forall i, j {:trigger log[i], log[j]} :: 0 <= i < j < |log| ==> log[i] != log[j])
  }

  /** A node is still there, as long as its parent's turn has not come. */
  ghost predicate Remains(n: Numbers, parent: links, root: nat, turn: nat, x: nat) {
    x == root || (x in parent && Post(n, parent[x]) >= turn)
  }

  /** Below `turn` in the postorder, nodes have lost their children; from there on, nothing has changed. */
  ghost predicate TornAt(kids: Kids, n: Numbers, parent: links, root: nat, now: Kids, turn: nat, x: nat)
    requires x in kids
  {
    && (x in now <==> Remains(n, parent, root, turn, x))
    && (x in now ==> now[x] == if Post(n, x) < turn then [] else kids[x])
  }

  ghost predicate Torn(kids: Kids, n: Numbers, parent: links, root: nat, now: Kids, turn: nat) {
    && now.Keys <= kids.Keys
    && forall x {:trigger TornAt(kids, n, parent, root, now, turn, x)} :: x in kids ==>
       TornAt(kids, n, parent, root, now, turn, x)
  }

  /** The same, with `j` children of node `c` already gone, whose turn it is. */
  ghost predicate WipedAt(kids: Kids, n: Numbers, parent: links, root: nat, now: Kids, c: nat, j: nat, x: nat)
    requires x in kids && c in kids && j <= |kids[c]|
  {
    && (x in now <==> Remains(n, parent, root, Post(n, c), x) && !(x in kids[c][..j]))
    && (x in now ==> now[x] == if x == c then kids[c][j..] else if Post(n, x) < Post(n, c) then [] else kids[x])
  }

  ghost predicate Wiped(kids: Kids, n: Numbers, parent: links, root: nat, now: Kids, c: nat, j: nat) {
    && c in kids && j <= |kids[c]| && now.Keys <= kids.Keys
    && forall x {:trigger WipedAt(kids, n, parent, root, now, c, j, x)} :: x in kids ==>
       WipedAt(kids, n, parent, root, now, c, j, x)
  }

  lemma TornWiped(kids: Kids, n: Numbers, parent: links, root: nat, now: Kids, c: nat)
    requires Torn(kids, n, parent, root, now, Post(n, c)) && c in kids
    ensures Wiped(kids, n, parent, root, now, c, 0)
  {
    forall x {:trigger WipedAt(kids, n, parent, root, now, c, 0, x)} | x in kids
      ensures WipedAt(kids, n, parent, root, now, c, 0, x)
    {
      assert TornAt(kids, n, parent, root, now, Post(n, c), x);
    }
  }

  lemma WipedTorn(kids: Kids, n: Numbers, child: links, next: links, parent: links, pos: links, root: nat, now: Kids,
                  c: nat)
    requires c in kids && Wiped(kids, n, parent, root, now, c, |kids[c]|) && Numbered(kids, n, root)
    requires Linked(kids, child, next, parent, pos, root)
    ensures Torn(kids, n, parent, root, now, Post(n, c) + 1)
  {
    hide Post, Low, Level;
    forall x {:trigger TornAt(kids, n, parent, root, now, Post(n, c) + 1, x)} | x in kids
      ensures TornAt(kids, n, parent, root, now, Post(n, c) + 1, x)
    {
      assert WipedAt(kids, n, parent, root, now, c, |kids[c]|, x);
      assert Post(n, x) == Post(n, c) ==> x == c;
      if x != root {
        assert HomeAt(kids, parent, pos, x);
        var u := parent[x];
        assert Post(n, u) == Post(n, c) ==> u == c;
      }
      if i :| 0 <= i < |kids[c]| && kids[c][i] == x {
        assert PeerAt(kids, next, parent, pos, root, c, i);
      }
    }
  }

  lemma WipeStep(kids: Kids, n: Numbers, parent: links, root: nat, now: Kids, c: nat, j: nat)
    requires Wiped(kids, n, parent, root, now, c, j) && j < |kids[c]| && c in now && c != kids[c][j]
    requires kids[c][j] != root && kids[c][j] in kids && kids[c][j] !in kids[c][..j]
    ensures |now[c]| > 0 && now[c][0] == kids[c][j] && Wiped(kids, n, parent, root, WithoutKid(now, c, 0), c, j + 1)
  {
    hide Post, Remains;
    assert WipedAt(kids, n, parent, root, now, c, j, c);
    var k := WithoutKid(now, c, 0);
    forall x {:trigger WipedAt(kids, n, parent, root, k, c, j + 1, x)} | x in kids
      ensures WipedAt(kids, n, parent, root, k, c, j + 1, x)
    {
      assert WipedAt(kids, n, parent, root, now, c, j, x);
      assert kids[c][..j + 1] == kids[c][..j] + [kids[c][j]];
    }
  }

  /** A childless node whose turn it is: its turn passes. */
  lemma TornLeaf(kids: Kids, n: Numbers, child: links, next: links, parent: links, pos: links, root: nat, now: Kids,
                 c: nat)
    requires Torn(kids, n, parent, root, now, Post(n, c)) && c in kids && kids[c] == [] && Numbered(kids, n, root)
    requires Linked(kids, child, next, parent, pos, root)
    ensures Torn(kids, n, parent, root, now, Post(n, c) + 1)
  {
    hide Post, Low, Level;
    forall x {:trigger TornAt(kids, n, parent, root, now, Post(n, c) + 1, x)} | x in kids
      ensures TornAt(kids, n, parent, root, now, Post(n, c) + 1, x)
    {
      assert TornAt(kids, n, parent, root, now, Post(n, c), x);
      assert Post(n, x) == Post(n, c) ==> x == c;
      if x != root {
        assert HomeAt(kids, parent, pos, x);
        var u := parent[x];
        assert Post(n, u) == Post(n, c) ==> u == c;
      }
    }
  }
}
