/**
 Absolute paths (src/uacpi/namespace.c:447-621, 1015-1072): a node's path is written backwards into a buffer of
 a size worked out beforehand, and a path is resolved segment by segment. Resolving what was written must lead
 back to the node.
 */
module NamespacePath {
  import opened NamespaceTree

  type Names = map<nat, string>

  const NUL: char := '\0'

  /** Every node has a name of four characters. */
  ghost predicate Named(kids: Kids, names: Names) {
    forall x {:trigger x in kids} :: x in kids ==> x in names && |names[x]| == 4
  }

  // -------------------------------------------------------------------------
  // Where a node is

  /** The structure of a valid namespace, as far as paths need it. */
  ghost predicate Rooted(kids: Kids, n: Numbers, parent: links, pos: links, root: nat) {
    && Numbered(kids, n, root) && root in kids && NULL !in kids
    && forall y {:trigger HomeAt(kids, parent, pos, y)} :: y in kids && y != root ==> HomeAt(kids, parent, pos, y)
  }

  /** The nodes from below the root down to a node. */
  ghost function Trail(kids: Kids, n: Numbers, parent: links, pos: links, root: nat, x: nat): (r: seq<nat>)
    requires Rooted(kids, n, parent, pos, root) && x in kids
    ensures |r| == Level(n, x)
    ensures forall i {:trigger r[i]} :: 0 <= i < |r| ==> r[i] in kids && r[i] != root
    decreases Level(n, x)
  {
    if x == root then []
    else assert HomeAt(kids, parent, pos, x);
         assert NumberKid(kids, n, parent[x], pos[x]);
         Trail(kids, n, parent, pos, root, parent[x]) + [x]
  }

  /** The names of some nodes, a dot before each. */
  ghost function Dotted(names: Names, trail: seq<nat>): (r: string)
    requires RangeNamed(names, trail)
    ensures |r| == 5 * |trail| && (trail != [] ==> r[0] == '.')
  {
    if trail == [] then [] else Dotted(names, trail[..|trail| - 1]) + ['.'] + names[trail[|trail| - 1]]
  }

  /** The absolute path: a backslash, then the names with dots between them. */
  ghost function Path(names: Names, trail: seq<nat>): (r: string)
    requires RangeNamed(names, trail)
  {
    if trail == [] then ['\\'] else ['\\'] + Dotted(names, trail)[1..]
  }

  // -------------------------------------------------------------------------
  // Writing it

  /** `uacpi_namespace_node_depth`. */
  method Depth(ns: Namespace, node: nat) returns (depth: nat)
    requires ns.Valid() && node in ns.kids
    ensures depth == Level(ns.numbers, node)
  {
    hide Linked, Numbered, Level;
    depth := 0;
    var x := node;
    RootIn(ns.kids, ns.child, ns.next, ns.parent, ns.pos, ns.root);
    LevelFact(ns.kids, ns.numbers, ns.child, ns.next, ns.parent, ns.pos, ns.root, x);
    while ns.parent[x] != NULL
      invariant x in ns.kids && x in ns.parent && depth + Level(ns.numbers, x) == Level(ns.numbers, node)
      invariant x != ns.root ==> ns.parent[x] in ns.kids && Level(ns.numbers, ns.parent[x]) + 1 == Level(ns.numbers, x)
      decreases Level(ns.numbers, x)
    {
      depth := depth + 1;
      x := ns.parent[x];
      LevelFact(ns.kids, ns.numbers, ns.child, ns.next, ns.parent, ns.pos, ns.root, x);
    }
    LevelFact(ns.kids, ns.numbers, ns.child, ns.next, ns.parent, ns.pos, ns.root, x);
  }

  /** One level up is one level less, and only the root is at level zero. */
  lemma LevelFact(kids: Kids, n: Numbers, child: links, next: links, parent: links, pos: links, root: nat, x: nat)
    requires Linked(kids, child, next, parent, pos, root) && Numbered(kids, n, root) && x in kids
    ensures x in parent && (x == root <==> Level(n, x) == 0) && (x == root <==> parent[x] == NULL)
    ensures x != root ==> parent[x] in kids && Level(n, parent[x]) + 1 == Level(n, x)
  {
    if x != root {
      HomeFact(kids, child, next, parent, pos, root, x);
      assert NumberKid(kids, n, parent[x], pos[x]);
    }
  }

  lemma RootedFact(kids: Kids, n: Numbers, child: links, next: links, parent: links, pos: links, root: nat)
    requires Linked(kids, child, next, parent, pos, root) && Numbered(kids, n, root)
    ensures Rooted(kids, n, parent, pos, root)
  {
  }

  /** The trail of a node is that of its parent and the node. */
  lemma TrailStep(kids: Kids, n: Numbers, parent: links, pos: links, root: nat, names: Names, x: nat)
    requires Rooted(kids, n, parent, pos, root) && Named(kids, names) && x in kids
    ensures var t := Trail(kids, n, parent, pos, root, x);
            if x == root then t == []
            else && x in parent && parent[x] in kids && x in names
                 && var u := Trail(kids, n, parent, pos, root, parent[x]);
                 && RangeNamed(names, t) && RangeNamed(names, u)
                 && t == u + [x] && Dotted(names, t) == Dotted(names, u) + ['.'] + names[x] &&
                    (parent[x] == root <==> u == [])
  {
    if x != root {
      assert HomeAt(kids, parent, pos, x);
      assert NumberKid(kids, n, parent[x], pos[x]);
      var t, u := Trail(kids, n, parent, pos, root, x), Trail(kids, n, parent, pos, root, parent[x]);
      assert t[..|t| - 1] == u && t[|t| - 1] == x;
      NamedFact(kids, names, t);
      NamedFact(kids, names, u);
    }
  }

  /** `memcpy` of a name into the buffer. */
  method CopyName(path: array<char>, offset: nat, name: string)
    requires |name| == 4 && offset + 4 <= path.Length
    modifies path
    ensures path[..] == old(path[..offset]) + name + old(path[offset + 4..])
  {
    path[offset] := name[0];
    path[offset + 1] := name[1];
    path[offset + 2] := name[2];
    path[offset + 3] := name[3];
  }

  /** One name and, unless it is the first of the path, the dot before it. */
  method WriteName(path: array<char>, offset: nat, name: string, ghost above: nat, first: bool) returns (r: nat)
    requires |name| == 4 && offset == 5 * above + 5 <= path.Length && (first <==> above == 0)
    modifies path
    ensures path[..] == Stepped(old(path[..]), name, above) && r == if above == 0 then 1 else 5 * above
  {
    ghost var before := path[..];
    r := offset - 4;
    CopyName(path, r, name);
    if !first {
      r := r - 1;
      assert before[..r + 1] == before[..r] + [before[r]];
      ghost var copied := path[..];
      path[r] := '.';
      assert path[..] == copied[r := '.'];
    }
  }

  /** What is written so far: everything from `offset` on. */
  ghost predicate Filled(path: seq<char>, names: Names, whole: seq<nat>, trail: seq<nat>, offset: nat)
    requires RangeNamed(names, whole) && RangeNamed(names, trail)
  {
    && offset == (if trail == [] then 1 else 5 * |trail|) <= |path|
    && |trail| <= |whole| && |path| == (if whole == [] then 2 else 5 * |whole| + 1)
    && path[0] == '\\' && path[offset..] == (Path(names, whole) + [NUL])[offset..]
    && Dotted(names, trail) <= Dotted(names, whole)
  }

  /** `uacpi_namespace_node_generate_absolute_path`: the buffer is exactly as long as the path and its terminator. */
  method GenerateAbsolutePath(ns: Namespace, names: Names, node: nat) returns (path: array<char>)
    requires ns.Valid() && node in ns.kids && Named(ns.kids, names)
    ensures fresh(path) && Rooted(ns.kids, ns.numbers, ns.parent, ns.pos, ns.root)
    ensures RangeNamed(names, Trail(ns.kids, ns.numbers, ns.parent, ns.pos, ns.root, node))
    ensures path[..] == Path(names, Trail(ns.kids, ns.numbers, ns.parent, ns.pos, ns.root, node)) + [NUL]
  {
    hide Linked, Numbered, Rooted, Trail, Dotted, Level, Filled, Named, Path;
    ghost var kids, n, parent, pos, root := ns.kids, ns.numbers, ns.parent, ns.pos, ns.root;
    RootedFact(kids, n, ns.child, ns.next, parent, pos, root);
    NamedFact(kids, names, Trail(kids, n, parent, pos, root, node));
    ghost var whole := Trail(kids, n, parent, pos, root, node);
    var depth := Depth(ns, node);
    depth := depth + 1;
    var needed := 1 + (depth - 1) * 4;
    needed := needed + (if depth > 2 then depth - 2 else 0);
    needed := needed + 1;
    path := new char[needed];
    path[0] := '\\';
    var offset: nat := needed - 1;
    path[offset] := NUL;
    FillStart(path[..], names, whole);
    var x := node;
    while x != ns.root
      invariant x in kids && RangeNamed(names, Trail(kids, n, parent, pos, root, x))
      invariant Filled(path[..], names, whole, Trail(kids, n, parent, pos, root, x), offset)
      decreases Level(n, x)
    {
      ghost var before, t := path[..], Trail(kids, n, parent, pos, root, x);
      TrailStep(kids, n, parent, pos, root, names, x);
      LevelFact(kids, n, ns.child, ns.next, parent, pos, root, x);
      ghost var u := Trail(kids, n, parent, pos, root, parent[x]);
      NamedFact(kids, names, u);
      FillStep(before, names, whole, t, u, x, offset);
      NamedAt(kids, names, x);
      offset := WriteName(path, offset, names[x], |u|, ns.parent[x] == ns.root);
      x := ns.parent[x];
    }
    TrailStep(kids, n, parent, pos, root, names, x);
    FillEnd(path[..], names, whole, offset);
  }

  ghost predicate RangeNamed(names: Names, s: seq<nat>) {
    forall i {:trigger s[i]} :: 0 <= i < |s| ==> s[i] in names && |names[s[i]]| == 4
  }

  lemma NamedAt(kids: Kids, names: Names, x: nat)
    requires Named(kids, names) && x in kids
    ensures x in names && |names[x]| == 4
  {
  }

  lemma NamedFact(kids: Kids, names: Names, s: seq<nat>)
    requires Named(kids, names) && forall i {:trigger s[i]} :: 0 <= i < |s| ==> s[i] in kids
    ensures RangeNamed(names, s)
  {
    forall i {:trigger s[i]} | 0 <= i < |s|
      ensures s[i] in names && |names[s[i]]| == 4
    {
      NamedAt(kids, names, s[i]);
    }
  }

  lemma FillStart(path: seq<char>, names: Names, whole: seq<nat>)
    requires RangeNamed(names, whole) && |path| == (if whole == [] then 2 else 5 * |whole| + 1)
    requires path[0] == '\\' && path[|path| - 1] == NUL
    ensures Filled(path, names, whole, whole, |path| - 1)
  {
    hide Dotted;
    assert (Path(names, whole) + [NUL])[|path| - 1..] == [NUL];
  }

  /** The buffer with one more name written, and the dot before it unless it is the first. */
  ghost function Stepped(path: seq<char>, name: string, above: nat): (r: seq<char>)
    requires 5 * above + 5 <= |path|
  {
    path[..if above == 0 then 1 else 5 * above] + (if above == 0 then [] else ['.']) + name + path[5 * above + 5..]
  }

  lemma FillStep(path: seq<char>, names: Names, whole: seq<nat>, t: seq<nat>, u: seq<nat>, x: nat, offset: nat)
    requires RangeNamed(names, whole) && RangeNamed(names, t) && RangeNamed(names, u) &&
             Filled(path, names, whole, t, offset)
    requires t == u + [x] && Dotted(names, t) == Dotted(names, u) + ['.'] + names[x]
    ensures offset == 5 * |t| == 5 * |u| + 5 <= |path|
    ensures Filled(Stepped(path, names[x], |u|), names, whole, u, if u == [] then 1 else 5 * |u|)
  {
    hide Dotted;
    hide Path;
    PathAt(names, whole);
    assert t[|t| - 1] == x && |names[t[|t| - 1]]| == 4;
    StepText(path, Path(names, whole) + [NUL], Dotted(names, whole), Dotted(names, u), names[x], |u|);
    assert Dotted(names, u) <= Dotted(names, t);
  }

  lemma StepText(path: seq<char>, full: string, whole: string, done: string, name: string, above: nat)
    requires |name| == 4 && |done| == 5 * above && done + ['.'] + name <= whole && |path| == |full| == |whole| + 1
    requires forall i {:trigger full[i]} :: 1 <= i < |whole| ==> full[i] == whole[i]
    requires path[5 * above + 5..] == full[5 * above + 5..]
    ensures |Stepped(path, name, above)| == |path| && Stepped(path, name, above)[0] == path[0]
    ensures var from := if above == 0 then 1 else 5 * above; Stepped(path, name, above)[from..] == full[from..]
  {
    var r, from, offset := Stepped(path, name, above), if above == 0 then 1 else 5 * above, 5 * above + 5;
    var text := done + ['.'] + name;
    forall i | from <= i < |path|
      ensures r[i] == full[i]
    {
      if i < offset {
        assert full[i] == whole[i] == text[i];
      } else {
        assert r[i] == path[i] == path[offset..][i - offset];
      }
    }
  }

  lemma PathAt(names: Names, whole: seq<nat>)
    requires RangeNamed(names, whole)
    ensures |Path(names, whole)| == (if whole == [] then 1 else 5 * |whole|) && Path(names, whole)[0] == '\\'
    ensures forall i {:trigger Path(names, whole)[i]} :: 1 <= i < 5 * |whole| ==>
            Path(names, whole)[i] == Dotted(names, whole)[i]
  {
    hide Dotted;
  }

  lemma FillEnd(path: seq<char>, names: Names, whole: seq<nat>, offset: nat)
    requires RangeNamed(names, whole) && Filled(path, names, whole, [], offset)
    ensures path == Path(names, whole) + [NUL]
  {
    hide Dotted;
    var full := Path(names, whole) + [NUL];
    assert path == [path[0]] + path[1..] && full == [full[0]] + full[1..];
  }

  // -------------------------------------------------------------------------
  // Resolving a path

  datatype Result = Found(node: nat) | NotFound | DeniedAccess | InvalidArgument

  /** The first of some nodes with a given name, or null. */
  function FirstNamed(names: Names, s: seq<nat>, name: string): (r: nat)
    requires RangeNamed(names, s)
  {
    if s == [] then NULL else if names[s[0]] == name then s[0] else FirstNamed(names, s[1..], name)
  }

  /** `uacpi_namespace_node_find_sub_node`. */
  method FindSubNode(ns: Namespace, names: Names, x: nat, name: string) returns (r: nat)
    requires ns.Valid() && x in ns.kids && Named(ns.kids, names)
    ensures RangeNamed(names, ns.kids[x]) && r == FirstNamed(names, ns.kids[x], name) && (r == NULL || r in ns.kids)
  {
    hide Linked, Numbered, Named;
    ghost var s := ns.kids[x];
    KidsNamed(ns.kids, ns.child, ns.next, ns.parent, ns.pos, ns.root, names, x);
    ChildFact(ns.kids, ns.child, ns.next, ns.parent, ns.pos, ns.root, x);
    RootIn(ns.kids, ns.child, ns.next, ns.parent, ns.pos, ns.root);
    r := ns.child[x];
    ghost var i := 0;
    while r != NULL
      invariant 0 <= i <= |s| && r == (if i < |s| then s[i] else NULL)
      invariant r != NULL ==> r in ns.kids
      invariant RangeNamed(names, s[i..]) && FirstNamed(names, s, name) == FirstNamed(names, s[i..], name)
      decreases |s| - i
    {
      PeerFact(ns.kids, ns.child, ns.next, ns.parent, ns.pos, ns.root, x, i);
      assert s[i..][0] == s[i] && s[i..][1..] == s[i + 1..];
      if names[r] == name {
        return;
      }
      r := ns.next[r];
      i := i + 1;
    }
    if i < |s| {
      PeerFact(ns.kids, ns.child, ns.next, ns.parent, ns.pos, ns.root, x, i);
    }
  }

  lemma KidsNamed(kids: Kids, child: links, next: links, parent: links, pos: links, root: nat, names: Names, x: nat)
    requires Linked(kids, child, next, parent, pos, root) && Named(kids, names) && x in kids
    ensures RangeNamed(names, kids[x])
  {
    LinkedClosed(kids, child, next, parent, pos, root);
    NamedFact(kids, names, kids[x]);
  }

  /** How many characters `segment_to_name` takes: up to four, none of them a dot. */
  function Taken(s: string, k: nat): (r: nat)
    requires k <= 4 && k <= |s|
    ensures k <= r <= 4 && r <= |s| && (k < r ==> s[k] != '.') &&
            (forall i {:trigger s[i]} :: k <= i < r ==> s[i] != '.')
    ensures r == 4 || r == |s| || s[r] == '.'
    decreases 4 - k
  {
    if k == 4 || k == |s| || s[k] == '.' then k else Taken(s, k + 1)
  }

  /** The name a segment stands for, filled up with underscores. */
  function Segment(s: string): (r: string)
    ensures |r| == 4
  {
    s[..Taken(s, 0)] + seq(4 - Taken(s, 0), _ => '_')
  }

  /** `segment_to_name`. */
  method SegmentToName(s: string) returns (name: string, rest: string)
    ensures name == Segment(s) && rest == s[Taken(s, 0)..]
  {
    var cursor := s;
    name := [];
    ghost var k := 0;
    while |name| < 4
      invariant |name| <= 4 && k <= |name| && k <= |s| && cursor == s[k..] && Taken(s, 0) == Taken(s, k)
      invariant forall i {:trigger name[i]} :: 0 <= i < |name| ==> name[i] == if i < k then s[i] else '_'
      invariant k < |name| ==> Taken(s, 0) == k
    {
      if |cursor| < 1 || cursor[0] == '.' {
        name := name + ['_'];
      } else {
        name := name + [cursor[0]];
        cursor := cursor[1..];
        k := k + 1;
      }
    }
    rest := cursor;
    assert name == Segment(s);
  }

  // What the rest of a path leads to, once its start is known.

  /** The first node with a name below one of the nodes above `x`. */
  ghost function FoundAbove(kids: Kids, n: Numbers, parent: links, pos: links, root: nat, names: Names, x: nat,
                            name: string): (r: nat)
    requires Rooted(kids, n, parent, pos, root) && Closed(kids) && Named(kids, names) && x in kids
    decreases Level(n, x)
  {
    if x == root then NULL
    else assert HomeAt(kids, parent, pos, x);
         assert NumberKid(kids, n, parent[x], pos[x]);
         NamedFact(kids, names, kids[parent[x]]);
         var r := FirstNamed(names, kids[parent[x]], name);
         if r != NULL then r else FoundAbove(kids, n, parent, pos, root, names, parent[x], name)
  }

  /** Segments, each below the last; a single one may also be looked for above. Null if there is no such node. */
  ghost function Segments(kids: Kids, n: Numbers, parent: links, pos: links, root: nat, names: Names,
                          x: nat, s: string, single: bool, above: bool, start: nat): (r: nat)
    requires Rooted(kids, n, parent, pos, root) && Closed(kids) && Named(kids, names) && x in kids &&
             (above ==> start in kids)
    decreases |s|
  {
    if s == [] then x
    else
      var t := if s[0] == '.' then s[1..] else s;
      var rest := t[Taken(t, 0)..];
      var one := single && rest == [];
      NamedFact(kids, names, kids[x]);
      var y := FirstNamed(names, kids[x], Segment(t));
      if y != NULL then FirstNamedIn(kids, names, x, Segment(t));
          Segments(kids, n, parent, pos, root, names, y, rest, one, above, start)
      else if above && one then FoundAbove(kids, n, parent, pos, root, names, start, Segment(t)) else NULL
  }

  lemma FirstNamedIn(kids: Kids, names: Names, x: nat, name: string)
    requires Closed(kids) && x in kids && RangeNamed(names, kids[x]) && FirstNamed(names, kids[x], name) != NULL
    ensures FirstNamed(names, kids[x], name) in kids
  {
    FirstNamedAt(names, kids[x], name);
  }

  lemma {:induction false} FirstNamedAt(names: Names, s: seq<nat>, name: string)
    requires RangeNamed(names, s) && FirstNamed(names, s, name) != NULL
    ensures exists i :: 0 <= i < |s| && s[i] == FirstNamed(names, s, name)
  {
    if names[s[0]] != name {
      FirstNamedAt(names, s[1..], name);
      var i :| 0 <= i < |s[1..]| && s[1..][i] == FirstNamed(names, s[1..], name);
      assert s[i + 1] == FirstNamed(names, s, name);
    }
  }

  /** Where a path starts: the node, what is left of the path, and whether it may still be a single name. */
  datatype Scope = BadScope | Scope(node: nat, rest: string, single: bool)

  /** A path may start at the root, or go up by carets first, but not above the root and not back to it. */
  ghost function ScopeOf(kids: Kids, n: Numbers, parent: links, pos: links, root: nat, x: nat, s: string, caret: bool,
                         single: bool): (r: Scope)
    requires Rooted(kids, n, parent, pos, root) && x in kids
    ensures r.Scope? ==> r.node in kids && |r.rest| <= |s|
    decreases |s|
  {
    if s == [] then Scope(x, s, single)
    else if s[0] == '\\' then (if caret then BadScope else Scope(root, s[1..], false))
    else if s[0] == '^' then
      (if x == root then BadScope
       else assert HomeAt(kids, parent, pos, x); ScopeOf(kids, n, parent, pos, root, parent[x], s[1..], true, false))
    else Scope(x, s, single)
  }

  /** The node a path leads to, or why there is none. */
  ghost function Resolved(kids: Kids, n: Numbers, parent: links, pos: links, root: nat, names: Names, start: nat,
                          s: string,
                          above: bool, hidden: set<nat>): (r: Result)
    requires Rooted(kids, n, parent, pos, root) && Closed(kids) && Named(kids, names)
    requires (start == NULL || start in kids) && (above ==> start != NULL)
  {
    var scope := ScopeOf(kids, n, parent, pos, root, if start == NULL then root else start, s, false, true);
    if scope.BadScope? then InvalidArgument
    else
      var y := Segments(kids, n, parent, pos, root, names, scope.node, scope.rest, scope.single, above, start);
      if y == NULL then NotFound else if y in hidden then DeniedAccess else Found(y)
  }

  /** The first loop of `uacpi_namespace_node_resolve`. */
  method FindScope(ns: Namespace, start: nat, path: string) returns (r: Scope)
    requires ns.Valid() && start in ns.kids
    ensures Rooted(ns.kids, ns.numbers, ns.parent, ns.pos, ns.root)
    ensures r == ScopeOf(ns.kids, ns.numbers, ns.parent, ns.pos, ns.root, start, path, false, true)
  {
    hide Linked, Numbered, Rooted;
    ghost var kids, n, parent, pos, root := ns.kids, ns.numbers, ns.parent, ns.pos, ns.root;
    RootedFact(kids, n, ns.child, ns.next, parent, pos, root);
    var x, cursor, caret, single := start, path, false, true;
    while true
      invariant x in kids
      invariant ScopeOf(kids, n, parent, pos, root, x, cursor, caret, single) ==
                ScopeOf(kids, n, parent, pos, root, start, path, false, true)
      decreases |cursor|
    {
      if |cursor| == 0 {
        return Scope(x, cursor, single);
      }
      if cursor[0] == '\\' {
        if caret {
          return BadScope;
        }
        return Scope(ns.root, cursor[1..], false);
      }
      if cursor[0] != '^' {
        return Scope(x, cursor, single);
      }
      if x == ns.root {
        return BadScope;
      }
      HomeFact(kids, ns.child, ns.next, parent, pos, root, x);
      x, cursor, caret, single := ns.parent[x], cursor[1..], true, false;
    }
  }

  /** The search above a scope in `uacpi_namespace_node_resolve`. */
  method SearchAbove(ns: Namespace, names: Names, start: nat, name: string) returns (r: nat)
    requires ns.Valid() && start in ns.kids && Named(ns.kids, names)
    ensures Rooted(ns.kids, ns.numbers, ns.parent, ns.pos, ns.root) && Closed(ns.kids)
    ensures r == FoundAbove(ns.kids, ns.numbers, ns.parent, ns.pos, ns.root, names, start, name)
  {
    hide Linked, Numbered, Rooted, Closed, Named, Level;
    ghost var kids, n, parent, pos, root := ns.kids, ns.numbers, ns.parent, ns.pos, ns.root;
    RootedFact(kids, n, ns.child, ns.next, parent, pos, root);
    LinkedClosed(kids, ns.child, ns.next, parent, pos, root);
    var x := start;
    LevelFact(kids, n, ns.child, ns.next, parent, pos, root, x);
    while ns.parent[x] != NULL
      invariant x in kids && x in parent && (x != root ==> parent[x] in kids) && (x == root <==> parent[x] == NULL)
      invariant FoundAbove(kids, n, parent, pos, root, names, x, name) ==
                FoundAbove(kids, n, parent, pos, root, names, start, name)
      decreases Level(n, x)
    {
      LevelFact(kids, n, ns.child, ns.next, parent, pos, root, x);
      r := FindSubNode(ns, names, ns.parent[x], name);
      if r != NULL {
        return;
      }
      x := ns.parent[x];
      LevelFact(kids, n, ns.child, ns.next, parent, pos, root, x);
    }
    r := NULL;
  }

  /** The second loop of `uacpi_namespace_node_resolve`. */
  method FollowSegments(ns: Namespace, names: Names, scope: Scope, above: bool, start: nat) returns (r: nat)
    requires ns.Valid() && Named(ns.kids, names) && scope.Scope? && scope.node in ns.kids &&
             (above ==> start in ns.kids)
    ensures Rooted(ns.kids, ns.numbers, ns.parent, ns.pos, ns.root) && Closed(ns.kids)
    ensures r == Segments(ns.kids, ns.numbers, ns.parent, ns.pos, ns.root, names, scope.node, scope.rest, scope.single,
                          above, start)
  {
    hide Linked, Numbered, Rooted, Closed, Named, Level, Segment, FirstNamed;
    ghost var kids, n, parent, pos, root := ns.kids, ns.numbers, ns.parent, ns.pos, ns.root;
    RootedFact(kids, n, ns.child, ns.next, parent, pos, root);
    LinkedClosed(kids, ns.child, ns.next, parent, pos, root);
    RootIn(kids, ns.child, ns.next, parent, pos, root);
    var cursor, single := scope.rest, scope.single;
    r := scope.node;
    while |cursor| != 0
      invariant r in kids
      invariant Segments(kids, n, parent, pos, root, names, r, cursor, single, above, start) ==
                Segments(kids, n, parent, pos, root, names, scope.node, scope.rest, scope.single, above, start)
      decreases |cursor|
    {
      var t := if cursor[0] == '.' then cursor[1..] else cursor;
      var name;
      name, cursor := SegmentToName(t);
      single := single && |cursor| == 0;
      r := FindSubNode(ns, names, r, name);
      if r == NULL {
        if above && single {
          r := SearchAbove(ns, names, start, name);
        }
        return;
      }
    }
  }

  /** `uacpi_namespace_node_resolve`; `hidden` are the temporary nodes when only permanent ones may be seen. */
  method Resolve(ns: Namespace, names: Names, start: nat, path: string, above: bool, hidden: set<nat>)
    returns (r: Result)
    requires ns.Valid() && Named(ns.kids, names) && (start == NULL || start in ns.kids) && (above ==> start != NULL)
    ensures Rooted(ns.kids, ns.numbers, ns.parent, ns.pos, ns.root) && Closed(ns.kids)
    ensures r == Resolved(ns.kids, ns.numbers, ns.parent, ns.pos, ns.root, names, start, path, above, hidden)
  {
    hide Linked, Numbered, Rooted, Closed, Named, Segments, ScopeOf;
    RootIn(ns.kids, ns.child, ns.next, ns.parent, ns.pos, ns.root);
    LinkedClosed(ns.kids, ns.child, ns.next, ns.parent, ns.pos, ns.root);
    var scope := FindScope(ns, if start == NULL then ns.root else start, path);
    if scope.BadScope? {
      return InvalidArgument;
    }
    var y := FollowSegments(ns, names, scope, above, start);
    if y == NULL {
      return NotFound;
    }
    if y in hidden {
      return DeniedAccess;
    }
    return Found(y);
  }

  // -------------------------------------------------------------------------
  // The round trip

  lemma {:induction false} DottedFront(names: Names, x: nat, t: seq<nat>)
    requires RangeNamed(names, t) && x in names && |names[x]| == 4
    ensures RangeNamed(names, [x] + t) && Dotted(names, [x] + t) == ['.'] + names[x] + Dotted(names, t)
  {
    var s := [x] + t;
    assert RangeNamed(names, s) by {
      forall i {:trigger s[i]} | 0 <= i < |s|
        ensures s[i] in names && |names[s[i]]| == 4
      {
        assert i > 0 ==> s[i] == t[i - 1];
      }
    }
    if t == [] {
      assert s[..0] == [] && s[0] == x;
    } else {
      var u := t[..|t| - 1];
      DottedFront(names, x, u);
      assert s[..|s| - 1] == [x] + u && s[|s| - 1] == t[|t| - 1];
    }
  }

  predicate Plain(name: string) {
    |name| == 4 && name[0] != '.' && name[1] != '.' && name[2] != '.' && name[3] != '.'
  }

  /** A plain name at the start of a path is read as it is. */
  lemma PlainSegment(name: string, rest: string)
    requires Plain(name)
    ensures Taken(name + rest, 0) == 4 && Segment(name + rest) == name && (name + rest)[4..] == rest
  {
    var s := name + rest;
    assert Taken(s, 4) == 4;
    assert Taken(s, 3) == 4;
    assert Taken(s, 2) == 4;
    assert Taken(s, 1) == 4;
  }

  /** Each node is the first of its name below the one before it, and its name is plain. */
  ghost predicate Chain(kids: Kids, names: Names, x: nat, t: seq<nat>)
    decreases |t|
  {
    t == [] || (&& x in kids && RangeNamed(names, kids[x]) && t[0] in kids && t[0] != NULL && t[0] in names
                && Plain(names[t[0]]) && FirstNamed(names, kids[x], names[t[0]]) == t[0] &&
                   Chain(kids, names, t[0], t[1..]))
  }

  lemma {:induction false} ChainAppend(kids: Kids, names: Names, x: nat, t: seq<nat>, y: nat)
    requires Chain(kids, names, x, t) && Chain(kids, names, if t == [] then x else t[|t| - 1], [y])
    ensures Chain(kids, names, x, t + [y])
    decreases |t|
  {
    if t == [] {
      assert t + [y] == [y];
    } else {
      ChainAppend(kids, names, t[0], t[1..], y);
      assert (t + [y])[1..] == t[1..] + [y];
    }
  }

  /** Segments lead down a chain, whether or not there is a dot before the first. */
  lemma {:induction false} SegmentsChain(kids: Kids, n: Numbers, parent: links, pos: links, root: nat, names: Names,
                                         x: nat, t: seq<nat>,
                                         dot: bool, above: bool, start: nat)
    requires Rooted(kids, n, parent, pos, root) && Closed(kids) && Named(kids, names) && x in kids &&
             (above ==> start in kids)
    requires RangeNamed(names, t) && Chain(kids, names, x, t)
    ensures var s := if dot || t == [] then Dotted(names, t) else Dotted(names, t)[1..];
            Segments(kids, n, parent, pos, root, names, x, s, false, above, start) == if t == [] then x else t[|t| - 1]
    decreases |t|
  {
    hide Rooted, Closed, Named, FirstNamed, Plain;
    if t == [] {
      assert Dotted(names, t) == [];
    } else {
      ChainHead(kids, names, x, t);
      hide Segments, Dotted, Chain, RangeNamed;
      FirstSegment(kids, n, parent, pos, root, names, x, t, dot, above, start);
      SegmentsChain(kids, n, parent, pos, root, names, t[0], t[1..], true, above, start);
    }
  }

  lemma ChainHead(kids: Kids, names: Names, x: nat, t: seq<nat>)
    requires Chain(kids, names, x, t) && t != []
    ensures x in kids && RangeNamed(names, kids[x]) && t[0] in kids && t[0] != NULL && t[0] in names &&
            Plain(names[t[0]])
    ensures FirstNamed(names, kids[x], names[t[0]]) == t[0] && Chain(kids, names, t[0], t[1..])
  {
  }

  /** The first segment leads to the first node of that name, and the rest goes on from there. */
  lemma FirstSegment(kids: Kids, n: Numbers, parent: links, pos: links, root: nat, names: Names, x: nat, t: seq<nat>,
                     dot: bool, above: bool, start: nat)
    requires Rooted(kids, n, parent, pos, root) && Closed(kids) && Named(kids, names) && x in kids &&
             (above ==> start in kids)
    requires t != [] && RangeNamed(names, t) && t[0] in names && Plain(names[t[0]])
    ensures RangeNamed(names, t[1..]) && RangeNamed(names, kids[x])
    ensures var s := if dot then Dotted(names, t) else Dotted(names, t)[1..];
            var y := FirstNamed(names, kids[x], names[t[0]]);
            && (y != NULL ==> y in kids)
            && Segments(kids, n, parent, pos, root, names, x, s, false, above, start)
            == if y == NULL then NULL
              else Segments(kids, n, parent, pos, root, names, y, Dotted(names, t[1..]), false, above, start)
  {
    hide Rooted, Named, Taken, Segment, FirstNamed, Plain;
    var y, rest := t[0], t[1..];
    assert t == [y] + rest;
    RestNamed(names, t);
    NamedFact(kids, names, kids[x]);
    DottedFront(names, y, rest);
    var tail := Dotted(names, rest);
    PlainSegment(names[y], tail);
    assert (['.'] + names[y] + tail)[1..] == names[y] + tail;
    PlainStart(names[y], tail);
    if FirstNamed(names, kids[x], names[y]) != NULL {
      FirstNamedIn(kids, names, x, names[y]);
    }
  }

  lemma RestNamed(names: Names, t: seq<nat>)
    requires RangeNamed(names, t) && t != []
    ensures RangeNamed(names, t[1..]) && t[0] in names && |names[t[0]]| == 4
  {
    forall i {:trigger t[1..][i]} | 0 <= i < |t[1..]|
      ensures t[1..][i] in names && |names[t[1..][i]]| == 4
    {
      assert t[1..][i] == t[i + 1];
    }
  }

  lemma PlainStart(name: string, tail: string)
    requires Plain(name)
    ensures |name + tail| > 0 && (name + tail)[0] != '.'
  {
  }

  /** From the root to a node: plain names, and no earlier peer of the same name. */
  ghost predicate Findable(kids: Kids, n: Numbers, parent: links, pos: links, root: nat, names: Names, x: nat)
    requires Rooted(kids, n, parent, pos, root) && x in kids
    decreases Level(n, x)
  {
    x == root || (
      assert HomeAt(kids, parent, pos, x);
      assert NumberKid(kids, n, parent[x], pos[x]);
      && x in names && Plain(names[x])
      && (forall j {:trigger kids[parent[x]][j]} :: 0 <= j < pos[x] ==>
          kids[parent[x]][j] in names && names[kids[parent[x]][j]] != names[x])
      && Findable(kids, n, parent, pos, root, names, parent[x]))
  }

  lemma {:induction false} FirstOfName(names: Names, s: seq<nat>, i: nat)
    requires RangeNamed(names, s) && i < |s| && forall j {:trigger s[j]} :: 0 <= j < i ==> names[s[j]] != names[s[i]]
    ensures FirstNamed(names, s, names[s[i]]) == s[i]
  {
    if i > 0 {
      assert names[s[0]] != names[s[i]];
      assert s[1..][i - 1] == s[i];
      FirstOfName(names, s[1..], i - 1);
    }
  }

  lemma {:induction false} ChainTrail(kids: Kids, n: Numbers, parent: links, pos: links, root: nat, names: Names,
                                      x: nat)
    requires Rooted(kids, n, parent, pos, root) && Closed(kids) && Named(kids, names) && x in kids
    requires Findable(kids, n, parent, pos, root, names, x)
    ensures Chain(kids, names, root, Trail(kids, n, parent, pos, root, x))
    decreases Level(n, x)
  {
    if x != root {
      assert HomeAt(kids, parent, pos, x);
      assert NumberKid(kids, n, parent[x], pos[x]);
      var p := parent[x];
      var u := Trail(kids, n, parent, pos, root, p);
      ChainTrail(kids, n, parent, pos, root, names, p);
      TrailStep(kids, n, parent, pos, root, names, p);
      NamedFact(kids, names, kids[p]);
      FirstOfName(names, kids[p], pos[x]);
      assert Chain(kids, names, x, []);
      assert [x][1..] == [];
      assert Chain(kids, names, p, [x]);
      ChainAppend(kids, names, root, u, x);
    }
  }

  // Whatever segments lead to lies below where they start, so they can only lead to a node by its own trail.

  lemma KidTrail(kids: Kids, n: Numbers, child: links, next: links, parent: links, pos: links, root: nat, x: nat,
                 i: nat)
    requires Linked(kids, child, next, parent, pos, root) && Numbered(kids, n, root) &&
             Rooted(kids, n, parent, pos, root)
    requires x in kids && i < |kids[x]|
    ensures kids[x][i] in kids && kids[x][i] in parent && kids[x][i] in pos && kids[x][i] != root
    ensures parent[kids[x][i]] == x && pos[kids[x][i]] == i
    ensures Trail(kids, n, parent, pos, root, kids[x][i]) == Trail(kids, n, parent, pos, root, x) + [kids[x][i]]
  {
    assert PeerAt(kids, next, parent, pos, root, x, i);
  }

  lemma {:induction false} LandsBelow(kids: Kids, n: Numbers, child: links, next: links, parent: links, pos: links,
                                      root: nat, names: Names,
                                      x: nat, s: string, above: bool, start: nat)
    requires Linked(kids, child, next, parent, pos, root) && Rooted(kids, n, parent, pos, root) && Closed(kids) &&
             Named(kids, names)
    requires Numbered(kids, n, root) && x in kids && (above ==> start in kids)
    ensures var y := Segments(kids, n, parent, pos, root, names, x, s, false, above, start);
            y != NULL ==> y in kids && Trail(kids, n, parent, pos, root, x) <= Trail(kids, n, parent, pos, root, y)
    decreases |s|
  {
    hide Linked, Rooted, Numbered, Closed, Named, Taken, Segment, FirstNamed, Trail;
    if s == [] {
      RootIn(kids, child, next, parent, pos, root);
    } else {
      var t := if s[0] == '.' then s[1..] else s;
      var rest := t[Taken(t, 0)..];
      KidsNamed(kids, child, next, parent, pos, root, names, x);
      var y := FirstNamed(names, kids[x], Segment(t));
      if y != NULL {
        FirstNamedAt(names, kids[x], Segment(t));
        var i :| 0 <= i < |kids[x]| && kids[x][i] == y;
        KidTrail(kids, n, child, next, parent, pos, root, x, i);
        LandsBelow(kids, n, child, next, parent, pos, root, names, y, rest, above, start);
      }
    }
  }

  /** The names of some nodes, none of them with a dot. */
  ghost predicate AllPlain(names: Names, t: seq<nat>) {
    forall i {:trigger t[i]} :: 0 <= i < |t| ==> t[i] in names && Plain(names[t[i]])
  }

  /** If segments lead to the end of a trail, each node of it is the first of its name. */
  lemma {:induction false} LandsByChain(kids: Kids, n: Numbers, child: links, next: links, parent: links, pos: links,
                                        root: nat, names: Names,
                                        x: nat, t: seq<nat>, y: nat, dot: bool, above: bool, start: nat)
    requires Linked(kids, child, next, parent, pos, root) && Rooted(kids, n, parent, pos, root) && Closed(kids) &&
             Named(kids, names)
    requires Numbered(kids, n, root) && x in kids && y in kids && (above ==> start in kids)
    requires RangeNamed(names, t) && AllPlain(names, t)
    requires Trail(kids, n, parent, pos, root, y) == Trail(kids, n, parent, pos, root, x) + t
    requires var s := if dot || t == [] then Dotted(names, t) else Dotted(names, t)[1..];
             Segments(kids, n, parent, pos, root, names, x, s, false, above, start) == y
    ensures Chain(kids, names, x, t)
    decreases |t|
  {
    hide Linked, Rooted, Numbered, Closed, Named, FirstNamed, Trail, Plain, Segments, Dotted, AllPlain, RangeNamed;
    if t != [] {
      RestPlain(names, t);
      FirstSegment(kids, n, parent, pos, root, names, x, t, dot, above, start);
      RootIn(kids, child, next, parent, pos, root);
      var z := FirstNamed(names, kids[x], names[t[0]]);
      FirstNamedAt(names, kids[x], names[t[0]]);
      var i :| 0 <= i < |kids[x]| && kids[x][i] == z;
      KidTrail(kids, n, child, next, parent, pos, root, x, i);
      LandsBelow(kids, n, child, next, parent, pos, root, names, z, Dotted(names, t[1..]), above, start);
      SameNext(Trail(kids, n, parent, pos, root, x), z, t);
      LandsByChain(kids, n, child, next, parent, pos, root, names, z, t[1..], y, true, above, start);
    }
  }

  lemma RestPlain(names: Names, t: seq<nat>)
    requires AllPlain(names, t) && t != []
    ensures AllPlain(names, t[1..]) && t[0] in names && Plain(names[t[0]])
  {
    forall i {:trigger t[1..][i]} | 0 <= i < |t[1..]|
      ensures t[1..][i] in names && Plain(names[t[1..][i]])
    {
      assert t[1..][i] == t[i + 1];
    }
  }

  lemma SameNext(u: seq<nat>, z: nat, t: seq<nat>)
    requires t != [] && u + [z] <= u + t
    ensures z == t[0] && u + t == (u + [z]) + t[1..]
  {
    assert (u + [z])[|u|] == z && (u + t)[|u|] == t[0];
  }

  lemma {:induction false} ChainSplit(kids: Kids, names: Names, x: nat, t: seq<nat>, y: nat)
    requires Chain(kids, names, x, t + [y])
    ensures Chain(kids, names, x, t) && Chain(kids, names, if t == [] then x else t[|t| - 1], [y])
    decreases |t|
  {
    if t == [] {
      assert t + [y] == [y];
    } else {
      assert (t + [y])[1..] == t[1..] + [y];
      ChainSplit(kids, names, t[0], t[1..], y);
    }
  }

  /** The first of a name has no earlier peer of that name. */
  lemma {:induction false} FirstAlone(names: Names, s: seq<nat>, name: string, j: nat)
    requires RangeNamed(names, s) && j < |s| && names[s[j]] == name
    ensures exists i :: 0 <= i <= j && s[i] == FirstNamed(names, s, name)
  {
    if names[s[0]] != name {
      FirstAlone(names, s[1..], name, j - 1);
      var i :| 0 <= i <= j - 1 && s[1..][i] == FirstNamed(names, s[1..], name);
      assert s[i + 1] == FirstNamed(names, s, name);
    }
  }

  lemma {:induction false} ChainFindable(kids: Kids, n: Numbers, child: links, next: links, parent: links, pos: links,
                                         root: nat, names: Names, x: nat)
    requires Linked(kids, child, next, parent, pos, root) && Rooted(kids, n, parent, pos, root) && Closed(kids) &&
             Named(kids, names)
    requires Numbered(kids, n, root) && x in kids && Chain(kids, names, root, Trail(kids, n, parent, pos, root, x))
    ensures Findable(kids, n, parent, pos, root, names, x)
    decreases Level(n, x)
  {
    hide Linked, Closed, Named, Plain, FirstNamed;
    if x != root {
      assert HomeAt(kids, parent, pos, x);
      assert NumberKid(kids, n, parent[x], pos[x]);
      var p := parent[x];
      var u := Trail(kids, n, parent, pos, root, p);
      ChainSplit(kids, names, root, u, x);
      TrailStep(kids, n, parent, pos, root, names, p);
      ChainFindable(kids, n, child, next, parent, pos, root, names, p);
      KidsNamed(kids, child, next, parent, pos, root, names, p);
      forall j {:trigger kids[p][j]} | 0 <= j < pos[x]
        ensures kids[p][j] in names && names[kids[p][j]] != names[x]
      {
        if names[kids[p][j]] == names[x] {
          FirstAlone(names, kids[p], names[x], j);
          var i :| 0 <= i <= j && kids[p][i] == FirstNamed(names, kids[p], names[x]);
          KidTrail(kids, n, child, next, parent, pos, root, p, i);
        }
      }
    }
  }

  /** Resolving a node's own path, from anywhere, leads back to the node. */
  lemma LeadsBack(kids: Kids, n: Numbers, parent: links, pos: links, root: nat, names: Names, x: nat, start: nat,
                  above: bool, hidden: set<nat>)
    requires Rooted(kids, n, parent, pos, root) && Closed(kids) && Named(kids, names) && x in kids && x !in hidden
    requires (start == NULL || start in kids) && (above ==> start != NULL) &&
             Findable(kids, n, parent, pos, root, names, x)
    ensures RangeNamed(names, Trail(kids, n, parent, pos, root, x))
    ensures Resolved(kids, n, parent, pos, root, names, start, Path(names, Trail(kids, n, parent, pos, root, x)), above,
                     hidden) == Found(x)
  {
    hide Findable, Named, Closed, Chain, Dotted, Segments, Resolved, Path;
    var t := Trail(kids, n, parent, pos, root, x);
    NamedFact(kids, names, t);
    ChainTrail(kids, n, parent, pos, root, names, x);
    SegmentsChain(kids, n, parent, pos, root, names, root, t, false, above, start);
    ResolvedPath(kids, n, parent, pos, root, names, t, start, above, hidden);
  }

  /** An absolute path is followed from the root, wherever one starts, and never looked for above. */
  lemma ResolvedPath(kids: Kids, n: Numbers, parent: links, pos: links, root: nat, names: Names, t: seq<nat>,
                     start: nat, above: bool, hidden: set<nat>)
    requires Rooted(kids, n, parent, pos, root) && Closed(kids) && Named(kids, names) && RangeNamed(names, t)
    requires (start == NULL || start in kids) && (above ==> start != NULL)
    ensures var s := if t == [] then Dotted(names, t) else Dotted(names, t)[1..];
            root in kids && Resolved(kids, n, parent, pos, root, names, start, Path(names, t), above, hidden)
            == var y := Segments(kids, n, parent, pos, root, names, root, s, false, above, start);
               if y == NULL then NotFound else if y in hidden then DeniedAccess else Found(y)
  {
    hide Segments, Named, Closed, Numbered, Dotted, Path;
    PathTail(names, t);
  }

  lemma PathTail(names: Names, t: seq<nat>)
    requires RangeNamed(names, t)
    ensures |Path(names, t)| > 0 && Path(names, t)[0] == '\\'
    ensures Path(names, t)[1..] == if t == [] then Dotted(names, t) else Dotted(names, t)[1..]
  {
  }

  /**
   With names that hold no dots, resolving a node's own path from anywhere finds the node if and only if neither it nor
   a node above it has an earlier peer of the same name.
   */
  lemma RoundTrip(kids: Kids, n: Numbers, child: links, next: links, parent: links, pos: links, root: nat, names: Names,
                  x: nat, start: nat, above: bool, hidden: set<nat>)
    requires Linked(kids, child, next, parent, pos, root) && Rooted(kids, n, parent, pos, root) && Closed(kids) &&
             Named(kids, names)
    requires Numbered(kids, n, root) && x in kids && x !in hidden && (start == NULL || start in kids) &&
             (above ==> start != NULL)
    requires AllPlain(names, Trail(kids, n, parent, pos, root, x))
    ensures RangeNamed(names, Trail(kids, n, parent, pos, root, x))
    ensures Resolved(kids, n, parent, pos, root, names, start, Path(names, Trail(kids, n, parent, pos, root, x)), above,
                     hidden) == Found(x)
       <==> Findable(kids, n, parent, pos, root, names, x)
  {
    hide Linked, Rooted, Findable, Named, Closed, Chain, Dotted, Segments, Numbered, Trail, Path, Resolved;
    var t := Trail(kids, n, parent, pos, root, x);
    TrailNamed(kids, n, parent, pos, root, names, x);
    ResolvedPath(kids, n, parent, pos, root, names, t, start, above, hidden);
    RootIn(kids, child, next, parent, pos, root);
    if Findable(kids, n, parent, pos, root, names, x) {
      LeadsBack(kids, n, parent, pos, root, names, x, start, above, hidden);
    } else if Resolved(kids, n, parent, pos, root, names, start, Path(names, t), above, hidden) == Found(x) {
      RootTrail(kids, n, parent, pos, root);
      LandsByChain(kids, n, child, next, parent, pos, root, names, root, t, x, false, above, start);
      ChainFindable(kids, n, child, next, parent, pos, root, names, x);
    }
  }

  lemma TrailNamed(kids: Kids, n: Numbers, parent: links, pos: links, root: nat, names: Names, x: nat)
    requires Rooted(kids, n, parent, pos, root) && Named(kids, names) && x in kids
    ensures RangeNamed(names, Trail(kids, n, parent, pos, root, x))
  {
    NamedFact(kids, names, Trail(kids, n, parent, pos, root, x));
  }

  lemma RootTrail(kids: Kids, n: Numbers, parent: links, pos: links, root: nat)
    requires Rooted(kids, n, parent, pos, root)
    ensures root in kids && Trail(kids, n, parent, pos, root, root) == []
  {
  }

  /** The text in a buffer, up to its terminator. */
  method Text(buffer: array<char>) returns (s: string)
    requires exists i :: 0 <= i < buffer.Length && buffer[i] == NUL
    ensures |s| < buffer.Length && s == buffer[..|s|] && NUL !in s && buffer[|s|] == NUL
  {
    var i := 0;
    while buffer[i] != NUL
      invariant 0 <= i < buffer.Length && NUL !in buffer[..i] && exists j :: i <= j < buffer.Length && buffer[j] == NUL
      decreases buffer.Length - i
    {
      i := i + 1;
    }
    return buffer[..i];
  }

  /** Writing a node's path and resolving it, with names that hold neither dots nor terminators. */
  method ThereAndBack(ns: Namespace, names: Names, node: nat) returns (r: Result)
    requires ns.Valid() && node in ns.kids && Named(ns.kids, names) &&
             Rooted(ns.kids, ns.numbers, ns.parent, ns.pos, ns.root)
    requires AllPlain(names, Trail(ns.kids, ns.numbers, ns.parent, ns.pos, ns.root, node))
    requires forall x {:trigger names[x]} :: x in names ==> NUL !in names[x]
    ensures r == Found(node) <==> Findable(ns.kids, ns.numbers, ns.parent, ns.pos, ns.root, names, node)
  {
    hide Linked, Numbered, Rooted, Named, Findable, Trail, Path, Resolved, AllPlain, Closed;
    var path := GenerateAbsolutePath(ns, names, node);
    ghost var t := Trail(ns.kids, ns.numbers, ns.parent, ns.pos, ns.root, node);
    assert path[|Path(names, t)|] == NUL;
    NoTerminator(names, t);
    var s := Text(path);
    assert s + [NUL] <= path[..];
    SameText(s, Path(names, t));
    r := Resolve(ns, names, NULL, s, false, {});
    RoundTrip(ns.kids, ns.numbers, ns.child, ns.next, ns.parent, ns.pos, ns.root, names, node, NULL, false, {});
  }

  lemma SameText(s: string, p: string)
    requires NUL !in s && NUL !in p && s + [NUL] <= p + [NUL]
    ensures s == p
  {
    var q, r := p + [NUL], s + [NUL];
    assert forall i :: 0 <= i < |p| ==> q[i] == p[i] && p[i] in p;
    assert r[|s|] == q[|s|];
    assert forall i :: 0 <= i < |s| ==> s[i] == r[i] && r[i] == q[i];
  }

  lemma NoTerminator(names: Names, t: seq<nat>)
    requires RangeNamed(names, t) && forall x {:trigger names[x]} :: x in names ==> NUL !in names[x]
    ensures NUL !in Path(names, t)
  {
    NoTerminatorDotted(names, t);
  }

  lemma {:induction false} NoTerminatorDotted(names: Names, t: seq<nat>)
    requires RangeNamed(names, t) && forall x {:trigger names[x]} :: x in names ==> NUL !in names[x]
    ensures NUL !in Dotted(names, t)
  {
    if t != [] {
      NoTerminatorDotted(names, t[..|t| - 1]);
      assert t[|t| - 1] in names;
    }
  }
}
