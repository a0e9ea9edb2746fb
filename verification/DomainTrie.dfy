/** The domain full/suffix index: a trie over the labels of a domain, last label
    first, that insertion and lookup walk with a moving pointer and leave early. */
module DomainTrie {
  import opened DomainNames

  datatype Match = Unmarked | Full | Suffix

  /** The labels of a domain, last label first. */
  type Path = seq<string>

  function Reverse(p: Path): (r: Path)
    ensures |r| == |p| && forall i :: 0 <= i < |p| ==> r[i] == p[|p| - 1 - i]
  {
    seq(|p|, i requires 0 <= i < |p| => p[|p| - 1 - i])
  }

  // ------------------------------------------------------------------
  // What the trie stands for

  /** The marked nodes, by path. */
  type Marks = map<Path, Match>

  /** Some proper, non-empty prefix of `p` is marked as a suffix rule. */
  ghost predicate Shadowed(m: Marks, p: Path)
  {
    exists k :: 1 <= k < |p| && MarkedSuffix(m, p[..k])
  }

  ghost predicate MarkedSuffix(m: Marks, p: Path)
  {
    p in m && m[p] == Suffix
  }

  /** The marks after inserting a rule. */
  ghost function Added(m: Marks, p: Path, kind: Match): Marks
  {
    if Shadowed(m, p) || MarkedSuffix(m, p) then m else m[p := kind]
  }

  ghost predicate Found(m: Marks, q: Path)
  {
    (exists k :: 1 <= k <= |q| && MarkedSuffix(m, q[..k])) || (q in m && m[q] == Full)
  }

  datatype Rule = Rule(path: Path, kind: Match)

  ghost predicate Proper(r: Rule)
  {
    r.path != [] && r.kind != Unmarked
  }

  /** The plain meaning of one rule. */
  ghost predicate Covers(r: Rule, q: Path)
  {
    if r.kind == Suffix then r.path <= q else r.path == q
  }

  ghost function MarksOf(rules: seq<Rule>): Marks
  {
    if |rules| == 0 then map[]
    else Added(MarksOf(rules[..|rules| - 1]), rules[|rules| - 1].path, rules[|rules| - 1].kind)
  }

  /** Adding a rule makes exactly the queries it covers match, and no match is lost:
      what the early exits skip was matched anyway. */
  lemma AddedFinds(m: Marks, r: Rule, q: Path)
    requires Proper(r) && q != []
    ensures Found(Added(m, r.path, r.kind), q) <==> Found(m, q) || Covers(r, q)
  {
    var m' := Added(m, r.path, r.kind);
    if Shadowed(m, r.path) || MarkedSuffix(m, r.path) {
      if Covers(r, q) {
        assert r.path[..|r.path|] == r.path;
        var k :| 1 <= k <= |r.path| && MarkedSuffix(m, r.path[..k]);
        assert q[..k] == r.path[..k];
      }
    } else {
      if Found(m, q) && !(q in m && m[q] == Full) {
        var k :| 1 <= k <= |q| && MarkedSuffix(m, q[..k]);
        assert MarkedSuffix(m', q[..k]);
      }
      if Covers(r, q) && r.kind == Suffix {
        assert q[..|r.path|] == r.path && MarkedSuffix(m', q[..|r.path|]);
      }
      if Found(m', q) && !(q in m' && m'[q] == Full) {
        var k :| 1 <= k <= |q| && MarkedSuffix(m', q[..k]);
        assert MarkedSuffix(m, q[..k]) || q[..k] == r.path;
      }
    }
  }

  /** The trie agrees with the plain list of rules, whatever their order and number. */
  lemma {:induction false} AgreesWithRules(rules: seq<Rule>, q: Path)
    requires (forall i :: 0 <= i < |rules| ==> Proper(rules[i])) && q != []
    ensures Found(MarksOf(rules), q) <==> exists i :: 0 <= i < |rules| && Covers(rules[i], q)
  {
    if |rules| > 0 {
      var front, last := rules[..|rules| - 1], rules[|rules| - 1];
      AgreesWithRules(front, q);
      AddedFinds(MarksOf(front), last, q);
      if Found(MarksOf(front), q) {
        var i :| 0 <= i < |front| && Covers(front[i], q);
        assert Covers(rules[i], q);
      }
      if exists i :: 0 <= i < |rules| && Covers(rules[i], q) {
        var i :| 0 <= i < |rules| && Covers(rules[i], q);
        assert i < |front| ==> Covers(front[i], q);
      }
    }
  }

  /** So the order and the repetition of rules do not matter. */
  lemma {:induction false} OrderDoesNotMatter(a: seq<Rule>, b: seq<Rule>, q: Path)
    requires forall i :: 0 <= i < |a| ==> Proper(a[i])
    requires forall i :: 0 <= i < |b| ==> Proper(b[i])
    requires (forall r :: r in a ==> r in b) && (forall r :: r in b ==> r in a) && q != []
    ensures Found(MarksOf(a), q) <==> Found(MarksOf(b), q)
  {
    AgreesWithRules(a, q);
    AgreesWithRules(b, q);
    if Found(MarksOf(a), q) {
      var i :| 0 <= i < |a| && Covers(a[i], q);
      assert a[i] in b;
    }
    if Found(MarksOf(b), q) {
      var i :| 0 <= i < |b| && Covers(b[i], q);
      assert b[i] in a;
    }
  }

  // ------------------------------------------------------------------
  // The trie in the heap

  /** domainSegments; a nil map of children reads as an empty one. */
  class Node {
    var mark: Match
    var children: map<string, Node>
    ghost const path: Path

    constructor (mark: Match, ghost path: Path)
      ensures this.mark == mark && children == map[] && this.path == path
    {
      this.mark, children, this.path := mark, map[], path;
    }
  }

  function Child(p: Path, name: string): (c: Path)
  {
    p + [name]
  }

  lemma ChildInjective(p: Path, l: string, q: Path, m: string)
    ensures Child(p, l) == Child(q, m) <==> p == q && l == m
    ensures Child(p, l) != [] && Child(Child(p, l), m) != Child(p, l)
  {
    assert Child(p, l)[..|Child(p, l)| - 1] == p && Child(p, l)[|Child(p, l)| - 1] == l;
    assert Child(q, m)[..|Child(q, m)| - 1] == q && Child(q, m)[|Child(q, m)| - 1] == m;
  }

  class Trie {
    const root: Node
    /** Every node by its path from the root, and the marked ones among them. */
    ghost var nodes: map<Path, Node>
    ghost var marks: Marks
    ghost var repr: set<Node>

    /** The node at `p` is its own and carries the mark of `p`. */
    ghost predicate NodeOk(p: Path)
      reads this, repr
    {
      && (p in marks ==> p in nodes && marks[p] != Unmarked)
      && (p in nodes ==> nodes[p] in repr && nodes[p].path == p
                         && nodes[p].mark == if p in marks then marks[p] else Unmarked)
    }

    /** The children of a node are exactly its one-label extensions. */
    ghost predicate EdgeOk(p: Path, l: string)
      reads this, repr
    {
      && (Child(p, l) in nodes ==> p in nodes)
      && (p in nodes && nodes[p] in repr ==>
            && (l in nodes[p].children <==> Child(p, l) in nodes)
            && (l in nodes[p].children ==> nodes[p].children[l] == nodes[Child(p, l)]))
    }

    ghost predicate Valid()
      reads this, repr
    {
      && [] in nodes && nodes[[]] == root
      && (forall p :: NodeOk(p)) && (forall p, l :: EdgeOk(p, l))
    }

    constructor ()
      ensures Valid() && marks == map[] && fresh(repr)
    {
      root := new Node(Unmarked, []);
      new;
      nodes, marks, repr := map[[] := root], map[], {root};
      assert forall p, l :: Child(p, l) != [];
    }

    /** Hangs a new, unmarked node below `cur`. */
    method Grow(cur: Node, ghost p: Path, name: string) returns (next: Node)
      requires Valid() && p in nodes && nodes[p] == cur && name !in cur.children
      modifies this`nodes, this`repr, cur`children
      ensures Valid() && fresh(next) && next.mark == Unmarked
      ensures nodes == old(nodes)[Child(p, name) := next] && repr == old(repr) + {next}
    {
      assert NodeOk(p) && EdgeOk(p, name) && NodeOk(Child(p, name));
      next := new Node(Unmarked, Child(p, name));
      cur.children := cur.children[name := next];
      nodes, repr := nodes[Child(p, name) := next], repr + {next};
      forall q
        ensures NodeOk(q)
      {
        assert old(NodeOk(q));
      }
      forall q, l
        ensures EdgeOk(q, l)
      {
        ChildInjective(q, l, p, name);
        assert old(EdgeOk(q, l)) && old(NodeOk(q)) && old(NodeOk(Child(q, l)));
        assert old(EdgeOk(Child(p, name), l));
      }
    }

    /** One step of an insertion: down to the child, made if need be; `stop` at a suffix mark. */
    method Down(cur: Node, ghost p: Path, name: string) returns (next: Node, stop: bool)
      requires Valid() && p in nodes && nodes[p] == cur
      modifies this`nodes, this`repr, cur`children
      ensures Valid() && fresh(repr - old(repr))
      ensures Child(p, name) in nodes && nodes[Child(p, name)] == next
      ensures stop <==> MarkedSuffix(marks, Child(p, name))
    {
      assert NodeOk(p) && EdgeOk(p, name) && NodeOk(Child(p, name));
      if name !in cur.children {
        next := Grow(cur, p, name);
        stop := false;
      } else {
        next := cur.children[name];
        stop := next.mark == Suffix;
      }
    }

    /** The walk of an insertion, from the last label to the second: ends at the
        node above the first label, or at a suffix mark that shadows the rule. */
    method Walk(segments: seq<string>, ghost path: Path) returns (cur: Node, stop: bool)
      requires Valid() && segments != [] && path == Reverse(segments)
      modifies this`nodes, this`repr, repr
      ensures Valid() && fresh(repr - old(repr))
      ensures stop <==> Shadowed(marks, path)
      ensures !stop ==> path[..|path| - 1] in nodes && nodes[path[..|path| - 1]] == cur
    {
      cur, stop := root, false;
      var i := |segments| - 1;
      ghost var p: Path := [];
      while i >= 1 && !stop
        invariant 0 <= i < |segments| && Valid() && fresh(repr - old(repr))
        invariant p == path[..|segments| - 1 - i]
        invariant !stop ==> p in nodes && nodes[p] == cur
        invariant !stop ==> forall k :: 1 <= k <= |p| ==> !MarkedSuffix(marks, path[..k])
        invariant stop ==> Shadowed(marks, path)
        decreases i
      {
        assert NodeOk(p);
        cur, stop := Down(cur, p, segments[i]);
        p := Child(p, segments[i]);
        assert p == path[..|segments| - i];
        i := i - 1;
      }
    }

    /** addDomainFullOrSuffixRule on the labels of a domain. */
    method Add(segments: seq<string>, kind: Match)
      requires Valid() && segments != [] && kind != Unmarked
      modifies this, repr
      ensures Valid() && fresh(repr - old(repr))
      ensures marks == Added(old(marks), Reverse(segments), kind)
    {
      ghost var path := Reverse(segments);
      var cur, stop := Walk(segments, path);
      if !stop {
        assert path == Child(path[..|path| - 1], segments[0]);
        Finish(cur, path[..|path| - 1], segments[0], kind);
      }
    }

    /** The last step of an insertion: a suffix mark stays, anything else is overwritten. */
    method Finish(cur: Node, ghost p: Path, last: string, kind: Match)
      requires Valid() && p in nodes && nodes[p] == cur && kind != Unmarked
      modifies this, repr
      ensures Valid() && fresh(repr - old(repr))
      ensures marks == if MarkedSuffix(old(marks), Child(p, last)) then old(marks)
                       else old(marks)[Child(p, last) := kind]
    {
      assert NodeOk(p) && EdgeOk(p, last) && NodeOk(Child(p, last));
      if last !in cur.children {
        var next := Grow(cur, p, last);
        Mark(next, Child(p, last), kind);
      } else {
        var next := cur.children[last];
        if next.mark != Suffix {
          Mark(next, Child(p, last), kind);
        }
      }
    }

    method Mark(node: Node, ghost p: Path, kind: Match)
      requires Valid() && p in nodes && nodes[p] == node && kind != Unmarked
      modifies this`marks, node`mark
      ensures Valid() && marks == old(marks)[p := kind]
    {
      assert NodeOk(p);
      node.mark := kind;
      marks := marks[p := kind];
      forall q
        ensures NodeOk(q)
      {
        assert old(NodeOk(q));
      }
      forall q, l
        ensures EdgeOk(q, l)
      {
        assert old(EdgeOk(q, l));
      }
    }

    /** match on the labels of a query. The loop leaves at the first missing label
        and at the first suffix mark. A query always has a label, so the walk always
        ends on a node and the panic for an empty domain is never reached. */
    method Matches(segments: seq<string>) returns (found: bool)
      requires Valid() && segments != []
      ensures found == Found(marks, Reverse(segments))
    {
      ghost var path, p: Path := Reverse(segments), [];
      var cur := root;
      var segment: Node? := null;
      var i := |segments| - 1;
      while i >= 0
        invariant -1 <= i < |segments| && p == path[..|segments| - 1 - i]
        invariant p in nodes && nodes[p] == cur
        invariant forall k :: 1 <= k <= |p| ==> !MarkedSuffix(marks, path[..k])
        invariant i < |segments| - 1 ==> segment == cur
      {
        assert NodeOk(p) && EdgeOk(p, segments[i]) && NodeOk(Child(p, segments[i]));
        assert path[..|p| + 1] == Child(p, segments[i]);
        if segments[i] !in cur.children {
          NotFoundBelow(path, |p| + 1);
          return false;
        }
        var next := cur.children[segments[i]];
        if next.mark == Suffix {
          assert MarkedSuffix(marks, path[..|p| + 1]);
          return true;
        }
        p := Child(p, segments[i]);
        cur, segment := next, next;
        i := i - 1;
      }
      assert segment != null && p == path && NodeOk(p);
      found := segment.mark == Full;
    }

    /** Below a missing node there is nothing. */
    lemma NotFoundBelow(path: Path, n: nat)
      requires Valid() && 1 <= n <= |path| && path[..n] !in nodes
      requires forall k :: 1 <= k < n ==> !MarkedSuffix(marks, path[..k])
      ensures !Found(marks, path)
    {
      forall k | n <= k <= |path|
        ensures path[..k] !in marks
      {
        NotInNodes(path, n, k);
        assert NodeOk(path[..k]);
      }
      assert path[..|path|] == path;
    }

    lemma {:induction false} NotInNodes(path: Path, n: nat, k: nat)
      requires Valid() && 1 <= n <= k <= |path| && path[..n] !in nodes
      ensures path[..k] !in nodes
      decreases k
    {
      if n < k {
        NotInNodes(path, n, k - 1);
        assert path[..k] == Child(path[..k - 1], path[k - 1]);
        assert EdgeOk(path[..k - 1], path[k - 1]);
      }
    }
  }
}
