/**
  Four-level page-table trees held in raw memory: a map from table address to its 512 entries.
  Nothing in the representation rules out two entries that name the same table, so the absence of
  aliasing is an invariant (`Sound`) and has to be kept by every write.
 */
module PageTree {
  import opened Options

  const FANOUT: nat := 512

  /** How a kind of entry encodes a pointer to a lower table. */
  datatype Format<!A, !E> = Format(next: E -> Option<A>, link: (E, A) -> E, empty: E)

  /** `owner` records, for each table, the index path the table hangs from; the machine does not store it. */
  datatype Tree<!A(==), !E> = Tree(root: A, tables: map<A, seq<E>>, owner: map<A, seq<nat>>)

  predicate Indices(p: seq<nat>) {
    forall k :: 0 <= k < |p| ==> p[k] < FANOUT
  }

  function Blank<A, E>(f: Format<A, E>): seq<E> {
    seq(FANOUT, _ => f.empty)
  }

  /** One step down: the pointer in entry `k` of the table reached so far. */
  ghost function Follow<A, E>(f: Format<A, E>, t: Tree<A, E>, r: Option<A>, k: nat): Option<A> {
    if r.Some? && r.value in t.tables && k < |t.tables[r.value]| then f.next(t.tables[r.value][k]) else None
  }

  /** The table found by following the index path `p` from the root. */
  ghost function Reach<A, E>(f: Format<A, E>, t: Tree<A, E>, p: seq<nat>): Option<A> {
    if p == [] then Some(t.root) else Follow(f, t, Reach(f, t, p[..|p| - 1]), p[|p| - 1])
  }

  ghost predicate Shape<A(!new), E>(t: Tree<A, E>) {
    && t.root in t.tables
    && t.owner.Keys == t.tables.Keys
    && t.owner[t.root] == []
    && (forall a :: a in t.tables ==> |t.tables[a]| == FANOUT && |t.owner[a]| <= 3 && Indices(t.owner[a]))
  }

  ghost predicate Linked<A(!new), E>(f: Format<A, E>, t: Tree<A, E>)
    requires Shape(t)
  {
    forall a, i :: a in t.tables && |t.owner[a]| < 3 && 0 <= i < FANOUT && f.next(t.tables[a][i]).Some? ==>
      f.next(t.tables[a][i]).value in t.tables && t.owner[f.next(t.tables[a][i]).value] == t.owner[a] + [i]
  }

  ghost predicate Rooted<A(!new), E>(f: Format<A, E>, t: Tree<A, E>)
    requires Shape(t)
  {
    forall a :: a in t.tables ==> Reach(f, t, t.owner[a]) == Some(a)
  }

  /** The tree invariant: every pointer agrees with `owner`, and every table is reached. */
  ghost predicate Sound<A(!new), E>(f: Format<A, E>, t: Tree<A, E>) {
    Shape(t) && Linked(f, t) && Rooted(f, t) && f.next(f.empty) == None
  }

  /** The invariant at one table. */
  lemma TableFacts<A(!new), E>(f: Format<A, E>, t: Tree<A, E>, a: A)
    requires Sound(f, t) && a in t.tables
    ensures a in t.owner && |t.tables[a]| == FANOUT && |t.owner[a]| <= 3 && Reach(f, t, t.owner[a]) == Some(a)
    ensures t.root in t.tables && t.root in t.owner && t.owner[t.root] == []
  {
  }

  /** The entry at the full four-index path `p`, read as empty where a table is missing. */
  ghost function Leaf<A, E>(f: Format<A, E>, t: Tree<A, E>, p: seq<nat>): E
    requires |p| == 4
  {
    match Reach(f, t, p[..3])
    case None => f.empty
    case Some(a) => if a in t.tables && p[3] < |t.tables[a]| then t.tables[a][p[3]] else f.empty
  }

  lemma ReachNone<A(!new), E>(f: Format<A, E>, t: Tree<A, E>)
    ensures Reach(f, t, []) == Some(t.root)
  {
  }

  lemma ReachSnoc<A(!new), E>(f: Format<A, E>, t: Tree<A, E>, q: seq<nat>, k: nat)
    ensures Reach(f, t, q + [k]) == Follow(f, t, Reach(f, t, q), k)
  {
    assert (q + [k])[..|q|] == q;
  }

  ghost predicate SameLeaves<A(!new), E>(f: Format<A, E>, t: Tree<A, E>, u: Tree<A, E>) {
    forall p :: |p| == 4 && Indices(p) ==> Leaf(f, u, p) == Leaf(f, t, p)
  }

  lemma SameLeavesChain<A(!new), E>(f: Format<A, E>, t: Tree<A, E>, u: Tree<A, E>, v: Tree<A, E>, w: Tree<A, E>)
    requires SameLeaves(f, t, u) && SameLeaves(f, u, v) && SameLeaves(f, v, w)
    ensures SameLeaves(f, t, w)
  {
    hide Leaf;
  }

  lemma {:induction false} ReachedIsOwned<A(!new), E>(f: Format<A, E>, t: Tree<A, E>, p: seq<nat>)
    requires Sound(f, t) && |p| <= 3
    requires Reach(f, t, p).Some?
    ensures Reach(f, t, p).value in t.tables && t.owner[Reach(f, t, p).value] == p
  {
    hide Reach, Rooted;
    if p == [] {
      ReachNone(f, t);
    } else {
      var q, k := p[..|p| - 1], p[|p| - 1];
      assert p == q + [k];
      ReachSnoc(f, t, q, k);
      ReachedIsOwned(f, t, q);
    }
  }

  /** No aliasing: a table is reached by exactly one index path. */
  lemma AliasFree<A(!new), E>(f: Format<A, E>, t: Tree<A, E>, a: A)
    requires Sound(f, t) && a in t.tables
    ensures exists p :: |p| <= 3 && Reach(f, t, p) == Some(a)
    ensures forall p, q :: |p| <= 3 && |q| <= 3 && Reach(f, t, p) == Some(a) && Reach(f, t, q) == Some(a) ==> p == q
  {
    assert |t.owner[a]| <= 3 && Reach(f, t, t.owner[a]) == Some(a);
    forall p, q | |p| <= 3 && |q| <= 3 && Reach(f, t, p) == Some(a) && Reach(f, t, q) == Some(a)
      ensures p == q
    {
      ReachedIsOwned(f, t, p);
      ReachedIsOwned(f, t, q);
    }
  }

  /** Hanging a fresh empty table `b` under entry `i` of table `a`. */
  ghost function Grow<A, E>(f: Format<A, E>, t: Tree<A, E>, a: A, i: nat, b: A): Tree<A, E>
    requires a in t.tables && a in t.owner && i < |t.tables[a]|
  {
    Tree(t.root,
         t.tables[a := t.tables[a][i := f.link(t.tables[a][i], b)]][b := Blank(f)],
         t.owner[b := t.owner[a] + [i]])
  }

  ghost predicate Growable<A(!new), E>(f: Format<A, E>, t: Tree<A, E>, a: A, i: nat, b: A) {
    && Sound(f, t) && a in t.tables && |t.owner[a]| < 3 && i < FANOUT
    && f.next(t.tables[a][i]) == None
    && b !in t.tables && f.next(f.link(t.tables[a][i], b)) == Some(b)
  }

  lemma {:induction false} GrowReach<A(!new), E>(f: Format<A, E>, t: Tree<A, E>, a: A, i: nat, b: A, p: seq<nat>)
    requires Growable(f, t, a, i, b) && |p| <= 3
    ensures Reach(f, Grow(f, t, a, i, b), p) == if p == t.owner[a] + [i] then Some(b) else Reach(f, t, p)
  {
    hide Linked, Reach;
    var u := Grow(f, t, a, i, b);
    assert Reach(f, t, t.owner[a]) == Some(a);
    ReachSnoc(f, t, t.owner[a], i);
    if p == [] {
      ReachNone(f, t);
      ReachNone(f, u);
    } else {
      var q, k := p[..|p| - 1], p[|p| - 1];
      assert p == q + [k];
      GrowReach(f, t, a, i, b, q);
      ReachSnoc(f, t, q, k);
      ReachSnoc(f, u, q, k);
      if q == t.owner[a] + [i] {
        assert u.tables[b] == Blank(f);
      } else if Reach(f, t, q).Some? {
        ReachedIsOwned(f, t, q);
      }
    }
  }

  lemma GrowLinked<A(!new), E>(f: Format<A, E>, t: Tree<A, E>, a: A, i: nat, b: A)
    requires Growable(f, t, a, i, b)
    ensures Shape(Grow(f, t, a, i, b)) && Linked(f, Grow(f, t, a, i, b))
  {
    hide Reach, Rooted;
    var u := Grow(f, t, a, i, b);
    assert Shape(u);
    forall c, k | c in u.tables && |u.owner[c]| < 3 && 0 <= k < FANOUT && f.next(u.tables[c][k]).Some?
      ensures f.next(u.tables[c][k]).value in u.tables && u.owner[f.next(u.tables[c][k]).value] == u.owner[c] + [k]
    {
      if c != b && !(c == a && k == i) {
        assert u.tables[c][k] == t.tables[c][k];
      }
    }
  }

  lemma GrowSound<A(!new), E>(f: Format<A, E>, t: Tree<A, E>, a: A, i: nat, b: A)
    requires Growable(f, t, a, i, b)
    ensures Sound(f, Grow(f, t, a, i, b))
  {
    hide Linked;
    var u := Grow(f, t, a, i, b);
    GrowLinked(f, t, a, i, b);
    forall c | c in u.tables ensures Reach(f, u, u.owner[c]) == Some(c) {
      GrowReach(f, t, a, i, b, u.owner[c]);
    }
  }

  lemma GrowLeaf<A(!new), E>(f: Format<A, E>, t: Tree<A, E>, a: A, i: nat, b: A, p: seq<nat>)
    requires Growable(f, t, a, i, b) && |p| == 4 && Indices(p)
    ensures Leaf(f, Grow(f, t, a, i, b), p) == Leaf(f, t, p)
  {
    hide Reach, Linked, Rooted;
    GrowReach(f, t, a, i, b, p[..3]);
    if p[..3] == t.owner[a] + [i] {
      TableFacts(f, t, a);
      ReachSnoc(f, t, t.owner[a], i);
    } else if Reach(f, t, p[..3]).Some? {
      ReachedIsOwned(f, t, p[..3]);
    }
  }

  /** One level of the descent: the table under entry `i` of `a`, hung at `b` if it was missing. */
  ghost function Ensure<A, E>(f: Format<A, E>, t: Tree<A, E>, a: A, i: nat, b: A): Tree<A, E>
    requires a in t.tables && a in t.owner && i < |t.tables[a]|
  {
    if f.next(t.tables[a][i]).Some? then t else Grow(f, t, a, i, b)
  }

  /** Descending one level keeps the invariant, keeps every leaf, and ends at the table for the longer path. */
  lemma EnsureKeeps<A(!new), E>(f: Format<A, E>, t: Tree<A, E>, a: A, i: nat, b: A)
    requires Sound(f, t) && a in t.tables && |t.owner[a]| < 3 && i < FANOUT
    requires f.next(t.tables[a][i]) == None ==> Growable(f, t, a, i, b)
    ensures var u := Ensure(f, t, a, i, b);
      && Sound(f, u) && u.root == t.root
      && t.tables.Keys <= u.tables.Keys <= t.tables.Keys + {b}
      && (forall c :: c in t.tables ==> u.owner[c] == t.owner[c])
      && f.next(u.tables[a][i]).Some?
      && u.owner[f.next(u.tables[a][i]).value] == t.owner[a] + [i]
      && SameLeaves(f, t, u)
  {
    if f.next(t.tables[a][i]) == None {
      GrowSound(f, t, a, i, b);
      forall p | |p| == 4 && Indices(p) ensures Leaf(f, Grow(f, t, a, i, b), p) == Leaf(f, t, p) {
        GrowLeaf(f, t, a, i, b, p);
      }
    }
  }

  /** Overwriting entry `i` of the table `a`. */
  ghost function Write<A, E>(t: Tree<A, E>, a: A, i: nat, e: E): Tree<A, E>
    requires a in t.tables && a in t.owner && i < |t.tables[a]|
  {
    t.(tables := t.tables[a := t.tables[a][i := e]])
  }

  lemma {:induction false} WriteReach<A(!new), E>(f: Format<A, E>, t: Tree<A, E>, a: A, i: nat, e: E, p: seq<nat>)
    requires Sound(f, t) && a in t.tables && |t.owner[a]| == 3 && i < FANOUT && |p| <= 3
    ensures Reach(f, Write(t, a, i, e), p) == Reach(f, t, p)
  {
    if p != [] {
      WriteReach(f, t, a, i, e, p[..|p| - 1]);
      if Reach(f, t, p[..|p| - 1]).Some? {
        ReachedIsOwned(f, t, p[..|p| - 1]);
      }
    }
  }

  lemma WriteSound<A(!new), E>(f: Format<A, E>, t: Tree<A, E>, a: A, i: nat, e: E)
    requires Sound(f, t) && a in t.tables && |t.owner[a]| == 3 && i < FANOUT
    ensures Sound(f, Write(t, a, i, e))
  {
    hide Reach;
    var u := Write(t, a, i, e);
    assert Shape(u);
    forall c | c in u.tables ensures Reach(f, u, u.owner[c]) == Some(c) {
      WriteReach(f, t, a, i, e, t.owner[c]);
    }
    forall c, k | c in u.tables && |u.owner[c]| < 3 && 0 <= k < FANOUT && f.next(u.tables[c][k]).Some?
      ensures f.next(u.tables[c][k]).value in u.tables && u.owner[f.next(u.tables[c][k]).value] == u.owner[c] + [k]
    {
      assert u.tables[c][k] == t.tables[c][k];
    }
  }

  lemma WriteLeafAt<A(!new), E>(f: Format<A, E>, t: Tree<A, E>, a: A, i: nat, e: E, p: seq<nat>)
    requires Sound(f, t) && a in t.tables && |t.owner[a]| == 3 && i < FANOUT
    requires |p| == 4 && Indices(p)
    ensures Leaf(f, Write(t, a, i, e), p) == if p == t.owner[a] + [i] then e else Leaf(f, t, p)
  {
    hide Reach, Linked;
    WriteReach(f, t, a, i, e, p[..3]);
    assert p == p[..3] + [p[3]];
    if Reach(f, t, p[..3]).Some? {
      ReachedIsOwned(f, t, p[..3]);
    }
    assert Reach(f, t, t.owner[a]) == Some(a);
  }

  /** Writing a leaf table changes the entry at one path and no other. */
  lemma WriteLeaf<A(!new), E>(f: Format<A, E>, t: Tree<A, E>, a: A, i: nat, e: E)
    requires Sound(f, t) && a in t.tables && |t.owner[a]| == 3 && i < FANOUT
    ensures Sound(f, Write(t, a, i, e))
    ensures forall p :: |p| == 4 && Indices(p) ==>
      Leaf(f, Write(t, a, i, e), p) == if p == t.owner[a] + [i] then e else Leaf(f, t, p)
  {
    WriteSound(f, t, a, i, e);
    forall p | |p| == 4 && Indices(p)
      ensures Leaf(f, Write(t, a, i, e), p) == if p == t.owner[a] + [i] then e else Leaf(f, t, p)
    {
      WriteLeafAt(f, t, a, i, e, p);
    }
  }

  /** Three lookups starting at the root reach the table of the three-index path. */
  lemma ReachThree<A(!new), E>(f: Format<A, E>, t: Tree<A, E>, p: seq<nat>)
    requires Sound(f, t) && |p| == 4 && Indices(p)
    ensures Reach(f, t, [p[0]]) == f.next(t.tables[t.root][p[0]])
    ensures Reach(f, t, [p[0]]).Some? ==>
      var a := Reach(f, t, [p[0]]).value;
      a in t.tables && t.owner[a] == [p[0]] && Reach(f, t, [p[0], p[1]]) == f.next(t.tables[a][p[1]])
    ensures Reach(f, t, [p[0], p[1]]).Some? ==>
      var a := Reach(f, t, [p[0], p[1]]).value;
      a in t.tables && t.owner[a] == [p[0], p[1]] && Reach(f, t, p[..3]) == f.next(t.tables[a][p[2]])
    ensures Reach(f, t, [p[0]]) == None ==> Reach(f, t, p[..3]) == None
    ensures Reach(f, t, [p[0], p[1]]) == None ==> Reach(f, t, p[..3]) == None
    ensures Reach(f, t, p[..3]).Some? ==>
      var a := Reach(f, t, p[..3]).value;
      a in t.tables && t.owner[a] == p[..3] && Leaf(f, t, p) == t.tables[a][p[3]]
  {
    assert [p[0]][..0] == [] && [p[0], p[1]][..1] == [p[0]] && p[..3][..2] == [p[0], p[1]];
    if Reach(f, t, [p[0]]).Some? { ReachedIsOwned(f, t, [p[0]]); }
    if Reach(f, t, [p[0], p[1]]).Some? { ReachedIsOwned(f, t, [p[0], p[1]]); }
    if Reach(f, t, p[..3]).Some? { ReachedIsOwned(f, t, p[..3]); }
  }

  /** A lone empty root table. */
  ghost function Start<A, E>(f: Format<A, E>, root: A): Tree<A, E> {
    Tree(root, map[root := Blank(f)], map[root := []])
  }

  lemma StartSound<A(!new), E>(f: Format<A, E>, root: A)
    requires f.next(f.empty) == None
    ensures Sound(f, Start(f, root))
    ensures forall p :: |p| == 4 && Indices(p) ==> Leaf(f, Start(f, root), p) == f.empty
  {
    var t := Start(f, root);
    forall p | |p| == 4 && Indices(p) ensures Leaf(f, t, p) == f.empty {
      ReachThree(f, t, p);
    }
  }

  // ---------- What the upper entries look like

  /** Every entry of the upper three levels satisfies `ok`. */
  ghost predicate Upper<A(!new), E>(t: Tree<A, E>, ok: E -> bool)
    requires Shape(t)
  {
    forall a, i :: a in t.tables && |t.owner[a]| < 3 && 0 <= i < |t.tables[a]| ==> ok(t.tables[a][i])
  }

  lemma EnsureUpper<A(!new), E>(f: Format<A, E>, t: Tree<A, E>, a: A, i: nat, b: A, ok: E -> bool)
    requires Sound(f, t) && a in t.tables && |t.owner[a]| < 3 && i < FANOUT && b !in t.tables
    requires Upper(t, ok) && ok(f.empty) && ok(f.link(t.tables[a][i], b))
    ensures Shape(Ensure(f, t, a, i, b)) && Upper(Ensure(f, t, a, i, b), ok)
  {
    hide Reach, Linked, Rooted;
  }

  lemma WriteUpper<A(!new), E>(f: Format<A, E>, t: Tree<A, E>, a: A, i: nat, e: E, ok: E -> bool)
    requires Sound(f, t) && a in t.tables && |t.owner[a]| == 3 && i < FANOUT && Upper(t, ok)
    ensures Shape(Write(t, a, i, e)) && Upper(Write(t, a, i, e), ok)
  {
    hide Reach, Linked, Rooted;
  }
}
