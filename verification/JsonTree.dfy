/** Trees of cJSON items, and cJSON_Duplicate. */
module JsonTree {
  import opened Bytes
  import opened JsonList

  /** What a tree of items holds. */
  datatype Tree = Tree(kind: Kind, text: seq<byte>, name: Option<seq<byte>>, kids: seq<Tree>)

  /** Which items hold it. */
  datatype Shape = Shape(node: Node, kids: seq<Shape>)

  ghost function Roots(kids: seq<Shape>): (s: seq<Node>)
    ensures |s| == |kids| && forall i :: 0 <= i < |s| ==> s[i] == kids[i].node
  {
    if kids == [] then [] else [kids[0].node] + Roots(kids[1..])
  }

  ghost function Nodes(t: Shape): set<Node> {
    {t.node} + Below(t.kids)
  }

  ghost function Below(kids: seq<Shape>): (s: set<Node>)
    ensures forall i :: 0 <= i < |kids| ==> Nodes(kids[i]) <= s
  {
    if kids == [] then {} else Nodes(kids[0]) + Below(kids[1..])
  }

  /** The items of `t`, in proper lists, hold `v`; the links of the root itself do not matter. */
  ghost predicate Denotes(t: Shape, v: Tree)
    reads {t.node}`kind, {t.node}`text, {t.node}`name, {t.node}`child, Below(t.kids)
    decreases t
  {
    && t.node.kind == v.kind && t.node.text == v.text && t.node.name == v.name
    && Chain(t.node.child, Roots(t.kids))
    && |t.kids| == |v.kids|
    && forall i :: 0 <= i < |t.kids| ==> Denotes(t.kids[i], v.kids[i])
  }

  // ----- Duplication -----

  /** The copies `done` hang in order below `copy`, hold the first of `kids`, and overlap nowhere. */
  ghost predicate Built(copy: Node, last: Node?, done: seq<Shape>, kids: seq<Tree>)
    reads {copy}`child, Below(done)
  {
    && |done| <= |kids| && copy !in Below(done)
    && Chain(copy.child, Roots(done))
    && (if done == [] then last == null else last == done[|done| - 1].node && done[0].node.prev == null)
    && (forall i :: 0 <= i < |done| ==> Denotes(done[i], kids[i]))
    && (forall i, j :: 0 <= i < |done| && 0 <= j < |done| ==> done[i].node !in Below(done[j].kids))
  }

  lemma KidDenotes(t: Shape, v: Tree)
    requires Denotes(t, v)
    ensures |t.kids| == |v.kids| && Chain(t.node.child, Roots(t.kids))
    ensures t.node.kind == v.kind && t.node.text == v.text && t.node.name == v.name
    ensures forall i :: 0 <= i < |t.kids| ==> Denotes(t.kids[i], v.kids[i])
  {
  }

  lemma RootsAppend(kids: seq<Shape>, c: Shape)
    ensures Roots(kids + [c]) == InsertAt(Roots(kids), |kids|, c.node)
  {
  }

  lemma BelowAppend(kids: seq<Shape>, c: Shape)
    ensures Below(kids + [c]) == Below(kids) + Nodes(c)
  {
    if kids != [] {
      assert (kids + [c])[1..] == kids[1..] + [c];
      BelowAppend(kids[1..], c);
    } else {
      assert [] + [c] == [c] && [c][1..] == [];
    }
  }

  /** The loop step of cJSON_Duplicate: a copied child is linked behind the one before. */
  method Attach(copy: Node, last: Node?, newChild: Node, ghost kid: Shape, ghost done: seq<Shape>,
      ghost kids: seq<Tree>)
    requires Built(copy, last, done, kids) && |done| < |kids| && Denotes(kid, kids[|done|])
    requires Nodes(kid) !! Below(done) && copy !in Nodes(kid) && kid.node !in Below(kid.kids)
    requires newChild == kid.node && newChild.next == null && newChild.prev == null
    modifies copy`child, newChild`prev, Here(last)`next
    ensures Built(copy, newChild, done + [kid], kids)
  {
    hide Chain, Denotes, Nodes, Below;
    BelowIs(kid);
    assert allocated(Below(done)) && allocated(Below(kid.kids));
    forall i | 0 <= i < |done| ensures Below(done[i].kids) <= Below(done) && done[i].node in Below(done) {
      BelowIs(done[i]);
    }
    assert forall i :: 0 <= i < |done| && last != null ==> last !in Below(done[i].kids);
    assert forall i :: 0 <= i < |done| ==> copy !in Below(done[i].kids) && newChild !in Below(done[i].kids);
    assert forall i :: 0 <= i < |done| ==> copy != done[i].node && newChild != done[i].node;
    BuiltFirst(copy, last, done, kids);
    hide Built;
    LinkLast(copy, last, newChild, Roots(done));
    forall i | 0 <= i < |done| ensures Denotes(done[i], kids[i]) {
      assert old(Denotes(done[i], kids[i]));
    }
    RootsAppend(done, kid);
    BelowAppend(done, kid);
    BuiltNext(copy, newChild, kid, done, kids);
  }

  lemma BuiltFirst(copy: Node, last: Node?, done: seq<Shape>, kids: seq<Tree>)
    requires Built(copy, last, done, kids)
    ensures Chain(copy.child, Roots(done)) && copy !in Below(done) && |done| <= |kids|
    ensures if done == [] then last == null else last == done[|done| - 1].node && done[0].node.prev == null
    ensures forall i :: 0 <= i < |done| ==> Denotes(done[i], kids[i])
  {
    hide Chain, Denotes, Below, Roots;
  }

  lemma BuiltNext(copy: Node, newChild: Node, kid: Shape, done: seq<Shape>, kids: seq<Tree>)
    requires |done| < |kids| && copy !in Below(done) && copy !in Nodes(kid) && Nodes(kid) !! Below(done)
    requires newChild == kid.node && kid.node !in Below(kid.kids)
    requires Below(done + [kid]) == Below(done) + Nodes(kid)
    requires Chain(copy.child, Roots(done + [kid]))
    requires (if done == [] then kid.node.prev == null else done[0].node.prev == null)
    requires Denotes(kid, kids[|done|]) && forall i :: 0 <= i < |done| ==> Denotes(done[i], kids[i])
    requires forall i, j :: 0 <= i < |done| && 0 <= j < |done| ==> done[i].node !in Below(done[j].kids)
    ensures Built(copy, newChild, done + [kid], kids)
  {
    hide Chain, Denotes, Roots;
    forall i, j | 0 <= i <= |done| && 0 <= j <= |done|
      ensures (done + [kid])[i].node !in Below((done + [kid])[j].kids)
    {
      if i < |done| {
        BelowIs(done[i]);
      }
      if j < |done| {
        BelowIs(done[j]);
      }
      BelowIs(kid);
    }
  }

  lemma BelowIs(t: Shape)
    ensures Nodes(t) == {t.node} + Below(t.kids)
  {
  }

  /** cJSON_Duplicate: a copy that holds the same and shares no item with the original. */
  method Duplicate(item: Node?, recurse: bool, ghost t: Shape, ghost v: Tree) returns (copy: Node?, ghost c: Shape)
    requires item != null ==> t.node == item && Denotes(t, v)
    ensures item == null <==> copy == null
    ensures copy != null ==> c.node == copy && copy.next == null && copy.prev == null && copy !in Below(c.kids)
    ensures copy != null ==> fresh(Nodes(c))
    ensures copy != null ==> Denotes(c, if recurse then v else v.(kids := []))
    decreases t, 1
  {
    hide Chain, Denotes, Built, Nodes, Below, Roots, Links, Reached;
    c := t;
    if item == null {
      return null, c;
    }
    KidDenotes(t, v);
    assert allocated(Below(t.kids));
    assert forall n :: n in Below(t.kids) ==> !fresh(n);
    var duplicate := new Node();
    duplicate.kind, duplicate.text, duplicate.name := item.kind, item.text, item.name;
    var last: Node? := null;
    ghost var done: seq<Shape> := [];
    NothingBuilt(duplicate, v.kids);
    if recurse {
      last, done := CopyKids(item, duplicate, t, v);
    }
    c := Shape(duplicate, done);
    BelowIs(c);
    BuiltDenotes(c, last, if recurse then v else v.(kids := []));
    return duplicate, c;
  }

  /** The loop of cJSON_Duplicate along the children. */
  method CopyKids(item: Node, copy: Node, ghost t: Shape, ghost v: Tree) returns (last: Node?, ghost done: seq<Shape>)
    requires t.node == item && Denotes(t, v) && Built(copy, null, [], v.kids) && Below([]) == {}
    requires copy != item && copy !in Below(t.kids)
    modifies copy`child
    ensures Built(copy, last, done, v.kids) && |done| == |v.kids| && fresh(Below(done))
    decreases t, 0
  {
    hide Chain, Denotes, Built, Nodes, Below, Roots, Links, Reached;
    KidDenotes(t, v);
    assert allocated(Below(t.kids));
    assert forall n :: n in Below(t.kids) ==> !fresh(n);
    last, done := null, [];
    var child := item.child;
    ghost var s := Roots(t.kids);
    WalkStarts(child, s);
    while child != null
      invariant Denotes(t, v)
      invariant |done| <= |s| && child == Reached(s, |done|)
      invariant fresh(Below(done)) && (last != null ==> fresh(last))
      invariant Built(copy, last, done, v.kids)
      decreases |s| - |done|
    {
      KidDenotes(t, v);
      WalkAt(s, |done|);
      WalkStep(item.child, s, |done|);
      var newChild;
      ghost var kid;
      newChild, kid := CopyNext(child, copy, last, t.kids[|done|], done, v.kids);
      done, last, child := done + [kid], newChild, child.next;
    }
    WalkAt(s, |done|);
  }

  /** One turn of the loop of cJSON_Duplicate: a copy of the next child, linked behind the ones before. */
  method CopyNext(child: Node, copy: Node, last: Node?, ghost t: Shape, ghost done: seq<Shape>, ghost kids: seq<Tree>)
    returns (newChild: Node, ghost kid: Shape)
    requires Built(copy, last, done, kids) && |done| < |kids| && t.node == child && Denotes(t, kids[|done|])
    modifies copy`child, Here(last)`next
    ensures Built(copy, newChild, done + [kid], kids)
    ensures fresh(Nodes(kid)) && fresh(newChild) && Below(done + [kid]) == Below(done) + Nodes(kid)
    decreases t, 2
  {
    hide *;
    assert allocated(Below(done));
    assert forall n :: n in Below(done) ==> !fresh(n);
    newChild, kid := Duplicate(child, true, t, kids[|done|]);
    BelowIs(kid);
    Attach(copy, last, newChild, kid, done, kids);
    BelowAppend(done, kid);
  }

  lemma NothingBuilt(copy: Node, kids: seq<Tree>)
    ensures copy.child == null ==> Built(copy, null, [], kids)
    ensures Below([]) == {}
  {
  }

  lemma BuiltDenotes(c: Shape, last: Node?, v: Tree)
    requires Built(c.node, last, c.kids, v.kids) && |c.kids| == |v.kids|
    requires c.node.kind == v.kind && c.node.text == v.text && c.node.name == v.name
    ensures Denotes(c, v) && c.node !in Below(c.kids)
  {
  }

  /** The item a walk along `s` has reached after `i` steps, if there is one. */
  ghost function Reached(s: seq<Node>, i: nat): Node? {
    if i < |s| then s[i] else null
  }

  lemma WalkStarts(head: Node?, s: seq<Node>)
    requires Chain(head, s)
    ensures head == Reached(s, 0)
  {
  }

  lemma WalkStep(head: Node?, s: seq<Node>, i: nat)
    requires Chain(head, s) && i < |s|
    ensures Reached(s, i) == s[i] && s[i].next == Reached(s, i + 1)
  {
    assert Links(s, i);
  }

  lemma WalkAt(s: seq<Node>, i: nat)
    requires i <= |s|
    ensures if Reached(s, i) == null then i == |s| else i < |s| && Reached(s, i) == s[i]
  {
  }

  /** An item holds one tree only. */
  lemma {:induction false} DenotesUnique(t: Shape, v: Tree, u: Shape, w: Tree)
    requires t.node == u.node && Denotes(t, v) && Denotes(u, w)
    ensures v == w
    decreases t
  {
    hide Chain;
    ChainUnique(t.node.child, Roots(t.kids), Roots(u.kids));
    assert |t.kids| == |Roots(t.kids)| == |u.kids|;
    forall i | 0 <= i < |v.kids| ensures v.kids[i] == w.kids[i] {
      assert Roots(t.kids)[i] == Roots(u.kids)[i];
      DenotesUnique(t.kids[i], v.kids[i], u.kids[i], w.kids[i]);
    }
  }
}
