/** cJSON_Compare on items in memory. */
module JsonCompare {
  import opened Bytes
  import opened JsonList
  import opened JsonTree
  import opened JsonAlike

  // ----- What cJSON_Compare decides about items -----

  /**
   * The two items are taken to be equal: as in `Alike`, except that an item is equal to itself without a look at
   * what hangs below it.
   */
  ghost predicate Matches(t: Shape, v: Tree, u: Shape, w: Tree)
    decreases Weight(v) + Weight(w), 1
  {
    && v.kind == w.kind && v.kind != Invalid
    && (t.node == u.node || (
          && (v.kind == Number || v.kind == String || v.kind == Raw ==> v.text == w.text)
          && (v.kind == Array ==>
                && |v.kids| == |w.kids|
                && forall i :: 0 <= i < |v.kids| ==>
                     && i < |t.kids| && i < |u.kids| && Matches(t.kids[i], v.kids[i], u.kids[i], w.kids[i]))
          && (v.kind == Object ==> MembersMatch(t.kids, v.kids, u.kids, w.kids)
                                   && MembersMatch(u.kids, w.kids, t.kids, v.kids))))
  }

  /** Every member of the one matches the member found under its name in the other. */
  ghost predicate MembersMatch(ts: seq<Shape>, a: seq<Tree>, us: seq<Shape>, b: seq<Tree>)
    decreases Weights(a) + Weights(b), 2
  {
    forall i :: 0 <= i < |a| ==>
      var k := First(b, a[i].name);
      k < |b| && i < |ts| && k < |us| && Matches(ts[i], a[i], us[k], b[k])
  }

  /** Child `i` matches the member found under its name. */
  ghost predicate MemberMatches(ts: seq<Shape>, a: seq<Tree>, us: seq<Shape>, b: seq<Tree>, i: int) {
    0 <= i < |a| && (
      var k := First(b, a[i].name);
      k < |b| && i < |ts| && k < |us| && Matches(ts[i], a[i], us[k], b[k]))
  }

  lemma MembersAre(ts: seq<Shape>, a: seq<Tree>, us: seq<Shape>, b: seq<Tree>)
    ensures MembersMatch(ts, a, us, b) <==> forall i :: 0 <= i < |a| ==> MemberMatches(ts, a, us, b, i)
  {
    hide Matches;
    if forall i :: 0 <= i < |a| ==> MemberMatches(ts, a, us, b, i) {
      forall i | 0 <= i < |a|
        ensures var k := First(b, a[i].name); k < |b| && i < |ts| && k < |us| && Matches(ts[i], a[i], us[k], b[k])
      {
        assert MemberMatches(ts, a, us, b, i);
      }
    }
  }

  // ----- Walking the children of a tree -----

  /** Everything about the item a walk along the children of `t` is at. */
  lemma KidAt(t: Shape, v: Tree, x: Node, i: nat)
    requires Denotes(t, v) && x == Reached(Roots(t.kids), i)
    ensures i < |t.kids| == |v.kids| && t.kids[i].node == x && Denotes(t.kids[i], v.kids[i])
    ensures x.next == Reached(Roots(t.kids), i + 1) && x.name == v.kids[i].name
    ensures Weight(v.kids[i]) < Weight(v)
  {
    hide Chain, Weight, Below;
    WalkStep(t.node.child, Roots(t.kids), i);
    KidLighter(v, i);
  }

  lemma FirstKid(t: Shape, v: Tree)
    requires Denotes(t, v)
    ensures t.node.child == Reached(Roots(t.kids), 0) && |t.kids| == |v.kids| == |Roots(t.kids)|
    ensures Chain(t.node.child, Roots(t.kids))
    ensures forall i :: 0 <= i < |t.kids| ==> Roots(t.kids)[i].name == v.kids[i].name
  {
    hide Chain, Below;
    WalkStarts(t.node.child, Roots(t.kids));
  }

  lemma ReachedIs(s: seq<Node>, i: nat)
    ensures i < |s| ==> Reached(s, i) == s[i]
  {
  }

  // ----- Lookup -----

  /** get_object_item, with case-sensitive names: the first member of that name before any unnamed one. */
  method GetObjectItem(parent: Node, name: Option<seq<byte>>, ghost s: seq<Node>) returns (item: Node?, ghost k: nat)
    requires Chain(parent.child, s)
    ensures k <= |s| && (name.Some? ==> forall i :: 0 <= i < k ==> s[i].name.Some? && s[i].name != name)
    ensures item != null ==> item in s && name.Some? && item.name == name
    ensures item != null ==> k < |s| && item == s[k]
    ensures item == null ==> name == None || k == |s| || s[k].name == None
  {
    hide Chain, Reached;
    k := 0;
    if name == None {
      return null, k;
    }
    item := parent.child;
    WalkStarts(item, s);
    WalkAt(s, 0);
    while item != null && item.name != None && item.name != name
      invariant Chain(parent.child, s)
      invariant k <= |s| && item == Reached(s, k) && (if item == null then k == |s| else k < |s| && item == s[k])
      invariant forall i :: 0 <= i < k ==> s[i].name.Some? && s[i].name != name
      decreases |s| - k
    {
      WalkStep(parent.child, s, k);
      item := item.next;
      k := k + 1;
      WalkAt(s, k);
    }
    if item == null || item.name == None {
      return null, k;
    }
  }

  /** The member found is the one `First` names. */
  lemma FoundFirst(s: seq<Node>, kids: seq<Tree>, name: Option<seq<byte>>, k: nat)
    requires |s| == |kids| && (forall i :: 0 <= i < |s| ==> s[i].name == kids[i].name)
    requires k <= |s| && (name.Some? ==> forall i :: 0 <= i < k ==> s[i].name.Some? && s[i].name != name)
    ensures name.Some? && k < |s| && s[k].name == name ==> First(kids, name) == k
    ensures name == None || k == |s| || s[k].name == None ==> First(kids, name) == |kids|
  {
    if name.Some? {
      FirstIs(kids, name, k);
    }
  }

  // ----- Comparison -----

  /** cJSON_Compare with case-sensitive names: exactly whether the items match, whatever they share. */
  method Compare(a: Node?, b: Node?, ghost t: Shape, ghost v: Tree, ghost u: Shape, ghost w: Tree)
      returns (equal: bool)
    requires a != null ==> t.node == a && Denotes(t, v)
    requires b != null ==> u.node == b && Denotes(u, w)
    ensures a == null || b == null ==> !equal
    ensures a != null && b != null ==> (equal <==> Matches(t, v, u, w))
    ensures a != null && b != null && Comparable(t, v, u, w) ==> (equal <==> Alike(v, w))
    ensures a != null && b != null && Proper(v) && Proper(w) ==> (equal <==> ValueOf(v) == ValueOf(w))
    decreases Weight(v) + Weight(w), 1
  {
    hide Denotes, Chain, Weight, Comparable, Alike, Proper, ValueOf, MembersMatch;
    if a == null || b == null {
      return false;
    }
    KidDenotes(t, v);
    KidDenotes(u, w);
    MatchesMeans(t, v, u, w);
    if a.kind != b.kind || a.kind == Invalid {
      return false;
    }
    if a == b {
      return true;
    }
    match a.kind
    case Number => return a.text == b.text;
    case String => return a.text == b.text;
    case Raw => return a.text == b.text;
    case Array =>
      equal := CompareArrays(a, b, t, v, u, w);
    case Object =>
      assert allocated(Below(t.kids)) && allocated(Below(u.kids));
      equal := Included(a, b, t, v, u, w);
      if equal {
        equal := Included(b, a, u, w, t, v);
      }
    case _ => return true;
  }

  /** The array case of cJSON_Compare. */
  method CompareArrays(a: Node, b: Node, ghost t: Shape, ghost v: Tree, ghost u: Shape, ghost w: Tree)
      returns (equal: bool)
    requires t.node == a && Denotes(t, v) && u.node == b && Denotes(u, w)
    requires v.kind == Array && w.kind == Array
    ensures |t.kids| == |v.kids| && |u.kids| == |w.kids|
    ensures equal <==> (
              && |v.kids| == |w.kids|
              && forall i :: 0 <= i < |v.kids| ==> Matches(t.kids[i], v.kids[i], u.kids[i], w.kids[i]))
    decreases Weight(v) + Weight(w), 0
  {
    hide *;
    var x, y := a.child, b.child;
    ghost var i, s, r := 0, Roots(t.kids), Roots(u.kids);
    FirstKid(t, v);
    FirstKid(u, w);
    assert allocated(Below(t.kids)) && allocated(Below(u.kids));
    assert forall n :: n in Below(t.kids) || n in Below(u.kids) ==> !fresh(n);
    while x != null && y != null
      invariant 0 <= i <= |s| && i <= |r| && Denotes(t, v) && Denotes(u, w)
      invariant x == Reached(s, i) && y == Reached(r, i)
      invariant forall j :: 0 <= j < i ==> Matches(t.kids[j], v.kids[j], u.kids[j], w.kids[j])
      decreases |s| - i
    {
      KidAt(t, v, x, i);
      KidAt(u, w, y, i);
      equal := Compare(x, y, t.kids[i], v.kids[i], u.kids[i], w.kids[i]);
      if !equal {
        return;
      }
      x, y, i := x.next, y.next, i + 1;
    }
    WalkAt(s, i);
    WalkAt(r, i);
    equal := x == y;
  }

  /** One loop of the object case of cJSON_Compare: every member of `a` matches its namesake in `b`. */
  method Included(a: Node, b: Node, ghost t: Shape, ghost v: Tree, ghost u: Shape, ghost w: Tree) returns (ok: bool)
    requires t.node == a && Denotes(t, v) && u.node == b && Denotes(u, w)
    requires v.kind == Object && w.kind == Object
    ensures ok <==> MembersMatch(t.kids, v.kids, u.kids, w.kids)
    decreases Weight(v) + Weight(w), 0
  {
    hide *;
    FirstKid(t, v);
    var x := a.child;
    ghost var i, s, r := 0, Roots(t.kids), Roots(u.kids);
    ok := true;
    assert allocated(Below(t.kids)) && allocated(Below(u.kids));
    assert forall n :: n in Below(t.kids) || n in Below(u.kids) ==> !fresh(n);
    while x != null
      invariant 0 <= i <= |s| && ok && Denotes(t, v) && Denotes(u, w)
      invariant x == Reached(s, i)
      invariant forall j :: 0 <= j < i ==> MemberMatches(t.kids, v.kids, u.kids, w.kids, j)
      decreases |s| - i
    {
      KidAt(t, v, x, i);
      FirstKid(u, w);
      var y;
      ghost var k;
      y, k := GetObjectItem(b, x.name, r);
      KidAt(t, v, x, i);
      FirstKid(u, w);
      FoundFirst(r, w.kids, v.kids[i].name, k);
      MemberIs(t, v, u, w, i);
      MembersAre(t.kids, v.kids, u.kids, w.kids);
      if y == null {
        return false;
      }
      ReachedIs(r, k);
      KidAt(u, w, y, k);
      ok := Compare(x, y, t.kids[i], v.kids[i], u.kids[k], w.kids[k]);
      if !ok {
        return;
      }
      x, i := x.next, i + 1;
    }
    WalkAt(s, i);
    MembersAre(t.kids, v.kids, u.kids, w.kids);
  }

  lemma MemberIs(t: Shape, v: Tree, u: Shape, w: Tree, i: nat)
    requires i < |t.kids| == |v.kids| && |u.kids| == |w.kids|
    ensures var k := First(w.kids, v.kids[i].name);
            MemberMatches(t.kids, v.kids, u.kids, w.kids, i) <==>
              k < |w.kids| && Matches(t.kids[i], v.kids[i], u.kids[k], w.kids[k])
  {
    hide Matches;
  }

  // ----- Where comparing items is comparing what they hold -----

  /** The two trees share no item, or hold nothing that is not like itself. */
  ghost predicate Comparable(t: Shape, v: Tree, u: Shape, w: Tree) {
    Nodes(t) !! Nodes(u) || (Steady(v) && Steady(w))
  }

  lemma ComparableBack(t: Shape, v: Tree, u: Shape, w: Tree)
    ensures Comparable(t, v, u, w) == Comparable(u, w, t, v)
  {
    hide Nodes, Steady;
  }

  lemma ComparableKids(t: Shape, v: Tree, u: Shape, w: Tree, i: nat, k: nat)
    requires i < |t.kids| == |v.kids| && k < |u.kids| == |w.kids|
    requires (v.kind == Array || v.kind == Object) && (w.kind == Array || w.kind == Object)
    ensures Comparable(t, v, u, w) ==> Comparable(t.kids[i], v.kids[i], u.kids[k], w.kids[k])
  {
    hide Below, Covers;
  }

  lemma SharedIsAlike(t: Shape, v: Tree, u: Shape, w: Tree)
    requires t.node == u.node && v == w
    ensures Comparable(t, v, u, w) ==> Alike(v, w)
  {
    hide Alike, Steady, Below;
    SelfAlike(v);
    assert t.node in Nodes(t) && t.node in Nodes(u);
  }

  /** There matching items are exactly those that hold alike trees. */
  lemma {:induction false} MatchesIsAlike(t: Shape, v: Tree, u: Shape, w: Tree)
    requires Denotes(t, v) && Denotes(u, w) && Comparable(t, v, u, w)
    ensures Matches(t, v, u, w) <==> Alike(v, w)
    decreases Weight(v) + Weight(w), 1
  {
    hide Denotes, Comparable, Weight, MembersMatch, Covers, Steady;
    KidDenotes(t, v);
    KidDenotes(u, w);
    if t.node == u.node {
      DenotesUnique(t, v, u, w);
      SharedIsAlike(t, v, u, w);
      assert v.kind == Invalid ==> !Alike(v, w);
    } else if v.kind == Array && w.kind == Array {
      forall i | 0 <= i < |v.kids| && i < |w.kids|
        ensures Matches(t.kids[i], v.kids[i], u.kids[i], w.kids[i]) <==> Alike(v.kids[i], w.kids[i])
      {
        KidsMatch(t, v, u, w, i, i);
      }
    } else if v.kind == Object && w.kind == Object {
      ComparableBack(t, v, u, w);
      MembersAreCovered(t, v, u, w);
      MembersAreCovered(u, w, t, v);
    }
  }

  lemma {:induction false} KidsMatch(t: Shape, v: Tree, u: Shape, w: Tree, i: nat, k: nat)
    requires Denotes(t, v) && Denotes(u, w) && Comparable(t, v, u, w)
    requires i < |t.kids| == |v.kids| && k < |u.kids| == |w.kids|
    requires (v.kind == Array || v.kind == Object) && (w.kind == Array || w.kind == Object)
    ensures Matches(t.kids[i], v.kids[i], u.kids[k], w.kids[k]) <==> Alike(v.kids[i], w.kids[k])
    decreases Weight(v) + Weight(w), 0, 0
  {
    hide *;
    KidDenotes(t, v);
    KidDenotes(u, w);
    ComparableKids(t, v, u, w, i, k);
    KidLighter(v, i);
    KidLighter(w, k);
    MatchesIsAlike(t.kids[i], v.kids[i], u.kids[k], w.kids[k]);
  }

  lemma {:induction false} MembersAreCovered(t: Shape, v: Tree, u: Shape, w: Tree)
    requires Denotes(t, v) && Denotes(u, w) && Comparable(t, v, u, w) && v.kind == Object && w.kind == Object
    ensures MembersMatch(t.kids, v.kids, u.kids, w.kids) <==> Covers(v.kids, w.kids)
    decreases Weight(v) + Weight(w), 0, 1
  {
    hide Denotes, Comparable, Weight, Alike, Matches;
    KidDenotes(t, v);
    KidDenotes(u, w);
    forall i | 0 <= i < |v.kids|
      ensures var k := First(w.kids, v.kids[i].name);
              k < |w.kids| ==>
                (Matches(t.kids[i], v.kids[i], u.kids[k], w.kids[k]) <==> Alike(v.kids[i], w.kids[k]))
    {
      var k := First(w.kids, v.kids[i].name);
      if k < |w.kids| {
        KidsMatch(t, v, u, w, i, k);
      }
    }
  }

  /** What matching means on trees that can be compared, and on trees with distinct keys. */
  lemma MatchesMeans(t: Shape, v: Tree, u: Shape, w: Tree)
    requires Denotes(t, v) && Denotes(u, w)
    ensures Comparable(t, v, u, w) ==> (Matches(t, v, u, w) <==> Alike(v, w))
    ensures Proper(v) && Proper(w) ==> (Matches(t, v, u, w) <==> ValueOf(v) == ValueOf(w))
  {
    hide Denotes, Proper, Steady, Alike, ValueOf, Matches, Nodes;
    if Comparable(t, v, u, w) {
      MatchesIsAlike(t, v, u, w);
    }
    if Proper(v) && Proper(w) {
      ProperSteady(v);
      ProperSteady(w);
      AlikeIsValue(v, w);
      MatchesIsAlike(t, v, u, w);
    }
  }

  // ----- Copies -----

  /** A copy compares equal to its source exactly when the source is steady. */
  method DuplicateAndCompare(item: Node, ghost t: Shape, ghost v: Tree) returns (equal: bool)
    requires t.node == item && Denotes(t, v)
    ensures equal <==> Steady(v)
  {
    hide Denotes, Alike, Steady, Below;
    assert allocated(t) && allocated(Below(t.kids));
    var copy;
    ghost var c;
    copy, c := Duplicate(item, true, t, v);
    SelfAlike(v);
    equal := Compare(item, copy, t, v, c, v);
  }
}
