/** A parsed value as a tree of items, and what becomes of items that are printed and parsed again. */
module JsonItems {
  import opened Bytes
  import J = JsonText
  import P = JsonParse
  import JsonPrinter
  import JsonParser
  import JsonRoundTrip
  import opened JsonList
  import opened JsonTree
  import opened JsonAlike
  import JsonCompare

  // ----- Values and trees -----

  /** The tree of items that holds a value under a name. */
  function AsTree(v: J.Json, name: Option<seq<byte>>): (t: Tree)
    ensures t.name == name
  {
    match v
    case Null => Tree(Null, [], name, [])
    case False => Tree(False, [], name, [])
    case True => Tree(True, [], name, [])
    case Number(token) => Tree(Number, token, name, [])
    case String(s) => Tree(String, s, name, [])
    case Array(items) => Tree(Array, [], name, ItemTrees(items))
    case Object(members) => Tree(Object, [], name, MemberTrees(members))
  }

  function ItemTrees(items: J.Items): seq<Tree> {
    if items.NoItems? then [] else [AsTree(items.value, None)] + ItemTrees(items.next)
  }

  function MemberTrees(members: J.Members): seq<Tree> {
    if members.NoMembers? then [] else [AsTree(members.value, Some(members.key))] + MemberTrees(members.next)
  }

  /** The trees the parser builds: children only where they belong, and names exactly on the members of objects. */
  ghost predicate Parsed(t: Tree) {
    && t.kind != Invalid && t.kind != Raw
    && (t.kind != Number && t.kind != String ==> t.text == [])
    && (t.kind != Array && t.kind != Object ==> t.kids == [])
    && (forall i :: 0 <= i < |t.kids| ==> t.kids[i].name.Some? == (t.kind == Object) && Parsed(t.kids[i]))
  }

  ghost function AsJson(t: Tree): J.Json
    decreases t, 0
  {
    match t.kind
    case False => J.False
    case True => J.True
    case Number => J.Number(t.text)
    case String => J.String(t.text)
    case Array => J.Array(TreeItems(t.kids))
    case Object => J.Object(TreeMembers(t.kids))
    case _ => J.Null
  }

  ghost function TreeItems(kids: seq<Tree>): J.Items
    decreases kids, 1
  {
    if kids == [] then J.NoItems else J.Item(AsJson(kids[0]), TreeItems(kids[1..]))
  }

  ghost function TreeMembers(kids: seq<Tree>): J.Members
    decreases kids, 1
  {
    if kids == [] then J.NoMembers
    else J.Member(if kids[0].name.Some? then kids[0].name.value else [], AsJson(kids[0]), TreeMembers(kids[1..]))
  }

  /** Every value is held by one tree of the kind the parser builds, and read off it. */
  lemma {:induction false} JsonIsTree(v: J.Json, name: Option<seq<byte>>)
    ensures Parsed(AsTree(v, name)) && AsJson(AsTree(v, name)) == v
    decreases v
  {
    hide ItemTrees, MemberTrees, TreeItems, TreeMembers;
    match v
    case Array(items) => ItemsAreTrees(items);
    case Object(members) => MembersAreTrees(members);
    case _ =>
  }

  lemma {:induction false} ItemsAreTrees(items: J.Items)
    ensures TreeItems(ItemTrees(items)) == items
    ensures forall t :: t in ItemTrees(items) ==> t.name == None && Parsed(t)
    decreases items
  {
    hide Parsed, AsTree, AsJson;
    if items.Item? {
      JsonIsTree(items.value, None);
      ItemsAreTrees(items.next);
      assert ItemTrees(items)[1..] == ItemTrees(items.next);
    }
  }

  lemma {:induction false} MembersAreTrees(members: J.Members)
    ensures TreeMembers(MemberTrees(members)) == members
    ensures forall t :: t in MemberTrees(members) ==> t.name.Some? && Parsed(t)
    decreases members
  {
    hide Parsed, AsTree, AsJson;
    if members.Member? {
      JsonIsTree(members.value, Some(members.key));
      MembersAreTrees(members.next);
      assert MemberTrees(members)[1..] == MemberTrees(members.next);
    }
  }

  /** And every tree of that kind holds one value. */
  lemma {:induction false} TreeIsJson(t: Tree)
    requires Parsed(t)
    ensures AsTree(AsJson(t), t.name) == t
    decreases t, 0
  {
    hide ItemTrees, MemberTrees, TreeItems, TreeMembers;
    if t.kind == Array {
      TreesAreItems(t.kids);
    } else if t.kind == Object {
      TreesAreMembers(t.kids);
    }
  }

  lemma {:induction false} TreesAreItems(kids: seq<Tree>)
    requires forall i :: 0 <= i < |kids| ==> kids[i].name == None && Parsed(kids[i])
    ensures ItemTrees(TreeItems(kids)) == kids
    decreases kids, 1
  {
    hide Parsed, AsTree, AsJson;
    if kids != [] {
      TreeIsJson(kids[0]);
      TreesAreItems(kids[1..]);
      assert [kids[0]] + kids[1..] == kids;
    }
  }

  lemma {:induction false} TreesAreMembers(kids: seq<Tree>)
    requires forall i :: 0 <= i < |kids| ==> kids[i].name.Some? && Parsed(kids[i])
    ensures MemberTrees(TreeMembers(kids)) == kids
    decreases kids, 1
  {
    hide Parsed, AsTree, AsJson;
    if kids != [] {
      TreeIsJson(kids[0]);
      TreesAreMembers(kids[1..]);
      assert [kids[0]] + kids[1..] == kids;
    }
  }

  // ----- Building the items of a value -----

  /** All children are linked; the first one's prev now leads to the last, as the parser leaves it. */
  method CloseRing(list: Node, last: Node?, ghost done: seq<Shape>, ghost kids: seq<Tree>)
    requires Built(list, last, done, kids) && |done| == |kids|
    modifies Here(list.child)`prev
    ensures Chain(list.child, Roots(done)) && list !in Below(done)
    ensures forall i :: 0 <= i < |done| ==> Denotes(done[i], kids[i])
    ensures done != [] ==> list.child == done[0].node && list.child.prev == done[|done| - 1].node
  {
    hide Denotes, Built, Nodes, Below, Roots, Distinct;
    BuiltFirst(list, last, done, kids);
    ghost var s := Roots(done);
    assert allocated(Below(done));
    forall i | 0 <= i < |done| ensures list.child != null ==> list.child !in Below(done[i].kids) {
      BuiltApart(list, last, done, kids, i);
    }
    if list.child != null {
      list.child.prev := last;
      forall i | 0 <= i < |s| ensures Links(s, i) {
        assert old(Links(s, i));
        Apart(s, 0, i);
      }
    }
    forall i | 0 <= i < |done| ensures Denotes(done[i], kids[i]) {
      assert old(Denotes(done[i], kids[i]));
    }
  }

  lemma BuiltApart(list: Node, last: Node?, done: seq<Shape>, kids: seq<Tree>, i: nat)
    requires Built(list, last, done, kids) && i < |done|
    ensures list.child == done[0].node && done[0].node !in Below(done[i].kids)
  {
    hide Denotes, Below;
  }

  lemma FirstBelow(list: Node, last: Node?, done: seq<Shape>, kids: seq<Tree>)
    requires Built(list, last, done, kids)
    ensures list.child != null ==> list.child in Below(done)
  {
    hide Denotes;
    if done != [] {
      BelowIs(done[0]);
    }
  }

  /** The children `done` hang below the item, in a proper list, and hold `kids`. */
  ghost predicate Hung(list: Node, done: seq<Shape>, kids: seq<Tree>)
    reads {list}`child, Below(done)
  {
    && |done| == |kids| && list !in Below(done) && Chain(list.child, Roots(done))
    && (forall i :: 0 <= i < |done| ==> Denotes(done[i], kids[i]))
    && (done != [] ==> list.child == done[0].node && list.child.prev == done[|done| - 1].node)
  }

  lemma NothingHung(list: Node)
    requires list.child == null
    ensures Hung(list, [], []) && Below([]) == {}
  {
  }

  lemma HungDenotes(list: Node, done: seq<Shape>, v: Tree)
    requires Hung(list, done, v.kids) && list.kind == v.kind && list.text == v.text && list.name == v.name
    ensures var t := Shape(list, done); Denotes(t, v) && Nodes(t) == {list} + Below(done)
    ensures done != [] ==> list.child == done[0].node && list.child.prev == done[|done| - 1].node
  {
    hide Chain, Below;
  }

  /** The items of a value, linked as parse_array and parse_object link them. */
  method BuildItem(v: J.Json, name: Option<seq<byte>>) returns (item: Node, ghost t: Shape)
    ensures t.node == item && item.next == null && item.prev == null && item !in Below(t.kids)
    ensures fresh(Nodes(t)) && Denotes(t, AsTree(v, name))
    ensures t.kids != [] ==> item.child == t.kids[0].node && item.child.prev == t.kids[|t.kids| - 1].node
    decreases v, 0
  {
    hide Chain, Denotes, Hung, Nodes, Below, ItemTrees, MemberTrees;
    item := new Node();
    item.name := name;
    NothingHung(item);
    ghost var done: seq<Shape> := [];
    match v {
      case Null => item.kind := Null;
      case False => item.kind := False;
      case True => item.kind := True;
      case Number(token) => item.kind, item.text := Number, token;
      case String(s) => item.kind, item.text := String, s;
      case Array(items) =>
        item.kind := Array;
        done := BuildItems(items, item);
      case Object(members) =>
        item.kind := Object;
        done := BuildMembers(members, item);
    }
    t := Shape(item, done);
    HungDenotes(item, done, AsTree(v, name));
    HungApart(item, done, AsTree(v, name).kids);
  }

  lemma HungApart(list: Node, done: seq<Shape>, kids: seq<Tree>)
    requires Hung(list, done, kids)
    ensures list !in Below(done)
  {
    hide Chain, Below, Denotes;
  }

  /** One turn of either loop: an item for the next value, linked behind the ones before. */
  method HangNext(list: Node, last: Node?, v: J.Json, name: Option<seq<byte>>, ghost done: seq<Shape>,
      ghost kids: seq<Tree>)
      returns (child: Node, ghost kid: Shape)
    requires Built(list, last, done, kids) && |done| < |kids| && kids[|done|] == AsTree(v, name)
    modifies list`child, Here(last)`next
    ensures Built(list, child, done + [kid], kids)
    ensures fresh(Nodes(kid)) && fresh(child) && Below(done + [kid]) == Below(done) + Nodes(kid)
    decreases v, 1
  {
    hide *;
    assert allocated(Below(done));
    assert forall n :: n in Below(done) ==> !fresh(n);
    child, kid := BuildItem(v, name);
    BelowIs(kid);
    Attach(list, last, child, kid, done, kids);
    BelowAppend(done, kid);
  }

  lemma NextItem(items: J.Items, kids: seq<Tree>, i: nat)
    requires items.Item? && i <= |kids| && kids[i..] == ItemTrees(items)
    ensures i < |kids| && kids[i] == AsTree(items.value, None) && kids[i + 1..] == ItemTrees(items.next)
  {
    hide AsTree;
    assert kids[i..][0] == kids[i] && kids[i..][1..] == kids[i + 1..];
  }

  lemma NextMember(members: J.Members, kids: seq<Tree>, i: nat)
    requires members.Member? && i <= |kids| && kids[i..] == MemberTrees(members)
    ensures i < |kids| && kids[i] == AsTree(members.value, Some(members.key))
    ensures kids[i + 1..] == MemberTrees(members.next)
  {
    hide AsTree;
    assert kids[i..][0] == kids[i] && kids[i..][1..] == kids[i + 1..];
  }

  lemma NothingLeft(kids: seq<Tree>, i: nat)
    requires i <= |kids| && (kids[i..] == ItemTrees(J.NoItems) || kids[i..] == MemberTrees(J.NoMembers))
    ensures i == |kids|
  {
  }

  /** The loop of parse_array over the elements it has read. */
  method BuildItems(items: J.Items, list: Node) returns (ghost done: seq<Shape>)
    requires list.child == null && list.next == null && list.prev == null
    modifies list`child
    ensures Hung(list, done, ItemTrees(items)) && fresh(Below(done))
    decreases items, 0
  {
    hide Chain, Denotes, Built, Nodes, Below, Roots, AsTree, ItemTrees, MemberTrees;
    ghost var kids := ItemTrees(items);
    var rest, last: Node? := items, null;
    done := [];
    assert kids[0..] == kids;
    NothingBuilt(list, kids);
    while rest.Item?
      invariant rest == items || rest < items
      invariant |done| <= |kids| && kids[|done|..] == ItemTrees(rest)
      invariant fresh(Below(done)) && (last != null ==> fresh(last))
      invariant Built(list, last, done, kids)
      decreases rest
    {
      NextItem(rest, kids, |done|);
      var child;
      ghost var kid;
      child, kid := HangNext(list, last, rest.value, None, done, kids);
      done, last, rest := done + [kid], child, rest.next;
    }
    NothingLeft(kids, |done|);
    FirstBelow(list, last, done, kids);
    CloseRing(list, last, done, kids);
  }

  /** The loop of parse_object over the members it has read. */
  method BuildMembers(members: J.Members, list: Node) returns (ghost done: seq<Shape>)
    requires list.child == null && list.next == null && list.prev == null
    modifies list`child
    ensures Hung(list, done, MemberTrees(members)) && fresh(Below(done))
    decreases members, 0
  {
    hide Chain, Denotes, Built, Nodes, Below, Roots, AsTree, ItemTrees, MemberTrees;
    ghost var kids := MemberTrees(members);
    var rest, last: Node? := members, null;
    done := [];
    assert kids[0..] == kids;
    NothingBuilt(list, kids);
    while rest.Member?
      invariant rest == members || rest < members
      invariant |done| <= |kids| && kids[|done|..] == MemberTrees(rest)
      invariant fresh(Below(done)) && (last != null ==> fresh(last))
      invariant Built(list, last, done, kids)
      decreases rest
    {
      NextMember(rest, kids, |done|);
      var child;
      ghost var kid;
      child, kid := HangNext(list, last, rest.value, Some(rest.key), done, kids);
      done, last, rest := done + [kid], child, rest.next;
    }
    NothingLeft(kids, |done|);
    FirstBelow(list, last, done, kids);
    CloseRing(list, last, done, kids);
  }

  // ----- Reading the value of an item off its links -----

  lemma KidParsed(v: Tree, i: nat)
    requires Parsed(v) && i < |v.kids|
    ensures Parsed(v.kids[i]) && v.kids[i].name.Some? == (v.kind == Object)
  {
  }

  lemma ItemsFrom(kids: seq<Tree>, i: nat)
    requires i <= |kids|
    ensures i == |kids| ==> TreeItems(kids[i..]) == J.NoItems && TreeMembers(kids[i..]) == J.NoMembers
    ensures i < |kids| ==> TreeItems(kids[i..]) == J.Item(AsJson(kids[i]), TreeItems(kids[i + 1..]))
    ensures i < |kids| && kids[i].name.Some? ==>
              TreeMembers(kids[i..]) == J.Member(kids[i].name.value, AsJson(kids[i]), TreeMembers(kids[i + 1..]))
  {
    hide AsJson;
    if i < |kids| {
      assert kids[i..][0] == kids[i] && kids[i..][1..] == kids[i + 1..];
    }
  }

  /** The value the printer sees when it follows the links of an item. */
  method ReadItem(item: Node, ghost t: Shape, ghost v: Tree) returns (j: J.Json)
    requires t.node == item && Denotes(t, v) && Parsed(v)
    ensures j == AsJson(v)
    decreases t, 1
  {
    hide Denotes, Chain, TreeItems, TreeMembers;
    KidDenotes(t, v);
    JsonCompare.FirstKid(t, v);
    assert v.kids[0..] == v.kids;
    match item.kind {
      case False => return J.False;
      case True => return J.True;
      case Number => return J.Number(item.text);
      case String => return J.String(item.text);
      case Array =>
        var items := ReadItems(item.child, t, v, 0);
        return J.Array(items);
      case Object =>
        var members := ReadMembers(item.child, t, v, 0);
        return J.Object(members);
      case _ => return J.Null;
    }
  }

  /** The walk along the elements of an array, from child `i` on. */
  method ReadItems(x: Node?, ghost t: Shape, ghost v: Tree, ghost i: nat) returns (items: J.Items)
    requires Denotes(t, v) && Parsed(v) && i <= |v.kids| && x == Reached(Roots(t.kids), i)
    ensures items == TreeItems(v.kids[i..])
    decreases t, 0, |v.kids| - i
  {
    hide *;
    JsonCompare.FirstKid(t, v);
    WalkAt(Roots(t.kids), i);
    ItemsFrom(v.kids, i);
    if x == null {
      return J.NoItems;
    }
    JsonCompare.KidAt(t, v, x, i);
    KidParsed(v, i);
    assert allocated(t) && allocated(Below(t.kids));
    var value := ReadItem(x, t.kids[i], v.kids[i]);
    var next := ReadItems(x.next, t, v, i + 1);
    return J.Item(value, next);
  }

  /** The walk along the members of an object. */
  method ReadMembers(x: Node?, ghost t: Shape, ghost v: Tree, ghost i: nat) returns (members: J.Members)
    requires Denotes(t, v) && Parsed(v) && v.kind == Object && i <= |v.kids| && x == Reached(Roots(t.kids), i)
    ensures members == TreeMembers(v.kids[i..])
    decreases t, 0, |v.kids| - i
  {
    hide *;
    JsonCompare.FirstKid(t, v);
    WalkAt(Roots(t.kids), i);
    ItemsFrom(v.kids, i);
    if x == null {
      return J.NoMembers;
    }
    JsonCompare.KidAt(t, v, x, i);
    KidParsed(v, i);
    assert allocated(t) && allocated(Below(t.kids));
    var value := ReadItem(x, t.kids[i], v.kids[i]);
    var next := ReadMembers(x.next, t, v, i + 1);
    return J.Member(x.name.value, value, next);
  }

  // ----- Printing, parsing and comparing -----

  /** cJSON_Parse up to the items it returns. */
  method ParseToItems(text: seq<byte>) returns (item: Node?, ghost t: Option<Shape>)
    ensures item == null <==> P.Parse(text) == None
    ensures item != null ==> t.Some? && t.value.node == item && fresh(Nodes(t.value))
    ensures item != null ==> Denotes(t.value, AsTree(P.Parse(text).value, None))
  {
    hide *;
    var v := JsonParser.ParseText(text);
    if v.None? {
      item := null;
      t := None;
      return;
    }
    ghost var shape;
    item, shape := BuildItem(v.value, None);
    t := Some(shape);
  }

  /** cJSON_Print on an item: the text of what its links lead to. */
  method PrintItems(item: Node, format: bool, ghost t: Shape, ghost v: Tree) returns (printed: Option<array<byte>>)
    requires t.node == item && Denotes(t, v) && Parsed(v) && J.Printable(AsJson(v))
    ensures printed.Some? <==> |J.Text(AsJson(v), 0, format)| + 2 <= 0x7fff_ffff
    ensures printed.Some? ==> fresh(printed.value) && printed.value[..] == J.Text(AsJson(v), 0, format) + [0]
  {
    hide *;
    var j := ReadItem(item, t, v);
    printed := JsonPrinter.Print(j, format);
  }

  /** The name of the root itself takes no part in its text or in comparisons. */
  lemma NameAside(v: Tree)
    ensures var w := v.(name := None);
            && (Parsed(v) ==> AsTree(AsJson(v), None) == w)
            && (Alike(v, w) <==> Alike(v, v)) && (Steady(w) <==> Steady(v))
  {
    hide ItemTrees, MemberTrees, TreeItems, TreeMembers;
    if Parsed(v) {
      TreeIsJson(v);
    }
  }

  /**
   * Items that are printed and parsed again: with the text within INT_MAX and nesting within the limit, the new
   * items hold the same tree, and compare equal to the old ones exactly when these are steady.
   */
  method PrintParseCompare(item: Node, format: bool, ghost t: Shape, ghost v: Tree)
    returns (copy: Node?, equal: bool, ghost c: Option<Shape>)
    requires t.node == item && Denotes(t, v) && Parsed(v) && J.Printable(AsJson(v))
    ensures copy != null <==>
      |J.Text(AsJson(v), 0, format)| + 2 <= 0x7fff_ffff && J.Nesting(AsJson(v)) <= 1000
    ensures copy != null ==> c.Some? && c.value.node == copy && Denotes(c.value, v.(name := None))
    ensures copy != null ==> (equal <==> Steady(v))
  {
    hide *;
    equal, copy, c := false, null, None;
    BelowIs(t);
    assert allocated(t) && allocated(Below(t.kids));
    assert forall n :: n in Nodes(t) ==> !fresh(n);
    var printed := PrintItems(item, format, t, v);
    if printed.None? {
      return;
    }
    var text := printed.value[..printed.value.Length - 1];
    assert text == J.Text(AsJson(v), 0, format);
    JsonRoundTrip.PrintedTextParses(AsJson(v), format);
    NameAside(v);
    copy, c := ParseToItems(text);
    if copy == null {
      return;
    }
    ghost var w := v.(name := None);
    SelfAlike(v);
    BelowIs(c.value);
    assert allocated(c) && allocated(Below(c.value.kids));
    TreesApart(t, v, c.value, w);
    equal := JsonCompare.Compare(item, copy, t, v, c.value, w);
  }

  lemma TreesApart(t: Shape, v: Tree, c: Shape, w: Tree)
    requires Nodes(t) !! Nodes(c)
    ensures JsonCompare.Comparable(t, v, c, w)
  {
    hide Nodes, Steady;
  }
}
