/** When two trees of cJSON items are equal for cJSON_Compare, for any trees, repeated and missing keys included. */
module JsonAlike {
  import opened Bytes
  import opened JsonList
  import opened JsonTree

  ghost function Weight(v: Tree): nat {
    1 + Weights(v.kids)
  }

  ghost function Weights(kids: seq<Tree>): (n: nat)
    ensures forall i :: 0 <= i < |kids| ==> Weight(kids[i]) <= n
  {
    if kids == [] then 0 else Weight(kids[0]) + Weights(kids[1..])
  }

  // ----- Looking up a member -----

  /** The member get_object_item finds: the first of that name, unless an unnamed one comes before. */
  function First(kids: seq<Tree>, name: Option<seq<byte>>): (k: nat)
    ensures k <= |kids|
    ensures k < |kids| ==> name.Some? && kids[k].name == name
  {
    if kids == [] then 0
    else if name == None || kids[0].name == None then |kids|
    else if kids[0].name == name then 0
    else 1 + First(kids[1..], name)
  }

  lemma {:induction false} FirstIs(kids: seq<Tree>, name: Option<seq<byte>>, k: nat)
    requires name.Some? && k <= |kids| && forall i :: 0 <= i < k ==> kids[i].name.Some? && kids[i].name != name
    ensures k < |kids| && kids[k].name == name ==> First(kids, name) == k
    ensures k == |kids| || kids[k].name == None ==> First(kids, name) == |kids|
  {
    if k > 0 {
      FirstIs(kids[1..], name, k - 1);
    }
  }

  // ----- Alike -----

  /** Equal up to the order of members, looking members up as the source does. */
  ghost predicate Alike(v: Tree, w: Tree)
    decreases Weight(v) + Weight(w), 0
  {
    && v.kind == w.kind && v.kind != Invalid
    && (v.kind == Number || v.kind == String || v.kind == Raw ==> v.text == w.text)
    && (v.kind == Array ==> |v.kids| == |w.kids| && forall i :: 0 <= i < |v.kids| ==> Alike(v.kids[i], w.kids[i]))
    && (v.kind == Object ==> Covers(v.kids, w.kids) && Covers(w.kids, v.kids))
  }

  /** Every member of `a` is like the member of `b` that is found under its name. */
  ghost predicate Covers(a: seq<Tree>, b: seq<Tree>)
    decreases Weights(a) + Weights(b), 1
  {
    forall i :: 0 <= i < |a| ==> var k := First(b, a[i].name); k < |b| && Alike(a[i], b[k])
  }

  lemma {:induction false} AlikeSymmetric(v: Tree, w: Tree)
    ensures Alike(v, w) ==> Alike(w, v)
    decreases Weight(v) + Weight(w)
  {
    hide Covers;
    if Alike(v, w) && v.kind == Array {
      forall i | 0 <= i < |v.kids| ensures Alike(w.kids[i], v.kids[i]) {
        KidLighter(v, i);
        KidLighter(w, i);
        AlikeSymmetric(v.kids[i], w.kids[i]);
      }
    }
  }

  lemma KidLighter(v: Tree, i: nat)
    requires i < |v.kids|
    ensures Weight(v.kids[i]) < Weight(v)
  {
  }

  lemma {:induction false} AlikeTransitive(v: Tree, w: Tree, x: Tree)
    ensures Alike(v, w) && Alike(w, x) ==> Alike(v, x)
    decreases Weight(v) + Weight(w) + Weight(x)
  {
    hide Covers, Weight;
    if Alike(v, w) && Alike(w, x) {
      if v.kind == Array {
        forall i | 0 <= i < |v.kids| ensures Alike(v.kids[i], x.kids[i]) {
          KidLighter(v, i);
          KidLighter(w, i);
          KidLighter(x, i);
          AlikeTransitive(v.kids[i], w.kids[i], x.kids[i]);
        }
      } else if v.kind == Object {
        CoversTransitive(v, w, x);
        CoversTransitive(x, w, v);
      }
    }
  }

  lemma {:induction false} CoversTransitive(v: Tree, w: Tree, x: Tree)
    requires Covers(v.kids, w.kids) && Covers(w.kids, x.kids)
    ensures Covers(v.kids, x.kids)
    decreases Weight(v) + Weight(w) + Weight(x), 0
  {
    hide Alike, Weight;
    forall i | 0 <= i < |v.kids|
      ensures var k := First(x.kids, v.kids[i].name); k < |x.kids| && Alike(v.kids[i], x.kids[k])
    {
      var j := First(w.kids, v.kids[i].name);
      var k := First(x.kids, w.kids[j].name);
      KidLighter(v, i);
      KidLighter(w, j);
      KidLighter(x, k);
      AlikeTransitive(v.kids[i], w.kids[j], x.kids[k]);
    }
  }

  // ----- Trees that are like themselves -----

  /** Valid types throughout, and in every object each member is like the first member of its key. */
  ghost predicate Steady(v: Tree)
    decreases Weight(v)
  {
    && v.kind != Invalid
    && (v.kind == Array || v.kind == Object ==> forall i :: 0 <= i < |v.kids| ==> Steady(v.kids[i]))
    && (v.kind == Object ==> Covers(v.kids, v.kids))
  }

  /** Which trees are like their own copies: exactly the steady ones. */
  lemma {:induction false} SelfAlike(v: Tree)
    ensures Alike(v, v) <==> Steady(v)
    decreases Weight(v)
  {
    hide Weight, Covers;
    forall i | 0 <= i < |v.kids| ensures Alike(v.kids[i], v.kids[i]) <==> Steady(v.kids[i]) {
      KidLighter(v, i);
      SelfAlike(v.kids[i]);
    }
    if v.kind == Object && Covers(v.kids, v.kids) {
      forall i | 0 <= i < |v.kids| ensures Alike(v.kids[i], v.kids[i]) {
        MemberSelfAlike(v.kids, i);
      }
    }
  }

  lemma MemberSelfAlike(kids: seq<Tree>, i: nat)
    requires Covers(kids, kids) && i < |kids|
    ensures Alike(kids[i], kids[i])
  {
    hide Alike;
    var k := First(kids, kids[i].name);
    AlikeSymmetric(kids[i], kids[k]);
    AlikeTransitive(kids[i], kids[k], kids[i]);
  }

  /** An object with a repeated key whose values differ is not like its own copy. */
  lemma RepeatedKeyDiffers()
    ensures var one := Tree(Number, [0x31], Some([0x78]), []);
            var two := Tree(Number, [0x32], Some([0x78]), []);
            var v := Tree(Object, [], None, [one, two]);
            !Alike(v, v) && !Steady(v)
  {
    var one := Tree(Number, [0x31], Some([0x78]), []);
    var two := Tree(Number, [0x32], Some([0x78]), []);
    var v := Tree(Object, [], None, [one, two]);
    FirstIs(v.kids, Some([0x78]), 0);
    assert one.text[0] != two.text[0];
    assert !Alike(two, one);
    assert v.kids[1] == two && v.kids[0] == one;
    assert !Covers(v.kids, v.kids);
  }

  // ----- Distinct keys -----

  /** What a tree means when the order of members does not matter. */
  datatype Value =
    | Atom(kind: Kind, text: seq<byte>)
    | List(items: seq<Value>)
    | Table(entries: map<seq<byte>, Value>)

  ghost function ValueOf(v: Tree): Value {
    match v.kind
    case Array => List(Values(v.kids))
    case Object => Table(Entries(v.kids))
    case Number => Atom(v.kind, v.text)
    case String => Atom(v.kind, v.text)
    case Raw => Atom(v.kind, v.text)
    case _ => Atom(v.kind, [])
  }

  ghost function Values(kids: seq<Tree>): (values: seq<Value>)
    ensures |values| == |kids| && forall i :: 0 <= i < |kids| ==> values[i] == ValueOf(kids[i])
  {
    if kids == [] then [] else [ValueOf(kids[0])] + Values(kids[1..])
  }

  ghost function Entries(kids: seq<Tree>): map<seq<byte>, Value> {
    if kids == [] then map[]
    else if kids[0].name == None then Entries(kids[1..])
    else Entries(kids[1..])[kids[0].name.value := ValueOf(kids[0])]
  }

  /** Members have names, all different. */
  ghost predicate Named(kids: seq<Tree>) {
    && (forall i :: 0 <= i < |kids| ==> kids[i].name.Some?)
    && (forall i, j :: 0 <= i < j < |kids| ==> kids[i].name != kids[j].name)
  }

  /** Valid types throughout, and in every object distinct keys. */
  ghost predicate Proper(v: Tree) {
    && v.kind != Invalid
    && (v.kind == Object ==> Named(v.kids))
    && (v.kind == Array || v.kind == Object ==> forall i :: 0 <= i < |v.kids| ==> Proper(v.kids[i]))
  }

  lemma {:induction false} EntriesAt(kids: seq<Tree>)
    requires Named(kids)
    ensures forall i :: 0 <= i < |kids| ==> kids[i].name.value in Entries(kids)
    ensures forall i :: 0 <= i < |kids| ==> Entries(kids)[kids[i].name.value] == ValueOf(kids[i])
    ensures forall key :: key in Entries(kids) ==> exists i :: 0 <= i < |kids| && kids[i].name == Some(key)
  {
    if kids != [] {
      var rest := kids[1..];
      EntriesAt(rest);
      forall i | 0 < i < |kids| ensures Entries(kids)[kids[i].name.value] == ValueOf(kids[i]) {
        assert kids[i] == rest[i - 1] && kids[0].name != kids[i].name;
      }
      forall key | key in Entries(kids) ensures exists i :: 0 <= i < |kids| && kids[i].name == Some(key) {
        if key != kids[0].name.value {
          var i :| 0 <= i < |rest| && rest[i].name == Some(key);
          assert kids[i + 1].name == Some(key);
        }
      }
    }
  }

  lemma FirstOfNamed(kids: seq<Tree>, name: Option<seq<byte>>)
    requires Named(kids) && name.Some?
    ensures First(kids, name) == |kids| ==> forall i :: 0 <= i < |kids| ==> kids[i].name != name
    ensures forall i :: 0 <= i < |kids| && kids[i].name == name ==> First(kids, name) == i
  {
    forall i | 0 <= i < |kids| && kids[i].name == name ensures First(kids, name) == i {
      FirstIs(kids, name, i);
    }
  }

  /** Distinct keys make a tree steady. */
  lemma {:induction false} ProperSteady(v: Tree)
    ensures Proper(v) ==> Steady(v)
    decreases Weight(v)
  {
    hide Weight, Alike;
    if Proper(v) && (v.kind == Array || v.kind == Object) {
      forall i | 0 <= i < |v.kids| ensures Steady(v.kids[i]) && Alike(v.kids[i], v.kids[i]) {
        KidLighter(v, i);
        ProperSteady(v.kids[i]);
        SelfAlike(v.kids[i]);
      }
      if v.kind == Object {
        forall i | 0 <= i < |v.kids| ensures First(v.kids, v.kids[i].name) == i {
          FirstOfNamed(v.kids, v.kids[i].name);
        }
      }
    }
  }

  /** With distinct keys, alike means equal up to the order of members: objects as maps. */
  lemma {:induction false} AlikeIsValue(v: Tree, w: Tree)
    requires Proper(v) && Proper(w)
    ensures Alike(v, w) <==> ValueOf(v) == ValueOf(w)
    decreases Weight(v) + Weight(w), 1
  {
    hide Weight, Covers, Entries, Values;
    if v.kind == Array && w.kind == Array {
      forall i | 0 <= i < |v.kids| && i < |w.kids| ensures Alike(v.kids[i], w.kids[i]) <==>
          ValueOf(v.kids[i]) == ValueOf(w.kids[i]) {
        KidLighter(v, i);
        KidLighter(w, i);
        AlikeIsValue(v.kids[i], w.kids[i]);
      }
      ValuesEqual(v.kids, w.kids);
    } else if v.kind == Object && w.kind == Object {
      CoversIsIncluded(v, w);
      CoversIsIncluded(w, v);
      assert Entries(v.kids) == Entries(w.kids) <==>
          Included(Entries(v.kids), Entries(w.kids)) && Included(Entries(w.kids), Entries(v.kids));
    }
  }

  lemma ValuesEqual(a: seq<Tree>, b: seq<Tree>)
    ensures Values(a) == Values(b) <==> |a| == |b| && forall i :: 0 <= i < |a| ==> ValueOf(a[i]) == ValueOf(b[i])
  {
    hide ValueOf;
    if Values(a) == Values(b) {
      forall i | 0 <= i < |a| ensures ValueOf(a[i]) == ValueOf(b[i]) {
        assert Values(a)[i] == Values(b)[i];
      }
    }
  }

  ghost predicate Included(m: map<seq<byte>, Value>, n: map<seq<byte>, Value>) {
    forall key :: key in m ==> key in n && m[key] == n[key]
  }

  lemma {:induction false} CoversIsIncluded(v: Tree, w: Tree)
    requires Proper(v) && Proper(w) && v.kind == Object && w.kind == Object
    ensures Covers(v.kids, w.kids) <==> Included(Entries(v.kids), Entries(w.kids))
    decreases Weight(v) + Weight(w), 0
  {
    hide Weight, Alike, ValueOf, Entries;
    EntriesAt(v.kids);
    EntriesAt(w.kids);
    forall i | 0 <= i < |v.kids|
      ensures var k, key := First(w.kids, v.kids[i].name), v.kids[i].name.value;
              (k < |w.kids| && Alike(v.kids[i], w.kids[k])) <==>
                (key in Entries(w.kids) && Entries(w.kids)[key] == Entries(v.kids)[key])
    {
      var k := First(w.kids, v.kids[i].name);
      FirstOfNamed(w.kids, v.kids[i].name);
      if k < |w.kids| {
        KidLighter(v, i);
        KidLighter(w, k);
        AlikeIsValue(v.kids[i], w.kids[k]);
      }
    }
  }
}
