/** What a text is as a tree of items, and when trees are alike, child by child and without the parser's functions. */
module JsonMeaning {
  import opened Bytes
  import J = JsonText
  import P = JsonParse
  import JsonGrammar
  import JsonReading
  import JsonStandard
  import opened JsonList
  import opened JsonTree
  import opened JsonAlike
  import opened JsonItems

  // ----- From a text to the types of its items -----

  /** The three words, as texts, and the type of the item each is read into. */
  lemma WordsRead()
    ensures P.Parse(JsonStandard.Ascii("null")) == Some(J.Null) && AsTree(J.Null, None).kind == Null
    ensures P.Parse(JsonStandard.Ascii("true")) == Some(J.True) && AsTree(J.True, None).kind == True
    ensures P.Parse(JsonStandard.Ascii("false")) == Some(J.False) && AsTree(J.False, None).kind == False
  {
    JsonStandard.Characters();
    WordRead(J.Null);
    WordRead(J.True);
    WordRead(J.False);
    hide P.Parse, JsonStandard.Ascii;
  }

  lemma WordRead(v: J.Json)
    requires v.Null? || v.True? || v.False?
    ensures P.Parse(J.Text(v, 0, false)) == Some(v)
  {
    hide P.Parse;
    var text := J.Text(v, 0, false);
    JsonReading.DocumentReads(false, [], JsonGrammar.Word(v), []);
    assert JsonReading.Document(false, [], JsonGrammar.Word(v), []) == text;
  }

  /** A number or string is an item of its type and bytes; the i-th child of an array is the i-th element. */
  lemma {:induction false} ArrayTree(vs: seq<J.Json>, name: Option<seq<byte>>)
    ensures forall t :: AsTree(J.Number(t), name) == Tree(Number, t, name, [])
    ensures forall s :: AsTree(J.String(s), name) == Tree(String, s, name, [])
    ensures var t := AsTree(J.Array(JsonStandard.ItemsOf(vs)), name);
            && t.kind == Array && t.name == name && |t.kids| == |vs|
            && forall i :: 0 <= i < |vs| ==> t.kids[i] == AsTree(vs[i], None)
  {
    if vs != [] {
      ArrayTree(vs[1..], name);
    }
  }

  /** The i-th child of an object is the i-th member, with its key as its name. */
  lemma {:induction false} ObjectTree(es: seq<JsonStandard.Entry>, name: Option<seq<byte>>)
    ensures var t := AsTree(J.Object(JsonStandard.MembersOf(es)), name);
            && t.kind == Object && t.name == name && |t.kids| == |es|
            && forall i :: 0 <= i < |es| ==> t.kids[i] == AsTree(es[i].value, Some(es[i].key))
  {
    if es != [] {
      ObjectTree(es[1..], name);
    }
  }

  // ----- Alike, case by case -----

  /** Items of different types are never alike, nor are invalid ones. */
  lemma KindsApart(v: Tree, w: Tree)
    ensures v.kind != w.kind || v.kind == Invalid ==> !Alike(v, w)
  {
  }

  /** Words are alike whatever they are called; numbers, strings and raw texts exactly when their bytes are equal. */
  lemma LeavesAlike(v: Tree, w: Tree)
    requires v.kind == w.kind && v.kind != Invalid && v.kind != Array && v.kind != Object
    ensures Alike(v, w) <==> v.kind == Null || v.kind == True || v.kind == False || v.text == w.text
  {
  }

  /** Arrays are alike exactly when they have as many elements, alike one by one in their order. */
  lemma ArraysAlike(v: Tree, w: Tree)
    requires v.kind == w.kind == Array
    ensures Alike(v, w) <==> |v.kids| == |w.kids| && forall i :: 0 <= i < |v.kids| ==> Alike(v.kids[i], w.kids[i])
  {
  }

  /** Some member of `b` has the name of x and is like it. */
  ghost predicate HasLike(x: Tree, b: seq<Tree>) {
    exists j :: 0 <= j < |b| && b[j].name == x.name && Alike(x, b[j])
  }

  lemma CoversExact(a: seq<Tree>, b: seq<Tree>)
    requires Named(a) && Named(b)
    ensures Covers(a, b) <==> forall i :: 0 <= i < |a| ==> HasLike(a[i], b)
  {
    hide Alike;
    forall i | 0 <= i < |a|
      ensures HasLike(a[i], b) <==> (var k := First(b, a[i].name); k < |b| && Alike(a[i], b[k]))
    {
      FirstOfNamed(b, a[i].name);
    }
  }

  /**
   * With distinct keys objects are alike exactly when they have as many members and each member of the one has a
   * like one of the same key in the other, wherever it stands.
   */
  lemma ObjectsAlike(v: Tree, w: Tree)
    requires v.kind == w.kind == Object && Named(v.kids) && Named(w.kids)
    ensures Alike(v, w) <==> |v.kids| == |w.kids| && forall i :: 0 <= i < |v.kids| ==> HasLike(v.kids[i], w.kids)
  {
    hide Covers, HasLike;
    CoversExact(v.kids, w.kids);
    CoversExact(w.kids, v.kids);
    if forall i :: 0 <= i < |v.kids| ==> HasLike(v.kids[i], w.kids) {
      var f := Partners(v.kids, w.kids);
      if |v.kids| == |w.kids| {
        forall j | 0 <= j < |w.kids| ensures HasLike(w.kids[j], v.kids) {
          OntoSameSize(f, |w.kids|, j);
          var i :| 0 <= i < |f| && f[i] == j;
          LikeBack(v.kids, w.kids, i, j);
        }
      } else if forall j :: 0 <= j < |w.kids| ==> HasLike(w.kids[j], v.kids) {
        var g := Partners(w.kids, v.kids);
        NotLonger(f, |w.kids|);
        NotLonger(g, |v.kids|);
      }
    }
  }

  lemma LikeBack(a: seq<Tree>, b: seq<Tree>, i: nat, j: nat)
    requires i < |a| && j < |b| && b[j].name == a[i].name && Alike(a[i], b[j])
    ensures HasLike(b[j], a)
  {
    hide Alike;
    AlikeSymmetric(a[i], b[j]);
  }

  /** Where the partner of each member stands. */
  lemma {:induction false} Partners(a: seq<Tree>, b: seq<Tree>) returns (f: seq<nat>)
    requires Named(a) && Named(b) && forall i :: 0 <= i < |a| ==> HasLike(a[i], b)
    ensures |f| == |a| && Spread(f, |b|)
    ensures forall i :: 0 <= i < |a| ==> f[i] < |b| && b[f[i]].name == a[i].name && Alike(a[i], b[f[i]])
  {
    hide Alike;
    if a == [] {
      return [];
    }
    assert HasLike(a[0], b);
    var j :| 0 <= j < |b| && b[j].name == a[0].name && Alike(a[0], b[j]);
    forall i | 0 <= i < |a[1..]| ensures HasLike(a[1..][i], b) {
      assert HasLike(a[i + 1], b);
    }
    var rest := Partners(a[1..], b);
    f := [j] + rest;
    forall i | 0 < i < |f| ensures f[i] != j && f[i] < |b| && b[f[i]].name == a[i].name && Alike(a[i], b[f[i]]) {
      assert f[i] == rest[i - 1] && a[i] == a[1..][i - 1];
    }
  }

  /** Different places below n. */
  predicate Spread(f: seq<nat>, n: nat) {
    && (forall i :: 0 <= i < |f| ==> f[i] < n)
    && (forall i, k :: 0 <= i < k < |f| ==> f[i] != f[k])
  }

  lemma {:induction false} Image(f: seq<nat>, n: nat) returns (s: set<nat>)
    requires Spread(f, n)
    ensures |s| == |f| && (forall x :: x in s <==> x in f)
  {
    if f == [] {
      return {};
    }
    var rest := Image(f[1..], n);
    assert f == [f[0]] + f[1..];
    s := rest + {f[0]};
  }

  lemma {:induction false} UpTo(n: nat) returns (s: set<nat>)
    ensures |s| == n && forall x :: x in s <==> 0 <= x < n
  {
    if n == 0 {
      return {};
    }
    var rest := UpTo(n - 1);
    s := rest + {n - 1};
  }

  lemma SmallerSet(s: set<nat>, t: set<nat>)
    requires s <= t
    ensures |s| <= |t| && (|s| == |t| ==> s == t)
  {
    var d := t - s;
    assert t == s + d && s !! d;
    assert |t| == |s| + |d|;
    assert d == {} ==> s == t;
  }

  lemma NotLonger(f: seq<nat>, n: nat)
    requires Spread(f, n)
    ensures |f| <= n
  {
    var s := Image(f, n);
    var t := UpTo(n);
    SmallerSet(s, t);
  }

  lemma OntoSameSize(f: seq<nat>, n: nat, j: nat)
    requires Spread(f, n) && |f| == n && j < n
    ensures exists i :: 0 <= i < |f| && f[i] == j
  {
    var s := Image(f, n);
    var t := UpTo(n);
    SmallerSet(s, t);
    assert j in s;
  }
}
