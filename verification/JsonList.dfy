/** cJSON's child lists: doubly linked items whose edits refine edits of a sequence. */
module JsonList {
  import opened Bytes

  datatype Kind = Invalid | False | True | Null | Number | String | Array | Object | Raw

  /** A cJSON item. Numbers are kept as the text they print as. */
  class Node {
    var next: Node?
    var prev: Node?
    var child: Node?
    var kind: Kind
    var text: seq<byte>
    var name: Option<seq<byte>>

    /** cJSON_New_Item. */
    constructor ()
      ensures next == null && prev == null && child == null
      ensures kind == Invalid && text == [] && name == None
    {
      next, prev, child := null, null, null;
      kind, text, name := Invalid, [], None;
    }
  }

  ghost function Here(n: Node?): set<Node> {
    if n == null then {} else {n}
  }

  predicate Distinct(s: seq<Node>) {
    forall i, j :: 0 <= i < j < |s| ==> s[i] != s[j]
  }

  /** The links of the item at `i`; the prev of the first item is another matter. */
  ghost predicate Links(s: seq<Node>, i: nat)
    requires i < |s|
    reads {s[i]}`next, {s[i]}`prev
  {
    && s[i].next == (if i + 1 < |s| then s[i + 1] else null)
    && (i > 0 ==> s[i].prev == s[i - 1])
  }

  /**
   * The list that starts at `head` holds exactly the items `s`, linked both ways; the first item's prev is
   * the last item, or null in a list that was built without it.
   */
  ghost predicate Chain(head: Node?, s: seq<Node>)
    reads s`next, s`prev
  {
    && head == (if s == [] then null else s[0])
    && Distinct(s)
    && (forall i :: 0 <= i < |s| ==> Links(s, i))
    && (s != [] ==> s[0].prev == null || s[0].prev == s[|s| - 1])
  }

  lemma Apart(s: seq<Node>, i: nat, j: nat)
    requires Distinct(s) && i < |s| && j < |s|
    ensures s[i] == s[j] <==> i == j
  {
  }

  /** A list holds one sequence only. */
  lemma {:induction false} ChainUnique(head: Node?, s: seq<Node>, t: seq<Node>)
    requires Chain(head, s) && Chain(head, t)
    ensures s == t
  {
    hide Distinct;
    var i := 0;
    while i < |s| && i < |t|
      invariant i <= |s| && i <= |t| && s[..i] == t[..i]
      invariant i < |s| <==> i < |t|
      invariant i < |s| ==> s[i] == t[i]
    {
      assert Links(s, i) && Links(t, i);
      i := i + 1;
    }
    assert s == s[..i] && t == t[..i];
  }

  // ----- Sequence edits -----

  function InsertAt(s: seq<Node>, k: nat, x: Node): (t: seq<Node>)
    requires k <= |s|
    ensures |t| == |s| + 1
    ensures forall i :: 0 <= i < |t| ==> t[i] == if i < k then s[i] else if i == k then x else s[i - 1]
  {
    s[..k] + [x] + s[k..]
  }

  function RemoveAt(s: seq<Node>, k: nat): (t: seq<Node>)
    requires k < |s|
    ensures |t| == |s| - 1
    ensures forall i :: 0 <= i < |t| ==> t[i] == if i < k then s[i] else s[i + 1]
  {
    s[..k] + s[k + 1..]
  }

  lemma InsertMembers(s: seq<Node>, k: nat, x: Node)
    requires k <= |s|
    ensures forall y :: y in InsertAt(s, k, x) <==> y in s || y == x
  {
    assert forall i :: 0 <= i < |s| ==> s[i] == InsertAt(s, k, x)[if i < k then i else i + 1];
    assert InsertAt(s, k, x)[k] == x;
  }

  lemma NothingDistinct()
    ensures Distinct([])
  {
  }

  lemma InsertDistinct(s: seq<Node>, k: nat, x: Node)
    requires Distinct(s) && k <= |s| && x !in s
    ensures Distinct(InsertAt(s, k, x))
  {
  }

  lemma RemoveDistinct(s: seq<Node>, k: nat)
    requires Distinct(s) && k < |s|
    ensures Distinct(RemoveAt(s, k))
  {
  }

  lemma ReplaceDistinct(s: seq<Node>, k: nat, x: Node)
    requires Distinct(s) && k < |s| && x !in s
    ensures Distinct(s[k := x])
  {
  }

  // ----- Walking -----

  /** cJSON_GetArraySize. */
  method GetArraySize(list: Node?, ghost s: seq<Node>) returns (size: nat)
    requires list != null ==> Chain(list.child, s)
    ensures size == if list == null then 0 else |s|
  {
    if list == null {
      return 0;
    }
    var child := list.child;
    size := 0;
    while child != null
      invariant Chain(list.child, s)
      invariant size <= |s| && child == (if size < |s| then s[size] else null)
      decreases |s| - size
    {
      assert Links(s, size);
      size := size + 1;
      child := child.next;
    }
  }

  /** get_array_item. */
  method GetItem(list: Node?, index: nat, ghost s: seq<Node>) returns (item: Node?)
    requires list != null ==> Chain(list.child, s)
    ensures item == if list != null && index < |s| then s[index] else null
  {
    if list == null {
      return null;
    }
    item := list.child;
    var left, at := index, 0;
    while item != null && left > 0
      invariant Chain(list.child, s)
      invariant 0 <= left && left + at == index && 0 <= at <= |s| && item == (if at < |s| then s[at] else null)
      decreases left
    {
      assert Links(s, at);
      left, at := left - 1, at + 1;
      item := item.next;
    }
  }

  // ----- Editing -----

  /** suffix_object. */
  method Suffix(prev: Node, item: Node)
    modifies prev`next, item`prev
    ensures prev.next == item && item.prev == prev
  {
    prev.next := item;
    item.prev := prev;
  }

  /** add_item_to_array: the item is appended; a missing prev of the first item is repaired. */
  method AddItem(list: Node?, item: Node?, ghost s: seq<Node>) returns (ok: bool)
    requires list != null ==> Chain(list.child, s)
    requires item != null && item != list ==> item.next == null && item !in s
    modifies Here(list)`child, Here(item)`prev, Here(item)`next, s`next, s`prev
    ensures ok <==> list != null && item != null && list != item
    ensures ok ==> Chain(list.child, InsertAt(s, |s|, item)) && list.child.prev == item
    ensures !ok && list != null ==> Chain(list.child, s)
  {
    hide Distinct;
    if item == null || list == null || list == item {
      return false;
    }
    var child := list.child;
    if child == null {
      list.child := item;
      item.prev := item;
      item.next := null;
    } else {
      assert Links(s, |s| - 1);
      if child.prev != null {
        Suffix(child.prev, item);
        list.child.prev := item;
      } else {
        child := LastItem(list, s);
        Suffix(child, item);
        list.child.prev := item;
      }
      forall i | 0 <= i < |s| ensures Links(InsertAt(s, |s|, item), i) {
        assert old(Links(s, i));
        Apart(s, i, |s| - 1);
        Apart(s, i, 0);
      }
    }
    InsertDistinct(s, |s|, item);
    return true;
  }

  /** The walk of add_item_to_array to the last item. */
  method LastItem(list: Node, ghost s: seq<Node>) returns (child: Node)
    requires Chain(list.child, s) && s != []
    ensures child == s[|s| - 1]
  {
    hide Distinct;
    child := list.child;
    ghost var at := 0;
    assert Links(s, 0);
    while child.next != null
      invariant at < |s| && child == s[at] && Links(s, at)
      decreases |s| - at
    {
      child := child.next;
      at := at + 1;
      assert Links(s, at);
    }
  }

  /** cJSON_InsertItemInArray: before the item at `which`, or at the end when there is none. */
  method InsertItem(list: Node?, which: int, item: Node?, ghost s: seq<Node>) returns (ok: bool)
    requires list != null ==> Chain(list.child, s)
    requires item != null && (item != list || 0 <= which < |s|) ==> item.next == null && item !in s
    requires list != null && 0 <= which < |s| ==> item != null
    modifies Here(list)`child, Here(item)`prev, Here(item)`next, s`next, s`prev
    ensures ok <==> which >= 0 && list != null && item != null && (which < |s| || list != item)
    ensures ok ==> Chain(list.child, InsertAt(s, if which < |s| then which else |s|, item))
    ensures ok && (which >= |s| || old(list.child.prev) != null) ==> list.child.prev != null
    ensures !ok && list != null ==> Chain(list.child, s)
  {
    hide Distinct;
    if which < 0 {
      return false;
    }
    var after := GetItem(list, which, s);
    if after == null {
      ok := AddItem(list, item, s);
      return;
    }
    assert Links(s, which);
    if which > 0 {
      assert Links(s, which - 1);
    }
    Apart(s, which, 0);
    item.next := after;
    item.prev := after.prev;
    after.prev := item;
    if after == list.child {
      list.child := item;
    } else {
      item.prev.next := item;
    }
    ghost var t := InsertAt(s, which, item);
    forall i | 0 <= i < |t| ensures Links(t, i) {
      if i != which {
        ghost var j := if i < which then i else i - 1;
        assert old(Links(s, j)) && t[i] == s[j];
        Apart(s, j, which);
        if which > 0 {
          Apart(s, j, which - 1);
        }
      }
    }
    InsertDistinct(s, which, item);
    return true;
  }

  /** The items whose links a removal at `k` can touch. */
  ghost function Around(s: seq<Node>, k: nat): set<Node> {
    if k >= |s| then {}
    else (if k > 0 then {s[k - 1]} else {}) + {s[k], s[0]} + (if k + 1 < |s| then {s[k + 1]} else {})
  }

  /** cJSON_DetachItemViaPointer: the item leaves the list and points nowhere. */
  method DetachItem(parent: Node?, item: Node?, ghost s: seq<Node>, ghost k: nat) returns (detached: Node?)
    requires parent != null ==> Chain(parent.child, s) && (item != null ==> k < |s| && s[k] == item)
    modifies Here(parent)`child, Around(s, k)`next, Around(s, k)`prev
    ensures detached == if parent == null then null else item
    ensures detached != null ==> detached.next == null && detached.prev == null && Chain(parent.child, RemoveAt(s, k))
    ensures detached != null && |s| > 1 && (0 < k == |s| - 1 || old(parent.child.prev) != null) ==>
        parent.child.prev != null
    ensures detached == null && parent != null ==> Chain(parent.child, s)
  {
    hide Distinct;
    if parent == null || item == null {
      return null;
    }
    Neighbours(s, k);
    if item != parent.child {
      item.prev.next := item.next;
    }
    if item.next != null {
      item.next.prev := item.prev;
    }
    if item == parent.child {
      parent.child := item.next;
    } else if item.next == null {
      parent.child.prev := item.prev;
    }
    item.prev := null;
    item.next := null;
    forall i | 0 <= i < |s| - 1 ensures Links(RemoveAt(s, k), i) {
      ghost var j := if i < k then i else i + 1;
      assert old(Links(s, j));
      AllApart(s, j, k);
    }
    RemoveDistinct(s, k);
    AllApart(s, 0, k);
    return item;
  }

  lemma Neighbours(s: seq<Node>, k: nat)
    requires Distinct(s) && (forall i :: 0 <= i < |s| ==> Links(s, i)) && k < |s|
    ensures k + 1 < |s| ==> s[k].next == s[k + 1] && s[k + 1].prev == s[k]
    ensures k + 1 == |s| ==> s[k].next == null
    ensures k > 0 ==> s[k].prev == s[k - 1] && s[k - 1].next == s[k] && s[k] != s[0]
  {
    assert Links(s, k);
    if k > 0 {
      assert Links(s, k - 1);
    }
    if k + 1 < |s| {
      assert Links(s, k + 1);
    }
  }

  lemma AllApart(s: seq<Node>, j: nat, k: nat)
    requires Distinct(s) && j < |s| && k < |s|
    ensures j != k ==> s[j] != s[k]
    ensures k > 0 && j != k - 1 ==> s[j] != s[k - 1]
    ensures k + 1 < |s| && j != k + 1 ==> s[j] != s[k + 1]
    ensures j > 0 ==> s[j] != s[0]
  {
  }

  /** cJSON_DetachItemFromArray. */
  method DetachItemFromArray(list: Node?, which: int, ghost s: seq<Node>) returns (detached: Node?)
    requires list != null ==> Chain(list.child, s)
    modifies Here(list)`child, s`next, s`prev
    ensures detached == if list != null && 0 <= which < |s| then s[which] else null
    ensures detached != null ==> Chain(list.child, RemoveAt(s, which))
    ensures detached == null && list != null ==> Chain(list.child, s)
  {
    if which < 0 {
      return null;
    }
    var item := GetItem(list, which, s);
    detached := DetachItem(list, item, s, if which < |s| then which else 0);
  }

  /** cJSON_ReplaceItemViaPointer: the replacement takes the item's place; the item is released. */
  method ReplaceItem(parent: Node?, item: Node?, replacement: Node?, ghost s: seq<Node>, ghost k: nat)
      returns (ok: bool)
    requires parent != null ==> Chain(parent.child, s) && (item != null ==> k < |s| && s[k] == item)
    requires replacement != null && replacement != item ==> replacement !in s
    modifies Here(parent)`child, Here(replacement)`next, Here(replacement)`prev, Around(s, k)`next, Around(s, k)`prev
    ensures ok <==> parent != null && item != null && replacement != null
    ensures ok ==> Chain(parent.child, s[k := replacement])
    ensures ok && replacement != item && (0 < k == |s| - 1 || old(parent.child.prev) != null) ==>
        parent.child.prev != null
    ensures ok && replacement != item ==> item.next == null && item.prev == null
    ensures !ok && parent != null ==> Chain(parent.child, s)
  {
    hide Distinct;
    if parent == null || replacement == null || item == null {
      return false;
    }
    if replacement == item {
      assert s[k := replacement] == s;
      return true;
    }
    assert Links(s, k);
    if k > 0 {
      assert Links(s, k - 1);
    }
    Apart(s, k, 0);
    Apart(s, |s| - 1, 0);
    replacement.next := item.next;
    replacement.prev := item.prev;
    if replacement.next != null {
      replacement.next.prev := replacement;
    }
    if parent.child == item {
      if parent.child.prev == parent.child {
        replacement.prev := replacement;
      }
      parent.child := replacement;
    } else {
      if replacement.prev != null {
        replacement.prev.next := replacement;
      }
      if replacement.next == null {
        parent.child.prev := replacement;
      }
    }
    item.next := null;
    item.prev := null;
    ghost var t := s[k := replacement];
    forall i | 0 <= i < |t| ensures Links(t, i) {
      assert old(Links(s, i));
      Apart(s, i, k);
      if k > 0 {
        Apart(s, i, k - 1);
      }
      if k + 1 < |s| {
        Apart(s, i, k + 1);
      }
      Apart(s, i, 0);
    }
    ReplaceDistinct(s, k, replacement);
    if k + 1 < |s| {
      Apart(s, 0, k + 1);
    }
    return true;
  }

  /** cJSON_ReplaceItemInArray. */
  method ReplaceItemInArray(list: Node?, which: int, item: Node?, ghost s: seq<Node>) returns (ok: bool)
    requires list != null ==> Chain(list.child, s)
    requires item != null ==> item !in s
    modifies Here(list)`child, Here(item)`next, Here(item)`prev, s`next, s`prev
    ensures ok <==> list != null && 0 <= which < |s| && item != null
    ensures ok ==> Chain(list.child, s[which := item])
    ensures !ok && list != null ==> Chain(list.child, s)
  {
    if which < 0 {
      return false;
    }
    var replaced := GetItem(list, which, s);
    ok := ReplaceItem(list, replaced, item, s, if which < |s| then which else 0);
  }

  /** The loop step of cJSON_CreateIntArray and cJSON_Duplicate: `last` is the item added before, if any. */
  method LinkLast(list: Node, last: Node?, n: Node, ghost s: seq<Node>)
    requires Chain(list.child, s) && n !in s && n.next == null && n.prev == null && n != list && list !in s
    requires if s == [] then last == null else last == s[|s| - 1] && s[0].prev == null
    modifies list`child, n`prev, Here(last)`next
    ensures Chain(list.child, InsertAt(s, |s|, n)) && InsertAt(s, |s|, n)[0].prev == null
  {
    hide Distinct;
    if last == null {
      list.child := n;
    } else {
      Suffix(last, n);
      forall i | 0 <= i < |s| ensures Links(InsertAt(s, |s|, n), i) {
        assert old(Links(s, i));
        Apart(s, i, |s| - 1);
      }
    }
    InsertDistinct(s, |s|, n);
  }

  /** cJSON_CreateIntArray: the first item's prev stays null, which the list operations allow for. */
  method CreateIntArray(numbers: seq<seq<byte>>) returns (list: Node, ghost s: seq<Node>)
    ensures fresh(list) && (forall n :: n in s ==> fresh(n)) && list !in s
    ensures list.kind == Array && Chain(list.child, s) && |s| == |numbers|
    ensures forall i :: 0 <= i < |s| ==> s[i].kind == Number && s[i].text == numbers[i] && s[i].child == null
    ensures s != [] ==> s[0].prev == null
  {
    hide Distinct, Links;
    list := new Node();
    list.kind := Array;
    s := [];
    NothingDistinct();
    var i, last: Node? := 0, null;
    while i < |numbers|
      invariant i == |s| <= |numbers|
      invariant fresh(list) && (forall n :: n in s ==> fresh(n)) && list !in s
      invariant list.kind == Array && Chain(list.child, s)
      invariant if s == [] then last == null else last == s[|s| - 1] && s[0].prev == null
      invariant last != null ==> fresh(last)
      invariant forall k :: 0 <= k < i ==> s[k].kind == Number && s[k].text == numbers[k] && s[k].child == null
    {
      var n := new Node();
      n.kind := Number;
      n.text := numbers[i];
      LinkLast(list, last, n, s);
      InsertMembers(s, i, n);
      last := n;
      s := InsertAt(s, i, n);
      i := i + 1;
    }
  }
}
