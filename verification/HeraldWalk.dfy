/** decode_name on any octets: what it returns, and exactly when that is a name section 4.1.4 of RFC 1035 denotes. */
module HeraldWalk {
  import opened Bytes
  import opened HeraldNames
  import opened HeraldDecoding

  // ----- The walk along labels and pointers -----

  /** How a walk stops: at a root label, behind the packet, without steps, or at something that is cut off. */
  datatype Stop = Root | Outside | OutOfSteps | Broken

  /** A label of any length decode_name takes, inside the packet. */
  predicate WholeLabel(buf: seq<byte>, pos: nat) {
    pos < |buf| && 0 < buf[pos] < 192 && pos + 1 + buf[pos] <= |buf|
  }

  predicate WholePointer(buf: seq<byte>, pos: nat) {
    pos + 1 < |buf| && buf[pos] >= 192
  }

  function StopOf(buf: seq<byte>, pos: nat, steps: nat): Stop
    decreases steps
  {
    if pos >= |buf| then Outside
    else if steps == 0 then OutOfSteps
    else if buf[pos] == 0 then Root
    else if WholePointer(buf, pos) then StopOf(buf, Offset(buf[pos], buf[pos + 1]), steps - 1)
    else if WholeLabel(buf, pos) then StopOf(buf, pos + 1 + buf[pos], steps - 1)
    else Broken
  }

  /** Where the walk stops. */
  function StopAt(buf: seq<byte>, pos: nat, steps: nat): nat
    decreases steps
  {
    if pos >= |buf| || steps == 0 || buf[pos] == 0 then pos
    else if WholePointer(buf, pos) then StopAt(buf, Offset(buf[pos], buf[pos + 1]), steps - 1)
    else if WholeLabel(buf, pos) then StopAt(buf, pos + 1 + buf[pos], steps - 1)
    else pos
  }

  /** The labels passed. */
  function Passed(buf: seq<byte>, pos: nat, steps: nat): seq<seq<byte>>
    decreases steps
  {
    if pos >= |buf| || steps == 0 || buf[pos] == 0 then []
    else if WholePointer(buf, pos) then Passed(buf, Offset(buf[pos], buf[pos + 1]), steps - 1)
    else if WholeLabel(buf, pos) then
      [buf[pos + 1..pos + 1 + buf[pos]]] + Passed(buf, pos + 1 + buf[pos], steps - 1)
    else []
  }

  /** Was a pointer followed? */
  predicate Leaps(buf: seq<byte>, pos: nat, steps: nat)
    decreases steps
  {
    && pos < |buf| && steps > 0
    && (WholePointer(buf, pos) || (WholeLabel(buf, pos) && Leaps(buf, pos + 1 + buf[pos], steps - 1)))
  }

  /** Was a label passed whose length octet, 64 to 191, RFC 1035 reserves? */
  predicate PassesReserved(buf: seq<byte>, pos: nat, steps: nat)
    decreases steps
  {
    && pos < |buf| && steps > 0
    && (if WholePointer(buf, pos) then PassesReserved(buf, Offset(buf[pos], buf[pos + 1]), steps - 1)
        else WholeLabel(buf, pos) && (buf[pos] >= 64 || PassesReserved(buf, pos + 1 + buf[pos], steps - 1)))
  }

  lemma {:induction false} PassedNonempty(buf: seq<byte>, pos: nat, steps: nat)
    ensures forall i :: 0 <= i < |Passed(buf, pos, steps)| ==> Passed(buf, pos, steps)[i] != []
    decreases steps
  {
    if pos < |buf| && steps > 0 {
      if WholePointer(buf, pos) {
        PassedNonempty(buf, Offset(buf[pos], buf[pos + 1]), steps - 1);
      } else if WholeLabel(buf, pos) {
        PassedNonempty(buf, pos + 1 + buf[pos], steps - 1);
      }
    }
  }

  // ----- What decode_name returns -----

  lemma WalkOverPointer(buf: seq<byte>, pos: nat, steps: nat)
    requires steps > 0 && WholePointer(buf, pos)
    ensures var to := Offset(buf[pos], buf[pos + 1]);
            && StopOf(buf, pos, steps) == StopOf(buf, to, steps - 1)
            && StopAt(buf, pos, steps) == StopAt(buf, to, steps - 1)
            && Passed(buf, pos, steps) == Passed(buf, to, steps - 1)
            && PassesReserved(buf, pos, steps) == PassesReserved(buf, to, steps - 1)
    ensures Leaps(buf, pos, steps) && NameEnd(buf, pos) == pos + 2
  {
  }

  lemma WalkOverLabel(buf: seq<byte>, pos: nat, steps: nat)
    requires steps > 0 && WholeLabel(buf, pos)
    ensures var to := pos + 1 + buf[pos];
            && StopOf(buf, pos, steps) == StopOf(buf, to, steps - 1)
            && StopAt(buf, pos, steps) == StopAt(buf, to, steps - 1)
            && Passed(buf, pos, steps) == [buf[pos + 1..to]] + Passed(buf, to, steps - 1)
            && PassesReserved(buf, pos, steps) == (buf[pos] >= 64 || PassesReserved(buf, to, steps - 1))
            && Leaps(buf, pos, steps) == Leaps(buf, to, steps - 1)
            && NameEnd(buf, pos) == NameEnd(buf, to)
  {
  }

  /** A walk that stops at once. */
  lemma WalkStops(buf: seq<byte>, pos: nat, steps: nat)
    requires pos >= |buf| || steps == 0 || !(WholePointer(buf, pos) || WholeLabel(buf, pos))
    ensures Passed(buf, pos, steps) == [] && !Leaps(buf, pos, steps) && !PassesReserved(buf, pos, steps)
    ensures StopAt(buf, pos, steps) == pos
    ensures StopOf(buf, pos, steps) == (
              if pos >= |buf| then Outside else if steps == 0 then OutOfSteps
              else if buf[pos] == 0 then Root else Broken)
  {
  }

  /** The loop of decode_name from any point, on any octets. */
  lemma {:induction false} LoopWalks(
      buf: seq<byte>, pos: nat, steps: nat, jumped: bool, ret: int, text: seq<byte>)
    requires |text| < MAX_NAME_LEN
    ensures var full, stop := Appended(text, Passed(buf, pos, steps)), StopOf(buf, pos, steps);
            var d := DecodeFrom(buf, pos, steps, jumped, ret, text);
            var end := if !jumped && (stop.Root? || Leaps(buf, pos, steps)) then NameEnd(buf, pos) else ret;
            if stop.Broken? || |full| >= MAX_NAME_LEN then d.ret == -1 && !d.terminated
            else d == Decoded(end, full, true)
    decreases steps
  {
    hide *;
    DecodeStep(buf, pos, steps, jumped, ret, text);
    Shapes(buf, pos);
    if pos >= |buf| || steps == 0 || !(WholePointer(buf, pos) || WholeLabel(buf, pos)) {
      WalkStops(buf, pos, steps);
      NothingAppended(text);
      RootEnds(buf, pos);
    } else if WholePointer(buf, pos) {
      WalkOverPointer(buf, pos, steps);
      LoopWalks(buf, Offset(buf[pos], buf[pos + 1]), steps - 1, true, if jumped then ret else pos + 2, text);
    } else {
      WalkOverLabel(buf, pos, steps);
      var to := pos + 1 + buf[pos];
      var first, more := buf[pos + 1..to], Passed(buf, to, steps - 1);
      var next := if text == [] then first else text + [DOT] + first;
      AppendedFirst(text, [first] + more);
      assert ([first] + more)[1..] == more;
      AppendedGrows(next, more);
      DottedIs(text, first);
      if |Dotted(text)| + buf[pos] < MAX_NAME_LEN {
        LoopWalks(buf, to, steps - 1, jumped, ret, next);
      }
    }
  }

  lemma Shapes(buf: seq<byte>, pos: nat)
    ensures WholePointer(buf, pos) <==> pos + 1 < |buf| && buf[pos] >= 192
    ensures WholeLabel(buf, pos) <==> pos < |buf| && 0 < buf[pos] < 192 && pos + 1 + buf[pos] <= |buf|
  {
  }

  lemma RootEnds(buf: seq<byte>, pos: nat)
    ensures pos < |buf| && buf[pos] == 0 ==> NameEnd(buf, pos) == pos + 1
  {
  }

  /** The text collected on the walk. */
  function Text(buf: seq<byte>, pos: nat): seq<byte> {
    Join(Passed(buf, pos, MAX_STEPS))
  }

  /**
   * What decode_name returns for any octets: the labels passed, joined, when they fit and nothing met is cut
   * off; and a position when the walk came to a root label or followed a pointer.
   */
  lemma DecodeWalks(buf: seq<byte>, pos: nat)
    ensures var d, stop := Decode(buf, pos), StopOf(buf, pos, MAX_STEPS);
            if stop.Broken? || |Text(buf, pos)| >= MAX_NAME_LEN then d.ret == -1 && !d.terminated
            else d == Decoded(if stop.Root? || Leaps(buf, pos, MAX_STEPS) then NameEnd(buf, pos) else -1,
                              Text(buf, pos), true)
  {
    hide DecodeFrom, Appended, Join, NameEnd, Leaps, Passed, StopOf;
    PassedNonempty(buf, pos, MAX_STEPS);
    AppendedJoin([], Passed(buf, pos, MAX_STEPS));
    LoopWalks(buf, pos, MAX_STEPS, false, -1, []);
  }

  // ----- Walks and names -----

  /** A walk to a root label over no reserved length is a name. */
  lemma {:induction false} WalkIsName(buf: seq<byte>, pos: nat, steps: nat, rest: seq<seq<byte>>, more: nat)
    requires !PassesReserved(buf, pos, steps)
    requires NameAt(buf, StopAt(buf, pos, steps), rest, more)
    requires StopOf(buf, pos, steps).Root? || StopOf(buf, pos, steps).OutOfSteps?
    ensures exists hops: nat ::
              NameAt(buf, pos, Passed(buf, pos, steps) + rest, hops) && hops <= steps + more
              && (StopOf(buf, pos, steps).Root? ==> hops < steps + more)
    decreases steps
  {
    hide NameAt, Passed, StopOf, StopAt, PassesReserved, Leaps;
    if steps > 0 && (WholePointer(buf, pos) || WholeLabel(buf, pos)) {
      var to := if WholePointer(buf, pos) then Offset(buf[pos], buf[pos + 1]) else pos + 1 + buf[pos];
      if WholePointer(buf, pos) {
        WalkOverPointer(buf, pos, steps);
      } else {
        WalkOverLabel(buf, pos, steps);
      }
      WalkIsName(buf, to, steps - 1, rest, more);
      var labels := Passed(buf, to, steps - 1) + rest;
      var hops: nat :| NameAt(buf, to, labels, hops) && hops <= steps - 1 + more
        && (StopOf(buf, to, steps - 1).Root? ==> hops < steps - 1 + more);
      NameBefore(buf, pos, labels, hops);
      if WholeLabel(buf, pos) {
        assert Passed(buf, pos, steps) + rest == [buf[pos + 1..to]] + labels;
      }
      assert NameAt(buf, pos, Passed(buf, pos, steps) + rest, hops + 1);
    } else {
      WalkStops(buf, pos, steps);
      assert [] + rest == rest;
      assert NameAt(buf, pos, Passed(buf, pos, steps) + rest, more);
    }
  }

  lemma NameBefore(buf: seq<byte>, pos: nat, labels: seq<seq<byte>>, hops: nat)
    ensures WholePointer(buf, pos) && NameAt(buf, Offset(buf[pos], buf[pos + 1]), labels, hops)
            ==> NameAt(buf, pos, labels, hops + 1)
    ensures WholeLabel(buf, pos) && buf[pos] < 64 && NameAt(buf, pos + 1 + buf[pos], labels, hops)
            ==> NameAt(buf, pos, [buf[pos + 1..pos + 1 + buf[pos]]] + labels, hops + 1)
  {
    if WholeLabel(buf, pos) {
      assert ([buf[pos + 1..pos + 1 + buf[pos]]] + labels)[1..] == labels;
    }
  }

  /** A name is a walk: to its root label, or as far as the steps go, with the rest of the name behind. */
  lemma {:induction false} NameIsWalk(buf: seq<byte>, pos: nat, labels: seq<seq<byte>>, hops: nat, steps: nat)
    returns (rest: seq<seq<byte>>)
    requires NameAt(buf, pos, labels, hops)
    ensures !PassesReserved(buf, pos, steps) && labels == Passed(buf, pos, steps) + rest
    ensures hops < steps ==> StopOf(buf, pos, steps).Root? && rest == []
    ensures hops >= steps ==>
              StopOf(buf, pos, steps).OutOfSteps? && NameAt(buf, StopAt(buf, pos, steps), rest, hops - steps)
    decreases steps
  {
    hide *;
    Shapes(buf, pos);
    NameStep(buf, pos, labels, hops);
    if steps == 0 || buf[pos] == 0 {
      WalkStops(buf, pos, steps);
      rest := labels;
      assert labels == [] + rest;
    } else if buf[pos] >= 192 {
      WalkOverPointer(buf, pos, steps);
      rest := NameIsWalk(buf, Offset(buf[pos], buf[pos + 1]), labels, hops - 1, steps - 1);
    } else {
      WalkOverLabel(buf, pos, steps);
      rest := NameIsWalk(buf, pos + 1 + buf[pos], labels[1..], hops - 1, steps - 1);
      assert labels == [labels[0]] + labels[1..];
    }
  }

  lemma NameStep(buf: seq<byte>, pos: nat, labels: seq<seq<byte>>, hops: nat)
    requires NameAt(buf, pos, labels, hops)
    ensures pos < |buf|
    ensures var c := buf[pos];
            if c == 0 then labels == [] && hops == 0
            else if c >= 192 then hops > 0 && pos + 1 < |buf| && NameAt(buf, Offset(c, buf[pos + 1]), labels, hops - 1)
            else
              && hops > 0 && c < 64 && labels != [] && pos + 1 + c <= |buf| && labels[0] == buf[pos + 1..pos + 1 + c]
              && NameAt(buf, pos + 1 + c, labels[1..], hops - 1)
  {
  }

  // ----- Names are short chains -----

  /** What is denoted at a position, and over how many hops, is determined. */
  lemma {:induction false} NameUnique(
      buf: seq<byte>, pos: nat, a: seq<seq<byte>>, h: nat, b: seq<seq<byte>>, k: nat)
    requires NameAt(buf, pos, a, h) && NameAt(buf, pos, b, k)
    ensures a == b && h == k
    decreases h
  {
    if buf[pos] >= 192 {
      NameUnique(buf, Offset(buf[pos], buf[pos + 1]), a, h - 1, b, k - 1);
    } else if buf[pos] != 0 {
      NameUnique(buf, pos + 1 + buf[pos], a[1..], h - 1, b[1..], k - 1);
      assert a == [a[0]] + a[1..] && b == [b[0]] + b[1..];
    }
  }

  /** A name of at most so many hops is denoted at `p`. */
  ghost predicate NamedWithin(buf: seq<byte>, p: int, hops: int) {
    0 <= p < |buf| && exists labels, h: nat :: h <= hops && NameAt(buf, p, labels, h)
  }

  /** The positions a name leads over, one for every number of hops still to go. */
  lemma {:induction false} Stations(buf: seq<byte>, pos: nat, labels: seq<seq<byte>>, hops: nat)
    returns (s: set<int>)
    requires NameAt(buf, pos, labels, hops)
    ensures |s| == hops + 1
    ensures forall p :: p in s ==> NamedWithin(buf, p, hops)
    decreases hops
  {
    s := {};
    if buf[pos] != 0 {
      var to, rest := if buf[pos] >= 192 then Offset(buf[pos], buf[pos + 1]) else pos + 1 + buf[pos],
                      if buf[pos] >= 192 then labels else labels[1..];
      s := Stations(buf, to, rest, hops - 1);
      if pos in s {
        var l, h: nat :| h <= hops - 1 && NameAt(buf, pos, l, h);
        NameUnique(buf, pos, labels, hops, l, h);
        assert false;
      }
      forall p | p in s ensures NamedWithin(buf, p, hops) {
        var l, h: nat :| h <= hops - 1 && NameAt(buf, p, l, h);
        assert h <= hops;
      }
    }
    s := s + {pos};
  }

  lemma {:induction false} Below(n: nat) returns (all: set<int>)
    ensures |all| == n && forall p :: p in all <==> 0 <= p < n
  {
    all := {};
    if n > 0 {
      var less := Below(n - 1);
      all := less + {n - 1};
    }
  }

  lemma SubsetSize(a: set<int>, b: set<int>)
    requires a <= b
    ensures |a| <= |b|
  {
    assert b == a + (b - a);
  }

  /** A name in a packet takes fewer hops than the packet has octets. */
  lemma HopsBound(buf: seq<byte>, pos: nat, labels: seq<seq<byte>>, hops: nat)
    requires NameAt(buf, pos, labels, hops)
    ensures hops < |buf|
  {
    hide NameAt;
    var s := Stations(buf, pos, labels, hops);
    var all := Below(|buf|);
    forall p | p in s ensures p in all {
      assert NamedWithin(buf, p, hops);
    }
    SubsetSize(s, all);
  }

  /** From here pointers alone lead to a root label. */
  predicate OnlyPointers(buf: seq<byte>, pos: nat) {
    StopOf(buf, pos, |buf|).Root? && Passed(buf, pos, |buf|) == []
  }

  lemma EmptyName(buf: seq<byte>, pos: nat)
    ensures OnlyPointers(buf, pos) <==> exists h: nat :: NameAt(buf, pos, [], h)
  {
    hide *;
    OnlyPointersIs(buf, pos);
    if OnlyPointers(buf, pos) {
      NothingReserved(buf, pos, |buf|);
      RootStop(buf, pos, |buf|);
      WalkIsName(buf, pos, |buf|, [], 0);
      assert Passed(buf, pos, |buf|) + [] == [];
    } else if h: nat :| NameAt(buf, pos, [], h) {
      HopsBound(buf, pos, [], h);
      var rest := NameIsWalk(buf, pos, [], h, |buf|);
      assert false;
    }
  }

  lemma OnlyPointersIs(buf: seq<byte>, pos: nat)
    ensures OnlyPointers(buf, pos) <==> StopOf(buf, pos, |buf|).Root? && Passed(buf, pos, |buf|) == []
  {
  }

  lemma {:induction false} NothingReserved(buf: seq<byte>, pos: nat, steps: nat)
    ensures Passed(buf, pos, steps) == [] ==> !PassesReserved(buf, pos, steps)
    decreases steps
  {
    if steps > 0 && WholePointer(buf, pos) {
      NothingReserved(buf, Offset(buf[pos], buf[pos + 1]), steps - 1);
    }
  }

  lemma {:induction false} RootStop(buf: seq<byte>, pos: nat, steps: nat)
    ensures StopOf(buf, pos, steps).Root? ==> NameAt(buf, StopAt(buf, pos, steps), [], 0)
    decreases steps
  {
    if pos < |buf| && steps > 0 {
      if WholePointer(buf, pos) {
        RootStop(buf, Offset(buf[pos], buf[pos + 1]), steps - 1);
      } else if WholeLabel(buf, pos) {
        RootStop(buf, pos + 1 + buf[pos], steps - 1);
      }
    }
  }

  // ----- When the result is right -----

  /** decode_name returns the name that is denoted at `pos`, and the position behind it. */
  ghost predicate Right(buf: seq<byte>, pos: nat) {
    exists labels, hops: nat ::
      NameAt(buf, pos, labels, hops) && Decode(buf, pos) == Decoded(NameEnd(buf, pos), Join(labels), true)
  }

  /**
   * Nothing but labels of 1 to 63 octets and pointers to positions inside the packet, up to a root label; the
   * steps suffice for it, or for a pointer and all labels.
   */
  predicate Sound(buf: seq<byte>, pos: nat) {
    && !PassesReserved(buf, pos, MAX_STEPS)
    && (StopOf(buf, pos, MAX_STEPS).Root?
        || (StopOf(buf, pos, MAX_STEPS).OutOfSteps? && Leaps(buf, pos, MAX_STEPS)
            && OnlyPointers(buf, StopAt(buf, pos, MAX_STEPS))))
  }

  lemma RightIsSound(buf: seq<byte>, pos: nat, labels: seq<seq<byte>>, hops: nat)
    requires NameAt(buf, pos, labels, hops) && Decode(buf, pos) == Decoded(NameEnd(buf, pos), Join(labels), true)
    ensures |Text(buf, pos)| < MAX_NAME_LEN && Sound(buf, pos)
  {
    hide NameAt, DecodeFrom, Join, NameEnd, Leaps, Passed, StopOf, StopAt, PassesReserved, OnlyPointers;
    var rest := NameIsWalk(buf, pos, labels, hops, MAX_STEPS);
    DecodeWalks(buf, pos);
    EndBehind(buf, pos);
    LabelsNonempty(buf, pos, labels, hops);
    if hops >= MAX_STEPS {
      if rest != [] {
        assert rest[0] == labels[|Passed(buf, pos, MAX_STEPS)|];
        JoinGrows(Passed(buf, pos, MAX_STEPS), rest);
      }
      EmptyName(buf, StopAt(buf, pos, MAX_STEPS));
    }
  }

  lemma SoundIsRight(buf: seq<byte>, pos: nat)
    requires |Text(buf, pos)| < MAX_NAME_LEN && Sound(buf, pos)
    ensures Right(buf, pos)
  {
    hide NameAt, DecodeFrom, Join, NameEnd, Leaps, Passed, StopOf, StopAt, PassesReserved, OnlyPointers;
    DecodeWalks(buf, pos);
    var h: nat := 0;
    if StopOf(buf, pos, MAX_STEPS).Root? {
      RootStop(buf, pos, MAX_STEPS);
    } else {
      EmptyName(buf, StopAt(buf, pos, MAX_STEPS));
      h :| NameAt(buf, StopAt(buf, pos, MAX_STEPS), [], h);
    }
    WalkIsName(buf, pos, MAX_STEPS, [], h);
    assert Passed(buf, pos, MAX_STEPS) + [] == Passed(buf, pos, MAX_STEPS);
  }

  /**
   * For any octets: decode_name returns a name denoted at `pos` if and only if the text fits and the walk is
   * sound. What makes any other result a position is one of three things: a reserved length octet was passed, a
   * pointer led behind the packet, or the steps were used up in front of labels or in a loop.
   */
  lemma DecodeRight(buf: seq<byte>, pos: nat)
    ensures Right(buf, pos) <==> |Text(buf, pos)| < MAX_NAME_LEN && Sound(buf, pos)
    ensures var stop, leaps := StopOf(buf, pos, MAX_STEPS), Leaps(buf, pos, MAX_STEPS);
            Decode(buf, pos).ret >= 0 && !Right(buf, pos) <==>
              && |Text(buf, pos)| < MAX_NAME_LEN
              && (|| (PassesReserved(buf, pos, MAX_STEPS) && (stop.Root? || (leaps && !stop.Broken?)))
                  || (leaps && stop.Outside?)
                  || (leaps && stop.OutOfSteps? && !OnlyPointers(buf, StopAt(buf, pos, MAX_STEPS))))
  {
    hide NameAt, DecodeFrom, Join, NameEnd, Leaps, Passed, StopOf, StopAt, PassesReserved, OnlyPointers;
    DecodeWalks(buf, pos);
    EndBehind(buf, pos);
    if Right(buf, pos) {
      var labels, hops: nat :|
        NameAt(buf, pos, labels, hops) && Decode(buf, pos) == Decoded(NameEnd(buf, pos), Join(labels), true);
      RightIsSound(buf, pos, labels, hops);
    }
    if |Text(buf, pos)| < MAX_NAME_LEN && Sound(buf, pos) {
      SoundIsRight(buf, pos);
    }
  }

  /** Names of fewer hops than steps: a returned position is that of one exactly when the walk comes to a root label. */
  lemma DecodeWithin(buf: seq<byte>, pos: nat)
    requires Decode(buf, pos).ret >= 0
    ensures StopOf(buf, pos, MAX_STEPS).Root? && !PassesReserved(buf, pos, MAX_STEPS) <==>
      exists labels, hops: nat ::
        && hops < MAX_STEPS && NameAt(buf, pos, labels, hops)
        && Decode(buf, pos) == Decoded(NameEnd(buf, pos), Join(labels), true)
  {
    hide NameAt, DecodeFrom, Join, NameEnd, Leaps, Passed, StopOf, StopAt, PassesReserved;
    if StopOf(buf, pos, MAX_STEPS).Root? && !PassesReserved(buf, pos, MAX_STEPS) {
      RootStop(buf, pos, MAX_STEPS);
      WalkIsName(buf, pos, MAX_STEPS, [], 0);
      var labels := Passed(buf, pos, MAX_STEPS) + [];
      var hops: nat :| NameAt(buf, pos, labels, hops) && hops < MAX_STEPS;
      DecodeDenotes(buf, pos, labels, hops);
    }
    if labels, hops: nat :| hops < MAX_STEPS && NameAt(buf, pos, labels, hops) {
      var rest := NameIsWalk(buf, pos, labels, hops, MAX_STEPS);
    }
  }

  /**
   * For a name that is denoted, however long its chain: it is returned exactly when its text fits and the chain
   * has at most 127 hops, or else a pointer and every label are among the first 128.
   */
  lemma DecodeExact(buf: seq<byte>, pos: nat, labels: seq<seq<byte>>, hops: nat)
    requires NameAt(buf, pos, labels, hops)
    ensures Decode(buf, pos) == Decoded(NameEnd(buf, pos), Join(labels), true) <==>
      |Join(labels)| < 256 && (hops < 128 || (Leaps(buf, pos, 128) && Passed(buf, pos, 128) == labels))
  {
    hide NameAt, DecodeFrom, Join, NameEnd, Leaps, Passed, StopOf, StopAt, PassesReserved;
    var rest := NameIsWalk(buf, pos, labels, hops, MAX_STEPS);
    DecodeWalks(buf, pos);
    EndBehind(buf, pos);
    LabelsNonempty(buf, pos, labels, hops);
    assert hops < MAX_STEPS || rest == [] ==> Passed(buf, pos, MAX_STEPS) + rest == Passed(buf, pos, MAX_STEPS);
    if rest != [] {
      assert rest[0] == labels[|Passed(buf, pos, MAX_STEPS)|];
      JoinGrows(Passed(buf, pos, MAX_STEPS), rest);
    }
  }

  // ----- Inputs that show each of the three -----

  /** A label of a reserved length is taken as one of 64 octets, although no name is denoted. */
  lemma ReservedLength(buf: seq<byte>)
    requires |buf| == 66 && buf[0] == 64 && buf[65] == 0
    ensures Decode(buf, 0) == Decoded(66, buf[1..65], true)
    ensures forall labels, hops: nat :: !NameAt(buf, 0, labels, hops)
  {
    hide DecodeFrom;
    DecodeStep(buf, 0, MAX_STEPS, false, -1, []);
    assert [] + buf[1..65] == buf[1..65];
    DecodeStep(buf, 65, MAX_STEPS - 1, false, -1, buf[1..65]);
  }

  /** A pointer behind the packet gives a position and an empty name. */
  lemma PointerOutside()
    ensures Decode([192, 9], 0) == Decoded(2, [], true)
    ensures forall labels, hops: nat :: !NameAt([192, 9], 0, labels, hops)
  {
    hide DecodeFrom;
    DecodeStep([192, 9], 0, MAX_STEPS, false, -1, []);
    DecodeStep([192, 9], 9, MAX_STEPS - 1, true, 2, []);
  }

  /** A pointer to itself denotes no name, and yet decode_name returns a position, with an empty text. */
  lemma SelfPointer()
    ensures Decode([192, 0], 0) == Decoded(2, [], true)
    ensures forall labels, hops: nat :: !NameAt([192, 0], 0, labels, hops)
  {
    hide DecodeFrom;
    DecodeStep([192, 0], 0, MAX_STEPS, false, -1, []);
    LoopsOn(MAX_STEPS - 1);
    forall labels, hops: nat ensures !NameAt([192, 0], 0, labels, hops) {
      NoNameAtLoop(labels, hops);
    }
  }

  lemma {:induction false} LoopsOn(steps: nat)
    ensures DecodeFrom([192, 0], 0, steps, true, 2, []) == Decoded(2, [], true)
  {
    hide DecodeFrom;
    DecodeStep([192, 0], 0, steps, true, 2, []);
    if steps > 0 {
      LoopsOn(steps - 1);
    }
  }

  lemma {:induction false} NoNameAtLoop(labels: seq<seq<byte>>, hops: nat)
    ensures !NameAt([192, 0], 0, labels, hops)
  {
    if hops > 0 {
      NoNameAtLoop(labels, hops - 1);
    }
  }
}
