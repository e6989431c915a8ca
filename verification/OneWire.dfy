/** The 1-Wire ROM search of the w1-ds18b20 tool. */
module OneWire {
  import opened Bytes

  // ----- Bits of a 64-bit ROM code -----

  /** IDGetBit. */
  function Bit(x: nat, i: nat): bool {
    if i == 0 then x % 2 == 1 else Bit(x / 2, i - 1)
  }

  /** IDSetBit, for a bit within the code. */
  function SetBit(x: nat, i: nat, v: bool): nat {
    if i == 0 then x / 2 * 2 + (if v then 1 else 0) else SetBit(x / 2, i - 1, v) * 2 + x % 2
  }

  function Pow2(n: nat): (p: nat)
    ensures p > 0
  {
    if n == 0 then 1 else 2 * Pow2(n - 1)
  }

  lemma {:induction false} SetBitBits(x: nat, i: nat, v: bool, j: nat)
    ensures Bit(SetBit(x, i, v), j) == if j == i then v else Bit(x, j)
  {
    if i > 0 {
      if j > 0 {
        SetBitBits(x / 2, i - 1, v, j - 1);
      }
      assert SetBit(x, i, v) / 2 == SetBit(x / 2, i - 1, v);
    }
  }

  lemma {:induction false} SetBitRange(x: nat, i: nat, v: bool, n: nat)
    requires x < Pow2(n) && i < n
    ensures SetBit(x, i, v) < Pow2(n)
  {
    if i > 0 {
      SetBitRange(x / 2, i - 1, v, n - 1);
    }
  }

  lemma Pow2Octet(n: nat)
    ensures Pow2(n + 8) == 0x100 * Pow2(n)
  {
    assert Pow2(n + 4) == 2 * Pow2(n + 3) == 4 * Pow2(n + 2) == 8 * Pow2(n + 1);
    assert Pow2(n + 8) == 2 * Pow2(n + 7) == 4 * Pow2(n + 6) == 8 * Pow2(n + 5);
  }

  lemma Pow64()
    ensures Pow2(64) == 0x1_0000_0000_0000_0000
  {
    assert Pow2(0) == 1;
    hide Pow2;
    Pow2Octet(0);
    Pow2Octet(8);
    Pow2Octet(16);
    Pow2Octet(24);
    Pow2Octet(32);
    Pow2Octet(40);
    Pow2Octet(48);
    Pow2Octet(56);
  }

  lemma {:induction false} SameBits(x: nat, y: nat, n: nat)
    requires x < Pow2(n) && y < Pow2(n) && forall i :: 0 <= i < n ==> Bit(x, i) == Bit(y, i)
    ensures x == y
  {
    if n > 0 {
      assert Bit(x, 0) == Bit(y, 0);
      forall i | 0 <= i < n - 1 ensures Bit(x / 2, i) == Bit(y / 2, i) {
        assert Bit(x, i + 1) == Bit(y, i + 1);
      }
      SameBits(x / 2, y / 2, n - 1);
    }
  }

  // ----- Codes in search order -----

  ghost predicate Agree(x: nat, y: nat, k: nat) {
    forall i :: 0 <= i < k ==> Bit(x, i) == Bit(y, i)
  }

  /** `x` has the 0 where the two first differ, and they do differ below `k`. */
  ghost predicate Before(x: nat, y: nat, k: nat) {
    exists j :: 0 <= j < k && Differs(x, y, j)
  }

  ghost predicate Differs(x: nat, y: nat, j: nat) {
    Agree(x, y, j) && !Bit(x, j) && Bit(y, j)
  }

  /** Lexicographic order of the bits, bit 0 first. */
  ghost predicate Less(x: uint64, y: uint64) {
    Before(x, y, 64)
  }

  /** At bit `k` of `x`, a 0, the devices also offer a 1. */
  ghost predicate ZeroFork(devices: set<uint64>, x: nat, k: nat) {
    !Bit(x, k) && exists d :: d in devices && Differs(x, d, k)
  }

  /** `fork` is the last such bit below `k`, or -1. */
  ghost predicate Forks(devices: set<uint64>, x: nat, k: nat, fork: int) {
    && -1 <= fork < k && (fork >= 0 ==> ZeroFork(devices, x, fork))
    && forall j :: fork < j < k ==> !ZeroFork(devices, x, j)
  }

  /** What ID and LastBitChange mean between searches: nothing found yet, or the last code and its last fork. */
  ghost predicate Searching(devices: set<uint64>, id: uint64, last: int) {
    if last == 64 then id == 0 else id in devices && Forks(devices, id, 64, last)
  }

  /** `x` is the code after `id`, or the first one at the start. */
  ghost predicate Next(devices: set<uint64>, id: uint64, last: int, x: uint64) {
    && x in devices && (last < 64 ==> Less(id, x))
    && forall d :: d in devices && (last < 64 ==> Less(id, d)) ==> d == x || Less(x, d)
  }

  // ----- The walk down the tree of codes -----

  function Min(a: nat, b: nat): nat {
    if a <= b then a else b
  }

  /**
   * After `k` bits of a search from (id, last), with `w` as the code so far: some device is still with us;
   * the walk repeats `id` up to bit `last` and takes the 1 there; the bits ahead are as prepared; and
   * every device left behind since then comes later.
   */
  ghost predicate Walk(devices: set<uint64>, id: uint64, last: nat, w: nat, k: nat, fork: int) {
    && Someone(devices, w, k) && Follows(id, last, w, k) && Ahead(id, last, w, k) && Behind(devices, last, w, k)
    && Forks(devices, w, k, fork)
  }

  ghost predicate Someone(devices: set<uint64>, w: nat, k: nat) {
    exists d :: d in devices && Agree(d, w, k)
  }

  ghost predicate Follows(id: uint64, last: nat, w: nat, k: nat) {
    last < 64 ==> Agree(w, id, Min(k, last)) && (k > last ==> Bit(w, last))
  }

  ghost predicate Ahead(id: uint64, last: nat, w: nat, k: nat) {
    forall j :: k <= j < 64 ==> Bit(w, j) == (j == last || (j < last < 64 && Bit(id, j)))
  }

  ghost predicate Behind(devices: set<uint64>, last: nat, w: nat, k: nat) {
    forall d :: d in devices && (last == 64 || Agree(d, w, Min(k, last + 1))) ==> Agree(d, w, k) || Before(w, d, k)
  }

  ghost predicate Offers(devices: set<uint64>, w: nat, k: nat, v: bool) {
    exists d :: d in devices && Agree(d, w, k) && Bit(d, k) == v
  }

  /** `x` is `w` with the bit at `k` decided. */
  ghost predicate Decided(w: nat, x: nat, k: nat, v: bool) {
    forall j :: 0 <= j < 64 ==> Bit(x, j) == if j == k then v else Bit(w, j)
  }

  /** How SearchSensor takes a bit: as the devices offer it, and as prepared where they offer both. */
  ghost predicate Takes(devices: set<uint64>, w: nat, k: nat, v: bool, fork: int, fork': int) {
    var both := Offers(devices, w, k, false) && Offers(devices, w, k, true);
    && v == (if both then Bit(w, k) else Offers(devices, w, k, true))
    && fork' == (if both && !Bit(w, k) then k else fork)
  }

  lemma SomeoneOffers(devices: set<uint64>, w: nat, k: nat)
    requires Someone(devices, w, k)
    ensures Offers(devices, w, k, false) || Offers(devices, w, k, true)
  {
    hide Bit;
    var d :| d in devices && Agree(d, w, k);
    assert Bit(d, k) == false || Bit(d, k) == true;
  }

  lemma WalkStep(devices: set<uint64>, id: uint64, last: nat, w: nat, x: nat, k: nat, v: bool, fork: int, fork': int)
    requires last <= 64 && Searching(devices, id, last) && k < 64
    requires Walk(devices, id, last, w, k, fork) && Decided(w, x, k, v) && Takes(devices, w, k, v, fork, fork')
    ensures Walk(devices, id, last, x, k + 1, fork')
  {
    hide Bit, Someone, Follows, Ahead, Behind, Forks, Decided, Takes, Searching;
    StepSomeone(devices, w, x, k, v, fork, fork');
    StepFollows(devices, id, last, w, x, k, v, fork, fork');
    StepAhead(id, last, w, x, k, v);
    StepBehind(devices, id, last, w, x, k, v, fork, fork');
    StepForks(devices, w, x, k, v, fork, fork');
  }

  lemma StepSomeone(devices: set<uint64>, w: nat, x: nat, k: nat, v: bool, fork: int, fork': int)
    requires k < 64 && Someone(devices, w, k) && Decided(w, x, k, v) && Takes(devices, w, k, v, fork, fork')
    ensures Someone(devices, x, k + 1)
  {
    hide Bit;
    SomeoneOffers(devices, w, k);
    var c :| c in devices && Agree(c, w, k) && Bit(c, k) == v;
    assert Agree(c, x, k + 1);
  }

  lemma StepAhead(id: uint64, last: nat, w: nat, x: nat, k: nat, v: bool)
    requires k < 64 && Ahead(id, last, w, k) && Decided(w, x, k, v)
    ensures Ahead(id, last, x, k + 1)
  {
  }

  lemma StepBehind(devices: set<uint64>, id: uint64, last: nat, w: nat, x: nat, k: nat, v: bool, fork: int, fork': int)
    requires last <= 64 && k < 64 && Behind(devices, last, w, k) && Ahead(id, last, w, k)
    requires Decided(w, x, k, v) && Takes(devices, w, k, v, fork, fork')
    ensures Behind(devices, last, x, k + 1)
  {
    hide Bit;
    forall d | d in devices && (last == 64 || Agree(d, x, Min(k + 1, last + 1)))
      ensures Agree(d, x, k + 1) || Before(x, d, k + 1)
    {
      if k > last || last == 64 {
        assert last == 64 || Agree(d, w, Min(k, last + 1));
        if Agree(d, w, k) {
          if Bit(d, k) != v {
            assert Offers(devices, w, k, !v);
            assert Bit(w, k) == false;
            assert Differs(x, d, k);
          }
        } else {
          var j :| 0 <= j < k && Differs(w, d, j);
          assert Differs(x, d, j);
        }
      }
    }
  }

  lemma StepFollows(devices: set<uint64>, id: uint64, last: nat, w: nat, x: nat, k: nat, v: bool, fork: int, fork': int)
    requires last <= 64 && k < 64 && Searching(devices, id, last)
    requires Follows(id, last, w, k) && Ahead(id, last, w, k)
    requires Decided(w, x, k, v) && Takes(devices, w, k, v, fork, fork')
    ensures Follows(id, last, x, k + 1)
  {
    hide Bit, Forks;
    if last < 64 {
      if k < last {
        assert Agree(id, w, k) && Bit(w, k) == Bit(id, k);
        assert Offers(devices, w, k, Bit(id, k));
      } else if k == last {
        LastIsFork(devices, id, last, w);
      }
    }
  }

  lemma LastIsFork(devices: set<uint64>, id: uint64, last: nat, w: nat)
    requires last < 64 && Searching(devices, id, last) && Agree(w, id, last)
    ensures Offers(devices, w, last, true) && Offers(devices, w, last, false)
  {
    hide Bit;
    assert ZeroFork(devices, id, last);
    var d :| d in devices && Differs(id, d, last);
    assert Agree(d, w, last) && Bit(d, last) == true;
    assert Agree(id, w, last) && Bit(id, last) == false;
  }

  lemma StepForks(devices: set<uint64>, w: nat, x: nat, k: nat, v: bool, fork: int, fork': int)
    requires k < 64 && Forks(devices, w, k, fork) && Decided(w, x, k, v) && Takes(devices, w, k, v, fork, fork')
    requires Someone(devices, w, k)
    ensures Forks(devices, x, k + 1, fork')
  {
    hide Bit;
    SomeoneOffers(devices, w, k);
    forall j | 0 <= j < k ensures ZeroFork(devices, x, j) == ZeroFork(devices, w, j) {
      forall d | d in devices ensures Differs(x, d, j) == Differs(w, d, j) {
      }
    }
    if v {
      assert !ZeroFork(devices, x, k);
    } else if Offers(devices, w, k, true) {
      var d :| d in devices && Agree(d, w, k) && Bit(d, k) == true;
      assert Differs(x, d, k);
      assert ZeroFork(devices, x, k);
    } else {
      forall d | d in devices ensures Agree(x, d, k) <==> Agree(d, w, k) {
      }
      assert !ZeroFork(devices, x, k);
    }
  }

  lemma WalkStarts(devices: set<uint64>, id: uint64, last: nat, w: nat)
    requires last <= 64 && devices != {}
    requires forall j :: 0 <= j < 64 ==> Bit(w, j) == (j == last || (j < last < 64 && Bit(id, j)))
    ensures Walk(devices, id, last, w, 0, -1)
  {
    hide Bit;
    var d :| d in devices;
    assert Agree(d, w, 0);
  }

  lemma WalkEnds(devices: set<uint64>, id: uint64, last: nat, w: uint64, fork: int)
    requires last <= 64 && Searching(devices, id, last) && Walk(devices, id, last, w, 64, fork)
    ensures Next(devices, id, last, w) && Searching(devices, w, fork)
  {
    hide Bit;
    forall d | d in devices && Agree(d, w, 64) ensures d == w {
      Pow64();
      SameBits(d, w, 64);
    }
    if last < 64 {
      assert ZeroFork(devices, id, last);
      assert Differs(id, w, last);
      forall d | d in devices && Less(id, d) ensures d == w || Less(w, d) {
        var j :| 0 <= j < 64 && Differs(id, d, j);
        assert ZeroFork(devices, id, j);
        if j < last {
          assert Differs(w, d, j);
        } else {
          assert Agree(d, w, Min(64, last + 1));
        }
      }
    }
  }

  /** When LastBitChange is negative, the last code found was the last there is. */
  lemma NothingAfter(devices: set<uint64>, id: uint64)
    requires Searching(devices, id, -1)
    ensures id in devices && forall d :: d in devices ==> !Less(id, d)
  {
    hide Bit;
    forall d | d in devices ensures !Less(id, d) {
      forall j | 0 <= j < 64 ensures !Differs(id, d, j) {
        assert !ZeroFork(devices, id, j);
      }
    }
  }

  // ----- The bus and the search -----

  /** What the line carries while the active devices send bit `at`, or its complement: a 1 when all send a 1. */
  predicate Line(active: set<uint64>, at: nat, complement: bool) {
    forall d :: d in active ==> Bit(d, at) != complement
  }

  /** The devices with this bit; the others drop out. */
  function Staying(active: set<uint64>, at: nat, v: bool): set<uint64> {
    set d | d in active && Bit(d, at) == v
  }

  /** What is read in a slot: the line, or its opposite in a disturbed slot. */
  predicate Heard(active: set<uint64>, glitches: set<nat>, at: nat, slot: nat, complement: bool) {
    Line(active, at, complement) != (slot in glitches)
  }

  /**
   * Wired-AND bus with the devices as they behave in a ROM search. A pass may go wrong: without presence
   * no reset is answered, and the reads numbered in `glitches` come back inverted.
   */
  class Bus {
    const devices: set<uint64>
    var presence: bool
    var glitches: set<nat>
    var active: set<uint64>
    var at: nat
    var complement: bool
    var slot: nat

    constructor (devices: set<uint64>)
      ensures this.devices == devices
    {
      this.devices := devices;
    }

    ghost predicate Clean()
      reads this`presence, this`glitches
    {
      presence && glitches == {}
    }

    /** DoReset: is there a presence pulse? */
    method DoReset() returns (present: bool)
      ensures present <==> presence && devices != {}
    {
      present := presence && devices != {};
    }

    /** WriteByte with the search command: every device takes part, from bit 0. */
    method SearchRom()
      modifies this`active, this`at, this`complement, this`slot
      ensures active == devices && at == 0 && !complement && slot == 0
    {
      active, at, complement, slot := devices, 0, false, 0;
    }

    /** ReadBit: the devices still active send their bit, then its complement; any 0 pulls the line down. */
    method ReadBit() returns (bit: bool)
      modifies this`complement, this`slot
      ensures complement == !old(complement) && slot == old(slot) + 1
      ensures bit == Heard(active, glitches, at, old(slot), old(complement))
    {
      bit := Line(active, at, complement);
      if slot in glitches {
        bit := !bit;
      }
      complement, slot := !complement, slot + 1;
    }

    /** WriteBit: devices with the other bit drop out. */
    method WriteBit(v: bool)
      modifies this`active, this`at
      ensures at == old(at) + 1 && active == Staying(old(active), old(at), v)
    {
      active := Staying(active, at, v);
      at := at + 1;
    }
  }

  /** IDSetBit. */
  function IDSetBit(x: uint64, bit: int, v: bool): (r: uint64)
    ensures 0 <= bit < 64 ==> Decided(x, r, bit, v)
  {
    if 0 <= bit < 64 then
      assert SetBit(x, bit, v) < 0x1_0000_0000_0000_0000 by {
        Pow64();
        SetBitRange(x, bit, v, 64);
      }
      assert Decided(x, SetBit(x, bit, v), bit, v) by {
        SetBitDecides(x, bit, v);
      }
      SetBit(x, bit, v)
    else x
  }

  lemma SetBitDecides(x: nat, bit: nat, v: bool)
    ensures Decided(x, SetBit(x, bit, v), bit, v)
  {
    hide Bit, SetBit;
    forall j | 0 <= j < 64 ensures Bit(SetBit(x, bit, v), j) == if j == bit then v else Bit(x, j) {
      SetBitBits(x, bit, v, j);
    }
  }

  lemma {:induction false} ZeroBits(i: nat)
    ensures !Bit(0, i)
  {
    if i > 0 {
      ZeroBits(i - 1);
    }
  }

  function ClearedFrom(w: uint64, k: nat): uint64
    decreases 64 - k
  {
    if k >= 64 then w else ClearedFrom(IDSetBit(w, k, false), k + 1)
  }

  function Prepared(id: uint64, last: nat): uint64 {
    if last < 64 then ClearedFrom(IDSetBit(id, last, true), last + 1) else id
  }

  /** The first step of SearchSensor: a 1 at LastBitChange and 0 behind it. */
  method Prepare(id: uint64, last: int) returns (w: uint64)
    requires 0 <= last
    ensures w == Prepared(id, last)
    ensures forall j :: 0 <= j < 64 ==> Bit(w, j) == (j == last || (j < last && Bit(id, j)))
  {
    hide Bit, SetBit, IDSetBit;
    w := id;
    if last < 64 {
      w := IDSetBit(w, last, true);
      var bitIndex := last + 1;
      while bitIndex < 64
        invariant last < bitIndex <= 64
        invariant ClearedFrom(w, bitIndex) == Prepared(id, last)
        invariant forall j :: 0 <= j < bitIndex ==> Bit(w, j) == (j == last || (j < last && Bit(id, j)))
      {
        w := IDSetBit(w, bitIndex, false);
        bitIndex := bitIndex + 1;
      }
    }
  }

  /** The devices that have gone along with the first `k` bits of `w`. */
  ghost function Active(devices: set<uint64>, w: nat, k: nat): set<uint64> {
    set d | d in devices && Agree(d, w, k)
  }

  lemma ActiveOffers(devices: set<uint64>, w: nat, k: nat)
    ensures Offers(devices, w, k, false) <==> !Line(Active(devices, w, k), k, false)
    ensures Offers(devices, w, k, true) <==> !Line(Active(devices, w, k), k, true)
  {
    hide Bit, Agree;
    if Offers(devices, w, k, false) {
      var d :| d in devices && Agree(d, w, k) && Bit(d, k) == false;
      assert d in Active(devices, w, k);
    }
    if Offers(devices, w, k, true) {
      var d :| d in devices && Agree(d, w, k) && Bit(d, k) == true;
      assert d in Active(devices, w, k);
    }
  }

  lemma ActiveNext(devices: set<uint64>, w: nat, x: nat, k: nat, v: bool)
    requires k < 64 && Decided(w, x, k, v)
    ensures Active(devices, x, k + 1) == Staying(Active(devices, w, k), k, v)
  {
    hide Bit;
    forall d | d in devices ensures Agree(d, x, k + 1) <==> Agree(d, w, k) && Bit(d, k) == v {
    }
  }

  lemma Starting(devices: set<uint64>, id: uint64, last: int, w: nat)
    ensures Active(devices, w, 0) == devices
    ensures Searching(devices, id, last) ==> -1 <= last <= 64
    ensures last == 64 && Searching(devices, id, last) ==> forall j :: 0 <= j < 64 ==> !Bit(id, j)
  {
    hide Bit;
    if last == 64 {
      forall j | 0 <= j < 64 ensures !Bit(0, j) {
        ZeroBits(j);
      }
    }
  }

  // ----- What a search returns, disturbed or not -----

  /** What one call of SearchSensor gives back. */
  datatype Attempt = Attempt(code: int, id: uint64, last: int)

  /** The bit a search goes on with, given the bit and its complement as read. */
  function Chosen(w: uint64, k: nat, noBit: bool, bit: bool): bool {
    if !bit && !noBit then Bit(w, k) else !bit
  }

  function ChosenCode(w: uint64, k: nat, noBit: bool, bit: bool): uint64 {
    if !bit && !noBit then w else IDSetBit(w, k, !bit)
  }

  /** The rest of a search from bit `k` on, with these devices still active. */
  function SearchFrom(active: set<uint64>, glitches: set<nat>, w: uint64, k: nat, fork: int): Attempt
    decreases 64 - k
  {
    if k >= 64 then Attempt(1, w, fork)
    else
      var noBit, bit := Heard(active, glitches, k, 2 * k, false), Heard(active, glitches, k, 2 * k + 1, true);
      if bit && noBit then Attempt(-2, w, fork)
      else
        SearchFrom(Staying(active, k, Chosen(w, k, noBit, bit)), glitches, ChosenCode(w, k, noBit, bit), k + 1,
                   if !bit && !noBit && !Bit(w, k) then k else fork)
  }

  /** SearchSensor as a function of the devices and the disturbance. */
  function Search(devices: set<uint64>, presence: bool, glitches: set<nat>, id: uint64, last: int): Attempt {
    if last < 0 then Attempt(0, id, last)
    else if !(presence && devices != {}) then Attempt(-1, Prepared(id, last), -1)
    else SearchFrom(devices, glitches, Prepared(id, last), 0, -1)
  }

  /** The loop body of SearchSensor: read a bit and its complement, choose, and tell the devices. */
  method SearchBit(bus: Bus, k: nat, ghost id: uint64, ghost last: nat, w: uint64, fork: int, ghost sane: bool)
    returns (ok: bool, newW: uint64, newFork: int)
    requires k < 64 && bus.at == k && !bus.complement && bus.slot == 2 * k
    requires sane ==> bus.Clean() && last <= 64 && Searching(bus.devices, id, last)
    requires sane ==> Walk(bus.devices, id, last, w, k, fork) && bus.active == Active(bus.devices, w, k)
    modifies bus`active, bus`at, bus`complement, bus`slot
    ensures ok ==> bus.at == k + 1 && !bus.complement && bus.slot == 2 * (k + 1)
    ensures newFork == fork || newFork == k
    ensures SearchFrom(old(bus.active), bus.glitches, w, k, fork)
         == if ok then SearchFrom(bus.active, bus.glitches, newW, k + 1, newFork) else Attempt(-2, newW, newFork)
    ensures sane ==> ok && Walk(bus.devices, id, last, newW, k + 1, newFork)
    ensures sane ==> bus.active == Active(bus.devices, newW, k + 1)
  {
    hide Bit, IDSetBit, Searching, Active, Agree, Forks, SetBit, Line;
    newW, newFork := w, fork;
    ActiveOffers(bus.devices, w, k);
    if sane {
      SomeoneOffers(bus.devices, w, k);
    }
    var noBit := bus.ReadBit();
    var bit := bus.ReadBit();
    ok := !(bit && noBit);
    if !ok {
      return;
    }
    var v := !bit;
    if !bit && !noBit {
      if Bit(w, k) {
        bus.WriteBit(true);
      } else {
        newFork := k;
        bus.WriteBit(false);
        v := false;
      }
    } else if !bit {
      bus.WriteBit(true);
      newW := IDSetBit(w, k, true);
    } else {
      bus.WriteBit(false);
      newW := IDSetBit(w, k, false);
    }
    ActiveNext(bus.devices, w, newW, k, v);
    if sane {
      WalkStep(bus.devices, id, last, w, newW, k, v, fork, newFork);
    }
  }

  /**
   * SearchSensor: 1 with the next code, 0 when there is none, -1 without presence, -2 when nobody answers.
   * On a clean bus, from a state left by the search, every call finds the successor of the code before.
   */
  method SearchSensor(bus: Bus, id: uint64, last: int) returns (code: int, newId: uint64, newLast: int)
    modifies bus`active, bus`at, bus`complement, bus`slot
    ensures code == 0 <==> last < 0
    ensures Attempt(code, newId, newLast) == Search(bus.devices, bus.presence, bus.glitches, id, last)
    ensures code == 0 ==> newId == id && newLast == last
    ensures code == 0 && Searching(bus.devices, id, last) ==> forall d :: d in bus.devices ==> !Less(id, d)
    ensures code == 1 ==> -1 <= newLast < 64
    ensures code in {1, 0, -1, -2} && (last >= 0 && !(bus.presence && bus.devices != {}) ==> code == -1)
    ensures last >= 0 && bus.devices != {} && bus.Clean() && Searching(bus.devices, id, last) ==>
              code == 1 && Next(bus.devices, id, last, newId) && Searching(bus.devices, newId, newLast)
  {
    hide Bit, IDSetBit, Searching, Walk, Next, Less, Heard, Prepared;
    newId, newLast := id, last;
    Starting(bus.devices, id, last, id);
    if last < 0 {
      if Searching(bus.devices, id, last) {
        NothingAfter(bus.devices, id);
      }
      return 0, newId, newLast;
    }
    newId := Prepare(id, last);
    newLast := -1;
    var present := bus.DoReset();
    if !present {
      return -1, newId, newLast;
    }
    ghost var sane := bus.Clean() && Searching(bus.devices, id, last);
    if sane {
      WalkStarts(bus.devices, id, last, newId);
    }
    bus.SearchRom();
    var bitIndex := 0;
    Starting(bus.devices, id, last, newId);
    while bitIndex < 64
      invariant 0 <= bitIndex <= 64 && bus.at == bitIndex && !bus.complement && bus.slot == 2 * bitIndex
      invariant -1 <= newLast < bitIndex
      invariant SearchFrom(bus.active, bus.glitches, newId, bitIndex, newLast)
             == Search(bus.devices, bus.presence, bus.glitches, id, last)
      invariant sane ==> Walk(bus.devices, id, last, newId, bitIndex, newLast)
      invariant sane ==> bus.active == Active(bus.devices, newId, bitIndex)
    {
      var ok;
      ok, newId, newLast := SearchBit(bus, bitIndex, id, last, newId, newLast, sane);
      if !ok {
        return -2, newId, newLast;
      }
      bitIndex := bitIndex + 1;
    }
    if sane {
      WalkEnds(bus.devices, id, last, newId, newLast);
    }
    code := 1;
  }
}
