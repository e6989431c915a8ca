/** MAVLink messages, the table of message types, and the bytes of a frame. */
module Mavlink {
  import opened Bytes
  import opened Checksum

  const STX: byte := 0xFD
  const STX_MAVLINK1: byte := 0xFE
  const PAYLOAD_ROOM := 264        // (255 + 2 + 7) / 8 words of 8 octets
  const SIGNATURE_BLOCK_LEN := 13

  // ----- The table of message types -----

  datatype Entry = Entry(msgid: nat, crcExtra: byte, minLen: byte, maxLen: byte)

  ghost predicate SortedById(table: seq<Entry>) {
    forall i, j :: 0 <= i < j < |table| ==> table[i].msgid < table[j].msgid
  }

  /** The entry of a message id, by looking at every row. */
  function Lookup(table: seq<Entry>, msgid: nat): (e: Option<Entry>)
    ensures e.Some? ==> e.value in table && e.value.msgid == msgid
    ensures e.None? ==> forall row :: row in table ==> row.msgid != msgid
  {
    if table == [] then None
    else if table[0].msgid == msgid then Some(table[0])
    else Lookup(table[1..], msgid)
  }

  lemma {:induction false} LookupAt(table: seq<Entry>, i: nat)
    requires SortedById(table) && i < |table|
    ensures Lookup(table, table[i].msgid) == Some(table[i])
  {
    if i > 0 {
      LookupAt(table[1..], i - 1);
    }
  }

  /** mavlink_get_msg_entry: bisection over the sorted table. */
  method GetMsgEntry(table: seq<Entry>, msgid: nat) returns (e: Option<Entry>)
    requires SortedById(table) && table != []
    ensures e == Lookup(table, msgid)
  {
    var low, high := 0, |table| - 1;
    while low < high
      invariant 0 <= low <= high < |table|
      invariant forall i :: 0 <= i < |table| && table[i].msgid == msgid ==> low <= i <= high
    {
      var mid := (low + 1 + high) / 2;
      if msgid < table[mid].msgid {
        high := mid - 1;
      } else if msgid > table[mid].msgid {
        low := mid;
      } else {
        low := mid;
        break;
      }
    }
    if table[low].msgid != msgid {
      return None;
    }
    LookupAt(table, low);
    return Some(table[low]);
  }

  function CrcExtra(table: seq<Entry>, msgid: nat): byte {
    var e := Lookup(table, msgid);
    if e.Some? then e.value.crcExtra else 0
  }

  // ----- Messages -----

  datatype Msg = Msg(
    checksum: bv16, magic: byte, len: byte, incompat: byte, compat: byte, seqno: byte, sysid: byte, compid: byte,
    msgid: nat, payload: seq<byte>, ck: seq<byte>, signature: seq<byte>)

  predicate Shaped(m: Msg) {
    |m.payload| == PAYLOAD_ROOM && |m.ck| == 2 && |m.signature| == SIGNATURE_BLOCK_LEN && m.msgid < 0x100_0000
  }

  predicate IsSigned(m: Msg) {
    m.incompat % 2 == 1
  }

  function Low(crc: bv16): byte { (crc & 0xff) as int }
  function High(crc: bv16): byte { (crc >> 8) as int }

  /** The header octets after the start byte; `v1` selects the MAVLink 1 layout. */
  function Header(v1: bool, m: Msg): seq<byte> {
    if v1 then
      [m.len, m.seqno, m.sysid, m.compid, m.msgid % 0x100]
    else
      [m.len, m.incompat, m.compat, m.seqno, m.sysid, m.compid,
       m.msgid % 0x100, m.msgid / 0x100 % 0x100, m.msgid / 0x1_0000 % 0x100]
  }

  /** What the checksum covers before the type's extra octet. */
  function Covered(v1: bool, m: Msg): seq<byte>
    requires Shaped(m)
  {
    Header(v1, m) + m.payload[..m.len]
  }

  function FrameCrc(table: seq<Entry>, v1: bool, m: Msg): bv16
    requires Shaped(m)
  {
    Accumulate(CrcExtra(table, m.msgid), Crc(X25_INIT_CRC, Covered(v1, m)))
  }

  /** A whole frame: start byte, header, payload, checksum and, if flagged, the signature block. */
  function Frame(stx: byte, v1: bool, m: Msg): seq<byte>
    requires Shaped(m)
  {
    [stx] + Covered(v1, m) + m.ck + (if IsSigned(m) then m.signature else [])
  }

  /** _mav_trim_payload: the length without trailing zeros, but at least one octet of a nonempty payload. */
  function Trim(payload: seq<byte>, length: nat): (n: nat)
    requires length <= |payload|
    ensures n <= length && (length > 0 ==> n > 0)
  {
    if length > 1 && payload[length - 1] == 0 then Trim(payload, length - 1) else length
  }

  method TrimPayload(payload: array<byte>, length: byte) returns (trimmed: byte)
    requires length <= payload.Length
    ensures trimmed == Trim(payload[..], length)
  {
    trimmed := length;
    while trimmed > 1 && payload[trimmed - 1] == 0
      invariant trimmed <= length && Trim(payload[..], trimmed) == Trim(payload[..], length)
    {
      trimmed := trimmed - 1;
    }
  }

  /** Trimming drops nothing but zeros, leaves no zero to drop, and looks at no octet it does not keep or drop. */
  lemma {:induction false} TrimDropsZeros(payload: seq<byte>, length: nat)
    requires length <= |payload|
    ensures forall i :: Trim(payload, length) <= i < length ==> payload[i] == 0
    ensures Trim(payload, length) > 1 ==> payload[Trim(payload, length) - 1] != 0
  {
    if length > 1 && payload[length - 1] == 0 {
      TrimDropsZeros(payload, length - 1);
    }
  }

  /** A second trim of what a first trim kept changes nothing, whatever was stored behind it since. */
  lemma TrimIdempotent(payload: seq<byte>, length: nat, later: seq<byte>)
    requires length <= |payload| && Trim(payload, length) <= |later|
    requires later[..Trim(payload, length)] == payload[..Trim(payload, length)]
    ensures Trim(later, Trim(payload, length)) == Trim(payload, length)
  {
    TrimDropsZeros(payload, length);
    var n := Trim(payload, length);
    if n > 1 {
      assert later[..n][n - 1] == payload[..n][n - 1];
    }
  }

  /** mavlink_message_t, updated in place. */
  class Message {
    var checksum: bv16
    var magic: byte
    var len: byte
    var incompat: byte
    var compat: byte
    var seqno: byte
    var sysid: byte
    var compid: byte
    var msgid: nat
    const payload: array<byte>
    const ck: array<byte>
    const signature: array<byte>

    constructor ()
      ensures Valid() && fresh(payload) && fresh(ck) && fresh(signature)
    {
      checksum, magic, len, incompat, compat, seqno, sysid, compid, msgid := 0, 0, 0, 0, 0, 0, 0, 0, 0;
      payload := new byte[PAYLOAD_ROOM](_ => 0);
      ck := new byte[2](_ => 0);
      signature := new byte[SIGNATURE_BLOCK_LEN](_ => 0);
    }

    ghost predicate Valid()
      reads this
    {
      payload.Length == PAYLOAD_ROOM && ck.Length == 2 && signature.Length == SIGNATURE_BLOCK_LEN && msgid < 0x100_0000
    }

    ghost function Value(): (m: Msg)
      requires Valid()
      reads this, payload, ck, signature
      ensures Shaped(m)
    {
      Msg(checksum, magic, len, incompat, compat, seqno, sysid, compid, msgid, payload[..], ck[..], signature[..])
    }
  }
}
