/** The system use area behind the identifier of a directory record, as a reader takes it apart (SUSP, IEEE P1281, and
    Rock Ridge, IEEE P1282): fields with a signature, a length byte, a version and data, one behind the other. */
module SystemUse {
  import opened Bytes
  import opened Image
  import opened Reading

  datatype Field = Field(signature: seq<byte>, version: byte, data: seq<byte>)

  /** Less than four bytes at the end are no field. */
  function ReadFields(bytes: seq<byte>): Option<seq<Field>> {
    if |bytes| < 4 then Some([])
    else
      var length := bytes[2] as nat;
      if length < 4 || length > |bytes| then None
      else
        match ReadFields(bytes[length..])
        case None => None
        case Some(rest) => Some([Field(bytes[..2], bytes[3], bytes[4..length])] + rest)
  }

  /** The data of the first field with the signature. */
  function Find(fields: seq<Field>, signature: seq<byte>): Option<seq<byte>> {
    if fields == [] then None
    else if fields[0].signature == signature then Some(fields[0].data)
    else Find(fields[1..], signature)
  }

  /** A number recorded in both byte orders, which have to agree. */
  function BothAt(data: seq<byte>, o: nat): Option<nat> {
    var v := Read32(LittleEndian, data, o);
    if Read32(BigEndian, data, o + 4) == v then Some(v) else None
  }

  /** What Rock Ridge's 'PX' field says of a file (section 4.1.1). */
  datatype Attributes = Attributes(mode: nat, links: nat, user: nat, group: nat, serial: nat)

  function AttributesOf(fields: seq<Field>): Option<Attributes> {
    match Find(fields, [0x50, 0x58])
    case None => None
    case Some(p) =>
      match (BothAt(p, 0), BothAt(p, 8), BothAt(p, 16), BothAt(p, 24), BothAt(p, 32))
      case (Some(mode), Some(links), Some(user), Some(group), Some(serial)) =>
        if |p| == 40 then Some(Attributes(mode, links, user, group, serial)) else None
      case _ => None
  }

  /** The full name in the 'NM' field (section 4.1.4), which is not continued elsewhere. */
  function NameOf(fields: seq<Field>): Option<seq<byte>> {
    match Find(fields, [0x4E, 0x4D])
    case None => None
    case Some(n) => if |n| > 0 && n[0] == 0 then Some(n[1..]) else None
  }

  /** Where more of the area is found: block, offset and length in the 'CE' field (section 5.1 of IEEE P1281). */
  datatype Continuation = Continuation(block: nat, offset: nat, length: nat)

  /** The 'SP' field with its check bytes has to come first (section 5.3). */
  function ContinuationOf(fields: seq<Field>): Option<Continuation> {
    if fields == [] || fields[0] != Field([0x53, 0x50], 1, [0xBE, 0xEF, 0]) then None
    else
      match Find(fields, [0x43, 0x45])
      case None => None
      case Some(c) =>
        match (BothAt(c, 0), BothAt(c, 8), BothAt(c, 16))
        case (Some(block), Some(offset), Some(length)) =>
          if |c| == 24 then Some(Continuation(block, offset, length)) else None
        case _ => None
  }

  // ---------------------------------------------------------------- reading what was written

  lemma FieldFirst(a: byte, b: byte, length: byte, version: byte, data: seq<byte>, rest: seq<byte>)
    requires length as nat == 4 + |data|
    ensures ReadFields([a, b, length, version] + data + rest) ==
      match ReadFields(rest)
      case None => None
      case Some(fields) => Some([Field([a, b], version, data)] + fields)
  {
    var bytes := [a, b, length, version] + data + rest;
    assert bytes[..2] == [a, b] && bytes[4..4 + |data|] == data && bytes[4 + |data|..] == rest;
  }

  lemma BothRead(data: seq<byte>, o: nat, v: nat)
    requires Holds(data, o, Both32(v))
    ensures BothAt(data, o) == Some(U32(v))
  {
    ReadBoth32Held(data, o, v);
  }

  /** Numbers one behind the other. */
  function Numbers(vs: seq<nat>): (bytes: seq<byte>)
    ensures |bytes| == 8 * |vs|
  {
    if vs == [] then [] else Both32(vs[0]) + Numbers(vs[1..])
  }

  lemma {:induction false} NumbersRead(data: seq<byte>, o: nat, vs: seq<nat>, k: nat)
    requires Holds(data, o, Numbers(vs)) && k < |vs|
    ensures BothAt(data, o + 8 * k) == Some(U32(vs[k]))
    decreases k
  {
    hide Holds, Both32, BothAt;
    HoldsBoth(data, o, Both32(vs[0]), Numbers(vs[1..]));
    if k == 0 {
      BothRead(data, o, vs[0]);
    } else {
      NumbersRead(data, o + 8, vs[1..], k - 1);
    }
  }
}
