/**
  The "hashnames" value: one algorithm name, or two names joined by ':'.
  Encode is the string write_db_version builds; Decode and
  GetHashesFromString are get_hashes_from_string.
*/
module HashNames {
  import opened Wrappers
  import opened LibC
  import opened HashRegistry

  /** The secondary name is written only when it differs from the primary one. */
  predicate UsesSecondary(primary: HashType, secondary: Option<HashType>)
    ensures UsesSecondary(primary, secondary) ==> secondary.Some? && secondary.value != primary
  {
    secondary.Some? && secondary.value.hashname != primary.hashname
  }

  /** The length write_db_version computes for the encoded string. */
  function EncodedLength(primary: HashType, secondary: Option<HashType>): (n: nat)
    ensures n >= |primary.hashname|
    ensures n > |primary.hashname| <==> UsesSecondary(primary, secondary)
  {
    |primary.hashname|
      + if UsesSecondary(primary, secondary) then |secondary.value.hashname| + 1 else 0
  }

  /** The encoded string: "primary" or "primary:secondary". */
  function Encode(primary: HashType, secondary: Option<HashType>): (r: seq<byte>)
    ensures |r| == EncodedLength(primary, secondary)
    ensures r[..|primary.hashname|] == primary.hashname
  {
    if UsesSecondary(primary, secondary)
    then primary.hashname + [COLON] + secondary.value.hashname
    else primary.hashname
  }

  /** An absent secondary and one named like the primary encode alike, as the primary's name. */
  lemma EncodeDedup(primary: HashType, secondary: HashType)
    requires secondary.hashname == primary.hashname
    ensures Encode(primary, Some(secondary)) == Encode(primary, None) == primary.hashname
  {
  }

  /**
    With colon-free names, the encoded string holds a ':' exactly when the
    secondary is used, and never two.
  */
  lemma EncodeDelimiters(primary: HashType, secondary: Option<HashType>)
    requires COLON !in primary.hashname
    requires secondary.Some? ==> COLON !in secondary.value.hashname
    ensures var r := Encode(primary, secondary);
      && (COLON in r <==> UsesSecondary(primary, secondary))
      && forall i, j :: 0 <= i < j < |r| && r[i] == COLON ==> r[j] != COLON
  {
  }

  /** The pair of descriptors a hashnames value stands for. */
  datatype Decoded = Decoded(newHash: HashType, oldHash: Option<HashType>)

  /** Why a hashnames value is refused, with the span the message quotes. */
  datatype DecodeError =
    | UnknownHashType(name: seq<byte>)
    | InvalidHashNames(value: seq<byte>)

  /** The part before the first ':' at `p`: the new (current) algorithm. */
  function Left(buffer: seq<byte>, p: nat): seq<byte>
    requires p < |buffer|
  {
    buffer[..p]
  }

  /** The part after the first ':' at `p`: the old (previous) algorithm. */
  function Right(buffer: seq<byte>, p: nat): seq<byte>
    requires p < |buffer|
  {
    buffer[p + 1..]
  }

  /**
    What get_hashes_from_string computes, in the order it checks: no ':'
    means one name; otherwise a second ':' is refused, then the right span
    is resolved, then the left span.
  */
  function Decode(reg: Registry, buffer: seq<byte>): (r: Result<Decoded, DecodeError>)
    // decoded descriptors are borrowed from the registry
    ensures r.Ok? ==> r.value.newHash in reg.Values
    ensures r.Ok? && r.value.oldHash.Some? ==> r.value.oldHash.value in reg.Values
    // the one-name form is exactly a value without ':'
    ensures r.Ok? ==> (r.value.oldHash.None? <==> COLON !in buffer)
    // an invalid value is reported whole; an unknown name is a span of the value
    ensures r.Err? && r.error.InvalidHashNames? ==> r.error.value == buffer
    ensures r.Err? && r.error.UnknownHashType? ==> COLON !in r.error.name
  {
    match MemChr(buffer, COLON)
    case None =>
      (match Lookup(reg, buffer)
       case None => Err(UnknownHashType(buffer))
       case Some(h) => Ok(Decoded(h, None)))
    case Some(p) =>
      var right := Right(buffer, p);
      if MemChr(right, COLON).Some? then Err(InvalidHashNames(buffer))
      else match Lookup(reg, right)
        case None => Err(UnknownHashType(right))
        case Some(o) =>
          match Lookup(reg, Left(buffer, p))
          case None => Err(UnknownHashType(Left(buffer, p)))
          case Some(n) => Ok(Decoded(n, Some(o)))
  }

  /** Decoding what the writer encodes gives back the primary and, if used, the secondary. */
  lemma DecodeEncode(reg: Registry, primary: HashType, secondary: Option<HashType>)
    requires Registered(reg, primary) && COLON !in primary.hashname
    requires secondary.Some? ==> Registered(reg, secondary.value) && COLON !in secondary.value.hashname
    ensures Decode(reg, Encode(primary, secondary))
         == Ok(Decoded(primary, if UsesSecondary(primary, secondary) then secondary else None))
  {
  }

  /**
    Encoding what the reader decodes gives back the stored string, unless it
    named the same algorithm twice ("A:A"), which the writer never produces.
  */
  lemma EncodeDecode(reg: Registry, buffer: seq<byte>)
    requires Consistent(reg)
    requires Decode(reg, buffer).Ok?
    requires var d := Decode(reg, buffer).value;
      d.oldHash.Some? ==> d.oldHash.value.hashname != d.newHash.hashname
    ensures var d := Decode(reg, buffer).value;
      Encode(d.newHash, d.oldHash) == buffer
  {
  }

  /** A value naming the same algorithm on both sides is accepted as it stands. */
  lemma DecodeRepeatedName(reg: Registry, h: HashType)
    requires Registered(reg, h) && COLON !in h.hashname
    ensures Decode(reg, h.hashname + [COLON] + h.hashname) == Ok(Decoded(h, Some(h)))
  {
    var b := h.hashname + [COLON] + h.hashname;
    assert b[..|h.hashname|] == h.hashname;
    MemChrFirst(b, COLON, |h.hashname|);
    assert Right(b, |h.hashname|) == h.hashname;
  }

  /** Two ':' anywhere make the value invalid, whatever the names are. */
  lemma DecodeSecondColon(reg: Registry, buffer: seq<byte>, i: nat, j: nat)
    requires i < j < |buffer| && buffer[i] == COLON && buffer[j] == COLON
    ensures Decode(reg, buffer) == Err(InvalidHashNames(buffer))
  {
  }

  /**
    With a single ':', the right span is resolved first: when it is unknown,
    that span is the one reported, whatever the left span is.
  */
  lemma DecodeUnknownRight(reg: Registry, left: seq<byte>, right: seq<byte>)
    requires COLON !in left && COLON !in right
    requires Lookup(reg, right).None?
    ensures Decode(reg, left + [COLON] + right) == Err(UnknownHashType(right))
  {
  }

  /** With a single ':' and a known right span, an unknown left span is reported. */
  lemma DecodeUnknownLeft(reg: Registry, left: seq<byte>, right: seq<byte>)
    requires COLON !in left && COLON !in right
    requires Lookup(reg, right).Some? && Lookup(reg, left).None?
    ensures Decode(reg, left + [COLON] + right) == Err(UnknownHashType(left))
  {
    var b := left + [COLON] + right;
    assert b[..|left|] == left;
    MemChrFirst(b, COLON, |left|);
    assert Right(b, |left|) == right;
    assert Left(b, |left|) == left;
  }

  /**
    A caller's out-parameter: a NULL pointer (the caller does not want the
    value) or a pointer to a variable holding a descriptor or NULL.
  */
  datatype OutSlot = Null | Ptr(target: Option<HashType>)

  /** `if (slot) *slot = v;` */
  function Store(slot: OutSlot, v: Option<HashType>): (r: OutSlot)
    ensures r.Null? <==> slot.Null?
    ensures r.Ptr? ==> r.target == v
  {
    if slot.Ptr? then Ptr(v) else Null
  }

  /**
    get_hashes_from_string(buffer, |buffer|, newHash, oldHash): returns
    whether the value decodes, and the out-parameters as the C code leaves
    them, including the slots it writes before a later step fails.
  */
  method GetHashesFromString(reg: Registry, buffer: seq<byte>, newHash: OutSlot, oldHash: OutSlot)
    returns (ok: bool, newOut: OutSlot, oldOut: OutSlot)
    ensures ok <==> Decode(reg, buffer).Ok?
    ensures ok ==> newOut == Store(newHash, Some(Decode(reg, buffer).value.newHash))
                   && oldOut == Store(oldHash, Decode(reg, buffer).value.oldHash)
    ensures !ok ==> newOut == newHash
    // no ':': the old slot is cleared before the name is looked up
    ensures MemChr(buffer, COLON).None? ==> oldOut == Store(oldHash, None)
    // one ':': the old slot is written once the right span resolves
    ensures !ok && MemChr(buffer, COLON).Some? ==>
      var right := Right(buffer, MemChr(buffer, COLON).value);
      oldOut == if MemChr(right, COLON).None? && Lookup(reg, right).Some?
                then Store(oldHash, Lookup(reg, right)) else oldHash
  {
    newOut, oldOut := newHash, oldHash;
    var delim := MemChr(buffer, COLON);
    if delim.None? {
      oldOut := Store(oldOut, None);
      var tmp := Lookup(reg, buffer);
      if tmp.None? {
        return false, newOut, oldOut;
      }
      newOut := Store(newOut, tmp);
    } else {
      var firstLen := delim.value;
      var second := buffer[firstLen + 1..];
      var newDelim := MemChr(second, COLON);
      if newDelim.Some? {
        return false, newOut, oldOut;
      }
      var tmp := Lookup(reg, second);
      if tmp.None? {
        return false, newOut, oldOut;
      }
      oldOut := Store(oldOut, tmp);
      tmp := Lookup(reg, buffer[..firstLen]);
      if tmp.None? {
        return false, newOut, oldOut;
      }
      newOut := Store(newOut, tmp);
    }
    return true, newOut, oldOut;
  }
}
