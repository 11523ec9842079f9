/** The byte-level codec of snapshot sections: fixed-width little-endian values, key widths, and the
    variable-length deltas of posting lists. */
module SnapshotBytes {
  import opened Vocabulary

  type byte = n: nat | n < 256

  const U32_LIMIT := 0x1_0000_0000

  datatype FormatError =
    | Truncated
    | UnsupportedWidth
    | DeltaIsZero
    | DeltaOverflows
    | DeltaTooLong
    | RowIdOutOfBounds
    | SymbolOutOfBounds
    | KeyFieldNotZero
    | KeysNotSorted
    | DuplicateKey
    | SpansDoNotCover
    | PostingOutOfBounds
    | PostingsNotIncreasing
    | EmptyPostingList
    | RowDoesNotMatchKey
    | CoverageBitInvalid
    | DuplicatePosting
    | IndexIncomplete
    | SectionOutOfBounds
    | CountMismatch
    | UnsupportedVersion
    | UnsupportedProfile
    | UnsupportedFlags
    | HeaderInvalid
    | FooterInvalid
    | SchemaTooLarge
    | SchemaMismatch

  /** Symbols are stored counting from one. */
  function SymbolFromRaw(value: nat, symbolCount: nat): Result<nat, FormatError> {
    if value == 0 || value > symbolCount then Err(SymbolOutOfBounds) else Ok(value - 1)
  }

  // ---------------------------------------------------------------- little-endian values

  function Pow256(width: nat): (r: nat)
    ensures r > 0
  {
    if width == 0 then 1 else 256 * Pow256(width - 1)
  }

  function EncodeLE(value: nat, width: nat): seq<byte>
    decreases width
  {
    if width == 0 then [] else [value % 256] + EncodeLE(value / 256, width - 1)
  }

  function DecodeLE(bytes: seq<byte>): nat {
    if bytes == [] then 0 else bytes[0] + 256 * DecodeLE(bytes[1..])
  }

  lemma {:induction false} EncodedLength(value: nat, width: nat)
    ensures |EncodeLE(value, width)| == width
    decreases width
  {
    if width > 0 {
      EncodedLength(value / 256, width - 1);
    }
  }

  lemma {:induction false} LittleEndianRoundTrip(value: nat, width: nat)
    requires value < Pow256(width)
    ensures DecodeLE(EncodeLE(value, width)) == value
    decreases width
  {
    if width > 0 {
      LittleEndianRoundTrip(value / 256, width - 1);
    }
  }

  lemma {:induction false} LittleEndianReadsBack(bytes: seq<byte>)
    ensures DecodeLE(bytes) < Pow256(|bytes|)
    ensures EncodeLE(DecodeLE(bytes), |bytes|) == bytes
  {
    if bytes != [] {
      LittleEndianReadsBack(bytes[1..]);
      assert DecodeLE(bytes) / 256 == DecodeLE(bytes[1..]);
    }
  }

  // ---------------------------------------------------------------- key widths

  datatype KeyWidth = U8 | U16 | U24 | U32 {
    function ByteLen(): nat {
      match this
      case U8 => 1
      case U16 => 2
      case U24 => 3
      case U32 => 4
    }

    function FlagBits(): nat { ByteLen() - 1 }
  }

  function WidthFromFlagBits(bits: nat): Result<KeyWidth, FormatError> {
    match bits
    case 0 => Ok(U8)
    case 1 => Ok(U16)
    case 2 => Ok(U24)
    case 3 => Ok(U32)
    case _ => Err(UnsupportedWidth)
  }

  function WidthForMax(value: nat): KeyWidth {
    if value <= 0xFF then U8 else if value <= 0xFFFF then U16 else if value <= 0xFF_FFFF then U24 else U32
  }

  /** The width chosen for the largest value fits every value up to it, and no narrower width would. */
  lemma WidthFits(value: nat, max: nat)
    requires value <= max < U32_LIMIT
    ensures value < Pow256(WidthForMax(max).ByteLen())
    ensures forall width: KeyWidth :: max < Pow256(width.ByteLen()) ==> WidthForMax(max).ByteLen() <= width.ByteLen()
    ensures WidthFromFlagBits(WidthForMax(max).FlagBits()) == Ok(WidthForMax(max))
  {
    assert Pow256(1) == 0x100 && Pow256(2) == 0x1_0000 && Pow256(3) == 0x100_0000 && Pow256(4) == U32_LIMIT by {
      assert Pow256(0) == 1;
    }
  }

  /** A reader over a byte section. */
  class BinaryCursor {
    const bytes: seq<byte>
    var offset: nat

    ghost predicate Valid()
      reads this
    {
      offset <= |bytes|
    }

    constructor (bytes: seq<byte>)
      ensures Valid() && this.bytes == bytes && offset == 0
    {
      this.bytes, offset := bytes, 0;
    }

    /** Reads some bytes; a truncated section leaves the cursor where it was. */
    method ReadBytes(count: nat) returns (r: Result<seq<byte>, FormatError>)
      requires Valid()
      modifies this
      ensures Valid()
      ensures r.Ok? <==> old(offset) + count <= |bytes|
      ensures r.Ok? ==> offset == old(offset) + count && r.value == bytes[old(offset)..offset]
      ensures r.Err? ==> r.error == Truncated && offset == old(offset)
    {
      if offset + count > |bytes| {
        return Err(Truncated);
      }
      offset := offset + count;
      r := Ok(bytes[offset - count..offset]);
    }

    /** Reads a little-endian value; a truncated section leaves the cursor where it was. */
    method ReadValue(width: nat) returns (r: Result<nat, FormatError>)
      requires Valid()
      modifies this
      ensures Valid()
      ensures r.Ok? <==> old(offset) + width <= |bytes|
      ensures r.Ok? ==> offset == old(offset) + width
                        && EncodeLE(r.value, width) == bytes[old(offset)..offset] && r.value < Pow256(width)
      ensures r.Err? ==> r.error == Truncated && offset == old(offset)
    {
      var slice :- ReadBytes(width);
      LittleEndianReadsBack(slice);
      r := Ok(DecodeLE(slice));
    }
  }

  // ---------------------------------------------------------------- delta varints

  /** Seven bits a byte, least significant first; the high bit says that more follow. */
  function VarintBytes(value: nat): seq<byte> {
    if value < 0x80 then [value] else [value % 0x80 + 0x80] + VarintBytes(value / 0x80)
  }

  /** Reads the groups from number `group` on: their value, and where they end. */
  function VarintFrom(bytes: seq<byte>, offset: nat, group: nat): Result<(nat, nat), FormatError>
    requires group <= 4
    decreases 4 - group
  {
    if offset >= |bytes| then Err(Truncated)
    else
      var low := bytes[offset] % 0x80;
      if group == 4 && low > 0x0F then Err(DeltaOverflows)
      else if bytes[offset] < 0x80 then Ok((low, offset + 1))
      else if group == 4 then Err(DeltaTooLong)
      else
        var (rest, end) :- VarintFrom(bytes, offset + 1, group + 1);
        Ok((low + 0x80 * rest, end))
  }

  /** A whole delta: a nonzero 32-bit value. */
  function Varint(bytes: seq<byte>, offset: nat): Result<(nat, nat), FormatError> {
    var (value, end) :- VarintFrom(bytes, offset, 0);
    if value == 0 then Err(DeltaIsZero) else Ok((value, end))
  }

  /** One more than the largest value groups from number `group` on can carry. */
  function GroupLimit(group: nat): nat
    requires group <= 4
    decreases 4 - group
  {
    if group == 4 then 0x10 else 0x80 * GroupLimit(group + 1)
  }

  lemma {:induction false} VarintFromIsBounded(bytes: seq<byte>, offset: nat, group: nat)
    requires group <= 4 && VarintFrom(bytes, offset, group).Ok?
    ensures var (value, end) := VarintFrom(bytes, offset, group).value;
            value < GroupLimit(group) && offset < end <= |bytes| && end <= offset + 5 - group
    decreases 4 - group
  {
    if bytes[offset] >= 0x80 {
      VarintFromIsBounded(bytes, offset + 1, group + 1);
      var low, rest := bytes[offset] % 0x80, VarintFrom(bytes, offset + 1, group + 1).value.0;
      assert VarintFrom(bytes, offset, group).value.0 == low + 0x80 * rest;
      assert low + 0x80 * rest < 0x80 * (rest + 1) <= 0x80 * GroupLimit(group + 1);
    }
  }

  /** An accepted delta is a nonzero 32-bit value read from one to five bytes. */
  lemma VarintIsBounded(bytes: seq<byte>, offset: nat)
    requires Varint(bytes, offset).Ok?
    ensures var (value, end) := Varint(bytes, offset).value; 0 < value < U32_LIMIT && offset < end <= |bytes| && end <= offset + 5
  {
    VarintFromIsBounded(bytes, offset, 0);
    assert GroupLimit(0) == U32_LIMIT by {
      assert GroupLimit(3) == 0x800 && GroupLimit(2) == 0x4_0000 && GroupLimit(1) == 0x200_0000;
    }
  }

  lemma {:induction false} VarintFromRoundTrip(before: seq<byte>, value: nat, after: seq<byte>, group: nat)
    requires group <= 4 && value < GroupLimit(group)
    ensures VarintFrom(before + VarintBytes(value) + after, |before|, group) == Ok((value, |before| + |VarintBytes(value)|))
    decreases 4 - group
  {
    var bytes := before + VarintBytes(value) + after;
    assert bytes[|before|] == VarintBytes(value)[0];
    if value >= 0x80 {
      var first := VarintBytes(value)[0];
      assert bytes == (before + [first]) + VarintBytes(value / 0x80) + after;
      VarintFromRoundTrip(before + [first], value / 0x80, after, group + 1);
    }
  }

  /** Every nonzero 32-bit delta is read back from wherever it was written. */
  lemma VarintRoundTrip(before: seq<byte>, value: nat, after: seq<byte>)
    requires 0 < value < U32_LIMIT
    ensures Varint(before + VarintBytes(value) + after, |before|) == Ok((value, |before| + |VarintBytes(value)|))
  {
    assert GroupLimit(0) == U32_LIMIT by {
      assert GroupLimit(3) == 0x800 && GroupLimit(2) == 0x4_0000 && GroupLimit(1) == 0x200_0000;
    }
    VarintFromRoundTrip(before, value, after, 0);
  }

  method EncodeVarint(value: nat, target: seq<byte>) returns (r: Result<seq<byte>, FormatError>)
    ensures r == if value == 0 then Err(DeltaIsZero) else Ok(target + VarintBytes(value))
  {
    if value == 0 {
      return Err(DeltaIsZero);
    }
    var remaining, bytes := value, target;
    while remaining >= 0x80
      invariant bytes + VarintBytes(remaining) == target + VarintBytes(value)
    {
      bytes := bytes + [remaining % 0x80 + 0x80];
      remaining := remaining / 0x80;
    }
    r := Ok(bytes + [remaining]);
  }

  function Pow128(groups: nat): nat { if groups == 0 then 1 else 0x80 * Pow128(groups - 1) }

  /** What a partly read varint still has to become. */
  ghost predicate Continues(whole: Result<(nat, nat), FormatError>, read: nat, groups: nat, rest: Result<(nat, nat), FormatError>) {
    match rest
    case Err(error) => whole == Err(error)
    case Ok((value, end)) => whole == Ok((read + Pow128(groups) * value, end))
  }

  lemma NextGroup(whole: Result<(nat, nat), FormatError>, read: nat, groups: nat, low: nat, rest: Result<(nat, nat), FormatError>)
    requires Continues(whole, read, groups, if rest.Err? then Err(rest.error) else Ok((low + 0x80 * rest.value.0, rest.value.1)))
    ensures Continues(whole, read + Pow128(groups) * low, groups + 1, rest) && Pow128(groups + 1) == 0x80 * Pow128(groups)
  {
    if rest.Ok? {
      Regroup(Pow128(groups), low, rest.value.0);
    }
  }

  lemma NothingReadYet(whole: Result<(nat, nat), FormatError>)
    ensures Pow128(0) == 1 && Continues(whole, 0, 0, whole)
  {
  }

  lemma LastGroup(whole: Result<(nat, nat), FormatError>, read: nat, groups: nat, rest: Result<(nat, nat), FormatError>)
    requires Continues(whole, read, groups, rest)
    ensures whole == if rest.Err? then rest else Ok((read + Pow128(groups) * rest.value.0, rest.value.1))
  {
  }

  lemma Regroup(scale: nat, low: nat, rest: nat)
    ensures scale * (low + 0x80 * rest) == scale * low + (0x80 * scale) * rest
  {
    var product := scale * rest;
    assert scale * (0x80 * rest) == 0x80 * product;
    assert (0x80 * scale) * rest == 0x80 * product;
  }

  /** Reads one delta, group by group. */
  method DecodeVarint(bytes: seq<byte>, offset: nat) returns (r: Result<(nat, nat), FormatError>)
    ensures r == Varint(bytes, offset)
  {
    hide Pow128, Continues;
    ghost var whole := VarintFrom(bytes, offset, 0);
    NothingReadYet(whole);
    var value: nat, group: nat, at: nat, scale: nat := 0, 0, offset, 1;
    while true
      invariant group <= 4 && scale == Pow128(group)
      invariant Continues(whole, value, group, VarintFrom(bytes, at, group))
      decreases 4 - group
    {
      ghost var rest := VarintFrom(bytes, at, group);
      LastGroup(whole, value, group, rest);
      if at >= |bytes| {
        return Err(Truncated);
      }
      var next := bytes[at];
      at := at + 1;
      var low := next % 0x80;
      if group == 4 && low > 0x0F {
        return Err(DeltaOverflows);
      }
      if next < 0x80 {
        value := value + scale * low;
        return if value == 0 then Err(DeltaIsZero) else Ok((value, at));
      }
      if group == 4 {
        return Err(DeltaTooLong);
      }
      NextGroup(whole, value, group, low, VarintFrom(bytes, at, group + 1));
      value := value + scale * low;
      group, scale := group + 1, 0x80 * scale;
    }
  }
}
