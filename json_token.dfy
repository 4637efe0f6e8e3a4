/**
 * A parsed JSON token on 64-bit targets (`Utility::JsonToken`).
 *
 * A token is a view on the input text, a 64-bit word whose three highest
 * bits are the token type, the next three the parsed type, the next three
 * the string flags and the remaining 55 bits the size of the token text,
 * and an eight-byte union that holds either the child count or the parsed
 * value.  The word is a `bv64` read with the same masks the header uses;
 * the union is its unsigned 64-bit value, and reading or writing one of its
 * narrower members touches only its low bytes (a little-endian target).
 */
module JsonToken {
  import Optional

  // The private layout enum.

  const TypeMask: bv64 := 0x07 << 61
  const TypeObject: bv64 := 1 << 61
  const TypeArray: bv64 := 2 << 61
  const TypeNull: bv64 := 3 << 61
  const TypeBool: bv64 := 4 << 61
  const TypeNumber: bv64 := 5 << 61
  const TypeString: bv64 := 6 << 61

  const ParsedTypeMask: bv64 := 0x07 << 58
  const ParsedTypeNone: bv64 := 0 << 58
  const ParsedTypeDouble: bv64 := 1 << 58
  const ParsedTypeFloat: bv64 := 2 << 58
  const ParsedTypeUnsignedInt: bv64 := 3 << 58
  const ParsedTypeInt: bv64 := 4 << 58
  const ParsedTypeUnsignedLong: bv64 := 5 << 58
  const ParsedTypeLong: bv64 := 6 << 58
  const ParsedTypeOther: bv64 := 7 << 58

  const FlagStringKey: bv64 := 1 << 57
  const FlagStringGlobal: bv64 := 1 << 56
  const FlagStringEscaped: bv64 := 1 << 55

  const SizeMask: bv64 := (1 << 55) - 1

  /** The six fields of the word (type, parsed type, three string flags, size) do not overlap and together cover all 64 bits. */
  lemma FieldsPartitionTheWord()
    ensures TypeMask & ParsedTypeMask == 0 && TypeMask & FlagStringKey == 0
    ensures TypeMask & FlagStringGlobal == 0 && TypeMask & FlagStringEscaped == 0 && TypeMask & SizeMask == 0
    ensures ParsedTypeMask & FlagStringKey == 0 && ParsedTypeMask & FlagStringGlobal == 0
    ensures ParsedTypeMask & FlagStringEscaped == 0 && ParsedTypeMask & SizeMask == 0
    ensures FlagStringKey & FlagStringGlobal == 0 && FlagStringKey & FlagStringEscaped == 0
    ensures FlagStringGlobal & FlagStringEscaped == 0
    ensures (FlagStringKey | FlagStringGlobal | FlagStringEscaped) & SizeMask == 0
    ensures TypeMask | ParsedTypeMask | FlagStringKey | FlagStringGlobal | FlagStringEscaped | SizeMask
         == 0xFFFF_FFFF_FFFF_FFFF
  {
  }

  /** `JsonToken::Type`. */
  datatype Type = Object | Array | Null | Bool | Number | String

  /** The value of a `Type` enumerator, which is also its private `Type*` constant. */
  function TypeBits(t: Type): (r: bv64)
    ensures r != 0 && r & TypeMask == r && r != TypeMask
  {
    match t
    case Object => TypeObject
    case Array => TypeArray
    case Null => TypeNull
    case Bool => TypeBool
    case Number => TypeNumber
    case String => TypeString
  }

  /** `JsonToken::ParsedType` on a 64-bit target. */
  datatype ParsedType = None | Double | Float | UnsignedInt | Int | UnsignedLong | Long | Other

  /** `ParsedType::Size`, an alias of `ParsedType::UnsignedLong` on a 64-bit target. */
  const ParsedTypeSize: ParsedType := UnsignedLong

  /** The value of a `ParsedType` enumerator, which is also its private `ParsedType*` constant. */
  function ParsedTypeBits(p: ParsedType): (r: bv64)
    ensures r & ParsedTypeMask == r
    ensures r == 0 <==> p == None
  {
    match p
    case None => ParsedTypeNone
    case Double => ParsedTypeDouble
    case Float => ParsedTypeFloat
    case UnsignedInt => ParsedTypeUnsignedInt
    case Int => ParsedTypeInt
    case UnsignedLong => ParsedTypeUnsignedLong
    case Long => ParsedTypeLong
    case Other => ParsedTypeOther
  }

  /**
   * `type()`: the type field read as an enumerator; the two bit patterns no
   * enumerator has (no type, all three bits) read as none.
   */
  function TypeOf(word: bv64): (r: Optional.Option<Type>)
    ensures r.Some? <==> word & TypeMask != 0 && word & TypeMask != TypeMask
    ensures r.Some? ==> TypeBits(r.value) == word & TypeMask
  {
    var field := word & TypeMask;
    if field == TypeObject then Optional.Some(Object)
    else if field == TypeArray then Optional.Some(Array)
    else if field == TypeNull then Optional.Some(Null)
    else if field == TypeBool then Optional.Some(Bool)
    else if field == TypeNumber then Optional.Some(Number)
    else if field == TypeString then Optional.Some(String)
    else Optional.None
  }

  /** `parsedType()`: every pattern of the three bits is an enumerator. */
  function ParsedTypeOf(word: bv64): (r: ParsedType)
    ensures ParsedTypeBits(r) == word & ParsedTypeMask
  {
    var field := word & ParsedTypeMask;
    if field == ParsedTypeNone then None
    else if field == ParsedTypeDouble then Double
    else if field == ParsedTypeFloat then Float
    else if field == ParsedTypeUnsignedInt then UnsignedInt
    else if field == ParsedTypeInt then Int
    else if field == ParsedTypeUnsignedLong then UnsignedLong
    else if field == ParsedTypeLong then Long
    else Other
  }

  /** `isParsed()`: any bit of the parsed-type field, which is a parsed type other than `None`. */
  function IsParsed(word: bv64): (r: bool)
    ensures r <==> ParsedTypeOf(word) != None
  {
    word & ParsedTypeMask != 0
  }

  /** Whether the token is an object key. */
  predicate IsKey(word: bv64) {
    word & FlagStringKey != 0
  }

  /** Whether the token text is in a global string. */
  predicate IsGlobal(word: bv64) {
    word & FlagStringGlobal != 0
  }

  /** Whether the token text holds escape sequences. */
  predicate IsEscaped(word: bv64) {
    word & FlagStringEscaped != 0
  }

  /** The size of the token text, the low 55 bits. */
  function SizeField(word: bv64): (r: bv64)
    ensures r <= SizeMask
  {
    word & SizeMask
  }

  /** The word a token with these fields holds, each field in its own bits. */
  function Pack(t: Type, p: ParsedType, key: bool, global: bool, escaped: bool, size: bv64): bv64
    requires size <= SizeMask
  {
    TypeBits(t) | ParsedTypeBits(p)
      | (if key then FlagStringKey else 0)
      | (if global then FlagStringGlobal else 0)
      | (if escaped then FlagStringEscaped else 0)
      | size
  }

  /** Every field of a packed word reads back exactly what was stored in it. */
  lemma PackReadsBack(t: Type, p: ParsedType, key: bool, global: bool, escaped: bool, size: bv64)
    requires size <= SizeMask
    ensures var word := Pack(t, p, key, global, escaped, size);
      && TypeOf(word) == Optional.Some(t)
      && ParsedTypeOf(word) == p
      && (IsParsed(word) <==> p != None)
      && IsKey(word) == key && IsGlobal(word) == global && IsEscaped(word) == escaped
      && SizeField(word) == size
  {
    var word := Pack(t, p, key, global, escaped, size);
    PackTypeField(t, p, key, global, escaped, size);
    PackParsedTypeField(t, p, key, global, escaped, size);
    assert TypeOf(word).Some?;
    assert TypeBits(TypeOf(word).value) == TypeBits(t);
    assert ParsedTypeBits(ParsedTypeOf(word)) == ParsedTypeBits(p);
  }

  /** The type field of a packed word. */
  lemma PackTypeField(t: Type, p: ParsedType, key: bool, global: bool, escaped: bool, size: bv64)
    requires size <= SizeMask
    ensures Pack(t, p, key, global, escaped, size) & TypeMask == TypeBits(t)
  {
  }

  /** The parsed-type field of a packed word. */
  lemma PackParsedTypeField(t: Type, p: ParsedType, key: bool, global: bool, escaped: bool, size: bv64)
    requires size <= SizeMask
    ensures Pack(t, p, key, global, escaped, size) & ParsedTypeMask == ParsedTypeBits(p)
  {
  }

  /** A word is the union of its six fields. */
  lemma FieldsCoverTheWord(word: bv64)
    ensures word == (word & TypeMask) | (word & ParsedTypeMask) | (word & FlagStringKey)
      | (word & FlagStringGlobal) | (word & FlagStringEscaped) | (word & SizeMask)
  {
  }

  // Json::Option, an enum set over `int`.

  const ParseLiterals: bv32 := 1 << 0
  const ParseDoubles: bv32 := 1 << 1
  const ParseFloats: bv32 := 1 << 2
  const ParseStringKeys: bv32 := 1 << 3
  const ParseStrings: bv32 := ParseStringKeys | (1 << 4)

  /** An enum set holds an option when it has all of the option's bits. */
  predicate HasOption(options: bv32, option: bv32) {
    options & option == option
  }

  /** `ParseStrings` implies `ParseStringKeys`, and no other option shares its bits. */
  lemma ParseStringsImpliesParseStringKeys(options: bv32)
    ensures HasOption(options, ParseStrings) ==> HasOption(options, ParseStringKeys)
    ensures ParseStrings & (ParseLiterals | ParseDoubles | ParseFloats) == 0
    ensures HasOption(ParseStringKeys, ParseStrings) == false
  {
  }

  // The union.

  /** `std::uint64_t`, the widest member of the union. */
  type U64 = x: int | 0 <= x < 0x1_0000_0000_0000_0000

  /** A token: the offset of its text in the input, the packed word and the union. */
  datatype Token = Token(data: nat, word: bv64, payload: U64)

  /** The low four bytes of the union, where the 32-bit members live. */
  function Low32(payload: U64): (r: nat)
    ensures r < 0x1_0000_0000
  {
    payload % 0x1_0000_0000
  }

  /** Assigning a 32-bit member: the low four bytes change, the others stay. */
  function WriteLow32(payload: U64, v: nat): (r: U64)
    requires v < 0x1_0000_0000
    ensures r / 0x1_0000_0000 == payload / 0x1_0000_0000
  {
    payload - payload % 0x1_0000_0000 + v
  }

  /** Assigning `_parsedBool`: the low byte becomes 1 or 0. */
  function WriteBool(payload: U64, b: bool): (r: U64)
    ensures r / 0x100 == payload / 0x100
  {
    payload - payload % 0x100 + (if b then 1 else 0)
  }

  /** Assigning `_parsedInt`: the two's complement of `v` in the low four bytes. */
  function WriteInt(payload: U64, v: int): U64
    requires -0x8000_0000 <= v < 0x8000_0000
  {
    WriteLow32(payload, if v < 0 then v + 0x1_0000_0000 else v)
  }

  /** Assigning `_parsedLong`: the two's complement of `v` in all eight bytes. */
  function WriteLong(v: int): U64
    requires -0x8000_0000_0000_0000 <= v < 0x8000_0000_0000_0000
  {
    if v < 0 then v + 0x1_0000_0000_0000_0000 else v
  }

  /** `asNull()`: only a parsed null; the result is the null pointer. */
  function AsNull(t: Token): (r: Optional.Option<nat>)
    requires TypeOf(t.word) == Optional.Some(Null) && IsParsed(t.word)
    ensures r.None?
  {
    Optional.None
  }

  /** `asBool()`: a parsed bool reads `_parsedBool`, the low byte. */
  function AsBool(t: Token): (r: bool)
    requires TypeOf(t.word) == Optional.Some(Bool) && IsParsed(t.word)
    ensures r <==> t.payload % 0x100 != 0
  {
    t.payload % 0x100 != 0
  }

  /** `asDouble()`: the bits of `_parsedDouble`, all eight bytes. */
  function AsDouble(t: Token): (r: U64)
    requires ParsedTypeOf(t.word) == Double
    ensures r == t.payload
  {
    t.payload
  }

  /** `asFloat()`: the bits of `_parsedFloat`, the low four bytes. */
  function AsFloat(t: Token): (r: nat)
    requires ParsedTypeOf(t.word) == Float
    ensures r < 0x1_0000_0000
  {
    Low32(t.payload)
  }

  /** `asUnsignedInt()`: `_parsedUnsignedInt`, the low four bytes. */
  function AsUnsignedInt(t: Token): (r: nat)
    requires ParsedTypeOf(t.word) == UnsignedInt
    ensures r < 0x1_0000_0000
  {
    Low32(t.payload)
  }

  /** `asInt()`: `_parsedInt`, the low four bytes read as two's complement. */
  function AsInt(t: Token): (r: int)
    requires ParsedTypeOf(t.word) == Int
    ensures -0x8000_0000 <= r < 0x8000_0000
  {
    var u := Low32(t.payload);
    if u < 0x8000_0000 then u else u - 0x1_0000_0000
  }

  /** `asUnsignedLong()`: `_parsedUnsignedLong`, all eight bytes. */
  function AsUnsignedLong(t: Token): (r: nat)
    requires ParsedTypeOf(t.word) == UnsignedLong
    ensures r < 0x1_0000_0000_0000_0000
  {
    t.payload
  }

  /** `asLong()`: `_parsedLong`, all eight bytes read as two's complement. */
  function AsLong(t: Token): (r: int)
    requires ParsedTypeOf(t.word) == Long
    ensures -0x8000_0000_0000_0000 <= r < 0x8000_0000_0000_0000
  {
    if t.payload < 0x8000_0000_0000_0000 then t.payload else t.payload - 0x1_0000_0000_0000_0000
  }

  /** `asSize()`: on a 64-bit target the same member as `asUnsignedLong()`. */
  function AsSize(t: Token): (r: nat)
    requires ParsedTypeOf(t.word) == ParsedTypeSize
    ensures r == AsUnsignedLong(t)
  {
    t.payload
  }

  /** A parsed bool reads back what was assigned to `_parsedBool`. */
  lemma AsBoolReadsBack(t: Token, b: bool)
    requires TypeOf(t.word) == Optional.Some(Bool) && IsParsed(t.word)
    ensures AsBool(t.(payload := WriteBool(t.payload, b))) == b
  {
  }

  /** The float bits read back what was assigned to `_parsedFloat`. */
  lemma AsFloatReadsBack(t: Token, bits: nat)
    requires ParsedTypeOf(t.word) == Float && bits < 0x1_0000_0000
    ensures AsFloat(t.(payload := WriteLow32(t.payload, bits))) == bits
  {
  }

  /** An unsigned 32-bit value reads back what was assigned to `_parsedUnsignedInt`. */
  lemma AsUnsignedIntReadsBack(t: Token, v: nat)
    requires ParsedTypeOf(t.word) == UnsignedInt && v < 0x1_0000_0000
    ensures AsUnsignedInt(t.(payload := WriteLow32(t.payload, v))) == v
  {
  }

  /** A signed 32-bit value reads back what was assigned to `_parsedInt`, negative ones included. */
  lemma AsIntReadsBack(t: Token, v: int)
    requires ParsedTypeOf(t.word) == Int && -0x8000_0000 <= v < 0x8000_0000
    ensures AsInt(t.(payload := WriteInt(t.payload, v))) == v
  {
  }

  /** A signed 64-bit value reads back what was assigned to `_parsedLong`, negative ones included. */
  lemma AsLongReadsBack(t: Token, v: int)
    requires ParsedTypeOf(t.word) == Long && -0x8000_0000_0000_0000 <= v < 0x8000_0000_0000_0000
    ensures AsLong(t.(payload := WriteLong(v))) == v
  {
  }
}
