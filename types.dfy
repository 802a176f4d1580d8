/** Value types, records and constants shared by the scanning engine
    (the `MemoryMCP` namespace's types header). */
module Types {

  /** One byte of target memory or of a `std::string`. */
  newtype byte = b: int | 0 <= b < 256

  /** A byte string: the contents of a `std::string` such as a search value. */
  type Text = seq<byte>

  /** `uintptr_t` on a 64-bit host. */
  const ADDR_LIMIT: nat := 0x1_0000_0000_0000_0000
  type Addr = a: nat | a < ADDR_LIMIT

  /** Adds an offset to an address the way `uintptr_t` addition does: modulo 2^64. */
  function AddrAt(base: Addr, offset: nat): (r: Addr)
    ensures base + offset < ADDR_LIMIT ==> r == base + offset
    ensures offset < ADDR_LIMIT && base + offset >= ADDR_LIMIT ==> r == base + offset - ADDR_LIMIT
  {
    (base + offset) % ADDR_LIMIT
  }

  const MAX_REGIONS: nat := 1000
  const MAX_REGION_SIZE: nat := 1024 * 1024
  const BUFFER_SIZE: nat := 4096

  lemma ConstantValues()
    ensures MAX_REGIONS == 1000 && MAX_REGION_SIZE == 1048576 && BUFFER_SIZE == 4096
  {
  }

  /** The closed set of searchable value types. */
  datatype ValueType = String | Int | Int32 | Int64 | Float | Float32 | Float64

  /** The seven tokens the boundary recognises, in declaration order. */
  const TypeTokens: seq<string> := ["string", "int", "int32", "int64", "float", "float32", "float64"]

  /** `value_type_to_string`: each type's token; parsing the token gives the type back. */
  function TypeName(t: ValueType): (s: string)
    ensures s in TypeTokens
    ensures ParseType(s) == t
  {
    match t
    case String => "string"
    case Int => "int"
    case Int32 => "int32"
    case Int64 => "int64"
    case Float => "float"
    case Float32 => "float32"
    case Float64 => "float64"
  }

  /** `string_to_value_type`: exact token comparison, anything else is `String`. */
  function ParseType(s: string): (t: ValueType)
    ensures s !in TypeTokens ==> t == String
  {
    if s == "string" then String
    else if s == "int" then Int
    else if s == "int32" then Int32
    else if s == "int64" then Int64
    else if s == "float" then Float
    else if s == "float32" then Float32
    else if s == "float64" then Float64
    else String
  }

  /** Every recognised token is the name of the type it parses to. */
  lemma ParseRecognisedToken(s: string)
    requires s in TypeTokens
    ensures TypeName(ParseType(s)) == s
  {
  }

  /** Distinct types have distinct names. */
  lemma TypeNameInjective(t1: ValueType, t2: ValueType)
    ensures TypeName(t1) == TypeName(t2) ==> t1 == t2
  {
    if TypeName(t1) == TypeName(t2) {
      calc {
        t1;
        ParseType(TypeName(t1));
        ParseType(TypeName(t2));
        t2;
      }
    }
  }

  /** The three cases the type tests fix, in both directions. */
  lemma FixedTokens()
    ensures TypeName(String) == "string" && ParseType("string") == String
    ensures TypeName(Int) == "int" && ParseType("int") == Int
    ensures TypeName(Float) == "float" && ParseType("float") == Float
  {
  }

  datatype Option<T> = None | Some(value: T)

  /** One located occurrence: an absolute address tagged with the value and type searched for. */
  datatype MemoryAddress = MemoryAddress(address: Addr, value: Text, vtype: ValueType)

  /** Outcome of a scan; a filter's outcome has the same shape. */
  datatype ScanResponse = ScanResponse(addresses: seq<MemoryAddress>, count: nat, message: string, success: bool)

  /** Outcome of a listing: display strings of stored addresses. */
  datatype AddressesResponse = AddressesResponse(addresses: seq<string>, count: nat, message: string, success: bool)

  datatype ResetResponse = ResetResponse(message: string, success: bool)

  predicate IsDecDigit(c: char)
  {
    '0' <= c <= '9'
  }

  /** Value of a decimal digit string, most significant digit first. */
  function DecValue(ds: string): nat
    requires forall i :: 0 <= i < |ds| ==> IsDecDigit(ds[i])
  {
    if ds == [] then 0 else DecValue(ds[..|ds| - 1]) * 10 + DecDigitValue(ds[|ds| - 1])
  }

  function DecDigitValue(c: char): (d: nat)
    requires IsDecDigit(c)
    ensures d < 10
  {
    (c as int) - ('0' as int)
  }

  /** `std::to_string` of a count: decimal digits that read back as the
      count, no sign, no leading zero. */
  function Decimal(n: nat): (s: string)
    ensures |s| >= 1
    ensures forall i :: 0 <= i < |s| ==> IsDecDigit(s[i])
    ensures DecValue(s) == n
    ensures n > 0 ==> s[0] != '0'
  {
    if n < 10 then ["0123456789"[n]] else Decimal(n / 10) + ["0123456789"[n % 10]]
  }
}
