/**
 * The caller-owned variables that the serializer reads into and writes from,
 * and the conversions pugixml applies between them and stored content.
 *
 * One `Scalar` stands for a slot of any supported C++ type: `int`,
 * `unsigned`, `long long`, `unsigned long long` (an `Integer` with its width),
 * `bool` and `std::string`. The constructor tag is the static type; the
 * payload is the current value.
 */
module Scalars {
  import opened XmlStore

  datatype Width = Int32 | UInt32 | Int64 | UInt64

  function Min(w: Width): int {
    match w
    case Int32 => -0x8000_0000
    case UInt32 => 0
    case Int64 => -0x8000_0000_0000_0000
    case UInt64 => 0
  }

  function Max(w: Width): int {
    match w
    case Int32 => 0x7fff_ffff
    case UInt32 => 0xffff_ffff
    case Int64 => 0x7fff_ffff_ffff_ffff
    case UInt64 => 0xffff_ffff_ffff_ffff
  }

  predicate InRange(w: Width, x: int) {
    Min(w) <= x <= Max(w)
  }

  /** pugixml's out-of-range policy for as_int, as_uint, as_llong, as_ullong. */
  function Clamp(w: Width, x: int): (r: int)
    ensures InRange(w, r)
    ensures InRange(w, x) ==> r == x
    ensures x < Min(w) ==> r == Min(w)
    ensures x > Max(w) ==> r == Max(w)
  {
    if x < Min(w) then Min(w) else if x > Max(w) then Max(w) else x
  }

  /**
   * C++'s implicit conversion of an `int` into a variable of width `w`:
   * widening keeps the value, conversion to an unsigned type wraps it.
   */
  function FromInt(w: Width, x: int): (r: int)
    requires InRange(Int32, x)
    ensures InRange(w, r)
    ensures InRange(w, x) ==> r == x
    ensures (w == UInt32 || w == UInt64) && x < 0 ==> r == x + Max(w) + 1
  {
    match w
    case Int32 => x
    case Int64 => x
    case UInt32 => x % 0x1_0000_0000
    case UInt64 => x % 0x1_0000_0000_0000_0000
  }

  datatype Scalar = Integer(width: Width, value: int) | Boolean(b: bool) | Chars(s: string)

  /** The payload fits the slot's C++ type. */
  predicate WellTyped(x: Scalar) {
    x.Integer? ==> InRange(x.width, x.value)
  }

  /** Two slots of the same C++ type. */
  predicate SameType(x: Scalar, y: Scalar) {
    match x
    case Integer(w, _) => y.Integer? && y.width == w
    case Boolean(_) => y.Boolean?
    case Chars(_) => y.Chars?
  }

  /** The value-initialised variable of the slot's type: 0, false or "". */
  function Zero(slot: Scalar): (r: Scalar)
    ensures SameType(r, slot) && WellTyped(r)
  {
    match slot
    case Integer(w, _) => Integer(w, 0)
    case Boolean(_) => Boolean(false)
    case Chars(_) => Chars("")
  }

  /** What text().set(v), set_value(v) and attribute assignment store. */
  function Encode(x: Scalar): Value {
    match x
    case Integer(_, v) => Int(v)
    case Boolean(b) => Bool(b)
    case Chars(s) => Str(s)
  }

  // ---------------------------------------------------------------------
  // Reading stored content as a typed value (as_int, as_bool, as_string, ...).

  function DigitChar(d: nat): char
    requires d < 10
  {
    "0123456789"[d]
  }

  function Digits(n: nat): (r: string)
    ensures |r| > 0
    decreases n
  {
    if n < 10 then [DigitChar(n)] else Digits(n / 10) + [DigitChar(n % 10)]
  }

  /** The decimal text pugixml formats an integer as. */
  function Decimal(i: int): string {
    if i < 0 then "-" + Digits(-i) else Digits(i)
  }

  /** pugixml's as_string on content of any type. */
  function AsString(v: Value): string {
    match v
    case Str(s) => s
    case Bool(b) => if b then "true" else "false"
    case Int(i) => Decimal(i)
  }

  /** pugixml's as_bool: true when the text starts with 1, t, T, y or Y. */
  function AsBool(v: Value): (r: bool)
    ensures v.Bool? ==> r == v.b
  {
    var s := AsString(v);
    |s| > 0 && s[0] in "1tTyY"
  }

  /**
   * pugixml's as_int (width Int32), as_uint, as_llong and as_ullong.
   * An integer is clamped to the width. The words "true" and "false" hold no
   * digits and read as 0. Free text also reads as 0 here: parsing decimal
   * text is not part of this model.
   */
  function AsInteger(w: Width, v: Value): (r: int)
    ensures InRange(w, r)
    ensures v.Int? ==> r == Clamp(w, v.i)
    ensures v.Bool? ==> r == 0
  {
    match v
    case Int(i) => Clamp(w, i)
    case Bool(_) => 0
    case Str(_) => 0
  }

  /** The typed read for the slot's own type: as_string, as_int, as_uint, as_llong, as_ullong or as_bool. */
  function Decode(slot: Scalar, v: Value): (r: Scalar)
    ensures SameType(r, slot) && WellTyped(r)
  {
    match slot
    case Integer(w, _) => Integer(w, AsInteger(w, v))
    case Boolean(_) => Boolean(AsBool(v))
    case Chars(_) => Chars(AsString(v))
  }

  /** Reading with the slot's own type gives back what was stored from a slot of that type. */
  lemma DecodeEncode(x: Scalar, slot: Scalar)
    requires WellTyped(x) && SameType(x, slot)
    ensures Decode(slot, Encode(x)) == x
  {
  }
}
