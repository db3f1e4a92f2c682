/**
 * The runtime's dynamic value type (`AbstractValue`), its conversions, and the
 * one-field `Property` cell that the engine's store holds (rml_core/src/properties.rs).
 * The source's `f32` numbers are modelled as `real`: only equality and ordering are used.
 */
module Values {
  import opened Wrappers

  /** Tagged union of property values; Dafny's datatype equality is the derived structural `PartialEq`. */
  datatype AbstractValue =
    | Bool(b: bool)
    | String(s: string)
    | Number(n: real)
    | Array(items: seq<AbstractValue>)
    | Null

  /** A colour as four channels; produced from a string by a caller-supplied decoder. */
  datatype Color = Color(r: real, g: real, b: real, a: real)

  /** `to_number`: the payload of a `Number`, nothing for any other variant. */
  function ToNumber(v: AbstractValue): (r: Option<real>)
    ensures r.Some? <==> v.Number?
    ensures r.Some? ==> r.value == v.n
  {
    match v
    case Number(n) => Some(n)
    case _ => None
  }

  /** `to_bool`: the payload of a `Bool`, nothing for any other variant. */
  function ToBool(v: AbstractValue): (r: Option<bool>)
    ensures r.Some? <==> v.Bool?
    ensures r.Some? ==> r.value == v.b
  {
    match v
    case Bool(b) => Some(b)
    case _ => None
  }

  /**
   * `to_color`: only a `String` yields a colour, decoded by `decompose`
   * (the float parsing of `decompose_color_string` is not part of this model).
   */
  function ToColor(v: AbstractValue, decompose: string -> Color): (r: Option<Color>)
    ensures r.Some? <==> v.String?
    ensures r.Some? ==> r.value == decompose(v.s)
  {
    match v
    case String(s) => Some(decompose(s))
    case _ => None
  }

  /**
   * `to_string`. Float formatting of numbers and the `Debug` rendering of arrays
   * are supplied by the caller; every other variant is rendered here.
   */
  function ToString(v: AbstractValue, formatNumber: real -> string,
                    formatArray: seq<AbstractValue> -> string): (r: string)
    ensures v.String? ==> r == v.s
    ensures v.Bool? ==> r == (if v.b then "true" else "false")
    ensures v.Null? ==> r == "null"
    ensures v.Number? ==> r == formatNumber(v.n)
  {
    match v
    case Bool(b) => if b then "true" else "false"
    case String(s) => s
    case Number(n) => formatNumber(n)
    case Array(items) => formatArray(items)
    case Null => "null"
  }

  // The `From` conversions.

  function FromBool(b: bool): (r: AbstractValue)
    ensures ToBool(r) == Some(b)
  {
    Bool(b)
  }

  /** `From<&str>` and `From<String>` alike: the same text. */
  function FromStr(s: string): (r: AbstractValue)
    ensures r.String? && r.s == s
  {
    String(s)
  }

  function FromF32(x: real): (r: AbstractValue)
    ensures ToNumber(r) == Some(x)
  {
    Number(x)
  }

  /** `From<u32>` goes through `as f32`; the rounding of large integers is not modelled. */
  function FromU32(x: nat): (r: AbstractValue)
    requires x < 0x1_0000_0000
    ensures ToNumber(r) == Some(x as real)
  {
    Number(x as real)
  }

  function FromVec(items: seq<AbstractValue>): (r: AbstractValue)
    ensures r.Array? && r.items == items
    ensures ToNumber(r).None? && ToBool(r).None?
  {
    Array(items)
  }

  function FromUnit(): (r: AbstractValue)
    ensures ToNumber(r).None? && ToBool(r).None?
    ensures forall fn: real -> string, fa: seq<AbstractValue> -> string :: ToString(r, fn, fa) == "null"
  {
    Null
  }

  /** Conversions to Rust types and back agree: a string converted and rendered is itself again. */
  lemma StringRoundTrip(s: string, fn: real -> string, fa: seq<AbstractValue> -> string)
    ensures ToString(FromStr(s), fn, fa) == s
    ensures ToNumber(FromStr(s)).None? && ToBool(FromStr(s)).None?
  {
  }

  /** `Property`: a mutable cell around one value. */
  class Property {
    var value: AbstractValue

    /** `Property::new`. */
    constructor (initial: AbstractValue)
      ensures Get() == initial
    {
      value := initial;
    }

    /** `Property::set` unconditionally overwrites. */
    method Set(newValue: AbstractValue)
      modifies this
      ensures Get() == newValue
    {
      value := newValue;
    }

    /** `Property::get` returns a copy of the stored value. */
    function Get(): (r: AbstractValue)
      reads this
      ensures r == value
    {
      value
    }
  }
}
