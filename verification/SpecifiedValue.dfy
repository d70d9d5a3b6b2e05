/**
  A specified option value, from vlr-util/AppOptionSpecifiedValue.h: a native name and value fixed
  before the value is handed to the store, and three slots that the store fills in.
*/
module SpecifiedValue {
  import opened OptionNames
  import opened Wrappers

  /** The types an option can be converted to. */
  datatype Kind = Text | WideText | Int32 | UInt32 | UInt64 | Double | Bool

  /** The variant of the source, whose first alternative holds nothing. */
  datatype Value =
    | Nothing
    | TextValue(text: string) | WideTextValue(wide: string)
    | Int32Value(int32: int) | UInt32Value(uint32: nat) | UInt64Value(uint64: nat)
    | DoubleValue(double: real) | BoolValue(bool_: bool)
    | BytesValue(bytes: seq<bv8>) | TextsValue(texts: seq<string>)

  function KindOf(v: Value): Option<Kind> {
    match v
    case TextValue(_) => Some(Text)
    case WideTextValue(_) => Some(WideText)
    case Int32Value(_) => Some(Int32)
    case UInt32Value(_) => Some(UInt32)
    case UInt64Value(_) => Some(UInt64)
    case DoubleValue(_) => Some(Double)
    case BoolValue(_) => Some(Bool)
    case _ => None
  }

  /** Conversions are the library's; all that matters here is that they are partial functions. */
  type Conversion = (Value, Kind) -> Option<Value>

  ghost predicate WellTyped(convert: Conversion) {
    forall v, k :: convert(v, k).Some? ==> KindOf(convert(v, k).value) == Some(k)
  }

  /** The value as the requested type: taken as it is if it has that type, else converted. */
  function As(convert: Conversion, v: Value, k: Kind): Option<Value> {
    if KindOf(v) == Some(k) then Some(v) else convert(v, k)
  }

  /** An extracted value has the type asked for, and extracting it again as that type changes nothing. */
  lemma ExtractedHasType(convert: Conversion, v: Value, k: Kind)
    requires WellTyped(convert) && As(convert, v, k).Some?
    ensures KindOf(As(convert, v, k).value) == Some(k)
    ensures As(convert, As(convert, v, k).value, k) == As(convert, v, k)
  {}

  /** If no conversion ever succeeds, exactly the values that hold the type asked for are extracted, as they are. */
  lemma OwnTypeOnly(v: Value, k: Kind)
    ensures As((_, _) => None, v, k) in {Some(v), None}
    ensures As((_, _) => None, v, k) == Some(v) <==>
      || (v.TextValue? && k == Text) || (v.WideTextValue? && k == WideText)
      || (v.Int32Value? && k == Int32) || (v.UInt32Value? && k == UInt32) || (v.UInt64Value? && k == UInt64)
      || (v.DoubleValue? && k == Double) || (v.BoolValue? && k == Bool)
  {}

  datatype Qualifiers = Qualifiers(standardFlags: bv32, appSpecificFlags: bv32)

  class CSpecifiedValue {
    const nativeName: string
    const nativeValue: Value
    var normalizedName: string
    var cachedValue: Value
    var qualifiers: Option<Qualifiers>

    constructor (nativeName: string, nativeValue: Value)
      ensures this.nativeName == nativeName && this.nativeValue == nativeValue
      ensures normalizedName == "" && cachedValue == Nothing && qualifiers == None
    {
      this.nativeName, this.nativeValue := nativeName, nativeValue;
      normalizedName, cachedValue, qualifiers := "", Nothing, None;
    }

    method CheckForOptionMatch(name: string) returns (match_: bool)
      modifies this`normalizedName
      ensures match_ <==> Matches(nativeName, name)
      ensures normalizedName == if match_ then name else old(normalizedName)
    {
      var nameParts := PopulateOptionNameElements(name, 1);
      var nativeParts := PopulateOptionNameElements(nativeName, 2);
      assert Chars(nameParts) == Parts(name) && Chars(nativeParts) == Parts(nativeName);
      match_ := CheckElementsMatch(nativeParts, nameParts);
      if match_ {
        normalizedName := name;
      }
    }

    method CacheOptionValueAs(convert: Conversion, k: Kind) returns (ok: bool)
      modifies this`cachedValue
      ensures ok <==> As(convert, nativeValue, k).Some?
      ensures cachedValue == if ok then As(convert, nativeValue, k).value else old(cachedValue)
    {
      if KindOf(nativeValue) == Some(k) {
        cachedValue := nativeValue;
        return true;
      }
      var converted := convert(nativeValue, k);
      if converted.None? {
        return false;
      }
      cachedValue := converted.value;
      return true;
    }

    /** The conversion without the cache; None stands for any failure. */
    method ExtractOptionValueTo(convert: Conversion, k: Kind) returns (r: Option<Value>)
      ensures r == As(convert, nativeValue, k)
      ensures WellTyped(convert) && r.Some? ==> KindOf(r.value) == Some(k)
    {
      if KindOf(nativeValue) == Some(k) {
        return Some(nativeValue);
      }
      return convert(nativeValue, k);
    }

    /** Copies the cached value if it has the type; otherwise the caller's value stays. */
    method PopulateFromCachedValue(k: Kind, value: Value) returns (ok: bool, result: Value)
      ensures ok <==> KindOf(cachedValue) == Some(k)
      ensures result == if ok then cachedValue else value
    {
      if KindOf(cachedValue) != Some(k) {
        return false, value;
      }
      return true, cachedValue;
    }

    /** The inline read; None stands for the exception it throws. */
    method GetCachedValueInline(k: Kind) returns (r: Option<Value>)
      ensures r == if KindOf(cachedValue) == Some(k) then Some(cachedValue) else None
    {
      if KindOf(cachedValue) == Some(k) {
        return Some(cachedValue);
      }
      return None;
    }
  }

  /**
    Once a value is cached as a type, extraction and both reads of the slot agree. If it has no
    conversion, extraction fails and the reads see what the slot held before.
  */
  method CachedReadsAgree(v: CSpecifiedValue, convert: Conversion, k: Kind, value: Value)
    returns (ok: bool, extracted: Option<Value>, copied: Value, read: Option<Value>)
    requires WellTyped(convert)
    modifies v`cachedValue
    ensures ok <==> extracted.Some?
    ensures ok ==> Some(copied) == read == extracted
    ensures !ok && KindOf(old(v.cachedValue)) == Some(k) ==> Some(copied) == read == Some(old(v.cachedValue))
    ensures !ok && KindOf(old(v.cachedValue)) != Some(k) ==> copied == value && read == None
  {
    ok := v.CacheOptionValueAs(convert, k);
    extracted := v.ExtractOptionValueTo(convert, k);
    var found: bool;
    found, copied := v.PopulateFromCachedValue(k, value);
    read := v.GetCachedValueInline(k);
  }
}
