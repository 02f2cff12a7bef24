/**
 * `utils::from_str` as the `SOC` field of `MixStatus` uses it: the field must
 * be a JSON string, and the string is read by Rust's `u32::from_str`.
 */
module DecimalU32 {
  import opened Wrappers
  import opened Json

  const U32Max: nat := 0xffff_ffff

  /** The `IntErrorKind`s that `u32::from_str` can report. */
  datatype IntErrorKind = Empty | InvalidDigit | PosOverflow

  predicate IsDigit(c: char) {
    '0' <= c <= '9'
  }

  function DigitValue(c: char): nat
    requires IsDigit(c)
  {
    (c as int - '0' as int) as nat
  }

  predicate AllDigits(ds: string) {
    forall i :: 0 <= i < |ds| ==> IsDigit(ds[i])
  }

  /** The number that `acc` followed by the decimal digits `ds` denotes (no width limit). */
  function ValueFrom(acc: nat, ds: string): nat
    requires AllDigits(ds)
    decreases |ds|
  {
    if ds == [] then acc else ValueFrom(acc * 10 + DigitValue(ds[0]), ds[1..])
  }

  /** The digits after an optional leading `+`. */
  function Unsigned(s: string): string {
    if |s| > 0 && s[0] == '+' then s[1..] else s
  }

  /** The strings `u32::from_str` accepts: optional `+`, one or more digits, a value that fits in 32 bits. */
  predicate IsU32Text(s: string) {
    var ds := Unsigned(s);
    |ds| > 0 && AllDigits(ds) && ValueFrom(0, ds) <= U32Max
  }

  /**
   * The digit loop of `from_str_radix`: per character, a non-digit is
   * `InvalidDigit` before the multiplication by 10 or the addition can overflow.
   */
  function Accumulate(ds: string, acc: nat): (r: Result<nat, IntErrorKind>)
    requires acc <= U32Max
    ensures r.Ok? <==> AllDigits(ds) && ValueFrom(acc, ds) <= U32Max
    ensures r.Ok? ==> r.value == ValueFrom(acc, ds)
    ensures r.Err? ==> r.error != Empty
    decreases |ds|
  {
    if ds == [] then Ok(acc)
    else if !IsDigit(ds[0]) then Err(InvalidDigit)
    else if acc * 10 > U32Max then
      ValueFromAtLeast(acc * 10 + DigitValue(ds[0]), ds[1..]);
      Err(PosOverflow)
    else if acc * 10 + DigitValue(ds[0]) > U32Max then
      ValueFromAtLeast(acc * 10 + DigitValue(ds[0]), ds[1..]);
      Err(PosOverflow)
    else Accumulate(ds[1..], acc * 10 + DigitValue(ds[0]))
  }

  lemma {:induction false} ValueFromAtLeast(acc: nat, ds: string)
    ensures AllDigits(ds) ==> ValueFrom(acc, ds) >= acc
    decreases |ds|
  {
    if ds != [] && AllDigits(ds) {
      assert AllDigits(ds[1..]) by { assert forall i :: 0 <= i < |ds| - 1 ==> ds[1..][i] == ds[i + 1]; }
      ValueFromAtLeast(acc * 10 + DigitValue(ds[0]), ds[1..]);
    }
  }

  /**
   * `u32::from_str`: the empty string is `Empty`, a lone sign is `InvalidDigit`,
   * a leading `+` is skipped (a `-` is just an invalid digit), then the digit loop.
   */
  function ParseU32(s: string): (r: Result<nat, IntErrorKind>)
    ensures r.Ok? <==> IsU32Text(s)
    ensures r.Ok? ==> r.value == ValueFrom(0, Unsigned(s)) && r.value <= U32Max
    ensures r == Err(Empty) <==> s == ""
  {
    if |s| == 0 then Err(Empty)
    else if s == "+" || s == "-" then Err(InvalidDigit)
    else Accumulate(Unsigned(s), 0)
  }

  /** The shortest decimal text of `n`. */
  function Decimal(n: nat): (ds: string)
    ensures |ds| > 0 && AllDigits(ds)
  {
    if n < 10 then ['0' + n as char] else Decimal(n / 10) + ['0' + (n % 10) as char]
  }

  lemma {:induction false} ValueFromSnoc(acc: nat, ds: string, c: char)
    requires AllDigits(ds) && IsDigit(c)
    ensures AllDigits(ds + [c])
    ensures ValueFrom(acc, ds + [c]) == ValueFrom(acc, ds) * 10 + DigitValue(c)
    decreases |ds|
  {
    if ds == [] {
      assert [] + [c] == [c];
    } else {
      assert (ds + [c])[1..] == ds[1..] + [c];
      ValueFromSnoc(acc * 10 + DigitValue(ds[0]), ds[1..], c);
    }
  }

  lemma {:induction false} DecimalValue(n: nat)
    ensures ValueFrom(0, Decimal(n)) == n
  {
    if n >= 10 {
      DecimalValue(n / 10);
      ValueFromSnoc(0, Decimal(n / 10), '0' + (n % 10) as char);
    }
  }

  /** Every 32-bit value comes back from its decimal text, with or without a `+`. */
  lemma DecimalRoundTrip(n: nat)
    requires n <= U32Max
    ensures ParseU32(Decimal(n)) == Ok(n)
    ensures ParseU32("+" + Decimal(n)) == Ok(n)
  {
    DecimalValue(n);
    assert Unsigned("+" + Decimal(n)) == Decimal(n);
  }

  /** The decimal text of a value past 2^32 - 1 is an overflow, not a wrapped or clamped value. */
  lemma DecimalOverflow(n: nat)
    requires n > U32Max
    ensures ParseU32(Decimal(n)) == Err(PosOverflow)
  {
    DecimalValue(n);
    var ds := Decimal(n);
    assert Unsigned(ds) == ds by { assert IsDigit(ds[0]); }
    AccumulateOverflow(ds, 0);
  }

  lemma {:induction false} AccumulateOverflow(ds: string, acc: nat)
    requires acc <= U32Max && AllDigits(ds) && ValueFrom(acc, ds) > U32Max
    ensures Accumulate(ds, acc) == Err(PosOverflow)
    decreases |ds|
  {
    if ds != [] && acc * 10 + DigitValue(ds[0]) <= U32Max {
      AccumulateOverflow(ds[1..], acc * 10 + DigitValue(ds[0]));
    }
  }

  /** Errors raised while decoding the `SOC` field of a `MixStatus` record. */
  datatype DecodeError =
    | InvalidType              // neither an object nor an array, or `SOC` is not a JSON string
    | MissingField(name: string)
    | InvalidLength(len: nat)  // an array too short to reach the `SOC` position
    | Custom(kind: IntErrorKind)  // the `u32::from_str` error, via `de::Error::custom`

  /**
   * Where the derived `Deserialize` of `MixStatus` finds `SOC`: the member of
   * that name of an object, or the second element of an array, which is read
   * by position with the skipped `when` taking no place (`chargePower` is
   * first).
   */
  const SocPosition: nat := 1

  /**
   * The `SOC` field of `MixStatus`: `String::deserialize` of the member, then
   * `u32::from_str`. Any failure is an error for the whole record.
   */
  function DecodeSoc(payload: Json): (r: Result<nat, DecodeError>)
    ensures payload.Object? ==>
      (r.Ok? <==> "SOC" in payload.fields && payload.fields["SOC"].Str? && IsU32Text(payload.fields["SOC"].s))
    ensures payload.Object? && r.Ok? ==> r.value == ValueFrom(0, Unsigned(payload.fields["SOC"].s))
    ensures payload.Object? && "SOC" !in payload.fields ==> r == Err(MissingField("SOC"))
    ensures payload.Array? ==>
      (r.Ok? <==> SocPosition < |payload.items| && payload.items[SocPosition].Str?
                  && IsU32Text(payload.items[SocPosition].s))
    ensures payload.Array? && r.Ok? ==> r.value == ValueFrom(0, Unsigned(payload.items[SocPosition].s))
    ensures payload.Array? && |payload.items| <= SocPosition ==> r == Err(InvalidLength(|payload.items|))
    ensures !payload.Object? && !payload.Array? ==> r == Err(InvalidType)
    ensures r.Ok? ==> r.value <= U32Max
  {
    match payload
    case Object(fields) =>
      if "SOC" !in fields then Err(MissingField("SOC")) else SocText(fields["SOC"])
    case Array(items) =>
      if |items| <= SocPosition then Err(InvalidLength(|items|)) else SocText(items[SocPosition])
    case _ => Err(InvalidType)
  }

  /** `utils::from_str` on one member: it must be a JSON string, read by `u32::from_str`. */
  function SocText(v: Json): (r: Result<nat, DecodeError>)
    ensures r.Ok? <==> v.Str? && IsU32Text(v.s)
    ensures r.Ok? ==> r.value == ValueFrom(0, Unsigned(v.s)) && r.value <= U32Max
    ensures !v.Str? ==> r == Err(InvalidType)
    ensures v.Str? && r.Err? ==> r.error.Custom? && r.error.kind == ParseU32(v.s).error
  {
    match v
    case Str(s) =>
      (match ParseU32(s)
       case Ok(n) => Ok(n)
       case Err(kind) => Err(Custom(kind)))
    case _ => Err(InvalidType)
  }

  /** Example: the text "42" is the value 42. */
  lemma SocFortyTwo()
    ensures DecodeSoc(Object(map["SOC" := Str("42")])) == Ok(42)
  {
    assert Decimal(42) == "42";
    DecimalRoundTrip(42);
  }

  /** Text that is not a number is an error for the record, not a default of 0. */
  lemma SocNotANumber()
    ensures DecodeSoc(Object(map["SOC" := Str("abc")])) == Err(Custom(InvalidDigit))
  {
  }

  /** 2^32 does not fit: an overflow error. */
  lemma SocOutOfRange()
    ensures DecodeSoc(Object(map["SOC" := Str("4294967296")])) == Err(Custom(PosOverflow))
  {
    ParseOverflowExample();
    var payload := Object(map["SOC" := Str("4294967296")]);
    assert payload.fields["SOC"] == Str("4294967296");
  }

  lemma ParseOverflowExample()
    ensures ParseU32("4294967296") == Err(PosOverflow)
  {
    TwoToThe32Text();
    AccumulateOverflow("4294967296", 0);
  }

  /** The text "4294967296" is all digits and denotes 2^32. */
  lemma TwoToThe32Text()
    ensures AllDigits("4294967296") && ValueFrom(0, "4294967296") == U32Max + 1
  {
    var ds := "4294967296";
    assert AllDigits(ds);
    assert ds[0] == '4' && ds[1..] == "294967296";
    assert ValueFrom(0, ds) == ValueFrom(4, "294967296");
    TwoToThe32Tail();
  }

  /** The same text after its first digit, read on from the accumulated 4. */
  lemma TwoToThe32Tail()
    ensures AllDigits("294967296") && ValueFrom(4, "294967296") == U32Max + 1
  {
    assert AllDigits("294967296");
  }

  /** A JSON number, or a null payload, is the wrong type. */
  lemma SocWrongType()
    ensures DecodeSoc(Object(map["SOC" := Int(42)])) == Err(InvalidType)
    ensures DecodeSoc(Null) == Err(InvalidType)
  {
  }

  /** Example: a record sent as an array of its ten fields in order has its `SOC` second. */
  lemma SocFromArray()
    ensures DecodeSoc(Array([Float("0.5"), Str("42"), Int(120), Str("310.5"), Int(0), Int(0),
                             Int(0), Str("230.1"), Str("52.0"), Str("300.2")])) == Ok(42)
  {
    SocFortyTwo();
  }

  /** An array with no element in the `SOC` position is a length error. */
  lemma SocArrayTooShort()
    ensures DecodeSoc(Array([Float("0.5")])) == Err(InvalidLength(1))
    ensures DecodeSoc(Array([])) == Err(InvalidLength(0))
  {
  }
}
