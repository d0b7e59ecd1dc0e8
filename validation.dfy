/** The request schemas of the resource service (`utils/validation.ts`) as
    functions from a request value to either the normalised value or the
    first error. Joi runs with its defaults: `convert` (so `trim()` rewrites
    the value before it is checked) and `abortEarly` (so only the first
    error is reported). The keys of a schema are checked in the order the
    schema lists them, then unknown keys are refused, then object rules
    such as `min(1)` apply. */
module Validation {
  import opened Wrappers
  import opened JsText
  import opened ResourceTypes

  /** A key of a JSON body or of a query string: missing, a string, or any
      other JSON value (number, boolean, null, array, object). */
  datatype Field = Absent | Text(text: string) | NonText

  /** A number key of the query after Joi's string-to-number conversion:
      missing, a finite number, or a text that is not a number. */
  datatype Number = Missing | Finite(value: real) | NotNumber

  /** A request body: a JSON object with the four known keys and the
      unknown keys in their order, or some other JSON value. */
  datatype Body =
    | Object(name: Field, description: Field, category: Field, status: Field, unknown: seq<string>)
    | NotObject

  /** The query of a list request. */
  datatype Query = Query(
    category: Field,
    status: Field,
    search: Field,
    limit: Number,
    offset: Number,
    unknown: seq<string>)

  /** The three trimmed string keys that carry messages of their own. */
  datatype TextKey = NameKey | DescriptionKey | CategoryKey

  /** The key an error is reported on; `WholeValue` is Joi's label `value`
      for the object itself. */
  datatype Key =
    | Of(field: TextKey)
    | StatusKey
    | SearchKey
    | LimitKey
    | OffsetKey
    | WholeValue
    | UnknownKey(name: string)

  /** The Joi rules whose default message a schema may report. */
  datatype Rule =
    | StringBase | StringMax | AnyOnly
    | ObjectBase | ObjectUnknown | ObjectMin
    | NumberBase | NumberUnsafe | NumberInteger | NumberMin | NumberMax

  /** An error message: one of the schema's own texts (see `CustomText`),
      or Joi's default message for a rule on a key. */
  datatype Message =
    | IsRequired(field: TextKey)
    | CannotBeEmpty(field: TextKey)
    | TooLong(field: TextKey, max: nat)
    | JoiDefault(key: Key, rule: Rule)

  /** The word a key's own messages start with. */
  function Label(k: TextKey): string {
    match k
    case NameKey => NameLabel
    case DescriptionKey => DescriptionLabel
    case CategoryKey => CategoryLabel
  }

  const NameLabel := "Name"
  const DescriptionLabel := "Description"
  const CategoryLabel := "Category"
  const RequiredSuffix := " is required"
  const EmptySuffix := " cannot be empty"
  const TooLongInfix := " must be less than "
  const TooLongSuffix := " characters"

  /** The text of one of the schema's own messages. */
  function CustomText(m: Message): string
    requires !m.JoiDefault?
  {
    var word := Label(m.field);
    match m
    case IsRequired(_) => word + RequiredSuffix
    case CannotBeEmpty(_) => word + EmptySuffix
    case TooLong(_, max) => word + TooLongInfix + Decimal(max) + TooLongSuffix
  }

  /** The decimal texts of the three length bounds. */
  lemma BoundTexts()
    ensures Decimal(255) == "255" && Decimal(1000) == "1000" && Decimal(100) == "100"
  {
    assert Decimal(2) == "2" && Decimal(1) == "1";
    assert Decimal(25) == "25" && Decimal(10) == "10";
  }

  /** The text the body schemas give for a missing name. */
  lemma RequiredText()
    ensures CustomText(IsRequired(NameKey)) == "Name is required"
  {
  }

  /** The text the body schemas give for a blank description. */
  lemma EmptyText()
    ensures CustomText(CannotBeEmpty(DescriptionKey)) == "Description cannot be empty"
  {
  }

  /** The text for a name that is too long, the bound written out. */
  lemma TooLongText()
    ensures CustomText(TooLong(NameKey, 255)) == "Name" + " must be less than " + "255" + " characters"
  {
    BoundTexts();
  }

  /** A trimmed string key: its bounds and whether it is required. A
      required key reports a missing and a blank value alike as "is
      required"; an optional one reports a blank value as "cannot be
      empty". */
  datatype TextRule = TextRule(field: TextKey, max: nat, required: bool)

  const NameOnCreate := TextRule(NameKey, 255, true)
  const DescriptionOnCreate := TextRule(DescriptionKey, 1000, true)
  const CategoryOnCreate := TextRule(CategoryKey, 100, true)
  const NameOnUpdate := TextRule(NameKey, 255, false)
  const DescriptionOnUpdate := TextRule(DescriptionKey, 1000, false)
  const CategoryOnUpdate := TextRule(CategoryKey, 100, false)

  /** The message a blank value gets (`string.empty`). */
  function EmptyMessage(rule: TextRule): (m: Message)
    ensures !m.JoiDefault? && !m.TooLong? && m.field == rule.field
    ensures m.IsRequired? <==> rule.required
  {
    if rule.required then IsRequired(rule.field) else CannotBeEmpty(rule.field)
  }

  /** `Number.MAX_SAFE_INTEGER`. */
  const MaxSafeInteger: int := 0x1F_FFFF_FFFF_FFFF

  /** A string whose trimmed length lies in [1, max]. */
  predicate TextWithin(f: Field, max: nat) {
    f.Text? && 1 <= |Trim(f.text)| <= max
  }

  /** `Joi.string().trim().min(1).max(n)`, required or optional: the
      string is trimmed first, so a blank one is empty. */
  function CheckText(f: Field, rule: TextRule): (r: Result<Option<string>, Message>)
    ensures r.Success? <==> (f.Absent? && !rule.required) || TextWithin(f, rule.max)
    ensures r.Success? ==> r.value == (if f.Text? then Some(Trim(f.text)) else None)
    ensures f.Absent? && rule.required ==> r == Failure(IsRequired(rule.field))
    ensures f.NonText? ==> r == Failure(JoiDefault(Of(rule.field), StringBase))
    ensures f.Text? && AllWhitespace(f.text) ==> r == Failure(EmptyMessage(rule))
    ensures f.Text? && |Trim(f.text)| > rule.max ==> r == Failure(TooLong(rule.field, rule.max))
  {
    match f
    case Absent =>
      if rule.required then Failure(IsRequired(rule.field)) else Success(None)
    case NonText => Failure(JoiDefault(Of(rule.field), StringBase))
    case Text(s) =>
      var t := Trim(s);
      if t == [] then Failure(EmptyMessage(rule))
      else if |t| > rule.max then Failure(TooLong(rule.field, rule.max))
      else Success(Some(t))
  }

  /** The value a string key normalises to passes the same key unchanged:
      trimming is done once and for all. */
  lemma CheckTextStable(f: Field, rule: TextRule)
    requires CheckText(f, rule).Success? && f.Text?
    ensures CheckText(Text(Trim(f.text)), rule) == CheckText(f, rule)
  {
    TrimIdempotent(f.text);
  }

  /** `Joi.string().valid('active', 'inactive')`: a missing key is allowed;
      anything but the two texts (untrimmed) fails with `any.only`. */
  function CheckStatus(f: Field): (r: Result<Option<Status>, Message>)
    ensures r.Success? <==> f.Absent? || (f.Text? && ParseStatus(f.text).Some?)
    ensures r.Success? && f.Text? ==> r.value.Some? && StatusText(r.value.value) == f.text
    ensures r.Success? && f.Absent? ==> r.value.None?
    ensures r.Failure? ==> r.error == JoiDefault(StatusKey, AnyOnly)
  {
    match f
    case Absent => Success(None)
    case NonText => Failure(JoiDefault(StatusKey, AnyOnly))
    case Text(s) =>
      var st := ParseStatus(s);
      if st.Some? then Success(st) else Failure(JoiDefault(StatusKey, AnyOnly))
  }

  /** The status a create request asks for (`active` when it is missing). */
  predicate StatusAllowed(f: Field) {
    f.Absent? || (f.Text? && ParseStatus(f.text).Some?)
  }

  /** `createResourceSchema.validate(body)`. */
  function ValidateCreate(body: Body): (r: Result<CreateResourceInput, Message>)
    ensures body.NotObject? ==> r == Failure(JoiDefault(WholeValue, ObjectBase))
    ensures r.Success? <==>
      && body.Object?
      && TextWithin(body.name, 255)
      && TextWithin(body.description, 1000)
      && TextWithin(body.category, 100)
      && StatusAllowed(body.status)
      && body.unknown == []
    ensures r.Success? ==>
      && r.value.name == Trim(body.name.text)
      && r.value.description == Trim(body.description.text)
      && r.value.category == Trim(body.category.text)
      && r.value.status == Some(if body.status.Absent? then Active else ParseStatus(body.status.text).value)
    ensures body.Object? && CheckText(body.name, NameOnCreate).Failure? ==>
      r == Failure(CheckText(body.name, NameOnCreate).error)
    ensures (body.Object? && TextWithin(body.name, 255) &&
             CheckText(body.description, DescriptionOnCreate).Failure?) ==>
      r == Failure(CheckText(body.description, DescriptionOnCreate).error)
    ensures (body.Object? && TextWithin(body.name, 255) && TextWithin(body.description, 1000) &&
             CheckText(body.category, CategoryOnCreate).Failure?) ==>
      r == Failure(CheckText(body.category, CategoryOnCreate).error)
    ensures (body.Object? && TextWithin(body.name, 255) && TextWithin(body.description, 1000) &&
             TextWithin(body.category, 100) && StatusAllowed(body.status) && body.unknown != []) ==>
      r == Failure(JoiDefault(UnknownKey(body.unknown[0]), ObjectUnknown))
  {
    match body
    case NotObject => Failure(JoiDefault(WholeValue, ObjectBase))
    case Object(name, description, category, status, unknown) =>
      var n := CheckText(name, NameOnCreate);
      if n.Failure? then Failure(n.error) else
      var d := CheckText(description, DescriptionOnCreate);
      if d.Failure? then Failure(d.error) else
      var c := CheckText(category, CategoryOnCreate);
      if c.Failure? then Failure(c.error) else
      var s := CheckStatus(status);
      if s.Failure? then Failure(s.error) else
      if unknown != [] then Failure(JoiDefault(UnknownKey(unknown[0]), ObjectUnknown)) else
      Success(CreateResourceInput(n.value.value, d.value.value, c.value.value,
        Some(if s.value.Some? then s.value.value else Active)))
  }

  /** The body a client sends for a create input. */
  function CreateBody(input: CreateResourceInput): Body {
    Object(Text(input.name), Text(input.description), Text(input.category),
      if input.status.Some? then Text(StatusText(input.status.value)) else Absent, [])
  }

  /** Validation is a normaliser: sending the validated value again is
      accepted and gives the same value back. */
  lemma {:induction false} ValidateCreateStable(body: Body)
    requires ValidateCreate(body).Success?
    ensures ValidateCreate(CreateBody(ValidateCreate(body).value)) == ValidateCreate(body)
  {
    var v := ValidateCreate(body).value;
    TrimIdempotent(body.name.text);
    TrimIdempotent(body.description.text);
    TrimIdempotent(body.category.text);
    StatusRoundTrip(v.status.value, []);
  }

  /** Once a key fails, nothing after it matters: the name's error is the
      answer whatever the other keys hold. */
  lemma NameErrorFirst(body: Body, other: Body)
    requires body.Object? && other.Object? && other.name == body.name
    requires CheckText(body.name, NameOnCreate).Failure?
    ensures ValidateCreate(other) == ValidateCreate(body)
  {
  }

  /** An optional trimmed string key of the update schema. */
  predicate OptionalTextWithin(f: Field, max: nat) {
    f.Absent? || TextWithin(f, max)
  }

  /** The body carries none of the four keys. */
  predicate NoKeys(body: Body)
    requires body.Object?
  {
    body.name.Absent? && body.description.Absent? && body.category.Absent? && body.status.Absent?
  }

  /** `updateResourceSchema.validate(body)`: every key optional with the
      create bounds, no unknown key, and at least one key. */
  function ValidateUpdate(body: Body): (r: Result<UpdateResourceInput, Message>)
    ensures body.NotObject? ==> r == Failure(JoiDefault(WholeValue, ObjectBase))
    ensures r.Success? <==>
      && body.Object?
      && OptionalTextWithin(body.name, 255)
      && OptionalTextWithin(body.description, 1000)
      && OptionalTextWithin(body.category, 100)
      && StatusAllowed(body.status)
      && body.unknown == []
      && !NoKeys(body)
    ensures r.Success? ==>
      && !NoFields(r.value)
      && r.value.name == (if body.name.Text? then Some(Trim(body.name.text)) else None)
      && r.value.description == (if body.description.Text? then Some(Trim(body.description.text)) else None)
      && r.value.category == (if body.category.Text? then Some(Trim(body.category.text)) else None)
      && r.value.status == (if body.status.Text? then ParseStatus(body.status.text) else None)
    ensures body.Object? && CheckText(body.name, NameOnUpdate).Failure? ==>
      r == Failure(CheckText(body.name, NameOnUpdate).error)
    ensures body.Object? && body.unknown == [] && NoKeys(body) ==>
      r == Failure(JoiDefault(WholeValue, ObjectMin))
    ensures (body.Object? && OptionalTextWithin(body.name, 255) &&
             OptionalTextWithin(body.description, 1000) && OptionalTextWithin(body.category, 100) &&
             StatusAllowed(body.status) && body.unknown != []) ==>
      r == Failure(JoiDefault(UnknownKey(body.unknown[0]), ObjectUnknown))
  {
    match body
    case NotObject => Failure(JoiDefault(WholeValue, ObjectBase))
    case Object(name, description, category, status, unknown) =>
      var n := CheckText(name, NameOnUpdate);
      if n.Failure? then Failure(n.error) else
      var d := CheckText(description, DescriptionOnUpdate);
      if d.Failure? then Failure(d.error) else
      var c := CheckText(category, CategoryOnUpdate);
      if c.Failure? then Failure(c.error) else
      var s := CheckStatus(status);
      if s.Failure? then Failure(s.error) else
      if unknown != [] then Failure(JoiDefault(UnknownKey(unknown[0]), ObjectUnknown)) else
      var input := UpdateResourceInput(n.value, d.value, c.value, s.value);
      if NoFields(input) then Failure(JoiDefault(WholeValue, ObjectMin)) else Success(input)
  }

  /** `Joi.string().allow('').max(n)` without trimming. */
  predicate TextAtMost(f: Field, max: nat) {
    f.Absent? || (f.Text? && |f.text| <= max)
  }

  function CheckFilterText(f: Field, key: Key, max: nat): (r: Result<Option<string>, Message>)
    ensures r.Success? <==> TextAtMost(f, max)
    ensures r.Success? ==> r.value == (if f.Text? then Some(f.text) else None)
    ensures f.NonText? ==> r == Failure(JoiDefault(key, StringBase))
    ensures f.Text? && |f.text| > max ==> r == Failure(JoiDefault(key, StringMax))
  {
    match f
    case Absent => Success(None)
    case NonText => Failure(JoiDefault(key, StringBase))
    case Text(s) => if |s| > max then Failure(JoiDefault(key, StringMax)) else Success(Some(s))
  }

  /** The status filter: missing, empty, `active` or `inactive`. */
  predicate StatusFilterAllowed(f: Field) {
    f.Absent? || (f.Text? && (f.text == [] || ParseStatus(f.text).Some?))
  }

  function CheckStatusFilter(f: Field): (r: Result<Option<string>, Message>)
    ensures r.Success? <==> StatusFilterAllowed(f)
    ensures r.Success? ==> r.value == (if f.Text? then Some(f.text) else None)
    ensures r.Failure? ==> r.error == JoiDefault(StatusKey, AnyOnly)
  {
    match f
    case Absent => Success(None)
    case NonText => Failure(JoiDefault(StatusKey, AnyOnly))
    case Text(s) =>
      if s == [] || ParseStatus(s).Some? then Success(Some(s))
      else Failure(JoiDefault(StatusKey, AnyOnly))
  }

  /** `Number.isSafeInteger`. */
  predicate IsSafeInteger(v: real) {
    v.Floor as real == v && -MaxSafeInteger <= v.Floor <= MaxSafeInteger
  }

  /** A number key that is missing, or a safe integer within the bounds. */
  predicate IntegerIn(n: Number, min: int, max: Option<int>) {
    n.Missing? ||
    (n.Finite? && IsSafeInteger(n.value) && min <= n.value.Floor &&
     (max.Some? ==> n.value.Floor <= max.value))
  }

  /** `Joi.number().integer().min(lo).max(hi).default(d)`: the checks run
      in the order type, safe range, integer, minimum, maximum. */
  function CheckInteger(n: Number, key: Key, min: int, max: Option<int>, default: int): (r: Result<int, Message>)
    ensures r.Success? <==> IntegerIn(n, min, max)
    ensures n.Missing? ==> r == Success(default)
    ensures r.Success? && n.Finite? ==> r.value as real == n.value
    ensures n.NotNumber? ==> r == Failure(JoiDefault(key, NumberBase))
  {
    match n
    case Missing => Success(default)
    case NotNumber => Failure(JoiDefault(key, NumberBase))
    case Finite(v) =>
      if v > MaxSafeInteger as real || v < -MaxSafeInteger as real then Failure(JoiDefault(key, NumberUnsafe))
      else if v.Floor as real != v then Failure(JoiDefault(key, NumberInteger))
      else if v.Floor < min then Failure(JoiDefault(key, NumberMin))
      else if max.Some? && v.Floor > max.value then Failure(JoiDefault(key, NumberMax))
      else Success(v.Floor)
  }

  const DefaultLimit: int := 20
  const MaxLimit: int := 100
  const DefaultOffset: int := 0

  /** `resourceFiltersSchema.validate(query)`. */
  function ValidateFilters(q: Query): (r: Result<ResourceFilters, Message>)
    ensures r.Success? <==>
      && TextAtMost(q.category, 100)
      && StatusFilterAllowed(q.status)
      && TextAtMost(q.search, 255)
      && IntegerIn(q.limit, 1, Some(MaxLimit))
      && IntegerIn(q.offset, 0, None)
      && q.unknown == []
    ensures r.Success? ==>
      && r.value.limit.Some? && 1 <= r.value.limit.value <= MaxLimit
      && r.value.offset.Some? && 0 <= r.value.offset.value
      && (q.limit.Missing? ==> r.value.limit.value == DefaultLimit)
      && (q.limit.Finite? ==> r.value.limit.value as real == q.limit.value)
      && (q.offset.Missing? ==> r.value.offset.value == DefaultOffset)
      && (q.offset.Finite? ==> r.value.offset.value as real == q.offset.value)
      && r.value.category == (if q.category.Text? then Some(q.category.text) else None)
      && r.value.status == (if q.status.Text? then Some(q.status.text) else None)
      && r.value.search == (if q.search.Text? then Some(q.search.text) else None)
  {
    var c := CheckFilterText(q.category, Of(CategoryKey), 100);
    if c.Failure? then Failure(c.error) else
    var s := CheckStatusFilter(q.status);
    if s.Failure? then Failure(s.error) else
    var t := CheckFilterText(q.search, SearchKey, 255);
    if t.Failure? then Failure(t.error) else
    var l := CheckInteger(q.limit, LimitKey, 1, Some(MaxLimit), DefaultLimit);
    if l.Failure? then Failure(l.error) else
    var o := CheckInteger(q.offset, OffsetKey, 0, None, DefaultOffset);
    if o.Failure? then Failure(o.error) else
    if q.unknown != [] then Failure(JoiDefault(UnknownKey(q.unknown[0]), ObjectUnknown)) else
    Success(ResourceFilters(c.value, s.value, t.value, Some(l.value), Some(o.value)))
  }

  /** The empty query is accepted and asks for the first 20 rows. */
  lemma EmptyQueryDefaults()
    ensures var r := ValidateFilters(Query(Absent, Absent, Absent, Missing, Missing, []));
      r == Success(ResourceFilters(None, None, None, Some(20), Some(0)))
  {
  }

  // ---------------------------------------------------------------------
  // Path ids: `parseInt(req.params.id || '')` followed by
  // `Joi.number().integer().min(1).required()`.

  /** The value of `c` as a digit of `radix` (10 or 16), if it is one. */
  function DigitValue(c: char, radix: nat): (v: Option<nat>)
    requires radix == 10 || radix == 16
    ensures v.Some? ==> v.value < radix
    ensures IsDigit(c) ==> v == Some(c as int - '0' as int)
  {
    if '0' <= c <= '9' then Some(c as int - '0' as int)
    else if radix == 16 && 'a' <= c <= 'f' then Some(c as int - 'a' as int + 10)
    else if radix == 16 && 'A' <= c <= 'F' then Some(c as int - 'A' as int + 10)
    else None
  }

  predicate AllRadixDigits(s: string, radix: nat)
    requires radix == 10 || radix == 16
  {
    forall k :: 0 <= k < |s| ==> DigitValue(s[k], radix).Some?
  }

  /** The longest prefix of `s` made of digits of `radix`. */
  function DigitPrefix(s: string, radix: nat): (r: string)
    requires radix == 10 || radix == 16
    ensures |r| <= |s| && r == s[..|r|]
    ensures AllRadixDigits(r, radix)
    ensures |r| < |s| ==> DigitValue(s[|r|], radix).None?
  {
    if s == [] || DigitValue(s[0], radix).None? then []
    else [s[0]] + DigitPrefix(s[1..], radix)
  }

  /** The number written by `d`, most significant digit first. */
  function DigitsValue(d: string, radix: nat): nat
    requires radix == 10 || radix == 16
    requires AllRadixDigits(d, radix)
  {
    if d == [] then 0
    else DigitsValue(d[..|d| - 1], radix) * radix + DigitValue(d[|d| - 1], radix).value
  }

  /** The number after the sign: `0x`/`0X` switches to hexadecimal, then
      the longest run of digits is read; `None` when there is none. */
  function ParseUnsigned(u: string): Option<nat> {
    var hex := |u| >= 2 && u[0] == '0' && (u[1] == 'x' || u[1] == 'X');
    var radix := if hex then 16 else 10;
    var digits := DigitPrefix(if hex then u[2..] else u, radix);
    if digits == [] then None else Some(DigitsValue(digits, radix))
  }

  /** `parseInt(s)` without a radix: leading whitespace is skipped and one
      sign is read before the number; `None` is NaN. */
  function ParseInt(s: string): Option<int> {
    var t := TrimStart(s);
    if t != [] && (t[0] == '-' || t[0] == '+') then
      match ParseUnsigned(t[1..])
      case None => None
      case Some(v) => var i: int := v; Some(if t[0] == '-' then -i else i)
    else
      match ParseUnsigned(t)
      case None => None
      case Some(v) => Some(v)
  }

  /** The decimal text of `n` (`String(n)` for a safe integer). */
  function Decimal(n: nat): (r: string)
    ensures r != [] && AllDigits(r)
    ensures n > 0 ==> r[0] != '0'
  {
    var last := [('0' as int + n % 10) as char];
    if n < 10 then last else Decimal(n / 10) + last
  }

  lemma {:induction false} DecimalValue(n: nat)
    ensures AllRadixDigits(Decimal(n), 10)
    ensures DigitsValue(Decimal(n), 10) == n
  {
    var d := Decimal(n);
    if n >= 10 {
      DecimalValue(n / 10);
      assert d[..|d| - 1] == Decimal(n / 10);
    }
  }

  /** Whitespace before a text that does not start with whitespace is
      exactly what `TrimStart` removes. */
  lemma {:induction false} TrimStartPrefix(pre: string, s: string)
    requires AllWhitespace(pre)
    requires s != [] && !IsWhitespace(s[0])
    ensures TrimStart(pre + s) == s
  {
    if pre == [] {
      assert pre + s == s;
    } else {
      assert (pre + s)[1..] == pre[1..] + s;
      TrimStartPrefix(pre[1..], s);
    }
  }

  /** The run of decimal digits stops where the digits of `d` end. */
  lemma {:induction false} DigitPrefixStops(d: string, post: string)
    requires AllDigits(d)
    requires post == [] || !IsDigit(post[0])
    ensures DigitPrefix(d + post, 10) == d
  {
    if d == [] {
      assert d + post == post;
    } else {
      assert (d + post)[1..] == d[1..] + post;
      DigitPrefixStops(d[1..], post);
    }
  }

  /** The digits of `n` followed by text that is not a digit read back as
      `n` (unless `0x` starts a hexadecimal number). */
  lemma UnsignedDecimal(n: nat, post: string)
    requires post == [] || (!IsDigit(post[0]) && (n == 0 ==> post[0] != 'x' && post[0] != 'X'))
    ensures ParseUnsigned(Decimal(n) + post) == Some(n)
  {
    var d := Decimal(n);
    var u := d + post;
    assert u[0] == d[0];
    assert |u| >= 2 && u[0] == '0' ==> u[1] == post[0] by {
      if |u| >= 2 && u[0] == '0' {
        assert |d| == 1;
        assert u[1] == post[0];
      }
    }
    DecimalValue(n);
    DigitPrefixStops(d, post);
  }

  /** `parseInt` reads back the decimal text of a number, after any
      leading whitespace and before any text that is not a digit. */
  lemma ParseIntDecimal(pre: string, n: nat, post: string)
    requires AllWhitespace(pre)
    requires post == [] || (!IsDigit(post[0]) && (n == 0 ==> post[0] != 'x' && post[0] != 'X'))
    ensures ParseInt(pre + Decimal(n) + post) == Some(n)
  {
    var d := Decimal(n);
    assert pre + d + post == pre + (d + post);
    assert (d + post)[0] == d[0];
    TrimStartPrefix(pre, d + post);
    UnsignedDecimal(n, post);
    ParseIntOfDigit(pre + (d + post));
  }

  /** Text that starts with a digit after the whitespace has no sign. */
  lemma ParseIntOfDigit(s: string)
    requires TrimStart(s) != [] && IsDigit(TrimStart(s)[0])
    requires ParseUnsigned(TrimStart(s)).Some?
    ensures ParseInt(s) == Some(ParseUnsigned(TrimStart(s)).value)
  {
  }

  /** `parseInt('')` is NaN. */
  lemma ParseIntEmpty()
    ensures ParseInt([]).None?
  {
    assert TrimStart([]) == [];
    assert DigitPrefix([], 10) == [];
  }

  /** The id of a path: `Some` exactly when `parseInt` yields an integer
      from 1 to `Number.MAX_SAFE_INTEGER` (a larger one is unsafe, NaN is
      not a number). */
  function ValidateId(param: string): (r: Option<int>)
    ensures r.Some? <==> ParseInt(param).Some? && 1 <= ParseInt(param).value <= MaxSafeInteger
    ensures r.Some? ==> r.value == ParseInt(param).value
  {
    var n := ParseInt(param);
    if n.Some? && 1 <= n.value <= MaxSafeInteger then n else None
  }

  /** Every id the service hands out, written in decimal, is accepted
      back as itself; `0`, a minus sign and the empty path are refused. */
  lemma ValidateIdDecimal(n: nat)
    ensures 1 <= n <= MaxSafeInteger ==> ValidateId(Decimal(n)) == Some(n)
    ensures ValidateId(Decimal(0)).None?
    ensures ValidateId(['-'] + Decimal(n)).None?
    ensures ValidateId([]).None?
  {
    DecimalAlone(n);
    DecimalAlone(0);
    NegativeDecimal(n);
    ParseIntEmpty();
  }

  /** `parseInt(String(n)) == n`. */
  lemma DecimalAlone(n: nat)
    ensures ParseInt(Decimal(n)) == Some(n)
  {
    ParseIntDecimal([], n, []);
    assert [] + Decimal(n) + [] == Decimal(n);
  }

  /** A minus sign before the digits of `n` reads as `-n`. */
  lemma NegativeDecimal(n: nat)
    ensures ParseInt(['-'] + Decimal(n)).Some? && ParseInt(['-'] + Decimal(n)).value + n == 0
  {
    var s := ['-'] + Decimal(n);
    assert TrimStart(s) == s;
    assert s[1..] == Decimal(n) + [];
    UnsignedDecimal(n, []);
  }
}
