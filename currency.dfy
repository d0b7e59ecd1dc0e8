/** Amount strings of the currency-swap form: `formatAmount` normalises
    what the user types into digits with thousands separators and at most
    one decimal point; `validateAmount` reports the first rule an amount
    breaks; `parseAmount` strips the separators before parsing. */
module Currency {
  import opened JsText
  import opened Wrappers

  // ---------------------------------------------------------------------
  // formatAmount

  /** `value.replace(/[^\d.]/g, '')`: keeps ASCII digits and dots only. */
  function Clean(value: string): (r: string)
    ensures DigitsOrDots(r)
  {
    if value == [] then []
    else (if IsDigit(value[0]) || value[0] == '.' then [value[0]] else []) + Clean(value[1..])
  }

  /** Lines 14-17: split at the dots and, when there are several, glue all
      parts after the first back together behind a single dot. */
  function SingleDot(cleaned: string): string {
    var parts := Split(cleaned, '.');
    if |parts| > 2 then parts[0] + "." + Concat(parts[1..]) else cleaned
  }

  /** Cleaning works character by character: the cleaned text of a
      concatenation is the concatenation of the cleaned texts. */
  lemma {:induction false} CleanAppend(a: string, b: string)
    ensures Clean(a + b) == Clean(a) + Clean(b)
  {
    if a == [] {
      assert a + b == b;
    } else {
      var h := if IsDigit(a[0]) || a[0] == '.' then [a[0]] else [];
      assert (a + b)[0] == a[0];
      assert (a + b)[1..] == a[1..] + b;
      assert Clean(a + b) == h + Clean(a[1..] + b);
      CleanAppend(a[1..], b);
      assert Clean(a) == h + Clean(a[1..]);
    }
  }

  /** A single character is kept exactly when it is an ASCII digit or a dot. */
  lemma CleanChar(c: char)
    ensures Clean([c]) == (if IsDigit(c) || c == '.' then [c] else [])
  {
  }

  /** Reference reading of "only allow one decimal point": the text up to and
      including the first dot, followed by the rest with its dots deleted. */
  function KeepFirstDot(s: string): (r: string)
    ensures Count(r, '.') <= 1
    ensures '.' in s <==> '.' in r
  {
    if '.' in s then
      var b, a := BeforeFirst(s, '.'), AfterFirst(s, '.');
      CountAppend(b + ".", Remove(a, '.'), '.');
      CountAppend(b, ".", '.');
      b + "." + Remove(a, '.')
    else s
  }

  /** Text made of ASCII digits and dots only. */
  predicate DigitsOrDots(s: string) {
    forall k :: 0 <= k < |s| ==> IsDigit(s[k]) || s[k] == '.'
  }

  lemma {:induction false} RemoveDigitsOrDots(s: string, c: char)
    requires DigitsOrDots(s)
    ensures DigitsOrDots(Remove(s, c))
  {
    if s != [] {
      RemoveDigitsOrDots(s[1..], c);
    }
  }

  /** Keeping the first dot of digits and dots leaves digits and dots. */
  lemma KeepFirstDotChars(s: string)
    requires DigitsOrDots(s)
    ensures DigitsOrDots(KeepFirstDot(s))
  {
    if '.' in s {
      var b, a := BeforeFirst(s, '.'), AfterFirst(s, '.');
      FirstSeparatorSplits(s, '.');
      assert DigitsOrDots(a) by {
        forall j | 0 <= j < |a| ensures IsDigit(a[j]) || a[j] == '.' {
          assert s[|b| + 1 + j] == a[j];
        }
      }
      RemoveDigitsOrDots(a, '.');
      var t := Remove(a, '.');
      var r := b + "." + t;
      forall k | 0 <= k < |r| ensures IsDigit(r[k]) || r[k] == '.' {
        if k < |b| {
          assert r[k] == s[k];
        } else if k > |b| {
          assert r[k] == t[k - |b| - 1];
        }
      }
    }
  }

  /** The comma positions of `\B(?=(\d{3})+(?!\d))` in a digit string of
      length n: strictly inside it (a non-boundary between two digits), with a
      positive multiple of three digits from there to the end. */
  predicate SeparatorAt(n: int, p: int) {
    0 < p < n && (n - p) % 3 == 0
  }

  /** `replace(/\B(?=(\d{3})+(?!\d))/g, ',')` applied from position `p` on:
      a comma goes before every digit that stands at a separator position. */
  function GroupFrom(d: string, p: nat): string
    requires p <= |d|
    decreases |d| - p
  {
    if p == |d| then []
    else if SeparatorAt(|d|, p) then [',', d[p]] + GroupFrom(d, p + 1)
    else [d[p]] + GroupFrom(d, p + 1)
  }

  /** Thousands separators inserted into a run of digits (lines 22 and 25). */
  function Group(d: string): string {
    GroupFrom(d, 0)
  }

  /** `formatAmount` (lines 9-27). */
  function FormatAmount(value: string): (r: string)
    ensures forall k :: 0 <= k < |r| ==> IsDigit(r[k]) || r[k] == ',' || r[k] == '.'
    ensures Count(r, '.') <= 1
    ensures Remove(r, ',') == KeepFirstDot(Clean(value))
  {
    var cleaned := SingleDot(Clean(value));
    SingleDotKeepsFirst(Clean(value));
    KeepFirstDotChars(Clean(value));
    assert Collapsed(cleaned);
    if '.' in cleaned then
      var parts := Split(cleaned, '.');
      FirstSeparatorSplits(cleaned, '.');
      CollapsedParts(cleaned);
      RenderDotted(parts[0], parts[1]);
      Group(parts[0]) + "." + parts[1]
    else
      RenderPlain(cleaned);
      Group(cleaned)
  }

  // ---------------------------------------------------------------------
  // parseAmount

  /** The comma-stripping half of `parseAmount` (line 30); the `parseFloat`
      half is not part of this model. */
  function StripSeparators(formatted: string): (r: string)
    ensures ',' !in r
    ensures |r| == |formatted| - Count(formatted, ',')
    ensures forall k :: 0 <= k < |formatted| && formatted[k] != ',' ==> formatted[k] in r
  {
    RemoveLength(formatted, ',');
    RemoveKeepsAll(formatted, ',');
    Remove(formatted, ',')
  }

  /** Stripping the separators of a formatted amount gives its cleaned
      text with only the first dot kept, and formatting that again gives
      the displayed amount back. */
  lemma ParseAfterFormat(value: string)
    ensures StripSeparators(FormatAmount(value)) == KeepFirstDot(Clean(value))
    ensures FormatAmount(StripSeparators(FormatAmount(value))) == FormatAmount(value)
  {
    var c := KeepFirstDot(Clean(value));
    SingleDotKeepsFirst(Clean(value));
    KeepFirstDotChars(Clean(value));
    assert Collapsed(c);
    CleanDigitsOrDots(c);
    KeepFirstDotCollapsed(c);
    SingleDotKeepsFirst(c);
    assert SingleDot(Clean(c)) == SingleDot(Clean(value));
  }

  // ---------------------------------------------------------------------
  // validateAmount

  /** The rules `validateAmount` checks, in the order it checks them. */
  datatype AmountError =
    | LeadingSeparator  // starts with a comma or a period
    | BadFormat         // not digits and commas with an optional fraction
    | BadLeadingDigit   // does not start with 1-9 or with "0."
    | NotPositive       // parses to zero
    | CommaPlacement    // more than three digits after the last comma

  /** The message the form shows for each rule. */
  function Message(e: AmountError): string
  {
    match e
    case LeadingSeparator => LeadingSeparatorText
    case BadFormat => BadFormatText
    case BadLeadingDigit => BadLeadingDigitText
    case NotPositive => NotPositiveText
    case CommaPlacement => CommaPlacementText
  }
  const LeadingSeparatorText := "Amount must not start with comma or period"
  const BadFormatText := "Invalid amount format. Use digits, commas for thousands, and one decimal point"
  const BadLeadingDigitText := "Amount must start with a number greater than 0 (e.g., 1, 2, 0.5)"
  const NotPositiveText := "Amount must be greater than 0"
  const CommaPlacementText := "Invalid comma placement. Use commas for thousands separator"

  /** `/^[\d,]+(\.\d*)?$/`: one or more digits or commas, then optionally a
      dot followed by digits, and nothing else. */
  predicate AmountSyntax(s: string) {
    var head := BeforeFirst(s, '.');
    && |head| >= 1
    && (forall k :: 0 <= k < |head| ==> IsDigit(head[k]) || head[k] == ',')
    && ('.' in s ==> AllDigits(AfterFirst(s, '.')))
  }

  /** `/^[1-9]/.test(t) || /^0\./.test(t)`. */
  predicate LeadingDigitOk(t: string) {
    (|t| >= 1 && '1' <= t[0] <= '9') || (|t| >= 2 && t[0] == '0' && t[1] == '.')
  }

  /** `parseAmount(value) > 0` for a value whose comma-free text `t` is
      digits with an optional fractional part: the decimal it denotes is
      positive exactly when one of its digits is not zero. */
  predicate DenotesPositive(t: string) {
    exists k :: 0 <= k < |t| && '1' <= t[k] <= '9'
  }

  /** The separator check of lines 62-66: at least one comma, and the text
      after the last comma is longer than three characters and has no dot. */
  predicate CommaMisplaced(value: string) {
    var parts := Split(value, ',');
    var last := parts[|parts| - 1];
    Count(value, ',') > 0 && |last| > 3 && '.' !in last
  }

  /** `/^[,.]/.test(value.trim())` (line 40). */
  predicate LeadsWithSeparator(value: string) {
    var t := Trim(value);
    t != [] && (t[0] == ',' || t[0] == '.')
  }

  /** Every rule of `validateAmount` holds: the value starts with a digit,
      its comma-free text is a well-formed positive amount with an
      acceptable leading digit, and no comma is misplaced. */
  predicate Acceptable(value: string) {
    var t := Remove(value, ',');
    && value != [] && IsDigit(value[0])
    && AmountSyntax(t) && LeadingDigitOk(t) && DenotesPositive(t)
    && !CommaMisplaced(value)
  }

  /** The rule checks of `validateAmount` (lines 34-69): the first rule the
      value breaks, in the order of the source, or None. A blank value is
      not an error (the field is simply empty); any other value is
      accepted exactly when every rule holds. */
  function CheckAmount(value: string): (r: Option<AmountError>)
    ensures AllWhitespace(value) ==> r == None
    ensures !AllWhitespace(value) ==> (r == None <==> Acceptable(value))
    ensures LeadsWithSeparator(value) ==> r == Some(LeadingSeparator)
    ensures !AllWhitespace(value) && !LeadsWithSeparator(value) ==>
      var t := Remove(value, ',');
      && (!AmountSyntax(t) ==> r == Some(BadFormat))
      && (AmountSyntax(t) && !LeadingDigitOk(t) ==> r == Some(BadLeadingDigit))
      && (AmountSyntax(t) && LeadingDigitOk(t) && !DenotesPositive(t) ==> r == Some(NotPositive))
      && (AmountSyntax(t) && LeadingDigitOk(t) && DenotesPositive(t) && CommaMisplaced(value) ==>
            r == Some(CommaPlacement))
  {
    DigitFirstNoSeparator(value);
    var trimmed := Trim(value);
    if trimmed == [] then None
    else if trimmed[0] == ',' || trimmed[0] == '.' then Some(LeadingSeparator)
    else
      var stripped := Remove(value, ',');
      if !AmountSyntax(stripped) then Some(BadFormat)
      else if !LeadingDigitOk(stripped) then Some(BadLeadingDigit)
      else if !DenotesPositive(stripped) then Some(NotPositive)
      else if CommaMisplaced(value) then Some(CommaPlacement)
      else
        AcceptedStartsWithDigit(value);
        None
  }

  /** A value that starts with a digit does not start with a separator
      after trimming. */
  lemma DigitFirstNoSeparator(value: string)
    ensures value != [] && IsDigit(value[0]) ==> !LeadsWithSeparator(value)
  {
    if value != [] && IsDigit(value[0]) {
      TrimKeepsFirst(value);
    }
  }

  /** `validateAmount`: "" exactly when the value is blank or breaks no
      rule; otherwise the message of the first rule it breaks. */
  function ValidateAmount(value: string): (msg: string)
    ensures msg == [] <==> AllWhitespace(value) || Acceptable(value)
    ensures LeadsWithSeparator(value) ==> msg == LeadingSeparatorText
    ensures !AllWhitespace(value) && !LeadsWithSeparator(value) ==>
      var t := Remove(value, ',');
      && (!AmountSyntax(t) ==> msg == BadFormatText)
      && (AmountSyntax(t) && !LeadingDigitOk(t) ==> msg == BadLeadingDigitText)
      && (AmountSyntax(t) && LeadingDigitOk(t) && !DenotesPositive(t) ==> msg == NotPositiveText)
      && (AmountSyntax(t) && LeadingDigitOk(t) && DenotesPositive(t) && CommaMisplaced(value) ==>
            msg == CommaPlacementText)
  {
    var check := CheckAmount(value);
    if check.None? then [] else MessageNotEmpty(check.value); Message(check.value)
  }

  /** Every rule has a message, so "" means exactly "acceptable". */
  lemma MessageNotEmpty(e: AmountError)
    ensures Message(e) != []
  {
  }

  // ---------------------------------------------------------------------
  // Properties of formatAmount

  /** The split-based dot handling is the reference "keep the first dot". */
  lemma SingleDotKeepsFirst(s: string)
    ensures SingleDot(s) == KeepFirstDot(s)
  {
    var parts := Split(s, '.');
    if '.' in s {
      var b, a := BeforeFirst(s, '.'), AfterFirst(s, '.');
      FirstSeparatorSplits(s, '.');
      SplitAtFirst(s, '.');
      assert parts[1..] == Split(a, '.');
      if |parts| > 2 {
        ConcatSplit(a, '.');
      } else {
        assert Count(a, '.') == 0;
        RemoveAbsent(a, '.');
      }
    }
  }

  /** What the dot handling leaves: digits and dots, at most one dot. */
  predicate Collapsed(c: string) {
    && DigitsOrDots(c)
    && Count(c, '.') <= 1
  }

  /** Keeping the first dot of an already collapsed string changes nothing. */
  lemma KeepFirstDotCollapsed(c: string)
    requires Collapsed(c)
    ensures KeepFirstDot(c) == c
  {
    if '.' in c {
      var b, a := BeforeFirst(c, '.'), AfterFirst(c, '.');
      FirstSeparatorSplits(c, '.');
      CountAppend(b + ".", a, '.');
      CountAppend(b, ".", '.');
      RemoveAbsent(a, '.');
    }
  }

  /** A collapsed string with a dot has no dot after the first one. */
  lemma CollapsedAfterDot(c: string)
    requires Collapsed(c) && '.' in c
    ensures '.' !in AfterFirst(c, '.')
  {
    var b, a := BeforeFirst(c, '.'), AfterFirst(c, '.');
    FirstSeparatorSplits(c, '.');
    CountAppend(b + ".", a, '.');
    CountAppend(b, ".", '.');
  }

  /** A collapsed string with a dot: digits, the dot, digits. */
  lemma CollapsedParts(c: string)
    requires Collapsed(c) && '.' in c
    ensures Split(c, '.') == [BeforeFirst(c, '.'), AfterFirst(c, '.')]
    ensures AllDigits(BeforeFirst(c, '.')) && AllDigits(AfterFirst(c, '.'))
  {
    CollapsedAfterDot(c);
    CollapsedSplit(c);
    CollapsedDigits(c);
  }

  lemma CollapsedSplit(c: string)
    requires '.' in c && '.' !in AfterFirst(c, '.')
    ensures Split(c, '.') == [BeforeFirst(c, '.'), AfterFirst(c, '.')]
  {
    SplitAtFirst(c, '.');
    SplitNoSeparator(AfterFirst(c, '.'), '.');
  }

  lemma CollapsedDigits(c: string)
    requires DigitsOrDots(c) && '.' in c && '.' !in AfterFirst(c, '.')
    ensures AllDigits(BeforeFirst(c, '.')) && AllDigits(AfterFirst(c, '.'))
  {
    var b, a := BeforeFirst(c, '.'), AfterFirst(c, '.');
    assert AllDigits(b) by {
      assert forall k :: 0 <= k < |b| ==> b[k] == c[k];
    }
    FirstSeparatorSplits(c, '.');
    forall k | 0 <= k < |a|
      ensures IsDigit(a[k])
    {
      assert a[k] == c[|b| + 1 + k];
      assert a[k] != '.';
    }
  }

  /** Deleting the commas of a grouped digit run gives the digits back. */
  lemma {:induction false} GroupFromRemove(d: string, p: nat)
    requires p <= |d| && AllDigits(d)
    ensures Remove(GroupFrom(d, p), ',') == d[p..]
    decreases |d| - p
  {
    if p < |d| {
      GroupFromRemove(d, p + 1);
      var tail := [d[p]] + GroupFrom(d, p + 1);
      assert Remove(tail, ',') == d[p..] by {
        assert IsDigit(d[p]);
        RemoveCons(d[p], GroupFrom(d, p + 1), ',');
        assert d[p..] == [d[p]] + d[p + 1..];
      }
      GroupFromStep(d, p);
      if SeparatorAt(|d|, p) {
        RemoveCons(',', tail, ',');
      }
    }
  }

  /** One step of the grouping: an optional comma, then the digit. */
  lemma GroupFromStep(d: string, p: nat)
    requires p < |d|
    ensures SeparatorAt(|d|, p) ==> GroupFrom(d, p) == [','] + ([d[p]] + GroupFrom(d, p + 1))
    ensures !SeparatorAt(|d|, p) ==> GroupFrom(d, p) == [d[p]] + GroupFrom(d, p + 1)
  {
  }

  /** A grouped digit run holds digits and commas only. */
  lemma {:induction false} GroupFromChars(d: string, p: nat)
    requires p <= |d| && AllDigits(d)
    ensures forall k :: 0 <= k < |GroupFrom(d, p)| ==> IsDigit(GroupFrom(d, p)[k]) || GroupFrom(d, p)[k] == ','
    decreases |d| - p
  {
    if p < |d| {
      GroupFromChars(d, p + 1);
      var rest := GroupFrom(d, p + 1);
      var g := GroupFrom(d, p);
      var lead := if SeparatorAt(|d|, p) then [',', d[p]] else [d[p]];
      assert g == lead + rest;
      forall k | 0 <= k < |g| ensures IsDigit(g[k]) || g[k] == ',' {
        if k >= |lead| {
          assert g[k] == rest[k - |lead|];
        }
      }
    }
  }

  lemma GroupDigits(d: string)
    requires AllDigits(d)
    ensures Remove(Group(d), ',') == d
    ensures forall k :: 0 <= k < |Group(d)| ==> IsDigit(Group(d)[k]) || Group(d)[k] == ','
    ensures '.' !in Group(d)
  {
    GroupFromRemove(d, 0);
    GroupFromChars(d, 0);
    assert d[0..] == d;
  }

  /** Up to three digits get no separator. */
  lemma {:induction false} GroupFromShort(d: string, p: nat)
    requires p <= |d| <= 3
    ensures GroupFrom(d, p) == d[p..]
    decreases |d| - p
  {
    if p < |d| {
      GroupFromShort(d, p + 1);
      assert d[p..] == [d[p]] + d[p + 1..];
    }
  }

  /** Of more than three digits, the last three are preceded by a comma. */
  lemma GroupFromLastThree(d: string)
    requires |d| > 3
    ensures GroupFrom(d, |d| - 3) == [','] + d[|d| - 3..]
  {
    var n := |d|;
    assert GroupFrom(d, n - 2) == d[n - 2..] by {
      assert !SeparatorAt(n, n - 1) && !SeparatorAt(n, n - 2);
      GroupFromStep(d, n - 1);
      GroupFromStep(d, n - 2);
    }
    assert GroupFrom(d, n - 3) == [','] + ([d[n - 3]] + d[n - 2..]) by {
      assert SeparatorAt(n, n - 3);
      GroupFromStep(d, n - 3);
    }
    assert d[n - 3..] == [d[n - 3]] + d[n - 2..];
  }

  /** More than three digits: the last three form a group of their own,
      behind a comma, and the rest is grouped on its own. */
  lemma {:induction false} GroupFromPeel(d: string, p: nat)
    requires |d| > 3 && p <= |d| - 3
    ensures GroupFrom(d, p) == GroupFrom(d[..|d| - 3], p) + [','] + d[|d| - 3..]
    decreases |d| - p
  {
    var n := |d|;
    var e, t := d[..n - 3], d[n - 3..];
    if p == n - 3 {
      GroupFromLastThree(d);
      assert GroupFrom(e, p) == [];
    } else {
      GroupFromPeel(d, p + 1);
      GroupFromPeelStep(d, p);
    }
  }

  /** One step of `GroupFromPeel`: the character at `p` is handled alike in
      the whole run and in the run without its last three digits. */
  lemma GroupFromPeelStep(d: string, p: nat)
    requires |d| > 3 && p < |d| - 3
    requires GroupFrom(d, p + 1) == GroupFrom(d[..|d| - 3], p + 1) + [','] + d[|d| - 3..]
    ensures GroupFrom(d, p) == GroupFrom(d[..|d| - 3], p) + [','] + d[|d| - 3..]
  {
    var n := |d|;
    var e, t := d[..n - 3], d[n - 3..];
    var restD, restE := GroupFrom(d, p + 1), GroupFrom(e, p + 1);
    var head := if SeparatorAt(n, p) then [',', d[p]] else [d[p]];
    assert GroupFrom(d, p) == head + restD by {
      GroupFromStep(d, p);
    }
    assert GroupFrom(e, p) == head + restE by {
      assert SeparatorAt(n, p) == SeparatorAt(n - 3, p);
      assert e[p] == d[p];
      GroupFromStep(e, p);
    }
    assert head + (restE + [','] + t) == (head + restE) + [','] + t;
  }

  /** Comma-separated groups of digits: a leading group of one to three
      digits followed by groups of exactly three. */
  predicate ThousandsGroups(parts: seq<string>) {
    && |parts| >= 1
    && 1 <= |parts[0]| <= 3
    && (forall i :: 1 <= i < |parts| ==> |parts[i]| == 3)
    && (forall i :: 0 <= i < |parts| ==> AllDigits(parts[i]))
  }

  /** The grouping regex splits a non-empty run of digits into thousands groups. */
  lemma {:induction false} GroupSplits(d: string)
    requires AllDigits(d) && d != []
    ensures ThousandsGroups(Split(Group(d), ','))
    decreases |d|
  {
    if |d| <= 3 {
      GroupFromShort(d, 0);
      assert d[0..] == d;
      SplitNoSeparator(d, ',');
    } else {
      var e, t := d[..|d| - 3], d[|d| - 3..];
      assert AllDigits(e) && AllDigits(t) by {
        assert forall k :: 0 <= k < |e| ==> e[k] == d[k];
        assert forall k :: 0 <= k < |t| ==> t[k] == d[|d| - 3 + k];
      }
      GroupFromPeel(d, 0);
      assert Group(d) == Group(e) + [','] + t;
      GroupSplits(e);
      SplitAppend(Group(e), t, ',');
      SplitNoSeparator(t, ',');
      ThousandsGroupsAppend(Split(Group(e), ','), t);
    }
  }

  /** A further group of three digits extends thousands groups. */
  lemma ThousandsGroupsAppend(parts: seq<string>, t: string)
    requires ThousandsGroups(parts) && |t| == 3 && AllDigits(t)
    ensures ThousandsGroups(parts + [t])
  {
  }

  /** Deleting the commas of the dotted output gives the dotted input. */
  lemma DottedRemove(b: string, a: string)
    requires AllDigits(b) && AllDigits(a)
    ensures Remove(Group(b) + "." + a, ',') == b + "." + a
  {
    var g := Group(b);
    assert Remove(g, ',') == b by {
      GroupFromRemove(b, 0);
      assert b[0..] == b;
    }
    assert Remove(a, ',') == a by {
      assert forall k :: 0 <= k < |a| ==> a[k] != ',';
      RemoveAbsent(a, ',');
    }
    assert Remove(g + ".", ',') == b + "." by {
      RemoveAppend(g, ".", ',');
      assert Remove(".", ',') == ".";
    }
    RemoveAppend(g + ".", a, ',');
  }

  /** The dotted output has a single dot. */
  lemma DottedCount(b: string, a: string)
    requires AllDigits(b) && AllDigits(a)
    ensures Count(Group(b) + "." + a, '.') == 1
  {
    var g := Group(b);
    GroupFromChars(b, 0);
    assert forall k :: 0 <= k < |g| ==> g[k] != '.';
    assert forall k :: 0 <= k < |a| ==> a[k] != '.';
    CountAppend(g + ".", a, '.');
    CountAppend(g, ".", '.');
  }

  /** The dotted output holds digits, commas and its dot only. */
  lemma DottedChars(b: string, a: string)
    requires AllDigits(b) && AllDigits(a)
    ensures forall k :: 0 <= k < |Group(b) + "." + a| ==>
      IsDigit((Group(b) + "." + a)[k]) || (Group(b) + "." + a)[k] == ',' || (Group(b) + "." + a)[k] == '.'
  {
    var g := Group(b);
    var r := g + "." + a;
    GroupFromChars(b, 0);
    forall k | 0 <= k < |r| ensures IsDigit(r[k]) || r[k] == ',' || r[k] == '.' {
      if k < |g| {
        assert r[k] == g[k];
      } else if k > |g| {
        assert r[k] == a[k - |g| - 1];
      }
    }
  }

  /** The last step of formatAmount when the cleaned text has a dot: the
      grouped digits before it, the dot, the digits after it. */
  lemma RenderDotted(b: string, a: string)
    requires AllDigits(b) && AllDigits(a)
    ensures Remove(Group(b) + "." + a, ',') == b + "." + a
    ensures Count(Group(b) + "." + a, '.') == 1
    ensures forall k :: 0 <= k < |Group(b) + "." + a| ==>
      IsDigit((Group(b) + "." + a)[k]) || (Group(b) + "." + a)[k] == ',' || (Group(b) + "." + a)[k] == '.'
    ensures BeforeFirst(Group(b) + "." + a, '.') == Group(b)
    ensures AfterFirst(Group(b) + "." + a, '.') == a
  {
    DottedRemove(b, a);
    DottedCount(b, a);
    DottedChars(b, a);
    GroupDigits(b);
    FirstSeparatorOf(Group(b), a, '.');
  }

  /** The last step of formatAmount when the cleaned text has no dot. */
  lemma RenderPlain(c: string)
    requires Collapsed(c) && '.' !in c
    ensures AllDigits(c)
    ensures Remove(Group(c), ',') == c
    ensures Count(Group(c), '.') == 0
    ensures forall k :: 0 <= k < |Group(c)| ==> IsDigit(Group(c)[k]) || Group(c)[k] == ','
    ensures BeforeFirst(Group(c), '.') == Group(c) && AfterFirst(Group(c), '.') == []
  {
    GroupDigits(c);
  }

  /** Clean only deletes the commas of text made of digits, commas and dots. */
  lemma {:induction false} CleanFormatted(x: string)
    requires forall k :: 0 <= k < |x| ==> IsDigit(x[k]) || x[k] == ',' || x[k] == '.'
    ensures Clean(x) == Remove(x, ',')
  {
    if x != [] {
      CleanFormatted(x[1..]);
    }
  }

  /** The integer part of the output (before its dot) is the grouped integer
      part of the cleaned input; the part after the dot is the cleaned
      fraction with its further dots deleted and no separators added. */
  lemma FormatAmountParts(value: string)
    ensures var r, c := FormatAmount(value), Clean(value);
      && BeforeFirst(r, '.') == Group(BeforeFirst(c, '.'))
      && AfterFirst(r, '.') == Remove(AfterFirst(c, '.'), '.')
      && ('.' in r <==> '.' in c)
  {
    var c := Clean(value);
    var cleaned := SingleDot(c);
    SingleDotKeepsFirst(c);
    KeepFirstDotChars(c);
    assert Collapsed(cleaned);
    if '.' in c {
      var b, a := BeforeFirst(c, '.'), AfterFirst(c, '.');
      FirstSeparatorOf(b, Remove(a, '.'), '.');
      assert cleaned == b + ['.'] + Remove(a, '.');
      CollapsedParts(cleaned);
      RenderDotted(b, Remove(a, '.'));
    } else {
      RenderPlain(cleaned);
    }
  }

  /** In the integer part of the output, commas split the digits into a
      leading group of one to three digits and then groups of exactly three. */
  lemma FormatAmountGroups(value: string)
    requires BeforeFirst(FormatAmount(value), '.') != []
    ensures ThousandsGroups(Split(BeforeFirst(FormatAmount(value), '.'), ','))
  {
    FormatAmountParts(value);
    var c := Clean(value);
    var b := BeforeFirst(c, '.');
    assert forall k :: 0 <= k < |b| ==> b[k] == c[k];
    GroupSplits(b);
  }

  /** Formatting a formatted amount changes nothing, which the blur handler
      relies on when it reformats the field. */
  lemma FormatAmountIdempotent(value: string)
    ensures FormatAmount(FormatAmount(value)) == FormatAmount(value)
  {
    var r := FormatAmount(value);
    var c := SingleDot(Clean(value));
    SingleDotKeepsFirst(Clean(value));
    KeepFirstDotChars(Clean(value));
    CleanFormatted(r);
    assert Collapsed(c);
    KeepFirstDotCollapsed(c);
    SingleDotKeepsFirst(c);
    assert SingleDot(Clean(r)) == c;
  }

  lemma {:induction false} CountAppend(a: string, b: string, c: char)
    ensures Count(a + b, c) == Count(a, c) + Count(b, c)
  {
    if a == [] {
      assert a + b == b;
    } else {
      assert (a + b)[0] == a[0];
      assert (a + b)[1..] == a[1..] + b;
      CountAppend(a[1..], b, c);
    }
  }

  lemma {:induction false} RemoveLength(s: string, c: char)
    ensures |Remove(s, c)| == |s| - Count(s, c)
  {
    if s != [] {
      RemoveLength(s[1..], c);
    }
  }

  // ---------------------------------------------------------------------
  // Properties of validateAmount

  /** Text that passes the format check is made of digits, commas and dots. */
  lemma AmountSyntaxChars(t: string)
    requires AmountSyntax(t)
    ensures forall k :: 0 <= k < |t| ==> IsDigit(t[k]) || t[k] == ',' || t[k] == '.'
  {
    var head := BeforeFirst(t, '.');
    forall k | 0 <= k < |t| ensures IsDigit(t[k]) || t[k] == ',' || t[k] == '.' {
      if k < |head| {
        assert t[k] == head[k];
      } else if '.' in t && k > |head| {
        var after := AfterFirst(t, '.');
        FirstSeparatorSplits(t, '.');
        assert t[k] == after[k - |head| - 1];
      }
    }
  }

  /** An amount that gets past the first three checks starts with a digit. */
  lemma AcceptedStartsWithDigit(value: string)
    requires Trim(value) != [] && Trim(value)[0] != ',' && Trim(value)[0] != '.'
    requires AmountSyntax(Remove(value, ','))
    ensures IsDigit(value[0])
  {
    var stripped := Remove(value, ',');
    AmountSyntaxChars(stripped);
    var v0 := value[0];
    assert IsDigit(v0) || v0 == ',' || v0 == '.' by {
      if v0 != ',' {
        RemoveKeepsOthers(value, ',', 0);
        var j :| 0 <= j < |stripped| && stripped[j] == v0;
      }
    }
    TrimKeepsFirst(value);
  }

  /** Digits with at most one dot, not starting with the dot, pass the
      format check. */
  lemma CollapsedSyntax(t: string)
    requires Collapsed(t) && t != [] && t[0] != '.'
    ensures AmountSyntax(t)
  {
    var head := BeforeFirst(t, '.');
    assert head != [];
    assert forall k :: 0 <= k < |head| ==> head[k] == t[k];
    if '.' in t {
      CollapsedParts(t);
    }
  }

  /** The comma-free text of a formatted amount is collapsed. */
  lemma FormattedCollapsed(value: string)
    ensures Collapsed(Remove(FormatAmount(value), ','))
  {
    var k := KeepFirstDot(Clean(value));
    KeepFirstDotChars(Clean(value));
    assert forall i :: 0 <= i < |k| ==> IsDigit(k[i]) || k[i] == '.';
  }

  /** A formatted amount that does not start with a separator is its own
      trim and passes the format check. */
  lemma FormattedSyntax(value: string)
    requires var r := FormatAmount(value); r != [] && r[0] != ',' && r[0] != '.'
    ensures Trim(FormatAmount(value)) == FormatAmount(value)
    ensures AmountSyntax(Remove(FormatAmount(value), ','))
  {
    var r := FormatAmount(value);
    TrimUnchanged(r);
    RemoveKeepsFirst(r, ',');
    FormattedCollapsed(value);
    CollapsedSyntax(Remove(r, ','));
  }

  /** Text that is anything, a dot, then comma-free text: its last
      comma-separated part holds that dot. */
  lemma DottedLastPart(g: string, a: string)
    requires ',' !in a
    ensures !CommaMisplaced(g + ['.'] + a)
  {
    var y := ['.'] + a;
    assert g + ['.'] + a == g + y;
    SplitLastAppend(g, y, ',');
    var parts, partsG := Split(g + y, ','), Split(g, ',');
    var last := parts[|parts| - 1];
    assert last[|last| - |y|] == '.';
  }

  /** Grouped digits: the part after the last comma is a group of three. */
  lemma GroupedLastPart(d: string)
    requires AllDigits(d)
    ensures !CommaMisplaced(Group(d))
  {
    if d != [] {
      GroupSplits(d);
    }
  }

  /** In a formatted amount the text after the last comma is either a group
      of three digits or holds the decimal point. */
  lemma FormattedCommas(value: string)
    ensures !CommaMisplaced(FormatAmount(value))
  {
    var r, c := FormatAmount(value), Clean(value);
    FormatAmountParts(value);
    assert ',' !in c;
    if '.' in r {
      AfterFirstAbsent(c, '.', ',');
      FirstSeparatorSplits(r, '.');
      DottedLastPart(BeforeFirst(r, '.'), AfterFirst(r, '.'));
    } else {
      assert AllDigits(c);
      GroupedLastPart(c);
    }
  }

  /** What the form does on every keystroke and on blur (validating the
      formatted text) never reports a format error: formatting always
      produces a well-formed amount. */
  lemma FormattedNeverBadFormat(value: string)
    ensures CheckAmount(FormatAmount(value)) != Some(BadFormat)
  {
    var r := FormatAmount(value);
    if r != [] && r[0] != ',' && r[0] != '.' {
      FormattedSyntax(value);
      PassesFormat(r);
    } else if r != [] {
      assert Trim(r) == r by {
        AmountCharNotWhitespace(r[0]);
        AmountCharNotWhitespace(r[|r| - 1]);
        TrimUnchanged(r);
      }
      StartsWithSeparator(r);
    }
  }

  /** Grouping a non-empty digit run keeps its first digit in front. */
  lemma GroupFirst(d: string)
    requires d != []
    ensures Group(d) != [] && Group(d)[0] == d[0]
  {
  }

  /** A formatted amount starts with the first character of its comma-free
      text when that character is a digit. */
  lemma FormattedLeadingDigit(value: string)
    requires var k := KeepFirstDot(Clean(value)); k != [] && IsDigit(k[0])
    ensures var r := FormatAmount(value); r != [] && r[0] == KeepFirstDot(Clean(value))[0]
  {
    var r, c := FormatAmount(value), Clean(value);
    assert r != [];
    FormatAmountParts(value);
    var head := BeforeFirst(r, '.');
    assert r[0] != ',' by {
      if head != [] {
        var b := BeforeFirst(c, '.');
        assert b != [];
        GroupFirst(b);
        assert r[0] == c[0];
      }
    }
    RemoveKeepsFirst(r, ',');
  }

  /** Every formatted amount whose comma-free text has an acceptable
      leading digit and a nonzero digit is accepted. */
  lemma FormattedAccepted(value: string)
    requires var k := KeepFirstDot(Clean(value)); LeadingDigitOk(k) && DenotesPositive(k)
    ensures CheckAmount(FormatAmount(value)) == None
  {
    var r := FormatAmount(value);
    FormattedLeadingDigit(value);
    AmountCharNotWhitespace(r[0]);
    FormattedSyntax(value);
    FormattedCommas(value);
  }

  /** A digit run starting with 1-9, with its thousands separators in
      place, is accepted, as "1,000" and "1,000,000" are. */
  lemma CheckAmountGrouped(d: string)
    requires AllDigits(d) && d != [] && '1' <= d[0] <= '9'
    ensures CheckAmount(Group(d)) == None
  {
    assert DigitsOrDots(d);
    CleanDigitsOrDots(d);
    FormatAmountParts(d);
    assert '.' !in d;
    FormattedAccepted(d);
  }

  /** A digit run with its thousands separators, a dot and a digit tail is
      accepted when the rules on the leading digit and on positivity hold,
      as "1,000.50" and "0.5" are. */
  lemma CheckAmountGroupedFraction(d: string, a: string)
    requires AllDigits(d) && AllDigits(a)
    requires LeadingDigitOk(d + ['.'] + a) && DenotesPositive(d + ['.'] + a)
    ensures CheckAmount(Group(d) + ['.'] + a) == None
  {
    var v := d + ['.'] + a;
    assert DigitsOrDots(v);
    CleanDigitsOrDots(v);
    assert '.' !in d && '.' !in a;
    FirstSeparatorOf(d, a, '.');
    KeepFirstDotCollapsed(v) by {
      CountAppend(d + ['.'], a, '.');
      CountAppend(d, ['.'], '.');
    }
    FormatAmountParts(v);
    RemoveAbsent(a, '.');
    var r := FormatAmount(v);
    FirstSeparatorSplits(r, '.');
    FormattedAccepted(v);
  }

  /** Digits, commas and dots are not whitespace. */
  lemma AmountCharNotWhitespace(c: char)
    requires IsDigit(c) || c == ',' || c == '.'
    ensures !IsWhitespace(c)
  {
  }

  /** Nor does it report a misplaced comma: formatting groups correctly. */
  lemma FormattedNeverMisplacesCommas(value: string)
    ensures CheckAmount(FormatAmount(value)) != Some(CommaPlacement)
  {
    FormattedCommas(value);
    KeepsCommas(FormatAmount(value));
  }

  /** A value that is its own trim, starts with neither separator and
      passes the format check is not reported as badly formatted. */
  lemma PassesFormat(v: string)
    requires v != [] && v[0] != ',' && v[0] != '.'
    requires Trim(v) == v && AmountSyntax(Remove(v, ','))
    ensures CheckAmount(v) != Some(BadFormat)
  {
    assert Trim(v) != [] && Trim(v)[0] == v[0];
  }

  /** A value that starts with a separator after trimming is reported as such. */
  lemma StartsWithSeparator(v: string)
    requires Trim(v) == v && v != [] && (v[0] == ',' || v[0] == '.')
    ensures CheckAmount(v) == Some(LeadingSeparator)
  {
  }

  /** Well-placed commas are never reported. */
  lemma KeepsCommas(v: string)
    requires !CommaMisplaced(v)
    ensures CheckAmount(v) != Some(CommaPlacement)
  {
  }

  // ---------------------------------------------------------------------
  // Examples from the unit tests of the module

  lemma FormatAmountThousand(v: string)
    requires v == "1000"
    ensures FormatAmount(v) == "1,000"
  {
    assert Clean(v[3..]) == "0";
    assert Clean(v[2..]) == "00";
    assert Clean(v[1..]) == "000";
    assert Clean(v) == v;
    assert '.' !in v;
    SplitNoSeparator(v, '.');
    assert SingleDot(v) == v;
    assert GroupFrom(v, 3) == "0";
    assert GroupFrom(v, 2) == "00";
    assert GroupFrom(v, 1) == ",000";
    assert GroupFrom(v, 0) == "1,000";
  }

  lemma CheckAmountBlank(v: string)
    requires v == "   "
    ensures CheckAmount(v) == None
  {
    assert AllWhitespace("   ");
  }

  lemma CheckAmountLeadingComma(v: string)
    requires v == " ,123"
    ensures CheckAmount(v) == Some(LeadingSeparator)
  {
    assert TrimStart(v) == v[1..];
    assert TrimEnd(v[1..]) == v[1..];
  }

  /** "0.0" is well formed and starts with "0.", but denotes zero. */
  lemma CheckAmountZero(v: string)
    requires v == "0.0"
    ensures CheckAmount(v) == Some(NotPositive)
  {
    assert !AllWhitespace(v) && !LeadsWithSeparator(v) by {
      TrimUnchanged(v);
    }
    assert Remove(v, ',') == v by {
      RemoveAbsent(v, ',');
    }
    assert AmountSyntax(v) && LeadingDigitOk(v) by {
      assert Collapsed(v) by {
        assert Count(v, '.') == 1;
      }
      CollapsedSyntax(v);
    }
    assert !DenotesPositive(v) by {
      assert forall k :: 0 <= k < |v| ==> v[k] == '0' || v[k] == '.';
    }
  }

  /** "0" and "0123" are well formed but start with a zero that is not
      followed by a dot. */
  lemma CheckAmountLeadingZero(v: string)
    requires v == "0" || v == "0123"
    ensures CheckAmount(v) == Some(BadLeadingDigit)
  {
    TrimUnchanged(v);
    RemoveAbsent(v, ',');
    assert Collapsed(v) by {
      assert '.' !in v;
    }
    CollapsedSyntax(v);
  }

  /** One leading digit, a comma and more than three digits: every rule
      before the comma rule passes, and the comma rule fails. */
  lemma LongLastGroup(h: char, tail: string)
    requires '1' <= h <= '9' && AllDigits(tail) && |tail| > 3
    ensures CheckAmount([h] + [','] + tail) == Some(CommaPlacement)
  {
    var v := [h] + [','] + tail;
    TrimUnchanged(v);
    OneCommaRemoved(h, tail);
    DigitsPass(h, tail);
    OneCommaSplit(h, tail);
    assert ',' in v;
    CommaRuleDecides(v, [h] + tail);
  }

  lemma OneCommaRemoved(h: char, tail: string)
    requires h != ',' && ',' !in tail
    ensures Remove([h] + [','] + tail, ',') == [h] + tail
  {
    var w := [','] + tail;
    assert [h] + [','] + tail == [h] + w;
    RemoveAbsent(tail, ',');
    assert Remove(w, ',') == tail by {
      RemoveCons(',', tail, ',');
    }
    RemoveCons(h, w, ',');
  }

  lemma DigitsPass(h: char, tail: string)
    requires '1' <= h <= '9' && AllDigits(tail)
    ensures AmountSyntax([h] + tail) && LeadingDigitOk([h] + tail) && DenotesPositive([h] + tail)
  {
    var t := [h] + tail;
    assert Collapsed(t) by {
      assert '.' !in t;
    }
    CollapsedSyntax(t);
    assert '1' <= t[0] <= '9';
  }

  /** A trimmed value that passes every rule before the comma rule and
      breaks the comma rule gets the comma message. */
  lemma CommaRuleDecides(v: string, t: string)
    requires Trim(v) == v && v != [] && IsDigit(v[0])
    requires t == Remove(v, ',')
    requires AmountSyntax(t) && LeadingDigitOk(t) && DenotesPositive(t)
    requires CommaMisplaced(v)
    ensures CheckAmount(v) == Some(CommaPlacement)
  {
  }

  /** A character other than a comma, a comma and a comma-free tail split
      into the character and the tail. */
  lemma OneCommaSplit(h: char, tail: string)
    requires h != ',' && ',' !in tail
    ensures Split([h] + [','] + tail, ',') == [[h], tail]
  {
    var v := [h] + [','] + tail;
    var w := v[1..];
    assert w == [','] + tail && w[0] == ',' && w[1..] == tail;
    SplitNoSeparator(tail, ',');
    assert Split(w, ',') == [[]] + [tail];
    assert [v[0]] + Split(w, ',')[0] == [h];
  }

  /** "1,2345" has four digits after its only comma. */
  lemma CheckAmountCommaPlacement(v: string)
    requires v == "1,2345"
    ensures CheckAmount(v) == Some(CommaPlacement)
  {
    assert v == ['1'] + [','] + "2345";
    LongLastGroup('1', "2345");
  }

  /** A value whose cleaned text is at most three digits, a dot and a tail
      is formatted without commas, with the tail's dots deleted. */
  lemma FormatShortDotted(value: string, b: string, a: string)
    requires AllDigits(b) && |b| <= 3
    requires Clean(value) == b + ['.'] + a
    ensures FormatAmount(value) == b + ['.'] + Remove(a, '.')
  {
    var r := FormatAmount(value);
    FormatAmountParts(value);
    assert '.' !in b;
    FirstSeparatorOf(b, a, '.');
    GroupFromShort(b, 0);
    FirstSeparatorSplits(r, '.');
  }

  /** A text of digits and dots is its own clean text. */
  lemma CleanDigitsOrDots(v: string)
    requires DigitsOrDots(v)
    ensures Clean(v) == v
  {
    CleanFormatted(v);
    RemoveAbsent(v, ',');
  }

  /** Dots after the first are deleted, as in "1.2.3.4" becoming "1.234". */
  lemma FormatAmountExtraDots(d1: char, d2: char, d3: char, d4: char)
    requires IsDigit(d1) && IsDigit(d2) && IsDigit(d3) && IsDigit(d4)
    ensures FormatAmount([d1, '.', d2, '.', d3, '.', d4]) == [d1, '.', d2, d3, d4]
  {
    var a := [d2, '.', d3, '.', d4];
    assert [d1, '.', d2, '.', d3, '.', d4] == [d1] + ['.'] + a;
    assert [d1, '.', d2, d3, d4] == [d1] + ['.'] + [d2, d3, d4];
    RemoveDots(d2, d3, d4);
    ShortDottedDots([d1, '.', d2, '.', d3, '.', d4], d1, a, [d2, d3, d4], [d1, '.', d2, d3, d4]);
  }

  lemma ShortDottedDots(v: string, d1: char, a: string, digits: string, expected: string)
    requires IsDigit(d1) && DigitsOrDots(a) && v == [d1] + ['.'] + a
    requires Remove(a, '.') == digits && expected == [d1] + ['.'] + digits
    ensures FormatAmount(v) == expected
  {
    assert DigitsOrDots(v) by {
      assert forall k :: 1 < k < |v| ==> v[k] == a[k - 2];
    }
    CleanDigitsOrDots(v);
    FormatShortDotted(v, [d1], a);
  }

  lemma RemoveDots(d2: char, d3: char, d4: char)
    requires IsDigit(d2) && IsDigit(d3) && IsDigit(d4)
    ensures Remove([d2, '.', d3, '.', d4], '.') == [d2, d3, d4]
  {
    var a3 := ['.'] + [d4];
    var a2 := [d3] + a3;
    var a1 := ['.'] + a2;
    assert [d2, '.', d3, '.', d4] == [d2] + a1;
    RemoveAbsent([d4], '.');
    RemoveCons('.', [d4], '.');
    RemoveCons(d3, a3, '.');
    RemoveCons('.', a2, '.');
    RemoveCons(d2, a1, '.');
  }

  /** Digits after the dot are never grouped, so a value such as
      "123.456789", with at most three digits before the dot, is kept as
      it is. */
  lemma FormatAmountFraction(b: string, a: string)
    requires AllDigits(b) && |b| <= 3 && AllDigits(a)
    ensures FormatAmount(b + ['.'] + a) == b + ['.'] + a
  {
    var v := b + ['.'] + a;
    CleanDigitsOrDots(v);
    RemoveAbsent(a, '.');
    FormatShortDotted(v, b, a);
  }

  /** The empty text and a lone dot are their own formatting. */
  lemma FormatAmountTrivial(v: string)
    requires v == "" || v == "."
    ensures FormatAmount(v) == v
  {
    var r := FormatAmount(v);
    assert Clean(v) == v;
    FormatAmountParts(v);
    assert Group("") == "" by {
      GroupFromShort("", 0);
    }
    if v == "." {
      FirstSeparatorSplits(r, '.');
    }
  }
}
