/** The form validators: `validateProjectForm`, `validateInput` with its e-mail and phone
    patterns, and `validateContactForm`. Field values are given as strings; the CSS classes
    and error elements the script adds to the page are not modelled. */
module Validation {
  import opened Text

  // ---------------------------------------------------------------------------------------
  // The e-mail pattern /^[^\s@]+@[^\s@]+\.[^\s@]+$/

  /** `[^\s@]` */
  predicate EmailChar(c: char) {
    !IsSpace(c) && c != '@'
  }

  predicate AllEmailChars(s: string) {
    forall i :: 0 <= i < |s| ==> EmailChar(s[i])
  }

  /** The pattern read literally: a split of `s` into `[^\s@]+`, '@', `[^\s@]+`, '.',
      `[^\s@]+`, anchored at both ends. */
  predicate MatchesEmail(s: string)
    ensures MatchesEmail(s) ==> |s| >= 5 && EmailChar(s[0]) && EmailChar(s[|s| - 1])
  {
    exists at, dot | 0 < at < dot < |s| :: EmailSplit(s, at, dot)
  }

  /** `s[at]` is the pattern's '@' and `s[dot]` its '.', and the three runs between them match
      `[^\s@]+`. */
  predicate EmailSplit(s: string, at: int, dot: int) {
    && 0 < at && at + 1 < dot && dot + 1 < |s|
    && s[at] == '@' && s[dot] == '.'
    && AllEmailChars(s[..at]) && AllEmailChars(s[at + 1..dot]) && AllEmailChars(s[dot + 1..])
  }

  /** The same language described in words: no white space, exactly one '@', something
      before it, and after it a '.' with at least one character on each side. */
  ghost predicate EmailShape(s: string) {
    && NoSpace(s)
    && Count(s, '@') == 1
    && exists at, dot :: AtThenDot(s, at, dot)
  }

  ghost predicate AtThenDot(s: string, at: int, dot: int) {
    0 < at && at + 1 < dot && dot + 1 < |s| && s[at] == '@' && s[dot] == '.'
  }

  lemma {:induction false} AllEmailCharsOfPart(s: string, i: int, j: int)
    requires 0 <= i <= j <= |s| && NoSpace(s[i..j]) && '@' !in s[i..j]
    ensures AllEmailChars(s[i..j])
  {
    forall k | 0 <= k < j - i ensures EmailChar(s[i..j][k]) {
      assert s[i..j][k] in s[i..j];
    }
  }

  lemma NoSpaceSlice(s: string, i: int, j: int)
    requires NoSpace(s) && 0 <= i <= j <= |s|
    ensures NoSpace(s[i..j])
  {
    assert forall k :: 0 <= k < j - i ==> s[i..j][k] == s[i + k];
  }

  /** The literal reading of the pattern and the description in words agree. */
  lemma EmailPatternMeaning(s: string)
    ensures MatchesEmail(s) <==> EmailShape(s)
  {
    if MatchesEmail(s) { PatternToShape(s); }
    if EmailShape(s) { ShapeToPattern(s); }
  }

  lemma {:induction false} PatternToShape(s: string)
    requires MatchesEmail(s)
    ensures EmailShape(s)
  {
    var at, dot :| 0 < at < dot < |s| && EmailSplit(s, at, dot);
    var before, middle, after := s[..at], s[at + 1..dot], s[dot + 1..];
    assert s == before + [s[at]] + (middle + [s[dot]] + after);
    forall k | 0 <= k < |s| ensures !IsSpace(s[k]) {
      if k < at { assert s[k] == before[k]; }
      else if at < k < dot { assert s[k] == middle[k - at - 1]; }
      else if k > dot { assert s[k] == after[k - dot - 1]; }
    }
    CountZero(before, '@');
    CountZero(middle, '@');
    CountZero(after, '@');
    CountConcat(middle, [s[dot]], '@');
    CountConcat(middle + [s[dot]], after, '@');
    CountConcat(before, [s[at]], '@');
    CountConcat(before + [s[at]], middle + [s[dot]] + after, '@');
    assert AtThenDot(s, at, dot);
  }

  lemma {:induction false} ShapeToPattern(s: string)
    requires EmailShape(s)
    ensures MatchesEmail(s)
  {
    var at, dot :| AtThenDot(s, at, dot);
    var before, after := s[..at], s[at + 1..];
    assert s == before + [s[at]] + after;
    CountConcat(before, [s[at]], '@');
    CountConcat(before + [s[at]], after, '@');
    CountZero(before, '@');
    CountZero(after, '@');
    assert s[at + 1..dot] == after[..dot - at - 1];
    assert s[dot + 1..] == after[dot - at..];
    NoSpaceSlice(s, 0, at);
    NoSpaceSlice(s, at + 1, dot);
    NoSpaceSlice(s, dot + 1, |s|);
    AllEmailCharsOfPart(s, 0, at);
    AllEmailCharsOfPart(s, at + 1, dot);
    AllEmailCharsOfPart(s, dot + 1, |s|);
    assert s[0..at] == s[..at];
    assert EmailSplit(s, at, dot);
  }

  // ---------------------------------------------------------------------------------------
  // The phone pattern /^[\+]?[\d\s\-\(\)]{10,}$/

  /** `[\d\s\-\(\)]`; `\d` is the ASCII digits only. */
  predicate PhoneChar(c: char) {
    ('0' <= c <= '9') || IsSpace(c) || c == '-' || c == '(' || c == ')'
  }

  /** `[\d\s\-\(\)]{10,}` */
  predicate PhoneBody(s: string) {
    |s| >= 10 && forall i :: 0 <= i < |s| ==> PhoneChar(s[i])
  }

  /** The phone rule in words: after an optional leading '+', at least ten characters, each a
      digit, white space, '-', '(' or ')'. */
  predicate PhoneWords(s: string) {
    var start := if |s| > 0 && s[0] == '+' then 1 else 0;
    |s| - start >= 10 && forall i :: start <= i < |s| ==> PhoneChar(s[i])
  }

  /** The pattern read literally: an optional leading '+', then the body. It holds exactly
      when the rule in words does. */
  predicate MatchesPhone(s: string)
    ensures MatchesPhone(s) <==> PhoneWords(s)
  {
    if |s| > 0 && s[0] == '+' then
      assert !PhoneChar(s[0]);
      assert forall i :: 1 <= i < |s| ==> s[i] == s[1..][i - 1];
      PhoneBody(s) || PhoneBody(s[1..])
    else
      PhoneBody(s)
  }

  /** A phone number has at least ten characters, and a '+' can only stand first. */
  lemma PhoneShape(s: string)
    requires MatchesPhone(s)
    ensures |s| >= 10
    ensures forall i :: 0 < i < |s| ==> s[i] != '+'
    ensures Count(s, '+') <= 1
  {
    if PhoneBody(s) {
      assert forall i :: 0 <= i < |s| ==> s[i] != '+';
      CountZero(s, '+');
    } else {
      assert s == [s[0]] + s[1..];
      assert forall i :: 0 < i < |s| ==> s[i] == s[1..][i - 1];
      assert forall i :: 0 <= i < |s[1..]| ==> s[1..][i] != '+';
      CountZero(s[1..], '+');
      CountConcat([s[0]], s[1..], '+');
    }
  }


  // ---------------------------------------------------------------------------------------
  // validateInput

  /** The `type` attribute of a form control: 'email', 'tel', or anything else (a textarea's
      type is 'textarea'). */
  datatype InputKind = Email | Tel | Other

  datatype Input = Input(value: string, required: bool, kind: InputKind)

  /** `validateInput`: the required rule on the trimmed value; a non-empty value must then
      match the pattern of its kind, or be at least two UTF-16 code units long (`length`)
      for other kinds. A non-empty accepted value is always at least two code units long, and
      an accepted e-mail address or telephone number at least two characters. */
  function ValidateInput(input: Input): (ok: bool)
    ensures ok && Trim(input.value) != [] ==> Utf16Length(Trim(input.value)) >= 2
    ensures ok && input.kind != Other && Trim(input.value) != [] ==> |Trim(input.value)| >= 2
  {
    var value := Trim(input.value);
    if value == [] && input.required then false
    else if value != [] then
      match input.kind
      case Email =>
        var ok := MatchesEmail(value);
        assert ok ==> |value| >= 2;
        ok
      case Tel =>
        var ok := MatchesPhone(value);
        assert ok ==> |value| >= 2 by { if ok { PhoneShape(value); } }
        ok
      case Other => Utf16Length(value) >= 2
    else true
  }

  /** The required rule: an empty (or all white-space) value is rejected iff the field is
      required. */
  lemma EmptyInputRule(input: Input)
    requires AllSpace(input.value)
    ensures ValidateInput(input) <==> !input.required
  {
    TrimEmptyIffAllSpace(input.value);
  }

  /** For a non-empty e-mail field, the rule in words. */
  lemma EmailInputRule(input: Input)
    requires input.kind == Email && !AllSpace(input.value)
    ensures ValidateInput(input) <==> EmailShape(Trim(input.value))
  {
    TrimEmptyIffAllSpace(input.value);
    EmailPatternMeaning(Trim(input.value));
  }

  /** For a non-empty telephone field, the rule in words. */
  lemma PhoneInputRule(input: Input)
    requires input.kind == Tel && !AllSpace(input.value)
    ensures ValidateInput(input) <==> PhoneWords(Trim(input.value))
  {
    TrimEmptyIffAllSpace(input.value);
  }

  /** For a non-empty field of any other kind, the length rule: two characters always
      suffice, and a single character suffices exactly when it is written as a surrogate
      pair. */
  lemma OtherInputRule(input: Input)
    requires input.kind == Other && !AllSpace(input.value)
    ensures ValidateInput(input) <==> Utf16Length(Trim(input.value)) >= 2
    ensures |Trim(input.value)| >= 2 ==> ValidateInput(input)
    ensures |Trim(input.value)| == 1 ==> (ValidateInput(input) <==> Trim(input.value)[0] as int >= 0x10000)
  {
    TrimEmptyIffAllSpace(input.value);
    var value := Trim(input.value);
    if |value| == 1 {
      assert value[1..] == [];
    }
  }

  /** A required free-text field holding one emoji (U+1F600, two code units) is accepted. */
  lemma EmojiAccepted()
    ensures ValidateInput(Input("\U{1F600}", true, Other))
  {
    TrimOfTrimmed("\U{1F600}");
    assert Utf16Length("\U{1F600}") == 2 by {
      assert "\U{1F600}"[1..] == [];
    }
  }

  /** White space around the value never changes the verdict. */
  lemma {:induction false} ValidateIgnoresSurroundingSpace(input: Input)
    ensures ValidateInput(input) == ValidateInput(input.(value := Trim(input.value)))
  {
    TrimIdempotent(input.value);
    assert Trim(input.(value := Trim(input.value)).value) == Trim(input.value);
  }

  // ---------------------------------------------------------------------------------------
  // validateContactForm

  /** A control passes `validateContactForm` when it is not selected (not `[required]`) or
      `validateInput` accepts it. */
  predicate Passes(input: Input) {
    !input.required || ValidateInput(input)
  }

  /** `validateContactForm` over the form's controls: the selector picks the required
      controls only, and each of them is validated, with no short-circuit after a failure; an
      optional control counts as passing. `verdicts` records each control's outcome, and the
      form is valid exactly when every required control is accepted. */
  method ValidateContactForm(inputs: seq<Input>) returns (isValid: bool, verdicts: seq<bool>)
    ensures |verdicts| == |inputs|
    ensures forall k :: 0 <= k < |inputs| ==> verdicts[k] == Passes(inputs[k])
    ensures isValid <==> forall k :: 0 <= k < |inputs| && inputs[k].required ==> ValidateInput(inputs[k])
  {
    isValid := true;
    verdicts := [];
    var i := 0;
    while i < |inputs|
      invariant 0 <= i <= |inputs| && |verdicts| == i
      invariant forall k :: 0 <= k < i ==> verdicts[k] == Passes(inputs[k])
      invariant isValid <==> forall k :: 0 <= k < i ==> verdicts[k]
    {
      var ok := Passes(inputs[i]);
      if !ok {
        isValid := false;
      }
      verdicts := verdicts + [ok];
      i := i + 1;
    }
  }

  // ---------------------------------------------------------------------------------------
  // validateProjectForm

  datatype FormCheck = FormCheck(valid: bool, errors: seq<string>)

  const TitleRequired: string := "Project title is required"
  const DescriptionRequired: string := "Project description is required"

  /** `validateProjectForm`: both trimmed fields must be non-empty; each empty field gets its
      own error message, title first, so both are checked even when the first fails. */
  function ValidateProjectForm(title: string, description: string): (r: FormCheck)
    ensures r.valid <==> Trim(title) != [] && Trim(description) != []
    ensures r.valid <==> r.errors == []
    ensures TitleRequired in r.errors <==> Trim(title) == []
    ensures DescriptionRequired in r.errors <==> Trim(description) == []
    ensures |r.errors| <= 2
  {
    var e1 := if Trim(title) == [] then [TitleRequired] else [];
    var e2 := if Trim(description) == [] then [DescriptionRequired] else [];
    assert TitleRequired != DescriptionRequired by { assert TitleRequired[8] != DescriptionRequired[8]; }
    FormCheck(e1 + e2 == [], e1 + e2)
  }
}
