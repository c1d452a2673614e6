/** The Label schema's validation: what a label document must look like
    before it is saved. Mongoose applies the `trim` setter to the name when
    it is assigned, then runs every path's validators and reports all the
    paths that fail together. */
module Labels {
  import opened Results
  import opened Model
  import JsText

  const MAX_NAME_LENGTH: nat := 50

  // ---------------------------------------------------------------------
  // The colour pattern /^#([0-9A-F]{3}){1,2}$/i
  // ---------------------------------------------------------------------

  /** `[0-9A-F]` under the `i` flag. Without the `u` flag a non-ASCII
      character never folds onto an ASCII one, so only these match. */
  predicate IsHexDigit(c: char) {
    ('0' <= c <= '9') || ('A' <= c <= 'F') || ('a' <= c <= 'f')
  }

  /** `[0-9A-F]{3}` */
  predicate HexTriple(s: string) {
    |s| == 3 && IsHexDigit(s[0]) && IsHexDigit(s[1]) && IsHexDigit(s[2])
  }

  /** `([0-9A-F]{3}){1,2}` anchored at both ends: one group, or two. */
  predicate HexGroups(s: string) {
    HexTriple(s) || (|s| == 6 && HexTriple(s[..3]) && HexTriple(s[3..]))
  }

  /** The whole pattern; `$` without the `m` flag matches only at the end. */
  predicate MatchesColor(s: string) {
    |s| > 0 && s[0] == '#' && HexGroups(s[1..])
  }

  /** A colour matches exactly when it is `#` followed by three or six hex
      digits and nothing else. */
  lemma ColorShape(s: string)
    ensures MatchesColor(s) <==>
      && (|s| == 4 || |s| == 7)
      && s[0] == '#'
      && forall i :: 1 <= i < |s| ==> IsHexDigit(s[i])
  {
    if |s| == 7 && s[0] == '#' && (forall i :: 1 <= i < |s| ==> IsHexDigit(s[i])) {
      var g := s[1..];
      assert g[..3] == s[1..4] && g[3..] == s[4..7];
      assert HexTriple(g[..3]) by { assert g[..3][0] == s[1] && g[..3][1] == s[2] && g[..3][2] == s[3]; }
      assert HexTriple(g[3..]) by { assert g[3..][0] == s[4] && g[3..][1] == s[5] && g[3..][2] == s[6]; }
    }
    if MatchesColor(s) && |s| == 7 {
      var g := s[1..];
      forall i | 1 <= i < 7 ensures IsHexDigit(s[i]) {
        if i < 4 {
          assert s[i] == g[..3][i - 1];
        } else {
          assert s[i] == g[3..][i - 4];
        }
      }
    }
  }

  /** Four, five, or seven and more hex digits after the `#` never match. */
  lemma OtherDigitCountsRejected(s: string)
    requires |s| == 5 || |s| == 6 || |s| >= 8
    ensures !MatchesColor(s)
  {
    ColorShape(s);
  }

  /** The ASCII case mapping of a character (the `i` flag compares the
      upper-case forms). */
  function ToUpperAscii(c: char): (u: char)
    ensures 'a' <= c <= 'z' ==> u as int == c as int - 32
    ensures !('a' <= c <= 'z') ==> u == c
  {
    if 'a' <= c <= 'z' then (c as int - 32) as char else c
  }

  function ToLowerAscii(c: char): (l: char)
    ensures 'A' <= c <= 'Z' ==> l as int == c as int + 32
    ensures !('A' <= c <= 'Z') ==> l == c
  {
    if 'A' <= c <= 'Z' then (c as int + 32) as char else c
  }

  function UpperCase(s: string): (r: string)
    ensures |r| == |s| && forall i :: 0 <= i < |s| ==> r[i] == ToUpperAscii(s[i])
  {
    seq(|s|, i requires 0 <= i < |s| => ToUpperAscii(s[i]))
  }

  function LowerCase(s: string): (r: string)
    ensures |r| == |s| && forall i :: 0 <= i < |s| ==> r[i] == ToLowerAscii(s[i])
  {
    seq(|s|, i requires 0 <= i < |s| => ToLowerAscii(s[i]))
  }

  /** The match does not depend on the case of the hex letters: `#ABC`,
      `#abc` and `#aBc` are all accepted, and upper- or lower-casing an
      invalid colour does not make it valid. */
  lemma MatchIgnoresCase(s: string)
    ensures MatchesColor(UpperCase(s)) <==> MatchesColor(s)
    ensures MatchesColor(LowerCase(s)) <==> MatchesColor(s)
  {
    ColorShape(s);
    ColorShape(UpperCase(s));
    ColorShape(LowerCase(s));
    assert forall i :: 0 <= i < |s| ==> (IsHexDigit(UpperCase(s)[i]) <==> IsHexDigit(s[i]));
    assert forall i :: 0 <= i < |s| ==> (IsHexDigit(LowerCase(s)[i]) <==> IsHexDigit(s[i]));
  }

  // ---------------------------------------------------------------------
  // The document
  // ---------------------------------------------------------------------

  /** The fields as they reach the schema; None is a field left undefined. */
  datatype LabelInput = LabelInput(
    boardId: Option<ObjectId>,
    name: Option<string>,
    color: Option<string>,
    createdBy: Option<ObjectId>)

  /** A label as it is stored. */
  datatype Label = Label(boardId: ObjectId, name: string, color: string, createdBy: ObjectId)

  /** The schema paths whose validators can fail. */
  datatype LabelError =
    | BoardIdRequired
    | NameRequired
    | NameTooLong
    | ColorRequired
    | ColorInvalid
    | CreatedByRequired

  datatype Validated = Valid(doc: Label) | Invalid(errors: set<LabelError>)

  /** Mongoose's `required` on a string: undefined and the empty string fail. */
  predicate Present(v: Option<string>) {
    v.Some? && v.value != ""
  }

  /** The name as the `trim` setter stores it. */
  function TrimmedName(name: Option<string>): (r: Option<string>)
    ensures r.Some? <==> name.Some?
    ensures r.Some? ==> r.value == JsText.Trim(name.value)
    ensures Present(r) <==> name.Some? && !JsText.AllWhiteSpace(name.value)
  {
    if name.None? then None
    else
      JsText.TrimEmptyIffBlank(name.value);
      Some(JsText.Trim(name.value))
  }

  const ALL_ERRORS: set<LabelError> :=
    {BoardIdRequired, NameRequired, NameTooLong, ColorRequired, ColorInvalid, CreatedByRequired}

  /** Whether the validator behind `e` fails on `input`, the name being
      stored trimmed. The match validator lets the empty string through, so
      an empty colour fails `required` alone. */
  predicate Fails(input: LabelInput, e: LabelError) {
    match e
    case BoardIdRequired => input.boardId.None?
    case NameRequired => !Present(TrimmedName(input.name))
    case NameTooLong => input.name.Some? && |JsText.Trim(input.name.value)| > MAX_NAME_LENGTH
    case ColorRequired => !Present(input.color)
    case ColorInvalid => Present(input.color) && !MatchesColor(input.color.value)
    case CreatedByRequired => input.createdBy.None?
  }

  /** Every validator that fails on `input`: Mongoose runs them all and
      reports each failing path. */
  function Errors(input: LabelInput): (errs: set<LabelError>)
    ensures BoardIdRequired in errs <==> input.boardId.None?
    ensures CreatedByRequired in errs <==> input.createdBy.None?
    ensures NameRequired in errs <==> input.name.None? || JsText.AllWhiteSpace(input.name.value)
    ensures NameTooLong in errs <==> input.name.Some? && |JsText.Trim(input.name.value)| > MAX_NAME_LENGTH
    ensures ColorRequired in errs <==> !Present(input.color)
    ensures ColorInvalid in errs <==> Present(input.color) && !MatchesColor(input.color.value)
  {
    set e | e in ALL_ERRORS && Fails(input, e)
  }

  /** Validation of a new label: either every path passes and the stored
      document carries the trimmed name, or the failing paths are reported. */
  function Validate(input: LabelInput): (v: Validated)
    ensures v.Invalid? <==> Errors(input) != {}
    ensures v.Invalid? ==> v.errors == Errors(input)
    ensures v.Valid? ==>
      && v.doc.name == JsText.Trim(input.name.value)
      && 0 < |v.doc.name| <= MAX_NAME_LENGTH
      && MatchesColor(v.doc.color)
      && v.doc.color == input.color.value
      && v.doc.boardId == input.boardId.value
      && v.doc.createdBy == input.createdBy.value
  {
    var errs := Errors(input);
    if errs != {} then Invalid(errs)
    else
      assert NameRequired !in errs && ColorRequired !in errs;
      Valid(Label(input.boardId.value, JsText.Trim(input.name.value), input.color.value, input.createdBy.value))
  }

  /** A stored label passes validation again unchanged: trimming its name a
      second time changes nothing. */
  lemma StoredLabelRevalidates(input: LabelInput)
    requires Validate(input).Valid?
    ensures var l := Validate(input).doc;
            Validate(LabelInput(Some(l.boardId), Some(l.name), Some(l.color), Some(l.createdBy))) == Valid(l)
  {
    var l := Validate(input).doc;
    var again := LabelInput(Some(l.boardId), Some(l.name), Some(l.color), Some(l.createdBy));
    assert !JsText.AllWhiteSpace(l.name) && |JsText.Trim(l.name)| <= MAX_NAME_LENGTH by {
      JsText.TrimIdempotent(input.name.value);
      JsText.TrimEmptyIffBlank(l.name);
    }
    NoLabelErrors(again);
    assert JsText.Trim(l.name) == l.name by { JsText.TrimIdempotent(input.name.value); }
  }

  /** An input that every validator accepts has no errors. */
  lemma NoLabelErrors(input: LabelInput)
    requires input.boardId.Some? && input.createdBy.Some? && input.name.Some?
    requires !JsText.AllWhiteSpace(input.name.value)
    requires |JsText.Trim(input.name.value)| <= MAX_NAME_LENGTH
    requires Present(input.color) && MatchesColor(input.color.value)
    ensures Errors(input) == {}
  {
    NoErrorFound(Errors(input));
  }

  /** A set of label errors holding none of the six is empty. */
  lemma NoErrorFound(errs: set<LabelError>)
    requires BoardIdRequired !in errs && NameRequired !in errs && NameTooLong !in errs
    requires ColorRequired !in errs && ColorInvalid !in errs && CreatedByRequired !in errs
    ensures errs == {}
  {
    forall e | e in errs ensures false {
      match e
      case BoardIdRequired =>
      case NameRequired =>
      case NameTooLong =>
      case ColorRequired =>
      case ColorInvalid =>
      case CreatedByRequired =>
    }
  }

  /** White space around a name is never counted against the 50-character
      bound, nor does it make a blank name acceptable. */
  lemma PaddingDoesNotMatter(input: LabelInput, pre: string, post: string)
    requires input.name.Some?
    requires JsText.AllWhiteSpace(pre) && JsText.AllWhiteSpace(post)
    ensures Validate(input.(name := Some(pre + input.name.value + post))) == Validate(input)
  {
    var name := input.name.value;
    var padded := input.(name := Some(pre + name + post));
    JsText.TrimIgnoresPadding(pre, name, post);
    assert JsText.Trim(pre + name + post) == JsText.Trim(name);
    JsText.TrimEmptyIffBlank(pre + name + post);
    JsText.TrimEmptyIffBlank(name);
    assert JsText.AllWhiteSpace(pre + name + post) <==> JsText.AllWhiteSpace(name);
    SameErrors(padded, input);
  }

  /** Two inputs on which every validator agrees have the same errors. */
  lemma SameErrors(a: LabelInput, b: LabelInput)
    requires a.boardId.None? <==> b.boardId.None?
    requires a.createdBy.None? <==> b.createdBy.None?
    requires a.color == b.color
    requires a.name.Some? <==> b.name.Some?
    requires a.name.Some? ==> JsText.Trim(a.name.value) == JsText.Trim(b.name.value)
    requires a.name.Some? ==> (JsText.AllWhiteSpace(a.name.value) <==> JsText.AllWhiteSpace(b.name.value))
    ensures Errors(a) == Errors(b)
  {
    forall e: LabelError ensures e in Errors(a) <==> e in Errors(b) {
      match e
      case BoardIdRequired =>
      case NameRequired =>
      case NameTooLong =>
      case ColorRequired =>
      case ColorInvalid =>
      case CreatedByRequired =>
    }
  }
}
