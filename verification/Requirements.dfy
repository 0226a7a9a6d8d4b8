/** Version requirements of mod dependencies, as text. */
module Requirements {
  import opened Prelude
  import opened Text

  // ---- The comparison

  /** How semantic versions compare: the rank of a valid one, and None for any other text. */
  type Ranking = string -> Option<real>

  const OPERATORS: seq<string> := [">=", "<=", "==", ">", "<", "="]

  /** The first operator the requirement begins with. */
  function Operator(requirement: string): (op: Option<string>)
    ensures op.Some? ==> op.value <= requirement
  {
    if OPERATORS[0] <= requirement then Some(OPERATORS[0])
    else if OPERATORS[1] <= requirement then Some(OPERATORS[1])
    else if OPERATORS[2] <= requirement then Some(OPERATORS[2])
    else if OPERATORS[3] <= requirement then Some(OPERATORS[3])
    else if OPERATORS[4] <= requirement then Some(OPERATORS[4])
    else if OPERATORS[5] <= requirement then Some(OPERATORS[5])
    else None
  }

  function Normalized(rank: Ranking, version: string): Option<real> {
    var trimmed := Trim(version);
    if trimmed == "" then None
    else rank(if "v" <= Lower(trimmed) then trimmed else "v" + trimmed)
  }

  predicate Holds(op: string, actual: real, required: real) {
    match op
    case ">" => actual > required
    case "<" => actual < required
    case "<=" => actual <= required
    case "=" => actual == required
    case "==" => actual == required
    case _ => actual >= required
  }

  predicate Satisfies(rank: Ranking, version: string, requirement: string) {
    var text := Trim(requirement);
    if text == "" || text == "*" then true
    else
      var op := Operator(text);
      var bound := if op.Some? then Trim(text[|op.value|..]) else text;
      var actual, required := Normalized(rank, version), Normalized(rank, bound);
      if actual.None? || required.None? then
        (op == Some("=") || op == Some("==")) && EqualFold(Trim(version), bound)
      else Holds(if op.Some? then op.value else ">=", actual.value, required.value)
  }

  /** A version number as an author writes it, without an operator or white space. */
  predicate Bare(text: string) {
    text != "" && text != "*" && Trimmed(text) && text[0] !in {'<', '>', '='}
  }

  /** What a requirement says, for every operator and any white space around its parts: the
      comparison it names, and at least that version when it names none. */
  lemma RequirementMeaning(rank: Ranking, version: string, op: string, bound: string, a: string, b: string, c: string)
    requires op in OPERATORS && Bare(bound) && Spaces(a) && Spaces(b) && Spaces(c)
    requires Normalized(rank, version).Some? && Normalized(rank, bound).Some?
    ensures var satisfied := Satisfies(rank, version, a + (op + b + bound) + c);
            var actual, required := Normalized(rank, version).value, Normalized(rank, bound).value;
            && (op == ">=" ==> (satisfied <==> actual >= required))
            && (op == ">" ==> (satisfied <==> actual > required))
            && (op == "<=" ==> (satisfied <==> actual <= required))
            && (op == "<" ==> (satisfied <==> actual < required))
            && (op == "=" || op == "==" ==> (satisfied <==> actual == required))
    ensures Satisfies(rank, version, a + bound + c) <==> Normalized(rank, version).value >= Normalized(rank, bound).value
  {
    hide Satisfies, Normalized, Trim;
    SpacesDoNotMatter(rank, version, op, bound, a, b, c);
    ReadWithOperator(rank, version, op, b + bound, bound);
    ReadWithoutOperator(rank, version, bound);
  }

  /** Texts that are no semantic versions are compared only for being the same. */
  lemma UnrankedMeaning(rank: Ranking, version: string, op: string, bound: string, a: string, b: string, c: string)
    requires op in OPERATORS && Bare(bound) && Spaces(a) && Spaces(b) && Spaces(c)
    requires Normalized(rank, version).None? || Normalized(rank, bound).None?
    ensures Satisfies(rank, version, a + (op + b + bound) + c) <==>
            (op == "=" || op == "==") && Lower(Trim(version)) == Lower(bound)
    ensures !Satisfies(rank, version, a + bound + c)
  {
    hide Satisfies, Normalized, Trim;
    SpacesDoNotMatter(rank, version, op, bound, a, b, c);
    ReadWithOperator(rank, version, op, b + bound, bound);
    ReadWithoutOperator(rank, version, bound);
  }

  /** An operator with no version behind it is met by nothing but a blank version, and only
      if it asks for equality. */
  lemma OperatorAlone(rank: Ranking, version: string, op: string, a: string, b: string)
    requires op in OPERATORS && Spaces(a) && Spaces(b)
    ensures Satisfies(rank, version, a + op + b) <==> (op == "=" || op == "==") && Trim(version) == ""
  {
    hide Normalized, Trim;
    OperatorIsWhole(op);
    TrimAround(a, op, b);
    TrimOfSpaces("");
    assert op[|op|..] == "";
    assert Normalized(rank, "") == None by { BlankIsNoVersion(rank); }
    assert EqualFold(Trim(version), "") <==> Trim(version) == "" by {
      assert |Lower(Trim(version))| == |Trim(version)|;
    }
  }

  lemma BlankIsNoVersion(rank: Ranking)
    ensures Normalized(rank, "") == None
  {
  }

  lemma OperatorIsWhole(op: string)
    requires op in OPERATORS
    ensures Operator(op) == Some(op) && Trimmed(op) && op != "" && op != "*"
  {
    FirstChars(op);
  }

  /** No requirement, or a star, is met by every version. */
  lemma AnyVersionMeaning(rank: Ranking, version: string, a: string, c: string)
    requires Spaces(a) && Spaces(c)
    ensures Satisfies(rank, version, a) && Satisfies(rank, version, a + "*" + c)
  {
    hide Normalized, Operator, EqualFold, Trim;
    TrimAround(a, "*", c);
    TrimOfSpaces(a);
  }

  /** The "v" in front of a version may be missing, and white space around it does not count. */
  lemma NormalizedMeaning(rank: Ranking, version: string, a: string, c: string)
    requires version != "" && Trimmed(version) && Spaces(a) && Spaces(c)
    ensures Normalized(rank, a + version + c) == rank(if version[0] == 'v' || version[0] == 'V' then version else "v" + version)
    ensures Normalized(rank, a) == None
  {
    hide Trim;
    TrimAround(a, version, c);
    TrimOfSpaces(a);
    assert Lower(version)[0] == LowerChar(version[0]);
  }

  lemma SpacesDoNotMatter(rank: Ranking, version: string, op: string, bound: string, a: string, b: string, c: string)
    requires op in OPERATORS && Bare(bound) && Spaces(a) && Spaces(b) && Spaces(c)
    ensures var rest := b + bound;
            && Trim(rest) == bound && rest != "" && rest[0] !in {'<', '>', '='} && !IsSpace(rest[|rest| - 1])
            && Satisfies(rank, version, a + (op + b + bound) + c) == Satisfies(rank, version, op + rest)
            && Satisfies(rank, version, a + bound + c) == Satisfies(rank, version, bound)
  {
    hide Satisfies, Holds, Normalized, Trim;
    var rest := b + bound;
    assert op + b + bound == op + rest;
    assert b + bound + "" == rest;
    TrimAround(b, bound, "");
    assert rest[0] !in {'<', '>', '='} by {
      if b != "" { assert rest[0] == b[0] && IsSpace(b[0]); }
    }
    assert rest[|rest| - 1] == bound[|bound| - 1];
    OperatorIsNoSpace(op, rest);
    TrimAround(a, op + rest, c);
    SameWhenTrimmed(rank, version, a + (op + b + bound) + c, op + rest);
    TrimAround(a, bound, c);
    SameWhenTrimmed(rank, version, a + bound + c, bound);
  }

  lemma OperatorIsNoSpace(op: string, rest: string)
    requires op in OPERATORS && rest != "" && !IsSpace(rest[|rest| - 1])
    ensures op + rest != "" && Trimmed(op + rest)
  {
    var text := op + rest;
    assert text[0] == op[0] && text[|text| - 1] == rest[|rest| - 1];
  }

  lemma SameWhenTrimmed(rank: Ranking, version: string, requirement: string, text: string)
    requires Trim(requirement) == text && Trimmed(text)
    ensures Satisfies(rank, version, requirement) == Satisfies(rank, version, text)
  {
    hide Normalized, Holds, EqualFold, Trim, Operator;
    TrimmedStays(text);
  }

  lemma ReadWithoutOperator(rank: Ranking, version: string, bound: string)
    requires Bare(bound)
    ensures var actual, required := Normalized(rank, version), Normalized(rank, bound);
            Satisfies(rank, version, bound) <==> actual.Some? && required.Some? && Holds(">=", actual.value, required.value)
  {
    hide Normalized, Holds, EqualFold, Trim, Operator;
    TrimmedStays(bound);
    NoOperator(bound);
  }

  lemma ReadWithOperator(rank: Ranking, version: string, op: string, rest: string, bound: string)
    requires op in OPERATORS && Bare(bound) && Trim(rest) == bound
    requires rest != "" && rest[0] !in {'<', '>', '='} && !IsSpace(rest[|rest| - 1])
    ensures var actual, required := Normalized(rank, version), Normalized(rank, bound);
            Satisfies(rank, version, op + rest) <==>
            if actual.None? || required.None? then (op == "=" || op == "==") && EqualFold(Trim(version), bound)
            else Holds(op, actual.value, required.value)
  {
    hide Holds, Normalized, EqualFold, Trim, Operator;
    OperatorIsRead(op, rest);
    assert op + rest != "";
  }

  lemma NoOperator(text: string)
    requires text != "" && text[0] !in {'<', '>', '='}
    ensures Operator(text) == None
  {
    FirstChars(text);
  }

  lemma FirstChars(text: string)
    requires text != ""
    ensures ">" <= text <==> text[0] == '>'
    ensures "<" <= text <==> text[0] == '<'
    ensures "=" <= text <==> text[0] == '='
    ensures ">=" <= text <==> |text| > 1 && text[0] == '>' && text[1] == '='
    ensures "<=" <= text <==> |text| > 1 && text[0] == '<' && text[1] == '='
    ensures "==" <= text <==> |text| > 1 && text[0] == '=' && text[1] == '='
  {
  }

  lemma OperatorIsRead(op: string, rest: string)
    requires op in OPERATORS && rest != "" && rest[0] !in {'<', '>', '='} && !IsSpace(rest[|rest| - 1])
    ensures Trim(op + rest) == op + rest && Operator(op + rest) == Some(op) && (op + rest)[|op|..] == rest
    ensures op + rest != "*"
  {
    var text := op + rest;
    FirstChars(text);
    assert text[0] == op[0] && text[|text| - 1] == rest[|rest| - 1] && text[|op|] == rest[0];
    assert |op| == 1 || (|op| == 2 && text[1] == op[1]);
    TrimmedStays(text);
    OperatorOf(op, text);
  }

  lemma OperatorOf(op: string, text: string)
    requires op in OPERATORS && |text| > |op| && op <= text && text[|op|] !in {'<', '>', '='}
    ensures Operator(text) == Some(op)
  {
    FirstChars(text);
    assert forall i :: 0 <= i < |op| ==> text[i] == op[i];
  }
}
