/**
 * The strict commit-message parser of githelper.py: the closed set of commit types,
 * the `SemanticMessage` record with its two field validators, and `parse_commit_msg`,
 * which full-matches the commit-header pattern and then builds the record.
 *
 * Python's exceptions become `Result` failures: `ParseError.NoMatch` for "does not
 * follow semantic syntax" and `ParseError.InvalidFields` for "Failed to parse", which
 * carries the field errors of the validation failure it wraps.
 */
module GitHelper {
  import opened Wrappers
  import opened CommitPattern

  /** The commit types a semantic message may carry. */
  const TYPES: set<string> :=
    {"build", "chore", "ci", "docs", "feat", "fix", "perf", "refactor", "revert", "style", "test", "temp"}

  /** A parsed commit header. `typ` stands for the field `type`. */
  datatype SemanticMessage = SemanticMessage(typ: string, scope: Option<string>, breaking: bool, subject: string)

  /** The Python values a "before" validator can be handed: None, a bool, a str, or anything else. */
  datatype PyValue = PyNone | PyBool(b: bool) | PyStr(s: string) | PyOther

  /** One failed field of a `SemanticMessage` construction. */
  datatype FieldError = InvalidType(typ: string) | UnexpectedBreaking(value: PyValue)

  /** The two ways `parse_commit_msg` fails. */
  datatype ParseError = NoMatch | InvalidFields(errors: seq<FieldError>)

  /** `_validate_type`: the type must be one of `TYPES`; it is kept unchanged. */
  function ValidateType(v: string): (r: Result<string, FieldError>)
    ensures r.Success? <==> v in TYPES
    ensures r.Success? ==> r.value == v
    ensures r.Failure? ==> r.error == InvalidType(v)
  {
    if v !in TYPES then Failure(InvalidType(v)) else Success(v)
  }

  /**
   * `_validate_breaking`: `True` and `"!"` mean breaking, `False` and `None` mean not
   * breaking, and every other value is refused.
   */
  function ValidateBreaking(v: PyValue): (r: Result<bool, FieldError>)
    ensures r.Success? <==> v.PyNone? || v.PyBool? || v == PyStr("!")
    ensures r.Success? ==> (r.value <==> v == PyBool(true) || v == PyStr("!"))
    ensures r.Failure? ==> r.error == UnexpectedBreaking(v)
  {
    if v == PyBool(true) || v == PyStr("!") then Success(true)
    else if v == PyBool(false) || v == PyNone then Success(false)
    else Failure(UnexpectedBreaking(v))
  }

  /**
   * `SemanticMessage(type=…, scope=…, breaking=…, subject=…)`: runs both validators and
   * either builds the record or fails with every field error, in field order.
   */
  function NewSemanticMessage(typ: string, scope: Option<string>, breaking: PyValue, subject: string)
    : (r: Result<SemanticMessage, seq<FieldError>>)
    ensures r.Success? <==> typ in TYPES && ValidateBreaking(breaking).Success?
    ensures r.Success? ==> r.value.typ == typ && r.value.scope == scope && r.value.subject == subject
    ensures r.Success? ==> (r.value.breaking <==> breaking == PyBool(true) || breaking == PyStr("!"))
    ensures r.Failure? ==> |r.error| > 0
    ensures r.Failure? ==> (InvalidType(typ) in r.error <==> typ !in TYPES)
    ensures r.Failure? ==> (UnexpectedBreaking(breaking) in r.error <==> !ValidateBreaking(breaking).Success?)
    ensures r.Failure? ==> forall e :: e in r.error ==> e == InvalidType(typ) || e == UnexpectedBreaking(breaking)
    ensures r.Failure? ==> |r.error| <= 2 && (|r.error| == 2 ==> r.error[0].InvalidType? && r.error[1].UnexpectedBreaking?)
  {
    var t := ValidateType(typ);
    var b := ValidateBreaking(breaking);
    if t.Success? && b.Success? then
      Success(SemanticMessage(t.value, scope, b.value, subject))
    else
      Failure((if t.Failure? then [t.error] else []) + (if b.Failure? then [b.error] else []))
  }

  /**
   * The value `match.groupdict()` holds for an optional group: None exactly when the
   * group did not take part, and otherwise a str from which the group's text is recovered.
   */
  function GroupValue(group: Option<string>): (v: PyValue)
    ensures v.PyNone? || v.PyStr?
    ensures v.PyNone? <==> group.None?
    ensures v.PyStr? ==> group == Some(v.s)
  {
    match group
    case None => PyNone
    case Some(text) => PyStr(text)
  }

  /** `parse_commit_msg`: full-match the pattern, then construct the record. */
  function ParseCommitMsg(commitMsg: string): (r: Result<SemanticMessage, ParseError>)
    ensures r.Success? ==> WellFormed(r.value) && Render(r.value) == commitMsg
    ensures r.Failure? && r.error.InvalidFields? ==>
      FullMatch(commitMsg).Some? && r.error.errors == [InvalidType(FullMatch(commitMsg).value.typ)]
  {
    match FullMatch(commitMsg)
    case None => Failure(NoMatch)
    case Some(g) =>
      match NewSemanticMessage(g.typ, g.scope, GroupValue(g.breaking), g.subject)
      case Success(m) =>
        assert ToGroups(m) == g;
        Success(m)
      case Failure(errors) => Failure(InvalidFields(errors))
  }

  /** The groups a message fills in: the breaking group holds `!` exactly when the message is breaking. */
  function ToGroups(m: SemanticMessage): Groups {
    Groups(m.typ, m.scope, if m.breaking then Some("!") else None, m.subject)
  }

  /** The header a message stands for: `<type>[(<scope>)][!]: <subject>`. */
  function Render(m: SemanticMessage): string {
    Assemble(ToGroups(m))
  }

  /** A message that some commit header parses to: a listed type and groups the pattern allows. */
  predicate WellFormed(m: SemanticMessage) {
    m.typ in TYPES && ValidGroups(ToGroups(m))
  }

  /** Every listed type is a non-empty word of `a`-`z`, so the type validator never refuses what the pattern could not match. */
  lemma TypesAreLowerWords()
    ensures forall t :: t in TYPES ==> |t| > 0 && AllIn(t, Lower)
  {
    forall t | t in TYPES
      ensures |t| > 0 && AllIn(t, Lower)
    {
      assert t in ["build", "chore", "ci", "docs", "feat", "fix", "perf", "refactor", "revert", "style", "test", "temp"];
    }
  }

  /** What the pattern puts in the breaking group is always accepted by `_validate_breaking`. */
  lemma BreakingGroupAccepted(g: Groups)
    requires ValidGroups(g)
    ensures ValidateBreaking(GroupValue(g.breaking)) == Success(g.breaking.Some?)
  {
  }

  /** Rendering a well-formed message and parsing it back gives the same message. */
  lemma ParseRender(m: SemanticMessage)
    requires WellFormed(m)
    ensures ParseCommitMsg(Render(m)) == Success(m)
  {
    FullMatchComplete(ToGroups(m));
  }

  /** Two well-formed messages with the same header are the same message. */
  lemma RenderInjective(m1: SemanticMessage, m2: SemanticMessage)
    requires WellFormed(m1) && WellFormed(m2)
    requires Render(m1) == Render(m2)
    ensures m1 == m2
  {
    ParseRender(m1);
    ParseRender(m2);
  }

  /**
   * A header of the right shape whose type is not listed fails field validation,
   * with the type as the only field error; it is not a no-match.
   */
  lemma UnlistedTypeFailsValidation(g: Groups)
    requires ValidGroups(g) && g.typ !in TYPES
    ensures ParseCommitMsg(Assemble(g)) == Failure(InvalidFields([InvalidType(g.typ)]))
  {
    FullMatchComplete(g);
  }

  /**
   * The three outcomes: no match exactly when the string is outside the pattern's
   * language; field errors exactly when it matches with an unlisted type; a record
   * exactly when it is the header of a well-formed message. The pattern is checked
   * before any field.
   */
  lemma ParseOutcomes(s: string)
    ensures ParseCommitMsg(s) == Failure(NoMatch) <==> !Matches(s)
    ensures ParseCommitMsg(s).Failure? && ParseCommitMsg(s).error.InvalidFields?
      <==> exists g :: ValidGroups(g) && Assemble(g) == s && g.typ !in TYPES
    ensures ParseCommitMsg(s).Success? <==> exists m :: WellFormed(m) && Render(m) == s
  {
    FullMatchIff(s);
    if g :| ValidGroups(g) && Assemble(g) == s && g.typ !in TYPES {
      UnlistedTypeFailsValidation(g);
    }
    if m :| WellFormed(m) && Render(m) == s {
      ParseRender(m);
    }
  }

  /** A message containing a line feed anywhere never matches. */
  lemma NewlineNeverMatches(s: string)
    requires '\n' in s
    ensures ParseCommitMsg(s) == Failure(NoMatch)
  {
    if FullMatch(s).Some? {
      AssembleHasNoNewline(FullMatch(s).value);
    }
  }

  /** A message that does not start with a letter `a`-`z` (an upper-case type, say) never matches. */
  lemma NoLeadingLowerNeverMatches(s: string)
    requires |s| == 0 || !InClass(s[0], Lower)
    ensures ParseCommitMsg(s) == Failure(NoMatch)
  {
  }

  /**
   * How a parsed message sits in its header. With `h` the length of the part before
   * `: `: that part has no colon, no upper-case letter and no line feed, so this `: `
   * is the first colon of the message; the subject is everything after it, verbatim
   * and non-empty; and the message is breaking exactly when a `!` ends the part before
   * the colon, the only `!` it may hold.
   */
  lemma ParsedLayout(s: string)
    requires ParseCommitMsg(s).Success?
    ensures var m := ParseCommitMsg(s).value; var h := |s| - |m.subject| - 2;
      && 0 < h && s[h..h + 2] == ": " && s[h + 2..] == m.subject && |m.subject| > 0
      && (forall k :: 0 <= k < h ==> HeaderChar(s[k]))
      && (forall k :: 0 <= k < h - 1 ==> s[k] != '!')
      && (m.breaking <==> s[h - 1] == '!')
  {
    AssembleLayout(ToGroups(ParseCommitMsg(s).value));
  }
}
