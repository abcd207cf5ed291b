/**
 * Commit headers from the repository's test suite (tests/test_git.py), each
 * generalised to the family it stands for: the header of the test case followed by
 * any subject (or any remainder), and what `parse_commit_msg` does with all of them.
 * Only cases that the code of githelper.py decides are here: the suite also exercises
 * bodies, trimming and a `release` type, which that code lacks.
 */
module GitHelperCases {
  import opened Wrappers
  import opened CommitPattern
  import opened GitHelper

  // ------------------------------------------------------------ accepted headers

  /** `feat: <subject>` is a non-breaking `feat` without scope. */
  lemma TypeOnly(subject: string)
    requires |subject| > 0 && '\n' !in subject
    ensures ParseCommitMsg("feat: " + subject) == Success(SemanticMessage("feat", None, false, subject))
  {
    var m := SemanticMessage("feat", None, false, subject);
    assert Render(m) == "feat: " + subject;
    ParseRender(m);
  }

  /** `fix(api): <subject>` carries the scope `api`. */
  lemma WithScope(subject: string)
    requires |subject| > 0 && '\n' !in subject
    ensures ParseCommitMsg("fix(api): " + subject) == Success(SemanticMessage("fix", Some("api"), false, subject))
  {
    var m := SemanticMessage("fix", Some("api"), false, subject);
    assert Render(m) == "fix(api): " + subject;
    ParseRender(m);
  }

  /** `feat!: <subject>` is breaking. */
  lemma WithBreakingMarker(subject: string)
    requires |subject| > 0 && '\n' !in subject
    ensures ParseCommitMsg("feat!: " + subject) == Success(SemanticMessage("feat", None, true, subject))
  {
    var m := SemanticMessage("feat", None, true, subject);
    assert Render(m) == "feat!: " + subject;
    ParseRender(m);
  }

  /** `fix(api)!: <subject>` is breaking and carries the scope `api`. */
  lemma WithScopeAndBreakingMarker(subject: string)
    requires |subject| > 0 && '\n' !in subject
    ensures ParseCommitMsg("fix(api)!: " + subject) == Success(SemanticMessage("fix", Some("api"), true, subject))
  {
    var m := SemanticMessage("fix", Some("api"), true, subject);
    assert Render(m) == "fix(api)!: " + subject;
    ParseRender(m);
  }

  /** A scope may consist of digits only. */
  lemma NumericScope(subject: string)
    requires |subject| > 0 && '\n' !in subject
    ensures ParseCommitMsg("feat(123): " + subject) == Success(SemanticMessage("feat", Some("123"), false, subject))
  {
    var m := SemanticMessage("feat", Some("123"), false, subject);
    assert Render(m) == "feat(123): " + subject;
    ParseRender(m);
  }

  /** Spaces after the mandatory one belong to the subject: nothing is trimmed. */
  lemma ExtraSpacesKept(rest: string)
    requires '\n' !in rest
    ensures ParseCommitMsg("feat:   " + rest) == Success(SemanticMessage("feat", None, false, "  " + rest))
  {
    var m := SemanticMessage("feat", None, false, "  " + rest);
    assert Render(m) == "feat:   " + rest;
    ParseRender(m);
  }

  // ------------------------------------------------- well-shaped, type not listed

  /** `feature` is not a listed type. */
  lemma UnlistedType(subject: string)
    requires |subject| > 0 && '\n' !in subject
    ensures ParseCommitMsg("feature: " + subject) == Failure(InvalidFields([InvalidType("feature")]))
  {
    var g := Groups("feature", None, None, subject);
    assert Assemble(g) == "feature: " + subject;
    UnlistedTypeFailsValidation(g);
  }

  /** An unlisted type fails validation with a scope too. */
  lemma UnlistedTypeWithScope(subject: string)
    requires |subject| > 0 && '\n' !in subject
    ensures ParseCommitMsg("feature(auth): " + subject) == Failure(InvalidFields([InvalidType("feature")]))
  {
    var g := Groups("feature", Some("auth"), None, subject);
    assert Assemble(g) == "feature(auth): " + subject;
    UnlistedTypeFailsValidation(g);
  }

  /** `release` is not one of the listed types. */
  lemma ReleaseType(subject: string)
    requires |subject| > 0 && '\n' !in subject
    ensures ParseCommitMsg("release(uv): " + subject) == Failure(InvalidFields([InvalidType("release")]))
  {
    var g := Groups("release", Some("uv"), None, subject);
    assert Assemble(g) == "release(uv): " + subject;
    UnlistedTypeFailsValidation(g);
  }

  // ------------------------------------------------------------------- no match

  /** A line feed after the header: there is no subject line. */
  lemma MissingSubjectLine(rest: string)
    ensures ParseCommitMsg("feat(ci)\n" + rest) == Failure(NoMatch)
  {
    var msg := "feat(ci)\n" + rest;
    assert msg[8] == '\n';
    NewlineNeverMatches(msg);
  }

  /** The scope group needs at least one character. */
  lemma EmptyScope(rest: string)
    ensures ParseCommitMsg("feat()" + rest) == Failure(NoMatch)
  {
    var msg := "feat()" + rest;
    assert msg[4] == '(' && msg[5] == ')';
    forall k | 0 <= k < 4 ensures InClass(msg[k], Lower) { }
    RunStopsAt(msg, 0, 4, Lower);
    RunStopsAt(msg, 5, 5, ScopeChar);
    assert ScanScope(msg, 4) == (None, 4);
    assert ScanBang(msg, 4) == (None, 4);
  }

  /** Upper-case letters are not scope characters. */
  lemma UpperCaseScope(rest: string)
    ensures ParseCommitMsg("feat(U" + rest) == Failure(NoMatch)
  {
    var msg := "feat(U" + rest;
    assert msg[4] == '(' && msg[5] == 'U';
    forall k | 0 <= k < 4 ensures InClass(msg[k], Lower) { }
    RunStopsAt(msg, 0, 4, Lower);
    RunStopsAt(msg, 5, 5, ScopeChar);
    assert ScanScope(msg, 4) == (None, 4);
    assert ScanBang(msg, 4) == (None, 4);
  }

  /** Only parentheses delimit a scope. */
  lemma SquareBrackets(rest: string)
    ensures ParseCommitMsg("fix[" + rest) == Failure(NoMatch)
  {
    var msg := "fix[" + rest;
    assert msg[3] == '[';
    forall k | 0 <= k < 3 ensures InClass(msg[k], Lower) { }
    RunStopsAt(msg, 0, 3, Lower);
    assert ScanScope(msg, 3) == (None, 3);
    assert ScanBang(msg, 3) == (None, 3);
  }

  /** A hyphen may appear in a scope but not in a type. */
  lemma HyphenInType(rest: string)
    ensures ParseCommitMsg("fix-" + rest) == Failure(NoMatch)
  {
    var msg := "fix-" + rest;
    assert msg[3] == '-';
    forall k | 0 <= k < 3 ensures InClass(msg[k], Lower) { }
    RunStopsAt(msg, 0, 3, Lower);
    assert ScanScope(msg, 3) == (None, 3);
    assert ScanBang(msg, 3) == (None, 3);
  }

  /** A scope must be closed by `)`. */
  lemma UnclosedScope(rest: string)
    ensures ParseCommitMsg("feat(ui:" + rest) == Failure(NoMatch)
  {
    var msg := "feat(ui:" + rest;
    assert msg[4] == '(' && msg[7] == ':';
    forall k | 0 <= k < 4 ensures InClass(msg[k], Lower) { }
    forall k | 5 <= k < 7 ensures InClass(msg[k], ScopeChar) { }
    RunStopsAt(msg, 0, 4, Lower);
    RunStopsAt(msg, 5, 7, ScopeChar);
    assert ScanScope(msg, 4) == (None, 4);
    assert ScanBang(msg, 4) == (None, 4);
  }

  /** Commas and spaces are not scope characters, so a list of scopes is refused. */
  lemma ScopeList(rest: string)
    ensures ParseCommitMsg("chore(dep-update," + rest) == Failure(NoMatch)
  {
    var msg := "chore(dep-update," + rest;
    assert msg[5] == '(' && msg[16] == ',';
    forall k | 0 <= k < 5 ensures InClass(msg[k], Lower) { }
    forall k | 6 <= k < 16 ensures InClass(msg[k], ScopeChar) { }
    RunStopsAt(msg, 0, 5, Lower);
    RunStopsAt(msg, 6, 16, ScopeChar);
    assert ScanScope(msg, 5) == (None, 5);
    assert ScanBang(msg, 5) == (None, 5);
  }

  /** The breaking marker must be followed by the colon. */
  lemma MarkerWithoutColon(rest: string)
    requires rest == [] || rest[0] != ':'
    ensures ParseCommitMsg("feat(api)!" + rest) == Failure(NoMatch)
  {
    var msg := "feat(api)!" + rest;
    assert msg[4] == '(' && msg[8] == ')' && msg[9] == '!';
    assert |msg| > 10 ==> msg[10] == rest[0];
    forall k | 0 <= k < 4 ensures InClass(msg[k], Lower) { }
    forall k | 5 <= k < 8 ensures InClass(msg[k], ScopeChar) { }
    RunStopsAt(msg, 0, 4, Lower);
    RunStopsAt(msg, 5, 8, ScopeChar);
    assert msg[5..8] == "api";
    assert ScanScope(msg, 4) == (Some("api"), 9);
    assert ScanBang(msg, 9) == (Some("!"), 10);
  }

  /** At most one breaking marker. */
  lemma DoubleMarker(rest: string)
    ensures ParseCommitMsg("feat!!" + rest) == Failure(NoMatch)
  {
    var msg := "feat!!" + rest;
    assert msg[4] == '!' && msg[5] == '!';
    forall k | 0 <= k < 4 ensures InClass(msg[k], Lower) { }
    RunStopsAt(msg, 0, 4, Lower);
    assert ScanScope(msg, 4) == (None, 4);
    assert ScanBang(msg, 4) == (Some("!"), 5);
  }

  /** The colon must be followed by a space. */
  lemma NoSpaceAfterColon(rest: string)
    requires rest == [] || rest[0] != ' '
    ensures ParseCommitMsg("feat:" + rest) == Failure(NoMatch)
  {
    var msg := "feat:" + rest;
    assert msg[4] == ':';
    assert |msg| > 5 ==> msg[5] == rest[0];
    forall k | 0 <= k < 4 ensures InClass(msg[k], Lower) { }
    RunStopsAt(msg, 0, 4, Lower);
    assert ScanScope(msg, 4) == (None, 4);
    assert ScanBang(msg, 4) == (None, 4);
  }

  /** The subject must not be empty. */
  lemma EmptySubject()
    ensures ParseCommitMsg("feat: ") == Failure(NoMatch)
  {
    var msg := "feat: ";
    assert msg[4] == ':' && |msg| == 6;
    forall k | 0 <= k < 4 ensures InClass(msg[k], Lower) { }
    RunStopsAt(msg, 0, 4, Lower);
    assert ScanScope(msg, 4) == (None, 4);
    assert ScanBang(msg, 4) == (None, 4);
  }
}
