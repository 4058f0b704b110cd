/** Worked examples of `parse_env_var_def` on concrete lines. */
module EnvVarExamples {
  import opened Wrappers
  import opened PyStr
  import opened EnvVars

  // Each example below is split in three: the groups the line yields, the
  // definition those groups give, and the two combined. Keeping the parsed
  // line and the literal groups in separate contexts keeps each proof small.

  lemma QuotedValueMatch(s: string)
    requires s == "  export FOO=\"bar baz\""
    ensures ParseEnvVarDef(s) == Definition(Groups(s[9..12], s[13..LineEnd(s, 13)]))
  {
    assert s[2..8] == ExportWord;
    NoPathBeforeFirstE(s, 8);
    ParseOnSimplePath(s, 8, 12);
  }

  lemma QuotedValueLineEnd(s: string)
    requires s == "  export FOO=\"bar baz\""
    ensures LineEnd(s, 13) == 22
  {
    LineEndIs(s, 13, 22);
  }

  lemma QuotedValueSlices(s: string, name: string, value: string)
    requires s == "  export FOO=\"bar baz\"" && name == "FOO" && value == "\"bar baz\""
    ensures s[9..12] == name && s[13..22] == value
  {
  }

  lemma QuotedValueGroups(s: string, name: string, value: string)
    requires s == "  export FOO=\"bar baz\"" && name == "FOO" && value == "\"bar baz\""
    ensures ParseEnvVarDef(s) == Definition(Groups(name, value))
  {
    QuotedValueMatch(s);
    QuotedValueLineEnd(s);
    QuotedValueSlices(s, name, value);
  }

  lemma QuotedValueDefinition(name: string, value: string, unquoted: string)
    requires name == "FOO" && value == "\"bar baz\"" && unquoted == "bar baz"
    ensures Definition(Groups(name, value)) == Some((name, unquoted))
  {
    CleanKeepsPlain(name);
    assert value[0..9] == value;
    StripIsUnique(value, Whitespace, 0, 9);
    StripIsUnique(value, Char('\''), 0, 9);
    StripIsUnique(value, Char('"'), 1, 8);
    assert value[1..8] == unquoted;
  }

  /** A double-quoted value loses its quotes: `  export FOO="bar baz"`
      defines `FOO` as `bar baz`. */
  lemma ExampleQuotedValue(s: string)
    requires s == "  export FOO=\"bar baz\""
    ensures ParseEnvVarDef(s) == Some(("FOO", "bar baz"))
  {
    QuotedValueGroups(s, "FOO", "\"bar baz\"");
    QuotedValueDefinition("FOO", "\"bar baz\"", "bar baz");
  }

  lemma CommentedLineMatch(s: string)
    requires s == "# export A=B"
    ensures ParseEnvVarDef(s) == Definition(Groups(s[9..10], s[11..LineEnd(s, 11)]))
  {
    assert s[2..8] == ExportWord;
    NoPathBeforeFirstE(s, 8);
    ParseOnSimplePath(s, 8, 10);
  }

  lemma CommentedLineLineEnd(s: string)
    requires s == "# export A=B"
    ensures LineEnd(s, 11) == 12
  {
    LineEndIs(s, 11, 12);
  }

  lemma CommentedLineSlices(s: string, name: string, value: string)
    requires s == "# export A=B" && name == "A" && value == "B"
    ensures s[9..10] == name && s[11..12] == value
  {
  }

  lemma CommentedLineGroups(s: string, name: string, value: string)
    requires s == "# export A=B" && name == "A" && value == "B"
    ensures ParseEnvVarDef(s) == Definition(Groups(name, value))
  {
    CommentedLineMatch(s);
    CommentedLineLineEnd(s);
    CommentedLineSlices(s, name, value);
  }

  lemma PlainDefinitions(name: string, value: string, valueWithEquals: string)
    requires name == "A" && value == "B" && valueWithEquals == "b=c"
    ensures Definition(Groups(name, value)) == Some((name, value))
    ensures Definition(Groups(name, valueWithEquals)) == Some((name, valueWithEquals))
  {
    DefinitionOfPlain(name, value);
    DefinitionOfPlain(name, valueWithEquals);
  }

  /** `export` need not be a word of its own: a commented-out line
      `# export A=B` still defines `A`. */
  lemma ExampleCommentedLine(s: string)
    requires s == "# export A=B"
    ensures ParseEnvVarDef(s) == Some(("A", "B"))
  {
    CommentedLineGroups(s, "A", "B");
    PlainDefinitions("A", "B", "b=c");
  }

  lemma ValueWithEqualsMatch(s: string)
    requires s == "export A=b=c\n"
    ensures ParseEnvVarDef(s) == Definition(Groups(s[7..8], s[9..LineEnd(s, 9)]))
  {
    assert s[0..6] == ExportWord;
    NoPathBeforeFirstE(s, 6);
    ParseOnSimplePath(s, 6, 8);
  }

  lemma ValueWithEqualsLineEnd(s: string)
    requires s == "export A=b=c\n"
    ensures LineEnd(s, 9) == 12
  {
    LineEndIs(s, 9, 12);
  }

  lemma ValueWithEqualsSlices(s: string, name: string, value: string)
    requires s == "export A=b=c\n" && name == "A" && value == "b=c"
    ensures s[7..8] == name && s[9..12] == value
  {
  }

  lemma ValueWithEqualsGroups(s: string, name: string, value: string)
    requires s == "export A=b=c\n" && name == "A" && value == "b=c"
    ensures ParseEnvVarDef(s) == Definition(Groups(name, value))
  {
    ValueWithEqualsMatch(s);
    ValueWithEqualsLineEnd(s);
    ValueWithEqualsSlices(s, name, value);
  }

  /** The name ends at the first `=`; the value keeps any later `=` and ends
      at the newline. */
  lemma ExampleValueWithEquals(s: string)
    requires s == "export A=b=c\n"
    ensures ParseEnvVarDef(s) == Some(("A", "b=c"))
  {
    ValueWithEqualsGroups(s, "A", "b=c");
    PlainDefinitions("A", "B", "b=c");
  }

  /** An empty name yields nothing: `export =x` has no path at all. */
  lemma ExampleEmptyName(s: string)
    requires s == "export =x"
    ensures ParseEnvVarDef(s) == None
  {
    forall p, a, e ensures !IsPath(s, p, a, e) {
      if 7 <= p < |s| {
        assert s[p - 6..p][0] == s[p - 6];
      } else if p == 6 && a == 7 {
        assert s[7] == '=';
      } else if p == 6 && a > 7 {
        assert !IsSpace(s[7]);
      }
    }
    ParseWithoutPath(s);
  }

  lemma LaterExportMatch(s: string)
    requires s == "export ''=x export A=B"
    ensures ParseEnvVarDef(s) == Definition(Groups(s[7..9], s[10..LineEnd(s, 10)]))
  {
    assert s[0..6] == ExportWord;
    NoPathBeforeFirstE(s, 6);
    ParseOnSimplePath(s, 6, 9);
  }

  lemma LaterExportLineEnd(s: string)
    requires s == "export ''=x export A=B"
    ensures LineEnd(s, 10) == |s|
  {
    LineEndIs(s, 10, |s|);
  }

  lemma LaterExportSlices(s: string, name: string, value: string)
    requires s == "export ''=x export A=B" && name == "''" && value == "x export A=B"
    ensures s[7..9] == name && s[10..|s|] == value
  {
  }

  lemma LaterExportGroups(s: string, name: string, value: string)
    requires s == "export ''=x export A=B" && name == "''" && value == "x export A=B"
    ensures ParseEnvVarDef(s) == Definition(Groups(name, value))
  {
    LaterExportMatch(s);
    LaterExportLineEnd(s);
    LaterExportSlices(s, name, value);
  }

  lemma LaterExportDefinition(name: string, value: string)
    requires name == "''"
    ensures Definition(Groups(name, value)) == None
  {
    StripIsUnique(name, Whitespace, 0, 2);
    StripIsUnique(name, Char('\''), 2, 2);
  }

  /** When the first match cleans to an empty side the line yields nothing,
      even though a later `export A=B` would have matched. */
  lemma ExampleLaterExportIgnored(s: string)
    requires s == "export ''=x export A=B"
    ensures ParseEnvVarDef(s) == None
  {
    LaterExportGroups(s, "''", "x export A=B");
    LaterExportDefinition("''", "x export A=B");
  }
}
