/** Parsing of shell `export NAME=VALUE` lines and folding a file of them into
    an environment (mapreduce-pipeline/utilities.py, `parse_env_var_def` and
    `get_env_variables_from_file`). */
module EnvVars {
  import opened Wrappers
  import opened PyStr

  /** The literal that the pattern's lookbehind asks for. */
  const ExportWord: string := "export"

  /** Index of the first `c` at or after `from`, if any. */
  function IndexFrom(s: string, c: char, from: nat): (r: Option<nat>)
    requires from <= |s|
    ensures r.Some? ==> from <= r.value < |s| && s[r.value] == c
                        && forall k :: from <= k < r.value ==> s[k] != c
    ensures r.None? ==> forall k :: from <= k < |s| ==> s[k] != c
    decreases |s| - from
  {
    if from == |s| then None
    else if s[from] == c then Some(from)
    else IndexFrom(s, c, from + 1)
  }

  /** End of the run of whitespace that starts at `from` (greedy `\s+`). */
  function SpaceRunEnd(s: string, from: nat): (j: nat)
    requires from <= |s|
    ensures from <= j <= |s|
    ensures forall k :: from <= k < j ==> IsSpace(s[k])
    ensures j == |s| || !IsSpace(s[j])
    decreases |s| - from
  {
    if from < |s| && IsSpace(s[from]) then SpaceRunEnd(s, from + 1) else from
  }

  /** End of the line that contains `from` (greedy `.*`: every character but `\n`). */
  function LineEnd(s: string, from: nat): (j: nat)
    requires from <= |s|
    ensures from <= j <= |s|
    ensures forall k :: from <= k < j ==> s[k] != '\n'
    ensures j == |s| || s[j] == '\n'
    decreases |s| - from
  {
    if from < |s| && s[from] != '\n' then LineEnd(s, from + 1) else from
  }

  /** The two capture groups of a match: the text before the `=` and the rest of the line. */
  datatype Groups = Groups(lhs: string, rhs: string)

  /** One way for the pattern `\s*(?<=export)\s+([^=]+)=(.*)` to match from
      position `p`: `export` ends at `p`, `s[p..a]` is the `\s+` part,
      `s[a..e]` the first group and `s[e]` the `=`. (The leading `\s*` can only
      match the empty string here, because `export` ends in a letter.) */
  ghost predicate IsPath(s: string, p: int, a: int, e: int) {
    && 6 <= p < a < e < |s|
    && s[p - 6..p] == ExportWord
    && (forall k :: p <= k < a ==> IsSpace(s[k]))
    && (forall k :: a <= k < e ==> s[k] != '=')
    && s[e] == '='
  }

  /** No path from `p` has a longer `\s+` part than the one ending at `a`. */
  ghost predicate NoLongerPath(s: string, p: int, a: int) {
    forall a', e' :: IsPath(s, p, a', e') ==> a' <= a
  }

  /** The two groups of the pattern when matching from position `p` is tried:
      `export` must end at `p`, whitespace must follow, and the text from `p`
      up to the first `=` must be at least two characters long. The `\s+`
      part is greedy, so the first group starts after the whitespace run, or
      on its last character when the run reaches the `=`. */
  function MatchAt(s: string, p: nat): (g: Option<Groups>)
    requires p <= |s|
    ensures g.Some? ==> 6 <= p < |s| && s[p - 6..p] == ExportWord && IsSpace(s[p])
  {
    if p < 6 || s[p - 6..p] != ExportWord || p == |s| || !IsSpace(s[p]) then None
    else
      match IndexFrom(s, '=', p)
      case None => None
      case Some(e) =>
        if e - p < 2 then None
        else Some(Groups(s[GroupStart(s, p, e)..e], s[e + 1..LineEnd(s, e + 1)]))
  }

  /** Where the first group starts when the `=` is at `e`: after the greedy
      whitespace run, or on its last character when the run reaches the `=`. */
  function GroupStart(s: string, p: nat, e: nat): (a: nat)
    requires p < e <= |s|
  {
    var w := SpaceRunEnd(s, p);
    if w < e then w else e - 1
  }

  /** `MatchAt` succeeds exactly when the pattern has a path from `p`, and then
      it yields the path with the longest `\s+` part, the one the regular
      expression engine tries first. */
  lemma MatchAtIsGreedyPath(s: string, p: nat)
    requires p <= |s|
    ensures MatchAt(s, p).Some? <==> exists a, e :: IsPath(s, p, a, e)
    ensures MatchAt(s, p).Some? ==>
              exists a, e :: IsPath(s, p, a, e)
                && MatchAt(s, p).value.lhs == s[a..e]
                && MatchAt(s, p).value.rhs == s[e + 1..LineEnd(s, e + 1)]
                && NoLongerPath(s, p, a)
  {
    forall a, e ensures IsPath(s, p, a, e) ==> MatchAt(s, p).Some? {
      PathGivesMatch(s, p, a, e);
    }
    if MatchAt(s, p).Some? {
      MatchGivesGreedyPath(s, p);
    }
  }

  /** The groups of a successful `MatchAt` come from the greedy path. */
  lemma MatchGivesGreedyPath(s: string, p: nat)
    requires p <= |s| && MatchAt(s, p).Some?
    ensures exists a, e :: IsPath(s, p, a, e)
              && MatchAt(s, p).value.lhs == s[a..e]
              && MatchAt(s, p).value.rhs == s[e + 1..LineEnd(s, e + 1)]
              && NoLongerPath(s, p, a)
  {
    MatchAtShape(s, p);
    var e := IndexFrom(s, '=', p).value;
    var a := GroupStart(s, p, e);
    GreedyIsPath(s, p, e);
    forall a', e' | IsPath(s, p, a', e') ensures a' <= a {
      PathWithinGreedy(s, p, a', e');
    }
    assert NoLongerPath(s, p, a);
  }

  /** What a successful `MatchAt` establishes about the text. */
  lemma MatchAtShape(s: string, p: nat)
    requires p <= |s| && MatchAt(s, p).Some?
    ensures 6 <= p < |s| && s[p - 6..p] == ExportWord && IsSpace(s[p])
    ensures IndexFrom(s, '=', p).Some? && p + 2 <= IndexFrom(s, '=', p).value
    ensures var e := IndexFrom(s, '=', p).value;
            MatchAt(s, p).value == Groups(s[GroupStart(s, p, e)..e], s[e + 1..LineEnd(s, e + 1)])
  {
  }

  /** The greedy choice of `MatchAt` is a path. */
  lemma GreedyIsPath(s: string, p: nat, e: nat)
    requires 6 <= p < |s| && s[p - 6..p] == ExportWord && IsSpace(s[p])
    requires IndexFrom(s, '=', p) == Some(e) && p + 2 <= e
    ensures IsPath(s, p, GroupStart(s, p, e), e)
  {
    var a := GroupStart(s, p, e);
    assert forall k :: p <= k < a ==> IsSpace(s[k]);
    assert forall k :: a <= k < e ==> s[k] != '=';
  }

  /** A path from `p` ends at the first `=` after `p`, and its `\s+` part
      lies within the whitespace run at `p`. */
  lemma PathWithinGreedy(s: string, p: nat, a: int, e: int)
    requires p <= |s| && IsPath(s, p, a, e)
    ensures IndexFrom(s, '=', p) == Some(e)
    ensures a <= SpaceRunEnd(s, p)
  {
    forall k | p <= k < e ensures s[k] != '=' {
      assert k < a ==> IsSpace(s[k]);
    }
  }

  /** A path from `p` makes `MatchAt` succeed. */
  lemma PathGivesMatch(s: string, p: nat, a: int, e: int)
    requires p <= |s|
    ensures IsPath(s, p, a, e) ==> MatchAt(s, p).Some?
  {
    if IsPath(s, p, a, e) {
      assert forall k :: p <= k < e ==> s[k] != '=' by {
        forall k | p <= k < e ensures s[k] != '=' {
          assert k < a ==> IsSpace(s[k]);
        }
      }
      assert s[e] == '=';
      assert IndexFrom(s, '=', p) == Some(e);
    }
  }

  /** `re.search`: the leftmost position at or after `from` from which
      matching succeeds. */
  function SearchFrom(s: string, from: nat): (q: Option<nat>)
    requires from <= |s|
    ensures q.None? ==> forall k :: from <= k <= |s| ==> MatchAt(s, k).None?
    ensures q.Some? ==> from <= q.value <= |s| && MatchAt(s, q.value).Some?
                        && forall k :: from <= k < q.value ==> MatchAt(s, k).None?
    decreases |s| - from
  {
    if MatchAt(s, from).Some? then Some(from)
    else if from == |s| then None
    else SearchFrom(s, from + 1)
  }

  /** The groups of the match that `re.search` finds in `s`. */
  function Search(s: string): (g: Option<Groups>)
    ensures g.Some? ==> exists p :: 6 <= p < |s| && MatchAt(s, p) == g
                          && forall k :: 0 <= k < p ==> MatchAt(s, k).None?
  {
    match SearchFrom(s, 0)
    case None => None
    case Some(q) => MatchAt(s, q)
  }

  /** Neither the first nor the last character is a double quote. */
  predicate NoOuterQuote(x: string) {
    x == [] || (x[0] != '"' && x[|x| - 1] != '"')
  }

  /** Whitespace, then every `'`, then every `"` stripped from each end, as
      `x.strip().strip('\'').strip('"')` does. */
  function Clean(x: string): (r: string)
    ensures NoOuterQuote(r)
  {
    Strip(Strip(Strip(x, Whitespace), Char('\'')), Char('"'))
  }

  /** The first group of a match never contains `=`. */
  lemma SearchNameHasNoEquals(s: string)
    requires Search(s).Some?
    ensures '=' !in Search(s).value.lhs
  {
    var q := SearchFrom(s, 0).value;
    MatchAtIsGreedyPath(s, q);
    var a, e :| IsPath(s, q, a, e) && MatchAt(s, q).value.lhs == s[a..e];
    assert forall k :: 0 <= k < e - a ==> s[a..e][k] == s[a + k];
  }

  /** Stripping keeps a slice of its input, so it introduces no `=`. */
  lemma StripHasNoEquals(x: string, m: Strippable)
    requires '=' !in x
    ensures '=' !in Strip(x, m)
  {
    var i := LeadingRun(x, m);
    var j := TrailingRunStart(x, m, i);
    assert forall k :: 0 <= k < j - i ==> x[i..j][k] == x[i + k];
  }

  /** Cleaning introduces no `=`. */
  lemma CleanHasNoEquals(x: string)
    ensures '=' !in x ==> '=' !in Clean(x)
  {
    if '=' !in x {
      StripHasNoEquals(x, Whitespace);
      StripHasNoEquals(Strip(x, Whitespace), Char('\''));
      StripHasNoEquals(Strip(Strip(x, Whitespace), Char('\'')), Char('"'));
    }
  }

  /** A side with no whitespace and no quote at either end is kept as it is. */
  lemma CleanKeepsPlain(x: string)
    requires x != [] && !IsSpace(x[0]) && !IsSpace(x[|x| - 1])
    requires x[0] !in "'\"" && x[|x| - 1] !in "'\""
    ensures Clean(x) == x
  {
    assert x[0..|x|] == x;
    assert x[0] != '\'' && x[0] != '"' && x[|x| - 1] != '\'' && x[|x| - 1] != '"';
    StripIsUnique(x, Whitespace, 0, |x|);
    assert Strip(x, Whitespace) == x;
    StripIsUnique(x, Char('\''), 0, |x|);
    assert Strip(x, Char('\'')) == x;
    StripIsUnique(x, Char('"'), 0, |x|);
  }

  /** The pair a match defines: both groups cleaned, or `None` when either is
      empty afterwards. */
  function Definition(g: Groups): (r: Option<(string, string)>)
    ensures r.Some? ==> r.value.0 != [] && r.value.1 != []
    ensures r.Some? ==> NoOuterQuote(r.value.0) && NoOuterQuote(r.value.1)
    ensures r.Some? && '=' !in g.lhs ==> '=' !in r.value.0
  {
    CleanHasNoEquals(g.lhs);
    var name := Clean(g.lhs);
    var value := Clean(g.rhs);
    if name != [] && value != [] then Some((name, value)) else None
  }

  /** `parse_env_var_def`: the (name, value) defined by the line, or `None`.
      Only the leftmost match is considered; when either side is empty after
      cleaning the line yields `None`. */
  function ParseEnvVarDef(s: string): (r: Option<(string, string)>)
    ensures r.Some? ==> r.value.0 != [] && r.value.1 != []
    ensures r.Some? ==> '=' !in r.value.0
    ensures r.Some? ==> NoOuterQuote(r.value.0) && NoOuterQuote(r.value.1)
  {
    match Search(s)
    case None => None
    case Some(g) =>
      SearchNameHasNoEquals(s);
      Definition(g)
  }

  /** `p`, `a`, `e` is the path the regular expression engine reports: no
      path starts further left, and none from `p` has a longer `\s+` part. */
  ghost predicate FirstGreedyPath(s: string, p: int, a: int, e: int) {
    && IsPath(s, p, a, e)
    && (forall p', a', e' :: p' < p ==> !IsPath(s, p', a', e'))
    && NoLongerPath(s, p, a)
  }

  /** The regular expression reports at most one path. */
  lemma FirstGreedyPathUnique(s: string, p: int, a: int, e: int, p': int, a': int, e': int)
    requires FirstGreedyPath(s, p, a, e) && FirstGreedyPath(s, p', a', e')
    ensures p == p' && a == a' && e == e'
  {
    assert !(p' < p) && !(p < p');
    assert a <= a' && a' <= a;
    assert s[e] == '=' && s[e'] == '=';
    assert e == e';
  }

  /** `re.search` reports exactly the first greedy path, and fails exactly
      when there is no path at all. */
  lemma SearchIsFirstGreedyPath(s: string)
    ensures Search(s).None? <==> forall p, a, e :: !IsPath(s, p, a, e)
    ensures Search(s).Some? ==>
              exists p, a, e :: FirstGreedyPath(s, p, a, e)
                && Search(s).value.lhs == s[a..e]
                && Search(s).value.rhs == s[e + 1..LineEnd(s, e + 1)]
  {
    match SearchFrom(s, 0)
    case None =>
      forall p, a, e ensures !IsPath(s, p, a, e) {
        if 0 <= p <= |s| { PathGivesMatch(s, p, a, e); }
      }
    case Some(q) =>
      MatchGivesGreedyPath(s, q);
      var a, e :| IsPath(s, q, a, e) && NoLongerPath(s, q, a);
      forall p', a', e' | p' < q ensures !IsPath(s, p', a', e') {
        if 0 <= p' { PathGivesMatch(s, p', a', e'); }
      }
      assert FirstGreedyPath(s, q, a, e);
      SearchOnFirstPath(s, q, a, e);
  }

  /** Without any path for the regular expression the line defines nothing. */
  lemma ParseWithoutPath(s: string)
    requires forall p, a, e :: !IsPath(s, p, a, e)
    ensures ParseEnvVarDef(s).None?
  {
    SearchIsFirstGreedyPath(s);
  }

  /** On the path the regular expression reports, `re.search` yields that
      path's groups. */
  lemma SearchOnFirstPath(s: string, p: int, a: int, e: int)
    requires FirstGreedyPath(s, p, a, e)
    ensures Search(s) == Some(Groups(s[a..e], s[e + 1..LineEnd(s, e + 1)]))
  {
    forall k | 0 <= k < p ensures MatchAt(s, k).None? {
      MatchAtIsGreedyPath(s, k);
    }
    PathGivesMatch(s, p, a, e);
    SearchFindsFirst(s, p);
    FirstPathIsGreedyChoice(s, p, a, e);
  }

  /** `re.search` stops at the first position where matching succeeds. */
  lemma SearchFindsFirst(s: string, p: nat)
    requires p <= |s| && MatchAt(s, p).Some?
    requires forall k :: 0 <= k < p ==> MatchAt(s, k).None?
    ensures SearchFrom(s, 0) == Some(p)
  {
  }

  /** The greedy path from `p` is the one `MatchAt` chooses. */
  lemma FirstPathIsGreedyChoice(s: string, p: nat, a: int, e: int)
    requires p <= |s| && IsPath(s, p, a, e) && NoLongerPath(s, p, a)
    ensures MatchAt(s, p) == Some(Groups(s[a..e], s[e + 1..LineEnd(s, e + 1)]))
  {
    PathGivesMatch(s, p, a, e);
    PathWithinGreedy(s, p, a, e);
    MatchAtShape(s, p);
    GreedyIsPath(s, p, e);
    assert GroupStart(s, p, e) == a;
  }

  /** On the path the regular expression reports, the result is the pair of
      cleaned groups when both are non-empty, and `None` otherwise: later
      occurrences of `export` are never tried. */
  lemma ParseOnFirstPath(s: string, p: int, a: int, e: int)
    requires FirstGreedyPath(s, p, a, e)
    ensures ParseEnvVarDef(s) == Definition(Groups(s[a..e], s[e + 1..LineEnd(s, e + 1)]))
  {
    SearchOnFirstPath(s, p, a, e);
  }

  /** A pair is returned only if the line has `export`, then whitespace, then
      later an `=`; `export` need not be a word of its own. */
  lemma ParsedLineHasExport(s: string)
    requires ParseEnvVarDef(s).Some?
    ensures exists p :: 6 <= p < |s| && s[p - 6..p] == ExportWord && IsSpace(s[p]) && '=' in s[p..]
  {
    SearchIsFirstGreedyPath(s);
    var p, a, e :| FirstGreedyPath(s, p, a, e);
    assert s[p..][e - p] == '=';
  }

  /** A path starts right after an `e`. */
  lemma PathFollowsE(s: string, p: int, a: int, e: int)
    ensures IsPath(s, p, a, e) ==> s[p - 6] == 'e'
  {
    if IsPath(s, p, a, e) {
      assert s[p - 6..p][0] == s[p - 6];
    }
  }

  /** Every path starts six characters after an `e`, so none starts before
      `p` when no `e` occurs before `p - 6`. */
  lemma NoPathBeforeFirstE(s: string, p: int)
    requires 6 <= p <= |s|
    requires forall q :: 0 <= q < p - 6 ==> s[q] != 'e'
    ensures forall p', a', e' :: p' < p ==> !IsPath(s, p', a', e')
  {
    forall p', a', e' | p' < p ensures !IsPath(s, p', a', e') {
      PathFollowsE(s, p', a', e');
    }
  }

  /** A pair of groups that need no cleaning is the definition itself. */
  lemma DefinitionOfPlain(name: string, value: string)
    requires name != [] && !IsSpace(name[0]) && !IsSpace(name[|name| - 1])
    requires name[0] !in "'\"" && name[|name| - 1] !in "'\""
    requires value != [] && !IsSpace(value[0]) && !IsSpace(value[|value| - 1])
    requires value[0] !in "'\"" && value[|value| - 1] !in "'\""
    ensures Definition(Groups(name, value)) == Some((name, value))
  {
    CleanKeepsPlain(name);
    CleanKeepsPlain(value);
  }

  /** The end of the line is the first newline at or after `from`, or the end
      of `s`. */
  lemma {:induction false} LineEndIs(s: string, from: nat, j: nat)
    requires from <= j <= |s|
    requires forall k :: from <= k < j ==> s[k] != '\n'
    requires j == |s| || s[j] == '\n'
    ensures LineEnd(s, from) == j
    decreases j - from
  {
    if from < j {
      LineEndIs(s, from + 1, j);
    }
  }

  /** When no path starts before an `export` that is followed by exactly one
      whitespace character and a name, the groups are that name and the rest
      of the line after the first `=`. */
  lemma ParseOnSimplePath(s: string, p: int, e: int)
    requires 6 <= p && p + 1 < e < |s|
    requires s[p - 6..p] == ExportWord
    requires IsSpace(s[p]) && !IsSpace(s[p + 1])
    requires forall k :: p + 1 <= k < e ==> s[k] != '='
    requires s[e] == '='
    requires forall p', a', e' :: p' < p ==> !IsPath(s, p', a', e')
    ensures ParseEnvVarDef(s) == Definition(Groups(s[p + 1..e], s[e + 1..LineEnd(s, e + 1)]))
  {
    assert s[p] != '=';
    assert IsPath(s, p, p + 1, e);
    forall a', e' | IsPath(s, p, a', e') ensures a' <= p + 1 {
    }
    ParseOnFirstPath(s, p, p + 1, e);
  }

  /** Line `i` of `defs` defines `name`. */
  predicate DefinesAt(defs: seq<Option<(string, string)>>, i: int, name: string)
    requires 0 <= i < |defs|
  {
    defs[i].Some? && defs[i].value.0 == name
  }

  /** The dictionary comprehension over parsed lines: lines that did not
      parse are skipped, and a later definition of a name replaces an earlier
      one. */
  function DefinitionsToMap(defs: seq<Option<(string, string)>>): (env: map<string, string>)
    ensures |env| <= |defs|
  {
    if defs == [] then map[]
    else
      match defs[|defs| - 1]
      case None => DefinitionsToMap(defs[..|defs| - 1])
      case Some(d) => DefinitionsToMap(defs[..|defs| - 1])[d.0 := d.1]
  }

  lemma {:induction false} DefinitionsToMapKeys(defs: seq<Option<(string, string)>>, name: string)
    ensures name in DefinitionsToMap(defs) <==> exists i :: 0 <= i < |defs| && DefinesAt(defs, i, name)
  {
    if defs != [] {
      var init := defs[..|defs| - 1];
      DefinitionsToMapKeys(init, name);
      assert forall i :: 0 <= i < |init| ==> init[i] == defs[i];
      if name in DefinitionsToMap(init) {
        var i :| 0 <= i < |init| && DefinesAt(init, i, name);
        assert DefinesAt(defs, i, name);
      }
      forall i | 0 <= i < |init| && DefinesAt(defs, i, name)
        ensures name in DefinitionsToMap(init)
      {
        assert DefinesAt(init, i, name);
      }
      if DefinesAt(defs, |defs| - 1, name) {
        assert name in DefinitionsToMap(defs);
      } else {
        assert name in DefinitionsToMap(defs) <==> name in DefinitionsToMap(init);
      }
    }
  }

  lemma {:induction false} DefinitionsToMapLastWins(defs: seq<Option<(string, string)>>, i: int)
    requires 0 <= i < |defs| && defs[i].Some?
    requires forall j :: i < j < |defs| ==> !DefinesAt(defs, j, defs[i].value.0)
    ensures defs[i].value.0 in DefinitionsToMap(defs)
    ensures DefinitionsToMap(defs)[defs[i].value.0] == defs[i].value.1
  {
    var init := defs[..|defs| - 1];
    if i < |defs| - 1 {
      forall j | i < j < |init| ensures !DefinesAt(init, j, init[i].value.0) {
        assert init[j] == defs[j];
        assert !DefinesAt(defs, j, defs[i].value.0);
      }
      DefinitionsToMapLastWins(init, i);
      assert !DefinesAt(defs, |defs| - 1, defs[i].value.0);
    }
  }

  lemma {:induction false} DefinitionsToMapValue(defs: seq<Option<(string, string)>>, name: string)
    requires name in DefinitionsToMap(defs)
    ensures exists i :: 0 <= i < |defs| && DefinesAt(defs, i, name)
                        && DefinitionsToMap(defs)[name] == defs[i].value.1
  {
    var init := defs[..|defs| - 1];
    assert forall j :: 0 <= j < |init| ==> init[j] == defs[j];
    if defs[|defs| - 1].Some? && defs[|defs| - 1].value.0 == name {
      assert DefinesAt(defs, |defs| - 1, name);
    } else {
      DefinitionsToMapValue(init, name);
      var i :| 0 <= i < |init| && DefinesAt(init, i, name)
               && DefinitionsToMap(init)[name] == init[i].value.1;
      assert DefinesAt(defs, i, name);
    }
  }

  /** `parse_env_var_def` applied to every line, in order. */
  function ParseLines(lines: seq<string>): seq<Option<(string, string)>>
  {
    seq(|lines|, i requires 0 <= i < |lines| => ParseEnvVarDef(lines[i]))
  }

  /** `get_env_variables_from_file`, on the lines of the file as `readlines`
      returns them. */
  function GetEnvVariablesFromFile(lines: seq<string>): (env: map<string, string>)
    ensures |env| <= |lines|
  {
    DefinitionsToMap(ParseLines(lines))
  }

  /** The keys are exactly the names defined by lines that parse. */
  lemma EnvKeysAreParsedNames(lines: seq<string>, name: string)
    ensures name in GetEnvVariablesFromFile(lines)
            <==> exists i :: 0 <= i < |lines| && ParseEnvVarDef(lines[i]).Some?
                             && ParseEnvVarDef(lines[i]).value.0 == name
  {
    var defs := ParseLines(lines);
    DefinitionsToMapKeys(defs, name);
    assert forall i :: 0 <= i < |lines| ==> (DefinesAt(defs, i, name) <==>
      ParseEnvVarDef(lines[i]).Some? && ParseEnvVarDef(lines[i]).value.0 == name);
  }

  /** Every name in the map is non-empty and free of `=`, and every value is
      non-empty. */
  lemma EnvEntriesWellFormed(lines: seq<string>, name: string)
    requires name in GetEnvVariablesFromFile(lines)
    ensures name != [] && '=' !in name
    ensures GetEnvVariablesFromFile(lines)[name] != []
  {
    var defs := ParseLines(lines);
    DefinitionsToMapValue(defs, name);
  }

  /** For a repeated name the value of the last line defining it wins. */
  lemma EnvLastDefinitionWins(lines: seq<string>, i: int)
    requires 0 <= i < |lines| && ParseEnvVarDef(lines[i]).Some?
    requires forall j :: i < j < |lines| && ParseEnvVarDef(lines[j]).Some?
                 ==> ParseEnvVarDef(lines[j]).value.0 != ParseEnvVarDef(lines[i]).value.0
    ensures var env := GetEnvVariablesFromFile(lines);
            var (name, value) := ParseEnvVarDef(lines[i]).value;
            name in env && env[name] == value
  {
    var defs := ParseLines(lines);
    assert defs[i] == ParseEnvVarDef(lines[i]);
    forall j | i < j < |defs| ensures !DefinesAt(defs, j, defs[i].value.0) {
      assert defs[j] == ParseEnvVarDef(lines[j]);
    }
    DefinitionsToMapLastWins(defs, i);
  }
}
